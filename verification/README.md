# gnocchi: path counting and the gcov word stream

gnocchi reads the note files that gcc writes for coverage, builds one control-flow graph per function
and reports for each function its cyclomatic number and its NPATH number, once with and once without
the edges of the exit block. This project models two connected parts of it and proves what they are for.

**The path counter.** A depth-first-search visitor fills a `parent` and a `complexity` table in one
pass (`NpathCounter.dfy`, a class over arrays, each callback and the search itself proved equal to the
functional search of `DepthFirst.dfy`). The graph library is not part of the repository, so the search
is fixed as follows: roots in ascending order, out-edges in ascending order of target without parallel
edges, a tree edge before its child, a back edge on a grey target, a forward or cross edge on a black
one, the finish last. `SearchTheory.dfy` and `WholeSearch.dfy` hold the depth-first-search theory: the
frame of a step, the finish log, and one local equation per vertex. On top of it:

- `AcyclicNpath.dfy`, `EventStates.dfy`: on acyclic graphs every entry is the number of maximal paths,
  at most 2^(n-2) at every event of the search, and the bound is reached.
- `Cyclomatic.dfy`: NPATH dominates the cyclomatic number.
- `CyclicNpath.dfy`, `CyclicBound.dfy`: what is reported on graphs with loops, for every graph, and how
  large it gets.
- `ExceptionDelta.dfy`, `NegativeDelta.dfy`: the two runs of the analyser compared, and a function on which
  the comparison fails.
- `EntryTree.dfy`, `SmallDeltas.dfy`, `DeltaBoundary.dfy`: for every number of blocks, the out-edges of the
  exit block with which the comparison never fails, and for all others a graph on which it does.
- `WalkCounts.dfy`, `Structured.dfy`, `FunctionMeasures.dfy`: compiled structured code gets the
  compositional NPATH, and with exceptions the ways into its calls on top.
- `Analyser.dfy`, `ReportedMeasures.dfy`, `CyclomaticNumbers.dfy`: the analyser itself with its ordered set
  of functions, the laws above restated about the numbers it records, and what the recorded cyclomatic
  numbers count.

**The gcov word stream.** `Words.dfy` (32-bit words, byte order, 64-bit counters, strings), `Tags.dfy`
(record tags), and three buffers: the growable read buffer (`ReadBuffer.dfy`), the 1025-word buffer of
the run-time library (`FixedBuffer.dfy`) and the growable write buffer with back-patched record lengths
(`RecordWriter.dfy`). The readers refine the plain cursor of `Cursors.dfy`; the writers refine one
append-only sequence of words. `Records.dfy` gives the round trip of numbers, 64-bit counters, strings,
records and summaries. `NoteReader.dfy` is the record loop, `ReaderLoop.dfy` and `LoopCondition.dfy` say
when it ends, `NoteFiles.dfy` and `Grouping.dfy` what it computes for every well-formed note file, and
`CompiledFiles.dfy` joins both halves: from the words of a file to the reported numbers. `SampleFile.dfy`
does so for one file in literal words.

Notation: `Run(g)` is the state after the whole search, `Measured(f, g)` what the analyser records.
`Halts` says of a run of the record loop that the model's loop stops, and `Ends` that moreover it does not
stop because it gives up on a request (status Oversized, see below), so that the source's loop ends too;
`Decided(f)` and `Terminates(f)` are the same for a file. `Opened(f)` is what reading it yields, `View()`
the cursor a read buffer stands for, `Whole()` and `Stream()` what has been written so far.

Three places where the code and its own comments differ; the model follows the code. An empty string
that is not NULL is stored as one zero word behind its length (`gcov-io.c:284-294`), not as length zero
(`gcov-io.h:45-46`). The current source file starts out empty in every LINES record
(`gcov_reader.cpp:174`) instead of being remembered (`gcov-io.h:124-129`). Clearing a block keeps it in
`num_vertices`, because its removal is commented out (`analyser.cpp:39`, `analyser.cpp:109`).

Two promises that the code does not keep everywhere, each with a failing input and the exact condition:

- The commented-out assertion `npath_delta >= 0` (`main.cpp:183`) is false in general: `DeltaCanBeNegative`
  gives a function of five blocks with 2 paths in one run and 3 in the other. For every number of blocks
  the last block's out-edges decide whether the assertion holds of every flow graph with these out-edges
  (`DeltaBoundaryExact`): up to four blocks it always does; with five it fails exactly when they lead to
  block 3 and either to the last block itself or to neither block 1 nor block 2; from six blocks on it
  holds exactly when they lead nowhere but to block 0, to block 1 and to the last block itself. It also
  holds of every function whose flow graph, with the entry cleared, has no loop, whatever the last block
  leads to (`DeltasNonNegative`).
- The record loop does not end on every file. On the five-word files of `NeverReturns` every turn skips a
  record whose length leads back to its own header; on the eight-word files of `LostNameNeverReturns` every
  turn asks for a file name that is not there and is led back in the same way. What becomes of the loop is
  known after one turn more than the file has words: it goes round for ever exactly when it is still
  running then (`EndsExact`). The headers alone decide it in advance for runs whose turns start without a
  pending failure and that stop only at a zero tag: the loop ends if and only if the walk from header to
  header, of as many steps as the file has words, comes to a word that is no header (`EndsByHeaders`). On
  any file the loop ends if that walk does (`WalkEnds`), in particular when no record on it claims to end
  at 2^30 words or beyond (`ShortRecordsEnd`).

## Model

| member | source | states |
|---|---|---|
| NpathCounting.NpathCounter.TreeEdge | npath_counter.hpp:64-70 | the child's parent slot takes the source unless it is already set; nothing else but the edge count changes |
| NpathCounting.NpathCounter.BackEdge | npath_counter.hpp:71-78 | the accumulator of the source is set to 1, not increased, and the target's parent slot takes the source unless set |
| NpathCounting.NpathCounter.ForwardOrCrossEdge | npath_counter.hpp:79-87 | the value of the finished target is added to the source |
| NpathCounting.NpathCounter.FinishVertex | npath_counter.hpp:88-109 | an empty result becomes 1, then it is paid to the parent, except by vertex 0 or without a parent |
| NpathCounting.NpathCounter.DepthFirstVisit | npath_counter.hpp:41-115 | the in-place search of one tree leaves exactly the tables of the functional search |
| NpathCounting.NpathCounter.DepthFirstSearch | analyser.cpp:112-117 | from fresh tables the in-place search leaves the tables of `Run(g)`, and the visitor's cabe is edges - vertices + 2 |
| SearchTheory.EdgesFrame | npath_counter.hpp:64-109 | exploring out-edges leaves every other grey or black vertex and its table entries alone, sets parents once, and leaves no examined target white |
| SearchTheory.EdgeValue | npath_counter.hpp:64-109 | whatever the search does below an edge, its source's accumulator ends at 1 for a back edge and gains exactly the target's final value for any other |
| SearchTheory.EdgesFold | npath_counter.hpp:71-87 | the accumulator is the ascending fold over the successors: reset to 1 at an unfinished target, plus the target's value at a finished one |
| SearchTheory.BackIffUnfinished | npath_counter.hpp:71-87 | an edge is a back edge exactly when its target has not finished when the source's out-edges are all done; finished targets are final |
| SearchTheory.VertexSolved | npath_counter.hpp:71-109 | every vertex that finishes in the exploration satisfies the fold equation, and every unfinished target lies on a cycle with it; entries of other grey vertices stay |
| WholeSearch.RunCounts | npath_counter.hpp:60-109 | on any graph every vertex finishes exactly once, every edge is classified exactly once, and cabe is num_edges - num_vertices + 2 |
| WholeSearch.RootVisit | npath_counter.hpp:71-109 | for any root of any graph, before its own credit, the equations hold for its whole tree; a parent of the root closes a cycle through it |
| WholeSearch.RootPays | npath_counter.hpp:88-109 | at its end a root other than vertex 0 pays its value once to the source of the first edge that came back to it, and vertex 0 pays nobody |
| WholeSearch.RootFrame | npath_counter.hpp:64-109 | what a root's tree leaves of the tables of earlier trees |
| WholeSearch.AcyclicIffTopological | npath_counter.hpp:71-78 | the graph is acyclic if and only if no edge leads to a target that finishes later, that is, the search meets no back edge |
| WholeSearch.AcyclicRun | npath_counter.hpp:64-109 | on an acyclic graph the equations hold for every vertex at the end of the run, over all roots |
| Paths.MaximalPathsExact | npath_counter.hpp:88-101 | the enumerated set is exactly the set of walks from the block that end in a block without successors |
| Paths.PathCountIsSize | npath_counter.hpp:79-109 | the recursive count is the size of that set |
| AcyclicNpath.NpathCountsPaths | npath_counter.hpp:64-109 | on every acyclic graph and for every block, the table entry after the search is the number of maximal paths from it |
| AcyclicNpath.PrefixBound | npath_counter.hpp:79-109 | the k-th block to finish has at most 2^(k-1) paths, and the first k+1 together at most 2^k |
| AcyclicNpath.NpathBound | npath_counter.hpp:24 | every final entry of an acyclic graph of n blocks is at most 2^(n-2) |
| AcyclicNpath.EdgesGrow | npath_counter.hpp:79-109 | on an acyclic graph the entries only grow while a vertex's out-edges are examined |
| AcyclicNpath.RootsGrow | npath_counter.hpp:79-109 | entries only grow from one root to the next, on any graph |
| AcyclicNpath.NpathBoundAttained | npath_counter.hpp:79-109 | the complete acyclic graph of n blocks reports exactly 2^(n-2) |
| EventStates.EveryValueBounded | npath_counter.hpp:64-109 | at every event of the search of an acyclic graph every entry is at most its final value, hence at most 2^(n-2) |
| EventStates.NoOverflowUpTo64 | npath_counter.hpp:24 | at no event of the search does a signed 64-bit CountType overflow, on acyclic graphs of up to 64 blocks |
| EventStates.ResultOccurs | npath_counter.hpp:64-109 | the event states include the result of the search |
| EventStates.NoEventSkipped | npath_counter.hpp:64-109 | between the initial tables and the result there is an event state for every number of classified edges and for every number of finished vertices |
| Cyclomatic.PathsExceedBranching | npath_counter.hpp:79-109 | the paths from a block exceed the sum of (out-degree - 1) over the branching blocks it reaches |
| Cyclomatic.NpathDominates | analyser.cpp:118-119 | paths from u are at least E_r - V_r + 1 + L_r over the edges, blocks and leaves that u reaches |
| Cyclomatic.NpathBeatsCyclomatic | analyser.cpp:118-119 | when every edge source is reachable, NPATH exceeds E - V + 2 by at least the number of unreachable blocks |
| CyclicNpath.ReportedNpath | npath_counter.hpp:71-109 | on every graph with the entry block cleared, block 1's value is the path count of the acyclic graph in which each block's edges up to its last back edge become one exit; twice that with a self-loop on block 1 |
| CyclicNpath.CollapsedAcyclic | npath_counter.hpp:71-78 | that collapsed graph is well-formed and acyclic for any finish order |
| CyclicNpath.MergedIffBacksFirst | npath_counter.hpp:71-87 | collapsing is the same as merging the back edges into one extra exit if and only if the block's back edges precede its other edges |
| CyclicNpath.MergedIffBacksFirstEverywhere | npath_counter.hpp:71-87 | the same for whole graphs |
| CyclicNpath.MergedNpath | npath_counter.hpp:71-109 | when every block's back edges precede its other edges, block 1's value is the path count of the graph with the back edges merged into one extra exit; twice that with a self-loop |
| CyclicNpath.ReportedValue | npath_counter.hpp:74-109 | later roots do not disturb block 1; its reported value is the settled one, doubled exactly when it is its own parent |
| CyclicNpath.SelfLoopParent | npath_counter.hpp:75 | the first non-trivial root is its own parent if and only if it has a self-loop |
| ExceptionDelta.VertexAhead | npath_counter.hpp:64-109 | simulation: the search that keeps the exit block stays ahead of the one that clears it, vertex by vertex, cyclic or not, when the exit leads nowhere or only to itself and to a block still being explored |
| ExceptionDelta.HomewardDelta | npath_counter.hpp:64-109 | with the entry cleared, block 1's entry with the exit kept is at least that with it cleared when the exit leads only to block 1 and to itself |
| ExceptionDelta.AcyclicDelta | npath_counter.hpp:64-109 | the same for every block of an acyclic graph, whatever the exit leads to |
| ExceptionDelta.DeltaNonNegative | main.cpp:171-190 | for every graph whose last block has no out-edges, every other block's entry with the exit kept is at least the entry with it cleared |
| NegativeDelta.DeltaCanBeNegative | main.cpp:183-189 | a five-block graph whose last block leads back records 2 paths with and 3 without the exit |
| DeltaBoundary.DeltaBoundaryExact | main.cpp:171-190 | for any number of blocks and any out-edges of the last block: every flow graph with them has a non-negative NPATH delta if and only if there are at most four blocks, or five and the out-edges are not one of the failing rows, or they lead only to block 0, block 1 and the last block itself |
| DeltaBoundary.RowBreaks | main.cpp:183-189 | from six blocks on, for any out-edges that lead elsewhere, a flow graph of that size with a negative delta |
| DeltaBoundary.FiveBreaks | main.cpp:183-189 | with five blocks, the same for any row with block 3 and either the last block or neither block 1 nor block 2 |
| DeltaBoundary.HomewardHolds | main.cpp:171-190 | the if-half from six blocks on, for any number of blocks |
| SmallDeltas.FourHold | main.cpp:171-190 | with four blocks the delta is never negative |
| SmallDeltas.FiveHold | main.cpp:171-190 | with five blocks it is not negative for any other row |
| EntryTree.Sees | npath_counter.hpp:64-109 | when a block has finished, exactly those of its successors have finished before it that were not being explored when it was opened |
| EntryTree.Descend | npath_counter.hpp:64-109 | the search opens a successor once those before it lead to nothing but blocks already found or in a given set, and blocks outside that set are still to be found |
| CyclicBound.ReportedBound | npath_counter.hpp:64-109 | on any graph of n blocks with a cleared entry, loops or not, the reported entry is at most 2^(n-2), or twice that with a self-loop of block 1 |
| CyclicBound.ReportedFitsUpTo63 | npath_counter.hpp:24 | so it fits a signed 64-bit CountType up to 63 blocks |
| CyclicBound.ReportedBoundAttained | npath_counter.hpp:64-109 | the bound is attained for every n, and with 64 blocks it is 2^63 |
| Graphs.WithEdgeExact | graph.hpp:6-12 | adding an edge adds exactly that edge, once, and grows the vertex set to hold both ends |
| Graphs.ClearedEdges | analyser.cpp:38 | clearing a block removes exactly its incident edges |
| Analysis.FlowGraph.AddEdge | gcov_reader.cpp:158 | afterwards an edge is there if and only if it was there before or is the new one, and there are just enough blocks for both its ends |
| Analysis.FlowGraph.ClearVertex | analyser.cpp:104-110 | afterwards an edge is there if and only if it was there before and does not touch the block; every block stays |
| Analysis.FlowGraph.Clear | gcov_reader.cpp:92 | no block and no edge is left |
| Analysis.Analyser.CalculateNpath2 | analyser.cpp:33-53 | with the entry cleared, block 1's entry and edges - vertices + 2 are recorded as the measures with exceptions; the function's graph stays |
| Analysis.Analyser.CalculateNpath | analyser.cpp:101-120 | the same without exceptions, with the exit cleared as well when there are more than two blocks |
| CyclomaticNumbers.SearchedGraphs | analyser.cpp:35-36 | the two searched graphs have the function's blocks, and exactly its edges away from the entry, or away from entry and exit when there are more than two blocks |
| CyclomaticNumbers.ReportedCyclomatic | analyser.cpp:52-118 | both recorded cyclomatic numbers are the number of those edges, counted as pairs of blocks, minus the number of blocks plus 2 |
| CyclomaticNumbers.ReportedCabe | npath_counter.hpp:60-70 | they equal the count that the visitor keeps in each run |
| CyclomaticNumbers.StructuredCyclomatic | analyser.cpp:52-118 | structured code is recorded with its decisions minus one, one for each test and one less than its ways on for each switch, and with exceptions with its decisions plus its calls |
| Analysis.Analyser.Process | analyser.cpp:132-146 | an empty graph changes nothing; otherwise the set keeps its elements, in ascending order, and gains the measures exactly if no element has the same NPATH, source file and line |
| Analysis.Analyser.Report | analyser.cpp:148-158 | exactly the recorded functions are reported, in ascending order |
| Analysis.LessExact | function_data.hpp:67-79 | one function comes before another by fewer paths, then by source file, then by line |
| Analysis.LessCompares | function_data.hpp:67-79 | neither comes before the other if and only if NPATH, source file and line are the same |
| Analysis.LessTransitive | function_data.hpp:67-79 | the order is transitive, as a set needs |
| Analysis.FileLessExact | function_data.hpp:41-49 | a source file comes before another where at the first difference it ends or has the smaller byte |
| ReportedMeasures.ReportedPaths | analyser.cpp:35-52 | for loop-free functions both recorded NPATH numbers are numbers of maximal paths from block 1 |
| ReportedMeasures.ReportedCollapsed | analyser.cpp:101-119 | for every function both recorded numbers are path counts of collapsed graphs |
| ReportedMeasures.DeltasNonNegative | main.cpp:171-190 | the cyclomatic delta is never negative; the NPATH delta is not when the last block, with the entry cleared, leads only to block 1 and to itself, or when the graph then has no loop |
| ReportedMeasures.ReportedDominates | analyser.cpp:101-119 | for loop-free functions whose edge sources are reachable, recorded NPATH exceeds the recorded cyclomatic number by the number of cleared blocks |
| WalkCounts.WalksToExact | npath_counter.hpp:79-109 | in an acyclic graph the enumerated set is exactly the set of walks from u to v |
| WalkCounts.PathsToIsSize | npath_counter.hpp:79-109 | the recursive count of walks from u to v is the size of that set |
| WalkCounts.CountsMultiply | npath_counter.hpp:79-109 | if every maximal path from u passes through v, the paths from u are the walks from u to v times the paths from v |
| WalkCounts.CountsMultiplyExact | npath_counter.hpp:79-109 | and they multiply only then |
| Structured.StmtCount | npath_counter.hpp:79-109 | in any graph that holds a compiled statement and any table of successor sums, the first block weighs NPATH times the block behind the statement plus the ways into calls times the exit: product over sequence, sum over branches, one more for a missing else or default, short-circuit conditions |
| Structured.PathCountsWeigh | npath_counter.hpp:79-109 | the path counts of an acyclic graph are such a table |
| Structured.NpathCountsWalks | npath_counter.hpp:79-109 | the compositional NPATH is the number of walks through the code to where it continues |
| Structured.CodePaths | npath_counter.hpp:79-109 | the paths from the code are its walks to the continuation times the paths from there, plus the ways into its calls |
| Structured.EveryPathContinues | npath_counter.hpp:79-109 | every path through the code reaches the continuation if and only if there is no call in it |
| Structured.ThrowsIffCall | npath_counter.hpp:79-109 | there is a way into a call if and only if there is a call |
| Structured.StmtCleared | analyser.cpp:106-110 | clearing the exit leaves the same code, whose calls only come back |
| FunctionMeasures.StructuredMeasures | analyser.cpp:132-146 | a function compiled from structured loop-free code is recorded with its compositional NPATH, and in the run with exceptions with the ways into its calls on top |
| FunctionMeasures.StructuredDelta | main.cpp:171-180 | the NPATH delta of such a function is the number of ways into its calls, so it is printed if and only if there is a call |
| FunctionMeasures.ExpectedValues | system_test_1.cpp:86-95 | every row of the system test, (2, 3) and (16, 31) included, is what the analyser records for the compiled code |
| Words.SwapReverses | gcov-io.c:36-46 | the shift-and-mask swap reverses the four bytes |
| Words.SwapInvolution | gcov-io.c:36-46 | swapping twice is the identity |
| Words.MagicExact | gcov-io.c:172-185 | neither magic is a palindrome: the answer +1, -1 or 0 is right for every word and never ambiguous between the two magics |
| Words.ValueOfNat | gcov-io.c:330 | a length below 2^32 survives being stored in a word |
| Words.ValueCounts | gcov-io.c:424-434 | the number that a word stands for goes up by one from each word to the next |
| Words.ToIntExact | gcov_reader.cpp:207-223 | an unsigned number becomes the int congruent to it modulo 2^32, and itself below 2^31 |
| Words.CounterRestored | gcov-io.c:439-454 | a counter whose two words are swapped, or not, is rebuilt by a reader that knows the byte order |
| Words.CounterRoundTrip | gcov-io.c:259-271 | a 64-bit counter stored low word first is rebuilt by the reader's shift and or |
| Words.CounterHalves | gcov-io.c:439-454 | the word that comes first is the low half of the counter |
| Words.StoredInMemory | gcov-io.c:294 | storing one byte changes the memory behind the words at that address only |
| Words.StringRoundTrip | gcov-io.c:277-295 | any string without NUL, padded to words, reads back as the same C string |
| Words.StringStored | gcov-io.c:278-298 | a stored string is followed by one to four zero bytes, which fill its last word |
| Words.CStringExact | gcov-io.c:461-470 | the string that is read ends at the first zero byte of its words, or with them |
| Tags.TagDepth | gcov_reader.cpp:372-381 | for every non-zero tag the mask loop yields the level of its innermost byte in use, always in 1..4 |
| Tags.SubtagIsHierarchy | gcov-io.h:358-370 | over well-formed tags, IS_SUBTAG holds if and only if sub is exactly one level deeper and agrees on all of tag's levels; IS_SUBLEVEL if and only if it is deeper |
| Cursors.FailureLasts | gcov-io.c:377-419 | after a failed read the position stays and every later non-empty read fails, through any run of reads and of syncs to the same place |
| Cursors.ReadsExact | gcov-io.c:377-470 | a number, a counter or a string that the file does not hold is 0 or NULL and leaves the position, any other is made of the words at the position and moves behind them |
| Cursors.OrderInvisible | gcov-io.c:36-46 | a number and a 64-bit counter have the same value in a file and in the same file with the words swapped |
| Cursors.SyncExact | gcov-io.c:494-507 | a sync lands on base + length if and only if that is below 2^30 words |
| Cursors.SyncTestExact | gcov-io.c:499 | the wrapped 32-bit comparison holds if and only if the target lies inside the buffer |
| Cursors.SeekLanding | gcov-io.c:504 | the shifted 32-bit byte offset lands on the target modulo 2^30 words |
| Cursors.RefillExact | gcov-io.c:404-407 | the 32-bit byte count of a refill is right if and only if it asks for less than 2^30 words |
| Cursors.SyncCanRepeat | gcov-io.c:494-507 | with a length of 2^30 - 2 a sync returns to the header of the same record |
| ReadBuffer.GcovVar.Allocate | gcov-io.c:189-201 | growth keeps every old word and doubles the sum of the old size, or of one block, and the request |
| ReadBuffer.GrownDoubles | gcov-io.c:189-201 | a buffer that grows more than doubles and holds twice the request, the first one with 1024 words to spare, doubled as well |
| ReadBuffer.GcovVar.ReadWords | gcov-io.c:377-419 | across compaction, growth and refill the next words of the file are delivered, or nothing past its end, and the abstract cursor moves accordingly |
| ReadBuffer.GcovVar.ReadUnsigned | gcov-io.c:424-434 | the next word in host order, or 0 past the end |
| ReadBuffer.GcovVar.ReadCounter | gcov-io.c:439-454 | the next two words as one counter, or 0 past the end |
| ReadBuffer.GcovVar.ReadSummary | gcov-io.c:473-488 | checksum, counts and sums of the summary that lies at the cursor |
| ReadBuffer.GcovVar.ReadString | gcov-io.c:461-470 | NULL for length 0 or past the end, otherwise the C string in the next words |
| ReadBuffer.GcovVar.Sync | gcov-io.c:494-507 | inside the buffer or by seeking, the position becomes base + length |
| ReadBuffer.GcovVar.CheckMagicWord | gcov-io.c:172-185 | recognises a magic in either order and remembers the other order |
| ReadBuffer.GcovVar.Close | gcov-io.c:145-165 | the buffer is given up for an empty one and the mode reset |
| FixedBuffer.LibgcovVar.Rewrite | gcov-io.h:587-595 | from reading to writing at the start of the file, content unchanged |
| FixedBuffer.LibgcovVar.WriteBlock | gcov-io.c:207-214 | the first words of the buffer overwrite the file at start |
| FixedBuffer.LibgcovVar.WriteWords | gcov-io.c:219-243 | with 1- and 2-word writes the offset never exceeds block size + 1, the leftover of a flush is at most one word, and file plus pending words are what was written |
| FixedBuffer.LibgcovVar.WriteUnsigned | gcov-io.c:248-254 | one word is appended to what has been written |
| FixedBuffer.LibgcovVar.WriteCounter | gcov-io.c:260-270 | the counter's two words are appended, low word first |
| FixedBuffer.LibgcovVar.WriteTagLength | gcov-io.c:341-348 | tag and length are appended |
| FixedBuffer.LibgcovVar.WriteSummary | gcov-io.c:353-369 | the record is appended, and the announced length is the number of words behind its header |
| FixedBuffer.LibgcovVar.Seek | gcov-io.c:514-521 | pending words reach the file and writing goes on at base modulo 2^30 words |
| FixedBuffer.LibgcovVar.WriteItems | gcov-io.c:219-270 | any run of numbers and counters is one write of all their words in order |
| FixedBuffer.LibgcovVar.WriteRecord | gcov-io.c:341-348 | header, numbers and counters are appended as one whole record |
| FixedBuffer.LibgcovVar.WriteFile | gcov-io.c:207-270 | a new file of such records, closed, reads back as the same tags, lengths, numbers and counters |
| FixedBuffer.LibgcovVar.Close | gcov-io.c:145-165 | everything written is in the file; a file that was only read is unchanged |
| FixedBuffer.LibgcovVar.ReadWords | gcov-io.c:377-419 | 1- and 2-word reads refine the cursor; the leftover before a refill is at most one word |
| FixedBuffer.LibgcovVar.ReadUnsigned | gcov-io.c:424-434 | the next word, or 0 past the end |
| FixedBuffer.LibgcovVar.ReadCounter | gcov-io.c:439-454 | the next two words as one counter, or 0 past the end |
| FixedBuffer.LibgcovVar.ReadSummary | gcov-io.c:473-488 | the summary that lies at the cursor |
| RecordWriter.GcovWriter.WriteWords | gcov-io.c:235-242 | room is made without losing pending words, growing the buffer where needed |
| RecordWriter.GcovWriter.WriteUnsigned | gcov-io.c:248-254 | one word is appended to the stream |
| RecordWriter.GcovWriter.WriteString | gcov-io.c:277-295 | length and padded bytes are appended; NULL as a zero word |
| RecordWriter.GcovWriter.CopyBytes | gcov-io.c:293-294 | copying only the bytes over words whose last one is zero leaves exactly the padded string |
| RecordWriter.GcovWriter.WriteTag | gcov-io.c:302-312 | tag and a zero length are appended; the returned position is where the record starts and is still in the buffer |
| RecordWriter.GcovWriter.WriteLength | gcov-io.c:319-335 | only the reserved word changes, to the number of words behind the header, wherever the flush happens; only from 1024 pending words on are they flushed |
| RecordWriter.GcovWriter.Close | gcov-io.c:145-165 | the whole stream is in the file |
| RecordWriter.GcovWriter.WriteRecord | gcov-io.c:298-335 | tag, items, length append one whole record; the position assertions hold because nothing between them flushes |
| RecordWriter.GcovWriter.WriteFile | gcov-io.c:219-335 | a new file, written record by record and closed, reads back as the same tags, lengths and items |
| Records.ItemReadsBack | gcov-io.c:424-470 | every item, be it number, 64-bit counter or string, reads back as written, in either byte order, and the cursor moves behind it |
| Records.RecordsReadBack | gcov-io.h:48-94 | any list of records reads back, in either byte order: tags, lengths equal to the words that follow, items |
| Records.SummaryReadsBack | gcov-io.c:473-488 | a summary that lies in the file, in either byte order, is what the summary read returns |
| Records.SummaryRecordReadsBack | gcov-io.c:353-369 | so is a whole summary record, with its tag and the number of words behind its header |
| ReaderLoop.TurnLands | gcov_reader.cpp:367-447 | whatever the file holds and the handler consumed, a turn that goes on has read a tag inside the file and leads to the end that the header announces, as computed by the 32-bit addition and seek |
| ReaderLoop.StepAdvances | gcov_reader.cpp:439 | that place is the announced end modulo 2^32 and then 2^30 words, and the end itself if and only if it is below 2^30 |
| ReaderLoop.NeverReturns | gcov_reader.cpp:357-447 | on a file of five words, after any number of turns the state is the one after the header again |
| ReaderLoop.SomeFileNeverReturns | gcov_reader.cpp:357-447 | one such file in numbers |
| LoopCondition.ComesBack | gcov_reader.cpp:357-447 | whatever its handler does, a record whose turn goes on and leads back to its own header is read for ever |
| LoopCondition.LostNameNeverReturns | gcov_reader.cpp:164-240 | on a file of eight words with a line record whose file name is announced with 2^27 words that are not there, the loop never stops |
| LoopCondition.SomeLostNameNeverReturns | gcov_reader.cpp:164-240 | one such file in numbers |
| ReaderLoop.AheadEnds | gcov_reader.cpp:357-447 | the loop stops if along the walk from header to header every record leads ahead |
| ReaderLoop.ShortRecordsEnd | gcov_reader.cpp:357-447 | in particular if no record on that walk claims to end at 2^30 words or beyond; what else the words of the file hold does not matter |
| LoopCondition.StepAlong | gcov_reader.cpp:403-439 | whether and where a turn goes on depends only on the cursor and on whether a function is known |
| LoopCondition.EndsExact | gcov_reader.cpp:357-447 | the loop goes round for ever if and only if it is still running after one turn more than the file has words; the source's loop ends if and only if by then it has stopped other than by giving up on a request |
| LoopCondition.WalkEnds | gcov_reader.cpp:357-447 | the loop stops if the walk from header to header, of as many steps as the file has words, comes to a word that is no header |
| LoopCondition.EndsByHeaders | gcov_reader.cpp:357-447 | for runs whose turns start without a pending failure and that stop only at a zero tag, it ends if and only if that walk does |
| NoteReader.GcovReader.TagFunction | gcov_reader.cpp:72-98 | a record with names hands over the function before it and starts an empty one; one without names changes nothing |
| NoteReader.GcovReader.TagBlocks | gcov_reader.cpp:100-125 | only the cursor moves, by one read per block |
| NoteReader.GcovReader.TagArcs | gcov_reader.cpp:127-162 | one edge per pair of words, from the block of the record, with the unsigned arc count |
| NoteReader.GcovReader.TagLines | gcov_reader.cpp:164-240 | line entries by first-line and matching-file rules until the NULL name; the loop ends on every file |
| NoteReader.GcovReader.TagCounters | gcov_reader.cpp:242-270 | only the cursor moves, by one counter per two words |
| NoteReader.GcovReader.ReadArc | gcov_reader.cpp:152-158 | one edge is added to the graph, from the block of the record to the block read |
| NoteReader.GcovReader.TagSummary | gcov_reader.cpp:272-292 | only the cursor moves, past a summary |
| NoteReader.GcovReader.NoteTag | gcov_reader.cpp:388-398 | the depth is the tag's level, a valid index of tags[], where only this entry changes; the nesting test against the last tag of the previous depth |
| NoteReader.GcovReader.ReadRecord | gcov_reader.cpp:357-447 | one turn on the real buffer is one step on the plain cursor |
| NoteReader.OrderExact | gcov_reader.cpp:322-335 | a file is a gcov file if and only if its first word is 0x67636461 or 0x67636e6f, or, in the other byte order, 0x61646367 or 0x6f6e6367 |
| NoteReader.GcovReader.ReadHeader | gcov_reader.cpp:318-355 | magic, version and stamp are read if the first word is one of these four, and the byte order is the one that it shows |
| NoteReader.TagsDispatched | gcov_reader.cpp:408-428 | by literal tags, what a record makes of the reader; no other tag has an effect |
| NoteReader.ArcsNumExact | gcov_reader.cpp:132 | the number of arcs is half the words behind the first, and 2^31 - 1 in a record of no words |
| NoteReader.NamesWanted | gcov_reader.cpp:72-98 | a function record hands over the function before it if and only if it announces more words than could be read of its first two; at the end of the file its name is then missing |
| NoteReader.GcovReader.ReadRecords | gcov_reader.cpp:357-447 | on every file on which the loop does not go round for ever, the loop on the real buffer computes the loop on the plain cursor |
| NoteReader.GcovReader.Open | gcov_reader.cpp:302-457 | a file that begins with none of the four words is given up with nothing processed; on every other file on which the loop does not go round for ever, the calls of Analyser.process are those of `Opened(file)`; where the source returns, the status is not Oversized (`Terminates`) |
| NoteFiles.HandlerRead | gcov_reader.cpp:408-437 | the handler of a record that lies in the file has the record's effect, and reads exactly the length of the record if that is the one it expects, so that no size mismatch is reported |
| NoteFiles.NoteRead | gcov_reader.cpp:403-439 | a record that lies in the file has its effect and the next turn starts right behind it, whatever its handler consumed |
| NoteFiles.FileRead | gcov_reader.cpp:302-457 | a well-formed file, in either byte order, has the effects of its records one after the other |
| NoteFiles.ByteOrderInvisible | gcov-io.c:36-46 | a file and the same file with all numbers swapped yield the same processed functions |
| NoteFiles.UnknownRecordsTransparent | gcov_reader.cpp:367-447 | files that agree up to unknown, summary, block and name-less function records yield the same processed functions and graphs |
| Grouping.UnitEdges | gcov_reader.cpp:152-158 | a processed graph has an edge if and only if an arc record of its function has one |
| Grouping.GraphFromExact | gcov_reader.cpp:127-162 | a graph built from arcs has exactly those edges and just enough blocks for them |
| Grouping.LinesNoted | gcov_reader.cpp:164-240 | the reader's line loop takes in exactly the entries of the function's own file, and the first line of any file as the function's line |
| Grouping.UnitLines | gcov_reader.cpp:196-209 | a line is entered for a block if and only if a line record of the function names it for that block behind the function's own source file; line and block are the ints with the bits of the words read |
| Grouping.UnitLine | gcov_reader.cpp:221-225 | the function's line is the first line number of its line records, of whatever source file, and 0 without any |
| Grouping.ReaderGroups | gcov_reader.cpp:72-98 | for every well-formed note file with a function record, the analyser receives one unit per function record, in file order, made of the records up to the next one |
| CompiledFiles.UnitRebuilt | gcov_reader.cpp:127-162 | from arc records in any order the reader rebuilds the very flow graph they were taken from |
| CompiledFiles.CompiledFileMeasured | gcov_reader.cpp:302-457 | the words of a note file of structured functions lead to the compositional NPATH and the decisions of each function, in file order, and with exceptions to the ways into its calls and its calls on top |
| Analysis.FirstStays | analyser.cpp:144 | after any run of insertions the set holds, in ascending order, exactly the first of the functions with the same NPATH, source file and line |
| CompiledFiles.CompiledFileRecorded | analyser.cpp:132-146 | end to end: the set that such a file leads to holds, in ascending order, exactly the first function for each NPATH, source file and line that occurs, with those measures |
| SampleFile.SampleRead | gcov_reader.cpp:302-457 | one note file in literal words, behind either magic: its only function is handed over with its name, source file, first line 42, edges and lines, and nothing else |
| SampleFile.SampleMeasured | analyser.cpp:33-120 | the analyser records its graph with 2 paths in both runs and the cyclomatic numbers 0 and 1 |
| SampleFile.SwappedRead | gcov-io.c:424-470 | in literal words of the other byte order, a string keeps its bytes and numbers and counters are swapped |
| SampleFile.SummaryRead | gcov-io.c:473-488 | one summary in literal words, field by field |

## Left out

- Graph library internals, graphviz output, signals, shared pointers and file-system paths: the graph is
  a sequence of ascending successor lists; two source file names are the same when their bytes are.
- Real files, locks and disk errors: a file is a sequence of words, a read returns what remains, a write
  succeeds. The file length is a whole number of words, below 2^30.
- main.cpp, the annotators and the printed report: only its two delta checks are used, as properties.
- function_data.hpp: source files are ordered by their bytes, where boost compares paths element by element.
- errors.c, version strings and printed messages: the tag depth, its store in `tags[]` and the nesting
  test are modelled, the messages about nesting and record sizes are not.
- NpathCounting.NpathCounter.FinishVertex: entries are unbounded integers; `NoOverflowUpTo64` says when
  64 bits suffice on acyclic graphs, and wrap-around beyond that is not modelled. The same holds for the
  32-bit edge and vertex counters.
- Analysis.Analyser.CalculateNpath: block 1 must exist, because the source reads that entry unchecked; a
  graph of exactly one block is excluded in all members that read it.
- DeltaBoundary.DeltaBoundaryExact: about all flow graphs with given out-edges of the last block; which
  single flow graphs with failing out-edges happen to have a non-negative delta is not characterised,
  except the loop-free ones.
- Cyclomatic.NpathBeatsCyclomatic: about acyclic graphs only; on graphs with loops the back edges reset
  the count, and no such bound is claimed.
- Structured.StmtCount: each leaf statement, each call and each single test is one block of its own, and
  each switch arm ends in a break; loops, goto and calls inside conditions are not compiled.
- ReadBuffer.GcovVar.ReadWords: the buffer that a request makes `gcov_allocate` ask for stays below 2^30
  words (`Fits`); beyond that the 32-bit byte count of the refill wraps (`RefillExact`), and fewer words are
  fetched than the cursor then stands for.
- ReadBuffer.GcovVar.ReadString: a string that announces n words with n above 2^27, in a file with which
  they come to more than 2^28, could need such a buffer: it ends the model's run with status Oversized, of
  which nothing is claimed about the source. Every smaller request is read, or is NULL when the file does
  not hold it (`Small`). The bytes of a word are in little-endian memory order, and a string whose words
  hold no NUL ends with them.
- NoteReader.GcovReader.TagLines: the same requests end a record with status Oversized.
- NoteReader.GcovReader.ReadRecord: so they end a turn.
- NoteReader.GcovReader.ReadRecords: so they end the loop, where the source may go on.
- NoteReader.GcovReader.TagFunction: a missing name or source file string ends the run with status
  NullName, where the source would construct a string from NULL; likewise NoFunction for lines, or the
  end of the file, without a function.
- NoteReader.GcovReader.Open: one reader per file, as main.cpp uses it. The calls of Analyser.process are
  recorded in order instead of being made; `CompiledFileRecorded` applies the analyser to them. On a file
  with such a request the outcome has status Oversized and says nothing about the source.
- FixedBuffer.LibgcovVar.WriteWords: 1 or 2 words at a time, which is all that the run-time library
  requests; the summary layout has `GCOV_COUNTERS_SUMMABLE` of 1.
- RecordWriter.GcovWriter.WriteRecord: for the round trip, strings without inner NUL and below 2^27 words,
  and records below 2^32 words; the stream position is not reduced modulo 2^32.
- RecordWriter.GcovWriter.WriteString: string lengths below 2^32 - 4, where `strlen` fits the source's
  `unsigned`.
