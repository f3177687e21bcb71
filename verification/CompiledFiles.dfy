/** From the words of a note file to the reported measures: functions compiled from structured code
    come out with their compositional NPATH. */
module CompiledFiles {
  import opened Graphs
  import opened Words
  import opened Cursors
  import opened Analysis
  import opened NoteReader
  import opened NoteFiles
  import opened Grouping
  import opened Structured
  import opened FunctionMeasures
  import opened CyclomaticNumbers

  /** A function record, the records that follow it, and the code it was compiled from. */
  datatype Compiled = Compiled(fn: Note, body: seq<Note>, code: Stmt)

  /** The arc records of the function are the edges of its code, in any order and distribution. */
  ghost predicate Renders(c: Compiled) {
    && c.fn.Function?
    && (forall i :: 0 <= i < |c.body| ==> !c.body[i].Function?)
    && forall u: nat, v: nat ::
      HasEdge(FunctionGraph(c.code), u, v) <==> exists i :: 0 <= i < |c.body| && ArcIn(c.body[i], u, v)
  }

  function NotesOf(cs: seq<Compiled>): seq<Note> {
    if cs == [] then [] else [cs[0].fn] + cs[0].body + NotesOf(cs[1..])
  }

  // ---------- a graph is determined by its size and its edges

  lemma {:induction false} AscendingUnique(s: seq<nat>, t: seq<nat>)
    requires Ascending(s) && Ascending(t) && forall x: nat :: x in s <==> x in t
    ensures s == t
    decreases |s|
  {
    if s == [] {
      assert forall i :: 0 <= i < |t| ==> t[i] in t;
    } else {
      assert s[0] in t && t != [] && t[0] in s;
      assert s[0] == t[0];
      TailSame(s, t);
      AscendingUnique(s[1..], t[1..]);
    }
  }

  lemma TailSame(s: seq<nat>, t: seq<nat>)
    requires s != [] && t != [] && Ascending(s) && Ascending(t) && s[0] == t[0]
    requires forall x: nat :: x in s <==> x in t
    ensures forall x: nat :: x in s[1..] <==> x in t[1..]
  {
    assert forall x :: x in s[1..] <==> x in s && x != s[0];
    assert forall x :: x in t[1..] <==> x in t && x != t[0];
  }

  lemma GraphDetermined(g: Graph, h: Graph)
    requires WellFormed(g) && WellFormed(h) && |g| == |h|
    requires forall u: nat, v: nat :: HasEdge(g, u, v) <==> HasEdge(h, u, v)
    ensures g == h
  {
    forall u | 0 <= u < |g|
      ensures g[u] == h[u]
    {
      assert forall v: nat :: v in g[u] <==> HasEdge(g, u, v);
      assert forall v: nat :: v in h[u] <==> HasEdge(h, u, v);
      AscendingUnique(g[u], h[u]);
    }
  }

  // ---------- one function

  /** A graph built from arcs has no more blocks than its edges mention. */
  lemma BuiltSize(arcs: seq<(nat, nat)>, g: Graph, u: nat, v: nat)
    requires WellFormed(g) && HasEdge(g, u, v) && v == |g| - 1
    requires forall x: nat, y: nat :: HasEdge(g, x, y) <==> (x, y) in arcs
    ensures |GraphFrom([], arcs)| == |g|
  {
    var h := GraphFrom([], arcs);
    GraphFromExact([], arcs);
    assert (u, v) in arcs && v < |h|;
    var i :| 0 <= i < |arcs| && |h| == Max(arcs[i].0, arcs[i].1) + 1;
    assert (arcs[i].0, arcs[i].1) in arcs;
    assert HasEdge(g, arcs[i].0, arcs[i].1);
  }

  lemma ArcsAreEdges(c: Compiled, u: nat, v: nat)
    requires Renders(c)
    ensures HasEdge(FunctionGraph(c.code), u, v) <==> (u, v) in AllArcs(c.body)
  {
    InAllArcs(c.body, u, v);
  }

  /** The edge from the return block to the exit block makes the last block count. */
  lemma ReturnEdge(g: Graph, s: Stmt)
    requires g == FunctionGraph(s)
    ensures HasEdge(g, |g| - 2, |g| - 1)
  {
    CompiledFrames(g, s);
  }

  /** The only graph that arcs can build from the edges of g is g itself. */
  lemma BuiltGraph(arcs: seq<(nat, nat)>, g: Graph)
    requires WellFormed(g) && |g| >= 2 && HasEdge(g, |g| - 2, |g| - 1)
    requires forall x: nat, y: nat :: HasEdge(g, x, y) <==> (x, y) in arcs
    ensures GraphFrom([], arcs) == g
  {
    BuiltSize(arcs, g, |g| - 2, |g| - 1);
    GraphFromExact([], arcs);
    GraphDetermined(GraphFrom([], arcs), g);
  }

  /** The reader rebuilds exactly the flow graph of the code. */
  lemma UnitRebuilt(c: Compiled)
    requires Renders(c)
    ensures UnitOf(c.fn, c.body).graph == FunctionGraph(c.code)
  {
    var g := FunctionGraph(c.code);
    CompiledFrames(g, c.code);
    UpwardAcyclic(g);
    ReturnEdge(g, c.code);
    forall u: nat, v: nat
      ensures HasEdge(g, u, v) <==> (u, v) in AllArcs(c.body)
    {
      ArcsAreEdges(c, u, v);
    }
    BuiltGraph(AllArcs(c.body), g);
  }

  // ---------- all functions of a file

  lemma {:induction false} BodyEnds(body: seq<Note>, rest: seq<Note>)
    requires forall i :: 0 <= i < |body| ==> !body[i].Function?
    requires rest == [] || rest[0].Function?
    ensures Grouping.Body(body + rest) == body && UnitsOf(body + rest) == UnitsOf(rest)
    decreases |body|
  {
    if body == [] {
      assert body + rest == rest;
    } else {
      assert (body + rest)[1..] == body[1..] + rest;
      BodyEnds(body[1..], rest);
    }
  }

  lemma FirstUnit(fn: Note, body: seq<Note>, rest: seq<Note>, all: seq<Note>)
    requires fn.Function? && all == [fn] + body + rest
    requires forall i :: 0 <= i < |body| ==> !body[i].Function?
    requires rest == [] || rest[0].Function?
    ensures UnitsOf(all) == [UnitOf(fn, body)] + UnitsOf(rest)
  {
    assert all[1..] == body + rest;
    BodyEnds(body, rest);
  }

  lemma {:induction false} UnitsOfCompiled(cs: seq<Compiled>)
    requires forall i :: 0 <= i < |cs| ==> Renders(cs[i])
    ensures |UnitsOf(NotesOf(cs))| == |cs|
    ensures forall i :: 0 <= i < |cs| ==> Renders(cs[i]) && UnitsOf(NotesOf(cs))[i] == UnitOf(cs[i].fn, cs[i].body)
  {
    if cs != [] {
      var rest := NotesOf(cs[1..]);
      assert Renders(cs[0]);
      assert rest == [] || rest[0].Function? by {
        assert |cs| > 1 ==> Renders(cs[1]);
      }
      FirstUnit(cs[0].fn, cs[0].body, rest, NotesOf(cs));
      UnitsOfCompiled(cs[1..]);
      forall i | 0 <= i < |cs|
        ensures Renders(cs[i]) && UnitsOf(NotesOf(cs))[i] == UnitOf(cs[i].fn, cs[i].body)
      {
        assert i > 0 ==> cs[i] == cs[1..][i - 1];
      }
    }
  }

  /** Analysing the unit reports the code's NPATH and cyclomatic number for the named function, without
      and with exceptions. */
  ghost predicate Reported(unit: Unit, c: Compiled) {
    |unit.graph| >= 2 && MeasuresFor(Measured(unit.function_, unit.graph), c)
  }

  ghost predicate MeasuresFor(m: Measures, c: Compiled) {
    && (c.fn.Function? ==> m.function_.name == c.fn.name && m.function_.filename == c.fn.filename)
    && m.npath == Npath(c.code) && m.npathE == Npath(c.code) + Throws(c.code)
    && m.cyclomatic == Decisions(c.code) - 1 && m.cyclomaticE == Decisions(c.code) + Calls(c.code)
  }

  lemma UnitReported(c: Compiled)
    requires Renders(c)
    ensures Reported(UnitOf(c.fn, c.body), c)
  {
    UnitRebuilt(c);
    StructuredMeasures(UnitOf(c.fn, c.body).function_, c.code);
    StructuredCyclomatic(UnitOf(c.fn, c.body).function_, c.code);
  }

  /** Whatever the byte order and whatever else the records hold: reading a note file of structured
      functions and analysing what the reader hands over gives each function, in file order, its
      compositional NPATH and the number of its decisions, and in the run with exceptions the ways into
      its calls and the number of its calls on top. */
  lemma {:induction false} CompiledFileMeasured(f: File, magic: Word, version: Word, stamp: Word, cs: seq<Compiled>,
                                                e: bool)
    requires cs != [] && ValidNotes(NotesOf(cs)) && forall i :: 0 <= i < |cs| ==> Renders(cs[i])
    requires magic == NOTE_MAGIC || magic == DATA_MAGIC
    requires f == FileWords(magic, version, stamp, NotesOf(cs), e)
    ensures Terminates(f) && Opened(f).Parsed? && |Opened(f).final.p.processed| == |cs|
    ensures forall i :: 0 <= i < |cs| ==> Reported(Opened(f).final.p.processed[i], cs[i])
  {
    assert Renders(cs[0]);
    ReaderGroups(f, magic, version, stamp, NotesOf(cs), e);
    UnitsOfCompiled(cs);
    forall i | 0 <= i < |cs|
      ensures Reported(Opened(f).final.p.processed[i], cs[i])
    {
      UnitReported(cs[i]);
    }
  }

  // ---------- what the analyser's set holds in the end

  lemma {:induction false} MeasuresOf(us: seq<Unit>, cs: seq<Compiled>) returns (ms: seq<Measures>)
    requires |us| == |cs| && forall i :: 0 <= i < |cs| ==> Reported(us[i], cs[i])
    ensures |ms| == |cs| && forall i :: 0 <= i < |cs| ==> MeasuresFor(ms[i], cs[i])
    ensures forall i :: 0 <= i < |cs| ==> |us[i].graph| >= 2 && ms[i] == Measured(us[i].function_, us[i].graph)
  {
    assert forall i :: 0 <= i < |cs| ==> Reported(us[i], cs[i]);
    ms := seq(|us|, i requires 0 <= i < |us| && |us[i].graph| >= 2 => Measured(us[i].function_, us[i].graph));
  }

  /** And inserting what Process computes of these functions, in file order, into its set leaves exactly
      the first function for each NPATH, source file and line, in ascending order. */
  lemma {:induction false} CompiledFileRecorded(f: File, magic: Word, version: Word, stamp: Word, cs: seq<Compiled>,
                                                e: bool)
    returns (ms: seq<Measures>)
    requires cs != [] && ValidNotes(NotesOf(cs)) && forall i :: 0 <= i < |cs| ==> Renders(cs[i])
    requires magic == NOTE_MAGIC || magic == DATA_MAGIC
    requires f == FileWords(magic, version, stamp, NotesOf(cs), e)
    ensures Terminates(f) && Opened(f).Parsed? && |Opened(f).final.p.processed| == |cs| == |ms|
    ensures var us := Opened(f).final.p.processed;
      forall i :: 0 <= i < |cs| ==> |us[i].graph| >= 2 && ms[i] == Measured(us[i].function_, us[i].graph)
    ensures forall i :: 0 <= i < |cs| ==> MeasuresFor(ms[i], cs[i])
    ensures forall m :: m in AllInserted(ms) <==> exists i: nat :: FirstOfItsKind(ms, i) && ms[i] == m
    ensures Sorted(AllInserted(ms))
  {
    CompiledFileMeasured(f, magic, version, stamp, cs, e);
    ms := MeasuresOf(Opened(f).final.p.processed, cs);
    FirstStays(ms);
  }
}
