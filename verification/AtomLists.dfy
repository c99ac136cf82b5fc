/** Lists of atoms: the stretch of the buffer they span, and the merging of neighbours. */
module AtomLists {
  import opened Coords
  import opened DisplayAtoms
  import Sequences

  // ----- spans

  datatype Span = NoSpan | Span(begin: Coord, end: Coord)

  /** From the begin of the first atom that has a buffer range to the end of the last one. */
  function SpanOf(atoms: seq<Atom>): Span {
    if atoms == [] then NoSpan
    else
      var before, last := SpanOf(atoms[..|atoms| - 1]), atoms[|atoms| - 1];
      if last.kind.Text? then before
      else Span(if before.Span? then before.begin else last.begin, last.end)
  }

  /** Buffer ranges follow each other. */
  ghost predicate Ordered(atoms: seq<Atom>) {
    atoms == [] ||
    (var init, last := atoms[..|atoms| - 1], atoms[|atoms| - 1];
     && Ordered(init)
     && (HasBufferRange(last) ==>
          Le(last.begin, last.end) && (SpanOf(init).Span? ==> Le(SpanOf(init).end, last.begin))))
  }

  lemma {:induction false} SpanOrdered(atoms: seq<Atom>)
    requires Ordered(atoms) && SpanOf(atoms).Span?
    ensures Le(SpanOf(atoms).begin, SpanOf(atoms).end)
  {
    var init := atoms[..|atoms| - 1];
    if SpanOf(init).Span? {
      SpanOrdered(init);
    }
  }

  /** Every buffer range lies in the span. */
  lemma {:induction false} WithinSpan(atoms: seq<Atom>, i: nat)
    requires Ordered(atoms) && i < |atoms| && HasBufferRange(atoms[i])
    ensures var span := SpanOf(atoms);
      span.Span? && Le(span.begin, atoms[i].begin) && Le(atoms[i].begin, atoms[i].end) && Le(atoms[i].end, span.end)
  {
    var init := atoms[..|atoms| - 1];
    if i < |init| {
      WithinSpan(init, i);
    } else if SpanOf(init).Span? {
      SpanOrdered(init);
    }
  }

  function JoinSpans(a: Span, b: Span): Span {
    if a.NoSpan? then b else if b.NoSpan? then a else Span(a.begin, b.end)
  }

  lemma {:induction false} SpanConcat(a: seq<Atom>, b: seq<Atom>)
    ensures SpanOf(a + b) == JoinSpans(SpanOf(a), SpanOf(b))
  {
    if b == [] {
      assert a + b == a;
    } else {
      assert (a + b)[..|a + b| - 1] == a + b[..|b| - 1];
      SpanConcat(a, b[..|b| - 1]);
    }
  }

  lemma {:induction false} OrderedConcat(a: seq<Atom>, b: seq<Atom>)
    requires Ordered(a) && Ordered(b)
    requires SpanOf(a).Span? && SpanOf(b).Span? ==> Le(SpanOf(a).end, SpanOf(b).begin)
    ensures Ordered(a + b)
  {
    if b == [] {
      assert a + b == a;
    } else {
      var init := b[..|b| - 1];
      assert (a + b)[..|a + b| - 1] == a + init;
      SpanConcat(a, init);
      OrderedConcat(a, init);
      if SpanOf(init).NoSpan? {
        assert HasBufferRange(b[|b| - 1]) ==> SpanOf(b).begin == b[|b| - 1].begin;
      }
    }
  }

  // ----- highlighting

  lemma SpanOfOne(a: Atom)
    ensures SpanOf([a]) == if a.kind.Text? then NoSpan else Span(a.begin, a.end)
    ensures Ordered([a]) <==> (HasBufferRange(a) ==> Le(a.begin, a.end))
  {
    assert [a][..0] == [];
  }

  lemma HighlightAtomSpan(a: Atom, begin: Coord, end: Coord, skipReplaced: bool, f: Face -> Face)
    requires Lt(begin, end) && (HasBufferRange(a) ==> Le(a.begin, a.end))
    ensures var pieces := HighlightAtom(a, begin, end, skipReplaced, f);
      SpanOf(pieces) == SpanOf([a]) && Ordered(pieces)
  {
    var pieces := HighlightAtom(a, begin, end, skipReplaced, f);
    SpanOfOne(a);
    if |pieces| == 1 {
      SpanOfOne(pieces[0]);
    } else {
      SpanOfOne(pieces[0]);
      SpanOfOne(pieces[1]);
      SpanConcat([pieces[0]], [pieces[1]]);
      OrderedConcat([pieces[0]], [pieces[1]]);
      if |pieces| == 2 {
        assert pieces == [pieces[0]] + [pieces[1]];
      } else {
        SpanOfOne(pieces[2]);
        SpanConcat([pieces[0]] + [pieces[1]], [pieces[2]]);
        OrderedConcat([pieces[0]] + [pieces[1]], [pieces[2]]);
        assert pieces == [pieces[0]] + [pieces[1]] + [pieces[2]];
      }
    }
  }

  /** Highlighting changes neither the span nor the order. */
  lemma {:induction false} HighlightKeepsSpan(atoms: seq<Atom>, begin: Coord, end: Coord, skipReplaced: bool,
          f: Face -> Face)
    requires Lt(begin, end) && Ordered(atoms)
    ensures var painted := HighlightAtoms(atoms, begin, end, skipReplaced, f);
      SpanOf(painted) == SpanOf(atoms) && Ordered(painted)
  {
    if atoms != [] {
      var n := |atoms| - 1;
      var painted, pieces := HighlightAtoms(atoms[..n], begin, end, skipReplaced, f),
        HighlightAtom(atoms[n], begin, end, skipReplaced, f);
      HighlightKeepsSpan(atoms[..n], begin, end, skipReplaced, f);
      HighlightAtomSpan(atoms[n], begin, end, skipReplaced, f);
      SpanOfOne(atoms[n]);
      SpanConcat(painted, pieces);
      OrderedConcat(painted, pieces);
    }
  }

  /** Highlighting outside the span changes nothing. */
  lemma {:induction false} HighlightOutsideSpan(atoms: seq<Atom>, begin: Coord, end: Coord, skipReplaced: bool,
          f: Face -> Face)
    requires Ordered(atoms) && (SpanOf(atoms).Span? ==> Le(SpanOf(atoms).end, begin) || Le(end, SpanOf(atoms).begin))
    ensures HighlightAtoms(atoms, begin, end, skipReplaced, f) == atoms
  {
    if atoms != [] {
      var n := |atoms| - 1;
      if HasBufferRange(atoms[n]) {
        WithinSpan(atoms, n);
        if SpanOf(atoms[..n]).Span? {
          SpanOrdered(atoms[..n]);
        }
      }
      HighlightOutsideSpan(atoms[..n], begin, end, skipReplaced, f);
      assert HighlightAtom(atoms[n], begin, end, skipReplaced, f) == [atoms[n]];
      Sequences.Last(atoms);
    }
  }

  /** The cuts a span allows: one at each end of the highlighted stretch, if it lies before the span's end. */
  function CutsUpTo(span: Span, begin: Coord, end: Coord): nat {
    if span.NoSpan? then 0
    else
      (if Lt(begin, span.end) then 1 else 0) + (if Lt(end, span.end) then 1 else 0)
  }

  /** However many atoms there are, at most two of them are cut. */
  lemma {:induction false} AtMostTwoCuts(atoms: seq<Atom>, begin: Coord, end: Coord, skipReplaced: bool,
          f: Face -> Face)
    requires Lt(begin, end) && Ordered(atoms)
    ensures |HighlightAtoms(atoms, begin, end, skipReplaced, f)| <= |atoms| + CutsUpTo(SpanOf(atoms), begin, end)
    ensures |HighlightAtoms(atoms, begin, end, skipReplaced, f)| <= |atoms| + 2
  {
    if atoms != [] {
      AtMostTwoCuts(atoms[..|atoms| - 1], begin, end, skipReplaced, f);
    }
  }

  /** The pieces of an atom lie side by side, cut at `begin` and `end` only. */
  lemma CutsAtEndsOnly(a: Atom, begin: Coord, end: Coord, skipReplaced: bool, f: Face -> Face, i: nat)
    requires Lt(begin, end) && i < |HighlightAtom(a, begin, end, skipReplaced, f)|
    ensures var pieces := HighlightAtom(a, begin, end, skipReplaced, f);
      && pieces[i].kind == a.kind && pieces[i].text == a.text
      && (|pieces| > 1 ==> a.kind.Range?)
      && pieces[0].begin == a.begin && pieces[|pieces| - 1].end == a.end
      && (i > 0 ==> pieces[i - 1].end == pieces[i].begin && pieces[i].begin in {begin, end})
  {
  }

  // ----- merging

  /** The neighbours show as one atom would. */
  predicate Mergeable(a: Atom, next: Atom) {
    a.kind == next.kind && a.face == next.face && (a.kind.Text? || next.begin == a.end)
  }

  function MergeTwo(a: Atom, next: Atom): Atom {
    match a.kind
    case Text => a.(text := a.text + next.text)
    case Range => a.(end := next.end)
    case ReplacedRange => a.(end := next.end, text := a.text + next.text)
  }

  function MergeInto(acc: seq<Atom>, next: Atom): seq<Atom> {
    if acc != [] && Mergeable(acc[|acc| - 1], next) then acc[..|acc| - 1] + [MergeTwo(acc[|acc| - 1], next)]
    else acc + [next]
  }

  function Optimized(atoms: seq<Atom>): (r: seq<Atom>)
    ensures atoms != [] ==> r != []
    ensures |r| <= |atoms|
  {
    if atoms == [] then [] else MergeInto(Optimized(atoms[..|atoms| - 1]), atoms[|atoms| - 1])
  }

  ghost function Show(cells: seq<Cell>): seq<Shown> {
    seq(|cells|, i requires 0 <= i < |cells| => Shown(cells[i].c, cells[i].face))
  }

  lemma ShowConcat(a: seq<Cell>, b: seq<Cell>)
    ensures Show(a + b) == Show(a) + Show(b)
  {
  }

  /** Where the run of mergeable neighbours that leads to atom `j` begins. */
  function RunStart(atoms: seq<Atom>, j: nat): (i: nat)
    requires j < |atoms|
    ensures i <= j
  {
    if j > 0 && Mergeable(atoms[j - 1], atoms[j]) then RunStart(atoms, j - 1) else j
  }

  /** The run up to atom `j` does not go past the end of the buffer line on which it begins. */
  predicate RunOnOneLine(atoms: seq<Atom>, j: nat)
    requires j < |atoms|
  {
    atoms[j].kind.Range? ==> Le(atoms[j].end, Coord(atoms[RunStart(atoms, j)].begin.line + 1, 0))
  }

  /** No run of neighbours to be merged goes past the end of a buffer line. */
  predicate RunsOnOneLine(atoms: seq<Atom>) {
    forall j :: 0 <= j < |atoms| ==> RunOnOneLine(atoms, j)
  }

  lemma {:induction false} RunStartInPrefix(atoms: seq<Atom>, n: nat, j: nat)
    requires j < n <= |atoms|
    ensures RunStart(atoms[..n], j) == RunStart(atoms, j)
  {
    if j > 0 && Mergeable(atoms[j - 1], atoms[j]) {
      RunStartInPrefix(atoms, n, j - 1);
    }
  }

  lemma RunsOfPrefix(atoms: seq<Atom>)
    requires atoms != []
    ensures RunsOnOneLine(atoms) <==> RunsOnOneLine(atoms[..|atoms| - 1]) && RunOnOneLine(atoms, |atoms| - 1)
  {
    var n := |atoms| - 1;
    forall j | 0 <= j < n ensures RunOnOneLine(atoms[..n], j) <==> RunOnOneLine(atoms, j) {
      RunStartInPrefix(atoms, n, j);
    }
    if RunsOnOneLine(atoms) {
      forall j | 0 <= j < n ensures RunOnOneLine(atoms[..n], j) {
        assert RunOnOneLine(atoms, j);
      }
    }
    if RunsOnOneLine(atoms[..n]) && RunOnOneLine(atoms, n) {
      forall j | 0 <= j < |atoms| ensures RunOnOneLine(atoms, j) {
        assert j < n ==> RunOnOneLine(atoms[..n], j);
      }
    }
  }

  /** Two stretches that meet, merged into one that is still on one line, show what they showed before. */
  lemma MergedRangeCells(lines: seq<string>, a: Atom, next: Atom)
    requires a.kind.Range? && OnOneLine(lines, a) && OnOneLine(lines, next) && Mergeable(a, next)
    requires OnOneLine(lines, MergeTwo(a, next))
    ensures Show(AtomCells(lines, MergeTwo(a, next))) == Show(AtomCells(lines, a)) + Show(AtomCells(lines, next))
  {
    var l, merged := a.begin.line, MergeTwo(a, next);
    if a.end.line == l {
      ByteCellsSplit(lines[l], l, a.begin.column, a.end.column, EndColumn(lines, merged), a.face);
    } else {
      assert next.end == next.begin == Coord(l + 1, 0);
      assert AtomCells(lines, next) == [];
    }
    ShowConcat(AtomCells(lines, a), AtomCells(lines, next));
  }

  lemma MergedCells(lines: seq<string>, a: Atom, next: Atom)
    requires OnOneLine(lines, a) && OnOneLine(lines, next) && Mergeable(a, next)
    requires OnOneLine(lines, MergeTwo(a, next))
    ensures Show(AtomCells(lines, MergeTwo(a, next))) == Show(AtomCells(lines, a)) + Show(AtomCells(lines, next))
  {
    if a.kind.Range? {
      MergedRangeCells(lines, a, next);
    } else {
      var text := a.text + next.text;
      assert forall i :: 0 <= i < |text| ==> text[i] == if i < |a.text| then a.text[i] else next.text[i - |a.text|];
    }
  }

  lemma CellsOfAppended(lines: seq<string>, acc: seq<Atom>, next: Atom)
    requires AllOnOneLine(lines, acc) && OnOneLine(lines, next)
    ensures AllOnOneLine(lines, acc + [next])
    ensures Show(Cells(lines, acc + [next])) == Show(Cells(lines, acc)) + Show(AtomCells(lines, next))
  {
    CellsOfOne(lines, next);
    CellsConcat(lines, acc, [next]);
    ShowConcat(Cells(lines, acc), AtomCells(lines, next));
  }

  lemma CellsOfMerged(lines: seq<string>, init: seq<Atom>, last: Atom, next: Atom)
    requires AllOnOneLine(lines, init) && OnOneLine(lines, last) && OnOneLine(lines, next)
    requires Mergeable(last, next) && OnOneLine(lines, MergeTwo(last, next))
    ensures AllOnOneLine(lines, init + [MergeTwo(last, next)]) && AllOnOneLine(lines, init + [last])
    ensures Show(Cells(lines, init + [MergeTwo(last, next)])) ==
      Show(Cells(lines, init + [last])) + Show(AtomCells(lines, next))
  {
    MergedCells(lines, last, next);
    CellsOfAppended(lines, init, last);
    CellsOfAppended(lines, init, MergeTwo(last, next));
    Sequences.Assoc(Show(Cells(lines, init)), Show(AtomCells(lines, last)), Show(AtomCells(lines, next)));
  }

  lemma CellsOfMerge(lines: seq<string>, acc: seq<Atom>, next: Atom)
    requires AllOnOneLine(lines, acc) && OnOneLine(lines, next) && AllOnOneLine(lines, MergeInto(acc, next))
    ensures Show(Cells(lines, MergeInto(acc, next))) == Show(Cells(lines, acc)) + Show(AtomCells(lines, next))
  {
    if acc != [] && Mergeable(acc[|acc| - 1], next) {
      var init, last := acc[..|acc| - 1], acc[|acc| - 1];
      assert MergeInto(acc, next)[|acc| - 1] == MergeTwo(last, next);
      CellsOfMerged(lines, init, last, next);
      Sequences.Last(acc);
    } else {
      CellsOfAppended(lines, acc, next);
    }
  }

  /** The last merged atom goes from the begin of the last run to the end of the last atom. */
  ghost predicate CoversRun(merged: Atom, atoms: seq<Atom>)
    requires atoms != []
  {
    var n := |atoms| - 1;
    && merged.kind == atoms[n].kind && merged.face == atoms[n].face
    && (HasBufferRange(atoms[n]) ==> merged.begin == atoms[RunStart(atoms, n)].begin && merged.end == atoms[n].end)
  }

  lemma RunStartStep(atoms: seq<Atom>)
    requires atoms != []
    ensures var n := |atoms| - 1;
      && (n == 0 || !Mergeable(atoms[n - 1], atoms[n]) ==> RunStart(atoms, n) == n)
      && (n > 0 && Mergeable(atoms[n - 1], atoms[n]) ==> RunStart(atoms, n) == RunStart(atoms[..n], n - 1))
  {
    var n := |atoms| - 1;
    if n > 0 {
      RunStartInPrefix(atoms, n, n - 1);
    }
  }

  /** The last merged atom takes in the next atom exactly if the atom before would. */
  lemma CoversNext(acc: seq<Atom>, atoms: seq<Atom>)
    requires |atoms| > 1 && acc != [] && CoversRun(acc[|acc| - 1], atoms[..|atoms| - 1])
    ensures Mergeable(acc[|acc| - 1], atoms[|atoms| - 1]) <==> Mergeable(atoms[|atoms| - 2], atoms[|atoms| - 1])
    ensures var merged := MergeInto(acc, atoms[|atoms| - 1]); CoversRun(merged[|merged| - 1], atoms)
  {
    hide RunStart;
    RunStartStep(atoms);
  }

  lemma {:induction false} LastCoversRun(atoms: seq<Atom>)
    requires atoms != []
    ensures CoversRun(Optimized(atoms)[|Optimized(atoms)| - 1], atoms)
  {
    hide RunStart, CoversRun, MergeInto;
    var init := atoms[..|atoms| - 1];
    if init == [] {
      OneAtomCovers(atoms);
    } else {
      LastCoversRun(init);
      CoversNext(Optimized(init), atoms);
    }
  }

  lemma OneAtomCovers(atoms: seq<Atom>)
    requires |atoms| == 1
    ensures Optimized(atoms) == atoms && CoversRun(atoms[0], atoms)
  {
    assert Optimized(atoms[..0]) == [];
  }

  /** Along a run of stretches, begins and ends follow each other. */
  lemma {:induction false} RunAscends(lines: seq<string>, atoms: seq<Atom>, j: nat)
    requires AllOnOneLine(lines, atoms) && j < |atoms| && atoms[j].kind.Range?
    ensures atoms[RunStart(atoms, j)].kind.Range?
    ensures Le(atoms[RunStart(atoms, j)].begin, atoms[j].begin) && Le(atoms[j].begin, atoms[j].end)
  {
    assert OnOneLine(lines, atoms[j]);
    if RunStart(atoms, j) != j {
      RunAscends(lines, atoms, j - 1);
    }
  }

  /** An atom that covers a run is on one line exactly if the run is. */
  lemma CoveringOnOneLine(lines: seq<string>, atoms: seq<Atom>, merged: Atom)
    requires AllOnOneLine(lines, atoms) && atoms != [] && CoversRun(merged, atoms)
    ensures OnOneLine(lines, merged) <==> RunOnOneLine(atoms, |atoms| - 1)
  {
    var n := |atoms| - 1;
    if atoms[n].kind.Range? {
      RunAscends(lines, atoms, n);
      assert OnOneLine(lines, atoms[RunStart(atoms, n)]) && OnOneLine(lines, atoms[n]);
    }
  }

  /** If the merged atom still fits, so did the one before the merge. */
  lemma ShorterRunFits(lines: seq<string>, atoms: seq<Atom>)
    requires AllOnOneLine(lines, atoms) && |atoms| > 1 && Mergeable(atoms[|atoms| - 2], atoms[|atoms| - 1])
    ensures RunOnOneLine(atoms, |atoms| - 1) ==> RunOnOneLine(atoms[..|atoms| - 1], |atoms| - 2)
  {
    RunStartStep(atoms);
    assert OnOneLine(lines, atoms[|atoms| - 1]);
  }

  lemma AllOnOneLineSnoc(lines: seq<string>, atoms: seq<Atom>, last: Atom)
    ensures AllOnOneLine(lines, atoms + [last]) <==> AllOnOneLine(lines, atoms) && OnOneLine(lines, last)
  {
    if AllOnOneLine(lines, atoms + [last]) {
      forall i | 0 <= i < |atoms| ensures OnOneLine(lines, atoms[i]) {
        assert (atoms + [last])[i] == atoms[i];
      }
      assert (atoms + [last])[|atoms|] == last;
    }
  }

  /** What merging one more atom means for the lines. */
  lemma MergedOnOneLine(lines: seq<string>, acc: seq<Atom>, atoms: seq<Atom>)
    requires AllOnOneLine(lines, atoms) && |atoms| > 1 && acc != [] && CoversRun(acc[|acc| - 1], atoms[..|atoms| - 1])
    requires AllOnOneLine(lines, acc) <==> RunsOnOneLine(atoms[..|atoms| - 1])
    ensures AllOnOneLine(lines, MergeInto(acc, atoms[|atoms| - 1])) <==> RunsOnOneLine(atoms)
  {
    hide RunStart, RunsOnOneLine, RunOnOneLine, CoversRun, OnOneLine, AllOnOneLine, Mergeable, MergeTwo;
    var init, n, last := atoms[..|atoms| - 1], |atoms| - 1, acc[|acc| - 1];
    var merged := MergeInto(acc, atoms[n]);
    Sequences.Last(atoms);
    AllOnOneLineSnoc(lines, init, atoms[n]);
    RunsOfPrefix(atoms);
    CoversNext(acc, atoms);
    CoveringOnOneLine(lines, atoms, merged[|merged| - 1]);
    CoveringOnOneLine(lines, init, last);
    Sequences.Last(acc);
    AllOnOneLineSnoc(lines, acc[..|acc| - 1], last);
    if Mergeable(last, atoms[n]) {
      AllOnOneLineSnoc(lines, acc[..|acc| - 1], merged[|merged| - 1]);
      ShorterRunFits(lines, atoms);
    } else {
      AllOnOneLineSnoc(lines, acc, atoms[n]);
    }
  }

  /** `content` accepts every merged atom exactly if no run of neighbours to be merged goes past the end
      of a buffer line. */
  lemma {:induction false} OptimizedOnOneLine(lines: seq<string>, atoms: seq<Atom>)
    requires AllOnOneLine(lines, atoms)
    ensures AllOnOneLine(lines, Optimized(atoms)) <==> RunsOnOneLine(atoms)
  {
    hide RunStart, RunOnOneLine, CoversRun, OnOneLine, MergeInto;
    if |atoms| == 1 {
      OneAtomCovers(atoms);
      CoveringOnOneLine(lines, atoms, atoms[0]);
      assert OnOneLine(lines, atoms[0]);
    } else if atoms != [] {
      var init := atoms[..|atoms| - 1];
      LastCoversRun(init);
      OptimizedOnOneLine(lines, init);
      MergedOnOneLine(lines, Optimized(init), atoms);
    }
  }

  /** Merging keeps every displayed character and its face, as long as the merged atoms can be displayed. */
  lemma {:induction false} OptimizedShowsSame(lines: seq<string>, atoms: seq<Atom>)
    requires AllOnOneLine(lines, atoms)
    ensures AllOnOneLine(lines, Optimized(atoms)) <==> RunsOnOneLine(atoms)
    ensures RunsOnOneLine(atoms) ==> Show(Cells(lines, Optimized(atoms))) == Show(Cells(lines, atoms))
  {
    OptimizedOnOneLine(lines, atoms);
    if atoms != [] && RunsOnOneLine(atoms) {
      var init, last := atoms[..|atoms| - 1], atoms[|atoms| - 1];
      RunsOfPrefix(atoms);
      OptimizedShowsSame(lines, init);
      CellsOfMerge(lines, Optimized(init), last);
      CellsOfAppended(lines, init, last);
      Sequences.Last(atoms);
    }
  }

  /** A stretch up to the end of its line, and one of the next line in the same face: merged, they make an
      atom that `content` does not accept. */
  lemma MergedAcrossLines()
    ensures var lines, face := ["a\n", "b\n"], Face(0, 0, 0, 0);
      var atoms := [Atom(Range, Coord(0, 0), Coord(1, 0), "", face), Atom(Range, Coord(1, 0), Coord(1, 1), "", face)];
      AllOnOneLine(lines, atoms) && !AllOnOneLine(lines, Optimized(atoms))
  {
    var lines, face := ["a\n", "b\n"], Face(0, 0, 0, 0);
    var atoms := [Atom(Range, Coord(0, 0), Coord(1, 0), "", face), Atom(Range, Coord(1, 0), Coord(1, 1), "", face)];
    assert RunStart(atoms, 1) == 0 && !RunOnOneLine(atoms, 1);
    OptimizedOnOneLine(lines, atoms);
  }

  ghost predicate NothingToMerge(atoms: seq<Atom>) {
    forall i :: 0 <= i < |atoms| ==> NotMergeableAt(atoms, i)
  }

  ghost predicate NotMergeableAt(atoms: seq<Atom>, i: nat)
    requires i < |atoms|
  {
    i > 0 ==>
      var a, next := atoms[i - 1], atoms[i];
      !(a.kind == next.kind && a.face == next.face && (a.kind == Text || a.end == next.begin))
  }

  /** One pass merges all there is to merge. */
  lemma {:induction false} OptimizedIsDone(atoms: seq<Atom>)
    ensures NothingToMerge(Optimized(atoms))
  {
    if atoms != [] {
      var acc, last := Optimized(atoms[..|atoms| - 1]), atoms[|atoms| - 1];
      OptimizedIsDone(atoms[..|atoms| - 1]);
      var merged := MergeInto(acc, last);
      forall i | 0 <= i < |merged| ensures NotMergeableAt(merged, i) {
        if i < |acc| {
          assert NotMergeableAt(acc, i);
        }
      }
    }
  }

  /** Merging changes neither the span nor the order. */
  lemma {:induction false} OptimizedKeepsSpan(atoms: seq<Atom>)
    requires Ordered(atoms)
    ensures SpanOf(Optimized(atoms)) == SpanOf(atoms) && Ordered(Optimized(atoms))
  {
    if atoms != [] {
      var acc, last := Optimized(atoms[..|atoms| - 1]), atoms[|atoms| - 1];
      OptimizedKeepsSpan(atoms[..|atoms| - 1]);
      var merged := MergeInto(acc, last);
      assert merged[..|merged| - 1] == if acc != [] && Mergeable(acc[|acc| - 1], last) then acc[..|acc| - 1] else acc;
    }
  }
}
