/** Display lines and display buffers, updated in place. */
module Displays {
  import opened Coords
  import opened DisplayAtoms
  import opened AtomLists
  import opened Integers
  import Sequences

  const INIT_RANGE := BufferRange(Coord(INT_MAX, INT_MAX), Coord(INT_MIN, INT_MIN))
  const NO_RANGE := BufferRange(ORIGIN, ORIGIN)

  /** The range is the one the atoms span, if they have any buffer range. */
  predicate Spans(range: BufferRange, atoms: seq<Atom>) {
    SpanOf(atoms).Span? ==> range == BufferRange(SpanOf(atoms).begin, SpanOf(atoms).end)
  }

  class DisplayLine {
    var atoms: seq<Atom>
    var range: BufferRange

    /** What `compute_range` establishes for atoms in order, and every other operation keeps. */
    ghost predicate Valid()
      reads this
    {
      Ordered(atoms) && Spans(range, atoms)
    }

    constructor (atoms: seq<Atom>)
      requires Ordered(atoms)
      ensures Valid() && this.atoms == atoms
    {
      this.atoms := atoms;
      this.range := INIT_RANGE;
      new;
      ComputeRange(false);
    }

    /** Splits an atom in two and returns the index of the first part. */
    method Split(it: nat, pos: Coord) returns (first: nat)
      requires it < |atoms| && atoms[it].kind.Range? && Lt(atoms[it].begin, pos) && Lt(pos, atoms[it].end)
      modifies this`atoms
      ensures first == it
      ensures atoms ==
        old(atoms[..it]) + [old(atoms[it]).(end := pos), old(atoms[it]).(begin := pos)] + old(atoms[it + 1..])
    {
      var atom := atoms[it].(end := pos);
      atoms := atoms[it := atoms[it].(begin := pos)];
      atoms := atoms[..it] + [atom] + atoms[it..];
      first := it;
    }

    method ComputeRange(preserveIfNoAtoms: bool)
      requires Ordered(atoms)
      modifies this`range
      ensures Spans(range, atoms)
      ensures SpanOf(atoms).NoSpan? ==>
        range == if preserveIfNoAtoms && old(range) != INIT_RANGE then old(range) else NO_RANGE
      ensures SpanOf(atoms).Span? ==> Le(range.begin, range.end)
    {
      var first := 0;
      while first < |atoms| && !HasBufferRange(atoms[first])
        invariant first <= |atoms| && SpanOf(atoms[..first]) == NoSpan && range == old(range)
      {
        NextSpan(atoms, first);
        first := first + 1;
      }
      if first == |atoms| {
        assert atoms[..first] == atoms && SpanOf(atoms) == NoSpan;
        range := if preserveIfNoAtoms && range != INIT_RANGE then range else NO_RANGE;
      } else {
        NextSpan(atoms, first);
        var last := |atoms| - 1;
        assert atoms[..last + 1] == atoms;
        while last > first && !HasBufferRange(atoms[last])
          invariant first <= last < |atoms| && SpanOf(atoms[..last + 1]) == SpanOf(atoms)
        {
          NextSpan(atoms, last);
          last := last - 1;
        }
        NextSpan(atoms, last);
        FirstBegins(atoms, first, last + 1);
        assert SpanOf(atoms) == Span(atoms[first].begin, atoms[last].end);
        SpanOrdered(atoms);
        range := BufferRange(atoms[first].begin, atoms[last].end);
      }
    }

    /** The cases of the merging loop: whether `next` goes into `atom`, and what comes of it. */
    static method MergeNeighbours(atom: Atom, next: Atom) returns (merge: bool, merged: Atom)
      ensures merge <==> Mergeable(atom, next)
      ensures merge ==> merged == MergeTwo(atom, next)
    {
      merge, merged := false, atom;
      if atom.kind == next.kind && atom.face == next.face {
        if atom.kind.Text? {
          return true, atom.(text := atom.text + next.text);
        } else if next.begin == atom.end {
          merged := merged.(end := next.end);
          if atom.kind.ReplacedRange? {
            merged := merged.(text := merged.text + next.text);
          }
          merge := true;
        }
      }
    }

    /** Merges neighbours in place, with a reading and a writing position. */
    method Optimize()
      modifies this`atoms
      ensures atoms == Optimized(old(atoms))
      ensures old(Valid()) ==> Valid()
    {
      if old(Ordered(atoms)) {
        OptimizedKeepsSpan(atoms);
      }
      if atoms == [] {
        return;
      }
      ghost var was := atoms;
      var atomIt, nextIt := 0, 1;
      MergeStart(was);
      while nextIt != |atoms|
        invariant MergedUpTo(was, atoms, atomIt, nextIt)
        decreases |atoms| - nextIt
      {
        MergeStep(was, atoms, atomIt, nextIt);
        var merge, merged := MergeNeighbours(atoms[atomIt], atoms[nextIt]);
        if merge {
          atoms := atoms[atomIt := merged];
        } else {
          atomIt := atomIt + 1;
          atoms := atoms[atomIt := atoms[nextIt]];
        }
        nextIt := nextIt + 1;
      }
      Sequences.TakeAll(was);
      atoms := atoms[..atomIt + 1];
    }
  }

  lemma NextSpan(atoms: seq<Atom>, i: nat)
    requires i < |atoms|
    ensures SpanOf(atoms[..i + 1]) ==
      if !HasBufferRange(atoms[i]) then SpanOf(atoms[..i])
      else Span(if SpanOf(atoms[..i]).Span? then SpanOf(atoms[..i]).begin else atoms[i].begin, atoms[i].end)
  {
    assert atoms[..i + 1][..i] == atoms[..i];
  }

  lemma {:induction false} FirstBegins(atoms: seq<Atom>, first: nat, end: nat)
    requires first < end <= |atoms| && HasBufferRange(atoms[first]) && SpanOf(atoms[..first]) == NoSpan
    ensures SpanOf(atoms[..end]).Span? && SpanOf(atoms[..end]).begin == atoms[first].begin
  {
    NextSpan(atoms, end - 1);
    if first < end - 1 {
      FirstBegins(atoms, first, end - 1);
    }
  }

  /** What has been read is merged in front of the writing position, the rest is still as it was. */
  ghost predicate MergedUpTo(was: seq<Atom>, atoms: seq<Atom>, atomIt: nat, nextIt: nat) {
    && atomIt < nextIt <= |atoms| == |was|
    && atoms[..atomIt + 1] == Optimized(was[..nextIt])
    && atoms[nextIt..] == was[nextIt..]
  }

  lemma MergeStart(was: seq<Atom>)
    requires was != []
    ensures MergedUpTo(was, was, 0, 1)
  {
    assert was[..1] == [was[0]] && [was[0]][..0] == [];
  }

  /** One turn of the merging loop, for either outcome. */
  lemma MergeStep(was: seq<Atom>, atoms: seq<Atom>, atomIt: nat, nextIt: nat)
    requires MergedUpTo(was, atoms, atomIt, nextIt) && nextIt < |atoms|
    ensures Mergeable(atoms[atomIt], atoms[nextIt]) ==>
      MergedUpTo(was, atoms[atomIt := MergeTwo(atoms[atomIt], atoms[nextIt])], atomIt, nextIt + 1)
    ensures !Mergeable(atoms[atomIt], atoms[nextIt]) ==>
      MergedUpTo(was, atoms[atomIt + 1 := atoms[nextIt]], atomIt + 1, nextIt + 1)
  {
    var acc := atoms[..atomIt + 1];
    assert was[..nextIt + 1][..nextIt] == was[..nextIt];
    assert atoms[nextIt] == atoms[nextIt..][0] == was[nextIt];
    assert atoms[nextIt + 1..] == atoms[nextIt..][1..] == was[nextIt + 1..];
    assert acc[..|acc| - 1] == atoms[..atomIt] && acc[|acc| - 1] == atoms[atomIt];
    var merged := atoms[atomIt := MergeTwo(atoms[atomIt], atoms[nextIt])];
    assert merged[..atomIt + 1] == atoms[..atomIt] + [merged[atomIt]] && merged[nextIt + 1..] == atoms[nextIt + 1..];
    var moved := atoms[atomIt + 1 := atoms[nextIt]];
    assert moved[..atomIt + 2] == acc + [atoms[nextIt]] && moved[nextIt + 1..] == atoms[nextIt + 1..];
  }

  // ----- highlighting a line

  /** The atoms in front of `it` are done, those of the original list from `k` on are still to come. */
  ghost predicate HighlightedUpTo(was: seq<Atom>, atoms: seq<Atom>, it: nat, k: nat, begin: Coord, end: Coord,
                                  skipReplaced: bool, f: Face -> Face)
  {
    && k <= |was|
    && it == |HighlightAtoms(was[..k], begin, end, skipReplaced, f)|
    && atoms == HighlightAtoms(was[..k], begin, end, skipReplaced, f) + was[k..]
  }

  lemma HighlightStart(was: seq<Atom>, begin: Coord, end: Coord, skipReplaced: bool, f: Face -> Face)
    ensures HighlightedUpTo(was, was, 0, 0, begin, end, skipReplaced, f)
  {
    assert was[..0] == [] && was[0..] == was;
  }

  lemma HighlightEnd(was: seq<Atom>, atoms: seq<Atom>, it: nat, k: nat, begin: Coord, end: Coord, skipReplaced: bool,
                     f: Face -> Face)
    requires HighlightedUpTo(was, atoms, it, k, begin, end, skipReplaced, f) && it == |atoms|
    ensures atoms == HighlightAtoms(was, begin, end, skipReplaced, f)
  {
    assert was[k..] == [] && was[..k] == was;
  }

  lemma HighlightStep(was: seq<Atom>, atoms: seq<Atom>, it: nat, k: nat, begin: Coord, end: Coord, skipReplaced: bool,
                      f: Face -> Face)
    requires HighlightedUpTo(was, atoms, it, k, begin, end, skipReplaced, f) && it < |atoms|
    ensures k < |was| && atoms[it] == was[k]
    ensures var pieces := HighlightAtom(was[k], begin, end, skipReplaced, f);
      HighlightedUpTo(was, atoms[..it] + pieces + atoms[it + 1..], it + |pieces|, k + 1, begin, end, skipReplaced, f)
  {
    var done := HighlightAtoms(was[..k], begin, end, skipReplaced, f);
    assert atoms[it] == was[k..][0];
    assert was[..k + 1][..k] == was[..k];
    assert atoms[..it] == done && atoms[it + 1..] == was[k + 1..];
  }

  /** The inner loop of `highlight_range`: splits the atoms of one line and paints those inside. */
  method HighlightLine(line: DisplayLine, begin: Coord, end: Coord, skipReplaced: bool, f: Face -> Face)
    requires Lt(begin, end)
    modifies line`atoms
    ensures line.atoms == HighlightAtoms(old(line.atoms), begin, end, skipReplaced, f)
  {
    ghost var was, k := line.atoms, 0;
    var atomIt := 0;
    HighlightStart(was, begin, end, skipReplaced, f);
    while atomIt != |line.atoms|
      invariant HighlightedUpTo(was, line.atoms, atomIt, k, begin, end, skipReplaced, f)
      decreases |was| - k
    {
      HighlightStep(was, line.atoms, atomIt, k, begin, end, skipReplaced, f);
      atomIt := HighlightAtomAt(line, atomIt, begin, end, skipReplaced, f);
      atomIt, k := atomIt + 1, k + 1;
    }
    HighlightEnd(was, line.atoms, atomIt, k, begin, end, skipReplaced, f);
  }

  /** One turn of the inner loop: returns the index of the last piece. */
  method HighlightAtomAt(line: DisplayLine, it: nat, begin: Coord, end: Coord, skipReplaced: bool,
                         f: Face -> Face) returns (last: nat)
    requires Lt(begin, end) && it < |line.atoms|
    modifies line`atoms
    ensures var pieces := HighlightAtom(old(line.atoms[it]), begin, end, skipReplaced, f);
      && line.atoms == old(line.atoms[..it]) + pieces + old(line.atoms[it + 1..])
      && last + 1 == it + |pieces|
  {
    var atomIt := it;
    var isReplaced := line.atoms[atomIt].kind.ReplacedRange?;
    if !HasBufferRange(line.atoms[atomIt]) || (skipReplaced && isReplaced)
      || Le(end, line.atoms[atomIt].begin) || Le(line.atoms[atomIt].end, begin)
    {
      return atomIt;
    }
    if !isReplaced && Lt(line.atoms[atomIt].begin, begin) {
      ghost var a := line.atoms;
      atomIt := line.Split(atomIt, begin);
      atomIt := atomIt + 1;
      SplitPlaces(a, it, a[it].(end := begin), a[it].(begin := begin));
    }
    last := PaintFrom(line, atomIt, end, isReplaced, f);
  }

  /** The second half of a turn: the atom at `it` begins inside; what lies behind `end` is split off first. */
  method PaintFrom(line: DisplayLine, it: nat, end: Coord, isReplaced: bool, f: Face -> Face) returns (last: nat)
    requires it < |line.atoms| && HasBufferRange(line.atoms[it]) && (isReplaced <==> line.atoms[it].kind.ReplacedRange?)
    requires Lt(line.atoms[it].begin, end)
    modifies line`atoms
    ensures var a, split := old(line.atoms[it]), !isReplaced && Lt(end, old(line.atoms[it]).end);
      && line.atoms == old(line.atoms[..it])
           + (if split then [a.(end := end, face := f(a.face)), a.(begin := end)] else [a.(face := f(a.face))])
           + old(line.atoms[it + 1..])
      && last == if split then it + 1 else it
  {
    var atomIt := it;
    if !isReplaced && Lt(end, line.atoms[atomIt].end) {
      atomIt := line.Split(atomIt, end);
      line.atoms := line.atoms[atomIt := line.atoms[atomIt].(face := f(line.atoms[atomIt].face))];
      atomIt := atomIt + 1;
    } else {
      line.atoms := line.atoms[atomIt := line.atoms[atomIt].(face := f(line.atoms[atomIt].face))];
    }
    last := atomIt;
  }

  lemma SplitPlaces(a: seq<Atom>, it: nat, first: Atom, rest: Atom)
    requires it < |a|
    ensures var split := a[..it] + [first, rest] + a[it + 1..];
      split[it + 1] == rest && split[..it + 1] == a[..it] + [first] && split[it + 2..] == a[it + 1..]
  {
  }

  // ----- display buffers

  predicate FitsInt(c: Coord) {
    INT_MIN <= c.line <= INT_MAX && INT_MIN <= c.column <= INT_MAX
  }

  function MinCoord(a: Coord, b: Coord): Coord {
    if Lt(b, a) then b else a
  }

  function MaxCoord(a: Coord, b: Coord): Coord {
    if Lt(a, b) then b else a
  }

  /** The range contains every buffer range of the atoms. */
  predicate Covers(range: BufferRange, atoms: seq<Atom>) {
    SpanOf(atoms).Span? ==> Le(range.begin, SpanOf(atoms).begin) && Le(SpanOf(atoms).end, range.end)
  }

  ghost predicate DistinctLines(lines: seq<DisplayLine>) {
    forall i, j :: 0 <= i < j < |lines| ==> lines[i] != lines[j]
  }

  ghost predicate LineOk(range: BufferRange, line: DisplayLine)
    reads line
  {
    line.Valid() && Covers(range, line.atoms)
  }

  class DisplayBuffer {
    var lines: seq<DisplayLine>
    var range: BufferRange

    /** Every line is valid, and the range covers the ranges of all lines. */
    ghost predicate Valid()
      reads this, lines
    {
      DistinctLines(lines) && forall i :: 0 <= i < |lines| ==> LineOk(range, lines[i])
    }

    method ComputeRange()
      requires forall i :: 0 <= i < |lines| ==>
        FitsInt(lines[i].range.begin) && FitsInt(lines[i].range.end) && Le(lines[i].range.begin, lines[i].range.end)
      modifies this`range
      ensures lines == [] ==> range == NO_RANGE
      ensures forall i :: 0 <= i < |lines| ==>
        Le(range.begin, lines[i].range.begin) && Le(lines[i].range.end, range.end)
      ensures lines != [] ==> exists i :: 0 <= i < |lines| && range.begin == lines[i].range.begin
      ensures lines != [] ==> exists i :: 0 <= i < |lines| && range.end == lines[i].range.end
      ensures Le(range.begin, range.end)
      ensures DistinctLines(lines) && (forall i :: 0 <= i < |lines| ==> lines[i].Valid()) ==> Valid()
    {
      range := INIT_RANGE;
      var i := 0;
      while i < |lines|
        invariant i <= |lines| && (i == 0 ==> range == INIT_RANGE)
        invariant forall k :: 0 <= k < i ==> Le(range.begin, lines[k].range.begin) && Le(lines[k].range.end, range.end)
        invariant i > 0 ==> exists k :: 0 <= k < i && range.begin == lines[k].range.begin
        invariant i > 0 ==> exists k :: 0 <= k < i && range.end == lines[k].range.end
      {
        var line := lines[i];
        range := BufferRange(MinCoord(line.range.begin, range.begin), MaxCoord(line.range.end, range.end));
        i := i + 1;
      }
      if range == INIT_RANGE {
        range := NO_RANGE;
      }
    }
  }

  /** What highlighting made of the atoms of a line: a valid line again, with the same text, in which exactly
      the bytes and the replaced stretches reached by the highlighting have the new face. */
  ghost predicate Painted(buffer: seq<string>, was: seq<Atom>, now: seq<Atom>, begin: Coord, end: Coord,
                          skipReplaced: bool, f: Face -> Face)
    requires AllOnOneLine(buffer, was)
  {
    && AllOnOneLine(buffer, now)
    && Cells(buffer, now) ==
      (if Lt(begin, end) then Paint(Cells(buffer, was), begin, end, skipReplaced, f) else Cells(buffer, was))
    && TextOf(Cells(buffer, now)) == TextOf(Cells(buffer, was))
    && |now| <= |was| + 2
  }

  lemma LinePainted(buffer: seq<string>, was: seq<Atom>, begin: Coord, end: Coord, skipReplaced: bool, f: Face -> Face)
    requires AllOnOneLine(buffer, was) && Ordered(was) && NonNegative(begin) && NonNegative(end) && Lt(begin, end)
    ensures Painted(buffer, was, HighlightAtoms(was, begin, end, skipReplaced, f), begin, end, skipReplaced, f)
  {
    HighlightPaints(buffer, was, begin, end, skipReplaced, f);
    PaintKeepsText(Cells(buffer, was), begin, end, skipReplaced, f);
    AtMostTwoCuts(was, begin, end, skipReplaced, f);
  }

  /** A line that the highlighting leaves alone counts as painted too. */
  lemma LineLeftAlone(buffer: seq<string>, atoms: seq<Atom>, begin: Coord, end: Coord, skipReplaced: bool,
                      f: Face -> Face)
    requires AllOnOneLine(buffer, atoms) && Ordered(atoms) && NonNegative(begin) && NonNegative(end)
    requires SpanOf(atoms).Span? ==> Le(end, begin) || Le(SpanOf(atoms).end, begin) || Le(end, SpanOf(atoms).begin)
    ensures Painted(buffer, atoms, atoms, begin, end, skipReplaced, f)
  {
    if Lt(begin, end) {
      HighlightOutsideSpan(atoms, begin, end, skipReplaced, f);
      LinePainted(buffer, atoms, begin, end, skipReplaced, f);
    }
  }

  /** One turn of the outer loop of `highlight_range`. */
  method HighlightIfReached(line: DisplayLine, begin: Coord, end: Coord, skipReplaced: bool, f: Face -> Face,
                            ghost buffer: seq<string>)
    requires line.Valid() && AllOnOneLine(buffer, line.atoms)
    requires NonNegative(begin) && NonNegative(end) && Lt(begin, end)
    modifies line`atoms
    ensures line.Valid() && SpanOf(line.atoms) == SpanOf(old(line.atoms))
    ensures Painted(buffer, old(line.atoms), line.atoms, begin, end, skipReplaced, f)
  {
    LineLeftAloneOrPainted(buffer, line.atoms, line.range, begin, end, skipReplaced, f);
    if !(Le(line.range.end, begin) || Lt(end, line.range.begin)) {
      HighlightLine(line, begin, end, skipReplaced, f);
    }
  }

  /** The outer loop of `highlight_range`. */
  method HighlightLines(lines: seq<DisplayLine>, ghost range: BufferRange, begin: Coord, end: Coord,
                        skipReplaced: bool, f: Face -> Face,
                        ghost buffer: seq<string>)
    requires DistinctLines(lines) && NonNegative(begin) && NonNegative(end) && Lt(begin, end)
    requires forall i :: 0 <= i < |lines| ==> LineOk(range, lines[i]) && AllOnOneLine(buffer, lines[i].atoms)
    modifies lines
    ensures forall i :: 0 <= i < |lines| ==> LineOk(range, lines[i])
    ensures forall i :: 0 <= i < |lines| ==>
      Painted(buffer, old(lines[i].atoms), lines[i].atoms, begin, end, skipReplaced, f)
  {
    hide Painted;
    var i := 0;
    while i < |lines|
      invariant i <= |lines|
      invariant forall k :: 0 <= k < |lines| ==> LineOk(range, lines[k])
      invariant forall k :: 0 <= k < i ==>
        Painted(buffer, old(lines[k].atoms), lines[k].atoms, begin, end, skipReplaced, f)
      invariant forall k :: i <= k < |lines| ==> lines[k].atoms == old(lines[k].atoms)
    {
      HighlightIfReached(lines[i], begin, end, skipReplaced, f, buffer);
      i := i + 1;
    }
  }

  lemma AllLeftAlone(display: DisplayBuffer, begin: Coord, end: Coord, skipReplaced: bool, f: Face -> Face,
                     buffer: seq<string>)
    requires display.Valid() && NonNegative(begin) && NonNegative(end)
    requires forall i :: 0 <= i < |display.lines| ==> AllOnOneLine(buffer, display.lines[i].atoms)
    requires Le(end, begin) || Le(end, display.range.begin) || Le(display.range.end, begin)
    ensures forall i :: 0 <= i < |display.lines| ==>
      Painted(buffer, display.lines[i].atoms, display.lines[i].atoms, begin, end, skipReplaced, f)
  {
    forall i | 0 <= i < |display.lines|
      ensures Painted(buffer, display.lines[i].atoms, display.lines[i].atoms, begin, end, skipReplaced, f)
    {
      assert LineOk(display.range, display.lines[i]);
      LineLeftAlone(buffer, display.lines[i].atoms, begin, end, skipReplaced, f);
    }
  }

  /** `highlight_range` on a display of `buffer`. */
  method HighlightRange(display: DisplayBuffer, begin: Coord, end: Coord, skipReplaced: bool, f: Face -> Face,
                        ghost buffer: seq<string>)
    requires display.Valid() && NonNegative(begin) && NonNegative(end)
    requires forall i :: 0 <= i < |display.lines| ==> AllOnOneLine(buffer, display.lines[i].atoms)
    modifies display.lines
    ensures display.Valid()
    ensures forall i :: 0 <= i < |display.lines| ==>
      Painted(buffer, old(display.lines[i].atoms), display.lines[i].atoms, begin, end, skipReplaced, f)
  {
    if Le(end, begin) || Le(end, display.range.begin) || Le(display.range.end, begin) {
      AllLeftAlone(display, begin, end, skipReplaced, f, buffer);
      return;
    }
    HighlightLines(display.lines, display.range, begin, end, skipReplaced, f, buffer);
  }

  /** Either way of going on from the test of the line's range. */
  lemma LineLeftAloneOrPainted(buffer: seq<string>, atoms: seq<Atom>, range: BufferRange, begin: Coord, end: Coord,
                               skipReplaced: bool, f: Face -> Face)
    requires AllOnOneLine(buffer, atoms) && Ordered(atoms) && Spans(range, atoms)
    requires NonNegative(begin) && NonNegative(end) && Lt(begin, end)
    ensures Le(range.end, begin) || Lt(end, range.begin) ==> Painted(buffer, atoms, atoms, begin, end, skipReplaced, f)
    ensures var painted := HighlightAtoms(atoms, begin, end, skipReplaced, f);
      && Painted(buffer, atoms, painted, begin, end, skipReplaced, f)
      && SpanOf(painted) == SpanOf(atoms) && Ordered(painted)
  {
    LinePainted(buffer, atoms, begin, end, skipReplaced, f);
    HighlightKeepsSpan(atoms, begin, end, skipReplaced, f);
    if Le(range.end, begin) || Lt(end, range.begin) {
      LineLeftAlone(buffer, atoms, begin, end, skipReplaced, f);
    }
  }
}
