/** Replacing several ranges of a buffer, each range given in the coordinates before the first
    replacement. */
module MultiReplace {
  import opened Coords
  import opened Lines
  import opened Edits
  import opened ChangeMaps
  import opened Tracker
  import opened Buffers
  import Sequences

  /** The string for range `i`: the last one serves all ranges beyond the strings given. */
  function StringFor(strings: seq<string>, i: nat): string {
    if strings == [] then "" else strings[if i < |strings| then i else |strings| - 1]
  }

  /** Sorted disjoint ranges that stop short of the end of the buffer. */
  ghost predicate Replaceable(lines: seq<string>, ranges: seq<BufferRange>) {
    && (forall i :: 0 <= i < |ranges| ==>
          && IsValid(lines, ranges[i].begin) && IsValid(lines, ranges[i].end)
          && Le(ranges[i].begin, ranges[i].end) && ranges[i].end != EndCoord(lines))
    && (forall i, j :: 0 <= i < j < |ranges| ==> Le(ranges[i].end, ranges[j].begin))
  }

  /** A range of offsets and what is to stand there. */
  datatype Cut = Cut(from: nat, to: nat, text: string)

  ghost predicate Cuts(t: string, cuts: seq<Cut>) {
    && (forall i :: 0 <= i < |cuts| ==> cuts[i].from <= cuts[i].to <= |t|)
    && (forall i, j :: 0 <= i < j < |cuts| ==> cuts[i].to <= cuts[j].from)
  }

  /** Where the untouched rest begins after `n` cuts. */
  ghost function Rest(cuts: seq<Cut>, n: nat): nat
    requires n <= |cuts|
  {
    if n == 0 then 0 else cuts[n - 1].to
  }

  /** The text up to the end of cut `n`, with the first `n` cuts replaced. */
  ghost function Head(t: string, cuts: seq<Cut>, n: nat): string
    requires Cuts(t, cuts) && n <= |cuts|
  {
    if n == 0 then ""
    else
      RestBeforeNext(t, cuts, n - 1);
      Head(t, cuts, n - 1) + t[Rest(cuts, n - 1)..cuts[n - 1].from] + cuts[n - 1].text
  }

  lemma RestBeforeNext(t: string, cuts: seq<Cut>, n: nat)
    requires Cuts(t, cuts) && n < |cuts|
    ensures Rest(cuts, n) <= cuts[n].from <= cuts[n].to <= |t|
  {
    assert n > 0 ==> cuts[n - 1].to <= cuts[n].from;
  }

  lemma RestInText(t: string, cuts: seq<Cut>, n: nat)
    requires Cuts(t, cuts) && n <= |cuts|
    ensures Rest(cuts, n) <= |t|
  {
    assert n > 0 ==> cuts[n - 1].to <= |t|;
  }

  /** How far the rest has moved after `n` cuts. */
  ghost function MovedBy(t: string, cuts: seq<Cut>, n: nat): int
    requires Cuts(t, cuts) && n <= |cuts|
  {
    |Head(t, cuts, n)| - Rest(cuts, n)
  }

  /** Where the range of cut `i` is when its turn comes. */
  ghost function StartOf(t: string, cuts: seq<Cut>, i: nat): nat
    requires Cuts(t, cuts) && i < |cuts|
  {
    RestBeforeNext(t, cuts, i);
    cuts[i].from + MovedBy(t, cuts, i)
  }

  ghost function EndOf(t: string, cuts: seq<Cut>, i: nat): nat
    requires Cuts(t, cuts) && i < |cuts|
  {
    RestBeforeNext(t, cuts, i);
    cuts[i].to + MovedBy(t, cuts, i)
  }

  /** The text with the first `n` cuts replaced all at once. */
  ghost function CutText(t: string, cuts: seq<Cut>, n: nat): string
    requires Cuts(t, cuts) && n <= |cuts|
  {
    RestInText(t, cuts, n);
    Head(t, cuts, n) + t[Rest(cuts, n)..]
  }

  lemma {:induction false} HeadGrows(t: string, cuts: seq<Cut>, i: nat, n: nat)
    requires Cuts(t, cuts) && i <= n <= |cuts|
    ensures Head(t, cuts, i) <= Head(t, cuts, n)
    decreases n - i
  {
    if i < n {
      HeadGrows(t, cuts, i, n - 1);
    }
  }

  // ----- tracking through one replacement

  /** The tracker takes the place at offset `q` of `t` to the one `shift` further in `u`. */
  ghost predicate TracksTo(s: Shift, t: string, q: int, u: string, shift: int) {
    TakesTo(s, t, q, u, q + shift)
  }

  /** The tracker takes the place at offset `q` of `t` to the one at `x` of `u`. */
  ghost predicate TakesTo(s: Shift, t: string, q: int, u: string, x: int) {
    0 <= q <= |t| && 0 <= x <= |u| && s.Tolerant(PosOf(t[..q])) == PosOf(u[..x])
  }

  ghost predicate TracksFrom(s: Shift, t: string, rest: int, u: string, shift: int) {
    && s.Ok() && 0 <= rest <= |t| && |t| + shift == |u|
    && forall q :: rest <= q <= |t| ==> TracksTo(s, t, q, u, shift)
  }

  /** The change takes the place at offset `x` of `u` to the one as far from the end of `u'`. */
  ghost predicate MapsPlace(c: Change, u: string, u': string, x: int) {
    && 0 <= x <= |u| && 0 <= x + |u'| - |u| <= |u'|
    && Le(c.begin, PosOf(u[..x])) && (c.kind == Erase ==> c.begin != PosOf(u[..x]))
    && PosOf(u'[..x + |u'| - |u|]) == MapThrough(c, PosOf(u[..x]))
  }

  lemma InsertMapsPlace(c: Change, u: string, u': string, x: int)
    requires c.kind == Insert && Describes(c, u, u') && OffsetOf(u', c.begin) <= x <= |u|
    ensures MapsPlace(c, u, u', x)
  {
    var i := OffsetOf(u', c.begin);
    Sequences.Cut(u'[..i], u'[OffsetOf(u', c.end)..]);
    PrefixOrder(u, i, x);
    MapOffsetInsert(c, u, u', x);
  }

  lemma EraseMapsPlace(c: Change, u: string, u': string, x: int)
    requires c.kind == Erase && Describes(c, u, u') && OffsetOf(u, c.end) <= x <= |u|
    ensures MapsPlace(c, u, u', x)
  {
    PrefixOrder(u, OffsetOf(u, c.begin), x);
    PrefixOrder(u, OffsetOf(u, c.end), x);
    assert Alive([c], PosOf(u[..x])) by { assert [c][1..] == []; }
    MapOffsetErase(c, u, u', x);
  }

  /** A logged change maps every place behind it. */
  lemma MapsPlaces(c: Change, u: string, u': string, first: int)
    requires Describes(c, u, u')
    requires OffsetOf(if c.kind == Insert then u' else u, c.begin) <= first
      && (c.kind == Erase ==> OffsetOf(u, c.end) <= first)
    ensures WellFormedChange(c) && forall x :: first <= x <= |u| ==> MapsPlace(c, u, u', x)
  {
    DescribedIsWellFormed(c, u, u');
    forall x | first <= x <= |u| ensures MapsPlace(c, u, u', x) {
      if c.kind == Insert {
        InsertMapsPlace(c, u, u', x);
      } else {
        EraseMapsPlace(c, u, u', x);
      }
    }
  }

  /** The tracker takes in a change that lies before a tracked place. */
  lemma TrackPlace(s: Shift, c: Change, t: string, q: int, u: string, x: int, u': string, x': int)
    requires x' == x + |u'| - |u| && s.Ok() && TakesTo(s, t, q, u, x) && Le(s.now, c.begin)
    requires WellFormedChange(c) && MapsPlace(c, u, u', x)
    ensures s.After(c).Ok() && TakesTo(s.After(c), t, q, u', x')
  {
    AfterMaps(s, c, PosOf(t[..q]));
  }

  lemma TrackMapped(s: Shift, c: Change, t: string, rest: int, u: string, shift: int, u': string, shift': int)
    requires shift' == shift + |u'| - |u|
    requires TracksFrom(s, t, rest, u, shift) && Le(s.now, c.begin) && WellFormedChange(c)
    requires forall x :: rest + shift <= x <= |u| ==> MapsPlace(c, u, u', x)
    ensures TracksFrom(s.After(c), t, rest, u', shift')
    ensures s.After(c).now == if c.kind == Insert then c.end else c.begin
  {
    assert TracksTo(s, t, |t|, u, shift);
    TrackPlace(s, c, t, |t|, u, |t| + shift, u', |t| + shift');
    forall q | rest <= q <= |t| ensures TracksTo(s.After(c), t, q, u', shift') {
      assert TracksTo(s, t, q, u, shift);
      TrackPlace(s, c, t, q, u, q + shift, u', q + shift');
    }
  }

  lemma TrackChangeFrom(s: Shift, c: Change, t: string, rest: int, u: string, shift: int, u': string, shift': int)
    requires shift' == shift + |u'| - |u|
    requires TracksFrom(s, t, rest, u, shift) && Describes(c, u, u') && Le(s.now, c.begin)
    requires OffsetOf(if c.kind == Insert then u' else u, c.begin) <= rest + shift
    requires c.kind == Erase ==> OffsetOf(u, c.end) <= rest + shift
    ensures WellFormedChange(c) && TracksFrom(s.After(c), t, rest, u', shift')
    ensures s.After(c).now == if c.kind == Insert then c.end else c.begin
  {
    MapsPlaces(c, u, u', rest + shift);
    TrackMapped(s, c, t, rest, u, shift, u', shift');
  }

  lemma TrackOne(s: Shift, c: Change, t: string, rest: int, u: string, shift: int, u': string, shift': int)
    requires shift' == shift + |u'| - |u|
    requires TracksFrom(s, t, rest, u, shift) && Describes(c, u, u') && Le(s.now, c.begin)
    requires OffsetOf(if c.kind == Insert then u' else u, c.begin) <= rest + shift
    requires c.kind == Erase ==> OffsetOf(u, c.end) <= rest + shift
    ensures Follows(s, [c]) && TracksFrom(AfterAll(s, [c]), t, rest, u', shift')
    ensures AfterAll(s, [c]).now == if c.kind == Insert then c.end else c.begin
  {
    TrackChangeFrom(s, c, t, rest, u, shift, u', shift');
    assert [c][1..] == [];
  }

  lemma TrackTwo(s: Shift, c: Change, d: Change, t: string, rest: int, u: string, shift: int, u1: string, u': string,
                 shift': int)
    requires shift' == shift + |u'| - |u|
    requires TracksFrom(s, t, rest, u, shift) && Le(s.now, c.begin)
    requires Describes(c, u, u1) && Describes(d, u1, u') && c.kind == Erase && d.kind == Insert && d.begin == c.begin
    requires OffsetOf(u, c.end) <= rest + shift && OffsetOf(u', d.begin) == OffsetOf(u, c.begin)
    ensures Follows(s, [c, d]) && TracksFrom(AfterAll(s, [c, d]), t, rest, u', shift')
    ensures AfterAll(s, [c, d]).now == d.end
  {
    var shift1 := shift + |u1| - |u|;
    TrackChangeFrom(s, c, t, rest, u, shift, u1, shift1);
    TrackOne(s.After(c), d, t, rest, u1, shift1, u', shift');
    assert [c, d][1..] == [d];
  }

  lemma ReplacedOffsets(u: string, u': string, begin: Coord, x: nat, content: string, y: nat)
    requires Reaches(u, begin) && OffsetOf(u, begin) == x <= y <= |u| && u' == u[..x] + content + u[y..]
    ensures Reaches(u', begin) && OffsetOf(u', begin) == x
    ensures |u'| == |u| - (y - x) + |content| && (u[x..y] == content ==> u' == u)
  {
    SpliceSpans(u, x, content, y, u', x, x + |content|);
    SliceBack(u, x, y);
    OffsetOfCommonPrefix(u, u', x);
  }

  lemma SliceBack(u: string, x: nat, y: nat)
    requires x <= y <= |u|
    ensures u == u[..x] + u[x..y] + u[y..]
  {
  }

  /** The changes of one replacement take the tracker from one text to the next. */
  lemma TrackReplacement(s: Shift, t: string, rest: int, u: string, shift: int, u': string, shift': int,
                         begin: Coord, end: Coord, content: string, e: Coord, log: seq<Change>, trace: seq<string>)
    requires TracksFrom(s, t, rest, u, shift) && Le(s.now, begin) && shift' == shift + |u'| - |u|
    requires Reaches(u, begin) && Reaches(u, end) && OffsetOf(u, begin) <= OffsetOf(u, end) <= rest + shift
    requires u' == u[..OffsetOf(u, begin)] + content + u[OffsetOf(u, end)..]
    requires log == ReplaceChanges(begin, end, content, e, u[OffsetOf(u, begin)..OffsetOf(u, end)])
    requires LogMatches(log, trace) && trace[0] == u && trace[|log|] == u'
    ensures Follows(s, log) && TracksFrom(AfterAll(s, log), t, rest, u', shift')
    ensures log == [] || AfterAll(s, log).now == (if log[|log| - 1].kind == Insert then e else begin)
  {
    var ob, oe := OffsetOf(u, begin), OffsetOf(u, end);
    ReplacedOffsets(u, u', begin, ob, content, oe);
    if |log| == 1 {
      TrackOneLogged(s, t, rest, u, shift, u', shift', log, trace);
    } else if |log| == 2 {
      TrackTwoLogged(s, t, rest, u, shift, u', shift', log, trace);
    }
  }

  lemma TrackOneLogged(s: Shift, t: string, rest: int, u: string, shift: int, u': string, shift': int,
                       log: seq<Change>, trace: seq<string>)
    requires shift' == shift + |u'| - |u| && TracksFrom(s, t, rest, u, shift)
    requires |log| == 1 && LogMatches(log, trace) && trace[0] == u && trace[1] == u' && Le(s.now, log[0].begin)
    requires Describes(log[0], u, u')
      ==> OffsetOf(if log[0].kind == Insert then u' else u, log[0].begin) <= rest + shift
          && (log[0].kind == Erase ==> OffsetOf(u, log[0].end) <= rest + shift)
    ensures Follows(s, log) && TracksFrom(AfterAll(s, log), t, rest, u', shift')
    ensures AfterAll(s, log).now == if log[0].kind == Insert then log[0].end else log[0].begin
  {
    assert DescribesStep(log, trace, 0) && log == [log[0]];
    TrackOne(s, log[0], t, rest, u, shift, u', shift');
  }

  lemma TrackTwoLogged(s: Shift, t: string, rest: int, u: string, shift: int, u': string, shift': int,
                       log: seq<Change>, trace: seq<string>)
    requires shift' == shift + |u'| - |u| && TracksFrom(s, t, rest, u, shift)
    requires |log| == 2 && LogMatches(log, trace) && trace[0] == u && trace[2] == u' && Le(s.now, log[0].begin)
    requires log[0].kind == Erase && log[1].kind == Insert && log[1].begin == log[0].begin
    requires Reaches(u, log[0].begin) && Reaches(u, log[0].end) && Reaches(u', log[0].begin)
    requires OffsetOf(u, log[0].end) <= rest + shift && OffsetOf(u', log[0].begin) == OffsetOf(u, log[0].begin)
    ensures Follows(s, log) && TracksFrom(AfterAll(s, log), t, rest, u', shift')
    ensures AfterAll(s, log).now == log[1].end
  {
    assert DescribesStep(log, trace, 0) && DescribesStep(log, trace, 1) && log == [log[0], log[1]];
    TrackTwo(s, log[0], log[1], t, rest, u, shift, trace[1], u', shift');
  }

  // ----- the loop over the ranges

  ghost function CutsOf(lines: seq<string>, ranges: seq<BufferRange>, strings: seq<string>): (cuts: seq<Cut>)
    requires WellFormed(lines) && Replaceable(lines, ranges)
    ensures |cuts| == |ranges| && Cuts(Flat(lines), cuts)
    ensures forall i :: 0 <= i < |cuts| ==>
      cuts[i] == Cut(Offset(lines, ranges[i].begin), Offset(lines, ranges[i].end), StringFor(strings, i))
  {
    CutsAreOrdered(lines, ranges);
    seq(|ranges|, i requires 0 <= i < |ranges| =>
      Cut(Offset(lines, ranges[i].begin), Offset(lines, ranges[i].end), StringFor(strings, i)))
  }

  lemma CutsAreOrdered(lines: seq<string>, ranges: seq<BufferRange>)
    requires WellFormed(lines) && Replaceable(lines, ranges)
    ensures forall i :: 0 <= i < |ranges| ==>
      Offset(lines, ranges[i].begin) <= Offset(lines, ranges[i].end) < |Flat(lines)|
    ensures forall i, j :: 0 <= i < j < |ranges| ==> Offset(lines, ranges[i].end) <= Offset(lines, ranges[j].begin)
  {
    forall i | 0 <= i < |ranges|
      ensures Offset(lines, ranges[i].begin) <= Offset(lines, ranges[i].end) < |Flat(lines)|
    {
      OffsetOrder(lines, ranges[i].begin, ranges[i].end);
      OffsetIsPos(lines, ranges[i].end);
    }
    forall i, j | 0 <= i < j < |ranges| ensures Offset(lines, ranges[i].end) <= Offset(lines, ranges[j].begin) {
      OffsetOrder(lines, ranges[i].end, ranges[j].begin);
    }
  }

  /** The range spans, in `u`, exactly the text of its cut. */
  ghost predicate SpansCut(t: string, cuts: seq<Cut>, i: int, u: string, range: BufferRange)
    requires Cuts(t, cuts) && 0 <= i < |cuts|
  {
    var b, e := StartOf(t, cuts, i), |Head(t, cuts, i + 1)|;
    && b <= e <= |u| && u[b..e] == cuts[i].text
    && range == BufferRange(PosOf(u[..b]), PosOf(u[..e]))
  }

  /** A range already replaced is not disturbed by later replacements. */
  lemma SpanKept(t: string, cuts: seq<Cut>, j: int, i: int, u: string, u': string, range: BufferRange)
    requires Cuts(t, cuts) && 0 <= j < i <= |cuts| && SpansCut(t, cuts, j, u, range)
    requires |Head(t, cuts, i)| <= |u| && |Head(t, cuts, i)| <= |u'|
    requires u[..|Head(t, cuts, i)|] == u'[..|Head(t, cuts, i)|]
    ensures SpansCut(t, cuts, j, u', range)
  {
    HeadGrows(t, cuts, j + 1, i);
    var n, b, e := |Head(t, cuts, i)|, StartOf(t, cuts, j), |Head(t, cuts, j + 1)|;
    assert u[..e] == u[..n][..e] && u'[..e] == u'[..n][..e];
    assert u[..b] == u[..n][..b] && u'[..b] == u'[..n][..b];
    assert u[b..e] == u[..e][b..] && u'[b..e] == u'[..e][b..];
  }

  /** Making cut `i` in the text in which the first `i` cuts are made. */
  lemma NextCut(t: string, cuts: seq<Cut>, i: nat, u: string)
    requires Cuts(t, cuts) && i < |cuts| && u == CutText(t, cuts, i)
    ensures var x, y := StartOf(t, cuts, i), EndOf(t, cuts, i);
      && |Head(t, cuts, i)| <= x <= y <= |u|
      && u[..x] + cuts[i].text == Head(t, cuts, i + 1)
      && u[..x] + cuts[i].text + u[y..] == CutText(t, cuts, i + 1)
    ensures u[..|Head(t, cuts, i)|] == Head(t, cuts, i)
    ensures |u| == |t| + MovedBy(t, cuts, i)
  {
    RestBeforeNext(t, cuts, i);
    var x, y, head, rest := StartOf(t, cuts, i), EndOf(t, cuts, i), Head(t, cuts, i), Rest(cuts, i);
    assert u[..x] == head + t[rest..cuts[i].from];
    assert u[y..] == t[cuts[i].to..];
  }

  /** State after the first `i` cuts: the text, and a tracker good for everything after them. */
  ghost predicate InProgress(t: string, cuts: seq<Cut>, i: nat, u: string, s: Shift)
    requires Cuts(t, cuts) && i <= |cuts|
  {
    && u == CutText(t, cuts, i)
    && TracksFrom(s, t, Rest(cuts, i), u, MovedBy(t, cuts, i))
    && |Head(t, cuts, i)| <= |u| && Le(s.now, PosOf(u[..|Head(t, cuts, i)|]))
  }

  /** Where the tracker finds a place of the original text. */
  lemma LocatePlace(t: string, q: int, rest: int, lines: seq<string>, s: Shift, shift: int, x: int)
    requires x == q + shift && WellFormed(lines) && TracksFrom(s, t, rest, Flat(lines), shift) && rest <= q < |t|
    ensures var c := s.Tolerant(PosOf(t[..q]));
      && 0 <= x < |Flat(lines)| && c == PosOf(Flat(lines)[..x])
      && IsValid(lines, c) && c != EndCoord(lines) && Offset(lines, c) == x
      && Reaches(Flat(lines), c) && OffsetOf(Flat(lines), c) == x
  {
    var c := s.Tolerant(PosOf(t[..q]));
    assert TracksTo(s, t, q, Flat(lines), shift);
    PosIsValid(lines, x);
    OffsetIsPos(lines, c);
  }

  /** Where the tracker finds the range of cut `i`. */
  lemma LocateRange(t: string, cuts: seq<Cut>, i: nat, lines: seq<string>, s: Shift)
    requires Cuts(t, cuts) && i < |cuts| && cuts[i].to < |t| && WellFormed(lines)
    requires InProgress(t, cuts, i, Flat(lines), s)
    ensures var begin, end := s.Tolerant(PosOf(t[..cuts[i].from])), s.Tolerant(PosOf(t[..cuts[i].to]));
      Located(t, cuts, i, lines, begin, end) && Le(begin, end) && begin != EndCoord(lines) && Le(s.now, begin)
  {
    var u, x, y := Flat(lines), StartOf(t, cuts, i), EndOf(t, cuts, i);
    RestBeforeNext(t, cuts, i);
    LocatePlace(t, cuts[i].from, Rest(cuts, i), lines, s, MovedBy(t, cuts, i), x);
    LocatePlace(t, cuts[i].to, Rest(cuts, i), lines, s, MovedBy(t, cuts, i), y);
    PrefixOrder(u, x, y);
    PrefixOrder(u, |Head(t, cuts, i)|, x);
  }

  /** `begin` and `end` are where the range of cut `i` has moved to. */
  ghost predicate Located(t: string, cuts: seq<Cut>, i: nat, lines: seq<string>, begin: Coord, end: Coord)
    requires Cuts(t, cuts) && i < |cuts| && WellFormed(lines)
  {
    && IsValid(lines, begin) && IsValid(lines, end) && end != EndCoord(lines)
    && Offset(lines, begin) == StartOf(t, cuts, i) && Offset(lines, end) == EndOf(t, cuts, i)
    && Reaches(Flat(lines), begin) && OffsetOf(Flat(lines), begin) == StartOf(t, cuts, i)
    && Reaches(Flat(lines), end) && OffsetOf(Flat(lines), end) == EndOf(t, cuts, i)
  }

  lemma SpliceSpans(u: string, x: nat, text: string, y: nat, u': string, n: nat, e: nat)
    requires n <= x <= y <= |u| && u' == u[..x] + text + u[y..] && e == x + |text|
    ensures u'[x..e] == text && u'[..x] == u[..x] && u'[..e] == u[..x] + text
    ensures u'[..n] == u[..n]
  {
  }

  /** One more cut made in the text. */
  lemma CutInText(t: string, cuts: seq<Cut>, i: nat, before: seq<string>, after: seq<string>, begin: Coord,
                  end: Coord, e: Coord)
    requires Cuts(t, cuts) && i < |cuts| && WellFormed(before) && WellFormed(after) && IsValid(after, e)
    requires Flat(before) == CutText(t, cuts, i) && Located(t, cuts, i, before, begin, end)
    requires Replaced(before, after, begin, end, cuts[i].text, e)
    ensures Flat(after) == CutText(t, cuts, i + 1) && SpansCut(t, cuts, i, Flat(after), BufferRange(begin, e))
    ensures |Head(t, cuts, i)| <= |Flat(before)| && |Head(t, cuts, i)| <= |Flat(after)|
    ensures Flat(before)[..|Head(t, cuts, i)|] == Flat(after)[..|Head(t, cuts, i)|]
  {
    hide Flat, Offset, CutText;
    NextCut(t, cuts, i, Flat(before));
    OffsetIsPos(before, begin);
    OffsetIsPos(before, end);
    OffsetIsPos(after, e);
    SpliceSpans(Flat(before), StartOf(t, cuts, i), cuts[i].text, EndOf(t, cuts, i), Flat(after), |Head(t, cuts, i)|,
      |Head(t, cuts, i + 1)|);
  }

  /** One more cut taken in by the tracker. */
  lemma CutInTracker(t: string, cuts: seq<Cut>, i: nat, before: seq<string>, s: Shift, u': string, begin: Coord,
                     end: Coord, e: Coord,
                     log: seq<Change>, trace: seq<string>)
    requires Cuts(t, cuts) && i < |cuts| && WellFormed(before)
    requires InProgress(t, cuts, i, Flat(before), s) && Located(t, cuts, i, before, begin, end)
    requires Le(begin, end) && Le(s.now, begin)
    requires u' == CutText(t, cuts, i + 1) && SpansCut(t, cuts, i, u', BufferRange(begin, e))
    requires log == ReplaceChanges(begin, end, cuts[i].text, e, Between(before, begin, end))
    requires LogMatches(log, trace) && trace[0] == Flat(before) && trace[|log|] == u'
    ensures Follows(s, log) && InProgress(t, cuts, i + 1, u', AfterAll(s, log))
  {
    var u, head := Flat(before), Head(t, cuts, i + 1);
    NextCut(t, cuts, i, u);
    RestBeforeNext(t, cuts, i);
    LaterPlaces(s, t, Rest(cuts, i), cuts[i].to, u, MovedBy(t, cuts, i));
    TrackReplacement(s, t, cuts[i].to, u, MovedBy(t, cuts, i), u', MovedBy(t, cuts, i + 1), begin, end, cuts[i].text,
      e, log, trace);
    SpanOrder(t, cuts, i, u', BufferRange(begin, e));
    NowAtHead(s, log, begin, e);
    assert e == PosOf(u'[..|head|]);
  }

  lemma SpanOrder(t: string, cuts: seq<Cut>, i: nat, u: string, range: BufferRange)
    requires Cuts(t, cuts) && i < |cuts| && SpansCut(t, cuts, i, u, range)
    ensures Le(range.begin, range.end)
  {
    PrefixOrder(u, StartOf(t, cuts, i), |Head(t, cuts, i + 1)|);
  }

  lemma LaterPlaces(s: Shift, t: string, rest: int, rest': int, u: string, shift: int)
    requires TracksFrom(s, t, rest, u, shift) && rest <= rest' <= |t|
    ensures TracksFrom(s, t, rest', u, shift)
  {
  }

  /** The tracker has not moved past the end of the replacement. */
  lemma NowAtHead(s: Shift, log: seq<Change>, begin: Coord, e: Coord)
    requires Le(s.now, begin) && Le(begin, e)
    requires log == [] ==> AfterAll(s, log) == s
    requires log != [] ==> AfterAll(s, log).now == begin || AfterAll(s, log).now == e
    ensures Le(AfterAll(s, log).now, e)
  {
  }

  /** One more cut made in the text and taken in by the tracker from the log. */
  lemma CutMade(t: string, cuts: seq<Cut>, i: nat, before: seq<string>, after: seq<string>, s: Shift, begin: Coord,
                end: Coord, e: Coord,
                timestamp: nat, changes: seq<Change>, trace: seq<string>)
    requires Cuts(t, cuts) && i < |cuts| && WellFormed(before) && WellFormed(after) && IsValid(after, e)
    requires InProgress(t, cuts, i, Flat(before), s) && Located(t, cuts, i, before, begin, end)
    requires Le(begin, end) && Le(s.now, begin) && Replaced(before, after, begin, end, cuts[i].text, e)
    requires LogMatches(changes, trace) && timestamp <= |changes| && trace[timestamp] == Flat(before)
    requires trace[|changes|] == Flat(after)
    requires changes[timestamp..] == ReplaceChanges(begin, end, cuts[i].text, e, Between(before, begin, end))
    ensures Follows(s, changes[timestamp..])
    ensures InProgress(t, cuts, i + 1, Flat(after), AfterAll(s, changes[timestamp..]))
    ensures SpansCut(t, cuts, i, Flat(after), BufferRange(begin, e))
    ensures |Head(t, cuts, i)| <= |Flat(before)| && |Head(t, cuts, i)| <= |Flat(after)|
    ensures Flat(before)[..|Head(t, cuts, i)|] == Flat(after)[..|Head(t, cuts, i)|]
  {
    LogMatchesFrom(changes, trace, timestamp);
    CutInText(t, cuts, i, before, after, begin, end, e);
    CutInTracker(t, cuts, i, before, s, Flat(after), begin, end, e, changes[timestamp..], trace[timestamp..]);
  }

  method ReplaceOne(buffer: Buffer, tracker: ForwardChangesTracker, range: BufferRange, content: string, timestamp: nat,
                    ghost t: string, ghost cuts: seq<Cut>, ghost i: nat)
      returns (r: BufferRange, now: nat)
    requires buffer.Valid() && timestamp == |buffer.changes|
    requires Cuts(t, cuts) && i < |cuts| && cuts[i].to < |t| && content == cuts[i].text
    requires range == BufferRange(PosOf(t[..cuts[i].from]), PosOf(t[..cuts[i].to]))
    requires InProgress(t, cuts, i, buffer.Text(), tracker.State())
    modifies buffer`lines, buffer`changes, buffer`trace, buffer`currentUndoGroup, tracker
    ensures buffer.Valid() && buffer.EditKeeps() && now == |buffer.changes|
    ensures InProgress(t, cuts, i + 1, buffer.Text(), tracker.State())
    ensures SpansCut(t, cuts, i, buffer.Text(), r)
    ensures |Head(t, cuts, i)| <= |old(buffer.Text())| && |Head(t, cuts, i)| <= |buffer.Text()|
    ensures old(buffer.Text())[..|Head(t, cuts, i)|] == buffer.Text()[..|Head(t, cuts, i)|]
  {
    ghost var before, s := buffer.lines, tracker.State();
    LocateRange(t, cuts, i, buffer.lines, s);
    var begin := tracker.GetNewCoordTolerant(range.begin);
    var end := tracker.GetNewCoordTolerant(range.end);
    var b, e := buffer.Replace(begin, end, content);
    r := BufferRange(b, e);
    CutMade(t, cuts, i, before, buffer.lines, s, begin, end, e, timestamp, buffer.changes, buffer.trace);
    now := tracker.UpdateSince(buffer.changes, timestamp);
  }

  /** State of the loop over the ranges before range `i`. */
  ghost predicate Replacing(lines: seq<string>, original: seq<BufferRange>, strings: seq<string>, i: nat,
                            u: string, s: Shift, ranges: seq<BufferRange>) {
    && WellFormed(lines) && Replaceable(lines, original) && i <= |original|
    && InProgress(Flat(lines), CutsOf(lines, original, strings), i, u, s)
    && RangesUpTo(Flat(lines), CutsOf(lines, original, strings), i, u, original, ranges)
  }

  /** One turn of the loop. */
  method ReplaceIndex(buffer: Buffer, tracker: ForwardChangesTracker, ranges: array<BufferRange>, strings: seq<string>,
                      index: nat, timestamp: nat, ghost lines: seq<string>, ghost original: seq<BufferRange>)
      returns (now: nat)
    requires buffer.Valid() && timestamp == |buffer.changes| && index < ranges.Length
    requires Replacing(lines, original, strings, index, buffer.Text(), tracker.State(), ranges[..])
    modifies buffer`lines, buffer`changes, buffer`trace, buffer`currentUndoGroup, tracker, ranges
    ensures buffer.Valid() && buffer.EditKeeps() && now == |buffer.changes|
    ensures Replacing(lines, original, strings, index + 1, buffer.Text(), tracker.State(), ranges[..])
  {
    ghost var t, cuts := Flat(lines), CutsOf(lines, original, strings);
    RangeAtCut(lines, original, strings, index);
    ghost var u, before := buffer.Text(), ranges[..];
    assert ranges[index] == before[index];
    var range;
    range, now := ReplaceOne(buffer, tracker, ranges[index], StringFor(strings, index), timestamp, t, cuts, index);
    NextRange(t, cuts, index, u, buffer.Text(), original, before, range);
    ranges[index] := range;
    assert ranges[..] == before[index := range];
  }

  /** The loop over the ranges. */
  method ReplaceAll(buffer: Buffer, tracker: ForwardChangesTracker, ranges: array<BufferRange>, strings: seq<string>,
                    ghost lines: seq<string>, ghost original: seq<BufferRange>)
    requires buffer.Valid() && |original| == ranges.Length
    requires Replacing(lines, original, strings, 0, buffer.Text(), tracker.State(), ranges[..])
    modifies buffer`lines, buffer`changes, buffer`trace, buffer`currentUndoGroup, tracker, ranges
    ensures buffer.Valid() && buffer.EditKeeps()
    ensures Replacing(lines, original, strings, ranges.Length, buffer.Text(), tracker.State(), ranges[..])
  {
    var timestamp := |buffer.changes|;
    for index := 0 to ranges.Length
      invariant buffer.Valid() && buffer.EditKeeps() && timestamp == |buffer.changes|
      invariant Replacing(lines, original, strings, index, buffer.Text(), tracker.State(), ranges[..])
    {
      timestamp := ReplaceIndex(buffer, tracker, ranges, strings, index, timestamp, lines, original);
    }
  }

  /** All ranges replaced at once in the original text, and every range where its string now is. */
  ghost predicate AllReplaced(lines: seq<string>, original: seq<BufferRange>, strings: seq<string>, u: string,
                              ranges: seq<BufferRange>)
    requires WellFormed(lines) && Replaceable(lines, original)
  {
    var t, cuts := Flat(lines), CutsOf(lines, original, strings);
    u == CutText(t, cuts, |cuts|) && RangesUpTo(t, cuts, |cuts|, u, original, ranges)
  }

  /** The range spans the text. */
  ghost predicate Spans(u: string, range: BufferRange, text: string) {
    && Reaches(u, range.begin) && Reaches(u, range.end)
    && OffsetOf(u, range.begin) <= OffsetOf(u, range.end) <= |u|
    && u[OffsetOf(u, range.begin)..OffsetOf(u, range.end)] == text
  }

  /** Each range spans the string given for it; the last string serves all ranges beyond, and without any string the
      ranges are empty. */
  ghost predicate StringsInPlace(strings: seq<string>, u: string, ranges: seq<BufferRange>) {
    && (forall i :: 0 <= i < |ranges| && i < |strings| ==> Spans(u, ranges[i], strings[i]))
    && (forall i :: |strings| <= i < |ranges| && strings != [] ==> Spans(u, ranges[i], strings[|strings| - 1]))
    && (forall i :: 0 <= i < |ranges| && strings == [] ==> Spans(u, ranges[i], ""))
  }

  lemma CutIsSpanned(t: string, cuts: seq<Cut>, i: int, u: string, range: BufferRange)
    requires Cuts(t, cuts) && 0 <= i < |cuts| && SpansCut(t, cuts, i, u, range)
    ensures Spans(u, range, cuts[i].text)
  {
    OffsetUnique(u, StartOf(t, cuts, i));
    OffsetUnique(u, |Head(t, cuts, i + 1)|);
  }

  lemma AllInPlace(lines: seq<string>, original: seq<BufferRange>, strings: seq<string>, u: string,
                   ranges: seq<BufferRange>)
    requires WellFormed(lines) && Replaceable(lines, original) && AllReplaced(lines, original, strings, u, ranges)
    ensures |ranges| == |original| && StringsInPlace(strings, u, ranges)
  {
    hide Spans, CutText, SpansCut;
    var t, cuts := Flat(lines), CutsOf(lines, original, strings);
    forall i | 0 <= i < |ranges| ensures Spans(u, ranges[i], StringFor(strings, i)) {
      assert SpansCut(t, cuts, i, u, ranges[i]);
      CutIsSpanned(t, cuts, i, u, ranges[i]);
    }
  }

  /** `replace` on several ranges. */
  method ReplaceRanges(buffer: Buffer, ranges: array<BufferRange>, strings: seq<string>)
    requires buffer.Valid() && Replaceable(buffer.lines, ranges[..])
    modifies buffer`lines, buffer`changes, buffer`trace, buffer`currentUndoGroup, ranges
    ensures buffer.Valid() && buffer.EditKeeps()
    ensures AllReplaced(old(buffer.lines), old(ranges[..]), strings, buffer.Text(), ranges[..])
    ensures StringsInPlace(strings, buffer.Text(), ranges[..])
  {
    ghost var lines, original := buffer.lines, ranges[..];
    var tracker := new ForwardChangesTracker();
    StartReplacing(lines, original, strings);
    ReplaceAll(buffer, tracker, ranges, strings, lines, original);
    EndReplacing(lines, original, strings, buffer.Text(), tracker.State(), ranges[..]);
    AllInPlace(lines, original, strings, buffer.Text(), ranges[..]);
  }

  lemma StartReplacing(lines: seq<string>, original: seq<BufferRange>, strings: seq<string>)
    requires WellFormed(lines) && Replaceable(lines, original)
    ensures Replacing(lines, original, strings, 0, Flat(lines), START, original)
  {
    StartInProgress(Flat(lines), CutsOf(lines, original, strings));
  }

  lemma EndReplacing(lines: seq<string>, original: seq<BufferRange>, strings: seq<string>, u: string, s: Shift,
                     ranges: seq<BufferRange>)
    requires Replacing(lines, original, strings, |original|, u, s, ranges)
    ensures AllReplaced(lines, original, strings, u, ranges)
  {
  }

  /** The first `n` ranges span their cuts, the others are as given. */
  ghost predicate RangesUpTo(t: string, cuts: seq<Cut>, n: int, u: string, original: seq<BufferRange>,
                             ranges: seq<BufferRange>)
    requires Cuts(t, cuts)
  {
    && |ranges| == |original| == |cuts| && 0 <= n <= |cuts|
    && (forall j :: n <= j < |cuts| ==> ranges[j] == original[j])
    && (forall j :: 0 <= j < n ==> SpansCut(t, cuts, j, u, ranges[j]))
  }

  lemma NextRange(t: string, cuts: seq<Cut>, i: int, u: string, u': string, original: seq<BufferRange>,
                  ranges: seq<BufferRange>, range: BufferRange)
    requires Cuts(t, cuts) && RangesUpTo(t, cuts, i, u, original, ranges) && i < |cuts|
    requires SpansCut(t, cuts, i, u', range)
    requires |Head(t, cuts, i)| <= |u| && |Head(t, cuts, i)| <= |u'|
    requires u[..|Head(t, cuts, i)|] == u'[..|Head(t, cuts, i)|]
    ensures RangesUpTo(t, cuts, i + 1, u', original, ranges[i := range])
  {
    forall j | 0 <= j < i ensures SpansCut(t, cuts, j, u', ranges[j]) {
      SpanKept(t, cuts, j, i, u, u', ranges[j]);
    }
  }

  lemma StartInProgress(t: string, cuts: seq<Cut>)
    requires Cuts(t, cuts)
    ensures InProgress(t, cuts, 0, t, START)
  {
    forall q | 0 <= q <= |t| ensures TracksTo(START, t, q, t, 0) {
    }
  }

  lemma RangeAtCut(lines: seq<string>, ranges: seq<BufferRange>, strings: seq<string>, i: nat)
    requires WellFormed(lines) && Replaceable(lines, ranges) && i < |ranges|
    ensures var t, cut := Flat(lines), CutsOf(lines, ranges, strings)[i];
      && cut.from <= cut.to < |t| && cut.text == StringFor(strings, i)
      && ranges[i] == BufferRange(PosOf(t[..cut.from]), PosOf(t[..cut.to]))
  {
    CutsAreOrdered(lines, ranges);
    OffsetIsPos(lines, ranges[i].begin);
    OffsetIsPos(lines, ranges[i].end);
  }
}
