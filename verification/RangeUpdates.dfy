/** Carrying a sorted list of ranges across the change log. */
module RangeUpdates {
  import opened Coords
  import opened Edits
  import opened ChangeMaps
  import opened Tracker
  import opened Runs
  import Sequences

  datatype Range = Range(first: Coord, last: Coord)

  /** A last endpoint in front of the buffer marks an empty range at the first endpoint. */
  predicate IsEmptyRange(r: Range) {
    Lt(r.last, ORIGIN)
  }

  function Stop(r: Range): Coord {
    if IsEmptyRange(r) then r.first else r.last
  }

  ghost predicate Placed(r: Range) {
    NonNegative(r.first) && (IsEmptyRange(r) || NonNegative(r.last))
  }

  ghost predicate AllPlaced(ranges: seq<Range>) {
    forall i :: 0 <= i < |ranges| ==> Placed(ranges[i])
  }

  /** Of these ranges, none ends before it begins, and none begins before an earlier one ends. */
  ghost predicate OrderedBetween(ranges: seq<Range>, m: int, n: int) {
    && (forall i :: 0 <= m <= i < n <= |ranges| ==> Placed(ranges[i]) && Le(ranges[i].first, Stop(ranges[i])))
    && (forall i, j :: 0 <= m <= i < j < n <= |ranges| ==> Le(Stop(ranges[i]), ranges[j].first))
  }

  ghost predicate Ordered(ranges: seq<Range>) {
    OrderedBetween(ranges, 0, |ranges|)
  }

  /** `p` ends up at `r`: where mapping it through each change puts it, or, if a backward run swallowed it,
      behind the insertion logged just before it was erased. */
  ghost predicate Moved(dir: Direction, run: seq<Change>, p: Coord, r: Coord) {
    && NonNegative(r) && r == Landing(dir, run, p)
    && (dir == Backward && Swallowed(run, p) ==> Lt(Fold(run, p), r))
  }

  ghost predicate RangeMoved(dir: Direction, run: seq<Change>, before: Range, after: Range) {
    && Moved(dir, run, before.first, after.first)
    && if IsEmptyRange(before) then after.last == before.last else Moved(dir, run, before.last, after.last)
  }

  /** The ranges from `m` up to `n` have been moved. */
  ghost predicate MovedBetween(dir: Direction, run: seq<Change>, before: seq<Range>, after: seq<Range>,
                               m: int, n: int) {
    && |after| == |before|
    && forall i :: 0 <= m <= i < n <= |after| ==> RangeMoved(dir, run, before[i], after[i])
  }

  /** The ranges outside are as before, and inside the empty ones are still empty ones. */
  ghost predicate SameOutside(before: seq<Range>, after: seq<Range>, m: int, n: int) {
    && |after| == |before| && AllPlaced(after)
    && (forall i :: 0 <= i < |after| && !(m <= i < n) ==> after[i] == before[i])
    && (forall i :: 0 <= i < |after| ==> (IsEmptyRange(after[i]) <==> IsEmptyRange(before[i])))
  }

  /** What has been written so far stays at or before everything still to come. */
  ghost predicate AboveFloor(dir: Direction, run: seq<Change>, n: nat, s: Shift, floor: Coord)
    requires n <= |run|
  {
    n < |run| ==> Le(floor, Pending(dir, run, n, s).begin)
  }

  /** The tracker has taken in what concerns the positions in front of `p`, if they came in order. */
  ghost predicate OnTrack(dir: Direction, run: seq<Change>, n: nat, s: Shift, p: Coord, floor: Coord, ordered: bool) {
    && Ahead(dir, run, n, s) && NonNegative(p)
    && (ordered ==> Tracking(dir, run, n, s, p) && AboveFloor(dir, run, n, s, floor) && Le(floor, s.Tolerant(p)))
  }

  /** `advance_while_relevant`, for both directions. */
  method AdvanceWhileRelevant(tracker: ForwardChangesTracker, dir: Direction, run: seq<Change>, it: nat, pos: Coord,
                              ghost floor: Coord, ghost ordered: bool)
      returns (n: nat)
    requires OnTrack(dir, run, it, tracker.State(), pos, floor, ordered)
    modifies tracker
    ensures OnTrack(dir, run, n, tracker.State(), pos, floor, ordered)
    ensures n == |run| || !tracker.State().Relevant(Pending(dir, run, n, tracker.State()), pos)
  {
    hide StandsFor, Sorted;
    n := it;
    while n < |run|
      invariant OnTrack(dir, run, n, tracker.State(), pos, floor, ordered)
    {
      PendingIsLater(dir, run, n, tracker.State());
      var change := run[At(dir, run, n)];
      if dir == Backward {
        EndpointsTracked(run, n, tracker.State());
        change := Change(change.kind, tracker.GetNewCoord(change.begin), tracker.GetNewCoord(change.end));
      }
      if !tracker.Relevant(change, pos) {
        return;
      }
      StepAhead(dir, run, n, tracker.State());
      if ordered {
        Step(dir, run, n, tracker.State(), pos, floor);
      }
      tracker.Update(change);
      n := n + 1;
    }
  }

  lemma EndpointsTracked(run: seq<Change>, n: nat, s: Shift)
    requires Ahead(Backward, run, n, s) && n < |run|
    ensures var c := run[|run| - 1 - n];
      && NonNegative(c.begin) && NonNegative(c.end) && Le(s.was, c.begin) && Le(s.was, c.end)
  {
    assert WellFormedChange(run[|run| - 1 - n]);
  }

  lemma Step(dir: Direction, run: seq<Change>, n: nat, s: Shift, p: Coord, floor: Coord)
    requires Tracking(dir, run, n, s, p) && n < |run| && s.Relevant(Pending(dir, run, n, s), p)
    requires AboveFloor(dir, run, n, s, floor)
    ensures var s' := s.After(Pending(dir, run, n, s));
      && Tracking(dir, run, n + 1, s', p)
      && AboveFloor(dir, run, n + 1, s', floor) && Le(floor, s'.Tolerant(p))
  {
    var c := Pending(dir, run, n, s);
    var s' := s.After(c);
    PendingIsLater(dir, run, n, s);
    if dir == Forward {
      StepForward(run, n, s, p);
    } else {
      StepBackward(run, n, s, p);
    }
    assert Le(floor, s'.now);
    NewIsMonotone(s', p, p);
    if n + 1 < |run| {
      PendingIsLater(dir, run, n + 1, s');
    }
  }

  /** One endpoint of a range. */
  method UpdateEndpoint(tracker: ForwardChangesTracker, dir: Direction, run: seq<Change>, it: nat, pos: Coord,
                        ghost floor: Coord, ghost ordered: bool)
      returns (n: nat, r: Coord)
    requires OnTrack(dir, run, it, tracker.State(), pos, floor, ordered)
    modifies tracker
    ensures NonNegative(r) && r == tracker.State().Tolerant(pos)
    ensures OnTrack(dir, run, n, tracker.State(), pos, r, ordered)
    ensures ordered ==> Moved(dir, run, pos, r) && Le(floor, r)
  {
    hide StandsFor, Sorted, Landing, Swallowed;
    n := AdvanceWhileRelevant(tracker, dir, run, it, pos, floor, ordered);
    r := tracker.GetNewCoordTolerant(pos);
    if ordered {
      TrackingEnds(dir, run, n, tracker.State(), pos);
      StaysAbove(dir, run, n, tracker.State(), pos);
    }
  }

  /** A change that is not relevant to a position is not in front of it. */
  lemma StaysAbove(dir: Direction, run: seq<Change>, n: nat, s: Shift, p: Coord)
    requires Ahead(dir, run, n, s) && NonNegative(p)
    requires n == |run| || !s.Relevant(Pending(dir, run, n, s), p)
    ensures AboveFloor(dir, run, n, s, s.Tolerant(p))
  {
  }

  lemma NextEndpoint(dir: Direction, run: seq<Change>, n: nat, s: Shift, p: Coord, q: Coord)
    requires Tracking(dir, run, n, s, p) && Le(p, q) && NonNegative(q)
    ensures Tracking(dir, run, n, s, q) && Le(s.Tolerant(p), s.Tolerant(q))
  {
    TrackingMovesOn(dir, run, n, s, p, q);
    NewIsMonotone(s, p, q);
  }

  /** One range; an empty one keeps its last endpoint. */
  method UpdateRange(tracker: ForwardChangesTracker, dir: Direction, run: seq<Change>, it: nat, range: Range,
                     ghost floor: Coord, ghost ordered: bool)
      returns (n: nat, res: Range)
    requires Placed(range) && OnTrack(dir, run, it, tracker.State(), range.first, floor, ordered)
    requires ordered ==> Le(range.first, Stop(range))
    modifies tracker
    ensures Placed(res) && (if IsEmptyRange(range) then res.last == range.last else !IsEmptyRange(res))
    ensures OnTrack(dir, run, n, tracker.State(), Stop(range), Stop(res), ordered)
    ensures ordered ==>
      && RangeMoved(dir, run, range, res) && Le(floor, res.first) && Le(res.first, Stop(res))
      && Stop(res) == tracker.State().Tolerant(Stop(range))
  {
    hide Tracking, Ahead, AboveFloor, Moved;
    var first, last;
    n, first := UpdateEndpoint(tracker, dir, run, it, range.first, floor, ordered);
    if Lt(range.last, ORIGIN) {
      return n, Range(first, range.last);
    }
    if ordered {
      NextEndpoint(dir, run, n, tracker.State(), range.first, range.last);
    }
    n, last := UpdateEndpoint(tracker, dir, run, n, range.last, first, ordered);
    res := Range(first, last);
  }

  /** What holds between two ranges of the loop over a container, as long as its ranges are in order. */
  ghost predicate InContainer(dir: Direction, run: seq<Change>, before: seq<Range>, after: seq<Range>, start: int,
                              i: int, n: nat, s: Shift, floor: Coord) {
    && 0 <= start <= i <= |before| && n <= |run|
    && Ordered(before) && MovedBetween(dir, run, before, after, start, i) && OrderedBetween(after, start, i)
    && (forall j :: start <= j < i ==> Le(Stop(after[j]), floor))
    && AboveFloor(dir, run, n, s, floor)
    && (i < |before| ==> Tracking(dir, run, n, s, before[i].first) && Le(floor, s.Tolerant(before[i].first)))
  }

  lemma ContainerStarts(dir: Direction, run: seq<Change>, ranges: seq<Range>, start: int)
    requires Sorted(dir, run) && run != [] && AllPlaced(ranges) && 0 <= start <= |ranges|
    ensures Ahead(dir, run, 0, START)
    ensures Ordered(ranges) ==> InContainer(dir, run, ranges, ranges, start, start, 0, START, ORIGIN)
  {
    assert WellFormedChange(run[0]) && WellFormedChange(run[|run| - 1]);
    TrackingStarts(dir, run, ORIGIN);
    NewIsMonotone(START, run[|run| - 1].begin, run[|run| - 1].end);
    if start < |ranges| {
      assert Placed(ranges[start]);
      TrackingStarts(dir, run, ranges[start].first);
    }
  }

  lemma ContainerStep(dir: Direction, run: seq<Change>, before: seq<Range>, after: seq<Range>, start: int, i: int,
                      floor: Coord, n: nat, s: Shift, r: Range)
    requires n <= |run| && 0 <= start <= i < |before| && Ordered(before)
    requires MovedBetween(dir, run, before, after, start, i) && OrderedBetween(after, start, i)
    requires forall j :: start <= j < i ==> Le(Stop(after[j]), floor)
    requires Tracking(dir, run, n, s, Stop(before[i])) && AboveFloor(dir, run, n, s, Stop(r))
    requires Stop(r) == s.Tolerant(Stop(before[i])) && Placed(r)
    requires RangeMoved(dir, run, before[i], r) && Le(floor, r.first) && Le(r.first, Stop(r))
    ensures InContainer(dir, run, before, after[i := r], start, i + 1, n, s, Stop(r))
  {
    hide Moved, StandsFor;
    if i + 1 < |before| {
      assert Placed(before[i]) && Placed(before[i + 1]);
      NextEndpoint(dir, run, n, s, Stop(before[i]), before[i + 1].first);
    }
  }

  lemma ContainerNext(dir: Direction, run: seq<Change>, before: seq<Range>, after: seq<Range>, start: int, i: int,
                      n: nat, s: Shift, floor: Coord)
    requires InContainer(dir, run, before, after, start, i, n, s, floor)
    requires SameOutside(before, after, start, i) && i < |before|
    ensures MovedBetween(dir, run, before, after, start, i) && OrderedBetween(after, start, i) && Ordered(before)
    ensures forall j :: start <= j < i ==> Le(Stop(after[j]), floor)
    ensures OnTrack(dir, run, n, s, before[i].first, floor, true)
    ensures after[i] == before[i] && Le(before[i].first, Stop(before[i]))
  {
    hide Moved, StandsFor;
  }

  lemma OneMoreOutside(before: seq<Range>, after: seq<Range>, start: int, i: int, r: Range)
    requires SameOutside(before, after, start, i) && 0 <= start <= i < |before| && Placed(r)
    requires IsEmptyRange(r) <==> IsEmptyRange(before[i])
    ensures SameOutside(before, after[i := r], start, i + 1)
  {
  }

  /** The loop of `update_forward` and `update_backward`, from range `start` on. */
  method UpdateFrom(dir: Direction, run: seq<Change>, ranges: array<Range>, start: nat)
    requires start <= ranges.Length && Sorted(dir, run) && run != [] && AllPlaced(ranges[..])
    modifies ranges
    ensures SameOutside(old(ranges[..]), ranges[..], start, ranges.Length)
    ensures Ordered(old(ranges[..])) ==>
      && MovedBetween(dir, run, old(ranges[..]), ranges[..], start, ranges.Length)
      && OrderedBetween(ranges[..], start, ranges.Length)
  {
    hide Moved, RangeMoved, OrderedBetween, Tracking, AboveFloor, InContainer, MovedBetween, Ordered, SameOutside;
    hide OnTrack, Ahead, Sorted;
    var tracker := new ForwardChangesTracker();
    var n, i := 0, start;
    ghost var before, floor := ranges[..], ORIGIN;
    ghost var ordered := Ordered(before);
    ContainerStarts(dir, run, before, start);
    NothingOutside(before, start);
    while i < ranges.Length
      invariant start <= i <= ranges.Length && Ahead(dir, run, n, tracker.State())
      invariant SameOutside(before, ranges[..], start, i)
      invariant ordered ==> InContainer(dir, run, before, ranges[..], start, i, n, tracker.State(), floor)
    {
      ghost var s := ranges[..];
      if ordered {
        ContainerNext(dir, run, before, s, start, i, n, tracker.State(), floor);
      }
      NextOutside(dir, run, before, s, start, i, n, tracker.State(), floor, ordered);
      var r;
      n, r := UpdateRange(tracker, dir, run, n, ranges[i], floor, ordered);
      ghost var t := tracker.State();
      TrackOf(dir, run, n, t, Stop(before[i]), Stop(r), ordered);
      if ordered {
        ContainerStep(dir, run, before, s, start, i, floor, n, t, r);
      }
      OneMoreOutside(before, s, start, i, r);
      ranges[i] := r;
      assert ranges[..] == s[i := r];
      i, floor := i + 1, Stop(r);
    }
    if ordered {
      ContainerDone(dir, run, before, ranges[..], start, n, tracker.State(), floor);
    }
  }

  lemma NothingOutside(ranges: seq<Range>, start: int)
    requires AllPlaced(ranges)
    ensures SameOutside(ranges, ranges, start, start)
  {
  }

  lemma NextOutside(dir: Direction, run: seq<Change>, before: seq<Range>, after: seq<Range>, start: int, i: int,
                    n: nat, s: Shift, floor: Coord, ordered: bool)
    requires SameOutside(before, after, start, i) && 0 <= start <= i < |before| && Ahead(dir, run, n, s)
    requires ordered ==> OnTrack(dir, run, n, s, before[i].first, floor, true)
    ensures |after| == |before| && after[i] == before[i] && Placed(after[i])
    ensures OnTrack(dir, run, n, s, before[i].first, floor, ordered)
  {
    assert Placed(after[i]);
  }

  lemma TrackOf(dir: Direction, run: seq<Change>, n: nat, s: Shift, p: Coord, floor: Coord, ordered: bool)
    requires OnTrack(dir, run, n, s, p, floor, ordered)
    ensures Ahead(dir, run, n, s) && n <= |run|
    ensures ordered ==> Tracking(dir, run, n, s, p) && AboveFloor(dir, run, n, s, floor)
  {
  }

  lemma ContainerDone(dir: Direction, run: seq<Change>, before: seq<Range>, after: seq<Range>, start: int,
                      n: nat, s: Shift, floor: Coord)
    requires InContainer(dir, run, before, after, start, |before|, n, s, floor)
    ensures MovedBetween(dir, run, before, after, start, |before|) && OrderedBetween(after, start, |before|)
  {
  }

  /** The search ended between a range with its last endpoint before `pos` and one without. */
  ghost predicate Boundary(ranges: seq<Range>, pos: Coord, k: int) {
    && 0 <= k <= |ranges|
    && (0 < k ==> Lt(ranges[k - 1].last, pos))
    && (k < |ranges| ==> !Lt(ranges[k].last, pos))
  }

  /** The ranges with their last endpoint before `pos` come first. */
  ghost predicate Partitioned(ranges: seq<Range>, pos: Coord) {
    forall i, j :: 0 <= i < j < |ranges| && Lt(ranges[j].last, pos) ==> Lt(ranges[i].last, pos)
  }

  /** `std::lower_bound`: for a partitioned list, the first range whose last endpoint is not before `pos`. */
  method LowerBound(ranges: array<Range>, pos: Coord) returns (first: nat)
    ensures Boundary(ranges[..], pos, first)
    ensures Partitioned(ranges[..], pos) ==>
      forall i :: 0 <= i < ranges.Length ==> (i < first <==> Lt(ranges[i].last, pos))
  {
    first := 0;
    var count := ranges.Length;
    while count > 0
      invariant 0 <= count && first + count <= ranges.Length
      invariant 0 < first ==> Lt(ranges[first - 1].last, pos)
      invariant first + count < ranges.Length ==> !Lt(ranges[first + count].last, pos)
    {
      var half := count / 2;
      var middle := first + half;
      if Lt(ranges[middle].last, pos) {
        first, count := middle + 1, count - half - 1;
      } else {
        count := half;
      }
    }
    assert ranges[..][..first] == ranges[..first];
    BoundaryOfPartition(ranges[..], pos, first);
  }

  lemma BoundaryOfPartition(ranges: seq<Range>, pos: Coord, k: int)
    requires Boundary(ranges, pos, k)
    ensures Partitioned(ranges, pos) ==> forall i :: 0 <= i < |ranges| ==> (i < k <==> Lt(ranges[i].last, pos))
  {
  }

  // ----- one sorted run

  /** One sorted run of changes and what it did to the ranges, of which the first `skipped` were left alone. */
  datatype Pass = Pass(dir: Direction, run: seq<Change>, before: seq<Range>, after: seq<Range>, skipped: int)

  ghost predicate PassOk(p: Pass) {
    && Sorted(p.dir, p.run) && p.run != [] && AllPlaced(p.before)
    && (if p.dir == Backward then p.skipped == 0 else Boundary(p.before, p.run[0].begin, p.skipped))
    && SameOutside(p.before, p.after, p.skipped, |p.before|)
    && (Ordered(p.before) ==>
          && MovedBetween(p.dir, p.run, p.before, p.after, p.skipped, |p.before|)
          && OrderedBetween(p.after, p.skipped, |p.before|))
  }

  method UpdateForward(run: seq<Change>, ranges: array<Range>) returns (ghost skipped: nat)
    requires Sorted(Forward, run) && run != [] && AllPlaced(ranges[..])
    modifies ranges
    ensures PassOk(Pass(Forward, run, old(ranges[..]), ranges[..], skipped))
  {
    hide OrderedBetween, MovedBetween, SameOutside, Sorted;
    var first := LowerBound(ranges, run[0].begin);
    UpdateFrom(Forward, run, ranges, first);
    skipped := first;
  }

  method UpdateBackward(run: seq<Change>, ranges: array<Range>)
    requires Sorted(Backward, run) && run != [] && AllPlaced(ranges[..])
    modifies ranges
    ensures PassOk(Pass(Backward, run, old(ranges[..]), ranges[..], 0))
  {
    hide OrderedBetween, MovedBetween, SameOutside, Sorted;
    UpdateFrom(Backward, run, ranges, 0);
  }

  /** The run leaves the range where it is. */
  ghost predicate Still(run: seq<Change>, r: Range) {
    Fold(run, r.first) == r.first && (!IsEmptyRange(r) ==> Fold(run, r.last) == r.last)
  }

  /** The ranges left alone are ones that stay where they are. */
  ghost predicate Harmless(p: Pass) {
    forall i :: 0 <= i < p.skipped <= |p.before| ==> Still(p.run, p.before[i])
  }

  /** A pass over ordered ranges moves them all as it should exactly if those left alone are to stay. */
  lemma PassMovesAll(p: Pass)
    requires PassOk(p) && Ordered(p.before)
    ensures MovedBetween(p.dir, p.run, p.before, p.after, 0, |p.before|) <==> Harmless(p)
  {
    hide Sorted, Fold, Landing;
    forall i | 0 <= i < p.skipped
      ensures RangeMoved(p.dir, p.run, p.before[i], p.after[i]) <==> Still(p.run, p.before[i])
    {
      assert Placed(p.before[i]) && p.after[i] == p.before[i] && p.dir == Forward;
      ForwardLands(p.run, p.before[i].first);
      ForwardLands(p.run, p.before[i].last);
    }
  }

  lemma ForwardLands(run: seq<Change>, p: Coord)
    ensures Landing(Forward, run, p) == Fold(run, p)
  {
  }

  /** A pass that moves all ranges keeps their order. */
  lemma PassKeepsOrder(p: Pass)
    requires PassOk(p) && Ordered(p.before) && (Harmless(p) || p.skipped == |p.before|)
    ensures Ordered(p.after)
  {
    if p.dir == Backward || p.skipped == |p.before| {
      assert p.skipped == |p.before| ==> p.after == p.before;
    } else {
      PassMovesAll(p);
      forall i | 0 <= i < |p.after| ensures Placed(p.after[i]) && Le(p.after[i].first, Stop(p.after[i])) {
        MovedForward(p, i);
        FoldIsMonotone(p.run, p.before[i].first, Stop(p.before[i]));
      }
      forall i, j | 0 <= i < j < |p.after| ensures Le(Stop(p.after[i]), p.after[j].first) {
        MovedForward(p, i);
        MovedForward(p, j);
        FoldIsMonotone(p.run, Stop(p.before[i]), p.before[j].first);
      }
    }
  }

  lemma MovedForward(p: Pass, i: int)
    requires p.dir == Forward && 0 <= i < |p.before| == |p.after|
    requires SameOutside(p.before, p.after, p.skipped, |p.before|)
    requires MovedBetween(p.dir, p.run, p.before, p.after, 0, |p.before|)
    ensures p.after[i].first == Fold(p.run, p.before[i].first) && Stop(p.after[i]) == Fold(p.run, Stop(p.before[i]))
    ensures Placed(p.after[i])
  {
    hide Fold;
    assert RangeMoved(p.dir, p.run, p.before[i], p.after[i]) && Placed(p.after[i]);
    assert IsEmptyRange(p.after[i]) <==> IsEmptyRange(p.before[i]);
  }

  // ----- ranges that are left alone

  /** The change leaves the place alone. */
  predicate Untouched(c: Change, p: Coord) {
    match c.kind
    case Insert => Lt(p, c.begin) || (c.begin.line < p.line && c.begin.line == c.end.line)
    case Erase => Le(p, c.begin) || (c.end.line < p.line && c.begin.line == c.end.line)
  }

  /** A single change leaves a range where it is exactly if each endpoint is in front of it, or on a later line and
      the change is within one line. */
  lemma StillForOneChange(c: Change, r: Range)
    requires WellFormedChange(c)
    ensures Still([c], r) <==> Untouched(c, r.first) && (!IsEmptyRange(r) ==> Untouched(c, r.last))
  {
    FoldOne(c, r.first);
    FoldOne(c, r.last);
  }

  /** Ranges that end before a forward run begins stay where they are. */
  lemma BeforeForwardRun(run: seq<Change>, p: Coord)
    requires Sorted(Forward, run) && 0 < |run| && Lt(p, run[0].begin)
    ensures Fold(run, p) == p
  {
    forall i | 0 < i < |run| ensures Lt(run[0].begin, run[i].begin) {
      ForwardAscends(run, 0, i);
    }
    FoldUntouched(run, p);
  }

  ghost predicate NoneEmpty(ranges: seq<Range>) {
    forall i :: 0 <= i < |ranges| ==> !IsEmptyRange(ranges[i])
  }

  ghost predicate AllEmpty(ranges: seq<Range>) {
    forall i :: 0 <= i < |ranges| ==> IsEmptyRange(ranges[i])
  }

  /** Without empty ranges the search leaves only ranges alone that end before the run. */
  lemma NoneEmptyIsHarmless(p: Pass)
    requires PassOk(p) && Ordered(p.before) && NoneEmpty(p.before)
    ensures Harmless(p) && NoneEmpty(p.after)
  {
    if p.dir == Forward {
      var pos := p.run[0].begin;
      forall i, j | 0 <= i < j < |p.before| && Lt(p.before[j].last, pos) ensures Lt(p.before[i].last, pos) {
        assert Le(Stop(p.before[i]), p.before[j].first) && Le(p.before[j].first, Stop(p.before[j]));
      }
      BoundaryOfPartition(p.before, pos, p.skipped);
      forall i | 0 <= i < p.skipped ensures Still(p.run, p.before[i]) {
        assert Le(p.before[i].first, Stop(p.before[i]));
        BeforeForwardRun(p.run, p.before[i].first);
        BeforeForwardRun(p.run, p.before[i].last);
      }
    }
  }

  /** A forward run leaves a list of empty ranges alone, wherever they are. */
  lemma AllEmptyIsSkipped(p: Pass)
    requires PassOk(p) && AllEmpty(p.before)
    ensures AllEmpty(p.after) && (p.dir == Forward ==> p.after == p.before && p.skipped == |p.before|)
  {
    if p.dir == Forward {
      assert WellFormedChange(p.run[0]);
      assert p.skipped < |p.before| ==> IsEmptyRange(p.before[p.skipped]);
      assert p.skipped == |p.before| ==> p.after == p.before;
    }
  }

  /** Two bytes inserted at the begin of the line: an empty range further on is left behind. */
  lemma EmptyRangeLeftBehind(after: seq<Range>, skipped: int)
    requires PassOk(Pass(Forward, [Change(Insert, Coord(0, 0), Coord(0, 2))], [Range(Coord(0, 5), Coord(-1, -1))],
                         after, skipped))
    ensures after == [Range(Coord(0, 5), Coord(-1, -1))]
    ensures Fold([Change(Insert, Coord(0, 0), Coord(0, 2))], Coord(0, 5)) == Coord(0, 7)
  {
    var c := Change(Insert, Coord(0, 0), Coord(0, 2));
    AllEmptyIsSkipped(Pass(Forward, [c], [Range(Coord(0, 5), Coord(-1, -1))], after, skipped));
    FoldOne(c, Coord(0, 5));
  }

  // ----- splitting the log into sorted runs

  method ForwardSortedUntil(log: seq<Change>, first: nat) returns (next: nat)
    requires first < |log| && WellFormedLog(log)
    ensures first < next <= |log| && Sorted(Forward, log[first..next])
    ensures next < |log| ==> !LaterThanPrevious(log, next)
  {
    next := first + 1;
    while next != |log|
      invariant first < next <= |log|
      invariant forall i :: first < i < next ==> LaterThanPrevious(log, i)
      decreases |log| - next
    {
      var ref := if log[next - 1].kind == Insert then log[next - 1].end else log[next - 1].begin;
      if Le(log[next].begin, ref) {
        break;
      }
      assert LaterThanPrevious(log, next);
      next := next + 1;
    }
    forall i | 0 < i < next - first ensures LaterThanPrevious(log[first..next], i) {
      assert LaterThanPrevious(log, first + i);
    }
  }

  method BackwardSortedUntil(log: seq<Change>, first: nat) returns (next: nat)
    requires first < |log| && WellFormedLog(log)
    ensures first < next <= |log| && Sorted(Backward, log[first..next])
    ensures next < |log| ==> !EarlierThanPrevious(log, next)
  {
    next := first + 1;
    while next != |log|
      invariant first < next <= |log|
      invariant forall i :: first < i < next ==> EarlierThanPrevious(log, i)
      decreases |log| - next
    {
      if Lt(log[next - 1].begin, log[next].end) {
        break;
      }
      assert EarlierThanPrevious(log, next);
      next := next + 1;
    }
    forall i | 0 < i < next - first ensures EarlierThanPrevious(log[first..next], i) {
      assert EarlierThanPrevious(log, first + i);
    }
  }

  /** No insertion of the log is directly followed by an erase that ends where it began. */
  ghost predicate NothingSwallowed(log: seq<Change>) {
    forall i {:trigger log[i]} :: 0 <= i < |log| - 1 ==> !Meets(log[i], log[i + 1])
  }

  /** `p` has become `r`: mapped through every change, as long as its byte was not erased or
      the log never erases in front of a fresh insertion. */
  ghost predicate Carried(log: seq<Change>, p: Coord, r: Coord) {
    Alive(log, p) || NothingSwallowed(log) ==> r == Fold(log, p)
  }

  ghost predicate RangeCarried(log: seq<Change>, before: Range, after: Range) {
    && Carried(log, before.first, after.first)
    && if IsEmptyRange(before) then after.last == before.last else Carried(log, before.last, after.last)
  }

  ghost predicate AllCarried(log: seq<Change>, before: seq<Range>, after: seq<Range>) {
    && |after| == |before|
    && forall i :: 0 <= i < |after| ==> RangeCarried(log, before[i], after[i])
  }

  /** Swallowed places have lost their byte. */
  lemma SwallowedIsErased(run: seq<Change>, p: Coord)
    requires Sorted(Backward, run) && Swallowed(run, p)
    ensures !Alive(run, p) && !NothingSwallowed(run)
  {
    var i :| 0 < i < |run| && SwallowedAt(run, i, p);
    assert Meets(run[i - 1], run[i]);
    forall j | 0 <= j < i ensures Lt(p, run[..i][j].begin) {
      BackwardDescends(run, j, i);
    }
    FoldUntouched(run[..i], p);
    assert run == run[..i] + run[i..];
    FoldConcat(run[..i], run[i..], p);
  }

  lemma CarryOn(log: seq<Change>, k: nat, dir: Direction, p: Coord, q: Coord, r: Coord)
    requires k <= |log| && Sorted(dir, log[k..])
    requires Carried(log[..k], p, q) && Moved(dir, log[k..], q, r)
    ensures Carried(log, p, r)
  {
    Sequences.TakeDrop(log, k);
    FoldConcat(log[..k], log[k..], p);
    if dir == Backward && Swallowed(log[k..], q) {
      SwallowedIsErased(log[k..], q);
      var i :| 0 <= i < |log| - k - 1 && Meets(log[k..][i], log[k..][i + 1]);
      assert Meets(log[k + i], log[k + i + 1]);
    }
    if NothingSwallowed(log) {
      forall i {:trigger log[..k][i]} | 0 <= i < k - 1 ensures !Meets(log[..k][i], log[..k][i + 1]) {
        assert !Meets(log[i], log[i + 1]);
      }
    }
  }

  lemma AllCarryOn(log: seq<Change>, k: nat, dir: Direction, r0: seq<Range>, r1: seq<Range>, r2: seq<Range>)
    requires k <= |log| && Sorted(dir, log[k..])
    requires AllCarried(log[..k], r0, r1) && MovedBetween(dir, log[k..], r1, r2, 0, |r1|)
    requires forall i :: 0 <= i < |r1| ==> (IsEmptyRange(r1[i]) <==> IsEmptyRange(r0[i]))
    ensures AllCarried(log, r0, r2)
  {
    hide Carried, Moved, Sorted;
    forall i | 0 <= i < |r2| ensures RangeCarried(log, r0[i], r2[i]) {
      assert RangeCarried(log[..k], r0[i], r1[i]) && RangeMoved(dir, log[k..], r1[i], r2[i]);
      CarryOn(log, k, dir, r0[i].first, r1[i].first, r2[i].first);
      if !IsEmptyRange(r0[i]) {
        CarryOn(log, k, dir, r0[i].last, r1[i].last, r2[i].last);
      }
    }
  }

  // ----- all runs of a log

  /** The passes take in the runs of the log, one after the other. */
  ghost predicate Chained(passes: seq<Pass>, log: seq<Change>, before: seq<Range>, after: seq<Range>) {
    if passes == [] then log == [] && after == before
    else
      var p, n := passes[|passes| - 1], |log| - |passes[|passes| - 1].run|;
      && PassOk(p) && p.after == after && 0 <= n && p.run == log[n..]
      && Chained(passes[..|passes| - 1], log[..n], before, p.before)
  }

  lemma ChainGrows(passes: seq<Pass>, log: seq<Change>, k: nat, m: nat, before: seq<Range>, p: Pass)
    requires k <= m <= |log| && Chained(passes, log[..k], before, p.before) && PassOk(p) && p.run == log[k..m]
    ensures Chained(passes + [p], log[..m], before, p.after)
  {
    hide PassOk;
    Sequences.Cut(passes, [p]);
    assert log[..m][..k] == log[..k] && log[..m][k..] == log[k..m];
  }

  /** The pass takes in the changes from `n` to `k`, and no longer run of either kind begins there; it is a backward
      one only if they are no forward run. */
  ghost predicate Chosen(p: Pass, log: seq<Change>, n: int, k: int) {
    && 0 <= n < k <= |log| && p.run == log[n..k] && Sorted(p.dir, p.run)
    && (forall m :: k < m <= |log| ==> !Sorted(Forward, log[n..m]) && !Sorted(Backward, log[n..m]))
    && (p.dir == Backward ==> !Sorted(Forward, log[n..k]))
  }

  ghost predicate AllChosen(passes: seq<Pass>, log: seq<Change>, k: int) {
    if passes == [] then k == 0
    else
      var p, n := passes[|passes| - 1], k - |passes[|passes| - 1].run|;
      Chosen(p, log, n, k) && AllChosen(passes[..|passes| - 1], log, n)
  }

  lemma ChosenGrows(passes: seq<Pass>, log: seq<Change>, n: int, k: int, p: Pass)
    requires AllChosen(passes, log, n) && Chosen(p, log, n, k)
    ensures AllChosen(passes + [p], log, k)
  {
    hide Chosen;
    Sequences.Cut(passes, [p]);
    assert 0 <= n < k <= |log| && |p.run| == k - n by {
      RunOfChosen(p, log, n, k);
    }
  }

  lemma RunOfChosen(p: Pass, log: seq<Change>, n: int, k: int)
    requires Chosen(p, log, n, k)
    ensures 0 <= n < k <= |log| && |p.run| == k - n
  {
  }

  lemma ForwardStops(log: seq<Change>, n: nat, next: nat, m: nat)
    requires n < next < m <= |log| && !LaterThanPrevious(log, next)
    ensures !Sorted(Forward, log[n..m])
  {
    assert !LaterThanPrevious(log[n..m], next - n);
  }

  lemma BackwardStops(log: seq<Change>, n: nat, next: nat, m: nat)
    requires n < next < m <= |log| && !EarlierThanPrevious(log, next)
    ensures !Sorted(Backward, log[n..m])
  {
    assert !EarlierThanPrevious(log[n..m], next - n);
  }

  lemma LongerIsChosen(log: seq<Change>, n: nat, forwardEnd: nat, backwardEnd: nat, p: Pass)
    requires n < forwardEnd <= |log| && n < backwardEnd <= |log|
    requires forwardEnd < |log| ==> !LaterThanPrevious(log, forwardEnd)
    requires backwardEnd < |log| ==> !EarlierThanPrevious(log, backwardEnd)
    requires p.dir == (if forwardEnd >= backwardEnd then Forward else Backward)
    requires p.run == log[n..if forwardEnd >= backwardEnd then forwardEnd else backwardEnd] && Sorted(p.dir, p.run)
    ensures Chosen(p, log, n, if forwardEnd >= backwardEnd then forwardEnd else backwardEnd)
  {
    hide Sorted;
    var k := if forwardEnd >= backwardEnd then forwardEnd else backwardEnd;
    forall m | k < m <= |log| ensures !Sorted(Forward, log[n..m]) && !Sorted(Backward, log[n..m]) {
      ForwardStops(log, n, forwardEnd, m);
      BackwardStops(log, n, backwardEnd, m);
    }
    if forwardEnd < backwardEnd {
      ForwardStops(log, n, forwardEnd, backwardEnd);
    }
  }

  ghost predicate AllHarmless(passes: seq<Pass>) {
    forall k :: 0 <= k < |passes| ==> Harmless(passes[k])
  }

  /** As long as no pass leaves a range alone that is to move, the whole log is carried out on every endpoint. */
  lemma {:induction false} ChainCarries(passes: seq<Pass>, log: seq<Change>, before: seq<Range>, after: seq<Range>)
    requires Chained(passes, log, before, after) && Ordered(before) && AllHarmless(passes)
    ensures AllCarried(log, before, after) && Ordered(after)
    ensures forall i :: 0 <= i < |before| ==> (IsEmptyRange(after[i]) <==> IsEmptyRange(before[i]))
  {
    if passes != [] {
      var p, n := passes[|passes| - 1], |log| - |passes[|passes| - 1].run|;
      ChainCarries(passes[..|passes| - 1], log[..n], before, p.before);
      PassMovesAll(p);
      PassKeepsOrder(p);
      AllCarryOn(log, n, p.dir, before, p.before, after);
    }
  }

  /** Without empty ranges no pass ever does. */
  lemma {:induction false} ChainWithoutEmpty(passes: seq<Pass>, log: seq<Change>, before: seq<Range>, after: seq<Range>)
    requires Chained(passes, log, before, after) && Ordered(before) && NoneEmpty(before)
    ensures AllHarmless(passes) && Ordered(after) && NoneEmpty(after)
  {
    if passes != [] {
      var init, p, n := passes[..|passes| - 1], passes[|passes| - 1], |log| - |passes[|passes| - 1].run|;
      ChainWithoutEmpty(init, log[..n], before, p.before);
      NoneEmptyIsHarmless(p);
      PassKeepsOrder(p);
      forall k | 0 <= k < |passes| ensures Harmless(passes[k]) {
        assert k < |init| ==> Harmless(init[k]);
      }
    }
  }

  /** A list of empty ranges is left alone by each forward run, moved by each backward one, and stays in order. */
  lemma {:induction false} ChainOfEmpty(passes: seq<Pass>, log: seq<Change>, before: seq<Range>, after: seq<Range>)
    requires Chained(passes, log, before, after) && Ordered(before) && AllEmpty(before)
    ensures Ordered(after) && AllEmpty(after)
    ensures forall k :: 0 <= k < |passes| ==> EmptiesMoved(passes[k])
  {
    if passes != [] {
      var init, p, n := passes[..|passes| - 1], passes[|passes| - 1], |log| - |passes[|passes| - 1].run|;
      ChainOfEmpty(init, log[..n], before, p.before);
      AllEmptyIsSkipped(p);
      PassKeepsOrder(p);
      forall k | 0 <= k < |passes| ensures EmptiesMoved(passes[k]) {
        assert k < |init| ==> EmptiesMoved(init[k]);
      }
    }
  }

  ghost predicate EmptiesMoved(p: Pass) {
    if p.dir == Forward then p.after == p.before
    else MovedBetween(Backward, p.run, p.before, p.after, 0, |p.before|)
  }

  /** `update_ranges` on the changes since `timestamp`. */
  method UpdateRanges(changes: seq<Change>, timestamp: nat, ranges: array<Range>) returns (ghost passes: seq<Pass>)
    requires timestamp <= |changes| && WellFormedLog(changes) && AllPlaced(ranges[..])
    modifies ranges
    ensures Chained(passes, changes[timestamp..], old(ranges[..]), ranges[..]) && AllPlaced(ranges[..])
    ensures AllChosen(passes, changes[timestamp..], |changes| - timestamp)
    ensures Ordered(old(ranges[..])) && (NoneEmpty(old(ranges[..])) || AllHarmless(passes)) ==>
      AllCarried(changes[timestamp..], old(ranges[..]), ranges[..]) && Ordered(ranges[..])
  {
    hide PassOk, Ordered, NoneEmpty, AllHarmless, AllCarried, Chosen, Sorted;
    passes := [];
    ghost var before := ranges[..];
    if timestamp == |changes| {
      ChainEnds(passes, changes[timestamp..], before, before);
      return;
    }
    var log := changes[timestamp..];
    var k := 0;
    assert log[..0] == [];
    while k != |log|
      invariant 0 <= k <= |log| && WellFormedLog(log) && AllPlaced(ranges[..])
      invariant Chained(passes, log[..k], before, ranges[..]) && AllChosen(passes, log, k)
      decreases |log| - k
    {
      var forwardEnd := ForwardSortedUntil(log, k);
      var backwardEnd := BackwardSortedUntil(log, k);
      ghost var r1 := ranges[..];
      ghost var p: Pass;
      var next := forwardEnd;
      if forwardEnd >= backwardEnd {
        ghost var skipped := UpdateForward(log[k..forwardEnd], ranges);
        p := Pass(Forward, log[k..forwardEnd], r1, ranges[..], skipped);
      } else {
        UpdateBackward(log[k..backwardEnd], ranges);
        p := Pass(Backward, log[k..backwardEnd], r1, ranges[..], 0);
        next := backwardEnd;
      }
      PassPlaces(p);
      ChainGrows(passes, log, k, next, before, p);
      PassIsSorted(p);
      LongerIsChosen(log, k, forwardEnd, backwardEnd, p);
      ChosenGrows(passes, log, k, next, p);
      passes := passes + [p];
      k := next;
    }
    Sequences.TakeAll(log);
    ChainEnds(passes, log, before, ranges[..]);
  }

  lemma PassIsSorted(p: Pass)
    requires PassOk(p)
    ensures Sorted(p.dir, p.run)
  {
  }

  lemma PassPlaces(p: Pass)
    requires PassOk(p)
    ensures AllPlaced(p.after)
  {
  }

  lemma ChainEnds(passes: seq<Pass>, log: seq<Change>, before: seq<Range>, after: seq<Range>)
    requires Chained(passes, log, before, after)
    ensures Ordered(before) && (NoneEmpty(before) || AllHarmless(passes)) ==>
      AllCarried(log, before, after) && Ordered(after)
  {
    if Ordered(before) && NoneEmpty(before) {
      ChainWithoutEmpty(passes, log, before, after);
    }
    if Ordered(before) && AllHarmless(passes) {
      ChainCarries(passes, log, before, after);
    }
  }

  /** After any log of buffer edits, an endpoint whose byte was never erased is the coordinate
      of that same byte, at the offset to which the edits have taken it. */
  lemma EndpointsKeepTheirBytes(log: seq<Change>, trace: seq<string>, o: nat, r: Coord)
    requires LogMatches(log, trace) && o < |trace[0]|
    requires Alive(log, PosOf(trace[0][..o])) && Carried(log, PosOf(trace[0][..o]), r)
    ensures var o' := OffsetThrough(log, trace, o);
      && 0 <= o' < |trace[|log|]| && trace[|log|][o'] == trace[0][o]
      && r == PosOf(trace[|log|][..o'])
  {
    SurvivorFound(log, trace, o);
  }
}
