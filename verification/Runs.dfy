/** Sorted runs of changes, and why one pass with the tracker replaces mapping through each change. */
module Runs {
  import opened Coords
  import opened Edits
  import opened ChangeMaps
  import opened Tracker
  import Sequences

  datatype Direction = Forward | Backward

  function EndOfChange(c: Change): Coord {
    if c.kind == Insert then c.end else c.begin
  }

  /** Change `i` begins after the place the previous one left. */
  ghost predicate LaterThanPrevious(run: seq<Change>, i: int)
    requires 0 < i < |run|
  {
    Lt(EndOfChange(run[i - 1]), run[i].begin)
  }

  /** Change `i` ends no later than the previous one began. */
  ghost predicate EarlierThanPrevious(run: seq<Change>, i: int)
    requires 0 < i < |run|
  {
    Le(run[i].end, run[i - 1].begin)
  }

  ghost predicate ForwardSorted(run: seq<Change>) {
    forall i :: 0 < i < |run| ==> LaterThanPrevious(run, i)
  }

  ghost predicate BackwardSorted(run: seq<Change>) {
    forall i :: 0 < i < |run| ==> EarlierThanPrevious(run, i)
  }

  ghost predicate Sorted(dir: Direction, run: seq<Change>) {
    WellFormedLog(run) && if dir == Forward then ForwardSorted(run) else BackwardSorted(run)
  }

  /** The change meets the end of the erase that was logged just after it. */
  predicate Meets(c: Change, e: Change) {
    c.kind == Insert && e.kind == Erase && e.end == c.begin
  }

  ghost predicate SwallowedAt(run: seq<Change>, i: int, q: Coord)
    requires 0 < i < |run|
  {
    Meets(run[i - 1], run[i]) && Lt(run[i].begin, q) && Lt(q, run[i].end)
  }

  /** `q` lies strictly inside text that was erased right in front of the insertion logged
      just before. */
  ghost predicate Swallowed(run: seq<Change>, q: Coord) {
    exists i :: 0 < i < |run| && SwallowedAt(run, i, q)
  }

  /** Where the tracker puts `q` in the end: where mapping it through each change puts it, or, if it was
      swallowed, behind the insertion that was logged just before it was erased. */
  ghost function Landing(dir: Direction, run: seq<Change>, q: Coord): Coord {
    if dir == Backward && Swallowed(run, q) then
      var i :| 0 < i < |run| && SwallowedAt(run, i, q);
      Fold(run[i..], run[i - 1].end)
    else Fold(run, q)
  }

  /** A position is swallowed once at most. */
  lemma LandsBehindInsertion(run: seq<Change>, i: nat, q: Coord)
    requires Sorted(Backward, run) && 0 < i < |run| && SwallowedAt(run, i, q)
    ensures Landing(Backward, run, q) == Fold(run[i..], run[i - 1].end)
  {
    forall j | 0 < j < |run| && SwallowedAt(run, j, q) ensures j == i {
      if i < j {
        BackwardDescends(run, i, j);
      } else if j < i {
        BackwardDescends(run, j, i);
      }
    }
  }

  /** The part of the run the tracker has taken in after `n` steps. */
  function Done(dir: Direction, run: seq<Change>, n: nat): seq<Change>
    requires n <= |run|
  {
    if dir == Forward then run[..n] else run[|run| - n..]
  }

  /** The place in the run of the next change. */
  function At(dir: Direction, run: seq<Change>, n: nat): nat
    requires n < |run|
  {
    if dir == Forward then n else |run| - 1 - n
  }

  /** The next change; a backward run is read from its end, in the coordinates left by the
      changes already taken in. */
  function Pending(dir: Direction, run: seq<Change>, n: nat, s: Shift): Change
    requires n < |run|
  {
    var c := run[At(dir, run, n)];
    if dir == Forward then c else Change(c.kind, s.New(c.begin), s.New(c.end))
  }

  /** The shift stands for the changes `done`: exactly from `was` on, and below it for every
      place from `p` on, except that it sends places swallowed by a backward run too far. */
  ghost predicate StandsFor(dir: Direction, s: Shift, done: seq<Change>, p: Coord) {
    && (forall q {:trigger Fold(done, q)} :: NonNegative(q) && Le(s.was, q) ==> s.New(q) == Fold(done, q))
    && (forall q {:trigger Fold(done, q)} {:trigger Landing(dir, done, q)} ::
          NonNegative(q) && Le(p, q) && Lt(q, s.was) ==>
          s.now == Landing(dir, done, q)
          && (dir == Backward && Swallowed(done, q) ==> Lt(Fold(done, q), s.now)))
  }

  /** After `n` steps the next change is still ahead of the tracker, wherever the positions were. */
  ghost predicate Ahead(dir: Direction, run: seq<Change>, n: nat, s: Shift) {
    && s.Ok() && n <= |run| && Sorted(dir, run)
    && (n < |run| ==> if dir == Forward then Le(s.now, run[n].begin) else Le(s.was, run[|run| - 1 - n].begin))
    && (n == 0 ==> s == START)
    && (dir == Forward && 0 < n ==> s.now == EndOfChange(run[n - 1]))
    && (dir == Backward && 0 < n ==>
          var c := run[|run| - n];
          s.was == if c.kind == Insert then c.begin else c.end)
  }

  ghost predicate Tracking(dir: Direction, run: seq<Change>, n: nat, s: Shift, p: Coord) {
    && Ahead(dir, run, n, s) && NonNegative(p)
    && (dir == Backward && 0 < n && run[|run| - n].kind == Erase ==> Lt(run[|run| - n].begin, p))
    && StandsFor(dir, s, Done(dir, run, n), p)
  }

  lemma TrackingStarts(dir: Direction, run: seq<Change>, p: Coord)
    requires Sorted(dir, run) && NonNegative(p)
    ensures Tracking(dir, run, 0, START, p)
  {
    assert Done(dir, run, 0) == [];
  }

  /** Positions are visited in order. */
  lemma TrackingMovesOn(dir: Direction, run: seq<Change>, n: nat, s: Shift, p: Coord, q: Coord)
    requires Tracking(dir, run, n, s, p) && Le(p, q) && NonNegative(q)
    ensures Tracking(dir, run, n, s, q)
  {
  }

  /** The next change lies at or after the place of the last one. */
  lemma PendingIsLater(dir: Direction, run: seq<Change>, n: nat, s: Shift)
    requires Ahead(dir, run, n, s) && n < |run|
    ensures WellFormedChange(Pending(dir, run, n, s)) && Le(s.now, Pending(dir, run, n, s).begin)
  {
    var c := run[At(dir, run, n)];
    if dir == Backward {
      NewIsMonotone(s, c.begin, c.end);
      NewIsMonotone(s, c.end, c.end);
    }
  }

  /** A step keeps the tracker behind the next change. */
  lemma StepAhead(dir: Direction, run: seq<Change>, n: nat, s: Shift)
    requires Ahead(dir, run, n, s) && n < |run|
    ensures Ahead(dir, run, n + 1, s.After(Pending(dir, run, n, s)))
  {
    var c := run[At(dir, run, n)];
    PendingIsLater(dir, run, n, s);
    if dir == Forward {
      OldIsOk(s, c.begin);
      OldIsOk(s, c.end);
      assert n + 1 < |run| ==> LaterThanPrevious(run, n + 1);
    } else {
      WasAfterBackward(s, c);
      assert n + 1 < |run| ==> EarlierThanPrevious(run, |run| - 1 - n);
    }
  }

  lemma OldIsOk(s: Shift, c: Coord)
    requires s.Ok() && NonNegative(c) && Le(s.now, c)
    ensures NonNegative(s.Old(c))
  {
  }

  lemma StepForward(run: seq<Change>, n: nat, s: Shift, p: Coord)
    requires Tracking(Forward, run, n, s, p) && n < |run| && s.Relevant(run[n], p)
    ensures Tracking(Forward, run, n + 1, s.After(run[n]), p)
  {
    hide StandsFor, Sorted;
    PendingIsLater(Forward, run, n, s);
    StepAhead(Forward, run, n, s);
    assert run[..n + 1] == run[..n] + [run[n]];
    StandsForMore(s, run[..n], run[n], p);
  }

  /** A relevant change taken in. */
  lemma StandsForMore(s: Shift, done: seq<Change>, c: Change, p: Coord)
    requires s.Ok() && NonNegative(p) && WellFormedChange(c) && Le(s.now, c.begin)
    requires StandsFor(Forward, s, done, p) && s.Relevant(c, p)
    ensures StandsFor(Forward, s.After(c), done + [c], p)
  {
    var s', done' := s.After(c), done + [c];
    AfterMaps(s, c, p);
    forall q {:trigger Fold(done', q)} {:trigger Landing(Forward, done', q)} |
      NonNegative(q) && (Le(s'.was, q) || Le(p, q))
      ensures s'.Tolerant(q) == Fold(done', q) == Landing(Forward, done', q)
    {
      MoreMaps(s, done, c, p, q);
    }
  }

  lemma MoreMaps(s: Shift, done: seq<Change>, c: Change, p: Coord, q: Coord)
    requires s.Ok() && NonNegative(p) && WellFormedChange(c) && Le(s.now, c.begin)
    requires StandsFor(Forward, s, done, p) && s.Relevant(c, p)
    requires NonNegative(q) && (Le(s.After(c).was, q) || Le(p, q))
    ensures s.After(c).Tolerant(q) == Fold(done + [c], q) == Landing(Forward, done + [c], q)
  {
    FoldConcat(done, [c], q);
    FoldOne(c, Fold(done, q));
    if Le(p, q) {
      NewIsMonotone(s, p, q);
      AfterMaps(s, c, q);
      assert s.Tolerant(q) == Fold(done, q) by { assert Landing(Forward, done, q) == Fold(done, q); }
    } else {
      BeyondWas(s, c, q);
    }
  }

  /** A place that survives the step lies beyond the change, whatever made the change relevant. */
  lemma BeyondWas(s: Shift, c: Change, q: Coord)
    requires s.Ok() && WellFormedChange(c) && NonNegative(q) && Le(s.now, c.begin)
    requires Le(s.After(c).was, q)
    ensures Le(s.was, q) && s.After(c).New(q) == MapThrough(c, s.New(q))
  {
  }

  /** In a backward run the tracker's mark is, in the original coordinates, the near end of the
      change it took in last. */
  lemma WasAfterBackward(s: Shift, c: Change)
    requires s.Ok() && WellFormedChange(c) && Le(s.was, c.begin)
    ensures var c' := Change(c.kind, s.New(c.begin), s.New(c.end));
      && s.After(c').was == (if c.kind == Insert then c.begin else c.end)
      && s.After(c').now == (if c.kind == Insert then s.New(c.end) else s.New(c.begin))
      && s.After(c').Ok()
  {
    NewIsMonotone(s, c.begin, c.end);
    NewIsMonotone(s, c.end, c.end);
    OldAfter(s, c.begin);
    OldAfter(s, c.end);
  }

  lemma StepBackwardBeyond(s: Shift, c: Change, done: seq<Change>, p: Coord, q: Coord)
    requires s.Ok() && WellFormedChange(c) && Le(s.was, c.begin) && StandsFor(Backward, s, done, p)
    requires NonNegative(q) && Le(if c.kind == Insert then c.begin else c.end, q)
    ensures s.After(Change(c.kind, s.New(c.begin), s.New(c.end))).New(q) == Fold([c] + done, q)
  {
    var near, far := if c.kind == Insert then c.begin else c.end, if c.kind == Insert then c.end else c.begin;
    WasAfterBackward(s, c);
    MinusNonNegative(q, near);
    NewOfPlus(s, far, Minus(q, near));
    assert ([c] + done)[1..] == done;
    assert MapThrough(c, q) == Plus(far, Minus(q, near));
  }

  lemma {:induction false} BackwardDescends(run: seq<Change>, i: nat, j: nat)
    requires Sorted(Backward, run) && i < j < |run|
    ensures Le(run[j].end, run[i].begin)
    decreases j - i
  {
    assert EarlierThanPrevious(run, j);
    if i + 1 < j {
      BackwardDescends(run, i, j - 1);
      assert WellFormedChange(run[j - 1]);
    }
  }

  lemma {:induction false} ForwardAscends(run: seq<Change>, i: nat, j: nat)
    requires Sorted(Forward, run) && i < j < |run|
    ensures Lt(run[i].begin, run[j].begin)
    decreases j - i
  {
    assert WellFormedChange(run[j - 1]) && LaterThanPrevious(run, j);
    if i + 1 < j {
      ForwardAscends(run, i, j - 1);
    }
  }

  lemma SwallowedIsBelow(run: seq<Change>, q: Coord)
    requires Sorted(Backward, run) && Swallowed(run, q)
    ensures Lt(q, run[0].begin)
  {
    var i :| 0 < i < |run| && SwallowedAt(run, i, q);
    BackwardDescends(run, 0, i);
  }

  lemma SortedAt(run: seq<Change>, m: nat)
    requires Sorted(Backward, run) && m < |run|
    ensures WellFormedChange(run[m])
    ensures m + 1 < |run| ==> WellFormedChange(run[m + 1]) && Le(run[m + 1].end, run[m].begin)
  {
    assert m + 1 < |run| ==> EarlierThanPrevious(run, m + 1);
  }

  lemma DoneIsSorted(run: seq<Change>, m: nat)
    requires Sorted(Backward, run) && m <= |run|
    ensures Sorted(Backward, run[m..])
  {
    forall i | 0 < i < |run| - m ensures EarlierThanPrevious(run[m..], i) {
      assert EarlierThanPrevious(run, m + i);
    }
  }

  /** An insertion taken in below the mark meets the erase taken in before. */
  lemma StepBackwardInsert(run: seq<Change>, n: nat, s: Shift, p: Coord, q: Coord)
    requires Tracking(Backward, run, n, s, p) && n < |run|
    requires s.Relevant(Pending(Backward, run, n, s), p)
    requires var c := run[|run| - 1 - n]; c.kind == Insert && NonNegative(q) && Le(p, q) && Lt(q, c.begin)
    ensures n != 0 && s.was == run[|run| - 1 - n].begin
    ensures SwallowedAt(Done(Backward, run, n + 1), 1, q)
  {
    hide StandsFor, Sorted;
    var m := |run| - 1 - n;
    SortedAt(run, m);
    MeetsMark(s, p, run[m].begin);
    assert n != 0 && run[m + 1].kind == Erase;
    assert Done(Backward, run, n + 1)[0] == run[m] && Done(Backward, run, n + 1)[1] == run[m + 1];
  }

  /** A place beyond the tracked one that is not sent further than it is the mark. */
  lemma MeetsMark(s: Shift, p: Coord, b: Coord)
    requires s.Ok() && NonNegative(p) && NonNegative(b) && Le(s.was, b) && Lt(p, b) && Le(s.New(b), s.Tolerant(p))
    ensures s.was == b
  {
    NewIsMonotone(s, p, b);
  }

  /** Where a change taken in below the mark comes from: an erase in front of the position, or
      an insertion that meets the erase taken in before. */
  lemma StepBackwardBelow(run: seq<Change>, n: nat, s: Shift, p: Coord, q: Coord)
    requires Tracking(Backward, run, n, s, p) && n < |run|
    requires s.Relevant(Pending(Backward, run, n, s), p)
    requires var c := run[|run| - 1 - n];
             NonNegative(q) && Le(p, q) && Lt(q, if c.kind == Insert then c.begin else c.end)
    ensures var now, done := s.After(Pending(Backward, run, n, s)).now, Done(Backward, run, n + 1);
            now == Landing(Backward, done, q) && (Swallowed(done, q) ==> Lt(Fold(done, q), now))
  {
    var m := |run| - 1 - n;
    var c, done, done' := run[m], Done(Backward, run, n), Done(Backward, run, n + 1);
    WasAfterBackward(s, c);
    DoneGrows(run, n);
    if c.kind == Insert {
      StepBackwardInsert(run, n, s, p, q);
      DoneIsSorted(run, m);
      LandsBehindInsertion(done', 1, q);
    } else {
      NewIsMonotone(s, p, c.begin);
      assert s.New(c.begin) == Fold(done, c.begin);
      NotSwallowedAbove(run, m, q);
    }
  }

  lemma DoneGrows(run: seq<Change>, n: nat)
    requires n < |run|
    ensures Done(Backward, run, n + 1) == [run[|run| - 1 - n]] + Done(Backward, run, n)
    ensures Done(Backward, run, n + 1)[1..] == Done(Backward, run, n)
  {
  }

  lemma NotSwallowedAbove(run: seq<Change>, m: nat, q: Coord)
    requires Sorted(Backward, run) && m < |run| && Le(run[m].begin, q)
    ensures !Swallowed(run[m..], q)
  {
    DoneIsSorted(run, m);
    if Swallowed(run[m..], q) {
      SwallowedIsBelow(run[m..], q);
    }
  }

  lemma StepBackward(run: seq<Change>, n: nat, s: Shift, p: Coord)
    requires Tracking(Backward, run, n, s, p) && n < |run| && s.Relevant(Pending(Backward, run, n, s), p)
    ensures Tracking(Backward, run, n + 1, s.After(Pending(Backward, run, n, s)), p)
  {
    hide StandsFor, Sorted;
    var c := run[|run| - 1 - n];
    StepAhead(Backward, run, n, s);
    SortedAt(run, |run| - 1 - n);
    if c.kind == Erase {
      InFrontOf(s, p, c.begin);
    }
    StandsForStep(run, n, s, p);
  }

  lemma InFrontOf(s: Shift, p: Coord, b: Coord)
    requires s.Ok() && NonNegative(p) && NonNegative(b) && Le(s.was, b) && Lt(s.New(b), s.Tolerant(p))
    ensures Lt(b, p)
  {
    NewIsMonotone(s, p, b);
  }

  lemma StandsForStep(run: seq<Change>, n: nat, s: Shift, p: Coord)
    requires Tracking(Backward, run, n, s, p) && n < |run| && s.Relevant(Pending(Backward, run, n, s), p)
    ensures StandsFor(Backward, s.After(Pending(Backward, run, n, s)), Done(Backward, run, n + 1), p)
  {
    hide Sorted, Fold, Swallowed, Landing;
    var c, done, done' := run[|run| - 1 - n], Done(Backward, run, n), Done(Backward, run, n + 1);
    var s' := s.After(Pending(Backward, run, n, s));
    SortedAt(run, |run| - 1 - n);
    DoneGrows(run, n);
    WasAfterBackward(s, c);
    forall q {:trigger Fold(done', q)} | NonNegative(q) && Le(s'.was, q) ensures s'.New(q) == Fold(done', q) {
      StepBackwardBeyond(s, c, done, p, q);
    }
    forall q {:trigger Fold(done', q)} {:trigger Landing(Backward, done', q)} |
      NonNegative(q) && Le(p, q) && Lt(q, s'.was)
      ensures s'.now == Landing(Backward, done', q) && (Swallowed(done', q) ==> Lt(Fold(done', q), s'.now))
    {
      StepBackwardBelow(run, n, s, p, q);
    }
  }

  /** Once no further change is relevant to `p`, the tracker gives what mapping `p` through the
      run change by change gives, except exactly for swallowed places of a backward run, which it
      sends too far. */
  lemma TrackingEnds(dir: Direction, run: seq<Change>, n: nat, s: Shift, p: Coord)
    requires Tracking(dir, run, n, s, p)
    requires n == |run| || !s.Relevant(Pending(dir, run, n, s), p)
    ensures s.Tolerant(p) == Fold(run, p) <==> !(dir == Backward && Swallowed(run, p))
    ensures dir == Backward && Swallowed(run, p) ==> Lt(Fold(run, p), s.Tolerant(p))
    ensures s.Tolerant(p) == Landing(dir, run, p) && NonNegative(s.Tolerant(p))
  {
    NewIsMonotone(s, p, p);
    if dir == Forward {
      ForwardEnds(run, n, s, p);
    } else {
      BackwardEnds(run, n, s, p);
    }
  }

  lemma ForwardEnds(run: seq<Change>, n: nat, s: Shift, p: Coord)
    requires Tracking(Forward, run, n, s, p)
    requires n == |run| || !s.Relevant(run[n], p)
    ensures s.Tolerant(p) == Fold(run, p)
  {
    var done, rest := run[..n], run[n..];
    assert run == done + rest;
    FoldConcat(done, rest, p);
    assert s.Tolerant(p) == Fold(done, p);
    forall i | 0 < i < |rest| ensures Lt(rest[0].begin, rest[i].begin) {
      ForwardAscends(run, n, n + i);
    }
    FoldUntouched(rest, s.Tolerant(p));
  }

  /** A position that comes after a later one, `top`, in a forward run: the tracker gives what mapping it through
      each change gives exactly if the last change taken in for `top` does not begin behind it. */
  lemma LatePosition(run: seq<Change>, n: nat, s: Shift, top: Coord, p: Coord)
    requires Tracking(Forward, run, n, s, top) && 0 < n && NonNegative(p) && Lt(p, top)
    requires n == |run| || !s.Relevant(run[n], top)
    ensures s.Tolerant(p) == Fold(run, p) <==> Le(run[n - 1].begin, Fold(run[..n - 1], p))
  {
    hide StandsFor, Sorted, Fold;
    var c, done := run[n - 1], run[..n];
    var x := Fold(run[..n - 1], p);
    FoldOfLast(run, n, p);
    RestUntouched(run, n, s, top, p);
    MarkMaps(s, done, top, p);
    ForwardChange(run, n - 1);
    assert Lt(x, c.begin) ==> MapThrough(c, x) == x;
    if Le(c.begin, x) {
      MapIsMonotone(c, c.begin, x);
    }
  }

  lemma ForwardChange(run: seq<Change>, i: nat)
    requires Sorted(Forward, run) && i < |run|
    ensures WellFormedChange(run[i]) && WellFormedLog(run[..i])
  {
  }

  lemma FoldOfLast(run: seq<Change>, n: nat, p: Coord)
    requires 0 < n <= |run| && Sorted(Forward, run) && NonNegative(p)
    ensures Fold(run[..n], p) == MapThrough(run[n - 1], Fold(run[..n - 1], p)) && NonNegative(Fold(run[..n - 1], p))
  {
    ForwardChange(run, n - 1);
    assert run[..n] == run[..n - 1] + [run[n - 1]];
    FoldConcat(run[..n - 1], [run[n - 1]], p);
    FoldOne(run[n - 1], Fold(run[..n - 1], p));
    FoldIsMonotone(run[..n - 1], p, p);
  }

  /** What is not taken in for `top` does not concern a position in front of it either. */
  lemma RestUntouched(run: seq<Change>, n: nat, s: Shift, top: Coord, p: Coord)
    requires Tracking(Forward, run, n, s, top) && NonNegative(p) && Lt(p, top)
    requires n == |run| || !s.Relevant(run[n], top)
    ensures Fold(run, p) == Fold(run[..n], p)
  {
    var done, rest := run[..n], run[n..];
    Sequences.TakeDrop(run, n);
    assert WellFormedLog(done);
    FoldConcat(done, rest, p);
    FoldIsMonotone(done, p, top);
    NewIsMonotone(s, top, top);
    assert s.Tolerant(top) == Fold(done, top) by { assert Landing(Forward, done, top) == Fold(done, top); }
    forall i | 0 < i < |rest| ensures Lt(rest[0].begin, rest[i].begin) {
      ForwardAscends(run, n, n + i);
    }
    FoldUntouched(rest, Fold(done, p));
  }

  /** From the tracker's mark on positions are mapped right, and those before it to no later a place. */
  lemma MarkMaps(s: Shift, done: seq<Change>, top: Coord, p: Coord)
    requires s.Ok() && StandsFor(Forward, s, done, top) && NonNegative(p)
    ensures Le(s.was, p) ==> s.Tolerant(p) == Fold(done, p) && Le(s.now, Fold(done, p))
    ensures Lt(p, s.was) && WellFormedLog(done) ==> s.Tolerant(p) == s.now && Le(Fold(done, p), s.now)
  {
    NewIsMonotone(s, p, p);
    if Lt(p, s.was) && WellFormedLog(done) {
      FoldIsMonotone(done, p, s.was);
      assert s.New(s.was) == Fold(done, s.was);
    }
  }

  /** Text inserted inside a range: a position in front of it that comes after the end of that range goes with it. */
  lemma LatePositionExample()
    ensures var run, top, p := [Change(Insert, Coord(0, 7), Coord(0, 8))], Coord(0, 9), Coord(0, 5);
      var s := START.After(run[0]);
      && Tracking(Forward, run, 1, s, top)
      && s.Tolerant(p) == Coord(0, 8) && Fold(run, p) == p
  {
    var run, top, p := [Change(Insert, Coord(0, 7), Coord(0, 8))], Coord(0, 9), Coord(0, 5);
    assert Sorted(Forward, run);
    TrackingStarts(Forward, run, top);
    StepForward(run, 0, START, top);
    FoldOne(run[0], p);
  }

  /** The changes that are still pending do not concern `p`. */
  lemma PendingUntouched(run: seq<Change>, n: nat, s: Shift, p: Coord)
    requires Tracking(Backward, run, n, s, p)
    requires n == |run| || !s.Relevant(Pending(Backward, run, n, s), p)
    ensures Fold(run, p) == Fold(run[|run| - n..], p)
    ensures forall i :: 0 <= i < |run| - n ==> Le(p, run[i].begin)
  {
    hide Tracking, Fold, Sorted;
    NextUntouched(run, n, s, p);
    if n < |run| {
      LaterComeFirst(run, |run| - n - 1);
    }
    UntouchedPrefix(run, |run| - n, p);
  }

  lemma NextUntouched(run: seq<Change>, n: nat, s: Shift, p: Coord)
    requires Tracking(Backward, run, n, s, p)
    requires n == |run| || !s.Relevant(Pending(Backward, run, n, s), p)
    ensures n <= |run| && Sorted(Backward, run)
    ensures n < |run| ==>
      var c := run[|run| - n - 1]; if c.kind == Insert then Lt(p, c.begin) else Le(p, c.begin)
  {
    hide StandsFor, Sorted;
    if n < |run| {
      SortedAt(run, |run| - n - 1);
      NotReached(s, p, run[|run| - n - 1].begin);
    }
  }

  lemma NotReached(s: Shift, p: Coord, b: Coord)
    requires s.Ok() && NonNegative(p) && NonNegative(b) && Le(s.was, b)
    ensures Lt(s.Tolerant(p), s.New(b)) ==> Lt(p, b)
    ensures Le(s.Tolerant(p), s.New(b)) ==> Le(p, b)
  {
    NewIsMonotone(s, b, p);
  }

  lemma UntouchedPrefix(run: seq<Change>, m: nat, p: Coord)
    requires m <= |run|
    requires forall i :: 0 <= i < m ==> if run[i].kind == Insert then Lt(p, run[i].begin) else Le(p, run[i].begin)
    ensures Fold(run, p) == Fold(run[m..], p)
  {
    hide Fold;
    Sequences.TakeDrop(run, m);
    FoldUntouched(run[..m], p);
    FoldConcat(run[..m], run[m..], p);
  }

  lemma LaterComeFirst(run: seq<Change>, m: nat)
    requires Sorted(Backward, run) && m < |run|
    ensures forall i :: 0 <= i < m ==> Lt(run[m].begin, run[i].begin)
  {
    forall i | 0 <= i < m ensures Lt(run[m].begin, run[i].begin) {
      BackwardDescends(run, i, m);
      SortedAt(run, m);
    }
  }

  /** The change taken in last does not meet the next one, or the next one would be relevant. */
  lemma NoMeetingAhead(run: seq<Change>, n: nat, s: Shift, p: Coord)
    requires Tracking(Backward, run, n, s, p)
    requires 0 < n < |run| && !s.Relevant(Pending(Backward, run, n, s), p)
    ensures !Meets(run[|run| - n - 1], run[|run| - n])
  {
    var m := |run| - n;
    NewIsMonotone(s, run[m - 1].begin, p);
    assert WellFormedChange(run[m - 1]);
    assert s.was == run[m].end ==> s.New(s.was) == s.now;
  }

  lemma BackwardEnds(run: seq<Change>, n: nat, s: Shift, p: Coord)
    requires Tracking(Backward, run, n, s, p)
    requires n == |run| || !s.Relevant(Pending(Backward, run, n, s), p)
    ensures s.Tolerant(p) == Fold(run, p) <==> !Swallowed(run, p)
    ensures Swallowed(run, p) ==> Lt(Fold(run, p), s.Tolerant(p))
    ensures s.Tolerant(p) == Landing(Backward, run, p)
  {
    hide StandsFor, Landing, Swallowed, Fold, Sorted;
    var m := |run| - n;
    PendingUntouched(run, n, s, p);
    if 0 < m < |run| {
      NoMeetingAhead(run, n, s, p);
    }
    DoneIsSorted(run, m);
    SwallowedIsDone(run, m, p);
    DoneNotSwallowed(run, n, s, p);
    ReadOff(s, run[m..], p);
  }

  lemma DoneNotSwallowed(run: seq<Change>, n: nat, s: Shift, p: Coord)
    requires Tracking(Backward, run, n, s, p)
    ensures Le(s.was, p) ==> !Swallowed(run[|run| - n..], p)
  {
    hide StandsFor;
    if 0 < n && Le(s.was, p) {
      assert WellFormedChange(run[|run| - n]);
      NotSwallowedAbove(run, |run| - n, p);
    }
  }

  lemma ReadOff(s: Shift, done: seq<Change>, p: Coord)
    requires StandsFor(Backward, s, done, p) && NonNegative(p) && (Le(s.was, p) ==> !Swallowed(done, p))
    ensures s.Tolerant(p) == Landing(Backward, done, p)
    ensures s.Tolerant(p) == Fold(done, p) <==> !Swallowed(done, p)
    ensures Swallowed(done, p) ==> Lt(Fold(done, p), s.Tolerant(p))
  {
    hide Swallowed, Fold;
  }

  lemma SwallowedIsDone(run: seq<Change>, m: nat, p: Coord)
    requires m <= |run| && Sorted(Backward, run) && Sorted(Backward, run[m..]) && Fold(run, p) == Fold(run[m..], p)
    requires forall i :: 0 <= i < m ==> Le(p, run[i].begin)
    requires 0 < m < |run| ==> !Meets(run[m - 1], run[m])
    ensures Swallowed(run, p) <==> Swallowed(run[m..], p)
    ensures Landing(Backward, run, p) == Landing(Backward, run[m..], p)
  {
    hide Fold;
    var done := run[m..];
    if Swallowed(run, p) {
      var i :| 0 < i < |run| && SwallowedAt(run, i, p);
      assert m < i && SwallowedAt(done, i - m, p);
      LandsBehindInsertion(run, i, p);
      LandsBehindInsertion(done, i - m, p);
      assert run[i..] == done[i - m..];
    }
    if Swallowed(done, p) {
      var i :| 0 < i < |done| && SwallowedAt(done, i, p);
      assert SwallowedAt(run, m + i, p);
    }
  }

  /** An insertion, and then an erase of the text in front of it: a place in the erased text is
      sent behind the insertion, where mapping it through each change sends it before. */
  lemma SwallowedExample()
    ensures var run := [Change(Insert, Coord(0, 5), Coord(0, 8)), Change(Erase, Coord(0, 2), Coord(0, 5))];
      var p := Coord(0, 3);
      var s := START.After(run[1]);
      && Sorted(Backward, run) && START.Relevant(run[1], p)
      && s.Relevant(Pending(Backward, run, 1, s), p)
      && s.After(Pending(Backward, run, 1, s)).Tolerant(p) == Coord(0, 5) && Fold(run, p) == Coord(0, 2)
  {
    var run, p := [Change(Insert, Coord(0, 5), Coord(0, 8)), Change(Erase, Coord(0, 2), Coord(0, 5))], Coord(0, 3);
    assert EarlierThanPrevious(run, 1);
    assert run[1..] == [run[1]] && run[1..][1..] == [];
    assert MapThrough(run[0], p) == p;
  }
}
