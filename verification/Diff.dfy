/** Linear-space difference of two sequences, as a script of merged Keep/Add/Remove steps. */
module Diff {
  import opened EditPaths
  import Sequences
  import Snakes

  datatype DiffOp = Keep | Add | Remove

  datatype Step = Step(op: DiffOp, len: int)

  const COST_LIMIT := 1000

  // ----- scripts

  /** The script accounts for all of `a` and all of `b`, and keeps only equal elements. */
  ghost predicate Script<T>(s: seq<Step>, a: seq<T>, b: seq<T>) {
    if s == [] then a == [] && b == []
    else
      var s', step := s[..|s| - 1], s[|s| - 1];
      var i, j := |a| - step.len, |b| - step.len;
      0 < step.len &&
      match step.op
      case Keep => 0 <= i && 0 <= j && a[i..] == b[j..] && Script(s', a[..i], b[..j])
      case Add => 0 <= j && Script(s', a, b[..j])
      case Remove => 0 <= i && Script(s', a[..i], b)
  }

  /** No step could be merged with its neighbour. */
  ghost predicate Merged(s: seq<Step>) {
    forall i :: 0 < i < |s| ==> s[i - 1].op != s[i].op
  }

  /** What following the script produces: kept elements of `a` and added elements of `b`. */
  ghost function Follow<T>(s: seq<Step>, a: seq<T>, b: seq<T>): seq<T>
    requires Script(s, a, b)
  {
    if s == [] then []
    else
      var s', step := s[..|s| - 1], s[|s| - 1];
      match step.op
      case Keep => Follow(s', a[..|a| - step.len], b[..|b| - step.len]) + a[|a| - step.len..]
      case Add => Follow(s', a, b[..|b| - step.len]) + b[|b| - step.len..]
      case Remove => Follow(s', a[..|a| - step.len], b)
  }

  lemma {:induction false} FollowGivesTarget<T>(s: seq<Step>, a: seq<T>, b: seq<T>)
    requires Script(s, a, b)
    ensures Follow(s, a, b) == b
  {
    if s != [] {
      var s', step := s[..|s| - 1], s[|s| - 1];
      var i, j := |a| - step.len, |b| - step.len;
      match step.op
      case Keep => FollowGivesTarget(s', a[..i], b[..j]);
      case Add => FollowGivesTarget(s', a, b[..j]);
      case Remove => FollowGivesTarget(s', a[..i], b);
    }
  }

  /** The script extended by one step, merged into the last one if that has the same kind. */
  function Push(s: seq<Step>, op: DiffOp, len: int): seq<Step> {
    if s != [] && s[|s| - 1].op == op then s[..|s| - 1] + [Step(op, s[|s| - 1].len + len)]
    else s + [Step(op, len)]
  }

  lemma PushMerged(s: seq<Step>, op: DiffOp, len: int)
    requires Merged(s)
    ensures Merged(Push(s, op, len))
  {
  }

  lemma PushKeep<T>(s: seq<Step>, a: seq<T>, b: seq<T>, i: nat, j: nat, n: nat)
    requires 0 < n && i + n <= |a| && j + n <= |b| && a[i..i + n] == b[j..j + n]
    requires Script(s, a[..i], b[..j])
    ensures Script(Push(s, Keep, n), a[..i + n], b[..j + n])
  {
    TailOfTake(a, i + n, n);
    TailOfTake(b, j + n, n);
    if s != [] && s[|s| - 1].op == Keep {
      var l := s[|s| - 1].len;
      var p := Push(s, Keep, n);
      assert p[..|p| - 1] == s[..|s| - 1];
      TailOfTake(a, i, l);
      TailOfTake(b, j, l);
      TailOfTake(a, i + n, n + l);
      TailOfTake(b, j + n, n + l);
      Sequences.SliceParts(a, i - l, i, i + n);
      Sequences.SliceParts(b, j - l, j, j + n);
    } else {
      assert (s + [Step(Keep, n)])[..|s|] == s;
    }
  }

  lemma TailOfTake<T>(a: seq<T>, i: nat, n: nat)
    requires n <= i <= |a|
    ensures a[..i][i - n..] == a[i - n..i] && a[..i][..i - n] == a[..i - n]
  {
  }

  lemma PushAdd<T>(s: seq<Step>, a: seq<T>, b: seq<T>, i: nat, j: nat, n: nat)
    requires 0 < n && i <= |a| && j + n <= |b|
    requires Script(s, a[..i], b[..j])
    ensures Script(Push(s, Add, n), a[..i], b[..j + n])
  {
    var y := b[..j + n];
    if s != [] && s[|s| - 1].op == Add {
      var l := s[|s| - 1].len;
      var p := Push(s, Add, n);
      assert p[..|p| - 1] == s[..|s| - 1];
      assert y[..j - l] == b[..j][..j - l];
    } else {
      assert y[..j] == b[..j];
      assert (s + [Step(Add, n)])[..|s|] == s;
    }
  }

  lemma PushRemove<T>(s: seq<Step>, a: seq<T>, b: seq<T>, i: nat, j: nat, n: nat)
    requires 0 < n && i + n <= |a| && j <= |b|
    requires Script(s, a[..i], b[..j])
    ensures Script(Push(s, Remove, n), a[..i + n], b[..j])
  {
    var x := a[..i + n];
    if s != [] && s[|s| - 1].op == Remove {
      var l := s[|s| - 1].len;
      var p := Push(s, Remove, n);
      assert p[..|p| - 1] == s[..|s| - 1];
      assert x[..i - l] == a[..i][..i - l];
    } else {
      assert x[..i] == a[..i];
      assert (s + [Step(Remove, n)])[..|s|] == s;
    }
  }

  // ----- the number of edits

  /** How many elements the script drops or takes. */
  function Edits(s: seq<Step>): int {
    if s == [] then 0
    else Edits(s[..|s| - 1]) + if s[|s| - 1].op == Keep then 0 else s[|s| - 1].len
  }

  lemma EditsOfPush(s: seq<Step>, op: DiffOp, len: int)
    ensures Edits(Push(s, op, len)) == Edits(s) + if op == Keep then 0 else len
  {
    var p := Push(s, op, len);
    assert p[..|p| - 1] == if s != [] && s[|s| - 1].op == op then s[..|s| - 1] else s;
  }

  /** A script is a path with as many edits. */
  lemma {:induction false} ScriptIsPath<T>(s: seq<Step>, a: seq<T>, b: seq<T>)
    requires Script(s, a, b)
    ensures Reach(true, a, b, Edits(s), |a|, |b|)
  {
    if s != [] {
      var s', step := s[..|s| - 1], s[|s| - 1];
      var i := if step.op == Add then |a| else |a| - step.len;
      var j := if step.op == Remove then |b| else |b| - step.len;
      assert a[..|a|] == a && b[..|b|] == b;
      ScriptIsPath(s', a[..i], b[..j]);
      ReachInPart(true, a[..i], b[..j], a, b, Edits(s'), i, j);
      match step.op
      case Keep => WalkDiagonal(a, b, Edits(s'), i, j, step.len);
      case Add => WalkDown(a, b, Edits(s'), i, j, step.len);
      case Remove => WalkRight(a, b, Edits(s'), i, j, step.len);
    }
  }

  lemma {:induction false} WalkDiagonal<T>(a: seq<T>, b: seq<T>, d: int, x: nat, y: nat, n: nat)
    requires Reach(true, a, b, d, x, y) && x + n <= |a| && y + n <= |b| && a[x..x + n] == b[y..y + n]
    ensures Reach(true, a, b, d, x + n, y + n)
  {
    if n != 0 {
      assert a[x..x + n][..n - 1] == a[x..x + n - 1] && b[y..y + n][..n - 1] == b[y..y + n - 1];
      WalkDiagonal(a, b, d, x, y, n - 1);
      assert a[x..x + n][n - 1] == b[y..y + n][n - 1];
      assert Matches(true, a, b, x + n, y + n);
    }
  }

  lemma {:induction false} WalkDown<T>(a: seq<T>, b: seq<T>, d: int, x: nat, y: nat, n: nat)
    requires Reach(true, a, b, d, x, y)
    ensures Reach(true, a, b, d + n, x, y + n)
  {
    if n != 0 {
      WalkDown(a, b, d, x, y, n - 1);
    }
  }

  lemma {:induction false} WalkRight<T>(a: seq<T>, b: seq<T>, d: int, x: nat, y: nat, n: nat)
    requires Reach(true, a, b, d, x, y)
    ensures Reach(true, a, b, d + n, x + n, y)
  {
    if n != 0 {
      WalkRight(a, b, d, x, y, n - 1);
    }
  }

  /** What the search promises about the number of edits it reports: as few as any path has, unless that is beyond
      the cost limit. */
  ghost predicate Fewest<T>(a: seq<T>, b: seq<T>, costLimit: int, edits: int) {
    forall e :: HasPath(a, b, e) && e <= 2 * costLimit - 2 ==> edits <= e
  }

  /** Equal ends add nothing. */
  lemma FewestWithEnds<T>(a: seq<T>, b: seq<T>, p: nat, q: nat, costLimit: int, edits: int)
    requires p + q <= |a| && p + q <= |b|
    requires Fewest(a[p..|a| - q], b[p..|b| - q], costLimit, edits)
    ensures Fewest(a, b, costLimit, edits)
  {
    forall e | HasPath(a, b, e) && e <= 2 * costLimit - 2 ensures edits <= e {
      PathBehindPrefix(a, b, p, e);
      PathBeforeSuffix(a[p..], b[p..], q, e);
      assert a[p..][..|a| - p - q] == a[p..|a| - q] && b[p..][..|b| - p - q] == b[p..|b| - q];
    }
  }

  /** With nothing left on one side, everything on the other side is an edit. */
  lemma FewestOneSided<T>(a: seq<T>, b: seq<T>, costLimit: int)
    requires a == [] || b == []
    ensures Fewest(a, b, costLimit, |a| + |b|)
  {
    forall e | HasPath(a, b, e) && e <= 2 * costLimit - 2 ensures |a| + |b| <= e {
      PathIsLong(a, b, e);
    }
  }

  /** The two parts around a middle snake, and the edit of the snake. */
  lemma FewestAroundSnake<T>(a: seq<T>, b: seq<T>, s: Snakes.Snake, costLimit: int, edits1: int, edits2: int)
    requires Snakes.SnakeFits(a, b, s) && 0 < costLimit
    requires Snakes.OnShortestPath(a, b, s) || NoPath(a, b, 2 * costLimit - 2)
    requires Fewest(a[..Snakes.BeforeA(s)], b[..Snakes.BeforeB(s)], costLimit, edits1)
    requires Fewest(a[Snakes.AfterA(s)..], b[Snakes.AfterB(s)..], costLimit, edits2)
    ensures Fewest(a, b, costLimit, edits1 + 1 + edits2)
  {
    forall e | HasPath(a, b, e) && e <= 2 * costLimit - 2 ensures edits1 + 1 + edits2 <= e {
      assert Snakes.OnShortestPath(a, b, s) by {
        if NoPath(a, b, 2 * costLimit - 2) {
          Snakes.PathExists(a, b, e, 2 * costLimit - 2);
        }
      }
      assert Snakes.SplitsWithin(a, b, s, e);
      var d1, d2 :| d1 + 1 + d2 <= e
        && HasPath(a[..Snakes.BeforeA(s)], b[..Snakes.BeforeB(s)], d1)
        && HasPath(a[Snakes.AfterA(s)..], b[Snakes.AfterB(s)..], d2);
      PathIsLong(a[..Snakes.BeforeA(s)], b[..Snakes.BeforeB(s)], d1);
      PathIsLong(a[Snakes.AfterA(s)..], b[Snakes.AfterB(s)..], d2);
    }
  }

  // ----- what is reported is not taken back

  /** The script goes on from where `s` ended, perhaps within its last step. */
  ghost predicate GoesOn(s: seq<Step>, t: seq<Step>) {
    s == [] ||
    (var n := |s| - 1;
     |s| <= |t| && t[..n] == s[..n] && t[n].op == s[n].op && s[n].len <= t[n].len)
  }

  lemma GoesOnTransitive(s: seq<Step>, t: seq<Step>, u: seq<Step>)
    requires GoesOn(s, t) && GoesOn(t, u)
    ensures GoesOn(s, u)
  {
    if s != [] && |s| < |t| {
      assert u[..|t| - 1] == t[..|t| - 1];
      assert u[..|s| - 1] == u[..|t| - 1][..|s| - 1] && t[..|s| - 1] == t[..|t| - 1][..|s| - 1];
      assert u[|s| - 1] == u[..|t| - 1][|s| - 1] && t[|s| - 1] == t[..|t| - 1][|s| - 1];
    }
  }

  lemma PushGoesOn(s: seq<Step>, op: DiffOp, len: int)
    requires 0 <= len
    ensures GoesOn(s, Push(s, op, len))
    ensures var p := Push(s, op, len); p[|p| - 1].op == op
    ensures (s != [] ==> 0 <= s[|s| - 1].len) ==> (var p := Push(s, op, len); len <= p[|p| - 1].len)
  {
  }

  /** `p` equal elements at the front, `q` more at the back, and no more on either side. */
  ghost predicate CommonEnds<T>(a: seq<T>, b: seq<T>, p: nat, q: nat) {
    && p + q <= |a| && p + q <= |b|
    && a[..p] == b[..p] && a[|a| - q..] == b[|b| - q..]
    && (p < |a| && p < |b| ==> a[p] != b[p])
    && (p + q < |a| && p + q < |b| ==> a[|a| - q - 1] != b[|b| - q - 1])
  }

  /** The equal elements at both ends are kept. */
  ghost predicate KeepsEnds(before: seq<Step>, after: seq<Step>, p: nat, q: nat) {
    && GoesOn(before, after)
    && (0 < p ==> GoesOn(Push(before, Keep, p), after))
    && (0 < q ==> after != [] && after[|after| - 1].op == Keep && q <= after[|after| - 1].len)
  }

  /** What is reported for a pair of ranges: a script for them that goes on from the one before, with as few edits as
      possible within the cost limit. */
  ghost predicate Reported<T>(before: seq<Step>, after: seq<Step>, a: seq<T>, begA: int, endA: int,
                              b: seq<T>, begB: int, endB: int, costLimit: int)
    requires 0 <= begA <= endA <= |a| && 0 <= begB <= endB <= |b|
  {
    && Script(after, a[..endA], b[..endB]) && GoesOn(before, after)
    && Fewest(a[begA..endA], b[begB..endB], costLimit, Edits(after) - Edits(before))
  }

  lemma ReportedScript<T>(before: seq<Step>, after: seq<Step>, a: seq<T>, begA: int, endA: int,
                          b: seq<T>, begB: int, endB: int, costLimit: int)
    requires 0 <= begA <= endA <= |a| && 0 <= begB <= endB <= |b|
    requires Reported(before, after, a, begA, endA, b, begB, endB, costLimit)
    ensures Script(after, a[..endA], b[..endB])
  {
  }

  /** The equal ends put around what lies between them. */
  lemma EndsReported<T>(s0: seq<Step>, s1: seq<Step>, s2: seq<Step>, s3: seq<Step>, a: seq<T>, begA: int, endA: int,
                        b: seq<T>, begB: int, endB: int, p: nat, q: nat, costLimit: int)
    requires 0 <= begA <= endA <= |a| && 0 <= begB <= endB <= |b|
    requires begA + p <= endA - q && begB + p <= endB - q
    requires s1 == (if p == 0 then s0 else Push(s0, Keep, p)) && s3 == if q == 0 then s2 else Push(s2, Keep, q)
    requires Reported(s1, s2, a, begA + p, endA - q, b, begB + p, endB - q, costLimit)
    requires Script(s3, a[..endA], b[..endB])
    ensures Reported(s0, s3, a, begA, endA, b, begB, endB, costLimit) && KeepsEnds(s0, s3, p, q)
  {
    hide Script, Fewest, GoesOn, Edits, Push;
    EditsOfPush(s0, Keep, p);
    EditsOfPush(s2, Keep, q);
    PushGoesOn(s0, Keep, p);
    PushGoesOn(s2, Keep, q);
    LastIsPositive(s2, a[..endA - q], b[..endB - q]);
    GoesOnTransitive(s0, s1, s2);
    GoesOnTransitive(s0, s2, s3);
    GoesOnTransitive(s1, s2, s3);
    MiddleOfRange(a, begA, endA, p, q);
    MiddleOfRange(b, begB, endB, p, q);
    FewestWithEnds(a[begA..endA], b[begB..endB], p, q, costLimit, Edits(s3) - Edits(s0));
    assert KeepsEnds(s0, s3, p, q) by {
      NotEmptyPushed(s2, Keep, q);
    }
  }

  lemma LastIsPositive<T>(s: seq<Step>, a: seq<T>, b: seq<T>)
    requires Script(s, a, b)
    ensures s != [] ==> 0 < s[|s| - 1].len
  {
  }

  lemma NotEmptyPushed(s: seq<Step>, op: DiffOp, len: int)
    ensures Push(s, op, len) != []
  {
  }

  lemma MiddleOfRange<T>(a: seq<T>, begin: int, end: int, p: nat, q: nat)
    requires 0 <= begin <= end <= |a| && begin + p <= end - q
    ensures a[begin..end][p..end - begin - q] == a[begin + p..end - q]
  {
    Sequences.SliceOfSlice(a, begin, end, p, end - begin - q, begin + p, end - q);
  }

  lemma CommonEndsOfRange<T>(a: seq<T>, begA: int, endA: int, b: seq<T>, begB: int, endB: int, p: nat, q: nat)
    requires 0 <= begA <= endA <= |a| && 0 <= begB <= endB <= |b|
    requires begA + p <= endA - q && begB + p <= endB - q
    requires a[begA..begA + p] == b[begB..begB + p] && a[endA - q..endA] == b[endB - q..endB]
    requires begA + p != endA && begB + p != endB ==> a[begA + p] != b[begB + p]
    requires begA + p != endA - q && begB + p != endB - q ==> a[endA - q - 1] != b[endB - q - 1]
    ensures CommonEnds(a[begA..endA], b[begB..endB], p, q)
  {
    EndsOfRange(a, begA, endA, p, q);
    EndsOfRange(b, begB, endB, p, q);
  }

  lemma EndsOfRange<T>(a: seq<T>, begin: int, end: int, p: nat, q: nat)
    requires 0 <= begin <= end <= |a| && begin + p <= end - q
    ensures a[begin..end][..p] == a[begin..begin + p]
    ensures a[begin..end][end - begin - q..] == a[end - q..end]
    ensures begin + p < end ==> a[begin..end][p] == a[begin + p]
    ensures begin + p < end - q ==> a[begin..end][end - begin - q - 1] == a[end - q - 1]
  {
    PartsOfRange(a, begin, end, p, end - begin - q);
  }

  /** One side only: one step. */
  lemma OneSideReported<T>(s1: seq<Step>, s2: seq<Step>, a: seq<T>, begA: int, endA: int, b: seq<T>, begB: int,
                           endB: int, costLimit: int)
    requires 0 <= begA <= endA <= |a| && 0 <= begB <= endB <= |b| && (begA == endA || begB == endB)
    requires Script(s2, a[..endA], b[..endB]) && GoesOn(s1, s2)
    requires Edits(s2) == Edits(s1) + (endA - begA) + (endB - begB)
    ensures Reported(s1, s2, a, begA, endA, b, begB, endB, costLimit)
  {
    FewestOneSided(a[begA..endA], b[begB..endB], costLimit);
  }

  /** A middle snake between two reported parts. */
  lemma SnakeReported<T>(s0: seq<Step>, s1: seq<Step>, s2: seq<Step>, s3: seq<Step>, a: seq<T>, begA: int, endA: int,
                         b: seq<T>, begB: int, endB: int, s: Snakes.Snake, costLimit: int)
    requires 0 <= begA <= endA <= |a| && 0 <= begB <= endB <= |b| && 0 < costLimit
    requires Snakes.SnakeFits(a[begA..endA], b[begB..endB], s)
    requires Snakes.OnShortestPath(a[begA..endA], b[begB..endB], s)
          || NoPath(a[begA..endA], b[begB..endB], 2 * costLimit - 2)
    requires Reported(s0, s1, a, begA, begA + Snakes.BeforeA(s), b, begB, begB + Snakes.BeforeB(s), costLimit)
    requires GoesOn(s1, s2) && Edits(s2) == Edits(s1) + 1
    requires Reported(s2, s3, a, begA + Snakes.AfterA(s), endA, b, begB + Snakes.AfterB(s), endB, costLimit)
    ensures Reported(s0, s3, a, begA, endA, b, begB, endB, costLimit)
  {
    hide Reach, Fewest, Script, Snakes.OnShortestPath, NoPath, Snakes.SnakeFits;
    Snakes.SnakeInGrid(a[begA..endA], b[begB..endB], s);
    GoesOnTransitive(s0, s1, s2);
    GoesOnTransitive(s0, s2, s3);
    PartsOfRange(a, begA, endA, Snakes.BeforeA(s), Snakes.AfterA(s));
    PartsOfRange(b, begB, endB, Snakes.BeforeB(s), Snakes.AfterB(s));
    FewestAroundSnake(a[begA..endA], b[begB..endB], s, costLimit, Edits(s1) - Edits(s0), Edits(s3) - Edits(s2));
  }

  lemma PartsOfRange<T>(a: seq<T>, begin: int, end: int, i: int, j: int)
    requires 0 <= begin <= end <= |a| && 0 <= i <= end - begin && 0 <= j <= end - begin
    ensures a[begin..end][..i] == a[begin..begin + i] && a[begin..end][j..] == a[begin + j..end]
  {
  }

  // ----- the search

  /** The callback of `for_each_diff`, with the step it is still extending. */
  class Merger {
    var last: Step
    var output: seq<Step>

    ghost predicate Valid() reads this {
      && Merged(Emitted())
      && 0 <= last.len
      && (last.len == 0 ==> last.op == Keep && output == [])
    }

    /** The script so far. */
    ghost function Emitted(): seq<Step> reads this {
      if last.len == 0 then output else output + [last]
    }

    constructor ()
      ensures Valid() && Emitted() == []
    {
      last := Step(Keep, 0);
      output := [];
    }

    method OnDiff(op: DiffOp, len: int)
      requires Valid() && 0 < len
      modifies this
      ensures Valid() && Emitted() == Push(old(Emitted()), op, len)
    {
      PushMerged(Emitted(), op, len);
      ghost var before := Emitted();
      if last.op == op {
        last := last.(len := last.len + len);
        assert before != [] ==> before[..|before| - 1] == output;
      } else {
        if last.len != 0 {
          output := output + [last];
        }
        last := Step(op, len);
      }
    }

    /** `on_diff_ifn`: a step of length 0 is no step. */
    method OnDiffIfNonEmpty(op: DiffOp, len: int)
      requires Valid() && 0 <= len
      modifies this
      ensures Valid() && Emitted() == if len == 0 then old(Emitted()) else Push(old(Emitted()), op, len)
    {
      if len != 0 {
        OnDiff(op, len);
      }
    }
  }

  /** The prefixes reached after a step of `n` elements from (i, j). */
  ghost predicate StepsTo<T>(a: seq<T>, b: seq<T>, op: DiffOp, n: int, i: int, j: int, i': int, j': int) {
    && 0 <= n && 0 <= i <= i' <= |a| && 0 <= j <= j' <= |b|
    && i' == (if op == Add then i else i + n)
    && j' == (if op == Remove then j else j + n)
    && (op == Keep ==> a[i..i'] == b[j..j'])
  }

  lemma KeepSteps<T>(a: seq<T>, b: seq<T>, n: int, i: int, j: int)
    requires 0 <= n && 0 <= i <= i + n <= |a| && 0 <= j <= j + n <= |b| && a[i..i + n] == b[j..j + n]
    ensures StepsTo(a, b, Keep, n, i, j, i + n, j + n)
  {
  }

  lemma EditSteps<T>(a: seq<T>, b: seq<T>, op: DiffOp, n: int, i: int, j: int)
    requires 0 <= n && 0 <= i <= |a| && 0 <= j <= |b|
    ensures op == Add && j + n <= |b| ==> StepsTo(a, b, op, n, i, j, i, j + n)
    ensures op == Remove && i + n <= |a| ==> StepsTo(a, b, op, n, i, j, i + n, j)
  {
  }

  lemma StepTo<T>(s: seq<Step>, a: seq<T>, b: seq<T>, op: DiffOp, n: int, i: int, j: int, i': int, j': int)
    requires StepsTo(a, b, op, n, i, j, i', j') && Script(s, a[..i], b[..j])
    ensures Script(if n == 0 then s else Push(s, op, n), a[..i'], b[..j'])
  {
    if n != 0 {
      match op
      case Keep => PushKeep(s, a, b, i, j, n);
      case Add => PushAdd(s, a, b, i, j, n);
      case Remove => PushRemove(s, a, b, i, j, n);
    }
  }

  /** Report a step and account for it. */
  method Emit<T>(sink: Merger, op: DiffOp, n: int, ghost a: seq<T>, ghost b: seq<T>,
                 ghost i: int, ghost j: int, ghost i': int, ghost j': int)
    requires sink.Valid() && StepsTo(a, b, op, n, i, j, i', j')
    requires Script(sink.Emitted(), a[..i], b[..j])
    modifies sink
    ensures sink.Valid() && Script(sink.Emitted(), a[..i'], b[..j'])
    ensures sink.Emitted() == if n == 0 then old(sink.Emitted()) else Push(old(sink.Emitted()), op, n)
    ensures Edits(sink.Emitted()) == old(Edits(sink.Emitted())) + (if op == Keep then 0 else n)
    ensures GoesOn(old(sink.Emitted()), sink.Emitted())
  {
    StepTo(sink.Emitted(), a, b, op, n, i, j, i', j');
    EditsOfPush(sink.Emitted(), op, n);
    PushGoesOn(sink.Emitted(), op, n);
    sink.OnDiffIfNonEmpty(op, n);
  }

  method CommonPrefix<T(==)>(a: seq<T>, begA: nat, endA: nat, b: seq<T>, begB: nat, endB: nat) returns (n: nat)
    requires begA <= endA <= |a| && begB <= endB <= |b|
    ensures begA + n <= endA && begB + n <= endB
    ensures a[begA..begA + n] == b[begB..begB + n]
    ensures begA + n != endA && begB + n != endB ==> a[begA + n] != b[begB + n]
  {
    n := 0;
    while begA + n != endA && begB + n != endB && a[begA + n] == b[begB + n]
      invariant begA + n <= endA && begB + n <= endB
      invariant a[begA..begA + n] == b[begB..begB + n]
      decreases endA - n
    {
      assert a[begA..begA + n + 1] == a[begA..begA + n] + [a[begA + n]];
      assert b[begB..begB + n + 1] == b[begB..begB + n] + [b[begB + n]];
      n := n + 1;
    }
  }

  method CommonSuffix<T(==)>(a: seq<T>, begA: nat, endA: nat, b: seq<T>, begB: nat, endB: nat) returns (n: nat)
    requires begA <= endA <= |a| && begB <= endB <= |b|
    ensures begA <= endA - n && begB <= endB - n
    ensures a[endA - n..endA] == b[endB - n..endB]
    ensures begA != endA - n && begB != endB - n ==> a[endA - n - 1] != b[endB - n - 1]
  {
    n := 0;
    while begA != endA - n && begB != endB - n && a[endA - n - 1] == b[endB - n - 1]
      invariant begA <= endA - n && begB <= endB - n
      invariant a[endA - n..endA] == b[endB - n..endB]
      decreases endA - n
    {
      assert a[endA - n - 1..endA] == [a[endA - n - 1]] + a[endA - n..endA];
      assert b[endB - n - 1..endB] == [b[endB - n - 1]] + b[endB - n..endB];
      n := n + 1;
    }
  }

  /** `p` and `q` are the numbers of equal elements at the two ends. */
  method FindDiffRec<T(==)>(a: seq<T>, begA: int, endA: int, b: seq<T>, begB: int, endB: int,
                            data: array<int>, o1: int, o2: int, costLimit: int, sink: Merger)
      returns (ghost p: nat, ghost q: nat)
    requires 0 <= begA <= endA <= |a| && 0 <= begB <= endB <= |b| && 0 < costLimit
    requires endA - begA + endB - begB <= o1 && o1 + endA - begA + endB - begB < o2 - (endA - begA + endB - begB)
    requires o2 + endA - begA + endB - begB < data.Length
    requires sink.Valid() && Script(sink.Emitted(), a[..begA], b[..begB])
    modifies data, sink
    ensures sink.Valid() && Reported(old(sink.Emitted()), sink.Emitted(), a, begA, endA, b, begB, endB, costLimit)
    ensures CommonEnds(a[begA..endA], b[begB..endB], p, q) && KeepsEnds(old(sink.Emitted()), sink.Emitted(), p, q)
    decreases endA - begA + endB - begB, 2
  {
    hide Script, Reported, GoesOn, Edits, CommonEnds, KeepsEnds, Merged, StepsTo;
    ghost var s0 := sink.Emitted();
    var prefixLen := CommonPrefix(a, begA, endA, b, begB, endB);
    var begA', begB' := begA + prefixLen, begB + prefixLen;
    var suffixLen := CommonSuffix(a, begA', endA, b, begB', endB);
    var endA', endB' := endA - suffixLen, endB - suffixLen;
    CommonEndsOfRange(a, begA, endA, b, begB, endB, prefixLen, suffixLen);
    KeepSteps(a, b, prefixLen, begA, begB);
    Emit(sink, Keep, prefixLen, a, b, begA, begB, begA', begB');
    ghost var s1 := sink.Emitted();

    DiffBetweenEnds(a, begA', endA', b, begB', endB', data, o1, o2, costLimit, sink);
    ghost var s2 := sink.Emitted();
    ReportedScript(s1, s2, a, begA', endA', b, begB', endB', costLimit);
    KeepSteps(a, b, suffixLen, endA', endB');
    Emit(sink, Keep, suffixLen, a, b, endA', endB', endA, endB);
    EndsReported(s0, s1, s2, sink.Emitted(), a, begA, endA, b, begB, endB, prefixLen, suffixLen, costLimit);
    p, q := prefixLen, suffixLen;
  }

  /** What lies between the equal ends. */
  method DiffBetweenEnds<T(==)>(a: seq<T>, begA: int, endA: int, b: seq<T>, begB: int, endB: int,
                                data: array<int>, o1: int, o2: int, costLimit: int, sink: Merger)
    requires 0 <= begA <= endA <= |a| && 0 <= begB <= endB <= |b| && 0 < costLimit
    requires begA < endA && begB < endB ==> a[begA] != b[begB]
    requires endA - begA + endB - begB <= o1 && o1 + endA - begA + endB - begB < o2 - (endA - begA + endB - begB)
    requires o2 + endA - begA + endB - begB < data.Length
    requires sink.Valid() && Script(sink.Emitted(), a[..begA], b[..begB])
    modifies data, sink
    ensures sink.Valid() && Reported(old(sink.Emitted()), sink.Emitted(), a, begA, endA, b, begB, endB, costLimit)
    decreases endA - begA + endB - begB, 1
  {
    hide Script, Reported, GoesOn, Edits, Merged, StepsTo;
    var lenA, lenB := endA - begA, endB - begB;
    ghost var s0 := sink.Emitted();
    if lenA == 0 {
      EditSteps(a, b, Add, lenB, begA, begB);
      Emit(sink, Add, lenB, a, b, begA, begB, endA, endB);
      OneSideReported(s0, sink.Emitted(), a, begA, endA, b, begB, endB, costLimit);
    } else if lenB == 0 {
      EditSteps(a, b, Remove, lenA, begA, begB);
      Emit(sink, Remove, lenA, a, b, begA, begB, endA, endB);
      OneSideReported(s0, sink.Emitted(), a, begA, endA, b, begB, endB, costLimit);
    } else {
      DiffAroundSnake(a, begA, endA, b, begB, endB, data, o1, o2, costLimit, sink);
    }
  }

  /** The two sides of the middle snake, with the snake in between. */
  method DiffAroundSnake<T(==)>(a: seq<T>, begA: int, endA: int, b: seq<T>, begB: int, endB: int,
                                data: array<int>, o1: int, o2: int, costLimit: int, sink: Merger)
    requires 0 <= begA < endA <= |a| && 0 <= begB < endB <= |b| && 0 < costLimit
    requires a[begA] != b[begB]
    requires endA - begA + endB - begB <= o1 && o1 + endA - begA + endB - begB < o2 - (endA - begA + endB - begB)
    requires o2 + endA - begA + endB - begB < data.Length
    requires sink.Valid() && Script(sink.Emitted(), a[..begA], b[..begB])
    modifies data, sink
    ensures sink.Valid() && Reported(old(sink.Emitted()), sink.Emitted(), a, begA, endA, b, begB, endB, costLimit)
    decreases endA - begA + endB - begB, 0
  {
    hide Script, Reported, GoesOn, Edits, CommonEnds, KeepsEnds, Merged, StepsTo;
    hide Snakes.OnShortestPath, Snakes.BestSnake, NoPath;
    ghost var s0 := sink.Emitted();
    var s := Snakes.FindMiddleSnake(a[begA..endA], b[begB..endB], data, o1, o2, costLimit);
    var x, y, u, v := begA + s.x, begB + s.y, begA + s.u, begB + s.v;
    var beforeA, beforeB := x - (if s.op == Snakes.Del then 1 else 0), y - (if s.op == Snakes.Add then 1 else 0);
    var afterA, afterB := u + (if s.op == Snakes.RevDel then 1 else 0), v + (if s.op == Snakes.RevAdd then 1 else 0);
    Sequences.SliceOfSlice(a, begA, endA, s.x, s.u, x, u);
    Sequences.SliceOfSlice(b, begB, endB, s.y, s.v, y, v);

    ghost var p, q := FindDiffRec(a, begA, beforeA, b, begB, beforeB, data, o1, o2, costLimit, sink);
    ghost var s1 := sink.Emitted();
    ReportedScript(s0, s1, a, begA, beforeA, b, begB, beforeB, costLimit);
    KeepSteps(a, b, u - x, x, y);
    EmitSnake(sink, s.op, u - x, a, b, beforeA, beforeB, x, y, u, v, afterA, afterB);
    ghost var s2 := sink.Emitted();
    p, q := FindDiffRec(a, afterA, endA, b, afterB, endB, data, o1, o2, costLimit, sink);
    SnakeReported(s0, s1, s2, sink.Emitted(), a, begA, endA, b, begB, endB, s, costLimit);
  }

  /** The snake itself, from (x, y) to (u, v): its edit comes before or after its diagonal. */
  method EmitSnake<T>(sink: Merger, op: Snakes.SnakeOp, n: int, ghost a: seq<T>, ghost b: seq<T>,
                      ghost beforeA: int, ghost beforeB: int, ghost x: int, ghost y: int,
                      ghost u: int, ghost v: int, ghost afterA: int, ghost afterB: int)
    requires StepsTo(a, b, Keep, n, x, y, u, v)
    requires 0 <= beforeA == x - (if op == Snakes.Del then 1 else 0)
    requires 0 <= beforeB == y - (if op == Snakes.Add then 1 else 0)
    requires |a| >= afterA == u + (if op == Snakes.RevDel then 1 else 0)
    requires |b| >= afterB == v + (if op == Snakes.RevAdd then 1 else 0)
    requires sink.Valid() && Script(sink.Emitted(), a[..beforeA], b[..beforeB])
    modifies sink
    ensures sink.Valid() && Script(sink.Emitted(), a[..afterA], b[..afterB])
    ensures GoesOn(old(sink.Emitted()), sink.Emitted()) && Edits(sink.Emitted()) == old(Edits(sink.Emitted())) + 1
  {
    hide Script, GoesOn, Edits, Merged, StepsTo, Push;
    ghost var s0 := sink.Emitted();
    GoesOnItself(s0);
    SnakeSteps(a, b, op, n, beforeA, beforeB, x, y, u, v, afterA, afterB);
    if op == Snakes.Add {
      Emit(sink, Add, 1, a, b, beforeA, beforeB, x, y);
    }
    if op == Snakes.Del {
      Emit(sink, Remove, 1, a, b, beforeA, beforeB, x, y);
    }
    ghost var s1 := sink.Emitted();
    Emit(sink, Keep, n, a, b, x, y, u, v);
    ghost var s2 := sink.Emitted();
    GoesOnTransitive(s0, s1, s2);
    if op == Snakes.RevAdd {
      Emit(sink, Add, 1, a, b, u, v, afterA, afterB);
      GoesOnTransitive(s0, s2, sink.Emitted());
    }
    if op == Snakes.RevDel {
      Emit(sink, Remove, 1, a, b, u, v, afterA, afterB);
      GoesOnTransitive(s0, s2, sink.Emitted());
    }
  }

  lemma SnakeSteps<T>(a: seq<T>, b: seq<T>, op: Snakes.SnakeOp, n: int, beforeA: int, beforeB: int, x: int, y: int,
                      u: int, v: int, afterA: int, afterB: int)
    requires StepsTo(a, b, Keep, n, x, y, u, v)
    requires 0 <= beforeA == x - (if op == Snakes.Del then 1 else 0)
    requires 0 <= beforeB == y - (if op == Snakes.Add then 1 else 0)
    requires |a| >= afterA == u + (if op == Snakes.RevDel then 1 else 0)
    requires |b| >= afterB == v + (if op == Snakes.RevAdd then 1 else 0)
    ensures op == Snakes.Add ==> StepsTo(a, b, Add, 1, beforeA, beforeB, x, y)
    ensures op == Snakes.Del ==> StepsTo(a, b, Remove, 1, beforeA, beforeB, x, y)
    ensures op == Snakes.RevAdd ==> StepsTo(a, b, Add, 1, u, v, afterA, afterB)
    ensures op == Snakes.RevDel ==> StepsTo(a, b, Remove, 1, u, v, afterA, afterB)
    ensures 0 <= x <= u <= |a| && 0 <= y <= v <= |b| && 0 <= n
  {
  }

  lemma GoesOnItself(s: seq<Step>)
    ensures GoesOn(s, s)
  {
  }

  // ----- what the difference promises

  /** The script keeps at least the common front and the common back of what is left. */
  ghost predicate KeepsCommonEnds<T>(script: seq<Step>, a: seq<T>, b: seq<T>) {
    exists p: nat, q: nat ::
      && CommonEnds(a, b, p, q)
      && (0 < p ==> script != [] && script[0].op == Keep && p <= script[0].len)
      && (0 < q ==> script != [] && script[|script| - 1].op == Keep && q <= script[|script| - 1].len)
  }

  /** No script has fewer edits, unless all of them have more than 1998. */
  lemma FewestOfAll<T>(a: seq<T>, b: seq<T>, edits: int)
    requires Fewest(a, b, COST_LIMIT, edits)
    ensures forall s :: Script(s, a, b) && Edits(s) <= 1998 ==> edits <= Edits(s)
  {
    forall s | Script(s, a, b) && Edits(s) <= 1998 ensures edits <= Edits(s) {
      ScriptIsPath(s, a, b);
      assert HasPath(a, b, Edits(s));
    }
  }

  lemma {:induction false} EditsNotNegative<T>(s: seq<Step>, a: seq<T>, b: seq<T>)
    requires Script(s, a, b)
    ensures 0 <= Edits(s) && forall i :: 0 <= i < |s| ==> 0 < s[i].len
    ensures Edits(s) == 0 ==> forall i :: 0 <= i < |s| ==> s[i].op == Keep
  {
    if s != [] {
      var s', step := s[..|s| - 1], s[|s| - 1];
      EditsNotNegative(s', if step.op == Add then a else a[..|a| - step.len],
                           if step.op == Remove then b else b[..|b| - step.len]);
      assert forall i :: 0 <= i < |s'| ==> s[i] == s'[i];
    }
  }

  /** Equal sequences: everything is kept, in one step. */
  lemma SameIsKept<T>(script: seq<Step>, a: seq<T>)
    requires Script(script, a, a) && Merged(script) && Fewest(a, a, COST_LIMIT, Edits(script))
    ensures script == if a == [] then [] else [Step(Keep, |a|)]
  {
    WalkDiagonal(a, a, 0, 0, 0, |a|);
    assert HasPath(a, a, 0);
    EditsNotNegative(script, a, a);
    if |script| == 1 {
      assert script[..0] == [];
    } else if script != [] {
      OneKindIsMerged(script);
    }
  }

  lemma OneKindIsMerged(s: seq<Step>)
    requires |s| > 1 && s[0].op == s[1].op
    ensures !Merged(s)
  {
    assert s[1 - 1].op == s[1].op;
  }

  /** The difference of `a` and `b`: positive lengths, no two neighbouring steps of the same kind, all of `a` and `b`
      accounted for, only equal elements kept, common ends kept, and no more edits than any other script has,
      unless there is none with up to 1998 of them. */
  method ForEachDiff<T(==)>(a: seq<T>, b: seq<T>) returns (script: seq<Step>)
    ensures Script(script, a, b) && Merged(script) && KeepsCommonEnds(script, a, b)
    ensures forall s :: Script(s, a, b) && Edits(s) <= 1998 ==> Edits(script) <= Edits(s)
    ensures a == b ==> script == if a == [] then [] else [Step(Keep, |a|)]
  {
    hide Fewest, Edits, Script, CommonEnds, KeepsEnds, Merged, KeepsCommonEnds;
    var n := |a| + |b|;
    var max := 2 * n + 1;
    var data := new int[2 * max];
    var sink := new Merger();
    Sequences.TakeAll(a);
    Sequences.TakeAll(b);
    EmptyScript<T>();
    ghost var p, q := FindDiffRec(a, 0, |a|, b, 0, |b|, data, n, max + n, COST_LIMIT, sink);
    script := sink.output;
    if sink.last.op != Keep || sink.last.len != 0 {
      script := script + [sink.last];
    }
    FewestOfAll(a, b, Edits(script));
    EndsOfScript(script, a, b, p, q);
    if a == b {
      SameIsKept(script, a);
    }
  }

  lemma EmptyScript<T>()
    ensures Script<T>([], [], []) && Edits([]) == 0
  {
  }

  lemma EndsOfScript<T>(script: seq<Step>, a: seq<T>, b: seq<T>, p: nat, q: nat)
    requires CommonEnds(a, b, p, q) && KeepsEnds([], script, p, q)
    ensures KeepsCommonEnds(script, a, b)
  {
    hide CommonEnds, GoesOn, Push;
    if 0 < p {
      FirstKept(script, p);
    }
  }

  lemma FirstKept(script: seq<Step>, p: nat)
    requires GoesOn(Push([], Keep, p), script)
    ensures script != [] && script[0].op == Keep && p <= script[0].len
  {
    assert Push([], Keep, p) == [Step(Keep, p)];
  }
}
