/** The search for the middle snake: two greedy searches, one from each corner, that share
    one work array, with a limit on the number of rounds. */
module Snakes {
  import opened EditPaths
  import opened Integers

  /** The edit comes before the diagonal, or (`Rev`) after it. */
  datatype SnakeOp = Add | Del | RevAdd | RevDel

  /** An edit next to a possibly empty diagonal from (x, y) to (u, v). */
  datatype Snake = Snake(x: int, y: int, u: int, v: int, op: SnakeOp)

  /** The diagonal lies in the grid and pairs equal elements, and the edit next to it has an
      element to drop or to take. */
  ghost predicate SnakeFits<T>(a: seq<T>, b: seq<T>, s: Snake) {
    && 0 <= s.x <= s.u <= |a| && 0 <= s.y <= s.v <= |b|
    && s.u - s.x == s.v - s.y
    && a[s.x..s.u] == b[s.y..s.v]
    && match s.op
       case Add => 0 < s.y
       case Del => 0 < s.x
       case RevAdd => s.v < |b|
       case RevDel => s.u < |a|
  }

  /** Where the snake begins and ends, its edit included. */
  function BeforeA(s: Snake): int {
    s.x - if s.op == Del then 1 else 0
  }

  function BeforeB(s: Snake): int {
    s.y - if s.op == Add then 1 else 0
  }

  function AfterA(s: Snake): int {
    s.u + if s.op == RevDel then 1 else 0
  }

  function AfterB(s: Snake): int {
    s.v + if s.op == RevAdd then 1 else 0
  }

  /** The parts in front of the snake and behind it can be dealt with in `e` edits, that of the snake included. */
  ghost predicate SplitsWithin<T>(a: seq<T>, b: seq<T>, s: Snake, e: int)
    requires SnakeFits(a, b, s)
  {
    exists d1, d2 ::
      && d1 + 1 + d2 <= e
      && HasPath(a[..BeforeA(s)], b[..BeforeB(s)], d1) && HasPath(a[AfterA(s)..], b[AfterB(s)..], d2)
  }

  /** The snake lies on a path with as few edits as possible. */
  ghost predicate OnShortestPath<T>(a: seq<T>, b: seq<T>, s: Snake) {
    SnakeFits(a, b, s) && forall e :: HasPath(a, b, e) ==> SplitsWithin(a, b, s, e)
  }

  /** No path of `d` edits that is the furthest on its diagonal, and ends in the grid, gets further than `score`. */
  ghost predicate BestEnd<T>(forward: bool, a: seq<T>, b: seq<T>, d: int, score: int) {
    forall k, x {:trigger Furthest(forward, a, b, d, k, x)} ::
      Furthest(forward, a, b, d, k, x) && x <= |a| && x - k <= |b| ==> x + (x - k) <= score
  }

  /** The snake kept when giving up after `d` rounds. */
  ghost predicate BestSnake<T>(a: seq<T>, b: seq<T>, d: int, s: Snake) {
    if (|a| - |b|) % 2 != 0 then BestEnd(true, a, b, d, s.u + s.v)
    else BestEnd(false, a, b, d, |a| - s.x + (|b| - s.y))
  }

  /** What one step of the greedy search returns: the end of the best `d`-edit path on
      diagonal `k`, with the edit that leads to it. */
  ghost predicate LastSnake<T>(forward: bool, a: seq<T>, b: seq<T>, d: int, k: int, p: Snake) {
    && 0 <= p.x <= p.u && 0 <= p.y && p.y == p.x - k && p.v == p.u - k
    && Furthest(forward, a, b, d, k, p.u)
    && (forall i :: p.x < i <= p.u ==> FreeOn(forward, a, b, k, i))
    && (p.op == Add || p.op == Del)
    && (0 < d ==> if p.op == Add then 0 < p.y else 0 < p.x)
    && (0 < d ==> Reach(forward, a, b, d - 1, BeforeA(p), BeforeB(p)))
  }

  /** The work array has room around `o` for `w` diagonals on either side. */
  predicate Room(data: array<int>, o: int, w: int) {
    w <= o && o + w < data.Length
  }

  method FindEndSnake<T(==)>(forward: bool, a: seq<T>, b: seq<T>, data: array<int>, o: int, d: int, k: int)
      returns (p: Snake)
    requires 0 <= d && -d <= k <= d && (k + d) % 2 == 0
    requires Room(data, o, d) && Room(data, o, 1)
    requires d == 0 ==> data[o + 1] == 0
    requires 0 < d ==> Row(forward, a, b, d - 1, data[..], o, -d + 1, d)
    ensures LastSnake(forward, a, b, d, k, p)
  {
    var add := k == -d || (k != d && data[o + k - 1] < data[o + k + 1]);
    var x := if add then data[o + k + 1] else data[o + k - 1] + 1;
    var y := x - k;
    EntryIsBest(forward, a, b, data[..], o, d, k, add, x);

    var u, v := x, y;
    while u < |a| && v < |b| && At(forward, a, u) == At(forward, b, v)
      invariant x <= u && v == u - k
      invariant forall i :: x < i <= u ==> FreeOn(forward, a, b, k, i)
      decreases |a| - u
    {
      u, v := u + 1, v + 1;
    }
    FurthestFromEntry(forward, a, b, d, k, x, u);
    p := Snake(x, y, u, v, if add then Add else Del);
  }

  /** The better of the two neighbouring diagonals gives the best entry. */
  lemma EntryIsBest<T>(forward: bool, a: seq<T>, b: seq<T>, s: seq<int>, o: int, d: int, k: int, add: bool, x: int)
    requires 0 <= d && -d <= k <= d && (k + d) % 2 == 0
    requires 0 <= o - d && o + d < |s| && 0 <= o - 1 && o + 1 < |s|
    requires d == 0 ==> s[o + 1] == 0
    requires 0 < d ==> Row(forward, a, b, d - 1, s, o, -d + 1, d)
    requires add == (k == -d || (k != d && s[o + k - 1] < s[o + k + 1]))
    requires x == if add then s[o + k + 1] else s[o + k - 1] + 1
    ensures EntersAt(forward, a, b, d, k, x) && 0 <= x && 0 <= x - k
    ensures 0 < d ==> if add then 0 < x - k else 0 < x
    ensures 0 < d ==>
      if add then Reach(forward, a, b, d - 1, x, x - k - 1) else Reach(forward, a, b, d - 1, x - 1, x - k)
  {
    if k == -d {
      NothingOutside(forward, a, b, d - 1, k - 1, x - 1);
    } else {
      assert Furthest(forward, a, b, d - 1, k - 1, s[o + k - 1]);
    }
    if k == d {
      NothingOutside(forward, a, b, d - 1, k + 1, x);
    } else {
      assert Furthest(forward, a, b, d - 1, k + 1, s[o + k + 1]);
    }
  }

  lemma NothingOutside<T>(forward: bool, a: seq<T>, b: seq<T>, d: int, k: int, x: int)
    requires k < -d || d < k
    ensures NotBeyond(forward, a, b, d, k, x)
  {
    forall x' ensures !ReachOn(forward, a, b, d, k, x') {
      if ReachOn(forward, a, b, d, k, x') {
        ReachDiagonal(forward, a, b, d, x', x' - k);
      }
    }
  }

  lemma DiagonalEqual<T>(forward: bool, a: seq<T>, b: seq<T>, k: int, x: int, u: int)
    requires 0 <= x <= u <= |a| && 0 <= x - k && u - k <= |b|
    requires forall i :: x < i <= u ==> FreeOn(forward, a, b, k, i)
    ensures if forward then a[x..u] == b[x - k..u - k]
            else a[|a| - u..|a| - x] == b[|b| - (u - k)..|b| - (x - k)]
  {
    var n := u - x;
    if forward {
      forall i | 0 <= i < n ensures a[x..u][i] == b[x - k..u - k][i] {
        assert FreeOn(forward, a, b, k, x + i + 1);
      }
    } else {
      var l, r := a[|a| - u..|a| - x], b[|b| - (u - k)..|b| - (x - k)];
      forall i | 0 <= i < n ensures l[i] == r[i] {
        assert FreeOn(forward, a, b, k, u - i);
      }
    }
  }

  /** The snake as seen from the other corner. */
  function Reversed<T>(a: seq<T>, b: seq<T>, p: Snake): Snake {
    Snake(|a| - p.u, |b| - p.v, |a| - p.x, |b| - p.y, if p.op == Add || p.op == RevAdd then RevAdd else RevDel)
  }

  lemma LastSnakeFits<T>(forward: bool, a: seq<T>, b: seq<T>, d: int, k: int, p: Snake)
    requires 0 < d && LastSnake(forward, a, b, d, k, p) && p.u <= |a| && p.v <= |b|
    ensures SnakeFits(a, b, if forward then p else Reversed(a, b, p))
    ensures 0 < p.u + p.v
  {
    hide Furthest, FreeOn, Reach;
    DiagonalEqual(forward, a, b, k, p.x, p.u);
  }

  /** No overlap in this round rules out paths of the total number of edits. */
  lemma RaiseBound<T>(a: seq<T>, b: seq<T>, d1: int, d2: int, s: seq<int>, o1: int, o2: int)
    requires 0 <= d1 && 0 <= d2 && (|a| - |b| + d1 + d2) % 2 == 0
    requires NoPath(a, b, d1 + d2 - 2)
    requires Row(true, a, b, d1, s, o1, -d1, d1 + 1) && Row(false, a, b, d2, s, o2, -d2, d2 + 1)
    requires Apart(s, o1, d1, o2, d2, |a|, |a| - |b|, -d1, d1 + 1)
          || Apart(s, o2, d2, o1, d1, |a|, |a| - |b|, -d2, d2 + 1)
    ensures NoPath(a, b, d1 + d2 + 1)
  {
    forall d | d <= d1 + d2 + 1 ensures !Reach(true, a, b, d, |a|, |b|) {
      if Reach(true, a, b, d, |a|, |b|) {
        ReachDiagonal(true, a, b, d, |a|, |b|);
        if d == d1 + d2 {
          PathOverlaps(a, b, d1, d2, s, o1, o2);
        }
      }
    }
  }

  /** The other search's slots that a round looks at, if it looks at all. */
  predicate OtherRoom(size: int, o: int, d: int, check: bool, o': int, d': int) {
    check ==> -1 <= d' && 0 <= o' - d' && o' + d' < size && (o + d < o' - d' || o' + d' < o - d)
  }

  /** State of a round that has dealt with the diagonals below `n`. */
  ghost predicate InRound<T>(forward: bool, a: seq<T>, b: seq<T>, d: int, s: seq<int>, o: int, n: int, check: bool,
                             o': int, d': int) {
    && 0 <= d && -d <= n <= d + 2 && (n + d) % 2 == 0
    && d <= o && 1 <= o && o + d < |s| && o + 1 < |s| && OtherRoom(|s|, o, d, check, o', d')
    && (d == 0 && n == 0 ==> s[o + 1] == 0)
    && (0 < d ==> Row(forward, a, b, d - 1, s, o, -d + 1, d))
    && Row(forward, a, b, d, s, o, -d, n - 1)
    && (check ==> Apart(s, o, d, o', d', |a|, |a| - |b|, -d, n - 1))
  }

  ghost predicate SameOutside(s: seq<int>, t: seq<int>, lo: int, hi: int) {
    |s| == |t| && forall j :: 0 <= j < |s| && (j < lo || hi < j) ==> s[j] == t[j]
  }

  /** Writing the next diagonal of a round leaves the previous round, whose diagonals have the
      other parity, in place. */
  lemma RoundGrows<T>(forward: bool, a: seq<T>, b: seq<T>, d: int, s: seq<int>, o: int, n: int, check: bool, o': int,
                      d': int, x: int)
    requires InRound(forward, a, b, d, s, o, n, check, o', d') && n <= d
    requires Furthest(forward, a, b, d, n, x)
    requires check && -d' <= |a| - |b| - n <= d' ==> x + s[o' + |a| - |b| - n] < |a|
    ensures InRound(forward, a, b, d, s[o + n := x], o, n + 2, check, o', d')
  {
    RowGrows(forward, a, b, d, s, o, n, x);
    if check {
      ApartGrows(s, o, d, o', d', |a|, |a| - |b|, n, x);
    }
  }

  lemma RowGrows<T>(forward: bool, a: seq<T>, b: seq<T>, d: int, s: seq<int>, o: int, n: int, x: int)
    requires -d <= n <= d && (n + d) % 2 == 0 && 0 <= o + n < |s|
    requires 0 < d ==> Row(forward, a, b, d - 1, s, o, -d + 1, d)
    requires Row(forward, a, b, d, s, o, -d, n - 1) && Furthest(forward, a, b, d, n, x)
    ensures 0 < d ==> Row(forward, a, b, d - 1, s[o + n := x], o, -d + 1, d)
    ensures Row(forward, a, b, d, s[o + n := x], o, -d, n + 1)
  {
    var s' := s[o + n := x];
    forall j | o - d <= j < o + n + 1 && (j - o + d) % 2 == 0 ensures Furthest(forward, a, b, d, j - o, s'[j]) {
    }
  }

  lemma ApartGrows(s: seq<int>, o: int, d: int, o': int, d': int, w: int, delta: int, n: int, x: int)
    requires -d <= n <= d && (n + d) % 2 == 0 && 0 <= o - d && o + n < |s| && 0 <= o' - d' && o' + d' < |s|
    requires o + d < o' - d' || o' + d' < o - d
    requires Apart(s, o, d, o', d', w, delta, -d, n - 1)
    requires -d' <= delta - n <= d' ==> x + s[o' + delta - n] < w
    ensures Apart(s[o + n := x], o, d, o', d', w, delta, -d, n + 1)
  {
    var s' := s[o + n := x];
    forall j | o - d <= j < o + n + 1 && (j - o + d) % 2 == 0 && -d' <= delta - (j - o) <= d'
      ensures s'[j] + s'[o' + delta - (j - o)] < w
    {
    }
  }

  /** The snake `p` on diagonal `k` meets what the other search has reached. */
  ghost predicate Meets<T>(forward: bool, a: seq<T>, b: seq<T>, d: int, k: int, p: Snake, s: seq<int>, o': int,
                           d': int) {
    && LastSnake(forward, a, b, d, k, p)
    && -d' <= |a| - |b| - k <= d' && 0 <= o' + |a| - |b| - k < |s|
    && |a| <= p.u + s[o' + |a| - |b| - k]
  }

  /** One diagonal of a round. */
  method RoundStep<T(==)>(forward: bool, a: seq<T>, b: seq<T>, data: array<int>, o: int, d: int, n: int, check: bool,
                     o': int, d': int)
      returns (found: bool, p: Snake)
    requires InRound(forward, a, b, d, data[..], o, n, check, o', d') && n <= d
    modifies data
    ensures SameOutside(data[..], old(data[..]), o - d, o + d)
    ensures found ==> check && Meets(forward, a, b, d, n, p, data[..], o', d')
    ensures !found ==> InRound(forward, a, b, d, data[..], o, n + 2, check, o', d')
  {
    p := FindEndSnake(forward, a, b, data, o, d, n);
    ghost var s := data[..];
    data[o + n] := p.u;
    assert data[..] == s[o + n := p.u];
    var n' := -(n - (|a| - |b|));
    found := check && -d' <= n' <= d' && data[o + n] + data[o' + n'] >= |a|;
    if !found {
      RoundGrows(forward, a, b, d, s, o, n, check, o', d', p.u);
    }
  }

  lemma MeetsSame<T>(forward: bool, a: seq<T>, b: seq<T>, o: int, d: int, k: int, p: Snake, s: seq<int>, t: seq<int>,
                     check: bool, o': int, d': int)
    requires SameOutside(s, t, o - d, o + d) && OtherRoom(|s|, o, d, check, o', d') && check
    requires Meets(forward, a, b, d, k, p, s, o', d')
    ensures Meets(forward, a, b, d, k, p, t, o', d')
  {
  }

  /** One round of one of the two searches: extend every diagonal by one edit.  When `check`
      is set, stop at the first one that meets what the other search has reached in `d'` edits. */
  method Round<T(==)>(forward: bool, a: seq<T>, b: seq<T>, data: array<int>, o: int, d: int, check: bool, o': int,
                 d': int)
      returns (found: bool, p: Snake, ghost k: int)
    requires InRound(forward, a, b, d, data[..], o, -d, check, o', d')
    modifies data
    ensures SameOutside(data[..], old(data[..]), o - d, o + d)
    ensures found ==> check && Meets(forward, a, b, d, k, p, old(data[..]), o', d')
    ensures !found ==> InRound(forward, a, b, d, data[..], o, d + 2, check, o', d')
  {
    ghost var was := data[..];
    found, p, k := false, Snake(0, 0, 0, 0, Add), -d;
    var n := -d;
    while n <= d
      invariant InRound(forward, a, b, d, data[..], o, n, check, o', d')
      invariant SameOutside(data[..], was, o - d, o + d)
    {
      found, p := RoundStep(forward, a, b, data, o, d, n, check, o', d');
      if found {
        k := n;
        MeetsSame(forward, a, b, o, d, n, p, data[..], was, check, o', d');
        return;
      }
      n := n + 2;
    }
  }

  /** A snake that meets the other search lies in the grid. */
  lemma MeetingSnakeFits<T>(forward: bool, a: seq<T>, b: seq<T>, d: int, k: int, p: Snake, s: seq<int>, o': int,
                            d': int)
    requires 0 < d && d' <= d && NoPath(a, b, 2 * d - 2)
    requires Meets(forward, a, b, d, k, p, s, o', d')
    ensures SnakeFits(a, b, if forward then p else Reversed(a, b, p))
  {
    OverlapInGrid(forward, a, b, d, k, p.u, d');
    LastSnakeFits(forward, a, b, d, k, p);
  }

  /** A forward snake that meets the reverse search of the round before is on a shortest path. */
  lemma ForwardSnakeSplits<T>(a: seq<T>, b: seq<T>, d: int, k: int, p: Snake, s: seq<int>, o': int)
    requires 0 < d && NoPath(a, b, 2 * d - 2) && (|a| - |b|) % 2 != 0
    requires Meets(true, a, b, d, k, p, s, o', d - 1) && Row(false, a, b, d - 1, s, o', -d + 1, d)
    ensures OnShortestPath(a, b, p)
  {
    hide Meets, Reach, Row, SnakeFits, NoPath;
    MeetingSnakeFits(true, a, b, d, k, p, s, o', d - 1);
    SnakeInGrid(a, b, p);
    MetPoint(true, a, b, d, k, p, s, o', d - 1);
    PathFromPoint(a, b, d - 1, p.u, p.v);
    PathToPoint(a, b, d - 1, BeforeA(p), BeforeB(p));
    SplitsAlways(a, b, p, d - 1, d - 1, d);
  }

  /** A reverse snake that meets the forward search of the same round is on a shortest path. */
  lemma ReverseSnakeSplits<T>(a: seq<T>, b: seq<T>, d: int, k: int, p: Snake, s: seq<int>, o': int)
    requires 0 < d && NoPath(a, b, 2 * d - 2) && (|a| - |b|) % 2 == 0
    requires Meets(false, a, b, d, k, p, s, o', d) && Row(true, a, b, d, s, o', -d, d + 1)
    ensures OnShortestPath(a, b, Reversed(a, b, p))
  {
    hide Meets, Reach, Row, SnakeFits, NoPath;
    var r := Reversed(a, b, p);
    MeetingSnakeFits(false, a, b, d, k, p, s, o', d);
    SnakeInGrid(a, b, r);
    MetPoint(false, a, b, d, k, p, s, o', d);
    PathToPoint(a, b, d, r.x, r.y);
    PathFromPoint(a, b, d - 1, AfterA(r), AfterB(r));
    SplitsAlways(a, b, r, d, d - 1, d);
  }

  lemma SnakeInGrid<T>(a: seq<T>, b: seq<T>, s: Snake)
    requires SnakeFits(a, b, s)
    ensures 0 <= BeforeA(s) <= s.x <= s.u <= AfterA(s) <= |a| && 0 <= BeforeB(s) <= s.y <= s.v <= AfterB(s) <= |b|
  {
  }

  /** As a shorter path does not exist, the two parts are always dealt with in as few edits as any path has. */
  lemma SplitsAlways<T>(a: seq<T>, b: seq<T>, s: Snake, d1: int, d2: int, d: int)
    requires SnakeFits(a, b, s) && NoPath(a, b, 2 * d - 2)
    requires d1 + 1 + d2 == 2 * d - 1 || (d1 + 1 + d2 == 2 * d && (|a| - |b|) % 2 == 0)
    requires HasPath(a[..BeforeA(s)], b[..BeforeB(s)], d1) && HasPath(a[AfterA(s)..], b[AfterB(s)..], d2)
    ensures OnShortestPath(a, b, s)
  {
    hide HasPath, NoPath, SnakeFits;
    forall e | HasPath(a, b, e) ensures SplitsWithin(a, b, s, e) {
      PathExists(a, b, e, 2 * d - 2);
      SplitsSo(a, b, s, d1, d2, e);
    }
  }

  lemma SplitsSo<T>(a: seq<T>, b: seq<T>, s: Snake, d1: int, d2: int, e: int)
    requires SnakeFits(a, b, s) && d1 + 1 + d2 <= e
    requires HasPath(a[..BeforeA(s)], b[..BeforeB(s)], d1) && HasPath(a[AfterA(s)..], b[AfterB(s)..], d2)
    ensures SplitsWithin(a, b, s, e)
  {
  }

  /** The end of a meeting snake is reached by the other search as well, and its begin in one edit less. */
  lemma MetPoint<T>(forward: bool, a: seq<T>, b: seq<T>, d: int, k: int, p: Snake, s: seq<int>, o': int, d': int)
    requires Meets(forward, a, b, d, k, p, s, o', d') && Row(!forward, a, b, d', s, o', -d', d' + 1)
    requires 0 < d && p.u <= |a| && p.v <= |b| && (|a| - |b| + d + d') % 2 == 0
    ensures Within(!forward, a, b, d', |a| - p.u, |b| - p.v)
    ensures (p.op == Add || p.op == Del) && Within(forward, a, b, d - 1, BeforeA(p), BeforeB(p))
  {
    hide Reach, FreeOn;
    var k' := |a| - |b| - k;
    var r := s[o' + k'];
    ReachDiagonal(forward, a, b, d, p.u, p.u - k);
    assert Furthest(!forward, a, b, d', k', r);
    assert Within(!forward, a, b, d', r, r - k');
    DiagonalBack(!forward, a, b, d', r, r - k', r - (|a| - p.u));
  }

  /** The number of edits of a path, between a bound on it and one from below. */
  lemma PathExists<T>(a: seq<T>, b: seq<T>, e: int, n: int)
    requires HasPath(a, b, e) && NoPath(a, b, n)
    ensures n < e && ((|a| - |b| + n) % 2 == 0 ==> n + 1 < e)
  {
    var d :| d <= e && Reach(true, a, b, d, |a|, |b|);
    ReachDiagonal(true, a, b, d, |a|, |b|);
  }

  // ----- the first round, in which no edit has been made

  lemma {:induction false} FreeFromStart<T>(forward: bool, a: seq<T>, b: seq<T>, x: int, y: int)
    requires 0 < |a| && 0 < |b| && At(forward, a, 0) != At(forward, b, 0)
    requires Reach(forward, a, b, 0, x, y)
    ensures x == 0 && y == 0
    decreases x + y
  {
    if 0 < x && 0 < y && Reach(forward, a, b, 0, x - 1, y - 1) {
      FreeFromStart(forward, a, b, x - 1, y - 1);
    }
  }

  lemma FirstBound<T>(a: seq<T>, b: seq<T>)
    requires 0 < |a| && 0 < |b| && a[0] != b[0]
    ensures NoPath(a, b, 0)
  {
    forall d | d <= 0 ensures !Reach(true, a, b, d, |a|, |b|) {
      if Reach(true, a, b, d, |a|, |b|) {
        FreeFromStart(true, a, b, |a|, |b|);
      }
    }
  }

  /** The reverse search cannot meet the forward one before any edit is made. */
  lemma NoMeetingAtStart<T>(a: seq<T>, b: seq<T>, k: int, p: Snake, s: seq<int>, o': int)
    requires 0 < |a| && 0 < |b| && a[0] != b[0]
    requires Row(true, a, b, 0, s, o', 0, 1)
    ensures !Meets(false, a, b, 0, k, p, s, o', 0)
  {
    if Meets(false, a, b, 0, k, p, s, o', 0) {
      FirstBound(a, b);
      FreeFromStart(true, a, b, s[o'], s[o']);
      ReachDiagonal(false, a, b, 0, p.u, p.v);
      OverlapInGrid(false, a, b, 0, k, p.u, 0);
      FlipPath(false, a, b, 0, |a|, |b|, 0);
    }
  }

  lemma ReverseSnakeFits<T>(a: seq<T>, b: seq<T>, d: int, k: int, p: Snake, s: seq<int>, o': int)
    requires 0 < |a| && 0 < |b| && a[0] != b[0]
    requires 0 <= d && NoPath(a, b, if d == 0 then 0 else 2 * d - 2)
    requires Row(true, a, b, d, s, o', -d, d + 1) && Meets(false, a, b, d, k, p, s, o', d)
    requires (|a| - |b|) % 2 == 0
    ensures OnShortestPath(a, b, Reversed(a, b, p))
  {
    if d == 0 {
      NoMeetingAtStart(a, b, k, p, s, o');
    } else {
      ReverseSnakeSplits(a, b, d, k, p, s, o');
    }
  }

  // ----- giving up: the best snake of one last round

  /** `best` is a snake of the last round that stays in the grid, kept in the frame of its own
      search and marked with the direction it came from. */
  ghost predicate Candidate<T>(forward: bool, a: seq<T>, b: seq<T>, d: int, k: int, best: Snake) {
    && best.u <= |a| && best.v <= |b|
    && if forward then LastSnake(true, a, b, d, k, best)
       else
         && (best.op == RevAdd || best.op == RevDel)
         && LastSnake(false, a, b, d, k, best.(op := if best.op == RevAdd then Add else Del))
  }

  /** One diagonal of the last round. */
  method RoundEnd<T(==)>(forward: bool, a: seq<T>, b: seq<T>, data: array<int>, o: int, d: int, n: int)
      returns (p: Snake)
    requires InRound(forward, a, b, d, data[..], o, n, false, 0, 0) && n <= d
    modifies data
    ensures InRound(forward, a, b, d, data[..], o, n + 2, false, 0, 0)
    ensures LastSnake(forward, a, b, d, n, p)
    ensures data[..] == old(data[..])[o + n := p.u]
  {
    p := FindEndSnake(forward, a, b, data, o, d, n);
    ghost var s := data[..];
    data[o + n] := p.u;
    assert data[..] == s[o + n := p.u];
    RoundGrows(forward, a, b, d, s, o, n, false, 0, 0, p.u);
  }

  method LastRound<T(==)>(forward: bool, a: seq<T>, b: seq<T>, data: array<int>, o: int, d: int, use: bool,
                     start: Snake)
      returns (best: Snake, ghost k: int)
    requires 0 < d && NoPath(a, b, 2 * d - 2) && (use ==> start == Snake(0, 0, 0, 0, Add))
    requires InRound(forward, a, b, d, data[..], o, -d, false, 0, 0)
    modifies data
    ensures SameOutside(data[..], old(data[..]), o - d, o + d)
    ensures if use then Candidate(forward, a, b, d, k, best) else best == start
    ensures use ==> BestEnd(forward, a, b, d, best.u + best.v)
  {
    hide Reach, FreeOn, NotBeyond;
    best, k := start, d + 1;
    NoneBefore(forward, a, b, d);
    var n := -d;
    while n <= d
      invariant InRound(forward, a, b, d, data[..], o, n, false, 0, 0)
      invariant SameOutside(data[..], old(data[..]), o - d, o + d)
      invariant if k <= d then use && Candidate(forward, a, b, d, k, best) else best == start
      invariant use ==> 0 <= best.u + best.v && BestSoFar(forward, a, b, d, n, best.u + best.v)
      invariant use && -d < n && data[o - d] <= |a| && data[o - d] + d <= |b| ==> k <= d
      invariant use && d < n && data[o + d] <= |a| && data[o + d] - d <= |b| ==> k <= d
    {
      var p := RoundEnd(forward, a, b, data, o, d, n);
      ghost var score := best.u + best.v;
      if use && p.u <= |a| && p.v <= |b| && p.u + p.v >= best.u + best.v {
        best := if forward then p else p.(op := if p.op == Add then RevAdd else RevDel);
        k := n;
      }
      if use {
        BestOfMore(forward, a, b, d, n, p.u, score, best.u + best.v);
      }
      n := n + 2;
    }
    ExtremeInGrid(forward, a, b, d, data[o + d], data[o - d]);
    if use {
      BestOfAll(forward, a, b, d, n, best.u + best.v);
    }
  }

  /** No diagonal below `n` has a better end. */
  ghost predicate BestSoFar<T>(forward: bool, a: seq<T>, b: seq<T>, d: int, n: int, score: int) {
    forall k, x {:trigger Furthest(forward, a, b, d, k, x)} ::
      k < n && Furthest(forward, a, b, d, k, x) && x <= |a| && x - k <= |b| ==> x + (x - k) <= score
  }

  lemma BestOfMore<T>(forward: bool, a: seq<T>, b: seq<T>, d: int, n: int, u: int, score: int, score': int)
    requires BestSoFar(forward, a, b, d, n, score) && score <= score' && Furthest(forward, a, b, d, n, u)
    requires (n + d) % 2 == 0
    requires u <= |a| && u - n <= |b| ==> u + (u - n) <= score'
    ensures BestSoFar(forward, a, b, d, n + 2, score')
  {
    forall k, x {:trigger Furthest(forward, a, b, d, k, x)} |
      k < n + 2 && Furthest(forward, a, b, d, k, x) && x <= |a| && x - k <= |b|
      ensures x + (x - k) <= score'
    {
      ReachDiagonal(forward, a, b, d, x, x - k);
      assert k == n ==> x == u;
    }
  }

  lemma BestOfAll<T>(forward: bool, a: seq<T>, b: seq<T>, d: int, n: int, score: int)
    requires BestSoFar(forward, a, b, d, n, score) && d < n
    ensures BestEnd(forward, a, b, d, score)
  {
    forall k, x {:trigger Furthest(forward, a, b, d, k, x)} |
      Furthest(forward, a, b, d, k, x) && x <= |a| && x - k <= |b|
      ensures x + (x - k) <= score
    {
      ReachDiagonal(forward, a, b, d, x, x - k);
    }
  }

  lemma NoneBefore<T>(forward: bool, a: seq<T>, b: seq<T>, d: int)
    ensures BestSoFar(forward, a, b, d, -d, 0)
  {
    forall k, x {:trigger Furthest(forward, a, b, d, k, x)} | k < -d ensures !Furthest(forward, a, b, d, k, x) {
      if Furthest(forward, a, b, d, k, x) {
        ReachDiagonal(forward, a, b, d, x, x - k);
      }
    }
  }

  /** State of the search before round `d`. */
  ghost predicate Searching<T>(a: seq<T>, b: seq<T>, d: int, s: seq<int>, o1: int, o2: int) {
    && 0 <= d && NoPath(a, b, if d == 0 then 0 else 2 * d - 2)
    && 1 <= o1 && d <= o1 && o1 + d < o2 - d && o1 + 1 < o2 && o2 + d < |s| && o2 + 1 < |s|
    && if d == 0 then s[o1 + 1] == 0 && s[o2 + 1] == 0
       else Row(true, a, b, d - 1, s, o1, -d + 1, d) && Row(false, a, b, d - 1, s, o2, -d + 1, d)
  }

  /** What both rounds of `d` leave behind when neither finds the middle. */
  lemma NextRound<T>(a: seq<T>, b: seq<T>, d: int, s0: seq<int>, s1: seq<int>, s2: seq<int>, o1: int, o2: int)
    requires Searching(a, b, d, s0, o1, o2) && d + 1 <= o1 && o1 + d + 1 < o2 - d - 1 && o2 + d + 1 < |s0|
    requires 0 < |a| && 0 < |b| && a[0] != b[0]
    requires SameOutside(s1, s0, o1 - d, o1 + d) && SameOutside(s2, s1, o2 - d, o2 + d)
    requires InRound(true, a, b, d, s1, o1, d + 2, (|a| - |b|) % 2 != 0, o2, d - 1)
    requires InRound(false, a, b, d, s2, o2, d + 2, (|a| - |b|) % 2 == 0, o1, d)
    ensures Searching(a, b, d + 1, s2, o1, o2)
  {
    assert Row(true, a, b, d, s2, o1, -d, d + 1);
    if (|a| - |b|) % 2 == 0 {
      RaiseBound(a, b, d, d, s2, o1, o2);
    } else if 0 < d {
      assert Row(false, a, b, d - 1, s1, o2, -d + 1, d);
      RaiseBound(a, b, d, d - 1, s1, o1, o2);
    }
  }

  /** One iteration: a round of the forward search, then a round of the reverse search. */
  method BothRounds<T(==)>(a: seq<T>, b: seq<T>, data: array<int>, o1: int, o2: int, d: int)
      returns (found: bool, s: Snake)
    requires 0 < |a| && 0 < |b| && a[0] != b[0]
    requires Searching(a, b, d, data[..], o1, o2)
    requires d + 1 <= o1 && o1 + d + 1 < o2 - d - 1 && o2 + d + 1 < data.Length
    modifies data
    ensures if found then OnShortestPath(a, b, s) else Searching(a, b, d + 1, data[..], o1, o2)
  {
    var delta := |a| - |b|;
    ghost var s0 := data[..];
    var p;
    ghost var k;
    found, p, k := Round(true, a, b, data, o1, d, delta % 2 != 0, o2, d - 1);
    if found {
      ForwardSnakeSplits(a, b, d, k, p, s0, o2);
      return true, p;
    }
    ghost var s1 := data[..];
    found, p, k := Round(false, a, b, data, o2, d, delta % 2 == 0, o1, d);
    if found {
      ReverseSnakeFits(a, b, d, k, p, s1, o1);
      return true, Reversed(a, b, p);
    }
    NextRound(a, b, d, s0, s1, data[..], o1, o2);
    s := p;
  }

  /** The best snake of one last round. */
  method GiveUp<T(==)>(a: seq<T>, b: seq<T>, data: array<int>, o1: int, o2: int, maxD: int) returns (s: Snake)
    requires 0 < maxD && Searching(a, b, maxD, data[..], o1, o2)
    modifies data
    ensures SnakeFits(a, b, s) && BestSnake(a, b, maxD, s)
  {
    var delta := |a| - |b|;
    var best;
    ghost var k;
    best, k := LastRound(true, a, b, data, o1, maxD, delta % 2 != 0, Snake(0, 0, 0, 0, Add));
    if delta % 2 != 0 {
      LastSnakeFits(true, a, b, maxD, k, best);
    }
    best, k := LastRound(false, a, b, data, o2, maxD, delta % 2 == 0, best);
    if delta % 2 == 0 {
      LastSnakeFits(false, a, b, maxD, k, best.(op := if best.op == RevAdd then Add else Del));
    }
    s := if best.op == RevAdd || best.op == RevDel then Reversed(a, b, best) else best;
  }

  /** The middle snake.  A snake on which both searches meet is taken at once and lies on a shortest path; if that
      has not happened within the cost limit, the best snake of one more round is taken. */
  method FindMiddleSnake<T(==)>(a: seq<T>, b: seq<T>, data: array<int>, o1: int, o2: int,
                           costLimit: int) returns (s: Snake)
    requires 0 < |a| && 0 < |b| && a[0] != b[0] && 0 < costLimit
    requires |a| + |b| <= o1 && o1 + |a| + |b| < o2 - |a| - |b| && o2 + |a| + |b| < data.Length
    modifies data
    ensures SnakeFits(a, b, s)
    ensures OnShortestPath(a, b, s) || (BestSnake(a, b, costLimit, s) && NoPath(a, b, 2 * costLimit - 2))
  {
    data[o1 + 1] := 0;
    data[o2 + 1] := 0;
    FirstBound(a, b);
    var maxD := Min((|b| + |a| + 1) / 2 + 1, costLimit);
    var d := 0;
    while d < maxD
      invariant 0 <= d <= maxD && Searching(a, b, d, data[..], o1, o2)
    {
      var found, p := BothRounds(a, b, data, o1, o2, d);
      if found {
        return p;
      }
      d := d + 1;
    }
    GivesUpAtLimit(a, b, maxD, costLimit);
    s := GiveUp(a, b, data, o1, o2, maxD);
  }

  /** Only the cost limit makes the search give up. */
  lemma GivesUpAtLimit<T>(a: seq<T>, b: seq<T>, maxD: int, costLimit: int)
    requires maxD == Min((|b| + |a| + 1) / 2 + 1, costLimit) && NoPath(a, b, 2 * maxD - 2)
    ensures maxD == costLimit
  {
    EditEverything(a, b, |a|, |b|);
  }
}
