/** Edit paths from the origin through the comparison grid of two sequences.

    A path moves right (drop an element of `a`), down (take an element of `b`), both at
    the cost of one edit, or along a free diagonal where the elements agree.  As in the
    search itself the grid is not bounded on the right or below: past its border a path
    may go on, without diagonals.  `forward` selects the direction in which the two
    sequences are read, so that the reverse search is the same notion. */
module EditPaths {

  function At<T>(forward: bool, s: seq<T>, i: nat): T
    requires i < |s|
  {
    if forward then s[i] else s[|s| - 1 - i]
  }

  /** The diagonal step that arrives at (x, y) is free. */
  ghost predicate Matches<T>(forward: bool, a: seq<T>, b: seq<T>, x: int, y: int) {
    0 < x <= |a| && 0 < y <= |b| && At(forward, a, x - 1) == At(forward, b, y - 1)
  }

  /** (x, y) is reached from the origin with exactly `d` edits. */
  ghost predicate Reach<T>(forward: bool, a: seq<T>, b: seq<T>, d: int, x: int, y: int)
    decreases x + y
  {
    0 <= d && 0 <= x && 0 <= y &&
    ( (d == 0 && x == 0 && y == 0)
    || (0 < x && Reach(forward, a, b, d - 1, x - 1, y))
    || (0 < y && Reach(forward, a, b, d - 1, x, y - 1))
    || (Matches(forward, a, b, x, y) && Reach(forward, a, b, d, x - 1, y - 1)))
  }

  /** With `d` edits one ends on a diagonal of the same parity, at most `d` away. */
  lemma {:induction false} ReachDiagonal<T>(forward: bool, a: seq<T>, b: seq<T>, d: int, x: int, y: int)
    requires Reach(forward, a, b, d, x, y)
    ensures -d <= x - y <= d && (x - y + d) % 2 == 0
    decreases x + y
  {
    if d == 0 && x == 0 && y == 0 {
    } else if 0 < x && Reach(forward, a, b, d - 1, x - 1, y) {
      ReachDiagonal(forward, a, b, d - 1, x - 1, y);
    } else if 0 < y && Reach(forward, a, b, d - 1, x, y - 1) {
      ReachDiagonal(forward, a, b, d - 1, x, y - 1);
    } else {
      ReachDiagonal(forward, a, b, d, x - 1, y - 1);
    }
  }

  /** On the border of the grid, walk straight to its far corner. */
  lemma {:induction false} ReachCorner<T>(forward: bool, a: seq<T>, b: seq<T>, d: int, x: int, y: int)
    requires Reach(forward, a, b, d, x, y)
    requires (x == |a| && y <= |b|) || (y == |b| && x <= |a|)
    ensures Reach(forward, a, b, d + (|a| - x) + (|b| - y), |a|, |b|)
    decreases |a| + |b| - x - y
  {
    if y < |b| {
      ReachCorner(forward, a, b, d + 1, x, y + 1);
    } else if x < |a| {
      ReachCorner(forward, a, b, d + 1, x + 1, y);
    }
  }

  /** A path that has left the grid crossed its border, so a shorter path reaches the far
      corner: shorter by the whole distance gone astray. */
  lemma {:induction false} ReachOffGrid<T>(forward: bool, a: seq<T>, b: seq<T>, d: int, x: int, y: int)
    requires Reach(forward, a, b, d, x, y)
    requires |a| < x || |b| < y
    ensures Reach(forward, a, b, d - (x - |a|) - (y - |b|), |a|, |b|)
    decreases x + y
  {
    if 0 < x && Reach(forward, a, b, d - 1, x - 1, y) {
      if |a| < x - 1 || |b| < y {
        ReachOffGrid(forward, a, b, d - 1, x - 1, y);
      } else {
        ReachCorner(forward, a, b, d - 1, x - 1, y);
      }
    } else {
      if |a| < x || |b| < y - 1 {
        ReachOffGrid(forward, a, b, d - 1, x, y - 1);
      } else {
        ReachCorner(forward, a, b, d - 1, x, y - 1);
      }
    }
  }

  /** Cut a path to (x, y) after `d1` of its edits; what is cut off becomes a path of the
      opposite direction. */
  lemma {:induction false} CutPath<T>(forward: bool, a: seq<T>, b: seq<T>, d: int, x: int, y: int, r: int, d1: nat)
      returns (u: int, v: int)
    requires x <= |a| && y <= |b| && d1 <= d
    requires Reach(forward, a, b, d, x, y) && Reach(!forward, a, b, r, |a| - x, |b| - y)
    ensures u <= |a| && v <= |b|
    ensures Reach(forward, a, b, d1, u, v) && Reach(!forward, a, b, r + d - d1, |a| - u, |b| - v)
    decreases x + y
  {
    if d == d1 {
      u, v := x, y;
    } else if 0 < x && Reach(forward, a, b, d - 1, x - 1, y) {
      u, v := CutPath(forward, a, b, d - 1, x - 1, y, r + 1, d1);
    } else if 0 < y && Reach(forward, a, b, d - 1, x, y - 1) {
      u, v := CutPath(forward, a, b, d - 1, x, y - 1, r + 1, d1);
    } else {
      assert Matches(!forward, a, b, |a| - (x - 1), |b| - (y - 1));
      u, v := CutPath(forward, a, b, d, x - 1, y - 1, r, d1);
    }
  }

  // ----- furthest reaching paths

  /** The point of diagonal `k` in column `x`. */
  ghost predicate ReachOn<T>(forward: bool, a: seq<T>, b: seq<T>, d: int, k: int, x: int) {
    Reach(forward, a, b, d, x, x - k)
  }

  ghost predicate FreeOn<T>(forward: bool, a: seq<T>, b: seq<T>, k: int, x: int) {
    Matches(forward, a, b, x, x - k)
  }

  /** On diagonal `k`, `d` edits get no further than column `x`. */
  ghost predicate NotBeyond<T>(forward: bool, a: seq<T>, b: seq<T>, d: int, k: int, x: int) {
    forall x' :: ReachOn(forward, a, b, d, k, x') ==> x' <= x
  }

  /** `x` is exactly as far as `d` edits get on diagonal `k`. */
  ghost predicate Furthest<T>(forward: bool, a: seq<T>, b: seq<T>, d: int, k: int, x: int) {
    ReachOn(forward, a, b, d, k, x) && NotBeyond(forward, a, b, d, k, x)
  }

  lemma {:induction false} ReachAlong<T>(forward: bool, a: seq<T>, b: seq<T>, d: int, k: int, x: int, u: int)
    requires ReachOn(forward, a, b, d, k, x) && x <= u
    requires forall i :: x < i <= u ==> FreeOn(forward, a, b, k, i)
    ensures ReachOn(forward, a, b, d, k, u)
    decreases u - x
  {
    if x < u {
      ReachAlong(forward, a, b, d, k, x, u - 1);
      assert FreeOn(forward, a, b, k, u);
    }
  }

  /** No `d`-edit path enters diagonal `k` by an edit further along than column `x`. */
  ghost predicate EntersAt<T>(forward: bool, a: seq<T>, b: seq<T>, d: int, k: int, x: int) {
    && ReachOn(forward, a, b, d, k, x)
    && NotBeyond(forward, a, b, d - 1, k - 1, x - 1)
    && NotBeyond(forward, a, b, d - 1, k + 1, x)
  }

  /** Entering a diagonal as far as possible and following it as far as possible is optimal. */
  lemma FurthestFromEntry<T>(forward: bool, a: seq<T>, b: seq<T>, d: nat, k: int, x: int, u: int)
    requires x <= u && EntersAt(forward, a, b, d, k, x)
    requires forall i :: x < i <= u ==> FreeOn(forward, a, b, k, i)
    requires !FreeOn(forward, a, b, k, u + 1)
    ensures Furthest(forward, a, b, d, k, u)
  {
    ReachAlong(forward, a, b, d, k, x, u);
    forall x' | ReachOn(forward, a, b, d, k, x') ensures x' <= u {
      NoFurther(forward, a, b, d, k, x, u, x');
    }
  }

  lemma {:induction false} NoFurther<T>(forward: bool, a: seq<T>, b: seq<T>, d: nat, k: int, x: int, u: int, x': int)
    requires x <= u && EntersAt(forward, a, b, d, k, x)
    requires !FreeOn(forward, a, b, k, u + 1)
    requires ReachOn(forward, a, b, d, k, x')
    ensures x' <= u
    decreases x' - u
  {
    var y' := x' - k;
    assert Reach(forward, a, b, d - 1, x' - 1, y') ==> ReachOn(forward, a, b, d - 1, k - 1, x' - 1);
    assert Reach(forward, a, b, d - 1, x', y' - 1) ==> ReachOn(forward, a, b, d - 1, k + 1, x');
    if u < x' && FreeOn(forward, a, b, k, x') && ReachOn(forward, a, b, d, k, x' - 1) {
      NoFurther(forward, a, b, d, k, x, u, x' - 1);
    }
  }

  /** Slots `o + lo` up to `o + hi` of a work array hold the furthest points on the diagonals
      `lo` up to `hi` that `d` edits can end on. */
  ghost predicate Row<T>(forward: bool, a: seq<T>, b: seq<T>, d: int, s: seq<int>, o: int, lo: int, hi: int) {
    && 0 <= o + lo && o + hi <= |s|
    && forall j :: o + lo <= j < o + hi && (j - o + d) % 2 == 0 ==> Furthest(forward, a, b, d, j - o, s[j])
  }

  /** On the diagonals from `lo` up to `hi` that both searches have reached, they do not meet. */
  ghost predicate Apart(s: seq<int>, o: int, d: int, o': int, d': int, n: int, delta: int, lo: int, hi: int)
    requires 0 <= o + lo && o + hi <= |s| && 0 <= o' - d' && o' + d' < |s|
  {
    forall j :: o + lo <= j < o + hi && (j - o + d) % 2 == 0 && -d' <= delta - (j - o) <= d' ==>
      s[j] + s[o' + delta - (j - o)] < n
  }

  /** The middle of a path of `d1 + d2` edits shows up as an overlap of furthest points. */
  lemma PathOverlaps<T>(a: seq<T>, b: seq<T>, d1: int, d2: int, s: seq<int>, o1: int, o2: int)
    requires 0 <= d1 && 0 <= d2
    requires Row(true, a, b, d1, s, o1, -d1, d1 + 1) && Row(false, a, b, d2, s, o2, -d2, d2 + 1)
    requires Reach(true, a, b, d1 + d2, |a|, |b|)
    ensures !Apart(s, o1, d1, o2, d2, |a|, |a| - |b|, -d1, d1 + 1)
    ensures !Apart(s, o2, d2, o1, d1, |a|, |a| - |b|, -d2, d2 + 1)
  {
    var u, v := CutPath(true, a, b, d1 + d2, |a|, |b|, 0, d1);
    var k := u - v;
    var k' := |a| - |b| - k;
    ReachDiagonal(true, a, b, d1, u, v);
    ReachDiagonal(false, a, b, d2, |a| - u, |b| - v);
    assert Furthest(true, a, b, d1, k, s[o1 + k]) && ReachOn(true, a, b, d1, k, u);
    assert Furthest(false, a, b, d2, k', s[o2 + k']) && ReachOn(false, a, b, d2, k', |a| - u);
  }

  // ----- lower bounds on the number of edits

  /** More than `e` edits are needed to get from corner to corner. */
  ghost predicate NoPath<T>(a: seq<T>, b: seq<T>, e: int) {
    forall d :: d <= e ==> !Reach(true, a, b, d, |a|, |b|)
  }

  /** A path read backwards. */
  lemma {:induction false} FlipPath<T>(forward: bool, a: seq<T>, b: seq<T>, d: int, x: int, y: int, r: int)
    requires x <= |a| && y <= |b|
    requires Reach(forward, a, b, d, x, y) && Reach(!forward, a, b, r, |a| - x, |b| - y)
    ensures Reach(!forward, a, b, r + d, |a|, |b|)
    decreases x + y
  {
    if d == 0 && x == 0 && y == 0 {
    } else if 0 < x && Reach(forward, a, b, d - 1, x - 1, y) {
      FlipPath(forward, a, b, d - 1, x - 1, y, r + 1);
    } else if 0 < y && Reach(forward, a, b, d - 1, x, y - 1) {
      FlipPath(forward, a, b, d - 1, x, y - 1, r + 1);
    } else {
      assert Matches(!forward, a, b, |a| - (x - 1), |b| - (y - 1));
      FlipPath(forward, a, b, d, x - 1, y - 1, r);
    }
  }

  /** How far outside the grid a point can be while the corners are known to be far apart. */
  lemma OffGridCost<T>(forward: bool, a: seq<T>, b: seq<T>, d: int, x: int, y: int, e: int)
    requires NoPath(a, b, e) && Reach(forward, a, b, d, x, y)
    requires |a| < x || |b| < y
    ensures e < d - (x - |a|) - (y - |b|)
  {
    ReachOffGrid(forward, a, b, d, x, y);
    if !forward {
      FlipPath(forward, a, b, d - (x - |a|) - (y - |b|), |a|, |b|, 0);
    }
  }

  /** An endpoint on a diagonal that the other direction has reached lies inside the grid. */
  lemma OverlapInGrid<T>(forward: bool, a: seq<T>, b: seq<T>, d: int, k: int, x: int, d2: int)
    requires NoPath(a, b, 2 * d - 2) && ReachOn(forward, a, b, d, k, x)
    requires d2 <= d && -d2 <= |a| - |b| - k <= d2
    ensures x <= |a| && x - k <= |b|
  {
    if |a| < x || |b| < x - k {
      OffGridCost(forward, a, b, d, x, x - k, 2 * d - 2);
    }
  }

  /** Edits all to one side never leave the grid on the other side. */
  lemma {:induction false} OneSided<T>(forward: bool, a: seq<T>, b: seq<T>, d: int, x: int, y: int)
    requires Reach(forward, a, b, d, x, y)
    ensures x - y == d ==> y <= |b|
    ensures x - y == -d ==> x <= |a|
    decreases x + y
  {
    if 0 < x && Reach(forward, a, b, d - 1, x - 1, y) {
      ReachDiagonal(forward, a, b, d - 1, x - 1, y);
      OneSided(forward, a, b, d - 1, x - 1, y);
    } else if 0 < y && Reach(forward, a, b, d - 1, x, y - 1) {
      ReachDiagonal(forward, a, b, d - 1, x, y - 1);
      OneSided(forward, a, b, d - 1, x, y - 1);
    }
  }

  /** While the corners are known to be far apart, one of the two outermost diagonals still
      ends inside the grid. */
  lemma ExtremeInGrid<T>(forward: bool, a: seq<T>, b: seq<T>, d: int, right: int, left: int)
    requires 0 < d && NoPath(a, b, 2 * d - 2)
    requires ReachOn(forward, a, b, d, d, right) && ReachOn(forward, a, b, d, -d, left)
    ensures (right <= |a| && right - d <= |b|) || (left <= |a| && left + d <= |b|)
  {
    OneSided(forward, a, b, d, right, right - d);
    OneSided(forward, a, b, d, left, left + d);
    if |a| < right && |b| < left + d {
      OffGridCost(forward, a, b, d, right, right - d, 2 * d - 2);
      OffGridCost(forward, a, b, d, left, left + d, 2 * d - 2);
    }
  }

  // ----- paths and parts of the grid

  /** (x, y) is reached with at most `d` edits. */
  ghost predicate Within<T>(forward: bool, a: seq<T>, b: seq<T>, d: int, x: int, y: int) {
    exists e :: e <= d && Reach(forward, a, b, e, x, y)
  }

  /** A neighbour is reached with one more edit at most. */
  lemma {:induction false} NeighbourWithin<T>(forward: bool, a: seq<T>, b: seq<T>, d: int, x: int, y: int)
    requires Reach(forward, a, b, d, x, y)
    ensures 0 < x ==> Within(forward, a, b, d + 1, x - 1, y)
    ensures 0 < y ==> Within(forward, a, b, d + 1, x, y - 1)
    decreases x + y
  {
    if 0 < x && Reach(forward, a, b, d - 1, x - 1, y) {
      NeighbourWithin(forward, a, b, d - 1, x - 1, y);
      if 0 < y {
        OneMore(forward, a, b, d, x - 1, y - 1);
      }
    } else if 0 < y && Reach(forward, a, b, d - 1, x, y - 1) {
      NeighbourWithin(forward, a, b, d - 1, x, y - 1);
      if 0 < x {
        OneMore(forward, a, b, d, x - 1, y - 1);
      }
    } else if 0 < x && 0 < y {
      assert Reach(forward, a, b, d, x - 1, y - 1);
      OneMore(forward, a, b, d, x - 1, y - 1);
    }
  }

  lemma OneMore<T>(forward: bool, a: seq<T>, b: seq<T>, d: int, x: int, y: int)
    requires Within(forward, a, b, d, x, y)
    ensures Within(forward, a, b, d + 1, x + 1, y) && Within(forward, a, b, d + 1, x, y + 1)
  {
    var e :| e <= d && Reach(forward, a, b, e, x, y);
    assert Reach(forward, a, b, e + 1, x + 1, y) && Reach(forward, a, b, e + 1, x, y + 1);
  }

  /** Back along a diagonal, free or not, one gets without more edits. */
  lemma {:induction false} DiagonalBack<T>(forward: bool, a: seq<T>, b: seq<T>, d: int, x: int, y: int, n: nat)
    requires Within(forward, a, b, d, x, y) && n <= x && n <= y
    ensures Within(forward, a, b, d, x - n, y - n)
  {
    if n != 0 {
      var e :| e <= d && Reach(forward, a, b, e, x, y);
      DiagonalBackOne(forward, a, b, e, x, y);
      var e' :| e' <= e && Reach(forward, a, b, e', x - 1, y - 1);
      assert Within(forward, a, b, d, x - 1, y - 1);
      DiagonalBack(forward, a, b, d, x - 1, y - 1, n - 1);
    }
  }

  lemma DiagonalBackOne<T>(forward: bool, a: seq<T>, b: seq<T>, d: int, x: int, y: int)
    requires Reach(forward, a, b, d, x, y) && 0 < x && 0 < y
    ensures Within(forward, a, b, d, x - 1, y - 1)
  {
    if Reach(forward, a, b, d - 1, x - 1, y) {
      NeighbourWithin(forward, a, b, d - 1, x - 1, y);
    } else if Reach(forward, a, b, d - 1, x, y - 1) {
      NeighbourWithin(forward, a, b, d - 1, x, y - 1);
    } else {
      assert Reach(forward, a, b, d, x - 1, y - 1);
    }
  }

  /** What lies behind a point does not matter for the paths to it. */
  lemma {:induction false} ReachInPart<T>(forward: bool, a: seq<T>, b: seq<T>, a': seq<T>, b': seq<T>, d: int, x: int,
                                          y: int)
    requires x <= |a| && x <= |a'| && y <= |b| && y <= |b'|
    requires forall i :: 0 <= i < x ==> At(forward, a, i) == At(forward, a', i)
    requires forall j :: 0 <= j < y ==> At(forward, b, j) == At(forward, b', j)
    requires Reach(forward, a, b, d, x, y)
    ensures Reach(forward, a', b', d, x, y)
    decreases x + y
  {
    if 0 < x && Reach(forward, a, b, d - 1, x - 1, y) {
      ReachInPart(forward, a, b, a', b', d - 1, x - 1, y);
    } else if 0 < y && Reach(forward, a, b, d - 1, x, y - 1) {
      ReachInPart(forward, a, b, a', b', d - 1, x, y - 1);
    } else if 0 < x && 0 < y {
      ReachInPart(forward, a, b, a', b', d, x - 1, y - 1);
    }
  }

  /** At most `e` edits are needed from corner to corner. */
  ghost predicate HasPath<T>(a: seq<T>, b: seq<T>, e: int) {
    Within(true, a, b, e, |a|, |b|)
  }

  lemma PathToPoint<T>(a: seq<T>, b: seq<T>, d: int, x: int, y: int)
    requires 0 <= x <= |a| && 0 <= y <= |b| && Within(true, a, b, d, x, y)
    ensures HasPath(a[..x], b[..y], d)
  {
    var e :| e <= d && Reach(true, a, b, e, x, y);
    ReachInPart(true, a, b, a[..x], b[..y], e, x, y);
  }

  lemma PathFromPoint<T>(a: seq<T>, b: seq<T>, d: int, x: int, y: int)
    requires 0 <= x <= |a| && 0 <= y <= |b| && Within(false, a, b, d, |a| - x, |b| - y)
    ensures HasPath(a[x..], b[y..], d)
  {
    var e :| e <= d && Reach(false, a, b, e, |a| - x, |b| - y);
    ReachInPart(false, a, b, a[x..], b[y..], e, |a| - x, |b| - y);
    FlipPath(false, a[x..], b[y..], e, |a| - x, |b| - y, 0);
  }

  /** Without a prefix of the same length, no more edits are needed. */
  lemma PathBehindPrefix<T>(a: seq<T>, b: seq<T>, n: nat, e: int)
    requires n <= |a| && n <= |b| && HasPath(a, b, e)
    ensures HasPath(a[n..], b[n..], e)
  {
    var d :| d <= e && Reach(true, a, b, d, |a|, |b|);
    FlipPath(true, a, b, d, |a|, |b|, 0);
    assert Within(false, a, b, e, |a|, |b|);
    DiagonalBack(false, a, b, e, |a|, |b|, n);
    PathFromPoint(a, b, e, n, n);
  }

  lemma PathBeforeSuffix<T>(a: seq<T>, b: seq<T>, n: nat, e: int)
    requires n <= |a| && n <= |b| && HasPath(a, b, e)
    ensures HasPath(a[..|a| - n], b[..|b| - n], e)
  {
    DiagonalBack(true, a, b, e, |a|, |b|, n);
    PathToPoint(a, b, e, |a| - n, |b| - n);
  }

  /** Dropping and taking everything is a path. */
  lemma {:induction false} EditEverything<T>(a: seq<T>, b: seq<T>, x: nat, y: nat)
    ensures Reach(true, a, b, x + y, x, y)
    decreases x + y
  {
    if 0 < x {
      EditEverything(a, b, x - 1, y);
    } else if 0 < y {
      EditEverything(a, b, x, y - 1);
    }
  }

  /** The lengths and their parity bound the number of edits from below. */
  lemma PathIsLong<T>(a: seq<T>, b: seq<T>, e: int)
    requires HasPath(a, b, e)
    ensures -e <= |a| - |b| <= e
  {
    var d :| d <= e && Reach(true, a, b, d, |a|, |b|);
    ReachDiagonal(true, a, b, d, |a|, |b|);
  }
}
