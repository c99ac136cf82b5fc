/** Facts about sequences, kept away from the functions they are used on. */
module Sequences {

  lemma Parts<T>(s: seq<T>, i: nat)
    requires i < |s|
    ensures s == s[..i] + [s[i]] + s[i + 1..]
    ensures s[..i + 1] == s[..i] + [s[i]]
  {
  }

  lemma TakeDrop<T>(s: seq<T>, i: nat)
    requires i <= |s|
    ensures s == s[..i] + s[i..]
  {
  }

  lemma TakeAll<T>(s: seq<T>)
    ensures s[..|s|] == s && s[0..] == s && s[..0] == [] && s[|s|..] == [] && s + [] == s
  {
  }

  /** The last element and what is before it. */
  lemma Last<T>(s: seq<T>)
    requires s != []
    ensures s == s[..|s| - 1] + [s[|s| - 1]]
  {
  }

  lemma TakeTake<T>(s: seq<T>, i: nat, j: nat)
    requires i <= j <= |s|
    ensures s[..j][..i] == s[..i]
  {
  }

  /** Cutting a slice at `k`. */
  lemma SliceParts<T>(s: seq<T>, i: nat, k: nat, j: nat)
    requires i <= k <= j <= |s|
    ensures s[i..j] == s[i..k] + s[k..j]
  {
  }

  lemma SliceOfSlice<T>(s: seq<T>, i: nat, j: nat, x: nat, y: nat, p: nat, q: nat)
    requires i <= j <= |s| && x <= y <= j - i && p == i + x && q == i + y
    ensures s[i..j][x..y] == s[p..q]
  {
    assert forall k :: 0 <= k < q - p ==> s[i..j][x..y][k] == s[i..j][x + k] == s[p + k];
  }

  lemma LastOfSlice<T>(s: seq<T>, i: nat, j: nat)
    requires i < j <= |s|
    ensures s[i..j][j - i - 1] == s[j - 1]
  {
  }

  /** A slice of the middle one of three parts. */
  lemma MiddleSlice<T>(s: seq<T>, p: seq<T>, q: seq<T>, r: seq<T>, i: nat, j: nat, x: nat, y: nat)
    requires s == p + q + r && i <= j <= |q| && x == |p| + i && y == |p| + j
    ensures s[x..y] == q[i..j]
  {
  }

  /** The front of three parts, up to a place in the middle one. */
  lemma FrontPart<T>(s: seq<T>, p: seq<T>, q: seq<T>, r: seq<T>, i: nat, x: nat)
    requires s == p + q + r && i <= |q| && x == |p| + i
    ensures s[..x] == p + q[..i]
  {
  }

  /** The rest of three parts, from a place in the middle one. */
  lemma BackPart<T>(s: seq<T>, p: seq<T>, q: seq<T>, r: seq<T>, i: nat, x: nat)
    requires s == p + q + r && i <= |q| && x == |p| + i
    ensures s[x..] == q[i..] + r
  {
  }

  lemma Assoc<T>(a: seq<T>, b: seq<T>, c: seq<T>)
    ensures (a + b) + c == a + (b + c)
  {
  }

  lemma FromFront<T>(a: seq<T>, b: seq<T>)
    requires a != []
    ensures (a + b)[0] == a[0] && (a + b)[1..] == a[1..] + b
  {
  }

  /** What a concatenation starts and ends with. */
  lemma Cut<T>(a: seq<T>, b: seq<T>)
    ensures (a + b)[..|a|] == a && (a + b)[|a|..] == b
  {
  }
}
