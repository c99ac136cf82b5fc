/** The slots of a Robin Hood hash table without wrap-around, as a sequence. */
module HashTables {

  const HASH_LIMIT := 0x1_0000_0000_0000_0000

  /** A `size_t` hash value. */
  newtype Hash = x: int | 0 <= x < HASH_LIMIT

  /** A slot: free if the index is negative. */
  datatype Entry = Entry(hash: Hash, index: int)

  const FREE := Entry(0, -1)

  // ----- slots

  function BitAnd(x: nat, y: nat): nat {
    if x == 0 || y == 0 then 0 else (x % 2) * (y % 2) + 2 * BitAnd(x / 2, y / 2)
  }

  predicate IsPowerOfTwo(n: nat) {
    n == 1 || (0 < n && n % 2 == 0 && IsPowerOfTwo(n / 2))
  }

  /** Masking with a power of two less one is the remainder. */
  lemma {:induction false} MaskIsRemainder(x: nat, n: nat)
    requires IsPowerOfTwo(n)
    ensures BitAnd(x, n - 1) == x % n
  {
    if n != 1 {
      var m := n / 2;
      MaskIsRemainder(x / 2, m);
      assert (n - 1) / 2 == m - 1 && (n - 1) % 2 == 1;
      HalfRemainder(x, m);
      if x == 0 || n - 1 == 0 {
      } else {
        assert BitAnd(x, n - 1) == (x % 2) * 1 + 2 * BitAnd(x / 2, m - 1);
      }
    }
  }

  lemma HalfRemainder(x: nat, m: nat)
    requires 0 < m
    ensures x % (2 * m) == x % 2 + 2 * ((x / 2) % m)
  {
    var a, b := x / 2, x % 2;
    var q, r := a / m, a % m;
    assert a == q * m + r;
    assert x == q * (2 * m) + (2 * r + b);
    RemainderUnique(x, 2 * m, q, 2 * r + b);
  }

  lemma RemainderUnique(x: int, n: int, q: int, r: int)
    requires 0 < n && x == q * n + r && 0 <= r < n
    ensures x % n == r
  {
    var k := q - x / n;
    assert k * n == x % n - r;
    assert k >= 1 ==> k * n >= n;
    assert k <= -1 ==> k * n <= -n;
  }

  lemma RemainderBound(x: nat, n: nat)
    requires 0 < n
    ensures x % n <= x && x % n < n
  {
    if x < n {
      RemainderUnique(x, n, 0, x);
    }
  }

  /** The home slot of a hash; the unsigned size less one wraps around for an empty table. */
  function ComputeSlot(hash: Hash, size: nat): (slot: nat)
    requires size == 0 || IsPowerOfTwo(size)
    ensures slot <= hash as int && (0 < size ==> slot == hash as int % size && slot < size)
  {
    if size == 0 then hash as int
    else
      MaskIsRemainder(hash as int, size);
      RemainderBound(hash as int, size);
      BitAnd(hash as int, size - 1)
  }

  // ----- the invariant

  predicate Used(t: seq<Entry>, s: int)
    requires 0 <= s < |t|
  {
    t[s].index >= 0
  }

  ghost predicate TableSize(t: seq<Entry>) {
    t == [] || IsPowerOfTwo(|t|)
  }

  function Home(t: seq<Entry>, s: int): nat
    requires TableSize(t) && 0 <= s < |t|
  {
    ComputeSlot(t[s].hash, |t|)
  }

  ghost predicate UsedFrom(t: seq<Entry>, lo: int, hi: int) {
    0 <= lo && hi <= |t| && forall j :: lo <= j < hi ==> Used(t, j)
  }

  /** No free slot lies between an entry's home and its slot. */
  ghost predicate Reachable(t: seq<Entry>, s: int)
    requires TableSize(t) && 0 <= s < |t|
  {
    Used(t, s) ==> Home(t, s) <= s && UsedFrom(t, Home(t, s), s)
  }

  /** Homes do not decrease from one used slot to the next. */
  ghost predicate InOrder(t: seq<Entry>, s: int)
    requires TableSize(t) && 0 <= s < |t|
  {
    0 < s && Used(t, s - 1) && Used(t, s) ==> Home(t, s - 1) <= Home(t, s)
  }

  /** Each live index is in exactly one slot. */
  ghost predicate Distinct(t: seq<Entry>) {
    forall i, j :: 0 <= i < j < |t| && Used(t, i) && Used(t, j) ==> t[i].index != t[j].index
  }

  ghost predicate RobinHood(t: seq<Entry>) {
    && TableSize(t) && Distinct(t)
    && (forall s :: 0 <= s < |t| ==> Reachable(t, s))
    && (forall s :: 0 <= s < |t| ==> InOrder(t, s))
  }

  /** The entries in the table. */
  ghost function Live(t: seq<Entry>): set<Entry> {
    set s | 0 <= s < |t| && Used(t, s) :: t[s]
  }

  ghost predicate Absent(t: seq<Entry>, index: int) {
    forall s :: 0 <= s < |t| && Used(t, s) ==> t[s].index != index
  }

  lemma LiveUpdate(t: seq<Entry>, s: nat, e: Entry)
    requires s < |t| && Distinct(t) && e.index >= 0 && Absent(t, e.index)
    ensures Distinct(t[s := e])
    ensures Live(t[s := e]) == (if Used(t, s) then Live(t) - {t[s]} else Live(t)) + {e}
    ensures Used(t, s) ==> Absent(t[s := e], t[s].index)
  {
    var t' := t[s := e];
    assert Used(t', s);
    forall x | x in Live(t) && (!Used(t, s) || x != t[s]) ensures x in Live(t') {
      var j :| 0 <= j < |t| && Used(t, j) && t[j] == x;
      assert Used(t', j) && t'[j] == x;
    }
    forall x | x in Live(t') ensures x == e || (x in Live(t) && (!Used(t, s) || x != t[s])) {
      var j :| 0 <= j < |t'| && Used(t', j) && t'[j] == x;
      if j != s {
        assert Used(t, j);
      }
    }
  }

  lemma EmptyTable(n: nat)
    requires n == 0 || IsPowerOfTwo(n)
    ensures var t := seq(n, i => FREE); RobinHood(t) && Live(t) == {}
  {
  }

  /** A search from the home of an entry can stop at a free slot, or at the end: an entry that has not been met
      by then is not in the table. */
  lemma SearchCanStop(t: seq<Entry>, e: Entry, slot: nat)
    requires RobinHood(t) && t != [] && ComputeSlot(e.hash, |t|) <= slot <= |t| && (slot < |t| ==> !Used(t, slot))
    requires forall j :: ComputeSlot(e.hash, |t|) <= j < slot ==> t[j] != e
    ensures e !in Live(t)
  {
    forall s | 0 <= s < |t| && Used(t, s) ensures t[s] != e {
      assert Reachable(t, s);
    }
  }

  // ----- adding an entry

  /** `entry` is on its way: every slot from `target` up to `slot` is used, none of them by an
      entry that is closer to its home. */
  ghost predicate Carrying(t: seq<Entry>, entry: Entry, target: nat, slot: int) {
    && RobinHood(t) && entry.index >= 0 && Absent(t, entry.index)
    && t != [] && target == ComputeSlot(entry.hash, |t|) && target <= slot <= |t|
    && UsedFrom(t, target, slot)
    && (target < slot ==> Home(t, slot - 1) <= target)
  }

  /** Dropping the entry into slot `s`, be it free or taken by an entry closer to its home. */
  lemma DropInto(t: seq<Entry>, entry: Entry, target: nat, s: nat)
    requires Carrying(t, entry, target, s) && s < |t| && (Used(t, s) ==> target < Home(t, s))
    ensures RobinHood(t[s := entry])
    ensures Live(t[s := entry]) == (if Used(t, s) then Live(t) - {t[s]} else Live(t)) + {entry}
  {
    var t' := t[s := entry];
    LiveUpdate(t, s, entry);
    forall j | 0 <= j < |t'| ensures Reachable(t', j) {
      DropReachable(t, entry, target, s, j);
    }
    forall j | 0 <= j < |t'| ensures InOrder(t', j) {
      DropInOrder(t, entry, target, s, j);
    }
  }

  lemma DropReachable(t: seq<Entry>, entry: Entry, target: nat, s: nat, j: nat)
    requires Carrying(t, entry, target, s) && s < |t| && j < |t|
    ensures Reachable(t[s := entry], j)
  {
    var t' := t[s := entry];
    assert Reachable(t, j);
    if Used(t', j) {
      var home := Home(t', j);
      assert j != s ==> home == Home(t, j);
      forall i | home <= i < j ensures Used(t', i) {
        assert Used(t, i);
      }
    }
  }

  lemma DropInOrder(t: seq<Entry>, entry: Entry, target: nat, s: nat, j: nat)
    requires Carrying(t, entry, target, s) && s < |t| && j < |t|
    requires Used(t, s) ==> target < Home(t, s)
    ensures InOrder(t[s := entry], j)
  {
    var t' := t[s := entry];
    assert InOrder(t, j) && Reachable(t, j);
    if j == s && 0 < s {
      assert Reachable(t, s - 1);
      assert Home(t', s - 1) == Home(t, s - 1);
    } else if j == s + 1 && Used(t, j) {
      assert Home(t', j) == Home(t, j);
      assert Used(t, s) || Home(t, j) == j;
    }
  }

  /** Swapping with an entry closer to its home: that one is carried on. */
  lemma SwapAt(t: seq<Entry>, entry: Entry, target: nat, s: nat)
    requires Carrying(t, entry, target, s) && s < |t| && Used(t, s) && target < Home(t, s)
    ensures Carrying(t[s := entry], t[s], Home(t, s), s + 1)
    ensures Live(t[s := entry]) + {t[s]} == Live(t) + {entry}
  {
    DropInto(t, entry, target, s);
    LiveUpdate(t, s, entry);
    assert Reachable(t, s);
    assert t[s] in Live(t);
    var t' := t[s := entry];
    assert Used(t', s);
    forall j | Home(t, s) <= j < s + 1 ensures Used(t', j) {
      assert j < s ==> Used(t, j);
    }
  }

  lemma PassBy(t: seq<Entry>, entry: Entry, target: nat, s: nat)
    requires Carrying(t, entry, target, s) && s < |t| && Used(t, s) && Home(t, s) <= target
    ensures Carrying(t, entry, target, s + 1)
  {
  }

  // ----- how often a table has to grow

  lemma {:induction false} UsedSlotsCount(t: seq<Entry>)
    requires Distinct(t) && UsedFrom(t, 0, |t|)
    ensures |Live(t)| == |t|
  {
    if t == [] {
      assert Live(t) == {};
    } else {
      var n := |t| - 1;
      var u := t[..n];
      forall i | 0 <= i < n ensures Used(u, i) {
        assert Used(t, i);
      }
      UsedSlotsCount(u);
      assert Used(t, n);
      forall x | x in Live(t) ensures x in Live(u) + {t[n]} {
        var j :| 0 <= j < |t| && Used(t, j) && t[j] == x;
        assert j < n ==> Used(u, j) && u[j] == x;
      }
      forall x | x in Live(u) ensures x in Live(t) {
        var j :| 0 <= j < |u| && Used(u, j) && u[j] == x;
        assert Used(t, j) && t[j] == x;
      }
      forall j | 0 <= j < |u| && Used(u, j) ensures u[j] != t[n] {
        assert Used(t, j);
      }
      assert Live(t) == Live(u) + {t[n]};
    }
  }

  /** A table that runs full from some slot on is not much larger than that slot. */
  lemma FullTail(t: seq<Entry>, lo: nat)
    requires Distinct(t) && lo <= |t| && UsedFrom(t, lo, |t|)
    ensures |t| - lo <= |Live(t)|
  {
    var u := t[lo..];
    forall i | 0 <= i < |u| ensures Used(u, i) {
      assert Used(t, lo + i);
    }
    forall i, j | 0 <= i < j < |u| && Used(u, i) && Used(u, j) ensures u[i].index != u[j].index {
      assert Used(t, lo + i) && Used(t, lo + j);
    }
    UsedSlotsCount(u);
    forall x | x in Live(u) ensures x in Live(t) {
      var j :| 0 <= j < |u| && Used(u, j) && u[j] == x;
      assert Used(t, lo + j) && t[lo + j] == x;
    }
    SubsetSize(Live(u), Live(t));
  }

  lemma {:induction false} SubsetSize<T>(a: set<T>, b: set<T>)
    requires a <= b
    ensures |a| <= |b|
  {
    if a != {} {
      var x :| x in a;
      SubsetSize(a - {x}, b - {x});
    }
  }

  /** What is left of the room in which an insertion can still fail. */
  ghost function Gap(size: nat, limit: nat): nat {
    if size < HASH_LIMIT + limit then HASH_LIMIT + limit - size else 0
  }

  // ----- removing an entry

  lemma FreeSlot(t: seq<Entry>, s: nat, e: Entry)
    requires s < |t| && Distinct(t) && Used(t, s) && e.index < 0
    ensures Distinct(t[s := e]) && Live(t[s := e]) == Live(t) - {t[s]}
    ensures Absent(t[s := e], t[s].index)
  {
    var t' := t[s := e];
    forall x | x in Live(t) && x != t[s] ensures x in Live(t') {
      var j :| 0 <= j < |t| && Used(t, j) && t[j] == x;
      assert Used(t', j) && t'[j] == x;
    }
    forall x | x in Live(t') ensures x in Live(t) && x != t[s] {
      var j :| 0 <= j < |t'| && Used(t', j) && t'[j] == x;
      assert Used(t, j);
    }
  }

  /** Reachable, if slot `h` is overlooked. */
  ghost predicate ReachableOver(t: seq<Entry>, h: int, s: int)
    requires TableSize(t) && 0 <= s < |t|
  {
    Used(t, s) ==> Home(t, s) <= s && forall i :: Home(t, s) <= i < s ==> i == h || Used(t, i)
  }

  /** A Robin Hood table with a hole at `h`, around which the homes are in order too. */
  ghost predicate Hole(t: seq<Entry>, h: int) {
    && TableSize(t) && Distinct(t) && 0 <= h < |t| && !Used(t, h)
    && (forall s :: 0 <= s < |t| ==> ReachableOver(t, h, s))
    && (forall s :: 0 <= s < |t| ==> InOrder(t, s))
    && (0 < h && h + 1 < |t| && Used(t, h - 1) && Used(t, h + 1) ==> Home(t, h - 1) <= Home(t, h + 1))
  }

  lemma HoleAppears(t: seq<Entry>, h: nat, e: Entry)
    requires RobinHood(t) && h < |t| && Used(t, h) && e.index < 0
    ensures Hole(t[h := e], h) && Live(t[h := e]) == Live(t) - {t[h]} && Absent(t[h := e], t[h].index)
  {
    var t' := t[h := e];
    FreeSlot(t, h, e);
    forall s | 0 <= s < |t'| ensures InOrder(t', s) {
      assert InOrder(t, s);
    }
    forall s | 0 <= s < |t'| ensures ReachableOver(t', h, s) {
      assert Reachable(t, s);
      if Used(t', s) {
        forall i | Home(t', s) <= i < s && i != h ensures Used(t', i) {
          assert Used(t, i);
        }
      }
    }
    assert InOrder(t, h);
    if h + 1 < |t| {
      assert InOrder(t, h + 1);
    }
  }

  /** The hole moves one slot on, past an entry that is not at home. */
  lemma HoleMoves(t: seq<Entry>, h: nat)
    requires Hole(t, h) && h + 1 < |t| && Used(t, h + 1) && Home(t, h + 1) != h + 1
    ensures var t' := t[h := t[h + 1]][h + 1 := t[h]]; Hole(t', h + 1) && Live(t') == Live(t)
  {
    var u := t[h + 1 := t[h]];
    var t' := u[h := t[h + 1]];
    assert t' == t[h := t[h + 1]][h + 1 := t[h]];
    assert t[h + 1] in Live(t);
    FreeSlot(t, h + 1, t[h]);
    LiveUpdate(u, h, t[h + 1]);
    var h' := h + 1;
    forall s | 0 <= s < |t'| ensures ReachableOver(t', h', s) {
      MovedReachable(t, h, s);
    }
    forall s | 0 <= s < |t'| ensures InOrder(t', s) {
      assert InOrder(t, s);
    }
    if h + 2 < |t| {
      assert InOrder(t, h + 2);
    }
  }

  lemma MovedReachable(t: seq<Entry>, h: nat, s: nat)
    requires Hole(t, h) && h + 1 < |t| && Used(t, h + 1) && Home(t, h + 1) != h + 1 && s < |t|
    ensures ReachableOver(t[h := t[h + 1]][h + 1 := t[h]], h + 1, s)
  {
    var t' := t[h := t[h + 1]][h + 1 := t[h]];
    var from := if s == h then h + 1 else s;
    assert ReachableOver(t, h, from);
    if Used(t', s) {
      assert Home(t', s) == Home(t, from);
      forall i | Home(t', s) <= i < s && i != h + 1 ensures Used(t', i) {
        assert i != h ==> Used(t, i);
      }
    }
  }

  lemma {:induction false} HomesAlongRun(t: seq<Entry>, i: nat, j: nat)
    requires TableSize(t) && i <= j < |t| && UsedFrom(t, i, j + 1)
    requires forall s :: 0 <= s < |t| ==> InOrder(t, s)
    ensures Home(t, i) <= Home(t, j)
    decreases j - i
  {
    if i < j {
      HomesAlongRun(t, i, j - 1);
      assert InOrder(t, j) && Used(t, j - 1) && Used(t, j);
    }
  }

  /** The hole can stay where nothing after it wants to move down. */
  lemma HoleStays(t: seq<Entry>, h: nat)
    requires Hole(t, h) && (h + 1 == |t| || !Used(t, h + 1) || Home(t, h + 1) == h + 1)
    ensures RobinHood(t)
  {
    forall s | 0 <= s < |t| ensures Reachable(t, s) {
      assert ReachableOver(t, h, s);
      if h < s && Used(t, s) && Home(t, s) <= h {
        assert UsedFrom(t, h + 1, s + 1);
        HomesAlongRun(t, h + 1, s);
      }
    }
  }
}
