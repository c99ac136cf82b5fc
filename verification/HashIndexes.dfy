/** The hash index: a Robin Hood table from hashes to positions in an item vector. */
module HashIndexes {
  import opened HashTables

  class HashIndex {
    var entries: seq<Entry>

    ghost predicate Valid() reads this {
      RobinHood(entries)
    }

    ghost function Contents(): set<Entry> reads this {
      Live(entries)
    }

    constructor ()
      ensures Valid() && entries == [] && Contents() == {}
    {
      entries := [];
    }

    /** An index sized for `count` entries. */
    constructor Sized(count: nat)
      ensures Valid() && Contents() == {} && 2 * count + 1 <= |entries|
    {
      var minSize := 2 * count + 1;
      var newSize := 4;
      while newSize < minSize
        invariant IsPowerOfTwo(newSize) && 0 < newSize
        decreases minSize - newSize
      {
        newSize := newSize * 2;
      }
      EmptyTable(newSize);
      entries := seq(newSize, i => FREE);
    }

    /** `limit` bounds the number of entries while the table grows. */
    method Resize(newSize: nat, ghost limit: nat)
      requires Valid() && IsPowerOfTwo(newSize) && |entries| < newSize && |Contents()| <= limit
      modifies this
      ensures Valid() && Contents() == old(Contents()) && newSize <= |entries|
      decreases Gap(newSize, limit), 2
    {
      var oldEntries := entries;
      EmptyTable(newSize);
      entries := seq(newSize, i => FREE);
      assert Live(oldEntries[..0]) == {};
      for i := 0 to |oldEntries|
        invariant Valid() && Contents() == Live(oldEntries[..i]) && newSize <= |entries|
      {
        LivePrefix(oldEntries, i);
        if oldEntries[i].index >= 0 {
          AbsentFromPrefix(oldEntries, i, entries);
          SubsetSize(Live(oldEntries[..i + 1]), Live(oldEntries));
          Add(oldEntries[i].hash, oldEntries[i].index, limit);
        }
      }
      assert oldEntries[..|oldEntries|] == oldEntries;
    }

    method Reserve(count: nat)
      requires Valid()
      modifies this
      ensures Valid() && Contents() == old(Contents())
      ensures |old(entries)| <= |entries| && (0 < count ==> 2 * count + 1 <= |entries|)
    {
      if count == 0 {
        return;
      }
      var minSize := 2 * count + 1;
      var newSize := if entries == [] then 4 else |entries|;
      assert IsPowerOfTwo(4) by { assert IsPowerOfTwo(1) && IsPowerOfTwo(2); }
      while newSize < minSize
        invariant IsPowerOfTwo(newSize) && 0 < newSize && |entries| <= newSize
        decreases minSize - newSize
      {
        newSize := newSize * 2;
      }
      if newSize > |entries| {
        Resize(newSize, |Contents()|);
      }
    }

    /** One pass over the table: place the entry, or come out with an entry that found no slot. */
    method TryAdd(entry0: Entry) returns (placed: bool, entry: Entry, ghost target: nat)
      requires Valid() && entries != [] && entry0.index >= 0 && Absent(entries, entry0.index)
      modifies this
      ensures |entries| == |old(entries)|
      ensures placed ==> Valid() && Contents() == old(Contents()) + {entry0}
      ensures !placed ==> Carrying(entries, entry, target, |entries|)
      ensures !placed ==> Contents() + {entry} == old(Contents()) + {entry0}
    {
      entry := entry0;
      var slot := ComputeSlot(entry.hash, |entries|);
      var targetSlot := slot;
      target := targetSlot;
      while slot < |entries|
        invariant |entries| == |old(entries)| && target == targetSlot
        invariant Carrying(entries, entry, targetSlot, slot)
        invariant Contents() + {entry} == old(Contents()) + {entry0}
      {
        if entries[slot].index < 0 {
          DropInto(entries, entry, targetSlot, slot);
          entries := entries[slot := entry];
          return true, entry, targetSlot;
        }
        var candidateSlot := ComputeSlot(entries[slot].hash, |entries|);
        if targetSlot < candidateSlot {
          SwapAt(entries, entry, targetSlot, slot);
          entries, entry := entries[slot := entry], entries[slot];
          targetSlot := candidateSlot;
          target := targetSlot;
        } else {
          PassBy(entries, entry, targetSlot, slot);
        }
        slot := slot + 1;
      }
      placed := false;
    }

    /** Adding an entry, growing the table as often as it takes. */
    method Add(hash: Hash, index: nat, ghost limit: nat)
      requires Valid() && entries != [] && Absent(entries, index) && |Contents()| < limit
      modifies this
      ensures Valid() && Contents() == old(Contents()) + {Entry(hash, index)} && |old(entries)| <= |entries|
      decreases Gap(|entries|, limit), 1
    {
      var entry := Entry(hash, index);
      while true
        invariant Valid() && entries != [] && |old(entries)| <= |entries|
        invariant entry.index >= 0 && Absent(entries, entry.index) && |Contents()| < limit
        invariant Contents() + {entry} == old(Contents()) + {Entry(hash, index)}
        decreases Gap(|entries|, limit)
      {
        var placed, carried;
        ghost var target;
        ghost var before := Contents();
        placed, carried, target := TryAdd(entry);
        if placed {
          return;
        }
        FullTail(entries, target);
        NotLive(entries, carried);
        SameSize(before, entry, Contents(), carried);
        DoubledPower(|entries|);
        entry := carried;
        ghost var full := entries;
        Resize(|entries| * 2, limit);
        AbsentByContents(full, entries, entry.index);
      }
    }
  
    method Clear()
      modifies this
      ensures Valid() && entries == [] && Contents() == {}
    {
      entries := [];
    }

    method Remove(hash: Hash, index: nat)
      requires Valid() && Entry(hash, index) in Contents()
      modifies this
      ensures Valid() && Contents() == old(Contents()) - {Entry(hash, index)} && Absent(entries, index)
    {
      ghost var s := SlotOf(entries, Entry(hash, index));
      var slot := ComputeSlot(hash, |entries|);
      while slot < |entries|
        invariant slot <= s
      {
        assert slot == s || Used(entries, slot);
        if entries[slot].index == index {
          OneSlot(entries, slot, s);
          Unlink(slot);
          break;
        }
        slot := slot + 1;
      }
    }

    /** Free a slot and move the entries behind it down, as far as their homes allow. */
    method Unlink(slot: nat)
      requires Valid() && slot < |entries| && Used(entries, slot)
      modifies this
      ensures Valid() && Contents() == old(Contents()) - {old(entries[slot])}
      ensures Absent(entries, old(entries[slot].index))
    {
      ghost var gone := entries[slot];
      HoleAppears(entries, slot, entries[slot].(index := -1));
      entries := entries[slot := entries[slot].(index := -1)];
      var next := slot + 1;
      while next < |entries|
        invariant slot < next <= |entries| && Hole(entries, next - 1)
        invariant Contents() == old(Contents()) - {gone} && Absent(entries, gone.index)
      {
        if entries[next].index < 0 || ComputeSlot(entries[next].hash, |entries|) == next {
          break;
        }
        HoleMoves(entries, next - 1);
        ghost var before := entries;
        entries := entries[next - 1 := entries[next]][next := entries[next - 1]];
        AbsentByContents(before, entries, gone.index);
        next := next + 1;
      }
      HoleStays(entries, next - 1);
    }

    /** Close the gap that a removed position leaves: every later position moves down by one. */
    method OrderedFixEntries(index: nat)
      requires Valid() && Absent(entries, index)
      modifies this
      ensures Valid() && Contents() == set e | e in old(Contents()) :: Lowered(e, index)
    {
      for i := 0 to |entries|
        invariant |entries| == |old(entries)|
        invariant forall j :: 0 <= j < i ==> entries[j] == Lowered(old(entries)[j], index)
        invariant forall j :: i <= j < |entries| ==> entries[j] == old(entries)[j]
      {
        if entries[i].index >= index {
          entries := entries[i := entries[i].(index := entries[i].index - 1)];
        }
      }
      LoweredTable(old(entries), entries, index);
    }

    /** The item at position `oldIndex` has moved to `newIndex`. */
    method UnorderedFixEntries(hash: Hash, oldIndex: nat, newIndex: nat)
      requires Valid() && Entry(hash, oldIndex) in Contents() && Absent(entries, newIndex)
      modifies this
      ensures Valid() && Contents() == old(Contents()) - {Entry(hash, oldIndex)} + {Entry(hash, newIndex)}
    {
      ghost var s := SlotOf(entries, Entry(hash, oldIndex));
      var slot := ComputeSlot(hash, |entries|);
      while slot < |entries|
        invariant slot <= s
      {
        if entries[slot].index == oldIndex {
          OneSlot(entries, slot, s);
          RenamedEntry(entries, slot, newIndex);
          entries := entries[slot := entries[slot].(index := newIndex)];
          return;
        }
        slot := slot + 1;
      }
    }
  }

  function Lowered(e: Entry, index: int): Entry {
    if e.index >= index then e.(index := e.index - 1) else e
  }

  /** The slot of a live entry; every slot from its home on is used. */
  lemma SlotOf(t: seq<Entry>, e: Entry) returns (s: nat)
    requires RobinHood(t) && e in Live(t)
    ensures s < |t| && Used(t, s) && t[s] == e
    ensures ComputeSlot(e.hash, |t|) <= s && UsedFrom(t, ComputeSlot(e.hash, |t|), s)
  {
    s :| 0 <= s < |t| && Used(t, s) && t[s] == e;
    assert Reachable(t, s);
  }

  lemma OneSlot(t: seq<Entry>, i: nat, j: nat)
    requires Distinct(t) && i < |t| && j < |t| && Used(t, i) && Used(t, j) && t[i].index == t[j].index
    ensures i == j
  {
    assert Used(t, i) && Used(t, j);
  }

  /** A table whose entries keep their hashes and whether they are used keeps its shape. */
  lemma SameShape(t: seq<Entry>, u: seq<Entry>)
    requires RobinHood(t) && |u| == |t| && Distinct(u)
    requires forall s :: 0 <= s < |t| ==> u[s].hash == t[s].hash && (Used(u, s) <==> Used(t, s))
    ensures RobinHood(u)
  {
    forall s | 0 <= s < |u| ensures Reachable(u, s) {
      assert Reachable(t, s);
      if Used(u, s) {
        forall j | Home(u, s) <= j < s ensures Used(u, j) {
          assert Used(t, j);
        }
      }
    }
    forall s | 0 <= s < |u| ensures InOrder(u, s) {
      assert InOrder(t, s);
    }
  }

  lemma LoweredTable(t: seq<Entry>, u: seq<Entry>, index: nat)
    requires RobinHood(t) && Absent(t, index) && |u| == |t|
    requires forall s :: 0 <= s < |t| ==> u[s] == Lowered(t[s], index)
    ensures RobinHood(u) && Live(u) == set e | e in Live(t) :: Lowered(e, index)
  {
    forall s | 0 <= s < |t| ensures Used(u, s) <==> Used(t, s) {
      assert Used(t, s) ==> t[s].index != index;
    }
    forall i, j | 0 <= i < j < |u| && Used(u, i) && Used(u, j) ensures u[i].index != u[j].index {
      assert Used(t, i) && Used(t, j) && t[i].index != t[j].index;
    }
    SameShape(t, u);
    forall e | e in Live(t) ensures Lowered(e, index) in Live(u) {
      var s :| 0 <= s < |t| && Used(t, s) && t[s] == e;
      assert Used(u, s) && u[s] == Lowered(e, index);
    }
    forall x | x in Live(u) ensures exists e :: e in Live(t) && Lowered(e, index) == x {
      var s :| 0 <= s < |u| && Used(u, s) && u[s] == x;
      assert Used(t, s) && t[s] in Live(t);
    }
  }

  lemma RenamedEntry(t: seq<Entry>, s: nat, index: nat)
    requires RobinHood(t) && s < |t| && Used(t, s) && Absent(t, index)
    ensures var u := t[s := t[s].(index := index)];
      RobinHood(u) && Live(u) == Live(t) - {t[s]} + {t[s].(index := index)}
  {
    var u := t[s := t[s].(index := index)];
    LiveUpdate(t, s, t[s].(index := index));
    SameShape(t, u);
  }

  lemma SameSize<T>(a: set<T>, x: T, b: set<T>, y: T)
    requires b + {y} == a + {x} && y !in b
    ensures |b| <= |a|
  {
    assert |b + {y}| == |b| + 1 && |a + {x}| <= |a| + 1;
  }

  lemma DoubledPower(n: nat)
    requires IsPowerOfTwo(n)
    ensures IsPowerOfTwo(n * 2)
  {
    assert n * 2 / 2 == n && n * 2 % 2 == 0;
  }

  lemma NotLive(t: seq<Entry>, e: Entry)
    requires Absent(t, e.index)
    ensures e !in Live(t)
  {
  }

  lemma AbsentByContents(t: seq<Entry>, u: seq<Entry>, index: int)
    requires Absent(t, index) && Live(u) == Live(t)
    ensures Absent(u, index)
  {
    forall s | 0 <= s < |u| && Used(u, s) ensures u[s].index != index {
      assert u[s] in Live(u);
    }
  }

  lemma LivePrefix(t: seq<Entry>, i: nat)
    requires i < |t|
    ensures Live(t[..i + 1]) == Live(t[..i]) + (if t[i].index >= 0 then {t[i]} else {})
    ensures Live(t[..i + 1]) <= Live(t)
  {
    var u, v := t[..i], t[..i + 1];
    forall x | x in Live(v) ensures x in Live(t) && (x in Live(u) || (x == t[i] && t[i].index >= 0)) {
      var j :| 0 <= j < |v| && Used(v, j) && v[j] == x;
      assert Used(t, j) && t[j] == x;
      assert j < i ==> Used(u, j) && u[j] == x;
    }
    forall x | x in Live(u) ensures x in Live(v) {
      var j :| 0 <= j < |u| && Used(u, j) && u[j] == x;
      assert Used(v, j) && v[j] == x;
    }
    assert t[i].index >= 0 ==> Used(v, i);
  }

  lemma AbsentFromPrefix(t: seq<Entry>, i: nat, u: seq<Entry>)
    requires Distinct(t) && i < |t| && Used(t, i) && Live(u) == Live(t[..i])
    ensures Absent(u, t[i].index) && t[i] !in Live(t[..i])
  {
    forall x | x in Live(t[..i]) ensures x.index != t[i].index {
      var j :| 0 <= j < i && Used(t[..i], j) && t[..i][j] == x;
      assert Used(t, j);
    }
    forall s | 0 <= s < |u| && Used(u, s) ensures u[s].index != t[i].index {
      assert u[s] in Live(u);
    }
  }
}
