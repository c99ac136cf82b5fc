/** The insertion-ordered hash map: a vector of items and a hash index into it. */
module HashMaps {
  import opened HashTables
  import Sequences
  import opened HashIndexes

  datatype Item<K, V> = Item(key: K, value: V)

  /** The first position of `key`, by linear search. */
  ghost function Find<K, V>(items: seq<Item<K, V>>, key: K): (r: int)
    ensures -1 <= r < |items|
    ensures r >= 0 ==> items[r].key == key && forall i :: 0 <= i < r ==> items[i].key != key
    ensures r == -1 ==> forall i :: 0 <= i < |items| ==> items[i].key != key
  {
    if items == [] then -1
    else if items[0].key == key then 0
    else
      var r := Find(items[1..], key);
      assert forall i :: 1 <= i < |items| ==> items[i] == items[1..][i - 1];
      if r < 0 then -1 else r + 1
  }

  /** No key occurs twice. */
  ghost predicate UniqueKeys<K, V>(items: seq<Item<K, V>>) {
    forall i, j :: 0 <= i < j < |items| ==> items[i].key != items[j].key
  }

  /** The list with the item in place of the first one of its key, or behind all others. */
  ghost function WithItem<K, V>(items: seq<Item<K, V>>, item: Item<K, V>, multiKey: bool): seq<Item<K, V>> {
    var f := Find(items, item.key);
    if !multiKey && f >= 0 then items[f := item] else items + [item]
  }

  /** The list without position `i`. */
  ghost function Without<K, V>(items: seq<Item<K, V>>, i: nat): seq<Item<K, V>>
    requires i < |items|
  {
    items[..i] + items[i + 1..]
  }

  /** The list with the last item moved to position `i`. */
  ghost function LastMovedTo<K, V>(items: seq<Item<K, V>>, i: nat): seq<Item<K, V>>
    requires i < |items|
  {
    items[i := items[|items| - 1]][..|items| - 1]
  }

  /** The list without any item of this key. */
  ghost function WithoutKey<K, V>(items: seq<Item<K, V>>, key: K): seq<Item<K, V>> {
    if items == [] then []
    else (if items[0].key == key then [] else [items[0]]) + WithoutKey(items[1..], key)
  }

  /** The index entries of a list of items. */
  ghost function EntriesOf<K, V>(hash: K -> Hash, items: seq<Item<K, V>>): set<Entry> {
    set i | 0 <= i < |items| :: Entry(hash(items[i].key), i)
  }

  class HashMap<K(==), V> {
    const hash: K -> Hash
    const multiKey: bool
    const index: HashIndex
    var items: seq<Item<K, V>>

    ghost predicate Valid() reads this, index {
      && index.Valid()
      && index.Contents() == EntriesOf(hash, items)
      && (!multiKey ==> UniqueKeys(items))
    }

    constructor (hash: K -> Hash, multiKey: bool)
      ensures Valid() && items == [] && this.hash == hash && this.multiKey == multiKey && fresh(index)
    {
      this.hash, this.multiKey := hash, multiKey;
      index := new HashIndex();
      items := [];
    }

    /** From a list of items, which the source does not check for double keys. */
    constructor FromList(hash: K -> Hash, multiKey: bool, list: seq<Item<K, V>>)
      requires multiKey || UniqueKeys(list)
      ensures Valid() && items == list && this.hash == hash && this.multiKey == multiKey && fresh(index)
    {
      this.hash, this.multiKey := hash, multiKey;
      index := new HashIndex.Sized(|list|);
      items := list;
      new;
      for i := 0 to |items|
        invariant fresh(index) && index.Valid() && index.entries != []
        invariant this.hash == hash && this.multiKey == multiKey && items == list
        invariant index.Contents() == EntriesOf(hash, items[..i])
      {
        NextPosition(hash, items[..i], index.entries);
        ghost var limit := |index.Contents()| + 1;
        index.Add(hash(items[i].key), i, limit);
        OneMoreItem(hash, items[..i], items[i]);
        Sequences.Parts(items, i);
      }
      Sequences.TakeAll(items);
    }

    method FindIndex(key: K) returns (r: int)
      requires Valid()
      ensures -1 <= r < |items| && (r >= 0 ==> items[r].key == key)
      ensures r == -1 <==> Find(items, key) == -1
      ensures !multiKey ==> r == Find(items, key)
    {
      var h := hash(key);
      ghost var t, e := index.entries, Entry(h, Find(items, key));
      assert e.index >= 0 ==> e in EntriesOf(hash, items);
      var slot := ComputeSlot(h, |index.entries|);
      ghost var start := slot;
      while slot < |index.entries|
        invariant start <= slot && (t != [] ==> slot <= |t|)
        invariant forall j :: start <= j < slot && j < |t| ==> t[j] != e
      {
        var entry := index.entries[slot];
        assert Used(t, slot) <==> entry.index >= 0;
        if entry.index < 0 {
          SearchCanStop(t, e, slot);
          return -1;
        }
        EntryIsItem(hash, items, t, slot);
        if entry.hash == h && items[entry.index].key == key {
          return entry.index;
        }
        slot := slot + 1;
      }
      if t != [] {
        SearchCanStop(t, e, slot);
      }
      r := -1;
    }
  
    /** Overwrite the item of this key in place, or append. */
    method Insert(item: Item<K, V>)
      requires Valid()
      modifies this, index
      ensures Valid()
      ensures items == WithItem(old(items), item, multiKey)
    {
      var h := hash(item.key);
      if !multiKey {
        var i := FindIndex(item.key);
        if i >= 0 {
          Overwritten(hash, items, i, item);
          items := items[i := item];
          return;
        }
      }
      index.Reserve(|items| + 1);
      NextPosition(hash, items, index.entries);
      ghost var limit := |index.Contents()| + 1;
      index.Add(h, |items|, limit);
      OneMoreItem(hash, items, item);
      items := items + [item];
    }

    /** Remove an item and keep the others in order. */
    method Remove(key: K)
      requires Valid()
      modifies this, index
      ensures Valid()
      ensures Find(old(items), key) == -1 ==> items == old(items)
      ensures Find(old(items), key) >= 0 ==>
        exists i: nat :: i < |old(items)| && old(items)[i].key == key && items == Without(old(items), i)
      ensures !multiKey && Find(old(items), key) >= 0 ==> items == Without(old(items), Find(old(items), key))
    {
      var i := FindIndex(key);
      if i >= 0 {
        RemoveAt(i, hash(key));
      }
    }

    method RemoveAt(i: nat, h: Hash)
      requires Valid() && i < |items| && h == hash(items[i].key)
      modifies this, index
      ensures Valid() && items == Without(old(items), i)
    {
      ghost var before := items;
      assert Entry(h, i) in EntriesOf(hash, items);
      items := items[..i] + items[i + 1..];
      index.Remove(h, i);
      index.OrderedFixEntries(i);
      EntriesWithout(hash, before, i);
      UniqueWithout(before, i);
    }

    /** Remove an item and move the last one into its place. */
    method UnorderedRemove(key: K)
      requires Valid()
      modifies this, index
      ensures Valid()
      ensures Find(old(items), key) == -1 ==> items == old(items)
      ensures Find(old(items), key) >= 0 ==>
        exists i: nat :: i < |old(items)| && old(items)[i].key == key && items == LastMovedTo(old(items), i)
      ensures !multiKey && Find(old(items), key) >= 0 ==> items == LastMovedTo(old(items), Find(old(items), key))
    {
      var i := FindIndex(key);
      if i >= 0 {
        UnorderedRemoveAt(i, hash(key));
      }
    }

    method UnorderedRemoveAt(i: nat, h: Hash)
      requires Valid() && i < |items| && h == hash(items[i].key)
      modifies this, index
      ensures Valid() && items == LastMovedTo(old(items), i)
    {
      ghost var before := items;
      var last := |items| - 1;
      assert Entry(h, i) in EntriesOf(hash, items);
      assert Entry(hash(items[last].key), last) in EntriesOf(hash, items);
      items := items[i := items[last]];
      items := items[..last];
      index.Remove(h, i);
      if i != |items| {
        index.UnorderedFixEntries(hash(items[i].key), |items|, i);
      }
      EntriesLastMoved(hash, before, i);
      UniqueLastMoved(before, i);
    }

    /** Remove every item of this key. */
    method RemoveAll(key: K)
      requires Valid()
      modifies this, index
      ensures Valid() && items == WithoutKey(old(items), key)
    {
      var i := FindIndex(key);
      while i >= 0
        invariant Valid() && -1 <= i < |items| && (i >= 0 ==> items[i].key == key)
        invariant i == -1 <==> Find(items, key) == -1
        invariant WithoutKey(items, key) == WithoutKey(old(items), key)
        decreases |items| - (if i < 0 then 1 else 0)
      {
        DroppedAnyway(items, i, key);
        RemoveAt(i, hash(key));
        i := FindIndex(key);
      }
      NothingToDrop(items, key);
    }

    method Clear()
      requires Valid()
      modifies this, index
      ensures Valid() && items == []
    {
      items := [];
      index.Clear();
    }
  }

  lemma Overwritten<K, V>(hash: K -> Hash, items: seq<Item<K, V>>, i: nat, item: Item<K, V>)
    requires i < |items| && items[i].key == item.key
    ensures EntriesOf(hash, items[i := item]) == EntriesOf(hash, items)
    ensures UniqueKeys(items) ==> UniqueKeys(items[i := item])
  {
    var after := items[i := item];
    forall j | 0 <= j < |items| ensures after[j].key == items[j].key {
    }
    forall j | 0 <= j < |items| ensures Entry(hash(items[j].key), j) in EntriesOf(hash, after) {
      assert Entry(hash(after[j].key), j) in EntriesOf(hash, after);
    }
  }

  lemma EntriesWithout<K, V>(hash: K -> Hash, items: seq<Item<K, V>>, i: nat)
    requires i < |items|
    ensures EntriesOf(hash, Without(items, i)) ==
            set e | e in EntriesOf(hash, items) - {Entry(hash(items[i].key), i)} :: Lowered(e, i)
  {
    var after := Without(items, i);
    var kept := EntriesOf(hash, items) - {Entry(hash(items[i].key), i)};
    forall j | 0 <= j < |after| ensures exists e :: e in kept && Lowered(e, i) == Entry(hash(after[j].key), j) {
      var j' := if j < i then j else j + 1;
      assert after[j] == items[j'];
      assert Entry(hash(items[j'].key), j') in kept;
      assert Lowered(Entry(hash(items[j'].key), j'), i) == Entry(hash(after[j].key), j);
    }
    forall e | e in kept ensures Lowered(e, i) in EntriesOf(hash, after) {
      var j :| 0 <= j < |items| && e == Entry(hash(items[j].key), j);
      var j' := if j < i then j else j - 1;
      assert after[j'] == items[j];
    }
  }

  lemma UniqueWithout<K, V>(items: seq<Item<K, V>>, i: nat)
    requires i < |items|
    ensures UniqueKeys(items) ==> UniqueKeys(Without(items, i))
  {
  }

  lemma EntriesLastMoved<K, V>(hash: K -> Hash, items: seq<Item<K, V>>, i: nat)
    requires i < |items|
    ensures var last := |items| - 1; var h := hash(items[last].key);
      EntriesOf(hash, LastMovedTo(items, i)) ==
        if i == last then EntriesOf(hash, items) - {Entry(hash(items[i].key), i)}
        else EntriesOf(hash, items) - {Entry(hash(items[i].key), i)} - {Entry(h, last)} + {Entry(h, i)}
  {
    var after, last := LastMovedTo(items, i), |items| - 1;
    forall j | 0 <= j < |after| && j != i ensures Entry(hash(items[j].key), j) in EntriesOf(hash, after) {
      assert after[j] == items[j];
    }
    if i < last {
      assert after[i] == items[last];
      assert Entry(hash(after[i].key), i) in EntriesOf(hash, after);
    }
  }

  lemma UniqueLastMoved<K, V>(items: seq<Item<K, V>>, i: nat)
    requires i < |items|
    ensures UniqueKeys(items) ==> UniqueKeys(LastMovedTo(items, i))
  {
  }

  lemma {:induction false} DroppedAnyway<K, V>(items: seq<Item<K, V>>, i: nat, key: K)
    requires i < |items| && items[i].key == key
    ensures WithoutKey(Without(items, i), key) == WithoutKey(items, key)
  {
    if i == 0 {
      assert Without(items, 0) == items[1..];
    } else {
      DroppedAnyway(items[1..], i - 1, key);
      assert Without(items, i)[1..] == Without(items[1..], i - 1);
    }
  }

  lemma {:induction false} NothingToDrop<K, V>(items: seq<Item<K, V>>, key: K)
    requires Find(items, key) == -1
    ensures WithoutKey(items, key) == items
  {
    if items != [] {
      NothingToDrop(items[1..], key);
    }
  }

  lemma EntryIsItem<K, V>(hash: K -> Hash, items: seq<Item<K, V>>, t: seq<Entry>, s: nat)
    requires s < |t| && Used(t, s) && Live(t) == EntriesOf(hash, items)
    ensures t[s].index < |items| && t[s].hash == hash(items[t[s].index].key)
  {
    assert t[s] in Live(t);
  }

  lemma NextPosition<K, V>(hash: K -> Hash, items: seq<Item<K, V>>, t: seq<Entry>)
    requires Live(t) == EntriesOf(hash, items)
    ensures Absent(t, |items|)
  {
    forall s | 0 <= s < |t| && Used(t, s) ensures t[s].index != |items| {
      EntryIsItem(hash, items, t, s);
    }
  }

  lemma OneMoreItem<K, V>(hash: K -> Hash, items: seq<Item<K, V>>, item: Item<K, V>)
    ensures EntriesOf(hash, items + [item]) == EntriesOf(hash, items) + {Entry(hash(item.key), |items|)}
  {
    var all := items + [item];
    forall i | 0 <= i < |all|
      ensures Entry(hash(all[i].key), i) in EntriesOf(hash, items) + {Entry(hash(item.key), |items|)}
    {
      assert i < |items| ==> all[i] == items[i];
    }
    forall i | 0 <= i < |items| ensures Entry(hash(items[i].key), i) in EntriesOf(hash, all) {
      assert all[i] == items[i];
    }
    assert all[|items|] == item;
  }
}
