/** HashmapSmall (HashmapSmall.hpp): chains linked by storage index below a directory that
  doubles when the load passes 7/10.

  `clearByMemset` of the source fills the bytes of the directory with the low byte of INT_MAX,
  which reads back as -1; here it writes `empty` to every slot, which is what it is for. */
module HashmapSmall {
  import opened Bits
  import opened Common
  import opened Sizing
  import opened TaggedWord

  // std::numeric_limits<int>::max()
  const EMPTY: nat := 0x7fff_ffff

  datatype Entry<K, V> = Entry(next: nat, hash: Hash, key: K, value: V)

  /** What was inserted, without the links. */
  datatype Item<K, V> = Item(hash: Hash, key: K, value: V)

  function Load(capacity: nat): nat { 7 * capacity / 10 }

  // ------------------------------------------------------------------------- Chains by index

  /** The newest of the first n items whose hash falls on slot p. */
  function Latest<K, V>(items: seq<Item<K, V>>, exp: nat, p: nat, n: nat): (r: nat)
    requires n <= |items| <= EMPTY
    ensures if r == EMPTY then forall i | 0 <= i < n :: Slot(exp, items[i].hash) != p
            else r < n && Slot(exp, items[r].hash) == p && forall i | r < i < n :: Slot(exp, items[i].hash) != p
  {
    if n == 0 then EMPTY
    else if Slot(exp, items[n - 1].hash) == p then n - 1
    else Latest(items, exp, p, n - 1)
  }

  ghost predicate LeadsToLatest<K, V>(items: seq<Item<K, V>>, exp: nat, dirs: seq<nat>, n: nat)
    requires n <= |items| <= EMPTY
  {
    forall p | 0 <= p < |dirs| :: dirs[p] == Latest(items, exp, p, n)
  }

  lemma LatestStep<K, V>(items: seq<Item<K, V>>, exp: nat, dirs: seq<nat>, n: nat)
    requires n < |items| <= EMPTY && |dirs| == Pow2(exp) && LeadsToLatest(items, exp, dirs, n)
    ensures LeadsToLatest(items, exp, dirs[Slot(exp, items[n].hash) := n], n + 1)
    ensures dirs[Slot(exp, items[n].hash)] == Latest(items, exp, Slot(exp, items[n].hash), n)
  {
  }

  /** The slots of the first n items are empty, the others as they were. */
  ghost predicate ClearedUpTo<K, V>(items: seq<Item<K, V>>, exp: nat, was: seq<nat>, now: seq<nat>, n: nat)
    requires n <= |items|
  {
    && |now| == |was| == Pow2(exp)
    && (forall p | 0 <= p < |now| :: now[p] == EMPTY || now[p] == was[p])
    && (forall i | 0 <= i < n :: now[Slot(exp, items[i].hash)] == EMPTY)
  }

  lemma ClearedStep<K, V>(items: seq<Item<K, V>>, exp: nat, was: seq<nat>, now: seq<nat>, n: nat)
    requires n < |items| && ClearedUpTo(items, exp, was, now, n)
    ensures ClearedUpTo(items, exp, was, now[Slot(exp, items[n].hash) := EMPTY], n + 1)
  {
  }

  /** Clearing the slots of the stored items empties the whole directory. */
  lemma StoredSlotsAreAll<K, V>(items: seq<Item<K, V>>, exp: nat, was: seq<nat>, now: seq<nat>)
    requires |items| <= EMPTY && |was| == Pow2(exp) && LeadsToLatest(items, exp, was, |items|)
    requires ClearedUpTo(items, exp, was, now, |items|)
    ensures forall p | 0 <= p < |now| :: now[p] == EMPTY
  {
    forall p | 0 <= p < |now|
      ensures now[p] == EMPTY
    {
      assert was[p] == Latest(items, exp, p, |items|);
      assert was[p] != EMPTY ==> Slot(exp, items[was[p]].hash) == p;
    }
  }

  /** Later inserts do not change what was newest before them. */
  lemma {:induction false} LatestFrame<K, V>(items: seq<Item<K, V>>, more: seq<Item<K, V>>, exp: nat, p: nat, n: nat)
    requires n <= |items| && items <= more && |more| <= EMPTY
    ensures Latest(more, exp, p, n) == Latest(items, exp, p, n)
  {
    if n > 0 {
      LatestFrame(items, more, exp, p, n - 1);
    }
  }

  /** The newest of the first n items that `comp` accepts. */
  function NewestMatch<K, V>(items: seq<Item<K, V>>, comp: K -> bool, n: nat): (r: Option<nat>)
    requires n <= |items|
    ensures match r
            case None => forall i | 0 <= i < n :: !comp(items[i].key)
            case Some(i) => i < n && comp(items[i].key) && forall j | i < j < n :: !comp(items[j].key)
  {
    if n == 0 then None
    else if comp(items[n - 1].key) then Some(n - 1)
    else NewestMatch(items, comp, n - 1)
  }

  /** The same among the items of one slot, as the chain holds them. */
  function NewestInSlot<K, V>(items: seq<Item<K, V>>, exp: nat, p: nat, comp: K -> bool, n: nat): Option<nat>
    requires n <= |items|
  {
    if n == 0 then None
    else if Slot(exp, items[n - 1].hash) == p && comp(items[n - 1].key) then Some(n - 1)
    else NewestInSlot(items, exp, p, comp, n - 1)
  }

  ghost predicate ImpliesHash<K, V>(items: seq<Item<K, V>>, comp: K -> bool, h: Hash) {
    forall i | 0 <= i < |items| :: comp(items[i].key) ==> items[i].hash == h
  }

  /** When `comp` implies the hash, looking in the hash's slot is looking everywhere. */
  lemma {:induction false} OneSlotIsEnough<K, V>(items: seq<Item<K, V>>, exp: nat, h: Hash, comp: K -> bool, n: nat)
    requires n <= |items| && ImpliesHash(items, comp, h)
    ensures NewestInSlot(items, exp, Slot(exp, h), comp, n) == NewestMatch(items, comp, n)
  {
    if n > 0 {
      OneSlotIsEnough(items, exp, h, comp, n - 1);
    }
  }

  /** Following a link skips only items of other slots. */
  lemma {:induction false} SkipToLatest<K, V>(items: seq<Item<K, V>>, exp: nat, p: nat, comp: K -> bool, n: nat)
    requires n <= |items| <= EMPTY
    ensures var cand := Latest(items, exp, p, n);
      NewestInSlot(items, exp, p, comp, n) ==
        if cand == EMPTY then None
        else if comp(items[cand].key) then Some(cand)
        else NewestInSlot(items, exp, p, comp, cand)
  {
    if n > 0 {
      SkipToLatest(items, exp, p, comp, n - 1);
    }
  }

  // ------------------------------------------------------------------------------- Sizing

  /** A directory over its load limit holding no more than what was asked for can double. */
  lemma RoomToDouble(size: nat, used: nat, exp: nat, maxExp: nat)
    requires used <= size && 10 * size <= 7 * Pow2(maxExp) && used > Load(Pow2(exp))
    ensures exp < maxExp && Pow2(exp + 1) <= Pow2(maxExp)
  {
    Pow2Order(exp, maxExp);
  }

  /** One doubling restores the load limit. */
  lemma DoublingIsEnough(capacity: nat, used: nat)
    requires capacity >= 1 && used <= Load(capacity) + 1
    ensures used <= Load(2 * capacity)
  {
  }

  class HashmapSmall<K(0), V(0)> {
    var mask: nat
    const entries: array<nat>
    const storage: array<Entry<K, V>>
    var storageUsed: nat
    var capacity: nat
    var capLimit: nat
    const maxCapacity: nat
    ghost var exp: nat
    ghost const maxExp: nat
    /** What was inserted since the last clear, oldest first. */
    ghost var items: seq<Item<K, V>>

    /** Slot p of the directory leads to the newest of its items, and each item to the one before
      it: following `next`, the index goes down at every step. */
    ghost predicate Linked(n: nat)
      requires n <= |items| <= EMPTY
      reads this, entries, storage
    {
      && capacity <= entries.Length && n <= storage.Length
      && LeadsToLatest(items, exp, entries[..capacity], n)
      && (forall i | 0 <= i < n :: storage[i].next == Latest(items, exp, Slot(exp, items[i].hash), i))
    }

    /** The stored entries are the items. */
    ghost predicate Stored()
      reads this, storage
    {
      && storageUsed == |items| <= storage.Length <= LARGEST
      && (forall i | 0 <= i < |items| :: Item(storage[i].hash, storage[i].key, storage[i].value) == items[i])
    }

    ghost predicate Sized()
      reads this
    {
      && capacity == Pow2(exp) <= maxCapacity == Pow2(maxExp) == entries.Length
      && mask == capacity - 1 && capLimit == Load(capacity)
      && maxCapacity <= 0x4000_0000 && 10 * storage.Length <= 7 * maxCapacity
    }

    ghost predicate Valid()
      reads this, entries, storage
    {
      Sized() && Stored() && storageUsed <= capLimit && Linked(|items|)
    }

    constructor (size: nat)
      requires 0 < size <= LARGEST
      ensures Valid() && items == [] && storage.Length == size && fresh(entries) && fresh(storage)
    {
      var e := DirectoryBits(size);
      maxCapacity := Pow2(e);
      capacity := if 256 <= Pow2(e) then 256 else Pow2(e);
      capLimit := Load(if 256 <= Pow2(e) then 256 else Pow2(e));
      mask := (if 256 <= Pow2(e) then 256 else Pow2(e)) - 1;
      entries := new nat[Pow2(e)];
      storage := new Entry<K, V>[size];
      storageUsed := 0;
      exp := if 256 <= Pow2(e) then 8 else e;
      maxExp := e;
      items := [];
      new;
      DirectoryFits(size);
      DirectoryIsInt(size);
      ClearByMemset();
    }

    method ClearByMemset()
      requires Sized()
      modifies entries
      ensures forall p | 0 <= p < capacity :: entries[p] == EMPTY
    {
      for p := 0 to capacity
        invariant forall q | 0 <= q < p :: entries[q] == EMPTY
      {
        entries[p] := EMPTY;
      }
    }

    /** hash & mask */
    function Position(hash: Hash): (pos: nat)
      requires Sized()
      reads this
      ensures pos == Slot(exp, hash) < capacity
    {
      And(hash, mask)
    }

    /** clear(hash_t) */
    method ClearSlot(hash: Hash)
      requires Sized()
      modifies entries
      ensures entries[..] == old(entries[..])[Slot(exp, hash) := EMPTY]
    {
      entries[Position(hash)] := EMPTY;
    }

    /** What clearElements is for: the slots of the stored entries. That is the whole directory. */
    method ClearElements()
      requires Valid()
      modifies entries
      ensures forall p | 0 <= p < capacity :: entries[p] == EMPTY
    {
      ghost var was := entries[..capacity];
      for i := 0 to storageUsed
        invariant ClearedUpTo(items, exp, was, entries[..capacity], i)
      {
        assert Item(storage[i].hash, storage[i].key, storage[i].value) == items[i];
        ghost var now := entries[..capacity];
        ClearSlot(storage[i].hash);
        assert entries[..capacity] == now[Slot(exp, items[i].hash) := EMPTY];
        ClearedStep(items, exp, was, now, i);
      }
      StoredSlotsAreAll(items, exp, was, entries[..capacity]);
      assert forall p | 0 <= p < capacity :: entries[p] == entries[..capacity][p];
    }

    method Clear()
      requires Valid()
      modifies this`storageUsed, this`items, entries
      ensures Valid() && items == []
    {
      if 10 * storageUsed < 3 * capacity {
        ClearElements();
      } else {
        ClearByMemset();
      }
      storageUsed := 0;
      items := [];
    }

    /** The newest entry since the last clear that `comp` accepts, as an index into the storage. */
    method FindFirst(hash: Hash, comp: K -> bool) returns (r: Option<nat>)
      requires Valid()
      ensures r == NewestInSlot(items, exp, Slot(exp, hash), comp, |items|)
      ensures ImpliesHash(items, comp, hash) ==> r == NewestMatch(items, comp, |items|)
    {
      var cand := entries[Position(hash)];
      ghost var p: nat, n: nat := Slot(exp, hash), |items|;
      ghost var newest := NewestInSlot(items, exp, p, comp, n);
      if ImpliesHash(items, comp, hash) {
        OneSlotIsEnough(items, exp, hash, comp, |items|);
      }
      while cand != EMPTY
        invariant n <= |items| && cand == Latest(items, exp, p, n)
        invariant NewestInSlot(items, exp, p, comp, n) == newest
        decreases n
      {
        SkipToLatest(items, exp, p, comp, n);
        assert Item(storage[cand].hash, storage[cand].key, storage[cand].value) == items[cand];
        if comp(storage[cand].key) {
          return Some(cand);
        }
        n := cand;
        cand := storage[cand].next;
      }
      SkipToLatest(items, exp, p, comp, n);
      r := None;
    }

    /** Puts stored entry i on top of its chain. */
    method Link(i: nat)
      requires Sized() && i < |items| && Stored() && Linked(i)
      modifies entries, storage
      ensures Stored() && Linked(i + 1)
    {
      hide LeadsToLatest, Latest;
      assert Item(storage[i].hash, storage[i].key, storage[i].value) == items[i];
      var dir := Position(storage[i].hash);
      ghost var dirs, links := entries[..capacity], storage[..];
      LatestStep(items, exp, dirs, i);
      storage[i] := storage[i].(next := entries[dir]);
      entries[dir] := i;
      assert entries[..capacity] == dirs[dir := i];
      assert storage[..] == links[i := links[i].(next := dirs[dir])];
    }

    /** Doubles the directory and links everything again. */
    method Grow()
      requires Sized() && Stored() && storageUsed == capLimit + 1
      modifies this`capacity, this`capLimit, this`mask, this`exp, entries, storage
      ensures Valid() && capacity == 2 * old(capacity)
    {
      RoomToDouble(storage.Length, storageUsed, exp, maxExp);
      DoublingIsEnough(capacity, storageUsed);
      capacity := 2 * capacity;
      capLimit := Load(capacity);
      mask := capacity - 1;
      exp := exp + 1;
      ClearByMemset();
      for i := 0 to storageUsed
        modifies entries, storage
        invariant Stored() && Linked(i)
      {
        Link(i);
      }
    }

    method Insert(key: K, hash: Hash, value: V)
      requires Valid() && storageUsed < storage.Length
      modifies this`storageUsed, this`items, this`capacity, this`capLimit, this`mask, this`exp, entries, storage
      ensures Valid() && items == old(items) + [Item(hash, key, value)]
      ensures capacity == old(capacity) * if 10 * (|old(items)| + 1) <= 7 * old(capacity) then 1 else 2
    {
      ghost var before := items;
      forall p: nat, n: nat | n <= |before|
        ensures Latest(before + [Item(hash, key, value)], exp, p, n) == Latest(before, exp, p, n)
      {
        LatestFrame(before, before + [Item(hash, key, value)], exp, p, n);
      }
      var entryPos := storageUsed;
      storageUsed := storageUsed + 1;
      storage[entryPos] := Entry(EMPTY, hash, key, value);
      items := before + [Item(hash, key, value)];
      Link(entryPos);
      if storageUsed > capLimit {
        Grow();
      }
    }
  }
}
