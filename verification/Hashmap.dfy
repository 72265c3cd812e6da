/** The chained hash table Hashmapx (Hashmap.hpp), used by one thread.

  Entries live at addresses; `next`, `hash`, `keys` and `values` are the fields of the entries
  by address. `log` records the inserted entries, oldest first. */
module Hashmap {
  import opened Bits
  import opened Common
  import opened HashmapProtocol
  import opened Sizing
  import opened TaggedWord

  /** The first entry of a chain with this hash and key. */
  function FirstMatch<K(==)>(hash: map<nat, Hash>, keys: map<nat, K>, chain: seq<nat>, h: Hash, key: K): (r: Option<nat>)
    requires Covers(hash, chain) && forall i | 0 <= i < |chain| :: chain[i] in keys
    ensures r.Some? ==> r.value in chain && hash[r.value] == h && keys[r.value] == key
    ensures r.None? ==> forall i | 0 <= i < |chain| :: hash[chain[i]] != h || keys[chain[i]] != key
    decreases chain
  {
    if chain == [] then None
    else if hash[chain[0]] == h && keys[chain[0]] == key then Some(chain[0])
    else FirstMatch(hash, keys, chain[1..], h, key)
  }

  /** No entry before place n of the chain has the hash and key. */
  ghost predicate NoneBefore<K>(hash: map<nat, Hash>, keys: map<nat, K>, chain: seq<nat>, h: Hash, key: K, n: nat)
    requires n <= |chain| && Covers(hash, chain) && forall i | 0 <= i < |chain| :: chain[i] in keys
  {
    forall j | 0 <= j < n :: hash[chain[j]] != h || keys[chain[j]] != key
  }

  lemma {:induction false} FirstIsFirst<K>(hash: map<nat, Hash>, keys: map<nat, K>, chain: seq<nat>, h: Hash, key: K)
    requires Covers(hash, chain) && forall i | 0 <= i < |chain| :: chain[i] in keys
    ensures match FirstMatch(hash, keys, chain, h, key)
            case None => true
            case Some(e) => exists i :: 0 <= i < |chain| && chain[i] == e && NoneBefore(hash, keys, chain, h, key, i)
    decreases chain
  {
    if chain != [] && !(hash[chain[0]] == h && keys[chain[0]] == key) {
      FirstIsFirst(hash, keys, chain[1..], h, key);
      var r := FirstMatch(hash, keys, chain[1..], h, key);
      if r.Some? {
        var i :| 0 <= i < |chain| - 1 && chain[1..][i] == r.value && NoneBefore(hash, keys, chain[1..], h, key, i);
        forall j | 0 <= j < i + 1
          ensures hash[chain[j]] != h || keys[chain[j]] != key
        {
          assert j > 0 ==> chain[1..][j - 1] == chain[j];
        }
        assert chain[i + 1] == r.value && NoneBefore(hash, keys, chain, h, key, i + 1);
      }
    }
  }

  /** Entry i of the log is the last one inserted with this hash and key. */
  ghost predicate IsNewest<K>(hash: map<nat, Hash>, keys: map<nat, K>, log: seq<nat>, h: Hash, key: K, i: nat)
    requires Covers(hash, log) && forall i | 0 <= i < |log| :: log[i] in keys
  {
    && i < |log| && hash[log[i]] == h && keys[log[i]] == key
    && forall j | i < j < |log| :: hash[log[j]] != h || keys[log[j]] != key
  }

  /** The first match of the hash's chain is the newest of all entries with the hash and key. */
  lemma {:induction false} FirstIsNewest<K>(exp: nat, hash: map<nat, Hash>, keys: map<nat, K>, log: seq<nat>, h: Hash, key: K)
    requires Covers(hash, log) && forall i | 0 <= i < |log| :: log[i] in keys
    ensures match FirstMatch(hash, keys, Newest(exp, hash, log, Slot(exp, h)), h, key)
            case None => forall i | 0 <= i < |log| :: hash[log[i]] != h || keys[log[i]] != key
            case Some(e) => exists i :: 0 <= i < |log| && log[i] == e && IsNewest(hash, keys, log, h, key, i)
  {
    hide Slot, Newest, FirstMatch;
    if log == [] {
      NothingFirst(exp, hash, keys, log, h, key);
    } else {
      var last, older := |log| - 1, log[..|log| - 1];
      FirstIsNewest(exp, hash, keys, older, h, key);
      var r := FirstMatch(hash, keys, Newest(exp, hash, older, Slot(exp, h)), h, key);
      LastFirst(exp, hash, keys, log, h, key);
      if hash[log[last]] == h && keys[log[last]] == key {
        assert IsNewest(hash, keys, log, h, key, last);
      } else if r.Some? {
        var i :| 0 <= i < |older| && older[i] == r.value && IsNewest(hash, keys, older, h, key, i);
        assert log[i] == r.value && IsNewest(hash, keys, log, h, key, i);
      }
    }
  }

  lemma NothingFirst<K>(exp: nat, hash: map<nat, Hash>, keys: map<nat, K>, log: seq<nat>, h: Hash, key: K)
    requires log == []
    ensures FirstMatch(hash, keys, Newest(exp, hash, log, Slot(exp, h)), h, key) == None
  {
  }

  lemma LastFirst<K>(exp: nat, hash: map<nat, Hash>, keys: map<nat, K>, log: seq<nat>, h: Hash, key: K)
    requires Covers(hash, log) && log != [] && forall i | 0 <= i < |log| :: log[i] in keys
    ensures var e, older := log[|log| - 1], log[..|log| - 1];
      FirstMatch(hash, keys, Newest(exp, hash, log, Slot(exp, h)), h, key) ==
        if hash[e] == h && keys[e] == key then Some(e)
        else FirstMatch(hash, keys, Newest(exp, hash, older, Slot(exp, h)), h, key)
  {
    hide Slot;
    var older := Newest(exp, hash, log[..|log| - 1], Slot(exp, h));
    assert ([log[|log| - 1]] + older)[1..] == older;
  }

  /** The cell every key gets when the first n requests are served in turn and new cells are taken
    from `cells`, one per request. */
  function Directory<K(==)>(m: map<K, nat>, requests: seq<K>, cells: seq<nat>, n: nat): map<K, nat>
    requires n <= |requests| == |cells|
  {
    if n == 0 then m else
      var before := Directory(m, requests, cells, n - 1);
      if requests[n - 1] in before then before else before[requests[n - 1] := cells[n - 1]]
  }

  /** Slot p starts the chain of its entries, newest first; with tags on, its filter is exact. */
  ghost predicate SlotGood(useTags: bool, exp: nat, next: map<nat, nat>, hash: map<nat, Hash>, log: seq<nat>, word: nat, p: nat)
    requires Covers(hash, log)
  {
    && IsChain(next, Ptr(word), Newest(exp, hash, log, p))
    && (if useTags then FilterInv(hash, word, Newest(exp, hash, log, p)) else Ptr(word) == word)
  }

  ghost predicate AllGood(useTags: bool, exp: nat, next: map<nat, nat>, hash: map<nat, Hash>, log: seq<nat>, words: seq<nat>)
    requires Covers(hash, log)
  {
    forall p | 0 <= p < |words| :: SlotGood(useTags, exp, next, hash, log, words[p], p)
  }

  lemma EmptyIsGood(useTags: bool, exp: nat, next: map<nat, nat>, hash: map<nat, Hash>, words: seq<nat>)
    requires forall p | 0 <= p < |words| :: words[p] == END
    ensures AllGood(useTags, exp, next, hash, [], words)
  {
    forall b | 0 <= b < 16
      ensures !Shows(END, b)
    {
      EmptyWord(b);
    }
    EmptyWord(0);
  }

  /** The word a push leaves in the slot. */
  function Pushed(useTags: bool, hash: map<nat, Hash>, was: nat, e: nat): nat
    requires e in hash
  {
    if useTags then Update(was, e, hash[e]) else e
  }

  /** The link it leaves in the entry. */
  function Behind(useTags: bool, was: nat): nat {
    if useTags then Ptr(was) else was
  }

  lemma AddressIsItsPointer(e: nat)
    requires IsAddress(e)
    ensures Ptr(e) == e
  {
    MaskIsMod(e, 48);
    SmallMod(e, Pow2(48));
  }

  lemma SmallMod(e: nat, d: nat)
    requires e < d
    ensures e % d == e
  {
    RemainderIsUnique(e, d, 0, e);
  }

  lemma PushAtSlot(useTags: bool, exp: nat, next: map<nat, nat>, hash: map<nat, Hash>, log: seq<nat>, word: nat, e: nat)
    requires Covers(hash, log) && e in hash && e !in log && IsAddress(e)
    requires SlotGood(useTags, exp, next, hash, log, word, Slot(exp, hash[e]))
    ensures Covers(hash, log + [e])
    ensures SlotGood(useTags, exp, next[e := Ptr(word)], hash, log + [e], Pushed(useTags, hash, word, e), Slot(exp, hash[e]))
  {
    var p, next', log' := Slot(exp, hash[e]), next[e := Ptr(word)], log + [e];
    assert log'[..|log'| - 1] == log;
    ChainFrame(next, next', Ptr(word), Newest(exp, hash, log, p));
    AddressIsItsPointer(e);
    UpdatePointer(word, e, hash[e]);
    if useTags {
      PushKeepsFilter(hash, word, e, Newest(exp, hash, log, p));
    }
  }

  lemma PushElsewhere(useTags: bool, exp: nat, next: map<nat, nat>, hash: map<nat, Hash>, log: seq<nat>, word: nat, p: nat, e: nat, link: nat)
    requires Covers(hash, log) && e in hash && e !in log && p != Slot(exp, hash[e])
    requires SlotGood(useTags, exp, next, hash, log, word, p)
    ensures Covers(hash, log + [e])
    ensures SlotGood(useTags, exp, next[e := link], hash, log + [e], word, p)
  {
    var log' := log + [e];
    assert log'[..|log'| - 1] == log;
    ChainFrame(next, next[e := link], Ptr(word), Newest(exp, hash, log, p));
  }

  lemma PushIsGood(useTags: bool, exp: nat, next: map<nat, nat>, hash: map<nat, Hash>, log: seq<nat>, words: seq<nat>, e: nat)
    requires Covers(hash, log) && |words| == Pow2(exp) && AllGood(useTags, exp, next, hash, log, words)
    requires e in hash && e !in log && IsAddress(e)
    ensures Covers(hash, log + [e])
    ensures var pos := Slot(exp, hash[e]);
      AllGood(useTags, exp, next[e := Ptr(words[pos])], hash, log + [e], words[pos := Pushed(useTags, hash, words[pos], e)])
  {
    hide SlotGood, Slot;
    var pos := Slot(exp, hash[e]);
    PushAtSlot(useTags, exp, next, hash, log, words[pos], e);
    forall p | 0 <= p < |words| && p != pos
      ensures SlotGood(useTags, exp, next[e := Ptr(words[pos])], hash, log + [e], words[p], p)
    {
      PushElsewhere(useTags, exp, next, hash, log, words[p], p, e, Ptr(words[pos]));
    }
  }

  /** If the filter turns a hash away, the chain has no entry with it. */
  lemma NoMatchBehindFilter(hash: map<nat, Hash>, word: nat, chain: seq<nat>, h: Hash)
    requires Covers(hash, chain) && FilterInv(hash, word, chain) && And(word, Tag(h)) == 0
    ensures forall i | 0 <= i < |chain| :: hash[chain[i]] != h
  {
    MatchIsShows(word, h);
    assert forall i | 0 <= i < |chain| :: TagPos(hash[chain[i]]) != TagPos(h);
  }

  lemma {:induction false} NewestFrame(exp: nat, hash: map<nat, Hash>, hash': map<nat, Hash>, log: seq<nat>, p: nat)
    requires Covers(hash, log) && Covers(hash', log) && forall i | 0 <= i < |log| :: hash'[log[i]] == hash[log[i]]
    ensures Newest(exp, hash', log, p) == Newest(exp, hash, log, p)
  {
    if log != [] {
      NewestFrame(exp, hash, hash', log[..|log| - 1], p);
    }
  }

  /** An entry that is made but not inserted changes nothing. */
  lemma NewEntryIsGood(useTags: bool, exp: nat, next: map<nat, nat>, hash: map<nat, Hash>, log: seq<nat>, words: seq<nat>, a: nat, h: Hash)
    requires Covers(hash, log) && AllGood(useTags, exp, next, hash, log, words) && a !in hash
    ensures Covers(hash[a := h], log) && AllGood(useTags, exp, next[a := END], hash[a := h], log, words)
  {
    forall p | 0 <= p < |words|
      ensures SlotGood(useTags, exp, next[a := END], hash[a := h], log, words[p], p)
    {
      assert SlotGood(useTags, exp, next, hash, log, words[p], p);
      NewestFrame(exp, hash, hash[a := h], log, p);
      ChainFrame(next, next[a := END], Ptr(words[p]), Newest(exp, hash, log, p));
    }
  }

  /** The directory and the headers of the entries `known`: every slot starts the chain of the
    inserted entries that hash to it. */
  ghost predicate Table(useTags: bool, exp: nat, next: map<nat, nat>, hash: map<nat, Hash>, known: set<nat>, log: seq<nat>, words: seq<nat>) {
    && IsHeaders(next, hash, known, log)
    && |words| == Pow2(exp) && AllGood(useTags, exp, next, hash, log, words)
  }

  ghost predicate IsHeaders(next: map<nat, nat>, hash: map<nat, Hash>, known: set<nat>, log: seq<nat>) {
    next.Keys == hash.Keys == known && (forall e | e in hash :: IsAddress(e)) && Covers(hash, log) && Distinct(log)
  }

  lemma TableEmpty(useTags: bool, exp: nat, next: map<nat, nat>, hash: map<nat, Hash>, known: set<nat>, log: seq<nat>, words: seq<nat>)
    requires IsHeaders(next, hash, known, log) && |words| == Pow2(exp)
    requires forall p | 0 <= p < |words| :: words[p] == END
    ensures Table(useTags, exp, next, hash, known, [], words)
  {
    EmptyIsGood(useTags, exp, next, hash, words);
  }

  lemma TablePush(useTags: bool, exp: nat, next: map<nat, nat>, hash: map<nat, Hash>, known: set<nat>, log: seq<nat>, words: seq<nat>, e: nat)
    requires Table(useTags, exp, next, hash, known, log, words) && e in hash && e !in log
    ensures var pos := Slot(exp, hash[e]);
      Table(useTags, exp, next[e := Behind(useTags, words[pos])], hash, known, log + [e],
            words[pos := Pushed(useTags, hash, words[pos], e)])
  {
    PushIsGood(useTags, exp, next, hash, log, words, e);
    assert SlotGood(useTags, exp, next, hash, log, words[Slot(exp, hash[e])], Slot(exp, hash[e]));
  }

  lemma TableNew(useTags: bool, exp: nat, next: map<nat, nat>, hash: map<nat, Hash>, known: set<nat>, log: seq<nat>, words: seq<nat>, a: nat, h: Hash)
    requires Table(useTags, exp, next, hash, known, log, words) && a !in hash && IsAddress(a)
    ensures Table(useTags, exp, next[a := END], hash[a := h], known + {a}, log, words)
  {
    NewEntryIsGood(useTags, exp, next, hash, log, words, a, h);
  }

  /** `m` names the one entry of every key in the table, and every entry is under its key's hash. */
  ghost predicate IsDirectory<K>(m: map<K, nat>, keys: map<nat, K>, hash: map<nat, Hash>, hasher: K -> Hash, log: seq<nat>)
    requires Covers(hash, log) && keys.Keys == hash.Keys
  {
    && (forall i | 0 <= i < |log| :: keys[log[i]] in m && m[keys[log[i]]] == log[i] && hash[log[i]] == hasher(keys[log[i]]))
    && (forall k | k in m :: m[k] in log && keys[m[k]] == k)
  }

  lemma DirectoryGrows<K>(m: map<K, nat>, keys: map<nat, K>, hash: map<nat, Hash>, hasher: K -> Hash, log: seq<nat>, a: nat)
    requires Covers(hash, log) && keys.Keys == hash.Keys && IsDirectory(m, keys, hash, hasher, log)
    requires a in hash && keys[a] !in m && hash[a] == hasher(keys[a])
    ensures IsDirectory(m[keys[a] := a], keys, hash, hasher, log + [a])
  {
  }

  lemma DirectoryFrame<K>(m: map<K, nat>, keys: map<nat, K>, hash: map<nat, Hash>, hasher: K -> Hash, log: seq<nat>, a: nat, key: K, h: Hash)
    requires Covers(hash, log) && keys.Keys == hash.Keys && IsDirectory(m, keys, hash, hasher, log) && a !in hash
    ensures Covers(hash[a := h], log) && IsDirectory(m, keys[a := key], hash[a := h], hasher, log)
  {
  }

  /** The first n requests were answered with their keys' cells. */
  ghost predicate Answered<K>(requests: seq<K>, groups: seq<nat>, dir: map<K, nat>, n: nat)
    requires n <= |requests| && n <= |groups|
  {
    forall i | 0 <= i < n :: requests[i] in dir && groups[i] == dir[requests[i]]
  }

  lemma AnsweredNext<K>(requests: seq<K>, groups: seq<nat>, dir: map<K, nat>, n: nat, cell: nat)
    requires n < |requests| && n == |groups| && Answered(requests, groups, dir, n)
    ensures if requests[n] in dir then Answered(requests, groups + [dir[requests[n]]], dir, n + 1)
            else Answered(requests, groups + [cell], dir[requests[n] := cell], n + 1)
  {
  }

  /** The cells from n on are addresses of no known entry. */
  ghost predicate UnusedFrom(cells: seq<nat>, n: nat, known: set<nat>) {
    forall i | n <= i < |cells| :: IsAddress(cells[i]) && cells[i] !in known
  }

  lemma StillUnused(cells: seq<nat>, n: nat, known: set<nat>, grown: set<nat>)
    requires n < |cells| && UnusedFrom(cells, n, known) && Distinct(cells) && grown <= known + {cells[n]}
    ensures UnusedFrom(cells, n + 1, grown)
  {
  }

  lemma NotYetInserted(log: seq<nat>, es: seq<nat>, i: nat)
    requires i < |es| && Distinct(log + es)
    ensures es[i] !in log + es[..i] && log + es[..i] + [es[i]] == log + es[..i + 1]
  {
    var all := log + es;
    assert all[|log| + i] == es[i] && all[..|log| + i] == log + es[..i];
    assert forall j | 0 <= j < |log| + i :: all[j] != all[|log| + i];
  }

  lemma KeysGrow<T>(m: map<nat, T>, a: nat, x: T)
    ensures m[a := x].Keys == m.Keys + {a}
  {
  }

  class Hashmapx<K(==), V> {
    const useTags: bool
    const hasher: K -> Hash
    var capacity: nat
    var mask: nat
    var entries: array<nat>
    var nrEntries: nat

    var next: map<nat, nat>
    var hash: map<nat, Hash>
    var keys: map<nat, K>
    var values: map<nat, V>

    ghost var exp: nat
    ghost var log: seq<nat>
    ghost var words: seq<nat>

    constructor (useTags: bool, hasher: K -> Hash)
      ensures this.useTags == useTags && this.hasher == hasher && entries.Length == 0 && fresh(entries)
      ensures hash == map[] && next == map[] && keys == map[] && values == map[]
    {
      this.useTags, this.hasher := useTags, hasher;
      capacity, mask, nrEntries := 0, 0, 0;
      entries := new nat[0];
      next, hash, keys, values := map[], map[], map[], map[];
      exp, log, words := 0, [], [];
    }

    /** The entries of slot p, newest first. */
    ghost function Chain(p: nat): seq<nat>
      requires Covers(hash, log)
      reads this
    {
      Newest(exp, hash, log, p)
    }

    /** The fields of the entries, inserted or not. */
    ghost predicate EntriesOk()
      reads this
    {
      IsHeaders(next, hash, keys.Keys, log) && keys.Keys == values.Keys
    }

    ghost predicate Valid()
      reads this, entries
    {
      && capacity == entries.Length == Pow2(exp) && mask == capacity - 1
      && keys.Keys == values.Keys && nrEntries == |log|
      && entries[..] == words && Table(useTags, exp, next, hash, keys.Keys, log, words)
    }

    /** Sizes the directory. The capacity is a power of two with room for `size` entries at a
      load factor of 7/10, and no more than four times the entries. The memory comes zeroed. */
    method SetSize(size: nat) returns (limit: nat)
      requires EntriesOk() && size != 0
      modifies this`capacity, this`mask, this`entries, this`nrEntries, this`exp, this`log, this`words
      ensures Valid() && fresh(entries) && log == []
      ensures capacity == Pow2(exp) <= 4 * size
      ensures size <= limit == 7 * capacity / 10 && 7 * (capacity / 2) < 10 * size
    {
      hide Table, IsHeaders, DirectoryBits, Pow2;
      nrEntries := 0;
      var exponent := DirectoryBits(size);
      DirectoryFits(size);
      capacity := Pow2(exponent);
      mask := capacity - 1;
      entries := new nat[capacity](_ => END);
      TableEmpty(useTags, exponent, next, hash, keys.Keys, log, entries[..]);
      exp, log, words := exponent, [], entries[..];
      limit := 7 * capacity / 10;
    }

    method Clear()
      requires Valid()
      modifies this`nrEntries, this`log, this`words, entries
      ensures Valid() && log == []
    {
      hide AllGood;
      nrEntries := 0;
      for i := 0 to capacity
        modifies entries
        invariant forall p | 0 <= p < i :: entries[p] == END
      {
        entries[i] := END;
      }
      TableEmpty(useTags, exp, next, hash, keys.Keys, log, entries[..]);
      log, words := [], entries[..];
    }

    /** Hashmap::insert_tagged<false> or Hashmap::insert<false>: the entry is linked before its slot's
      chain and the slot's word becomes the entry's. */
    method Push(e: nat)
      requires Valid() && e in hash
      modifies this`next, entries
      ensures var pos := Slot(exp, hash[e]);
        && next == old(next)[e := Behind(useTags, old(words[pos]))]
        && entries[..] == old(words)[pos := Pushed(useTags, hash, old(words[pos]), e)]
    {
      hide Table, Update, Ptr, Slot;
      var pos := Position(hash[e]);
      var oldValue := entries[pos];
      if useTags {
        next := next[e := Ptr(oldValue)];
        entries[pos] := Update(oldValue, e, hash[e]);
      } else {
        next := next[e := oldValue];
        entries[pos] := e;
      }
    }

    /** A single-threaded push on the chain of the entry's slot. */
    method Insert(e: nat)
      requires Valid() && e in hash && e !in log
      modifies this`next, this`nrEntries, this`log, this`words, entries
      ensures Valid() && log == old(log) + [e]
    {
      hide Table, Behind, Pushed, Slot, Pow2;
      TablePush(useTags, exp, next, hash, keys.Keys, log, words, e);
      Push(e);
      nrEntries := nrEntries + 1;
      log, words := log + [e], entries[..];
      assert Table(useTags, exp, next, hash, keys.Keys, log, words);
    }

    /** insertAll: the entries one after the other. */
    method InsertAll(es: seq<nat>)
      requires Valid() && Distinct(log + es) && Covers(hash, es)
      modifies this`next, this`nrEntries, this`log, this`words, entries
      ensures Valid() && log == old(log) + es
    {
      hide AllGood;
      for i := 0 to |es|
        invariant Valid() && log == old(log) + es[..i]
      {
        NotYetInserted(old(log), es, i);
        Insert(es[i]);
      }
      assert es[..|es|] == es;
    }

    /** hash & mask */
    function Position(h: Hash): (pos: nat)
      requires Valid()
      reads this, entries
      ensures pos == Slot(exp, h) < entries.Length
    {
      And(h, mask)
    }
  
    /** find_chain or find_chain_tagged: the chain of the hash's slot, or nothing, and then only if no
      entry of the chain has the hash. */
    method FindChain(h: Hash) returns (entry: nat)
      requires Valid()
      ensures entry != END ==> IsChain(next, entry, Chain(Slot(exp, h)))
      ensures entry == END ==> forall i | 0 <= i < |Chain(Slot(exp, h))| :: hash[Chain(Slot(exp, h))[i]] != h
    {
      var pos := Position(h);
      var candidate := entries[pos];
      assert SlotGood(useTags, exp, next, hash, log, words[pos], pos);
      if !useTags || And(candidate, Tag(h)) != 0 {
        entry := Ptr(candidate);
      } else {
        entry := END;
        NoMatchBehindFilter(hash, candidate, Chain(pos), h);
      }
    }

    /** findOneEntry: the newest entry with this hash and key, with or without the tag filter. */
    method FindOne(key: K, h: Hash) returns (r: Option<nat>)
      requires Valid()
      ensures r == FirstMatch(hash, keys, Chain(Slot(exp, h)), h, key)
      // the first match of the chain, and the newest of all entries
      ensures match r
              case None => forall i | 0 <= i < |log| :: hash[log[i]] != h || keys[log[i]] != key
              case Some(e) => exists i :: 0 <= i < |log| && log[i] == e && IsNewest(hash, keys, log, h, key, i)
      ensures var chain := Chain(Slot(exp, h));
        match r
        case None => NoneBefore(hash, keys, chain, h, key, |chain|)
        case Some(e) =>
          && hash[e] == h && keys[e] == key
          && exists i :: 0 <= i < |chain| && chain[i] == e && NoneBefore(hash, keys, chain, h, key, i)
    {
      FirstIsNewest(exp, hash, keys, log, h, key);
      FirstIsFirst(hash, keys, Chain(Slot(exp, h)), h, key);
      var entry := FindChain(h);
      ghost var rest := if entry == END then [] else Chain(Slot(exp, h));
      while entry != END
        invariant IsChain(next, entry, rest) && Covers(hash, rest) && forall i | 0 <= i < |rest| :: rest[i] in keys
        invariant FirstMatch(hash, keys, rest, h, key) == FirstMatch(hash, keys, Chain(Slot(exp, h)), h, key)
        decreases |rest|
      {
        if hash[entry] == h && keys[entry] == key {
          return Some(entry);
        }
        entry, rest := next[entry], rest[1..];
      }
      r := None;
    }
  
    /** The table holds one entry per key of `m`, stored under the key's hash: m[k] is k's cell. */
    ghost predicate Represents(m: map<K, nat>)
      requires EntriesOk()
      reads this
    {
      IsDirectory(m, keys, hash, hasher, log)
    }

    lemma MatchIsDirectory(m: map<K, nat>, key: K)
      requires EntriesOk() && Represents(m)
      ensures FirstMatch(hash, keys, Chain(Slot(exp, hasher(key))), hasher(key), key)
           == if key in m then Some(m[key]) else None
    {
      var chain := Chain(Slot(exp, hasher(key)));
      var r := FirstMatch(hash, keys, chain, hasher(key), key);
      if r.Some? {
        var i :| 0 <= i < |log| && log[i] == r.value;
        assert m[keys[log[i]]] == log[i];
      }
      if key in m {
        var i :| 0 <= i < |log| && log[i] == m[key];
        assert m[keys[log[i]]] == log[i];
        assert m[key] in chain;
      }
    }

    /** findOrCreate: `a` is where the entry collection puts a new entry, if one is needed. */
    method FindOrCreate(ghost m: map<K, nat>, key: K, defaultValue: V, a: nat) returns (group: nat)
      requires Valid() && Represents(m)
      requires IsAddress(a) && a !in hash
      modifies this`next, this`hash, this`keys, this`values, this`nrEntries, this`log, this`words, entries
      ensures Valid() && Represents(if key in m then m else m[key := a])
      ensures group == if key in m then m[key] else a
      ensures values == if key in m then old(values) else old(values)[a := defaultValue]
      ensures hash.Keys <= old(hash.Keys) + {a}
    {
      hide AllGood;
      var h := hasher(key);
      var found := FindOne(key, h);
      MatchIsDirectory(m, key);
      if found.Some? {
        return found.value;
      }
      DirectoryFrame(m, keys, hash, hasher, log, a, key, h);
      Emplace(key, h, defaultValue, a);
      DirectoryGrows(m, keys, hash, hasher, log, a);
      Insert(a);
      group := a;
    }

    /** entryCollection.emplace_back: the entry exists but is in no chain yet. */
    method Emplace(key: K, h: Hash, value: V, a: nat)
      requires Valid() && IsAddress(a) && a !in hash
      modifies this`next, this`hash, this`keys, this`values
      ensures Valid()
      ensures next == old(next)[a := END] && hash == old(hash)[a := h]
      ensures keys == old(keys)[a := key] && values == old(values)[a := value]
    {
      hide Table, IsAddress, Pow2;
      TableNew(useTags, exp, next, hash, keys.Keys, log, words, a, h);
      KeysGrow(keys, a, key);
      KeysGrow(values, a, value);
      next, hash := next[a := END], hash[a := h];
      keys, values := keys[a := key], values[a := value];
    }

    /** Serving request n. */
    method Serve(ghost m: map<K, nat>, requests: seq<K>, n: nat, defaultValue: V, cells: seq<nat>, groups: seq<nat>)
      returns (groups': seq<nat>)
      requires n < |requests| == |cells| && Valid() && Represents(Directory(m, requests, cells, n))
      requires UnusedFrom(cells, n, hash.Keys) && Distinct(cells)
      requires n == |groups| && Answered(requests, groups, Directory(m, requests, cells, n), n)
      modifies this`next, this`hash, this`keys, this`values, this`nrEntries, this`log, this`words, entries
      ensures Valid() && Represents(Directory(m, requests, cells, n + 1)) && UnusedFrom(cells, n + 1, hash.Keys)
      ensures |groups'| == n + 1 && Answered(requests, groups', Directory(m, requests, cells, n + 1), n + 1)
    {
      assert IsAddress(cells[n]) && cells[n] !in hash;
      hide AllGood, Answered, UnusedFrom, IsDirectory;
      ghost var dir, known := Directory(m, requests, cells, n), hash.Keys;
      var group := FindOrCreate(dir, requests[n], defaultValue, cells[n]);
      StillUnused(cells, n, known, hash.Keys);
      AnsweredNext(requests, groups, dir, n, cells[n]);
      groups' := groups + [group];
    }

    /** Serving requests in turn: afterwards every requested key has exactly one cell, the one it
      was given first, and every answer was that cell. */
    method FindOrCreateAll(ghost m: map<K, nat>, requests: seq<K>, defaultValue: V, cells: seq<nat>) returns (groups: seq<nat>)
      requires Valid() && Represents(m) && |requests| == |cells|
      requires UnusedFrom(cells, 0, hash.Keys) && Distinct(cells)
      modifies this`next, this`hash, this`keys, this`values, this`nrEntries, this`log, this`words, entries
      ensures Valid() && Represents(Directory(m, requests, cells, |requests|))
      ensures |groups| == |requests| && Answered(requests, groups, Directory(m, requests, cells, |requests|), |requests|)
    {
      hide AllGood, UnusedFrom, IsDirectory;
      groups := [];
      for n := 0 to |requests|
        invariant Valid() && Represents(Directory(m, requests, cells, n)) && UnusedFrom(cells, n, hash.Keys)
        invariant |groups| == n && Answered(requests, groups, Directory(m, requests, cells, n), n)
      {
        groups := Serve(m, requests, n, defaultValue, cells, groups);
      }
    }
  }
}
