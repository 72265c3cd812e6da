/** The flat image of runtime::HashTable (Mmap.hpp): a directory of offsets followed by records
  that are linked by offset, in one stretch of bytes.

  The image is an array with one cell per byte. Storing an object puts it in the cell of its first
  byte and destroys the cells of its other bytes, so that overlapping objects would be lost. */
module MmapTable {
  import opened Bits

  datatype Cell<K, V> = Word(word: nat) | KeyCell(key: K) | ValueCell(value: V) | Other

  datatype Pair<K, V> = Pair(key: K, values: seq<V>)

  // sizeof(uint64_t), which is also sizeof(HT)
  const WORD: nat := 8

  /** sizeof(K), the place of `values` in a record, sizeof(HashTableVector) and sizeof(V). */
  datatype Layout = Layout(keySize: nat, valuesAt: nat, headerSize: nat, valueSize: nat) {
    predicate Sound() { keySize >= 1 && 16 + keySize <= valuesAt <= headerSize && valueSize >= 1 }
  }

  // ---------------------------------------------------------------------------- Layout

  function SlotAt(p: nat): nat { WORD + WORD * p }

  /** Where the records begin. */
  function Base(bits: nat): nat { WORD + WORD * Pow2(bits) }

  /** count * size */
  function Span(size: nat, count: nat): nat {
    if count == 0 then 0 else Span(size, count - 1) + size
  }

  lemma {:induction false} SpanIsProduct(size: nat, count: nat)
    ensures Span(size, count) == size * count
  {
    if count > 0 {
      SpanIsProduct(size, count - 1);
    }
  }

  lemma {:induction false} SpanGrows(size: nat, a: nat, b: nat)
    requires a < b
    ensures Span(size, a) + size <= Span(size, b)
    decreases b
  {
    if a + 1 < b {
      SpanGrows(size, a, b - 1);
    }
  }

  function RecordSize<K, V>(l: Layout, r: Pair<K, V>): nat { l.headerSize + Span(l.valueSize, |r.values|) }

  function ValueAt(l: Layout, o: nat, i: nat): nat { o + l.valuesAt + Span(l.valueSize, i) }

  /** The offset of record i, and for i == |m| the space of the whole image. */
  function Offset<K, V>(l: Layout, bits: nat, m: seq<Pair<K, V>>, i: nat): nat
    requires i <= |m|
  {
    if i == 0 then Base(bits) else Offset(l, bits, m, i - 1) + RecordSize(l, m[i - 1])
  }

  lemma OffsetAfter<K, V>(l: Layout, bits: nat, m: seq<Pair<K, V>>, i: nat)
    requires i < |m|
    ensures Offset(l, bits, m, i + 1) == Offset(l, bits, m, i) + l.headerSize + Span(l.valueSize, |m[i].values|)
  {
  }

  /** Records do not overlap, nor reach into the directory. */
  lemma {:induction false} RecordsAreApart<K, V>(l: Layout, bits: nat, m: seq<Pair<K, V>>, i: nat, j: nat)
    requires i < j <= |m|
    ensures Base(bits) <= Offset(l, bits, m, i)
    ensures Offset(l, bits, m, i) + RecordSize(l, m[i]) <= Offset(l, bits, m, j)
    decreases j
  {
    if i + 1 < j {
      RecordsAreApart(l, bits, m, i, j - 1);
    } else if i > 0 {
      RecordsAreApart(l, bits, m, i - 1, i);
    }
  }

  // ---------------------------------------------------------------------------- Contents

  function Position<K(!new)>(hash: K -> nat, bits: nat, key: K): (p: nat)
    ensures p < Pow2(bits)
  {
    MaskIsMod(hash(key), bits);
    And(hash(key), Pow2(bits) - 1)
  }

  /** What slot p of the directory holds after n records: the offset of the newest record of the
    slot, or 0. */
  function Head<K(!new), V>(hash: K -> nat, l: Layout, bits: nat, m: seq<Pair<K, V>>, p: nat, n: nat): nat
    requires n <= |m|
  {
    if n == 0 then 0
    else if Position(hash, bits, m[n - 1].key) == p then Offset(l, bits, m, n - 1)
    else Head(hash, l, bits, m, p, n - 1)
  }

  ghost predicate IsRecord<K, V>(l: Layout, image: seq<Cell<K, V>>, o: nat, r: Pair<K, V>, next: nat) {
    && l.Sound() && o + RecordSize(l, r) <= |image|
    && image[o] == Word(|r.values|)
    && image[o + 8] == Word(next)
    && image[o + 16] == KeyCell(r.key)
    && HoldsValues(l, image, o, r.values, |r.values|)
  }

  ghost predicate HoldsValues<K, V>(l: Layout, image: seq<Cell<K, V>>, o: nat, values: seq<V>, n: nat)
    requires n <= |values|
  {
    forall i | 0 <= i < n :: ValueAt(l, o, i) < |image| && image[ValueAt(l, o, i)] == ValueCell(values[i])
  }

  /** The image after n records. */
  ghost predicate Holds<K(!new), V>(hash: K -> nat, l: Layout, bits: nat, m: seq<Pair<K, V>>, image: seq<Cell<K, V>>, n: nat)
    requires n <= |m|
  {
    && l.Sound() && |image| == Offset(l, bits, m, |m|) && Base(bits) <= |image|
    && image[0] == Word(Pow2(bits) - 1)
    && (forall p | 0 <= p < Pow2(bits) :: image[SlotAt(p)] == Word(Head(hash, l, bits, m, p, n)))
    && (forall i | 0 <= i < n ::
          IsRecord(l, image, Offset(l, bits, m, i), m[i], Head(hash, l, bits, m, Position(hash, bits, m[i].key), i)))
  }

  /** Cells outside [from, to) are as before. */
  ghost predicate Elsewhere<K, V>(was: seq<Cell<K, V>>, now: seq<Cell<K, V>>, from: nat, to: nat) {
    |now| == |was| && forall i | 0 <= i < |was| && !(from <= i < to) :: now[i] == was[i]
  }

  method Put<K, V>(image: array<Cell<K, V>>, o: nat, size: nat, c: Cell<K, V>)
    requires size >= 1 && o + size <= image.Length
    modifies image
    ensures image[o] == c && (forall i | o < i < o + size :: image[i] == Other)
    ensures Elsewhere(old(image[..]), image[..], o, o + size)
  {
    image[o] := c;
    for i := o + 1 to o + size
      invariant image[o] == c && forall k | o < k < i :: image[k] == Other
      invariant Elsewhere(old(image[..]), image[..], o, o + size)
    {
      image[i] := Other;
    }
  }

  lemma ValuesFrame<K, V>(l: Layout, was: seq<Cell<K, V>>, now: seq<Cell<K, V>>, o: nat, values: seq<V>, n: nat, to: nat)
    requires l.Sound() && n <= |values| && HoldsValues(l, was, o, values, n) && Elsewhere(was, now, ValueAt(l, o, n), to)
    ensures HoldsValues(l, now, o, values, n)
  {
    forall i | 0 <= i < n
      ensures ValueAt(l, o, i) < |now| && now[ValueAt(l, o, i)] == ValueCell(values[i])
    {
      SpanGrows(l.valueSize, i, n);
    }
  }

  /** memcpy(e->values, ...) */
  method WriteValues<K, V>(l: Layout, image: array<Cell<K, V>>, o: nat, values: seq<V>)
    requires l.Sound() && ValueAt(l, o, |values|) <= image.Length
    modifies image
    ensures HoldsValues(l, image[..], o, values, |values|)
    ensures Elsewhere(old(image[..]), image[..], ValueAt(l, o, 0), ValueAt(l, o, |values|))
  {
    for i := 0 to |values|
      invariant HoldsValues(l, image[..], o, values, i)
      invariant Elsewhere(old(image[..]), image[..], ValueAt(l, o, 0), ValueAt(l, o, i))
    {
      if i + 1 < |values| {
        SpanGrows(l.valueSize, i + 1, |values|);
      }
      ghost var was := image[..];
      Put(image, ValueAt(l, o, i), l.valueSize, ValueCell(values[i]));
      ValuesFrame(l, was, image[..], o, values, i, ValueAt(l, o, i + 1));
    }
  }

  /** The fields and values of one record. */
  method WriteRecord<K, V>(l: Layout, image: array<Cell<K, V>>, o: nat, r: Pair<K, V>, next: nat)
    requires l.Sound() && o + RecordSize(l, r) <= image.Length
    modifies image
    ensures IsRecord(l, image[..], o, r, next)
    ensures Elsewhere(old(image[..]), image[..], o, o + RecordSize(l, r))
  {
    Put(image, o + 16, l.keySize, KeyCell(r.key));
    Put(image, o, WORD, Word(|r.values|));
    Put(image, o + 8, WORD, Word(next));
    WriteValues(l, image, o, r.values);
  }

  // ----------------------------------------------------------------------------- Writing

  lemma RecordFrame<K, V>(l: Layout, was: seq<Cell<K, V>>, now: seq<Cell<K, V>>, o: nat, r: Pair<K, V>, next: nat, from: nat, to: nat)
    requires IsRecord(l, was, o, r, next) && Elsewhere(was, now, from, to)
    requires o + RecordSize(l, r) <= from || to <= o
    ensures IsRecord(l, now, o, r, next)
  {
    forall i | 0 <= i < |r.values|
      ensures ValueAt(l, o, i) < |now| && now[ValueAt(l, o, i)] == ValueCell(r.values[i])
    {
      SpanGrows(l.valueSize, i, |r.values|);
    }
  }

  /** Writing record n in its place, behind the one its slot led to, and leading the slot to it. */
  lemma RecordAdded<K(!new), V>(hash: K -> nat, l: Layout, bits: nat, m: seq<Pair<K, V>>,
                                was: seq<Cell<K, V>>, mid: seq<Cell<K, V>>, now: seq<Cell<K, V>>, n: nat)
    requires n < |m| && Holds(hash, l, bits, m, was, n)
    requires var o := Offset(l, bits, m, n);
      && IsRecord(l, mid, o, m[n], Head(hash, l, bits, m, Position(hash, bits, m[n].key), n))
      && Elsewhere(was, mid, o, o + RecordSize(l, m[n]))
    requires var at := SlotAt(Position(hash, bits, m[n].key));
      && Elsewhere(mid, now, at, at + WORD) && at < |now| && now[at] == Word(Offset(l, bits, m, n))
    ensures Holds(hash, l, bits, m, now, n + 1)
  {
    hide IsRecord, Span, Offset, Pow2;
    forall p | 0 <= p < Pow2(bits)
      ensures now[SlotAt(p)] == Word(Head(hash, l, bits, m, p, n + 1))
    {
      SlotAfter(hash, l, bits, m, was, mid, now, n, p);
    }
    forall i | 0 <= i < n + 1
      ensures IsRecord(l, now, Offset(l, bits, m, i), m[i], Head(hash, l, bits, m, Position(hash, bits, m[i].key), i))
    {
      RecordAfter(hash, l, bits, m, was, mid, now, n, i);
    }
    BehindDirectory(l, bits, m, n);
  }

  lemma BehindDirectory<K, V>(l: Layout, bits: nat, m: seq<Pair<K, V>>, n: nat)
    requires n <= |m|
    ensures 8 <= Base(bits) <= Offset(l, bits, m, n) && forall p | 0 <= p < Pow2(bits) :: 8 <= SlotAt(p) && SlotAt(p) + WORD <= Base(bits)
  {
    BaseIsLeast(l, bits, m, n);
  }

  lemma SlotAfter<K(!new), V>(hash: K -> nat, l: Layout, bits: nat, m: seq<Pair<K, V>>,
                              was: seq<Cell<K, V>>, mid: seq<Cell<K, V>>, now: seq<Cell<K, V>>, n: nat, p: nat)
    requires n < |m| && p < Pow2(bits) && Base(bits) <= |was| && was[SlotAt(p)] == Word(Head(hash, l, bits, m, p, n))
    requires Elsewhere(was, mid, Offset(l, bits, m, n), Offset(l, bits, m, n) + RecordSize(l, m[n]))
    requires var at := SlotAt(Position(hash, bits, m[n].key));
      && Elsewhere(mid, now, at, at + WORD) && at < |now| && now[at] == Word(Offset(l, bits, m, n))
    ensures SlotAt(p) < |now| && now[SlotAt(p)] == Word(Head(hash, l, bits, m, p, n + 1))
  {
    hide IsRecord, Span, Offset, Pow2;
    BehindDirectory(l, bits, m, n);
    assert mid[SlotAt(p)] == was[SlotAt(p)];
    if p != Position(hash, bits, m[n].key) {
      assert now[SlotAt(p)] == mid[SlotAt(p)];
    }
  }

  lemma RecordAfter<K(!new), V>(hash: K -> nat, l: Layout, bits: nat, m: seq<Pair<K, V>>,
                                was: seq<Cell<K, V>>, mid: seq<Cell<K, V>>, now: seq<Cell<K, V>>, n: nat, i: nat)
    requires n < |m| && Holds(hash, l, bits, m, was, n) && i <= n
    requires var o := Offset(l, bits, m, n);
      && IsRecord(l, mid, o, m[n], Head(hash, l, bits, m, Position(hash, bits, m[n].key), n))
      && Elsewhere(was, mid, o, o + RecordSize(l, m[n]))
    requires var at := SlotAt(Position(hash, bits, m[n].key)); Elsewhere(mid, now, at, at + WORD)
    ensures IsRecord(l, now, Offset(l, bits, m, i), m[i], Head(hash, l, bits, m, Position(hash, bits, m[i].key), i))
  {
    hide IsRecord, Span, Offset, Pow2, Elsewhere, Head;
    var pos, o := Position(hash, bits, m[n].key), Offset(l, bits, m, n);
    var next := Head(hash, l, bits, m, Position(hash, bits, m[i].key), i);
    BehindDirectory(l, bits, m, i);
    if i < n {
      RecordsAreApart(l, bits, m, i, n);
      RecordFrame(l, was, mid, Offset(l, bits, m, i), m[i], next, o, o + RecordSize(l, m[n]));
    }
    RecordFrame(l, mid, now, Offset(l, bits, m, i), m[i], next, SlotAt(pos), SlotAt(pos) + WORD);
  }

  lemma {:induction false} BaseIsLeast<K, V>(l: Layout, bits: nat, m: seq<Pair<K, V>>, i: nat)
    requires i <= |m|
    ensures Base(bits) <= Offset(l, bits, m, i)
  {
    if i > 0 {
      BaseIsLeast(l, bits, m, i - 1);
    }
  }

  /** The mask and an all-zero directory. */
  method WriteDirectory<K, V>(image: array<Cell<K, V>>, bits: nat)
    requires Base(bits) <= image.Length
    modifies image
    ensures image[0] == Word(Pow2(bits) - 1)
    ensures forall p | 0 <= p < Pow2(bits) :: image[SlotAt(p)] == Word(0)
  {
    Put(image, 0, WORD, Word(Pow2(bits) - 1));
    for p := 0 to Pow2(bits)
      invariant image[0] == Word(Pow2(bits) - 1)
      invariant forall q | 0 <= q < p :: image[SlotAt(q)] == Word(0)
    {
      Put(image, SlotAt(p), WORD, Word(0));
    }
  }

  /** The number of bits of a slot. */
  method ChooseBits(size: nat) returns (bits: nat)
    ensures 3 * size <= 2 * Pow2(bits) && (bits == 1 || Pow2(bits) < 3 * size)
  {
    bits := 1;
    while 2 * Pow2(bits) < 3 * size
      invariant bits == 1 || Pow2(bits) < 3 * size
      decreases 3 * size - Pow2(bits)
    {
      bits := bits + 1;
    }
  }

  method Space<K, V>(l: Layout, bits: nat, m: seq<Pair<K, V>>) returns (space: nat)
    ensures space == Offset(l, bits, m, |m|)
  {
    hide Pow2, Span;
    space := WORD + Pow2(bits) * WORD;
    for i := 0 to |m|
      invariant space == Offset(l, bits, m, i)
    {
      space := space + l.headerSize + Span(l.valueSize, |m[i].values|);
    }
  }

  /** Puts record n in its place and leads its slot to it. */
  method AddRecord<K(!new), V>(hash: K -> nat, l: Layout, bits: nat, m: seq<Pair<K, V>>, image: array<Cell<K, V>>, n: nat, offset: nat)
    returns (next: nat)
    requires n < |m| && Holds(hash, l, bits, m, image[..], n) && offset == Offset(l, bits, m, n)
    modifies image
    ensures Holds(hash, l, bits, m, image[..], n + 1) && next == Offset(l, bits, m, n + 1)
  {
    hide IsRecord, Position, Pow2, Span, Offset, Head;
    ghost var was := image[..];
    RecordsAreApart(l, bits, m, n, |m|);
    OffsetAfter(l, bits, m, n);
    var at := SlotAt(Position(hash, bits, m[n].key));
    assert image[..][at] == image[at];
    WriteRecord(l, image, offset, m[n], image[at].word);
    ghost var mid := image[..];
    Put(image, at, WORD, Word(offset));
    RecordAdded(hash, l, bits, m, was, mid, image[..], n);
    next := offset + l.headerSize + Span(l.valueSize, |m[n].values|);
  }

  /** Writes the entries `m` of a map, in the order the map is walked. The directory has at least
    3/2 slots per key and, past two slots, fewer than 3; the last offset is the space computed. */
  method WriteBinary<K(!new), V>(hash: K -> nat, l: Layout, m: seq<Pair<K, V>>)
    returns (image: array<Cell<K, V>>, bits: nat, offset: nat)
    requires l.Sound()
    ensures fresh(image) && Holds(hash, l, bits, m, image[..], |m|)
    ensures offset == image.Length
    ensures 3 * |m| <= 2 * Pow2(bits) && (bits == 1 || Pow2(bits) < 3 * |m|)
  {
    hide IsRecord, Pow2, Offset;
    bits := ChooseBits(|m|);
    var space := Space(l, bits, m);
    BaseIsLeast(l, bits, m, |m|);
    image := new Cell<K, V>[space];
    WriteDirectory(image, bits);
    offset := WORD + Pow2(bits) * WORD;
    NothingWritten(hash, l, bits, m, image[..]);
    for n := 0 to |m|
      invariant offset == Offset(l, bits, m, n)
      invariant Holds(hash, l, bits, m, image[..], n)
    {
      offset := AddRecord(hash, l, bits, m, image, n, offset);
    }
  }

  /** The bytes of a record: the count of values, the offset of the next record, the key, the values. */
  lemma RecordFormat<K, V>(l: Layout, image: seq<Cell<K, V>>, o: nat, r: Pair<K, V>, next: nat)
    requires IsRecord(l, image, o, r, next)
    ensures o + l.headerSize + l.valueSize * |r.values| <= |image| && o + 16 < |image|
    ensures image[o] == Word(|r.values|) && image[o + 8] == Word(next) && image[o + 16] == KeyCell(r.key)
    ensures forall j {:trigger r.values[j]} | 0 <= j < |r.values| ::
      0 <= o + l.valuesAt + l.valueSize * j < |image| && image[o + l.valuesAt + l.valueSize * j] == ValueCell(r.values[j])
  {
    hide Span;
    SpanIsProduct(l.valueSize, |r.values|);
    forall j | 0 <= j < |r.values|
      ensures 0 <= o + l.valuesAt + l.valueSize * j < |image| && image[o + l.valuesAt + l.valueSize * j] == ValueCell(r.values[j])
    {
      SpanIsProduct(l.valueSize, j);
      assert image[ValueAt(l, o, j)] == ValueCell(r.values[j]);
    }
  }

  /** The bytes before the records: the mask and the directory of 2^bits offsets. */
  lemma DirectoryFormat<K(!new), V>(hash: K -> nat, l: Layout, bits: nat, m: seq<Pair<K, V>>, image: seq<Cell<K, V>>, p: nat)
    requires Holds(hash, l, bits, m, image, |m|) && p < Pow2(bits)
    ensures 8 + 8 * Pow2(bits) <= |image| && image[0] == Word(Pow2(bits) - 1)
    ensures image[8 + 8 * p] == Word(Head(hash, l, bits, m, p, |m|))
  {
    hide Offset, Pow2, Span, Head, IsRecord;
    assert image[SlotAt(p)] == Word(Head(hash, l, bits, m, p, |m|));
  }

  /** The records behind them. */
  lemma Format<K(!new), V>(hash: K -> nat, l: Layout, bits: nat, m: seq<Pair<K, V>>, image: seq<Cell<K, V>>, i: nat)
    requires Holds(hash, l, bits, m, image, |m|) && i < |m|
    ensures var o := Offset(l, bits, m, i);
      && 8 + 8 * Pow2(bits) <= o && o + l.headerSize + l.valueSize * |m[i].values| <= |image| && o + 16 < |image|
      && image[o] == Word(|m[i].values|) && image[o + 8].Word? && image[o + 16] == KeyCell(m[i].key)
      && forall j {:trigger m[i].values[j]} | 0 <= j < |m[i].values| ::
           && 0 <= o + l.valuesAt + l.valueSize * j < |image|
           && image[o + l.valuesAt + l.valueSize * j] == ValueCell(m[i].values[j])
  {
    hide Offset, Pow2, Span, Head, IsRecord, SlotAt;
    BaseIsLeast(l, bits, m, i);
    RecordFormat(l, image, Offset(l, bits, m, i), m[i], Head(hash, l, bits, m, Position(hash, bits, m[i].key), i));
  }

  /** Where the records lie: behind the directory, one after the other. */
  lemma Places<K, V>(l: Layout, bits: nat, m: seq<Pair<K, V>>, i: nat)
    requires i < |m|
    ensures Offset(l, bits, m, 0) == 8 + 8 * Pow2(bits)
    ensures Offset(l, bits, m, i + 1) == Offset(l, bits, m, i) + l.headerSize + l.valueSize * |m[i].values|
  {
    OffsetAfter(l, bits, m, i);
    SpanIsProduct(l.valueSize, |m[i].values|);
  }

  lemma NothingWritten<K(!new), V>(hash: K -> nat, l: Layout, bits: nat, m: seq<Pair<K, V>>, image: seq<Cell<K, V>>)
    requires l.Sound() && |image| == Offset(l, bits, m, |m|) && Base(bits) <= |image|
    requires image[0] == Word(Pow2(bits) - 1) && forall p | 0 <= p < Pow2(bits) :: image[SlotAt(p)] == Word(0)
    ensures Holds(hash, l, bits, m, image, 0) && Offset(l, bits, m, 0) == WORD + Pow2(bits) * WORD
  {
  }

  // ----------------------------------------------------------------------------- Reading

  ghost predicate DistinctKeys<K, V>(m: seq<Pair<K, V>>) {
    forall i, j | 0 <= i < j < |m| :: m[i].key != m[j].key
  }

  /** The map whose entries are m. */
  function Dict<K, V>(m: seq<Pair<K, V>>): map<K, seq<V>> {
    if m == [] then map[] else Dict(m[..|m| - 1])[m[|m| - 1].key := m[|m| - 1].values]
  }

  lemma {:induction false} DictLookup<K, V>(m: seq<Pair<K, V>>, i: nat)
    requires DistinctKeys(m) && i < |m|
    ensures m[i].key in Dict(m) && Dict(m)[m[i].key] == m[i].values
    decreases |m|
  {
    if i < |m| - 1 {
      DictLookup(m[..|m| - 1], i);
    }
  }

  lemma {:induction false} DictMiss<K, V>(m: seq<Pair<K, V>>, key: K)
    requires forall i | 0 <= i < |m| :: m[i].key != key
    ensures key !in Dict(m)
  {
    if m != [] {
      DictMiss(m[..|m| - 1], key);
    }
  }

  /** What the map says of a key. */
  lemma DictIs<K, V>(m: seq<Pair<K, V>>, key: K)
    requires DistinctKeys(m)
    ensures forall i | 0 <= i < |m| && m[i].key == key :: key in Dict(m) && Dict(m)[key] == m[i].values
    ensures (forall i | 0 <= i < |m| :: m[i].key != key) ==> key !in Dict(m)
  {
    forall i | 0 <= i < |m| && m[i].key == key
      ensures key in Dict(m) && Dict(m)[key] == m[i].values
    {
      DictLookup(m, i);
    }
    if forall i | 0 <= i < |m| :: m[i].key != key {
      DictMiss(m, key);
    }
  }

  /** The newest record of slot p among the first n, if the slot leads anywhere. */
  lemma {:induction false} HeadIsNewest<K(!new), V>(hash: K -> nat, l: Layout, bits: nat, m: seq<Pair<K, V>>, p: nat, n: nat)
    returns (i: nat)
    requires n <= |m|
    ensures var head := Head(hash, l, bits, m, p, n);
      if head == 0 then i == 0 && forall j | 0 <= j < n :: Position(hash, bits, m[j].key) != p
      else
        && i < n && head == Offset(l, bits, m, i) && Position(hash, bits, m[i].key) == p
        && forall j | i < j < n :: Position(hash, bits, m[j].key) != p
  {
    if n == 0 {
      i := 0;
    } else if Position(hash, bits, m[n - 1].key) == p {
      BaseIsLeast(l, bits, m, n - 1);
      i := n - 1;
    } else {
      i := HeadIsNewest(hash, l, bits, m, p, n - 1);
    }
  }

  /** The values of the record at offset o. */
  method ReadValues<K, V>(l: Layout, image: array<Cell<K, V>>, o: nat, ghost r: Pair<K, V>, ghost next: nat) returns (values: seq<V>)
    requires IsRecord(l, image[..], o, r, next)
    ensures values == r.values
  {
    values := [];
    assert image[..][o] == image[o];
    var count := image[o].word;
    for i := 0 to count
      invariant values == r.values[..i]
    {
      assert image[..][ValueAt(l, o, i)] == ValueCell(r.values[i]);
      values := values + [image[ValueAt(l, o, i)].value];
    }
  }

  lemma LinksGoDown<K(!new), V>(hash: K -> nat, l: Layout, bits: nat, m: seq<Pair<K, V>>, p: nat, i: nat)
    requires i < |m| && l.Sound()
    ensures Head(hash, l, bits, m, p, i) < Offset(l, bits, m, i)
  {
    var j := HeadIsNewest(hash, l, bits, m, p, i);
    BaseIsLeast(l, bits, m, i);
    if Head(hash, l, bits, m, p, i) != 0 {
      RecordsAreApart(l, bits, m, j, i);
    }
  }

  /** The directory word of a key's slot. */
  lemma SlotWord<K(!new), V>(hash: K -> nat, l: Layout, bits: nat, m: seq<Pair<K, V>>, image: seq<Cell<K, V>>, key: K)
    requires Holds(hash, l, bits, m, image, |m|)
    ensures image[0].Word? && And(hash(key), image[0].word) == Position(hash, bits, key)
    ensures SlotAt(Position(hash, bits, key)) < |image|
    ensures image[SlotAt(Position(hash, bits, key))] == Word(Head(hash, l, bits, m, Position(hash, bits, key), |m|))
  {
  }

  /** The record an offset of a chain leads to: the newest of its slot, linked further down. */
  lemma RecordAtHead<K(!new), V>(hash: K -> nat, l: Layout, bits: nat, m: seq<Pair<K, V>>, image: seq<Cell<K, V>>, p: nat, n: nat)
    returns (i: nat)
    requires Holds(hash, l, bits, m, image, |m|) && n <= |m| && Head(hash, l, bits, m, p, n) != 0
    ensures i < n && Head(hash, l, bits, m, p, i) < Head(hash, l, bits, m, p, n)
    ensures IsRecord(l, image, Head(hash, l, bits, m, p, n), m[i], Head(hash, l, bits, m, p, i))
    ensures forall j | i < j < n :: Position(hash, bits, m[j].key) != p
  {
    i := HeadIsNewest(hash, l, bits, m, p, n);
    LinksGoDown(hash, l, bits, m, p, i);
  }

  ghost predicate NotFrom<K, V>(m: seq<Pair<K, V>>, n: nat, key: K) {
    forall j | n <= j < |m| :: m[j].key != key
  }

  lemma NotInRest<K(!new), V>(hash: K -> nat, bits: nat, m: seq<Pair<K, V>>, i: nat, n: nat, key: K)
    requires i < n <= |m| && m[i].key != key && NotFrom(m, n, key)
    requires forall j | i < j < n :: Position(hash, bits, m[j].key) != Position(hash, bits, key)
    ensures NotFrom(m, i, key)
  {
  }

  /** The chain has ended: the key is nowhere. */
  lemma NotInChain<K(!new), V>(hash: K -> nat, l: Layout, bits: nat, m: seq<Pair<K, V>>, n: nat, key: K)
    requires n <= |m| && NotFrom(m, n, key)
    requires Head(hash, l, bits, m, Position(hash, bits, key), n) == 0
    ensures key !in Dict(m)
  {
    var _ := HeadIsNewest(hash, l, bits, m, Position(hash, bits, key), n);
    DictMiss(m, key);
  }

  lemma RecordFields<K, V>(l: Layout, image: seq<Cell<K, V>>, o: nat, r: Pair<K, V>, next: nat)
    requires IsRecord(l, image, o, r, next)
    ensures o + 16 < |image| && image[o] == Word(|r.values|) && image[o + 8] == Word(next) && image[o + 16] == KeyCell(r.key)
  {
  }

  /** operator[]: exactly the key's values, or nothing. The offsets followed go down to 0. */
  method Lookup<K(!new, ==), V>(hash: K -> nat, l: Layout, image: array<Cell<K, V>>, ghost bits: nat, ghost m: seq<Pair<K, V>>, key: K)
    returns (values: seq<V>)
    requires Holds(hash, l, bits, m, image[..], |m|) && DistinctKeys(m)
    ensures values == if key in Dict(m) then Dict(m)[key] else []
    ensures forall i | 0 <= i < |m| && m[i].key == key :: values == m[i].values
    ensures (forall i | 0 <= i < |m| :: m[i].key != key) ==> values == []
  {
    hide Dict, IsRecord;
    DictIs(m, key);
    ghost var p: nat, n: nat := Position(hash, bits, key), |m|;
    SlotWord(hash, l, bits, m, image[..], key);
    var pos := image[SlotAt(And(hash(key), image[0].word))].word;
    while pos != 0
      invariant n <= |m| && pos == Head(hash, l, bits, m, p, n)
      invariant NotFrom(m, n, key)
      decreases pos
    {
      ghost var i := RecordAtHead(hash, l, bits, m, image[..], p, n);
      RecordFields(l, image[..], pos, m[i], Head(hash, l, bits, m, p, i));
      if image[pos + 16].key == key {
        values := ReadValues(l, image, pos, m[i], Head(hash, l, bits, m, p, i));
        DictLookup(m, i);
        return;
      }
      NotInRest(hash, bits, m, i, n, key);
      pos, n := image[pos + 8].word, i;
    }
    NotInChain(hash, l, bits, m, n, key);
    values := [];
  }
}
