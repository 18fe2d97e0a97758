/** Iterators over the elements of an array or the entries of a map, whether
    these are constructed or still serialized. */
module Iterator {
  import opened Machine
  import opened Header
  import opened HeaderIO
  import opened Item
  import opened Validator
  import opened Raw

  datatype ArrayIterator =
    | ArraySlice(elements: seq<CborRaw>)
    | ArraySerialized(s: seq<byte>, len: nat)

  datatype MapIterator =
    | MapSlice(entries: seq<MapEntry>)
    | MapSerialized(s: seq<byte>, len: nat)

  /** The items that an iterator has yet to yield. */
  ghost function ArrayItems(it: ArrayIterator): seq<Item> {
    match it
    case ArraySlice(elements) => AbsAll(elements)
    case ArraySerialized(s, len) => ItemsOf(s, len)
  }

  /** Keys and values that an iterator has yet to yield, alternating. */
  ghost function MapItems(it: MapIterator): seq<Item> {
    match it
    case MapSlice(entries) => AbsEntries(entries)
    case MapSerialized(s, len) => ItemsOf(s, 2 * len)
  }

  /** The object that reading one level of an item's encoding gives. */
  ghost function Reading(x: Item): CborRaw {
    if WF(x) && |Ser(x)| <= USIZE_MAX then CborReadItem(Ser(x), x); CborRead(Ser(x)) else CaseSimple(0)
  }

  ghost function Readings(xs: seq<Item>): (r: seq<CborRaw>)
    ensures |r| == |xs| && forall i | 0 <= i < |xs| :: r[i] == Reading(xs[i])
  {
    seq(|xs|, i requires 0 <= i < |xs| => Reading(xs[i]))
  }

  lemma ReadingsCons(x: Item, xs: seq<Item>)
    ensures Readings([x] + xs) == [Reading(x)] + Readings(xs)
  {
  }

  /** The objects that an iterator has yet to yield. */
  ghost function ArrayElements(it: ArrayIterator): seq<CborRaw> {
    match it
    case ArraySlice(elements) => elements
    case ArraySerialized(s, len) => Readings(ItemsOf(s, len))
  }

  /** The same, for alternating keys and values. */
  ghost function EntryReadings(xs: seq<Item>): seq<MapEntry> {
    if |xs| < 2 then [] else [MapEntry(Reading(xs[0]), Reading(xs[1]))] + EntryReadings(xs[2..])
  }

  lemma EntryReadingsCons(k: Item, v: Item, xs: seq<Item>)
    ensures EntryReadings([k, v] + xs) == [MapEntry(Reading(k), Reading(v))] + EntryReadings(xs)
  {
    hide Reading;
    assert ([k, v] + xs)[2..] == xs;
  }

  /** The entries that an iterator has yet to yield. */
  ghost function MapElements(it: MapIterator): seq<MapEntry> {
    match it
    case MapSlice(entries) => entries
    case MapSerialized(s, len) => EntryReadings(ItemsOf(s, 2 * len))
  }

  /** Reading the encoding of an item gives a valid object that stands for it. */
  lemma ReadingStandsFor(x: Item)
    requires WF(x) && |Ser(x)| <= USIZE_MAX
    ensures Valid(Reading(x)) && Abs(Reading(x)) == x
  {
    hide WF, Ser, Valid, Abs, CborRead;
    CborReadItem(Ser(x), x);
  }

  lemma {:induction false} ItemNoLonger(xs: seq<Item>, i: nat)
    requires WFAll(xs) && i < |xs|
    ensures WF(xs[i]) && |Ser(xs[i])| <= |SerAll(xs)|
  {
    hide WF, Ser;
    WFSplit(xs);
    if i > 0 {
      ItemNoLonger(xs[1..], i - 1);
    }
  }

  lemma {:induction false} EntryReadingsAt(xs: seq<Item>, t: nat)
    requires |xs| % 2 == 0
    ensures |EntryReadings(xs)| == |xs| / 2
    ensures t < |xs| / 2 ==> EntryReadings(xs)[t] == MapEntry(Reading(xs[2 * t]), Reading(xs[2 * t + 1]))
  {
    hide Reading;
    if |xs| >= 2 {
      EntryReadingsAt(xs[2..], if t > 0 then t - 1 else 0);
    }
  }

  /** The bytes after the last item that an iterator will yield. */
  ghost function ArrayTrailing(it: ArrayIterator): seq<byte> {
    match it
    case ArraySlice(_) => []
    case ArraySerialized(s, len) => if ParseItems(s, len).Parsed? then ParseItems(s, len).rest else []
  }

  ghost function MapTrailing(it: MapIterator): seq<byte> {
    match it
    case MapSlice(_) => []
    case MapSerialized(s, len) => if ParseItems(s, 2 * len).Parsed? then ParseItems(s, 2 * len).rest else []
  }

  /** A serialized iterator may be followed by bytes it will not read. */
  ghost predicate ArrayIteratorOk(it: ArrayIterator) {
    match it
    case ArraySlice(elements) => |elements| <= USIZE_MAX && ValidAll(elements)
    case ArraySerialized(s, len) => |s| <= USIZE_MAX && ParseItems(s, len).Parsed?
  }

  ghost predicate MapIteratorOk(it: MapIterator) {
    match it
    case MapSlice(entries) => |entries| <= USIZE_MAX && ValidEntries(entries)
    case MapSerialized(s, len) => |s| <= USIZE_MAX && ParseItems(s, 2 * len).Parsed?
  }

  /** The first of several items, and what parses after it. */
  lemma FirstItem(s: seq<byte>, n: nat) returns (x: Item, s2: seq<byte>)
    requires n > 0 && ParseItems(s, n).Parsed?
    ensures WF(x) && s == Ser(x) + s2
    ensures ParseItems(s2, n - 1).Parsed? && ParseItems(s2, n - 1).rest == ParseItems(s, n).rest
    ensures ItemsOf(s, n) == [x] + ItemsOf(s2, n - 1)
  {
    hide ParseItems, Ser, WF;
    ParseSound(s, n);
    var items, rest := ParseItems(s, n).items, ParseItems(s, n).rest;
    WFSplit(items);
    x := items[0];
    s2 := SerAll(items[1..]) + rest;
    ParseComplete(items[1..], rest);
  }

  /** An iterator yields one item for each element left. */
  lemma ArrayItemsLength(it: ArrayIterator)
    requires ArrayIteratorOk(it)
    ensures WFAll(ArrayItems(it))
    ensures |ArrayItems(it)| == ArrayIteratorLength(it)
    ensures ArrayIteratorIsEmpty(it) <==> ArrayItems(it) == []
  {
    hide ParseItems;
    match it
    case ArraySlice(elements) => ValidAbsAll(elements);
    case ArraySerialized(s, len) => ParseSound(s, len);
  }

  lemma MapItemsLength(it: MapIterator)
    requires MapIteratorOk(it)
    ensures WFAll(MapItems(it))
    ensures MapIteratorIsEmpty(it) <==> MapItems(it) == []
    ensures |MapItems(it)| % 2 == 0
  {
    hide ParseItems, ValidEntries, AbsEntries, ItemsOf, WF, WFAll;
    match it
    case MapSlice(entries) => MapSliceLength(entries);
    case MapSerialized(s, len) => ItemsLength(s, 2 * len);
  }

  lemma MapSliceLength(entries: seq<MapEntry>)
    requires ValidEntries(entries)
    ensures WFAll(AbsEntries(entries)) && |AbsEntries(entries)| == 2 * |entries|
  {
    hide ValidEntry, AbsEntry, WF;
    ValidAbsEntries(entries);
  }

  lemma ItemsLength(s: seq<byte>, n: nat)
    requires ParseItems(s, n).Parsed?
    ensures WFAll(ItemsOf(s, n)) && |ItemsOf(s, n)| == n
  {
    hide ParseItems, WF, Ser;
    ParseSound(s, n);
  }

  function ArrayIteratorInit(c: CborRaw): ArrayIterator
    requires c.CaseSerializedArray? || c.CaseArray?
  {
    match c
    case CaseSerializedArray(h, payload) => ArraySerialized(payload, h.value)
    case CaseArray(_, ptr) => ArraySlice(ptr)
  }

  function ArrayIteratorIsEmpty(c: ArrayIterator): bool {
    match c
    case ArraySlice(elements) => |elements| == 0
    case ArraySerialized(_, len) => len == 0
  }

  function ArrayIteratorLength(c: ArrayIterator): nat {
    match c
    case ArraySlice(elements) => |elements|
    case ArraySerialized(_, len) => len
  }

  function ArrayIteratorTruncate(c: ArrayIterator, len: nat): ArrayIterator
    requires c.ArraySlice? ==> len <= |c.elements|
  {
    match c
    case ArraySlice(elements) => ArraySlice(elements[..len])
    case ArraySerialized(s, _) => ArraySerialized(s, len)
  }

  function MapIteratorInit(c: CborRaw): MapIterator
    requires c.CaseSerializedMap? || c.CaseMap?
  {
    match c
    case CaseSerializedMap(h, payload) => MapSerialized(payload, h.value)
    case CaseMap(_, ptr) => MapSlice(ptr)
  }

  function MapIteratorIsEmpty(c: MapIterator): bool {
    match c
    case MapSlice(entries) => |entries| == 0
    case MapSerialized(_, len) => len == 0
  }

  /** A new iterator yields the children that a full parse finds, in order. */
  lemma InitYieldsChildren(c: CborRaw)
    requires Valid(c)
    ensures c.CaseSerializedArray? || c.CaseArray? ==>
              ArrayIteratorOk(ArrayIteratorInit(c)) && ArrayItems(ArrayIteratorInit(c)) == Abs(c).children &&
              ArrayTrailing(ArrayIteratorInit(c)) == []
    ensures c.CaseSerializedMap? || c.CaseMap? ==>
              MapIteratorOk(MapIteratorInit(c)) && MapItems(MapIteratorInit(c)) == Abs(c).children &&
              MapTrailing(MapIteratorInit(c)) == []
  {
    hide ParseItems;
  }

  /** An iterator holds the encodings of what it has yet to yield and the bytes
      after them; so one that has yielded everything has consumed its payload. */
  lemma IteratorHolds(a: ArrayIterator, m: MapIterator)
    ensures a.ArraySerialized? && ArrayIteratorOk(a) ==>
              WFAll(ArrayItems(a)) && a.s == SerAll(ArrayItems(a)) + ArrayTrailing(a)
    ensures m.MapSerialized? && MapIteratorOk(m) ==>
              WFAll(MapItems(m)) && m.s == SerAll(MapItems(m)) + MapTrailing(m)
  {
    hide ParseItems;
    if a.ArraySerialized? && ArrayIteratorOk(a) {
      ParseSound(a.s, a.len);
    }
    if m.MapSerialized? && MapIteratorOk(m) {
      ParseSound(m.s, 2 * m.len);
    }
  }

  /** A truncated iterator yields exactly the first items of the original. */
  lemma {:induction false} TruncateYieldsPrefix(c: ArrayIterator, len: nat)
    requires ArrayIteratorOk(c) && len <= ArrayIteratorLength(c)
    ensures ArrayIteratorOk(ArrayIteratorTruncate(c, len))
    ensures len <= |ArrayItems(c)| && ArrayItems(ArrayIteratorTruncate(c, len)) == ArrayItems(c)[..len]
    ensures len <= |ArrayElements(c)| && ArrayElements(ArrayIteratorTruncate(c, len)) == ArrayElements(c)[..len]
    ensures ArrayIteratorLength(ArrayIteratorTruncate(c, len)) == len
  {
    hide ParseItems, Valid, ItemsOf, WF;
    ArrayItemsLength(c);
    match c {
      case ArraySlice(elements) => AbsAllPrefix(elements, len);
      case ArraySerialized(s, n) => ItemsOfPrefix(s, n, len);
    }
  }

  /** The code does not check the length given for a serialized iterator.  A greater
      one makes an iterator that is usable exactly when the bytes beyond the items
      hold as many more; after the whole payload of an array there are none. */
  lemma TruncateBeyond(c: ArrayIterator, len: nat)
    requires ArrayIteratorOk(c) && c.ArraySerialized? && len > c.len
    ensures ArrayIteratorOk(ArrayIteratorTruncate(c, len)) <==> ParseItems(ArrayTrailing(c), len - c.len).Parsed?
    ensures ArrayTrailing(c) == [] ==> !ArrayIteratorOk(ArrayIteratorTruncate(c, len))
  {
    hide ParseItems;
    RestAdd(c.s, c.len, len - c.len);
  }

  /** Fewer items parse where more do. */
  lemma ItemsOfPrefix(s: seq<byte>, n: nat, len: nat)
    requires ParseItems(s, n).Parsed? && len <= n
    ensures |ItemsOf(s, n)| == n
    ensures ParseItems(s, len).Parsed? && ItemsOf(s, len) == ItemsOf(s, n)[..len]
  {
    hide ParseItems, Ser, WF;
    ParseSound(s, n);
    var items, rest := ItemsOf(s, n), ParseItems(s, n).rest;
    var first, last := items[..len], items[len..];
    assert first + last == items;
    SerAllAppend(first, last);
    assert s == SerAll(first) + (SerAll(last) + rest);
    ParseComplete(first, SerAll(last) + rest);
  }

  lemma {:induction false} AbsAllPrefix(xs: seq<CborRaw>, len: nat)
    requires len <= |xs|
    ensures AbsAll(xs[..len]) == AbsAll(xs)[..len]
  {
    if len > 0 {
      AbsAllPrefix(xs[1..], len - 1);
      assert xs[..len][1..] == xs[1..][..len - 1];
    }
  }

  /** Yields the first item of a serialized sequence. */
  method SerializedNext(s: seq<byte>, ghost n: nat) returns (res: CborRaw, s2: seq<byte>)
    requires n > 0 && |s| <= USIZE_MAX && ParseItems(s, n).Parsed?
    ensures Valid(res) && s == Enc(res) + s2 && res == Reading(Abs(res))
    ensures ParseItems(s2, n - 1).Parsed? && ParseItems(s2, n - 1).rest == ParseItems(s, n).rest
    ensures ItemsOf(s, n) == [Abs(res)] + ItemsOf(s2, n - 1)
  {
    hide ParseItems, Valid, WF, Ser, ItemsOf, CborRead.requires;
    ghost var x, after := FirstItem(s, n);
    assert s[0..] == s;
    var i1 := JumpRawDataItem(s, 0, x);
    var s1 := s[..i1];
    s2 := s[i1..];
    assert s1 == Ser(x) && s2 == after;
    CborReadItem(s1, x);
    res := CborRead(s1);
    assert Abs(res) == x;
  }

  /** Yields the next element and moves the iterator in the cell past it. */
  method ArrayIteratorNext(pi: array<ArrayIterator>) returns (res: CborRaw)
    requires pi.Length == 1 && ArrayIteratorOk(pi[0]) && !ArrayIteratorIsEmpty(pi[0])
    modifies pi
    ensures Valid(res) && ArrayIteratorOk(pi[0])
    ensures ArrayItems(old(pi[0])) == [Abs(res)] + ArrayItems(pi[0])
    ensures ArrayElements(old(pi[0])) == [res] + ArrayElements(pi[0])
    ensures ArrayTrailing(pi[0]) == ArrayTrailing(old(pi[0]))
  {
    hide ParseItems, Valid, WF, Ser, ItemsOf;
    var iter := pi[0];
    match iter {
      case ArraySlice(i) =>
        res := i[0];
        pi[0] := ArraySlice(i[1..]);
      case ArraySerialized(s, len) =>
        var s2;
        res, s2 := SerializedNext(s, len);
        ReadingsCons(Abs(res), ItemsOf(s2, len - 1));
        pi[0] := ArraySerialized(s2, len - 1);
    }
  }

  /** A run of an array iterator: the iterators it goes through, and what it yields. */
  ghost predicate ArrayRun(its: seq<ArrayIterator>, objs: seq<CborRaw>) {
    |its| == |objs| + 1 &&
    forall k | 0 <= k < |objs| :: ArrayElements(its[k]) == [objs[k]] + ArrayElements(its[k + 1])
  }

  /** Over any run, an iterator yields its elements in order. */
  lemma {:induction false} RunYieldsElements(its: seq<ArrayIterator>, objs: seq<CborRaw>)
    requires ArrayRun(its, objs)
    ensures ArrayElements(its[0]) == objs + ArrayElements(its[|objs|])
  {
    hide ArrayElements;
    if objs != [] {
      RunYieldsElements(its[1..], objs[1..]);
      assert objs == [objs[0]] + objs[1..];
    }
  }

  method MapIteratorNext(pi: array<MapIterator>) returns (res: MapEntry)
    requires pi.Length == 1 && MapIteratorOk(pi[0]) && !MapIteratorIsEmpty(pi[0])
    modifies pi
    ensures ValidEntry(res) && MapIteratorOk(pi[0])
    ensures MapItems(old(pi[0])) == [Abs(res.key), Abs(res.value)] + MapItems(pi[0])
    ensures MapElements(old(pi[0])) == [res] + MapElements(pi[0])
    ensures MapTrailing(pi[0]) == MapTrailing(old(pi[0]))
  {
    hide ParseItems, Valid, WF, Ser, Abs, ItemsOf, Reading, EntryReadings;
    var iter := pi[0];
    match iter {
      case MapSlice(i) =>
        res := i[0];
        pi[0] := MapSlice(i[1..]);
        assert AbsEntries(i) == AbsEntry(res) + AbsEntries(i[1..]);
      case MapSerialized(s, len) =>
        var s2;
        res, s2 := MapSerializedNext(s, len);
        EntryReadingsCons(Abs(res.key), Abs(res.value), ItemsOf(s2, 2 * (len - 1)));
        pi[0] := MapSerialized(s2, len - 1);
    }
  }

  /** Jumps over a key and its value, then reads each from its own bytes. */
  method MapSerializedNext(s: seq<byte>, ghost n: nat) returns (res: MapEntry, s2: seq<byte>)
    requires n > 0 && |s| <= USIZE_MAX && ParseItems(s, 2 * n).Parsed?
    ensures ValidEntry(res) && s == Enc(res.key) + Enc(res.value) + s2
    ensures res.key == Reading(Abs(res.key)) && res.value == Reading(Abs(res.value))
    ensures ParseItems(s2, 2 * (n - 1)).Parsed? && ParseItems(s2, 2 * (n - 1)).rest == ParseItems(s, 2 * n).rest
    ensures ItemsOf(s, 2 * n) == [Abs(res.key), Abs(res.value)] + ItemsOf(s2, 2 * (n - 1))
  {
    hide ParseItems, Valid, WF, Ser, ItemsOf, CborRead.requires;
    ghost var k, afterKey := FirstItem(s, 2 * n);
    ghost var v, after := FirstItem(afterKey, 2 * n - 1);
    assert s[0..] == s;
    var off1 := JumpRawDataItem(s, 0, k);
    assert s[off1..] == afterKey;
    var i1 := JumpRawDataItem(s, off1, v);
    var s1 := s[..i1];
    s2 := s[i1..];
    assert s1 == Ser(k) + Ser(v) && s2 == after;
    assert s1[0..] == s1;
    var i10 := JumpRawDataItem(s1, 0, k);
    assert s1[..i10] == Ser(k) && s1[i10..] == Ser(v);
    CborReadItem(s1[..i10], k);
    CborReadItem(s1[i10..], v);
    var res1 := CborRead(s1[..i10]);
    var res2 := CborRead(s1[i10..]);
    assert Abs(res1) == k && Abs(res2) == v;
    res := MapEntry(res1, res2);
  }

  /** A run of a map iterator: the iterators it goes through, and what it yields. */
  ghost predicate MapRun(its: seq<MapIterator>, entries: seq<MapEntry>) {
    |its| == |entries| + 1 &&
    forall k | 0 <= k < |entries| :: MapElements(its[k]) == [entries[k]] + MapElements(its[k + 1])
  }

  /** Over any run, an iterator yields its entries in order. */
  lemma {:induction false} RunYieldsEntries(its: seq<MapIterator>, entries: seq<MapEntry>)
    requires MapRun(its, entries)
    ensures MapElements(its[0]) == entries + MapElements(its[|entries|])
  {
    hide MapElements;
    if entries != [] {
      RunYieldsEntries(its[1..], entries[1..]);
      assert entries == [entries[0]] + entries[1..];
    }
  }

  /** The entries of a new iterator over a serialized map are the readings of its
      keys and values, as many as the map announces. */
  lemma NewMapElements(c: CborRaw)
    requires Valid(c) && (c.CaseSerializedMap? || c.CaseMap?)
    ensures c.CaseSerializedMap? ==>
              |Abs(c).children| == 2 * c.header.value &&
              MapElements(MapIteratorInit(c)) == EntryReadings(Abs(c).children)
    ensures c.CaseMap? ==> MapElements(MapIteratorInit(c)) == c.mapPtr
  {
    hide ParseItems, WF, Ser;
    if c.CaseSerializedMap? {
      PayloadItems(c.payload, 2 * c.header.value);
    }
  }

  /** These entries stand for these keys and values. */
  ghost predicate StandFor(entries: seq<MapEntry>, xs: seq<Item>) {
    |xs| == 2 * |entries| &&
    forall t | 0 <= t < |entries| :: Abs(entries[t].key) == xs[2 * t] && Abs(entries[t].value) == xs[2 * t + 1]
  }

  lemma EntriesStandFor(es: seq<MapEntry>)
    ensures StandFor(es, AbsEntries(es))
  {
    hide Abs, AbsEntries;
    forall t | 0 <= t < |es|
      ensures Abs(es[t].key) == AbsEntries(es)[2 * t] && Abs(es[t].value) == AbsEntries(es)[2 * t + 1]
    {
      AbsEntriesAt(es, t);
    }
  }

  lemma {:induction false} ReadingsStandFor(xs: seq<Item>)
    requires WFAll(xs) && |xs| % 2 == 0 && |SerAll(xs)| <= USIZE_MAX
    ensures StandFor(EntryReadings(xs), xs)
  {
    hide WF, Ser, SerAll, Abs, Reading, EntryReadings;
    EntryReadingsAt(xs, 0);
    forall t | 0 <= t < |xs| / 2
      ensures Abs(EntryReadings(xs)[t].key) == xs[2 * t] && Abs(EntryReadings(xs)[t].value) == xs[2 * t + 1]
    {
      EntryReadingsAt(xs, t);
      ItemNoLonger(xs, 2 * t);
      ItemNoLonger(xs, 2 * t + 1);
      ReadingStandsFor(xs[2 * t]);
      ReadingStandsFor(xs[2 * t + 1]);
    }
  }

  /** The entries of a new iterator stand for the keys and values of the map. */
  lemma ElementsStandFor(c: CborRaw)
    requires Valid(c) && (c.CaseSerializedMap? || c.CaseMap?)
    ensures StandFor(MapElements(MapIteratorInit(c)), Abs(c).children)
  {
    hide ParseItems, WF, Ser, SerAll, Valid, StandFor, EntryReadings;
    NewMapElements(c);
    if c.CaseMap? {
      EntriesStandFor(c.mapPtr);
    } else {
      ValidPayload(c);
      ReadingsStandFor(Abs(c).children);
    }
  }

  lemma ValidPayload(c: CborRaw)
    requires Valid(c) && c.CaseSerializedMap?
    ensures WFAll(Abs(c).children) && |SerAll(Abs(c).children)| <= USIZE_MAX
  {
    hide ParseItems, WF, Ser;
    PayloadItems(c.payload, 2 * c.header.value);
  }
}
