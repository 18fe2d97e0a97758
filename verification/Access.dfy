/** Taking deterministic objects apart, one level at a time. */
module Access {
  import opened Machine
  import opened Lex
  import opened Header
  import opened Item
  import opened Validator
  import opened Raw
  import opened Iterator
  import opened Det
  import opened Compare
  import opened Api

  datatype View =
    | ViewInt64(intKind: IntKind, intValue: nat)
    | ViewString(stringKind: StringKind, bytes: seq<byte>)
    | ViewArray(arrayObject: CborRaw)
    | ViewMap(mapObject: CborRaw)
    | ViewTagged(tagValue: nat, payload: CborRaw)
    | ViewSimpleValue(v: byte)

  /** The item that a constructor applied to the parts of a view stands for. */
  ghost function ViewItem(v: View): Item
    requires v.ViewInt64? ==> v.intValue < TWO_TO_THE_64
    requires v.ViewString? ==> |v.bytes| <= USIZE_MAX
    requires v.ViewTagged? ==> v.tagValue < TWO_TO_THE_64
  {
    match v
    case ViewInt64(kind, value) =>
      Item(Head(if kind.UInt64? then MAJOR_UINT64 else MAJOR_NEG_INT64, MkRawUint64(value)), [], [])
    case ViewString(kind, s) =>
      Item(Head(if kind.ByteString? then MAJOR_BYTE_STRING else MAJOR_TEXT_STRING, MkRawUint64(|s|)), s, [])
    case ViewArray(x) => Abs(x)
    case ViewMap(x) => Abs(x)
    case ViewTagged(tag, payload) => Item(Head(MAJOR_TAGGED, MkRawUint64(tag)), [], [Abs(payload)])
    case ViewSimpleValue(b) => Item(SimpleHead(b), [], [])
  }

  /** Children of deterministic items are deterministic. */
  lemma DetChild(x: Item, i: nat)
    requires IsDet(x) && i < |x.children|
    ensures IsDet(x.children[i])
  {
  }

  /** The argument of a deterministic object is the one a constructor chooses. */
  lemma DetArgument(c: CborRaw)
    requires DetObject(c) && !c.CaseSimple?
    ensures ArgOk(AbsHead(c).arg) && AbsHead(c).arg.value < TWO_TO_THE_64
    ensures AbsHead(c).arg == MkRawUint64(AbsHead(c).arg.value)
  {
    hide ParseItems, Ser, WF, Sorted;
    ValidAbs(c);
    OptimalIsShortest(AbsHead(c).arg);
  }

  /** Putting the parts of the view back together gives an equal object, and the
      object under a tag is deterministic again. */
  method Destruct(c: CborRaw) returns (v: View)
    requires DetObject(c)
    ensures ViewItem.requires(v) && Abs(c) == ViewItem(v)
    ensures v.ViewInt64? <==> MajorType(c) in {MAJOR_UINT64, MAJOR_NEG_INT64}
    ensures v.ViewString? <==> MajorType(c) in {MAJOR_BYTE_STRING, MAJOR_TEXT_STRING}
    ensures v.ViewArray? <==> MajorType(c) == MAJOR_ARRAY
    ensures v.ViewMap? <==> MajorType(c) == MAJOR_MAP
    ensures v.ViewTagged? <==> MajorType(c) == MAJOR_TAGGED
    ensures v.ViewSimpleValue? <==> MajorType(c) == MAJOR_SIMPLE_VALUE
    ensures v.ViewTagged? ==> DetObject(v.payload)
    ensures v.ViewTagged? && c.CaseTagged? ==> v.payload == c.taggedPtr[0]
    ensures v.ViewArray? ==> v.arrayObject == c
    ensures v.ViewMap? ==> v.mapObject == c
  {
    hide ParseItems, Ser, WF, Sorted, Optimal, Valid;
    MajorTypeCases(c);
    if !c.CaseSimple? {
      DetArgument(c);
    }
    var ty := MajorType(c);
    if ty == MAJOR_UINT64 || ty == MAJOR_NEG_INT64 {
      var k := if ty == MAJOR_UINT64 then UInt64 else NegInt64;
      v := ViewInt64(k, c.intValue);
    } else if ty == MAJOR_BYTE_STRING || ty == MAJOR_TEXT_STRING {
      var k := if ty == MAJOR_BYTE_STRING then ByteString else TextString;
      v := ViewString(k, c.stringPtr);
    } else if ty == MAJOR_ARRAY {
      v := ViewArray(c);
    } else if ty == MAJOR_MAP {
      v := ViewMap(c);
    } else if ty == MAJOR_TAGGED {
      var tag := TaggedTag(c).value;
      var payload := TaggedPayload(c);
      DetChild(Abs(c), 0);
      v := ViewTagged(tag, payload);
    } else {
      v := ViewSimpleValue(c.simple);
    }
  }

  /** The number of elements of an array. */
  method GetArrayLength(x: CborRaw) returns (len: u64)
    requires Valid(x) && IsArray(x)
    ensures len == |Abs(x).children|
  {
    hide ParseItems, Ser, WF;
    ValidAbs(x);
    ArrayCount(x);
    len := ArrayLength(x).value;
  }

  lemma ArrayCount(x: CborRaw)
    requires Valid(x) && IsArray(x)
    ensures WF(Abs(x)) && |Abs(x).children| == ArrayLength(x).value < TWO_TO_THE_64
  {
    ValidAbs(x);
    hide ParseItems, Ser;
  }

  /** The element at an index; None exactly when the index is out of range. */
  method GetArrayItem(x: CborRaw, i: u64) returns (r: Option<CborRaw>)
    requires DetObject(x) && IsArray(x)
    ensures r.None? <==> i >= |Abs(x).children|
    ensures r.Some? ==> DetObject(r.value) && Abs(r.value) == Abs(x).children[i]
  {
    hide ParseItems, Ser, WF, Sorted, Optimal, Valid;
    var len := GetArrayLength(x);
    if i >= len {
      r := None;
    } else {
      var res := ArrayItem(x, i);
      DetChild(Abs(x), i);
      r := Some(res);
    }
  }

  method ArrayItem(c: CborRaw, i: u64) returns (r: CborRaw)
    requires Valid(c) && IsArray(c) && i < |Abs(c).children|
    ensures Valid(r) && Abs(r) == Abs(c).children[i]
    ensures i < |ArrayElements(ArrayIteratorInit(c))| && r == ArrayElements(ArrayIteratorInit(c))[i]
    ensures forall its, objs ::
              ArrayRun(its, objs) && its[0] == ArrayIteratorInit(c) && i < |objs| ==> objs[i] == r
  {
    hide ParseItems, Ser, WF;
    match c {
      case CaseSerializedArray(h, payload) =>
        PayloadItems(payload, h.value);
        r := SerializedArrayItem(payload, i, h.value);
      case CaseArray(_, ptr) =>
        AbsAllAt(ptr, i);
        r := ptr[i];
    }
    YieldIsElement(ArrayIteratorInit(c), i);
  }

  /** What an iterator yields at `i` is its element there, whatever the run. */
  lemma YieldIsElement(it: ArrayIterator, i: nat)
    requires i < |ArrayElements(it)|
    ensures forall its, objs :: ArrayRun(its, objs) && its[0] == it && i < |objs| ==>
              objs[i] == ArrayElements(it)[i]
  {
    hide ArrayElements;
    forall its, objs | ArrayRun(its, objs) && its[0] == it && i < |objs|
      ensures objs[i] == ArrayElements(it)[i]
    {
      RunYieldsElements(its, objs);
    }
  }

  /** Jumps over the items before the one asked for. */
  method SerializedArrayItem(payload: seq<byte>, i: u64, ghost n: nat) returns (r: CborRaw)
    requires |payload| <= USIZE_MAX && ParseItems(payload, n).Parsed? && i < n
    requires |ItemsOf(payload, n)| == n
    ensures Valid(r) && Abs(r) == ItemsOf(payload, n)[i] && r == Reading(Abs(r))
  {
    hide ParseItems, Ser, WF, Valid, Abs, ItemsOf, CborRead.requires;
    var j: usize := i;
    var k: usize := 0;
    var res := payload;
    ghost var all := ItemsOf(payload, n);
    while k < j
      invariant k <= j && |res| <= USIZE_MAX
      invariant ParseItems(res, n - k).Parsed? && ItemsOf(res, n - k) == all[k..]
    {
      ghost var x, after := FirstItem(res, n - k);
      assert res[0..] == res;
      var i2 := JumpRawDataItem(res, 0, x);
      assert res[i2..] == after;
      assert ItemsOf(after, n - k - 1) == all[k..][1..] == all[k + 1..];
      res := res[i2..];
      k := k + 1;
    }
    ghost var x, after := FirstItem(res, n - k);
    assert res[0..] == res;
    var i2 := JumpRawDataItem(res, 0, x);
    var elt := res[..i2];
    assert elt == Ser(x) && all[k..][0] == x;
    CborReadItem(elt, x);
    r := CborRead(elt);
    assert Abs(r) == x;
  }

  // ------------------------------------------------------------------
  // Maps
  // ------------------------------------------------------------------

  /** The first `j` keys of a map are below `key`. */
  ghost predicate KeysBelow(children: seq<Item>, j: nat, key: seq<byte>)
    requires WFAll(children) && 2 * j <= |children|
  {
    forall t | 0 <= t < j :: LexCompare(KeyBytes(children, t), key) < 0
  }

  /** No entry has this key. */
  ghost predicate NoKey(children: seq<Item>, k: Item) {
    forall t | 0 <= t && 2 * t < |children| :: children[2 * t] != k
  }

  /** Some entry has this key and this value. */
  ghost predicate HasEntry(children: seq<Item>, k: Item, v: Item) {
    exists t :: 0 <= t && 2 * t + 1 < |children| && children[2 * t] == k && children[2 * t + 1] == v
  }

  lemma BelowIsDifferent(children: seq<Item>, j: nat, k: Item)
    requires WFAll(children) && WF(k) && 2 * j <= |children| && KeysBelow(children, j, Ser(k))
    ensures forall t | 0 <= t < j :: children[2 * t] != k
  {
    hide WF, Ser, LexCompare;
    forall t | 0 <= t < j ensures children[2 * t] != k {
      assert LexCompare(KeyBytes(children, t), Ser(k)) < 0;
      LexZero(Ser(k), Ser(k));
    }
  }

  /** Beyond a key that is above the target, no key can be the target. */
  lemma StopHere(children: seq<Item>, j: nat, n: nat, k: Item)
    requires WFAll(children) && WF(k) && |children| == 2 * n && j < n
    requires KeysSorted(children, n) && KeysBelow(children, j, Ser(k))
    requires LexCompare(KeyBytes(children, j), Ser(k)) > 0
    ensures NoKey(children, k)
  {
    hide WF, Ser, LexCompare;
    BelowIsDifferent(children, j, k);
    forall t | j <= t < n ensures children[2 * t] != k {
      LexZero(Ser(k), Ser(k));
      LexAntisymmetric(KeyBytes(children, j), Ser(k));
      if t > j {
        LexTransitive(Ser(k), KeyBytes(children, j), KeyBytes(children, t));
        assert LexCompare(Ser(k), KeyBytes(children, t)) < 0;
      }
    }
  }

  lemma MapIsSorted(x: CborRaw)
    requires DetObject(x) && IsMap(x)
    ensures WF(Abs(x)) && WFAll(Abs(x).children)
    ensures |Abs(x).children| % 2 == 0 && KeysSorted(Abs(x).children, |Abs(x).children| / 2)
  {
    hide ParseItems, Ser, Optimal, KeysSorted;
    ValidAbs(x);
  }

  lemma KeyBytesAt(children: seq<Item>, j: nat, k: Item, kb: seq<byte>)
    requires WFAll(children) && 2 * j < |children| && children[2 * j] == k && WF(k) && kb == Ser(k)
    ensures KeyBytes(children, j) == kb
  {
  }

  /** Looks a key up, stopping at the first key above it: the answer is that of
      looking at every entry. */
  method MapGet(x: CborRaw, k: CborRaw) returns (res: Option<CborRaw>)
    requires DetObject(x) && IsMap(x) && Valid(k)
    ensures res.None? <==> NoKey(Abs(x).children, Abs(k))
    ensures res.Some? ==> DetObject(res.value) && HasEntry(Abs(x).children, Abs(k), Abs(res.value))
    ensures var entries := MapElements(MapIteratorInit(x));
            if res.None? then forall t | 0 <= t < |entries| :: Abs(entries[t].key) != Abs(k)
            else exists t :: 0 <= t < |entries| && Abs(entries[t].key) == Abs(k) && res.value == entries[t].value
  {
    hide ParseItems, Ser, WF, Sorted, Optimal, Valid, LexCompare, Abs;
    hide KeyBytes, KeysSorted, KeysBelow, NoKey, MapItems, MapElements, MapIteratorOk;
    ghost var c := Abs(x).children;
    ValidAbs(k);
    MapIsSorted(x);
    InitYieldsChildren(x);
    var i := MapIteratorInit(x);
    MapItemsLength(i);
    var pi := new MapIterator[1](_ => i);
    res := None;
    var isEmpty := MapIteratorIsEmpty(i);
    var cont := !isEmpty;
    ghost var j: nat := 0;
    ghost var entries := MapElements(i);
    NoneYet(c, Ser(Abs(k)));
    while cont
      invariant 2 * j <= |c| && MapIteratorOk(pi[0]) && MapItems(pi[0]) == c[2 * j..]
      invariant res.None? ==> (cont ==> KeysBelow(c, j, Ser(Abs(k))) && 2 * j < |c|)
      invariant res.None? ==> (!cont ==> NoKey(c, Abs(k)))
      invariant cont ==> res.None? && !MapIteratorIsEmpty(pi[0])
      invariant res.Some? ==> DetObject(res.value) && j > 0 && c[2 * j - 2] == Abs(k) && c[2 * j - 1] == Abs(res.value)
      invariant j <= |entries| && MapElements(pi[0]) == entries[j..]
      invariant res.Some? ==> Abs(entries[j - 1].key) == Abs(k) && res.value == entries[j - 1].value
      decreases |c| - 2 * j
    {
      var entry := MapIteratorNext(pi);
      MapItemsLength(pi[0]);
      EntryTaken(c, j, Abs(entry.key), Abs(entry.value), MapItems(pi[0]));
      ElementTaken(entries, j, entry, MapElements(pi[0]));
      ValidAbs(entry.key);
      KeyBytesAt(c, j, Abs(entry.key), Enc(entry.key));
      var key := entry.key;
      var comp := CompareWithDepth(key, k);
      SameKey(key, k);
      if comp == 0 {
        DetChild(Abs(x), 2 * j + 1);
        res := Some(entry.value);
        cont := false;
      } else if comp > 0 {
        StopHere(c, j, |c| / 2, Abs(k));
        cont := false;
      } else {
        OneMoreBelow(c, j, Ser(Abs(k)));
        cont := !MapIteratorIsEmpty(pi[0]);
        if !cont {
          AllBelow(c, Abs(k));
        }
      }
      j := j + 1;
    }
    if res.Some? {
      assert 0 <= 2 * (j - 1);
      KeyPresent(c, j - 1, Abs(k));
    } else {
      NoEntry(x, Abs(k));
    }
  }

  lemma EntryTaken(children: seq<Item>, j: nat, k: Item, v: Item, rest: seq<Item>)
    requires 2 * j <= |children| && children[2 * j..] == [k, v] + rest
    ensures 2 * (j + 1) <= |children| && rest == children[2 * (j + 1)..]
    ensures children[2 * j] == k && children[2 * j + 1] == v
  {
    var left := children[2 * j..];
    assert left[0] == k && left[1] == v && left[2..] == rest;
  }

  lemma ElementTaken(entries: seq<MapEntry>, j: nat, entry: MapEntry, rest: seq<MapEntry>)
    requires j <= |entries| && entries[j..] == [entry] + rest
    ensures j < |entries| && entries[j] == entry && rest == entries[j + 1..]
  {
    assert entries[j..][0] == entry && entries[j..][1..] == rest;
  }

  lemma NoEntry(x: CborRaw, k: Item)
    requires Valid(x) && IsMap(x) && NoKey(Abs(x).children, k)
    ensures var entries := MapElements(MapIteratorInit(x));
            forall t | 0 <= t < |entries| :: Abs(entries[t].key) != k
  {
    hide Valid, Abs, MapElements;
    ElementsStandFor(x);
  }

  lemma NoneYet(children: seq<Item>, key: seq<byte>)
    requires WFAll(children)
    ensures KeysBelow(children, 0, key)
    ensures children == [] ==> forall k :: NoKey(children, k)
  {
  }

  lemma SameKey(x: CborRaw, k: CborRaw)
    requires Valid(x) && Valid(k)
    ensures LexCompare(Enc(x), Enc(k)) == 0 ==> Abs(x) == Abs(k)
  {
    hide WF, Ser, LexCompare;
    ValidAbs(x);
    ValidAbs(k);
    LexZero(Enc(x), Enc(k));
    SerPrefixFree(Abs(x), Abs(k));
  }

  lemma OneMoreBelow(children: seq<Item>, j: nat, key: seq<byte>)
    requires WFAll(children) && 2 * (j + 1) <= |children|
    requires KeysBelow(children, j, key) && LexCompare(KeyBytes(children, j), key) < 0
    ensures KeysBelow(children, j + 1, key)
  {
  }

  lemma AllBelow(children: seq<Item>, k: Item)
    requires WFAll(children) && WF(k) && |children| % 2 == 0 && KeysBelow(children, |children| / 2, Ser(k))
    ensures NoKey(children, k)
  {
    BelowIsDifferent(children, |children| / 2, k);
  }

  lemma KeyPresent(children: seq<Item>, j: nat, k: Item)
    requires 2 * j < |children| && children[2 * j] == k
    ensures !NoKey(children, k)
  {
  }
}
