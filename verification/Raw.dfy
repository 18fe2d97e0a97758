/** The program's representation of objects: built by constructors, or read
    lazily from bytes and kept serialized below the first level. */
module Raw {
  import opened Machine
  import opened Header
  import opened HeaderIO
  import opened Item
  import opened Validator
  import Utf8

  datatype CborRaw =
    | CaseInt(intType: byte, intSize: nat, intValue: nat)
    | CaseSimple(simple: byte)
    | CaseString(stringType: byte, stringSize: nat, stringPtr: seq<byte>)
    | CaseTagged(tag: RawUint64, taggedPtr: seq<CborRaw>)
    | CaseArray(arraySize: nat, arrayPtr: seq<CborRaw>)
    | CaseMap(mapSize: nat, mapPtr: seq<MapEntry>)
    | CaseSerializedTagged(header: RawUint64, payload: seq<byte>)
    | CaseSerializedArray(header: RawUint64, payload: seq<byte>)
    | CaseSerializedMap(header: RawUint64, payload: seq<byte>)

  datatype MapEntry = MapEntry(key: CborRaw, value: CborRaw)

  // ------------------------------------------------------------------
  // What an object stands for
  // ------------------------------------------------------------------

  ghost function ItemsOf(s: seq<byte>, n: nat): seq<Item> {
    match ParseItems(s, n)
    case Fail => []
    case Parsed(items, _) => items
  }

  ghost function AbsHead(x: CborRaw): Head {
    match x
    case CaseInt(ty, size, value) => Head(ty, RawUint64(size, value))
    case CaseSimple(v) => SimpleHead(v)
    case CaseString(ty, size, ptr) => Head(ty, RawUint64(size, |ptr|))
    case CaseTagged(tag, _) => Head(MAJOR_TAGGED, tag)
    case CaseArray(size, ptr) => Head(MAJOR_ARRAY, RawUint64(size, |ptr|))
    case CaseMap(size, ptr) => Head(MAJOR_MAP, RawUint64(size, |ptr|))
    case CaseSerializedTagged(h, _) => Head(MAJOR_TAGGED, h)
    case CaseSerializedArray(h, _) => Head(MAJOR_ARRAY, h)
    case CaseSerializedMap(h, _) => Head(MAJOR_MAP, h)
  }

  /** The raw data item that an object stands for. */
  ghost function Abs(x: CborRaw): Item
    decreases x, 1
  {
    Item(AbsHead(x), if x.CaseString? then x.stringPtr else [], AbsChildren(x))
  }

  ghost function AbsChildren(x: CborRaw): seq<Item>
    decreases x, 0
  {
    match x
    case CaseTagged(_, ptr) => if ptr == [] then [] else [Abs(ptr[0])]
    case CaseArray(_, ptr) => AbsAll(ptr)
    case CaseMap(_, ptr) => AbsEntries(ptr)
    case CaseSerializedTagged(_, payload) => ItemsOf(payload, 1)
    case CaseSerializedArray(h, payload) => ItemsOf(payload, h.value)
    case CaseSerializedMap(h, payload) => ItemsOf(payload, 2 * h.value)
    case _ => []
  }

  ghost function AbsAll(xs: seq<CborRaw>): (r: seq<Item>)
    ensures |r| == |xs|
    decreases xs, 0
  {
    if xs == [] then [] else [Abs(xs[0])] + AbsAll(xs[1..])
  }

  ghost function AbsEntries(es: seq<MapEntry>): (r: seq<Item>)
    ensures |r| == 2 * |es|
    decreases es, 0
  {
    if es == [] then [] else AbsEntry(es[0]) + AbsEntries(es[1..])
  }

  ghost function AbsEntry(e: MapEntry): (r: seq<Item>)
    ensures |r| == 2
    decreases e, 0
  {
    [Abs(e.key), Abs(e.value)]
  }

  /** A payload that holds exactly `n` items. */
  ghost predicate PayloadOk(s: seq<byte>, n: nat) {
    |s| <= USIZE_MAX && ParseItems(s, n).Parsed? && ParseItems(s, n).rest == []
  }

  /** The invariant of objects: sizes fit, text is UTF-8, payloads parse. */
  ghost predicate Valid(x: CborRaw) {
    match x
    case CaseInt(ty, size, value) => ty <= MAJOR_NEG_INT64 && ArgOk(RawUint64(size, value))
    case CaseSimple(v) => v <= MAX_SIMPLE_VALUE_ADDITIONAL_INFO || MIN_SIMPLE_VALUE_LONG <= v
    case CaseString(ty, size, ptr) =>
      (ty == MAJOR_BYTE_STRING || ty == MAJOR_TEXT_STRING) && ArgOk(RawUint64(size, |ptr|)) &&
      (ty == MAJOR_TEXT_STRING ==> Utf8.Correct(ptr))
    case CaseTagged(tag, ptr) => ArgOk(tag) && |ptr| >= 1 && Valid(ptr[0])
    case CaseArray(size, ptr) => ArgOk(RawUint64(size, |ptr|)) && forall i | 0 <= i < |ptr| :: Valid(ptr[i])
    case CaseMap(size, ptr) =>
      ArgOk(RawUint64(size, |ptr|)) && forall i | 0 <= i < |ptr| :: Valid(ptr[i].key) && Valid(ptr[i].value)
    case CaseSerializedTagged(h, payload) => ArgOk(h) && PayloadOk(payload, 1)
    case CaseSerializedArray(h, payload) => ArgOk(h) && PayloadOk(payload, h.value)
    case CaseSerializedMap(h, payload) => ArgOk(h) && PayloadOk(payload, 2 * h.value)
  }

  ghost predicate ValidEntry(e: MapEntry) {
    Valid(e.key) && Valid(e.value)
  }

  ghost predicate ValidAll(xs: seq<CborRaw>) {
    forall i | 0 <= i < |xs| :: Valid(xs[i])
  }

  ghost predicate ValidEntries(es: seq<MapEntry>) {
    forall i | 0 <= i < |es| :: ValidEntry(es[i])
  }

  lemma PayloadItems(s: seq<byte>, n: nat)
    requires PayloadOk(s, n)
    ensures |ItemsOf(s, n)| == n && WFAll(ItemsOf(s, n)) && SerAll(ItemsOf(s, n)) == s
  {
    ParseSound(s, n);
  }

  /** A valid object stands for a well-formed item. */
  lemma {:induction false} ValidAbs(x: CborRaw)
    requires Valid(x)
    ensures WF(Abs(x)) && HeadOk(AbsHead(x))
    decreases x, 1
  {
    hide Utf8.Correct, ParseItems, Ser, SerAll;
    match x
    case CaseTagged(_, ptr) => ValidAbs(ptr[0]);
    case CaseArray(_, ptr) => ValidAbsAll(ptr);
    case CaseMap(_, ptr) => ValidAbsEntries(ptr);
    case CaseSerializedTagged(_, payload) => PayloadItems(payload, 1);
    case CaseSerializedArray(h, payload) => PayloadItems(payload, h.value);
    case CaseSerializedMap(h, payload) => PayloadItems(payload, 2 * h.value);
    case _ =>
  }

  lemma {:induction false} ValidAbsAll(xs: seq<CborRaw>)
    requires ValidAll(xs)
    ensures WFAll(AbsAll(xs))
    decreases xs, 0
  {
    if xs != [] {
      ValidAbs(xs[0]);
      ValidAbsAll(xs[1..]);
      WFCons(Abs(xs[0]), AbsAll(xs[1..]));
    }
  }

  lemma {:induction false} ValidAbsEntries(es: seq<MapEntry>)
    requires ValidEntries(es)
    ensures WFAll(AbsEntries(es))
    decreases es, 0
  {
    if es != [] {
      ValidAbsEntry(es[0]);
      ValidAbsEntries(es[1..]);
      SerAllAppend(AbsEntry(es[0]), AbsEntries(es[1..]));
    }
  }

  lemma {:induction false} ValidAbsEntry(e: MapEntry)
    requires ValidEntry(e)
    ensures WFAll(AbsEntry(e))
    decreases e, 0
  {
    ValidAbs(e.key);
    ValidAbs(e.value);
  }

  /** The encoding of a valid object. */
  ghost function Enc(x: CborRaw): seq<byte>
    requires Valid(x)
  {
    ValidAbs(x);
    Ser(Abs(x))
  }

  lemma {:induction false} AbsAllAt(xs: seq<CborRaw>, i: nat)
    requires i < |xs|
    ensures AbsAll(xs)[i] == Abs(xs[i])
  {
    if i > 0 {
      AbsAllAt(xs[1..], i - 1);
    }
  }

  lemma {:induction false} AbsEntriesAt(es: seq<MapEntry>, i: nat)
    requires i < |es|
    ensures AbsEntries(es)[2 * i] == Abs(es[i].key) && AbsEntries(es)[2 * i + 1] == Abs(es[i].value)
  {
    hide Abs;
    if i > 0 {
      AbsEntriesAt(es[1..], i - 1);
      assert AbsEntries(es) == AbsEntry(es[0]) + AbsEntries(es[1..]);
      assert AbsEntries(es)[2 * i] == AbsEntries(es[1..])[2 * (i - 1)];
      assert AbsEntries(es)[2 * i + 1] == AbsEntries(es[1..])[2 * (i - 1) + 1];
    }
  }

  // ------------------------------------------------------------------
  // Reading
  // ------------------------------------------------------------------

  /** Reads the first level of the item that `input` holds; nested items stay
      serialized. */
  function CborRead(input: seq<byte>): CborRaw
    requires input != [] && JumpHeader(input, 0) <= |input| && Readable(input[..JumpHeader(input, 0)])
    requires var h := ReadHeader(input[..JumpHeader(input, 0)]);
             h.snd.LongArgumentSimpleValue? <==> h.fst.majorType == MAJOR_SIMPLE_VALUE && !h.snd.LongArgumentOther?
  {
    var i := JumpHeader(input, 0);
    var pc := input[i..];
    var h := ReadHeader(input[..i]);
    var typ := h.fst.majorType;
    if typ == MAJOR_UINT64 || typ == MAJOR_NEG_INT64 then
      var i0 := ArgumentAsRaw(h.fst, h.snd);
      CaseInt(typ, i0.size, i0.value)
    else if typ == MAJOR_TEXT_STRING || typ == MAJOR_BYTE_STRING then
      CaseString(typ, ArgumentAsRaw(h.fst, h.snd).size, pc)
    else if typ == MAJOR_TAGGED then CaseSerializedTagged(ArgumentAsRaw(h.fst, h.snd), pc)
    else if typ == MAJOR_ARRAY then CaseSerializedArray(ArgumentAsRaw(h.fst, h.snd), pc)
    else if typ == MAJOR_MAP then CaseSerializedMap(ArgumentAsRaw(h.fst, h.snd), pc)
    else
      CaseSimple(if h.snd.LongArgumentOther? then h.fst.additionalInfo else h.snd.v)
  }

  /** Reading the encoding of an item yields a valid object that stands for it. */
  lemma CborReadItem(input: seq<byte>, x: Item)
    requires WF(x) && input == Ser(x) && |input| <= USIZE_MAX
    ensures CborRead.requires(input)
    ensures Valid(CborRead(input)) && Abs(CborRead(input)) == x
  {
    hide Utf8.Correct, ParseItems, ParseLeaf, ReadHeader, JumpHeader, Readable, HeadBytes, Ser;
    ReadStart(input, x);
    HeaderOfFields(x.head);
    ParseComplete(x.children, []);
    assert SerAll(x.children) + [] == SerAll(x.children);
  }

  /** What reading an item starts from. */
  lemma ReadStart(input: seq<byte>, x: Item)
    requires WF(x) && input == Ser(x) && |input| <= USIZE_MAX
    ensures var i := JumpHeader(input, 0);
            && input != [] && i <= |input| && Readable(input[..i]) && ReadHeader(input[..i]) == HeaderOf(x.head)
            && input[i..] == if IsString(x.head) then x.content else SerAll(x.children)
    ensures IsString(x.head) ==> x.children == []
  {
    hide Utf8.Correct, ParseItems, ParseLeaf, ReadHeader, BigEndian, FromBigEndian;
    SerUnfold(x);
    LeafHeader(input, x.head, x.content);
    assert input[JumpHeader(input, 0)..] == x.content + SerAll(x.children);
  }
}
