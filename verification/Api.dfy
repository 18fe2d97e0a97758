/** The interface of the library: parse, serialize, construct, take apart and
    compare deterministic objects. */
module Api {
  import opened Machine
  import opened Lex
  import opened Header
  import opened Item
  import opened Validator
  import opened Raw
  import opened Iterator
  import opened Det
  import opened Compare
  import opened Serializer
  import opened Sort
  import opened Build
  import opened Canonical
  import MapInsert
  import Utf8

  /** Objects of the interface: valid, and standing for a deterministic item. */
  ghost predicate DetObject(x: CborRaw) {
    Valid(x) && IsDet(Abs(x))
  }

  // ------------------------------------------------------------------
  // Parse and serialize
  // ------------------------------------------------------------------

  datatype ParseResult = NoObject | Object(obj: CborRaw, rem: seq<byte>)

  /** What parsing promises: the deterministic object at the front of the input
      with what remains after it, or that there is none. */
  ghost predicate ParseSpec(input: seq<byte>, r: ParseResult) {
    match r
    case NoObject => forall x :: IsDet(x) ==> !(Ser(x) <= input)
    case Object(x, rem) => DetObject(x) && input == Enc(x) + rem
  }

  method Parse(input: seq<byte>) returns (r: ParseResult)
    requires |input| <= USIZE_MAX
    ensures ParseSpec(input, r)
  {
    hide Valid, WF, Ser, Optimal, Sorted, CborRead;
    var len := ValidateDet(input);
    if len == 0 {
      r := NoObject;
    } else {
      var input2 := input[..len];
      var rem := input[len..];
      ghost var x :| IsDet(x) && Ser(x) == input[..len];
      CborReadItem(input2, x);
      var res := CborRead(input2);
      r := Object(res, rem);
    }
  }

  /** None exactly when the encoding is longer than the bound. */
  method Size(x: CborRaw, bound: usize) returns (r: Option<usize>)
    requires Valid(x)
    ensures r == if |Enc(x)| <= bound then Some(|Enc(x)|) else None
  {
    hide Valid, WF, Abs;
    var size := CborSize(x, bound);
    r := if size == 0 then None else Some(size);
  }

  /** Writes the encoding at the front of the output if it fits, touching nothing
      after it. */
  method Serialize(x: CborRaw, output: array<byte>) returns (r: Option<usize>)
    requires Valid(x) && output.Length <= USIZE_MAX
    modifies output
    ensures |Enc(x)| <= output.Length ==>
              r == Some(|Enc(x)|) && output[..] == Enc(x) + old(output[..])[|Enc(x)|..]
    ensures |Enc(x)| > output.Length ==> r == None && output[..] == old(output[..])
  {
    hide Valid, WF, Abs;
    var len := CborSize(x, output.Length);
    if len > 0 {
      var len' := CborSerialize(x, output);
      r := Some(len');
    } else {
      r := None;
    }
  }

  /** Whatever follows the encoding of a deterministic object, parsing gives back
      an object that stands for the same item, and exactly what followed. */
  lemma RoundTrip(x: CborRaw, suffix: seq<byte>, r: ParseResult)
    requires DetObject(x) && ParseSpec(Enc(x) + suffix, r)
    ensures r.Object? && r.rem == suffix && Abs(r.obj) == Abs(x)
  {
    hide Valid, WF, Ser, Optimal, Sorted, Abs;
    var s := Enc(x) + suffix;
    assert Ser(Abs(x)) <= s;
    OnlyItem(Abs(x), s);
    if r.Object? {
      assert Ser(Abs(r.obj)) <= s;
      assert s[|Enc(x)|..] == suffix && s[|Enc(r.obj)|..] == r.rem;
    }
  }

  /** Equality of objects is equality of the items they stand for and of their
      encodings; for deterministic objects it is equality of meaning. */
  method Equal(x1: CborRaw, x2: CborRaw) returns (b: bool)
    requires Valid(x1) && Valid(x2)
    ensures b <==> Abs(x1) == Abs(x2)
    ensures b <==> Enc(x1) == Enc(x2)
    ensures IsDet(Abs(x1)) && IsDet(Abs(x2)) ==> (b <==> ValueOf(Abs(x1)) == ValueOf(Abs(x2)))
  {
    hide Valid, WF, Ser, Abs;
    ValidAbs(x1);
    ValidAbs(x2);
    SerPrefixFree(Abs(x1), Abs(x2));
    LexZero(Enc(x1), Enc(x2));
    if IsDet(Abs(x1)) && IsDet(Abs(x2)) && ValueOf(Abs(x1)) == ValueOf(Abs(x2)) {
      DeterministicIsCanonical(Abs(x1), Abs(x2));
    }
    var comp := CompareWithDepth(x1, x2);
    b := comp == 0;
  }

  /** Serializing an object and parsing the bytes gives an equal object. */
  method SerializeParseEqual(source: CborRaw, target: array<byte>) returns (equal: bool)
    requires DetObject(source) && |Enc(source)| <= target.Length <= USIZE_MAX
    modifies target
    ensures equal
  {
    hide Valid, WF, Ser, Optimal, Sorted, Abs, ParseSpec, Enc;
    var size := Serialize(source, target);
    var parsed := Parse(target[..]);
    RoundTrip(source, target[..][|Enc(source)|..], parsed);
    ParsedValid(target[..], parsed);
    equal := Equal(source, parsed.obj);
  }

  lemma ParsedValid(input: seq<byte>, r: ParseResult)
    requires ParseSpec(input, r) && r.Object?
    ensures Valid(r.obj)
  {
  }

  // ------------------------------------------------------------------
  // Constructors
  // ------------------------------------------------------------------

  lemma LeafIsDet(x: CborRaw)
    requires Valid(x) && (x.CaseInt? || x.CaseSimple? || x.CaseString?) && OptimalHead(AbsHead(x))
    ensures DetObject(x)
  {
    hide Utf8.Correct, ParseItems, Ser;
    ValidAbs(x);
  }

  /** The bytes of an object whose argument is in shortest form. */
  lemma ShortEncoding(x: CborRaw, major: nat, v: u64, body: seq<byte>)
    requires Valid(x) && major <= 6 && AbsHead(x) == Head(major, MkRawUint64(v))
    requires WF(Abs(x)) && Body(Abs(x)) == body
    ensures Enc(x) == ShortBytes(major, v) + body
    ensures Enc(x)[0] / 32 == major
    ensures v < 24 ==> Enc(x) == [32 * major + v] + body
  {
    hide ParseItems, WF, Ser, SerAll, Abs, HeadBytes, Valid;
    EncodingParts(x);
    ShortLayout(major, v);
  }

  /** The bytes of a simple value. */
  lemma SimpleEncoding(v: byte)
    requires v < 24 || 32 <= v
    ensures Valid(CaseSimple(v))
    ensures Enc(CaseSimple(v)) == if v < 24 then [0xE0 + v] else [0xF8, v]
  {
    hide ParseItems, HeadBytes;
    EncodingParts(CaseSimple(v));
    HeadLayout(SimpleHead(v));
  }

  lemma MkIsOptimal(v: u64)
    ensures RawUint64Optimal(MkRawUint64(v)) && ArgOk(MkRawUint64(v))
  {
  }

  /** None exactly for the values without an encoding. */
  method MkSimpleValue(v: byte) returns (r: Option<CborRaw>)
    ensures r.None? <==> 24 <= v <= 31
    ensures r.Some? ==> DetObject(r.value) && Abs(r.value) == Item(SimpleHead(v), [], [])
    ensures r.Some? ==> Enc(r.value) == if v < 24 then [0xE0 + v] else [0xF8, v]
  {
    if v <= MAX_SIMPLE_VALUE_ADDITIONAL_INFO || MIN_SIMPLE_VALUE_LONG <= v {
      var res := CaseSimple(v);
      LeafIsDet(res);
      SimpleEncoding(v);
      r := Some(res);
    } else {
      r := None;
    }
  }

  datatype IntKind = UInt64 | NegInt64

  method MkInt64(ty: IntKind, v: u64) returns (r: CborRaw)
    ensures DetObject(r)
    ensures Abs(r) == Item(Head(if ty.UInt64? then MAJOR_UINT64 else MAJOR_NEG_INT64, MkRawUint64(v)), [], [])
    ensures Enc(r) == ShortBytes(if ty.UInt64? then 0 else 1, v)
    ensures Enc(r)[0] / 32 == if ty.UInt64? then 0 else 1
    ensures v < 24 ==> Enc(r) == [if ty.UInt64? then v else 0x20 + v]
  {
    MkIsOptimal(v);
    r := CaseInt(if ty == UInt64 then MAJOR_UINT64 else MAJOR_NEG_INT64, MkRawUint64(v).size, MkRawUint64(v).value);
    LeafIsDet(r);
    BodyOf(r);
    ShortEncoding(r, if ty.UInt64? then 0 else 1, v, []);
  }

  datatype StringKind = ByteString | TextString

  /** Rejects exactly the text that is not UTF-8. */
  method MkString(ty: StringKind, s: seq<byte>) returns (r: Option<CborRaw>)
    requires |s| <= USIZE_MAX
    ensures r.Some? <==> (ty.TextString? ==> Utf8.Correct(s))
    ensures r.Some? ==> DetObject(r.value)
    ensures r.Some? ==> Abs(r.value).content == s && Abs(r.value).children == []
    ensures r.Some? ==> Abs(r.value).head.major == if ty.ByteString? then MAJOR_BYTE_STRING else MAJOR_TEXT_STRING
    ensures r.Some? ==> Enc(r.value) == ShortBytes(if ty.ByteString? then 2 else 3, |s|) + s
    ensures r.Some? ==> Enc(r.value)[0] / 32 == if ty.ByteString? then 2 else 3
    ensures r.Some? && |s| < 24 ==> Enc(r.value) == [(if ty.ByteString? then 0x40 else 0x60) + |s|] + s
  {
    hide Utf8.Correct, ShortBytes, Enc;
    if !SizetFitsU64(|s|) {
      return None;
    }
    var correct := true;
    if ty == TextString {
      correct := Utf8.ImplCorrect(s);
    }
    if correct {
      MkIsOptimal(|s|);
      var len64 := MkRawUint64(|s|);
      var res := CaseString(if ty == ByteString then MAJOR_BYTE_STRING else MAJOR_TEXT_STRING, len64.size, s);
      LeafIsDet(res);
      BodyOf(res);
      ShortEncoding(res, if ty.ByteString? then 2 else 3, |s|, s);
      r := Some(res);
    } else {
      r := None;
    }
  }

  method MkTagged(tag: u64, p: seq<CborRaw>) returns (r: CborRaw)
    requires |p| >= 1 && DetObject(p[0])
    ensures DetObject(r)
    ensures Abs(r) == Item(Head(MAJOR_TAGGED, MkRawUint64(tag)), [], [Abs(p[0])])
    ensures r == CaseTagged(MkRawUint64(tag), p)
    ensures Enc(r) == ShortBytes(6, tag) + Enc(p[0])
    ensures Enc(r)[0] / 32 == 6
    ensures tag < 24 ==> Enc(r) == [0xC0 + tag] + Enc(p[0])
  {
    hide Utf8.Correct, ParseItems, Ser, Optimal, Sorted, ShortBytes, Enc;
    MkIsOptimal(tag);
    var tag64 := MkRawUint64(tag);
    r := CaseTagged(tag64, p);
    ValidAbs(r);
    DetNode(Abs(r));
    BodyOf(r);
    ShortEncoding(r, 6, tag, Enc(p[0]));
  }

  method MkArray(a: seq<CborRaw>) returns (r: Option<CborRaw>)
    requires |a| <= USIZE_MAX
    requires forall i | 0 <= i < |a| :: DetObject(a[i])
    ensures r.Some? && DetObject(r.value)
    ensures Abs(r.value) == Item(Head(MAJOR_ARRAY, MkRawUint64(|a|)), [], AbsAll(a))
    ensures r.value == CaseArray(MkRawUint64(|a|).size, a)
    ensures ValidAll(a) && Enc(r.value) == ShortBytes(4, |a|) + EncAll(a)
    ensures Enc(r.value)[0] / 32 == 4
    ensures |a| < 24 ==> Enc(r.value) == [0x80 + |a|] + EncAll(a)
  {
    hide Utf8.Correct, ParseItems, Ser, Optimal, Sorted, ShortBytes, Enc, EncAll;
    if !SizetFitsU64(|a|) {
      return None;
    }
    MkIsOptimal(|a|);
    var len64 := MkRawUint64(|a|);
    var res := CaseArray(len64.size, a);
    ValidAbs(res);
    forall i | 0 <= i < |a| ensures IsDet(AbsAll(a)[i]) {
      AbsAllAt(a, i);
    }
    DetNode(Abs(res));
    BodyOf(res);
    ShortEncoding(res, 4, |a|, EncAll(a));
    r := Some(res);
  }

  /** Sorts the entries in place.  Rejects exactly the entries with a repeated key;
      otherwise the map stands for the sorted entries. */
  method MkMap(a: array<MapEntry>) returns (r: Option<CborRaw>)
    requires a.Length <= USIZE_MAX
    requires DetEntries(a[..])
    modifies a
    ensures multiset(a[..]) == multiset(old(a[..]))
    ensures r.Some? <==> Distinct(old(a[..]))
    ensures r.Some? ==> DetObject(r.value) && Increasing(a[..])
    ensures r.Some? ==> r.value == CaseMap(MkRawUint64(a.Length).size, a[..])
    ensures r.Some? ==> Abs(r.value) == Item(Head(MAJOR_MAP, MkRawUint64(a.Length)), [], AbsEntries(a[..]))
    ensures r.Some? ==> ValidEntries(a[..]) && Enc(r.value) == ShortBytes(5, a.Length) + EncEntries(a[..])
    ensures r.Some? ==> Enc(r.value)[0] / 32 == 5
    ensures r.Some? && a.Length < 24 ==> Enc(r.value) == [0xA0 + a.Length] + EncEntries(a[..])
  {
    hide ParseItems, Ser, Optimal, Sorted, WF, Distinct, Increasing, Valid, IsDet;
    hide ShortBytes, Enc, EncEntries, Abs;
    if !SizetFitsU64(a.Length) {
      return None;
    }
    ghost var s := a[..];
    DetEntriesParts(s);
    assert s[0..a.Length] == s;
    var correct := SortAux(a, 0, a.Length);
    assert a[..][0..a.Length] == a[..];
    if correct {
      var rawLen := MkRawUint64(a.Length);
      var res := CaseMap(rawLen.size, a[..]);
      DetEntriesPermutation(s, a[..]);
      MapIsDet(a[..]);
      BodyOf(res);
      ShortEncoding(res, 5, a.Length, EncEntries(a[..]));
      r := Some(res);
    } else {
      r := None;
    }
  }

  ghost predicate DetEntries(es: seq<MapEntry>) {
    forall i | 0 <= i < |es| :: DetObject(es[i].key) && DetObject(es[i].value)
  }

  lemma DetEntriesPermutation(s: seq<MapEntry>, t: seq<MapEntry>)
    requires multiset(s) == multiset(t) && DetEntries(s)
    ensures |s| == |t| && DetEntries(t)
  {
    hide DetObject;
    assert |multiset(s)| == |s| && |multiset(t)| == |t|;
    forall i | 0 <= i < |t| ensures DetObject(t[i].key) && DetObject(t[i].value) {
      assert t[i] in multiset(s);
    }
  }

  lemma DetEntriesParts(t: seq<MapEntry>)
    requires DetEntries(t)
    ensures ValidEntries(t)
    ensures forall i | 0 <= i < 2 * |t| :: IsDet(AbsEntries(t)[i])
  {
    hide Valid, IsDet;
    forall i | 0 <= i < 2 * |t| ensures IsDet(AbsEntries(t)[i]) {
      AbsEntriesAt(t, i / 2);
      assert DetObject(t[i / 2].key) && DetObject(t[i / 2].value);
    }
  }

  /** A map of deterministic entries in increasing order is deterministic. */
  lemma MapIsDet(t: seq<MapEntry>)
    requires |t| <= USIZE_MAX && DetEntries(t) && Increasing(t)
    ensures DetObject(CaseMap(MkRawUint64(|t|).size, t))
    ensures Abs(CaseMap(MkRawUint64(|t|).size, t)) == Item(Head(MAJOR_MAP, MkRawUint64(|t|)), [], AbsEntries(t))
  {
    hide ParseItems, Ser, Optimal, Sorted, WF, Valid, KeysSorted, Increasing;
    MkIsOptimal(|t|);
    DetEntriesParts(t);
    var x := CaseMap(MkRawUint64(|t|).size, t);
    ValidMap(MkRawUint64(|t|).size, t);
    ValidAbs(x);
    EntriesSorted(t);
    DetNode(Abs(x));
  }

  lemma EntriesSorted(t: seq<MapEntry>)
    requires ValidEntries(t) && Increasing(t)
    ensures WFAll(AbsEntries(t)) && KeysSorted(AbsEntries(t), |t|)
  {
    hide Utf8.Correct, ParseItems, Ser, WF, Valid, LexCompare;
    ValidAbsEntries(t);
    forall i, j | 0 <= i < j < |t|
      ensures LexCompare(KeyBytes(AbsEntries(t), i), KeyBytes(AbsEntries(t), j)) < 0
    {
      AbsEntriesAt(t, i);
      AbsEntriesAt(t, j);
      assert ValidEntry(t[i]) && ValidEntry(t[j]);
      assert Below(t[i], t[j]);
    }
  }
}
