/** Data item heads (section 3 of RFC 8949): the initial byte with its major
    type, and the big-endian argument that follows it. */
module Header {
  import opened Machine
  import opened Lex

  const MAJOR_UINT64: byte := 0
  const MAJOR_NEG_INT64: byte := 1
  const MAJOR_BYTE_STRING: byte := 2
  const MAJOR_TEXT_STRING: byte := 3
  const MAJOR_ARRAY: byte := 4
  const MAJOR_MAP: byte := 5
  const MAJOR_TAGGED: byte := 6
  const MAJOR_SIMPLE_VALUE: byte := 7

  const LONG_8_BITS: byte := 24
  const LONG_16_BITS: byte := 25
  const LONG_32_BITS: byte := 26
  const LONG_64_BITS: byte := 27
  const UNASSIGNED_MIN: byte := 28
  const MIN_SIMPLE_VALUE_LONG: byte := 32
  const MAX_SIMPLE_VALUE_ADDITIONAL_INFO: byte := 23

  // ------------------------------------------------------------------
  // Specification: a head is a major type with a size-annotated argument
  // ------------------------------------------------------------------

  /** An argument with the width chosen for it: 0 for the initial byte itself,
      1, 2, 3, 4 for one, two, four and eight bytes. */
  datatype RawUint64 = RawUint64(size: nat, value: nat)

  datatype Head = Head(major: byte, arg: RawUint64)

  /** The number of argument bytes of a size. */
  function Width(size: nat): nat {
    if size == 0 then 0 else if size == 1 then 1 else if size == 2 then 2 else if size == 3 then 4 else 8
  }

  /** The first argument that does not fit a size. */
  function Limit(size: nat): nat {
    if size == 0 then 24
    else if size == 1 then 0x100
    else if size == 2 then 0x1_0000
    else if size == 3 then 0x1_0000_0000
    else 0x1_0000_0000_0000_0000
  }

  predicate ArgOk(x: RawUint64) {
    x.size <= 4 && x.value < Limit(x.size)
  }

  predicate HeadOk(h: Head) {
    h.major <= 7 && ArgOk(h.arg) &&
    (h.major == MAJOR_SIMPLE_VALUE ==> h.arg.size == 0 || (h.arg.size == 1 && MIN_SIMPLE_VALUE_LONG <= h.arg.value))
  }

  /** The `w` low-order bytes of `v`, most significant first. */
  ghost function BigEndian(v: nat, w: nat): (s: seq<byte>)
    ensures |s| == w
  {
    if w == 0 then [] else BigEndian(v / 256, w - 1) + [v % 256]
  }

  ghost function FromBigEndian(s: seq<byte>): nat {
    if s == [] then 0 else FromBigEndian(s[..|s| - 1]) * 256 + s[|s| - 1]
  }

  function Info(x: RawUint64): nat {
    if x.size == 0 then x.value else 23 + x.size
  }

  ghost function HeadBytes(h: Head): (s: seq<byte>)
    requires HeadOk(h)
    ensures |s| == 1 + Width(h.arg.size)
  {
    [h.major * 32 + Info(h.arg)] + BigEndian(h.arg.value, Width(h.arg.size))
  }

  /** The head at the front of `s`, if there is one. */
  ghost function ParseHead(s: seq<byte>): (r: Option<Head>)
  {
    if s == [] then None else
    var major, info: nat := s[0] / 32, s[0] % 32;
    if info >= UNASSIGNED_MIN || (major == MAJOR_SIMPLE_VALUE && info > LONG_8_BITS) then None
    else if info < 24 then Some(Head(major, RawUint64(0, info)))
    else
      var w := Width(info - 23);
      if |s| < 1 + w then None else
      var v := FromBigEndian(s[1..1 + w]);
      if major == MAJOR_SIMPLE_VALUE && v < MIN_SIMPLE_VALUE_LONG then None
      else Some(Head(major, RawUint64(info - 23, v)))
  }

  function Pow256(w: nat): nat {
    if w == 0 then 1 else 256 * Pow256(w - 1)
  }

  lemma LimitIsPower(size: nat)
    requires 1 <= size <= 4
    ensures Limit(size) == Pow256(Width(size))
  {
    assert Pow256(1) == 0x100 && Pow256(2) == 0x1_0000;
    assert Pow256(3) == 0x100_0000 && Pow256(4) == 0x1_0000_0000;
    assert Pow256(5) == 0x100_0000_0000 && Pow256(6) == 0x1_0000_0000_0000;
    assert Pow256(7) == 0x100_0000_0000_0000 && Pow256(8) == 0x1_0000_0000_0000_0000;
  }

  lemma {:induction false} BigEndianRoundTrip(v: nat, w: nat)
    requires v < Pow256(w)
    ensures FromBigEndian(BigEndian(v, w)) == v
  {
    if w != 0 {
      BigEndianRoundTrip(v / 256, w - 1);
      var s := BigEndian(v, w);
      assert s[..|s| - 1] == BigEndian(v / 256, w - 1);
    }
  }

  lemma {:induction false} FromBigEndianRoundTrip(s: seq<byte>)
    ensures FromBigEndian(s) < Pow256(|s|)
    ensures BigEndian(FromBigEndian(s), |s|) == s
  {
    if s != [] {
      FromBigEndianRoundTrip(s[..|s| - 1]);
      assert FromBigEndian(s) / 256 == FromBigEndian(s[..|s| - 1]);
    }
  }

  /** Of equally long big-endian numbers the lexicographic order is the numeric one. */
  lemma {:induction false} BigEndianOrder(v1: nat, v2: nat, w: nat)
    requires v1 < Pow256(w) && v2 < Pow256(w)
    ensures LexCompare(BigEndian(v1, w), BigEndian(v2, w)) == CompareInt(v1, v2)
  {
    if w != 0 {
      BigEndianOrder(v1 / 256, v2 / 256, w - 1);
      LexConcat(BigEndian(v1 / 256, w - 1), BigEndian(v2 / 256, w - 1), [v1 % 256], [v2 % 256]);
    }
  }

  /** What is parsed as a head encodes back to the bytes that were read. */
  lemma ParseHeadSound(s: seq<byte>)
    requires ParseHead(s).Some?
    ensures HeadOk(ParseHead(s).value) && HeadBytes(ParseHead(s).value) <= s
  {
    hide BigEndian, FromBigEndian;
    var h := ParseHead(s).value;
    assert s[0] == h.major * 32 + Info(h.arg);
    if h.arg.size == 0 {
      assert HeadBytes(h) == [s[0]] <= s;
    } else {
      var w := Width(h.arg.size);
      LimitIsPower(h.arg.size);
      FromBigEndianRoundTrip(s[1..1 + w]);
      assert HeadBytes(h) == [s[0]] + s[1..1 + w] == s[..1 + w];
    }
  }

  /** Every head, whatever follows it, is parsed. */
  lemma ParseHeadComplete(h: Head, s: seq<byte>)
    requires HeadOk(h) && HeadBytes(h) <= s
    ensures ParseHead(s) == Some(h)
  {
    hide BigEndian, FromBigEndian;
    assert s[0] == HeadBytes(h)[0];
    assert s[0] / 32 == h.major && s[0] % 32 == Info(h.arg);
    if h.arg.size > 0 {
      var w := Width(h.arg.size);
      LimitIsPower(h.arg.size);
      BigEndianRoundTrip(h.arg.value, w);
      assert s[1..1 + w] == HeadBytes(h)[1..1 + w] == BigEndian(h.arg.value, w);
    }
  }

  /** No head is a proper prefix of another. */
  lemma HeadPrefixFree(h1: Head, h2: Head)
    requires HeadOk(h1) && HeadOk(h2)
    ensures PrefixFree(HeadBytes(h1), HeadBytes(h2))
    ensures HeadBytes(h1) == HeadBytes(h2) ==> h1 == h2
  {
    if HeadBytes(h1) <= HeadBytes(h2) {
      ParseHeadComplete(h1, HeadBytes(h2));
      ParseHeadComplete(h2, HeadBytes(h2));
    }
    if HeadBytes(h2) <= HeadBytes(h1) {
      ParseHeadComplete(h1, HeadBytes(h1));
      ParseHeadComplete(h2, HeadBytes(h1));
    }
  }

  /** The order of arguments used on objects: by width, then by value. */
  function CompareRawUint64(x1: RawUint64, x2: RawUint64): int {
    var c := CompareInt(x1.size, x2.size);
    if c == 0 then CompareInt(x1.value, x2.value) else c
  }

  /** Comparing heads as bytes is comparing major type, then width, then value. */
  lemma HeadOrder(h1: Head, h2: Head)
    requires HeadOk(h1) && HeadOk(h2)
    ensures LexCompare(HeadBytes(h1), HeadBytes(h2)) ==
            if h1.major != h2.major then CompareInt(h1.major, h2.major) else CompareRawUint64(h1.arg, h2.arg)
  {
    var w1, w2 := Width(h1.arg.size), Width(h2.arg.size);
    var b1, b2: byte := h1.major * 32 + Info(h1.arg), h2.major * 32 + Info(h2.arg);
    LexConcat([b1], [b2], BigEndian(h1.arg.value, w1), BigEndian(h2.arg.value, w2));
    assert LexCompare([b1], [b2]) == CompareInt(b1, b2);
    if b1 == b2 {
      assert h1.major == h2.major && Info(h1.arg) == Info(h2.arg);
      if h1.arg.size > 0 {
        LimitIsPower(h1.arg.size);
        BigEndianOrder(h1.arg.value, h2.arg.value, w1);
      }
    }
  }

  // ------------------------------------------------------------------
  // Program: headers as read and written by the code
  // ------------------------------------------------------------------

  datatype InitialByte = InitialByte(majorType: byte, additionalInfo: byte)

  datatype LongArgument =
    | LongArgumentSimpleValue(v: byte)
    | LongArgumentU8(v8: nat)
    | LongArgumentU16(v16: nat)
    | LongArgumentU32(v32: nat)
    | LongArgumentU64(v64: nat)
    | LongArgumentOther

  datatype Header = Header(fst: InitialByte, snd: LongArgument)

  /** The number carried by a header that is not a simple value. */
  function ArgumentAsRaw(b: InitialByte, x: LongArgument): RawUint64
    requires !x.LongArgumentSimpleValue?
  {
    match x
    case LongArgumentU8(v) => RawUint64(1, v)
    case LongArgumentU16(v) => RawUint64(2, v)
    case LongArgumentU32(v) => RawUint64(3, v)
    case LongArgumentU64(v) => RawUint64(4, v)
    case LongArgumentOther => RawUint64(0, b.additionalInfo)
  }

  function ArgumentAsUint64(b: InitialByte, x: LongArgument): nat
    requires !x.LongArgumentSimpleValue?
  {
    ArgumentAsRaw(b, x).value
  }

  /** The casts of the program keep the low-order bits only. */
  function RawUint64AsArgument(t: byte, x: RawUint64): Header {
    if x.size == 0 then Header(InitialByte(t, x.value % 0x100), LongArgumentOther)
    else if x.size == 1 then Header(InitialByte(t, LONG_8_BITS), LongArgumentU8(x.value % 0x100))
    else if x.size == 2 then Header(InitialByte(t, LONG_16_BITS), LongArgumentU16(x.value % 0x1_0000))
    else if x.size == 3 then Header(InitialByte(t, LONG_32_BITS), LongArgumentU32(x.value % 0x1_0000_0000))
    else Header(InitialByte(t, LONG_64_BITS), LongArgumentU64(x.value))
  }

  function SimpleValueAsArgument(x: byte): Header {
    if x <= MAX_SIMPLE_VALUE_ADDITIONAL_INFO then
      Header(InitialByte(MAJOR_SIMPLE_VALUE, x), LongArgumentOther)
    else
      Header(InitialByte(MAJOR_SIMPLE_VALUE, LONG_8_BITS), LongArgumentSimpleValue(x))
  }

  function MkRawUint64(x: u64): (r: RawUint64)
    ensures ArgOk(r) && r.value == x
  {
    var size :=
      if x <= MAX_SIMPLE_VALUE_ADDITIONAL_INFO then 0
      else if x < 256 then 1
      else if x < 65536 then 2 else if x < 4294967296 then 3 else 4;
    RawUint64(size, x)
  }

  /** The program's test for the shortest form. */
  predicate RawUint64Optimal(x: RawUint64) {
    (x.value <= MAX_SIMPLE_VALUE_ADDITIONAL_INFO <==> x.size == 0) &&
    (x.size <= 1 ||
     if x.size == 2 then 256 <= x.value else if x.size == 3 then 65536 <= x.value else 4294967296 <= x.value)
  }

  /** The test accepts exactly one width for each value, the one chosen on
      construction, and no smaller width could hold the value. */
  lemma OptimalIsShortest(x: RawUint64)
    requires ArgOk(x)
    ensures RawUint64Optimal(x) <==> x == MkRawUint64(x.value)
    ensures RawUint64Optimal(x) <==> forall size: nat | size < x.size :: !ArgOk(RawUint64(size, x.value))
  {
    if !RawUint64Optimal(x) {
      assert ArgOk(RawUint64(MkRawUint64(x.value).size, x.value));
    }
  }

  /** The header the program uses for a head. */
  ghost function HeaderOf(h: Head): Header
    requires HeadOk(h)
  {
    if h.major == MAJOR_SIMPLE_VALUE then SimpleValueAsArgument(h.arg.value) else RawUint64AsArgument(h.major, h.arg)
  }

  /** The head of a simple value. */
  function SimpleHead(v: byte): (h: Head)
    ensures v <= MAX_SIMPLE_VALUE_ADDITIONAL_INFO || MIN_SIMPLE_VALUE_LONG <= v ==>
            HeadOk(h) && HeaderOf(h) == SimpleValueAsArgument(v)
  {
    Head(MAJOR_SIMPLE_VALUE, RawUint64(if v <= MAX_SIMPLE_VALUE_ADDITIONAL_INFO then 0 else 1, v))
  }

  /** The header carries the major type and argument of its head. */
  lemma HeaderOfFields(h: Head)
    requires HeadOk(h)
    ensures HeaderOf(h).fst.majorType == h.major && HeaderOf(h).fst.additionalInfo == Info(h.arg)
    ensures h.arg.value < TWO_TO_THE_64
    ensures h.major != MAJOR_SIMPLE_VALUE ==>
              !HeaderOf(h).snd.LongArgumentSimpleValue? &&
              ArgumentAsRaw(HeaderOf(h).fst, HeaderOf(h).snd) == h.arg
  {
  }

  /** The bits of `x` from `lo` up to `hi`, by two shifts. */
  function GetBitfield8(x: bv8, lo: bv8, hi: bv8): bv8
    requires lo < hi <= 8
  {
    (x << (8 - hi)) >> (8 - hi + lo)
  }

  /** The bits of `x` from `lo` up to `hi` replaced by `v`. */
  function SetBitfield8(x: bv8, lo: bv8, hi: bv8, v: bv8): bv8
    requires lo < hi <= 8
  {
    var op1: bv8 := 255 >> (8 - (hi - lo));
    var op2 := op1 << lo;
    (x & !op2) | (v << lo)
  }

  function ReadInitialByte(input: seq<byte>): InitialByte
    requires input != []
  {
    var x := input[0];
    InitialByte(x / 32, x % 32)
  }

  function InitialByteValue(x: InitialByte): byte
    requires x.majorType < 8 && x.additionalInfo < 32
  {
    x.majorType * 32 + x.additionalInfo
  }

  /** The bits of a byte. */
  lemma {:induction false} BitsOfByte(x: byte) returns (b: bv8)
    ensures b as int == x
  {
    if x == 0 {
      b := 0;
    } else {
      b := BitsOfByte(x - 1);
      NextByte(b);
      b := b + 1;
    }
  }

  lemma NextByte(b: bv8)
    requires b as int < 255
    ensures (b + 1) as int == b as int + 1
  {
  }

  /** Dividing by 32 on bits and on numbers. */
  lemma QuotientOfBits(b: bv8)
    ensures (b / 32) as int == (b as int) / 32
  {
  }

  lemma RemainderOfBits(b: bv8)
    ensures (b % 32) as int == (b as int) % 32
  {
  }

  lemma FieldsAreDivision(b: bv8)
    ensures GetBitfield8(b, 5, 8) == b / 32 && GetBitfield8(b, 0, 5) == b % 32
  {
  }

  /** The initial byte is read by shifts: the quotient and remainder by 32 of any
      byte are the two fields of its bits. */
  lemma InitialByteByShifts(x: byte) returns (b: bv8)
    ensures b as int == x
    ensures ReadInitialByte([x]) == InitialByte(GetBitfield8(b, 5, 8) as int, GetBitfield8(b, 0, 5) as int)
  {
    hide GetBitfield8;
    b := BitsOfByte(x);
    FieldsAreDivision(b);
    QuotientOfBits(b);
    RemainderOfBits(b);
  }

  lemma FieldsSet(major: bv8, info: bv8)
    requires major < 8 && info < 32
    ensures SetBitfield8(SetBitfield8(0, 0, 5, info), 5, 8, major) / 32 == major
    ensures SetBitfield8(SetBitfield8(0, 0, 5, info), 5, 8, major) % 32 == info
  {
  }

  lemma FieldsInRange(major: bv8, info: bv8)
    requires major < 8 && info < 32
    ensures major as int < 8 && info as int < 32
  {
  }

  /** It is written by masks: setting the two fields of a cleared byte gives the byte
      that is written, from which both fields are read back. */
  lemma InitialByteByMasks(major: bv8, info: bv8)
    requires major < 8 && info < 32
    ensures major as int < 8 && info as int < 32
    ensures var x := InitialByte(major as int, info as int);
            InitialByteValue(x) == SetBitfield8(SetBitfield8(0, 0, 5, info), 5, 8, major) as int &&
            ReadInitialByte([InitialByteValue(x)]) == x
  {
    hide SetBitfield8;
    var y := SetBitfield8(SetBitfield8(0, 0, 5, info), 5, 8, major);
    FieldsInRange(major, info);
    FieldsSet(major, info);
    QuotientOfBits(y);
    RemainderOfBits(y);
  }

  /** One step of reading a big-endian number. */
  function Shift(n: nat, b: byte): nat { b + n * 256 }

  function ReadU16(s: seq<byte>): nat
    requires |s| >= 2
  {
    Shift(s[0], s[1])
  }

  function ReadU32(s: seq<byte>): nat
    requires |s| >= 4
  {
    Shift(Shift(ReadU16(s), s[2]), s[3])
  }

  function ReadU64(s: seq<byte>): nat
    requires |s| >= 8
  {
    Shift(Shift(Shift(Shift(ReadU32(s), s[4]), s[5]), s[6]), s[7])
  }

  lemma FromBigEndianStep(s: seq<byte>, k: nat)
    requires k < |s|
    ensures FromBigEndian(s[..0]) == 0
    ensures FromBigEndian(s[..k + 1]) == Shift(FromBigEndian(s[..k]), s[k])
  {
    assert s[..k + 1][..k] == s[..k];
  }

  /** The straight-line reads compute the big-endian value. */
  lemma ReadsBigEndian(s: seq<byte>)
    ensures |s| >= 1 ==> s[0] == FromBigEndian(s[..1])
    ensures |s| >= 2 ==> ReadU16(s) == FromBigEndian(s[..2])
    ensures |s| >= 4 ==> ReadU32(s) == FromBigEndian(s[..4])
    ensures |s| >= 8 ==> ReadU64(s) == FromBigEndian(s[..8])
  {
    if |s| >= 1 { FromBigEndianStep(s, 0); }
    if |s| >= 2 { FromBigEndianStep(s, 1); }
    if |s| >= 4 { FromBigEndianStep(s, 2); FromBigEndianStep(s, 3); }
    if |s| >= 8 {
      FromBigEndianStep(s, 4); FromBigEndianStep(s, 5); FromBigEndianStep(s, 6); FromBigEndianStep(s, 7);
    }
  }

  /** Does `input` hold the bytes that its first byte asks for? */
  predicate Readable(input: seq<byte>) {
    input != [] && (LONG_8_BITS <= input[0] % 32 <= LONG_64_BITS ==> |input| >= 1 + Width(input[0] % 32 - 23))
  }

  function ReadHeader(input: seq<byte>): Header
    requires Readable(input)
  {
    var x1 := ReadInitialByte(input[..1]);
    var input2 := input[1..];
    var x2 :=
      if x1.additionalInfo == LONG_8_BITS then
        (if x1.majorType == MAJOR_SIMPLE_VALUE then LongArgumentSimpleValue(input2[0]) else LongArgumentU8(input2[0]))
      else if x1.additionalInfo == LONG_16_BITS then LongArgumentU16(ReadU16(input2))
      else if x1.additionalInfo == LONG_32_BITS then LongArgumentU32(ReadU32(input2))
      else if x1.additionalInfo == LONG_64_BITS then LongArgumentU64(ReadU64(input2))
      else LongArgumentOther;
    Header(x1, x2)
  }

  /** Reading a header where a head parses yields the header of that head. */
  lemma ReadHeaderParses(input: seq<byte>)
    requires ParseHead(input).Some?
    ensures Readable(input) && HeadOk(ParseHead(input).value)
    ensures ReadHeader(input) == HeaderOf(ParseHead(input).value)
  {
    hide HeadBytes, BigEndian, FromBigEndian, ReadU16, ReadU32, ReadU64;
    ParseHeadSound(input);
    var h := ParseHead(input).value;
    if h.arg.size > 0 {
      ReadsArgument(input, Width(h.arg.size));
    }
  }

  lemma ReadsArgument(input: seq<byte>, w: nat)
    requires |input| >= 1 + w
    ensures w == 1 ==> input[1..][0] == FromBigEndian(input[1..1 + w])
    ensures w == 2 ==> ReadU16(input[1..]) == FromBigEndian(input[1..1 + w])
    ensures w == 4 ==> ReadU32(input[1..]) == FromBigEndian(input[1..1 + w])
    ensures w == 8 ==> ReadU64(input[1..]) == FromBigEndian(input[1..1 + w])
  {
    ReadsBigEndian(input[1..]);
    assert input[1..][..w] == input[1..1 + w];
  }

  // ------------------------------------------------------------------
  // Heads in plain bytes
  // ------------------------------------------------------------------

  /** The argument bytes of a head, most significant first. */
  lemma HeadArgument(h: Head)
    requires HeadOk(h) && h.arg.size > 0
    ensures var s, w := HeadBytes(h), Width(h.arg.size);
            |s| == 1 + w && FromBigEndian(s[1..1 + w]) == h.arg.value
  {
    var w := Width(h.arg.size);
    LimitIsPower(h.arg.size);
    BigEndianRoundTrip(h.arg.value, w);
    assert HeadBytes(h)[1..1 + w] == BigEndian(h.arg.value, w);
  }

  /** The bytes of a head, as section 3 of RFC 8949 lays them out. */
  lemma HeadLayout(h: Head)
    requires HeadOk(h)
    ensures h.major <= 7 && h.arg.size <= 4
    ensures h.arg.size == 0 ==> h.arg.value < 24
    ensures h.arg.size == 1 ==> h.arg.value < 256
    ensures var s, v := HeadBytes(h), h.arg.value; h.arg.size == 0 ==> s == [32 * h.major + v]
    ensures var s, v := HeadBytes(h), h.arg.value; h.arg.size == 1 ==> s == [32 * h.major + 24, v]
    ensures var s, v := HeadBytes(h), h.arg.value;
            h.arg.size == 2 ==>
              |s| == 3 && s[0] == 32 * h.major + 25 && v == s[1] as int * 0x100 + s[2] as int
    ensures var s, v := HeadBytes(h), h.arg.value;
            h.arg.size == 3 ==>
              |s| == 5 && s[0] == 32 * h.major + 26 &&
              v == s[1] as int * 0x100_0000 + s[2] as int * 0x1_0000 + s[3] as int * 0x100 + s[4] as int
    ensures var s, v := HeadBytes(h), h.arg.value;
            h.arg.size == 4 ==>
              |s| == 9 && s[0] == 32 * h.major + 27 &&
              v == (s[1] as int * 0x100_0000 + s[2] as int * 0x1_0000 + s[3] as int * 0x100 + s[4] as int)
                   * 0x1_0000_0000
                   + (s[5] as int * 0x100_0000 + s[6] as int * 0x1_0000 + s[7] as int * 0x100 + s[8] as int)
  {
    hide BigEndian, FromBigEndian;
    if h.arg.size > 0 {
      HeadArgument(h);
      ReadsArgument(HeadBytes(h), Width(h.arg.size));
    }
  }

  /** The bytes of the head with the shortest form of an argument. */
  ghost function ShortBytes(major: nat, v: u64): (s: seq<byte>)
    requires major <= 6
    ensures |s| > 0
  {
    HeadBytes(Head(major, MkRawUint64(v)))
  }

  /** The shortest form in plain bytes: which of the five forms is used, and what its
      bytes are. */
  lemma ShortLayout(major: nat, v: u64)
    requires major <= 6
    ensures ShortBytes(major, v)[0] / 32 == major
    ensures var s := ShortBytes(major, v); v < 24 ==> s == [32 * major + v]
    ensures var s := ShortBytes(major, v); 24 <= v < 0x100 ==> s == [32 * major + 24, v]
    ensures var s := ShortBytes(major, v);
            0x100 <= v < 0x1_0000 ==>
              |s| == 3 && s[0] == 32 * major + 25 && v == s[1] as int * 0x100 + s[2] as int
    ensures var s := ShortBytes(major, v);
            0x1_0000 <= v < 0x1_0000_0000 ==>
              |s| == 5 && s[0] == 32 * major + 26 &&
              v == s[1] as int * 0x100_0000 + s[2] as int * 0x1_0000 + s[3] as int * 0x100 + s[4] as int
    ensures var s := ShortBytes(major, v);
            0x1_0000_0000 <= v ==>
              |s| == 9 && s[0] == 32 * major + 27 &&
              v == (s[1] as int * 0x100_0000 + s[2] as int * 0x1_0000 + s[3] as int * 0x100 + s[4] as int)
                   * 0x1_0000_0000
                   + (s[5] as int * 0x100_0000 + s[6] as int * 0x1_0000 + s[7] as int * 0x100 + s[8] as int)
  {
    hide BigEndian, FromBigEndian;
    HeadLayout(Head(major, MkRawUint64(v)));
  }
}
