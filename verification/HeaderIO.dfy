/** Validating, skipping, sizing and writing headers in byte buffers. */
module HeaderIO {
  import opened Machine
  import opened Header

  /** Is there room for `k` bytes at the offset?  If so, move the offset past them. */
  method ValidateBytes(k: usize, input: seq<byte>, poffset: array<usize>) returns (ok: bool)
    requires poffset.Length == 1 && poffset[0] <= |input| <= USIZE_MAX
    modifies poffset
    ensures ok <==> old(poffset[0]) + k <= |input|
    ensures poffset[0] == old(poffset[0]) + if ok then k else 0
  {
    var offset := poffset[0];
    var remaining: usize := |input| - offset;
    if remaining < k {
      ok := false;
    } else {
      var offset': usize := offset + k;
      poffset[0] := offset';
      ok := true;
    }
  }

  /** Succeeds exactly when a head parses at the offset, which then moves past it. */
  method ValidateHeader(input: seq<byte>, poffset: array<usize>) returns (ok: bool)
    requires poffset.Length == 1 && poffset[0] <= |input| <= USIZE_MAX
    modifies poffset
    ensures poffset[0] <= |input|
    ensures ok <==> ParseHead(input[old(poffset[0])..]).Some?
    ensures ok ==> poffset[0] == old(poffset[0]) + 1 + Width(ParseHead(input[old(poffset[0])..]).value.arg.size)
  {
    var offset1 := poffset[0];
    ghost var s := input[offset1..];
    var isValid := ValidateBytes(1, input, poffset);
    if !isValid {
      return false;
    }
    var x := ReadInitialByte(input[offset1..poffset[0]]);
    if !((x.majorType != MAJOR_SIMPLE_VALUE || x.additionalInfo <= LONG_8_BITS)
         && x.additionalInfo < UNASSIGNED_MIN) {
      return false;
    }
    if x.additionalInfo == LONG_8_BITS {
      if x.majorType == MAJOR_SIMPLE_VALUE {
        var offset2 := poffset[0];
        ok := ValidateBytes(1, input, poffset);
        if ok {
          var last := input[offset2..poffset[0]][0];
          ok := MIN_SIMPLE_VALUE_LONG <= last;
          assert s[1..2] == [last] && FromBigEndian(s[1..2]) == last;
        }
      } else {
        ok := ValidateBytes(1, input, poffset);
      }
    } else if x.additionalInfo == LONG_16_BITS {
      ok := ValidateBytes(2, input, poffset);
    } else if x.additionalInfo == LONG_32_BITS {
      ok := ValidateBytes(4, input, poffset);
    } else if x.additionalInfo == LONG_64_BITS {
      ok := ValidateBytes(8, input, poffset);
    } else {
      ok := true;
    }
  }

  /** The offset past the header at `offset`, from its initial byte alone. */
  function JumpHeader(input: seq<byte>, offset: nat): nat
    requires offset < |input|
  {
    var off1 := offset + 1;
    var x := ReadInitialByte(input[offset..off1]);
    if x.additionalInfo == LONG_8_BITS then off1 + 1
    else if x.additionalInfo == LONG_16_BITS then off1 + 2
    else if x.additionalInfo == LONG_32_BITS then off1 + 4
    else if x.additionalInfo == LONG_64_BITS then off1 + 8
    else off1
  }

  /** Where a head parses, jumping moves past its bytes and stays in the input. */
  lemma JumpHeaderParses(input: seq<byte>, offset: nat)
    requires offset <= |input| && ParseHead(input[offset..]).Some?
    ensures HeadOk(ParseHead(input[offset..]).value) && offset < |input|
    ensures JumpHeader(input, offset) == offset + |HeadBytes(ParseHead(input[offset..]).value)| <= |input|
  {
    ParseHeadSound(input[offset..]);
    assert input[offset..][0] == input[offset..offset + 1][0];
  }

  /** On the bytes of a head, whatever follows them, the head is parsed, jumped over
      and read back as the header that was written. */
  lemma HeaderRoundTrip(h: Head, input: seq<byte>)
    requires HeadOk(h) && HeadBytes(h) <= input
    ensures ParseHead(input) == Some(h)
    ensures input != [] && JumpHeader(input, 0) == |HeadBytes(h)|
    ensures Readable(input) && ReadHeader(input) == HeaderOf(h)
    ensures ReadHeader(input).fst.majorType == h.major
  {
    hide HeaderOf, ReadHeader, BigEndian, FromBigEndian;
    assert input[0..] == input;
    ParseHeadComplete(h, input);
    JumpHeaderParses(input, 0);
    ReadHeaderParses(input);
    HeaderOfFields(h);
  }

  /** Take `k` bytes from the remaining capacity, if there are that many. */
  method ChargeBytes(k: usize, out: array<usize>) returns (ok: bool)
    requires out.Length == 1
    modifies out
    ensures ok <==> k <= old(out[0])
    ensures out[0] == old(out[0]) - if ok then k else 0
  {
    var capacity := out[0];
    if capacity < k {
      ok := false;
    } else {
      var capacity': usize := capacity - k;
      out[0] := capacity';
      ok := true;
    }
  }

  /** Succeeds exactly when the head's bytes fit, and charges that many. */
  method SizeHeader(x: Header, out: array<usize>, ghost h: Head) returns (ok: bool)
    requires out.Length == 1
    requires HeadOk(h) && x == HeaderOf(h)
    modifies out
    ensures ok <==> |HeadBytes(h)| <= old(out[0])
    ensures ok ==> out[0] == old(out[0]) - |HeadBytes(h)|
  {
    HeaderOfFields(h);
    var xh1 := x.fst;
    ok := ChargeBytes(1, out);
    if ok {
      if xh1.additionalInfo == LONG_8_BITS {
        ok := ChargeBytes(1, out);
      } else if xh1.additionalInfo == LONG_16_BITS {
        ok := ChargeBytes(2, out);
      } else if xh1.additionalInfo == LONG_32_BITS {
        ok := ChargeBytes(4, out);
      } else if xh1.additionalInfo == LONG_64_BITS {
        ok := ChargeBytes(8, out);
      } else {
        ok := true;
      }
    }
  }

  /** The buffer `s` with the bytes at `at` replaced by `b`. */
  ghost function Overwrite(s: seq<byte>, at: nat, b: seq<byte>): (r: seq<byte>)
    requires at + |b| <= |s|
    ensures |r| == |s|
  {
    s[..at] + b + s[at + |b|..]
  }

  lemma OverwriteNothing(s: seq<byte>, at: nat)
    requires at <= |s|
    ensures Overwrite(s, at, []) == s
  {
  }

  /** Two adjacent overwrites are one. */
  lemma OverwriteAppend(s: seq<byte>, at: nat, a: seq<byte>, b: seq<byte>)
    requires at + |a| + |b| <= |s|
    ensures Overwrite(Overwrite(s, at, a), at + |a|, b) == Overwrite(s, at, a + b)
  {
  }

  lemma BigEndianTwo(v: nat, w: nat)
    ensures BigEndian(v, w + 1) == BigEndian(v / 256, w) + [v % 256]
    ensures BigEndian(v, w + 2) == BigEndian(v / 256 / 256, w) + [v / 256 % 256, v % 256]
  {
    assert BigEndian(v, w + 2) == BigEndian(v / 256, w + 1) + [v % 256];
    assert BigEndian(v / 256, w + 1) == BigEndian(v / 256 / 256, w) + [v / 256 % 256];
  }

  /** The `k` bytes of `v` from the position before `pos` downwards, low-order
      byte last. */
  method WriteU16(v: nat, out: array<byte>, pos: usize)
    requires 2 <= pos <= out.Length
    modifies out
    ensures out[..] == Overwrite(old(out[..]), pos - 2, BigEndian(v, 2))
  {
    BigEndianTwo(v, 0);
    var lo := v % 256;
    var hi := v / 256;
    var pos1: usize := pos - 1;
    out[pos1 - 1] := hi % 256;
    out[pos1] := lo;
  }

  method WriteU32(v: nat, out: array<byte>, pos: usize)
    requires 4 <= pos <= out.Length
    modifies out
    ensures out[..] == Overwrite(old(out[..]), pos - 4, BigEndian(v, 4))
  {
    BigEndianTwo(v, 2);
    var lo := v % 256;
    var hi := v / 256;
    var pos1: usize := pos - 1;
    var lo1 := hi % 256;
    var hi1 := hi / 256;
    var pos2: usize := pos1 - 1;
    WriteU16(hi1, out, pos2);
    out[pos2] := lo1;
    out[pos1] := lo;
  }

  method WriteU64(v: nat, out: array<byte>, pos: usize)
    requires 8 <= pos <= out.Length
    modifies out
    ensures out[..] == Overwrite(old(out[..]), pos - 8, BigEndian(v, 8))
  {
    hide BigEndian;
    BigEndianTwo(v, 6);
    var lo := v % 256;
    var hi := v / 256;
    var pos1: usize := pos - 1;
    var lo1 := hi % 256;
    var hi1 := hi / 256;
    var pos2: usize := pos1 - 1;
    BigEndianTwo(hi1, 4);
    var lo2 := hi1 % 256;
    var hi2 := hi1 / 256;
    var pos3: usize := pos2 - 1;
    var lo3 := hi2 % 256;
    var hi3 := hi2 / 256;
    var pos4: usize := pos3 - 1;
    WriteU32(hi3, out, pos4);
    ghost var front := BigEndian(hi3, 4);
    ghost var middle := out[..];
    out[pos4] := lo3;
    out[pos3] := lo2;
    out[pos2] := lo1;
    out[pos1] := lo;
    assert out[..] == Overwrite(middle, pos4, [lo3, lo2, lo1, lo]);
    assert BigEndian(v, 8) == front + [lo3, lo2, lo1, lo];
    OverwriteAppend(old(out[..]), pos - 8, front, [lo3, lo2, lo1, lo]);
  }

  /** The long argument of a header spells out its value. */
  lemma LongArgumentOf(h: Head)
    requires HeadOk(h)
    ensures h.arg.size == 0 ==> HeaderOf(h).snd == LongArgumentOther
    ensures h.arg.size == 1 && h.major == MAJOR_SIMPLE_VALUE ==>
              HeaderOf(h).snd == LongArgumentSimpleValue(h.arg.value)
    ensures h.arg.size == 1 && h.major != MAJOR_SIMPLE_VALUE ==> HeaderOf(h).snd == LongArgumentU8(h.arg.value)
    ensures h.arg.size == 2 ==> HeaderOf(h).snd == LongArgumentU16(h.arg.value)
    ensures h.arg.size == 3 ==> HeaderOf(h).snd == LongArgumentU32(h.arg.value)
    ensures h.arg.size == 4 ==> HeaderOf(h).snd == LongArgumentU64(h.arg.value)
    ensures HeaderOf(h).fst == InitialByte(h.major, Info(h.arg))
  {
  }

  method WriteByte(v: byte, out: array<byte>, pos: usize)
    requires 1 <= pos <= out.Length
    modifies out
    ensures out[..] == Overwrite(old(out[..]), pos - 1, [v])
  {
    out[pos - 1] := v;
  }

  /** Writes the head's bytes at `offset`, returns the position after them and
      changes nothing else. */
  method WriteHeader(x: Header, out: array<byte>, offset: usize, ghost h: Head) returns (pos: usize)
    requires HeadOk(h) && x == HeaderOf(h)
    requires offset + |HeadBytes(h)| <= out.Length <= USIZE_MAX
    modifies out
    ensures pos == offset + |HeadBytes(h)|
    ensures out[..] == Overwrite(old(out[..]), offset, HeadBytes(h))
  {
    HeaderOfFields(h);
    var xh1 := x.fst;
    var res1: usize := offset + 1;
    var initial: byte := InitialByteValue(xh1);
    WriteByte(initial, out, res1);
    pos := WriteArgument(xh1, x.snd, out, res1, h);
    assert HeadBytes(h) == [initial] + BigEndian(h.arg.value, Width(h.arg.size));
    OverwriteAppend(old(out[..]), offset, [initial], BigEndian(h.arg.value, Width(h.arg.size)));
  }

  lemma OneByte(v: byte)
    ensures BigEndian(v, 1) == [v]
  {
    BigEndianTwo(v, 0);
  }

  method WriteArgument(xh1: InitialByte, x2: LongArgument, out: array<byte>, res1: usize, ghost h: Head)
    returns (pos: usize)
    requires HeadOk(h) && Header(xh1, x2) == HeaderOf(h)
    requires res1 + Width(h.arg.size) <= out.Length <= USIZE_MAX
    modifies out
    ensures pos == res1 + Width(h.arg.size)
    ensures out[..] == Overwrite(old(out[..]), res1, BigEndian(h.arg.value, Width(h.arg.size)))
  {
    LongArgumentOf(h);
    hide BigEndian, HeaderOf, HeadOk, Overwrite;
    OverwriteNothing(out[..], res1);
    if xh1.additionalInfo == LONG_8_BITS {
      OneByte(h.arg.value);
      pos := res1 + 1;
      if xh1.majorType == MAJOR_SIMPLE_VALUE {
        WriteByte(x2.v, out, pos);
      } else {
        WriteByte(x2.v8, out, pos);
      }
    } else if xh1.additionalInfo == LONG_16_BITS {
      pos := res1 + 2;
      WriteU16(x2.v16, out, pos);
    } else if xh1.additionalInfo == LONG_32_BITS {
      pos := res1 + 4;
      WriteU32(x2.v32, out, pos);
    } else if xh1.additionalInfo == LONG_64_BITS {
      pos := res1 + 8;
      WriteU64(x2.v64, out, pos);
    } else {
      pos := res1;
    }
  }
}
