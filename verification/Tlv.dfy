/** Copying a tag-length-value record out of another memory, and validating the
    copy: a list of elements whose width the tag selects. */
module Tlv {
  import opened Machine

  const TWO_TO_THE_32: int := 0x1_0000_0000
  const MAX_POSITION: int := 0x0FFF_FFFF_FFFF_FFFF

  type u16 = x: int | 0 <= x < 0x1_0000
  type u32 = x: int | 0 <= x < TWO_TO_THE_32

  /** The element width that a tag selects. */
  function ElementWidth(tag: byte): nat {
    if tag == 0 then 1 else if tag == 1 then 2 else 4
  }

  function LittleEndian32(s: seq<byte>): u32
    requires |s| == 4
  {
    s[0] as int + 0x100 * s[1] as int + 0x1_0000 * s[2] as int + 0x100_0000 * s[3] as int
  }

  /** A record at `pos`: a tag byte, four bytes of length equal to `len`, and `len`
      bytes that are whole elements. */
  predicate TlvAt(input: seq<byte>, pos: nat, len: nat) {
    pos + 5 + len <= |input| &&
    LittleEndian32(input[pos + 1..pos + 5]) == len &&
    len % ElementWidth(input[pos]) == 0
  }

  // ------------------------------------------------------------------
  // Reading at truncated positions
  // ------------------------------------------------------------------

  /** Positions have 64 bits, but the code reads its input at their low 32 bits. */
  function Low32(pos: nat): (r: u32)
    ensures r <= pos && (r == pos <==> pos < TWO_TO_THE_32)
  {
    pos % TWO_TO_THE_32
  }

  /** Positions with any of the four high bits set are error codes. */
  predicate IsError(pos: u64) {
    pos > MAX_POSITION
  }

  /** What the code takes for a record at `pos`. */
  predicate TlvRead(input: seq<byte>, pos: nat, len: nat) {
    pos + 5 + len <= |input| && pos + 5 + len <= MAX_POSITION &&
    LittleEndian32(input[Low32(pos + 1)..Low32(pos + 1) + 4]) == len &&
    len % ElementWidth(input[Low32(pos)]) == 0
  }

  /** A record in plain bytes: the length field is least significant byte first, and
      elements take one, two or four bytes. */
  lemma RecordLayout(input: seq<byte>, pos: nat, len: u16)
    ensures TlvAt(input, pos, len) <==>
            && pos + 5 + len <= |input|
            && input[pos + 1] == len % 0x100 && input[pos + 2] == len / 0x100
            && input[pos + 3] == 0 && input[pos + 4] == 0
            && (input[pos] == 1 ==> len % 2 == 0) && (2 <= input[pos] ==> len % 4 == 0)
  {
    if pos + 5 + len <= |input| {
      var f := input[pos + 1..pos + 5];
      assert f == [input[pos + 1], input[pos + 2], input[pos + 3], input[pos + 4]];
    }
  }

  /** Below 2^32 - 1 the code sees what is there. */
  lemma TlvReadLow(input: seq<byte>, pos: nat, len: u16)
    requires pos + 1 < TWO_TO_THE_32
    ensures TlvRead(input, pos, len) <==> TlvAt(input, pos, len)
  {
    assert Low32(pos) == pos && Low32(pos + 1) == pos + 1;
  }

  /** From there on it can miss a record: here all bytes are zero, so that an empty
      record is at `pos`, except the first of those read as its length. */
  lemma TlvReadHigh(pos: nat) returns (input: seq<byte>)
    requires TWO_TO_THE_32 <= pos + 1
    ensures |input| == pos + 5 && TlvAt(input, pos, 0) && !TlvRead(input, pos, 0)
  {
    var k := Low32(pos + 1);
    assert k < pos by {
      HighPosition(pos + 1);
    }
    input := seq(pos + 5, i => if i == k then 1 else 0);
    assert input[k..k + 4][0] == 1;
    assert input[pos + 1..pos + 5] == [0, 0, 0, 0];
  }

  lemma HighPosition(pos: nat)
    requires TWO_TO_THE_32 <= pos
    ensures Low32(pos) + TWO_TO_THE_32 <= pos
  {
  }

  /** The code recognises exactly the records at a position, whatever the input,
      exactly when the position and the next have 32 bits. */
  lemma TlvReadExact(pos: nat)
    requires pos + 5 < TWO_TO_THE_64
    ensures (forall input: seq<byte>, len: u16 ::
               |input| < TWO_TO_THE_64 ==> (TlvRead(input, pos, len) <==> TlvAt(input, pos, len)))
            <==> pos + 1 < TWO_TO_THE_32
  {
    if pos + 1 < TWO_TO_THE_32 {
      forall input: seq<byte>, len: u16 | |input| < TWO_TO_THE_64
        ensures TlvRead(input, pos, len) <==> TlvAt(input, pos, len)
      {
        TlvReadLow(input, pos, len);
      }
    } else {
      var input := TlvReadHigh(pos);
    }
  }

  // ------------------------------------------------------------------
  // Validation
  // ------------------------------------------------------------------

  /** The position after `width` bytes, or None when there are not as many or the
      position would be an error code. */
  function Advance(width: nat, inputLength: u64, position: u64): (r: Option<u64>)
    requires position <= inputLength
    ensures r.Some? ==> r.value == position + width <= inputLength && !IsError(r.value)
  {
    if inputLength - position >= width && !IsError(position + width) then Some(position + width) else None
  }

  /** The position after one element. */
  function ValidateUnion(tag: byte, inputLength: u64, startPosition: u64): (r: Option<u64>)
    requires startPosition <= inputLength
    ensures var end := startPosition + ElementWidth(tag);
            r == if end <= inputLength && end <= MAX_POSITION then Some(end) else None
  {
    if tag == 0 then Advance(1, inputLength, startPosition)
    else if tag == 1 then Advance(2, inputLength, startPosition)
    else Advance(4, inputLength, startPosition)
  }

  lemma RemainderStep(a: nat, w: nat)
    requires w in {1, 2, 4}
    ensures (a + w) % w == a % w
    ensures 0 < a < w ==> a % w != 0
  {
  }

  /** Validates elements from a position up to the end of the payload: succeeds exactly
      when they fill it, and ends there. */
  method ValidatePayload(tag: byte, start: u64, end: u64) returns (r: Option<u64>)
    requires start <= end && !IsError(start)
    ensures r == if (end - start) % ElementWidth(tag) == 0 && !IsError(end) then Some(end) else None
  {
    var position := start;
    while true
      invariant start <= position <= end && !IsError(position)
      invariant (end - position) % ElementWidth(tag) == (end - start) % ElementWidth(tag)
      decreases end - position
    {
      if !(end - position >= 1) {
        return Some(position);
      }
      var result := ValidateUnion(tag, end, position);
      if result.None? {
        RemainderStep(end - position, ElementWidth(tag));
        return None;
      }
      RemainderStep(end - position - ElementWidth(tag), ElementWidth(tag));
      position := result.value;
    }
  }

  /** Succeeds exactly when the code reads a record with the given length, and then
      ends right after it. */
  method ValidateTlv(len: u16, input: seq<byte>, startPosition: u64) returns (r: Option<u64>)
    requires startPosition <= |input| < TWO_TO_THE_64
    ensures r == if TlvRead(input, startPosition, len) then Some(startPosition + 5 + len) else None
    ensures startPosition + 1 < TWO_TO_THE_32 ==> (r.Some? <==> TlvAt(input, startPosition, len))
    ensures startPosition + 1 < TWO_TO_THE_32 ==>
              (r.Some? <==>
               && startPosition + 5 + len <= |input|
               && input[startPosition + 1] == len % 0x100 && input[startPosition + 2] == len / 0x100
               && input[startPosition + 3] == 0 && input[startPosition + 4] == 0
               && (input[startPosition] == 1 ==> len % 2 == 0)
               && (2 <= input[startPosition] ==> len % 4 == 0))
  {
    hide TlvAt, Low32, LittleEndian32;
    RecordLayout(input, startPosition, len);
    if startPosition + 1 < TWO_TO_THE_32 {
      TlvReadLow(input, startPosition, len);
    }
    var inputLength: u64 := |input|;
    var afterTag := Advance(1, inputLength, startPosition);
    if afterTag.None? {
      return None;
    }
    var positionAfterTag := afterTag.value;
    var tag := input[Low32(startPosition)];
    var afterLength := Advance(4, inputLength, positionAfterTag);
    if afterLength.None? {
      return None;
    }
    var positionAfterLength := afterLength.value;
    var length := LittleEndian32(input[Low32(positionAfterTag)..Low32(positionAfterTag) + 4]);
    if length != len {
      return None;
    }
    if !(inputLength - positionAfterLength >= len) {
      return None;
    }
    var truncatedInputLength: u64 := positionAfterLength + len;
    r := ValidatePayload(tag, positionAfterLength, truncatedInputLength);
  }

  // ------------------------------------------------------------------
  // Copying
  // ------------------------------------------------------------------

  /** The buffer `d0` with the bytes of `src` from `rd` to `r` copied in at `wr`. */
  ghost function Copied(d0: seq<byte>, src: seq<byte>, rd: nat, r: nat, wr: nat): (d: seq<byte>)
    requires rd <= r <= |src| && wr + (r - rd) <= |d0|
    ensures |d| == |d0|
  {
    d0[..wr] + src[rd..r] + d0[wr + (r - rd)..]
  }

  /** Two adjacent copies are one. */
  lemma CopiedAppend(d0: seq<byte>, src: seq<byte>, rd: nat, r0: nat, r1: nat, wr: nat)
    requires rd <= r0 <= r1 <= |src| && wr + (r1 - rd) <= |d0|
    ensures Copied(Copied(d0, src, rd, r0, wr), src, r0, r1, wr + (r0 - rd)) == Copied(d0, src, rd, r1, wr)
  {
    assert src[rd..r1] == src[rd..r0] + src[r0..r1];
  }

  /** The state of a copy: what can be read, where it is written, both offsets and
      the failure flag. */
  class Probe {
    const src: seq<byte>
    const dest: array<byte>
    var readOffset: nat
    var writeOffset: nat
    var failed: bool

    constructor (src: seq<byte>, dest: array<byte>)
      ensures this.src == src && this.dest == dest
      ensures readOffset == 0 && writeOffset == 0 && !failed
    {
      this.src := src;
      this.dest := dest;
      readOffset := 0;
      writeOffset := 0;
      failed := false;
    }

    ghost predicate Valid()
      reads this
    {
      readOffset <= |src| < TWO_TO_THE_64 && writeOffset <= dest.Length < TWO_TO_THE_64
    }

    /** Are there `n` more bytes to read and room to write them? */
    ghost predicate Available(n: nat)
      reads this
    {
      readOffset + n <= |src| && writeOffset + n <= dest.Length
    }

    /** The environment's copy: succeeds exactly when both ranges are in bounds. */
    method ProbeAndCopy(n: nat, rd: nat, wr: nat) returns (ok: bool)
      requires rd <= |src| && wr <= dest.Length
      modifies dest
      ensures ok <==> rd + n <= |src| && wr + n <= dest.Length
      ensures ok ==> dest[..] == Copied(old(dest[..]), src, rd, rd + n, wr)
      ensures !ok ==> dest[..] == old(dest[..])
    {
      ok := rd + n <= |src| && wr + n <= dest.Length;
      if ok {
        forall k | 0 <= k < n {
          dest[wr + k] := src[rd + k];
        }
      }
    }

    /** Copies `n` bytes and moves both offsets, or sets the failure flag. */
    method CopyBytes(n: nat)
      requires Valid()
      modifies this`readOffset, this`writeOffset, this`failed, dest
      ensures Valid()
      ensures old(Available(n)) ==>
                failed == old(failed) && readOffset == old(readOffset) + n && writeOffset == old(writeOffset) + n &&
                dest[..] == Copied(old(dest[..]), src, old(readOffset), readOffset, old(writeOffset))
      ensures !old(Available(n)) ==>
                failed && readOffset == old(readOffset) && writeOffset == old(writeOffset) && dest[..] == old(dest[..])
    {
      var rd := readOffset;
      var wr := writeOffset;
      var ok := ProbeAndCopy(n, rd, wr);
      if ok {
        readOffset := rd + n;
        writeOffset := wr + n;
      } else {
        failed := true;
      }
    }

    /** Copies `sz` bytes at once, unless something has failed before. */
    method ProbeWhole(sz: u64)
      requires Valid()
      modifies this`readOffset, this`writeOffset, this`failed, dest
      ensures Valid()
      ensures !failed <==> old(!failed && Available(sz))
      ensures !failed ==> readOffset == old(readOffset) + sz && writeOffset == old(writeOffset) + sz
      ensures !failed ==> dest[..] == Copied(old(dest[..]), src, old(readOffset), readOffset, old(writeOffset))
      ensures failed ==>
                readOffset == old(readOffset) && writeOffset == old(writeOffset) && dest[..] == old(dest[..])
    {
      if failed {
        return;
      }
      CopyBytes(sz);
    }

    /** Copies one element. */
    method ProbeUnion(tag: byte)
      requires Valid()
      modifies this`readOffset, this`writeOffset, this`failed, dest
      ensures Valid()
      ensures var n := ElementWidth(tag);
              if old(Available(n)) then
                failed == old(failed) && readOffset == old(readOffset) + n && writeOffset == old(writeOffset) + n &&
                dest[..] == Copied(old(dest[..]), src, old(readOffset), readOffset, old(writeOffset))
              else
                failed && readOffset == old(readOffset) && writeOffset == old(writeOffset) && dest[..] == old(dest[..])
    {
      if tag == 0 {
        CopyBytes(1);
      } else if tag == 1 {
        CopyBytes(2);
      } else {
        CopyBytes(4);
      }
    }

    /** Copies a record whose payload takes `len` bytes.  Succeeds exactly when nothing
        has failed before, all of it can be copied and `len` is a whole number of
        elements; then exactly `5 + len` bytes are copied and the rest of the
        destination is unchanged.  A failure from before stays and stops the copy. */
    method ProbeTlv(len: u16)
      requires Valid()
      modifies this`readOffset, this`writeOffset, this`failed, dest
      ensures Valid()
      ensures !failed <==> old(!failed && Available(5 + len)) && len % ElementWidth(src[old(readOffset)]) == 0
      ensures old(failed) ==>
                readOffset == old(readOffset) && writeOffset == old(writeOffset) && dest[..] == old(dest[..])
      ensures !failed ==> readOffset == old(readOffset) + 5 + len && writeOffset == old(writeOffset) + 5 + len
      ensures !failed ==>
                dest[..] == Copied(old(dest[..]), src, old(readOffset), readOffset, old(writeOffset))
    {
      hide Copied;
      ghost var d0, rd0, wr0 := dest[..], readOffset, writeOffset;
      var rd := readOffset;
      if !(rd + 1 <= |src|) {
        failed := true;
      }
      if failed {
        return;
      }
      var tag := src[rd];
      readOffset := rd + 1;
      var wr := writeOffset;
      if wr + 1 <= dest.Length {
        dest[wr] := tag;
        writeOffset := wr + 1;
        CopiedOne(d0, dest[..], src, rd, wr);
      } else {
        failed := true;
        return;
      }
      CopyBytes(4);
      if failed {
        return;
      }
      CopiedAppend(d0, src, rd0, rd0 + 1, rd0 + 5, wr0);
      ProbePayload(tag, len);
      if !failed {
        CopiedAppend(d0, src, rd0, rd0 + 5, rd0 + 5 + len, wr0);
      }
    }

    /** Copies elements until the byte budget is spent; an element that overruns the
        budget is a failure. */
    method ProbePayload(tag: byte, len: u16)
      requires Valid() && !failed
      modifies this`readOffset, this`writeOffset, this`failed, dest
      ensures Valid()
      ensures !failed <==> old(Available(len)) && len % ElementWidth(tag) == 0
      ensures !failed ==> readOffset == old(readOffset) + len && writeOffset == old(writeOffset) + len
      ensures !failed ==> dest[..] == Copied(old(dest[..]), src, old(readOffset), readOffset, old(writeOffset))
    {
      hide Copied;
      ghost var d0, rd0, wr0 := dest[..], readOffset, writeOffset;
      ghost var w := ElementWidth(tag);
      CopiedNothing(d0, src, rd0, wr0);
      var ctr: u64 := len;
      while ctr != 0 && !failed
        invariant Valid() && ctr <= len
        invariant !failed ==> readOffset == rd0 + (len - ctr) && writeOffset == wr0 + (len - ctr)
        invariant !failed ==> dest[..] == Copied(d0, src, rd0, readOffset, wr0)
        invariant ctr % w == len % w
        invariant failed ==> len % w != 0 || rd0 + len > |src| || wr0 + len > dest.Length
        decreases !failed, ctr
      {
        var r0 := readOffset;
        ProbeUnion(tag);
        var hasFailed := failed;
        var r1 := readOffset;
        var bytesRead := r1 - r0;
        if hasFailed || bytesRead == 0 || ctr < bytesRead {
          RemainderStep(ctr, w);
          failed := true;
        } else {
          RemainderStep(ctr - bytesRead, w);
          CopiedAppend(d0, src, rd0, r0, r1, wr0);
          ctr := ctr - bytesRead;
        }
      }
    }
  }

  lemma CopiedNothing(d0: seq<byte>, src: seq<byte>, rd: nat, wr: nat)
    requires rd <= |src| && wr <= |d0|
    ensures Copied(d0, src, rd, rd, wr) == d0
  {
  }

  lemma CopiedOne(d0: seq<byte>, d: seq<byte>, src: seq<byte>, rd: nat, wr: nat)
    requires rd < |src| && wr < |d0| && d == d0[wr := src[rd]]
    ensures d == Copied(d0, src, rd, rd + 1, wr)
  {
  }

  /** A copy that starts at the beginning of the source and fills the destination is
      the front of the source. */
  lemma CopiedFront(d0: seq<byte>, src: seq<byte>, n: nat)
    requires n <= |src| && |d0| == n
    ensures Copied(d0, src, 0, n, 0) == src[..n]
  {
  }

  // ------------------------------------------------------------------
  // The wrappers: a pointer into another memory, copied from and validated
  // ------------------------------------------------------------------

  function LittleEndian64(s: seq<byte>): nat
    requires |s| == 8
  {
    LittleEndian32(s[..4]) + 0x1_0000_0000 * LittleEndian32(s[4..])
  }

  /** The address in a pointer field of four or eight bytes; the environment converts
      32-bit pointers. */
  function Pointer(field: seq<byte>, ulongToPtr: u32 -> u64): (p: u64)
    requires |field| == 4 || |field| == 8
  {
    if |field| == 4 then ulongToPtr(LittleEndian32(field)) else LittleEndian64(field)
  }

  /** A pointer in plain bytes, least significant first. */
  lemma PointerLayout(f: seq<byte>, ulongToPtr: u32 -> u64)
    ensures |f| == 4 ==>
              var p := f[0] as int + f[1] as int * 0x100 + f[2] as int * 0x1_0000 + f[3] as int * 0x100_0000;
              0 <= p < TWO_TO_THE_32 && Pointer(f, ulongToPtr) == ulongToPtr(p)
    ensures |f| == 8 ==>
              Pointer(f, ulongToPtr) ==
              f[0] as int + f[1] as int * 0x100 + f[2] as int * 0x1_0000 + f[3] as int * 0x100_0000 +
              f[4] as int * 0x1_0000_0000 + f[5] as int * 0x100_0000_0000 +
              f[6] as int * 0x1_0000_0000_0000 + f[7] as int * 0x100_0000_0000_0000
  {
  }

  /** What lies outside of the validator: the bytes readable from an address, the
      conversion of pointers, and whether the buffer could be initialised. */
  datatype Environment = Environment(memory: u64 -> seq<byte>, ulongToPtr: u32 -> u64, initOk: bool)

  ghost predicate EnvironmentOk(env: Environment) {
    forall p :: |env.memory(p)| < TWO_TO_THE_64
  }

  /** The bytes readable at the address that the pointer field at `pos` holds. */
  function Target(width: nat, input: seq<byte>, pos: nat, env: Environment): seq<byte>
    requires (width == 4 || width == 8) && pos + width <= |input|
  {
    env.memory(Pointer(input[pos..pos + width], env.ulongToPtr))
  }

  /** What a wrapper with a pointer field of `width` bytes means: there is room for a
      header, the field is in the input, the buffer was initialised, and a record of
      the announced length is readable at the address in the field. */
  predicate WrapperAt(width: nat, len: u16, input: seq<byte>, pos: nat, env: Environment)
    requires width == 4 || width == 8
  {
    len > 5 && pos + width <= |input| && env.initOk && TlvAt(Target(width, input, pos, env), 0, len - 5)
  }

  /** What the code takes for a wrapper: it loads the pointer at a truncated position. */
  predicate WrapperRead(width: nat, len: u16, input: seq<byte>, pos: nat, env: Environment)
    requires width == 4 || width == 8
  {
    len > 5 && pos + width <= |input| && pos + width <= MAX_POSITION && env.initOk &&
    TlvAt(Target(width, input, Low32(pos), env), 0, len - 5)
  }

  /** Below 2^32 the code sees what is there. */
  lemma WrapperReadLow(width: nat, len: u16, input: seq<byte>, pos: nat, env: Environment)
    requires (width == 4 || width == 8) && pos < TWO_TO_THE_32
    ensures WrapperRead(width, len, input, pos, env) <==> WrapperAt(width, len, input, pos, env)
  {
    assert Low32(pos) == pos;
  }

  /** From there on it can miss a record, and follow a pointer to another one: given
      two pointers to different addresses, put one at the position and the other where
      the code looks for it, and let a record be at one of the two addresses only. */
  lemma WrapperReadHigh(width: nat, pos: nat, f: seq<byte>, g: seq<byte>, ulongToPtr: u32 -> u64)
    returns (input: seq<byte>, missed: Environment, invented: Environment)
    requires width == 4 || width == 8
    requires TWO_TO_THE_32 <= pos && pos + width <= MAX_POSITION
    requires |f| == width && |g| == width && Pointer(f, ulongToPtr) != Pointer(g, ulongToPtr)
    ensures |input| == pos + width
    ensures WrapperAt(width, 6, input, pos, missed) && !WrapperRead(width, 6, input, pos, missed)
    ensures !WrapperAt(width, 6, input, pos, invented) && WrapperRead(width, 6, input, pos, invented)
    ensures EnvironmentOk(missed) && EnvironmentOk(invented)
    ensures missed.ulongToPtr == ulongToPtr && invented.ulongToPtr == ulongToPtr
  {
    var k := Low32(pos);
    HighPosition(pos);
    var zeros := seq(pos + width, i => 0);
    input := zeros[..k] + f + zeros[k + width..pos] + g;
    assert input[pos..pos + width] == g;
    assert input[k..k + width] == f;
    var tlv: seq<byte> := [0, 1, 0, 0, 0, 0];
    assert tlv[1..5] == [1, 0, 0, 0];
    var here, there := Pointer(g, ulongToPtr), Pointer(f, ulongToPtr);
    missed := Environment(p => if p == here then tlv else [], ulongToPtr, true);
    invented := Environment(p => if p == there then tlv else [], ulongToPtr, true);
  }

  /** The code recognises exactly the wrappers at a position, whatever the input and
      the memory, exactly when the position has 32 bits (or all 32-bit pointers
      convert to the same address). */
  lemma WrapperReadExact(width: nat, pos: nat, ulongToPtr: u32 -> u64)
    requires (width == 4 || width == 8) && pos + width <= MAX_POSITION
    ensures (forall input: seq<byte>, len: u16, env ::
               |input| < TWO_TO_THE_64 && EnvironmentOk(env) && env.ulongToPtr == ulongToPtr ==>
                 (WrapperRead(width, len, input, pos, env) <==> WrapperAt(width, len, input, pos, env)))
            <==> pos < TWO_TO_THE_32 || (width == 4 && forall a, b :: ulongToPtr(a) == ulongToPtr(b))
  {
    if pos < TWO_TO_THE_32 {
      forall input: seq<byte>, len: u16, env: Environment | |input| < TWO_TO_THE_64
        ensures WrapperRead(width, len, input, pos, env) <==> WrapperAt(width, len, input, pos, env)
      {
        WrapperReadLow(width, len, input, pos, env);
      }
    } else if width == 8 {
      var f, g := [0, 0, 0, 0, 0, 0, 0, 0], [1, 0, 0, 0, 0, 0, 0, 0];
      assert f[..4] == [0, 0, 0, 0] && g[..4] == [1, 0, 0, 0] && f[4..] == g[4..] == [0, 0, 0, 0];
      var input, missed, invented := WrapperReadHigh(width, pos, f, g, ulongToPtr);
    } else if a, b :| ulongToPtr(a) != ulongToPtr(b) {
      var input, missed, invented := WrapperReadHigh(width, pos, Bytes32(a), Bytes32(b), ulongToPtr);
    }
  }

  function Bytes32(v: u32): (s: seq<byte>)
    ensures |s| == 4 && LittleEndian32(s) == v
  {
    var v1 := v / 0x100;
    var v2 := v1 / 0x100;
    [v % 0x100, v1 % 0x100, v2 % 0x100, v2 / 0x100]
  }

  /** A record at the front is one whatever follows it. */
  lemma TlvFront(src: seq<byte>, len: nat)
    requires 5 + len <= |src|
    ensures TlvAt(src[..5 + len], 0, len) <==> TlvAt(src, 0, len)
  {
    assert src[..5 + len][1..5] == src[1..5];
  }

  /** Accepts what was copied when the copy did not fail and validates. */
  method AcceptCopy(probe: Probe, len: u16) returns (accepted: bool)
    requires probe.Valid() && probe.dest.Length == 5 + len
    requires !probe.failed ==> probe.writeOffset == 5 + len
    ensures accepted <==> !probe.failed && TlvAt(probe.dest[..], 0, len)
  {
    var b := if probe.failed then 0 else probe.writeOffset;
    if b != 0 {
      var result := ValidateTlv(len, probe.dest[..], 0);
      accepted := result.Some?;
    } else {
      accepted := false;
    }
  }

  /** The position after the pointer field, when there is room for a header and for
      the field. */
  function AfterPointer(width: nat, len: u16, inputLength: u64, startPosition: u64): Option<u64>
    requires startPosition <= inputLength
  {
    if IsError(startPosition) || !(len > 5) then None else Advance(width, inputLength, startPosition)
  }

  /** The wrapper of a 64-bit requestor: copies as many bytes as announced at once,
      then validates the copy. */
  method ValidateWrapper(len: u16, output: array<byte>, env: Environment, input: seq<byte>, startPosition: u64)
    returns (r: Option<u64>)
    requires startPosition <= |input| < TWO_TO_THE_64 && output.Length == len && EnvironmentOk(env)
    modifies output
    ensures r == if WrapperRead(8, len, input, startPosition, env) then Some(startPosition + 8) else None
    ensures r.Some? ==> output[..] == Target(8, input, Low32(startPosition), env)[..len]
    ensures startPosition < TWO_TO_THE_32 ==> (r.Some? <==> WrapperAt(8, len, input, startPosition, env))
  {
    if startPosition < TWO_TO_THE_32 {
      WrapperReadLow(8, len, input, startPosition, env);
    }
    r := AfterPointer(8, len, |input|, startPosition);
    if r.None? {
      return;
    }
    var src := Target(8, input, Low32(startPosition), env);
    var probe := new Probe(src, output);
    if env.initOk {
      probe.ProbeWhole(len);
    } else {
      probe.failed := true;
    }
    if !probe.failed {
      CopiedFront(old(output[..]), src, len);
      TlvFront(src, len - 5);
    }
    var accepted := AcceptCopy(probe, len - 5);
    if !accepted {
      r := None;
    }
  }

  /** The wrapper of a 32-bit requestor: copies the record part by part, then
      validates the copy.  Except for the width of the pointer it accepts exactly what
      the other wrapper accepts. */
  method ValidateSpecializedWrapper32(len: u16, output: array<byte>, env: Environment,
                                      input: seq<byte>, startPosition: u64)
    returns (r: Option<u64>)
    requires startPosition <= |input| < TWO_TO_THE_64 && output.Length == len && EnvironmentOk(env)
    modifies output
    ensures r == if WrapperRead(4, len, input, startPosition, env) then Some(startPosition + 4) else None
    ensures r.Some? ==> output[..] == Target(4, input, Low32(startPosition), env)[..len]
    ensures startPosition < TWO_TO_THE_32 ==> (r.Some? <==> WrapperAt(4, len, input, startPosition, env))
  {
    if startPosition < TWO_TO_THE_32 {
      WrapperReadLow(4, len, input, startPosition, env);
    }
    r := AfterPointer(4, len, |input|, startPosition);
    if r.None? {
      return;
    }
    var src := Target(4, input, Low32(startPosition), env);
    var probe := new Probe(src, output);
    if env.initOk {
      probe.ProbeTlv(len - 5);
    } else {
      probe.failed := true;
    }
    if !probe.failed {
      CopiedFront(old(output[..]), src, len);
      TlvFront(src, len - 5);
    }
    var accepted := AcceptCopy(probe, len - 5);
    if !accepted {
      r := None;
    }
  }

  /** The entry point: both kinds of requestor get the same answer about the memory
      that the pointer read names. */
  method ValidateEntry(requestor32: bool, len: u16, output: array<byte>, env: Environment,
                       input: seq<byte>, startPosition: u64)
    returns (r: Option<u64>)
    requires startPosition <= |input| < TWO_TO_THE_64 && output.Length == len && EnvironmentOk(env)
    modifies output
    ensures var width := if requestor32 then 4 else 8;
            r == if WrapperRead(width, len, input, startPosition, env) then Some(startPosition + width) else None
    ensures var width := if requestor32 then 4 else 8;
            r.Some? ==> output[..] == Target(width, input, Low32(startPosition), env)[..len]
    ensures var width := if requestor32 then 4 else 8;
            startPosition < TWO_TO_THE_32 ==> (r.Some? <==> WrapperAt(width, len, input, startPosition, env))
  {
    if requestor32 {
      r := ValidateSpecializedWrapper32(len, output, env, input, startPosition);
    } else {
      r := ValidateWrapper(len, output, env, input, startPosition);
    }
  }

  /** The check offered to callers starts at position 0 of an input of fewer than 2^32
      bytes, where the truncation is harmless: it accepts exactly the inputs that start
      with the pointer to a record, and then the buffer is that record. */
  method CheckEntry(requestor32: bool, len: u16, output: array<byte>, env: Environment, input: seq<byte>)
    returns (ok: bool)
    requires |input| < TWO_TO_THE_32 && output.Length == len && EnvironmentOk(env)
    modifies output
    ensures var width := if requestor32 then 4 else 8;
            ok <==> WrapperAt(width, len, input, 0, env)
    ensures var width := if requestor32 then 4 else 8;
            ok ==> output[..] == Target(width, input, 0, env)[..len]
    ensures ok && requestor32 ==>
              var p := input[0] as int + input[1] as int * 0x100 + input[2] as int * 0x1_0000 +
                       input[3] as int * 0x100_0000;
              0 <= p < TWO_TO_THE_32 && len <= |env.memory(env.ulongToPtr(p))| &&
              output[..] == env.memory(env.ulongToPtr(p))[..len]
    ensures ok && !requestor32 ==>
              var p := input[0] as int + input[1] as int * 0x100 + input[2] as int * 0x1_0000 +
                       input[3] as int * 0x100_0000 + input[4] as int * 0x1_0000_0000 +
                       input[5] as int * 0x100_0000_0000 + input[6] as int * 0x1_0000_0000_0000 +
                       input[7] as int * 0x100_0000_0000_0000;
              0 <= p < TWO_TO_THE_64 && len <= |env.memory(p)| && output[..] == env.memory(p)[..len]
  {
    hide Pointer, TlvRead;
    var status := ValidateEntry(requestor32, len, output, env, input, 0);
    ok := status.Some?;
    if ok {
      PointerLayout(input[..if requestor32 then 4 else 8], env.ulongToPtr);
      assert input[0..if requestor32 then 4 else 8] == input[..if requestor32 then 4 else 8];
    }
  }
}
