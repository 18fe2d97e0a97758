/** UTF-8 as in section 4 of RFC 3629, and the one-pass checker for it. */
module Utf8 {
  import opened Machine

  /** A Unicode scalar value: a code point that is not a surrogate. */
  predicate Scalar(c: nat) {
    c <= 0x10FFFF && !(0xD800 <= c <= 0xDFFF)
  }

  /** The encoding of one scalar value. */
  function Encode(c: nat): (s: seq<byte>)
    requires Scalar(c)
  {
    if c <= 0x7F then [c]
    else if c <= 0x7FF then [0xC0 + c / 64, 0x80 + c % 64]
    else if c <= 0xFFFF then [0xE0 + c / 4096, 0x80 + c / 64 % 64, 0x80 + c % 64]
    else [0xF0 + c / 262144, 0x80 + c / 4096 % 64, 0x80 + c / 64 % 64, 0x80 + c % 64]
  }

  ghost predicate Scalars(cs: seq<nat>) {
    forall i | 0 <= i < |cs| :: Scalar(cs[i])
  }

  ghost function EncodeAll(cs: seq<nat>): seq<byte>
    requires Scalars(cs)
  {
    if cs == [] then [] else Encode(cs[0]) + EncodeAll(cs[1..])
  }

  /** Is `s` a concatenation of encodings of scalar values? */
  ghost predicate Correct(s: seq<byte>) {
    exists cs :: Scalars(cs) && EncodeAll(cs) == s
  }

  predicate Continuation(b: byte) {
    0x80 <= b <= 0xBF
  }

  /** The number with the given 6-bit digits below a leading part. */
  function Bits2(hi: int, a: int): int { hi * 64 + (a - 0x80) }
  function Bits3(hi: int, a: int, b: int): int { Bits2(Bits2(hi, a), b) }
  function Bits4(hi: int, a: int, b: int, c: int): int { Bits2(Bits3(hi, a, b), c) }

  /** The scalar value at the front of `s`, recomputed from the payload bits. */
  ghost function Decode(s: seq<byte>): Option<nat> {
    if |s| >= 1 && s[0] <= 0x7F then Some(s[0])
    else if |s| >= 2 && 0xC2 <= s[0] <= 0xDF && Continuation(s[1]) then
      Some(Bits2(s[0] - 0xC0, s[1]))
    else if |s| >= 3 && 0xE0 <= s[0] <= 0xEF && Continuation(s[1]) && Continuation(s[2]) then
      var c := Bits3(s[0] - 0xE0, s[1], s[2]);
      if 0x800 <= c && Scalar(c) then Some(c) else None
    else if |s| >= 4 && 0xF0 <= s[0] <= 0xF4 && Continuation(s[1]) && Continuation(s[2]) && Continuation(s[3]) then
      var c := Bits4(s[0] - 0xF0, s[1], s[2], s[3]);
      if 0x10000 <= c && Scalar(c) then Some(c) else None
    else None
  }

  lemma DecodeSound(s: seq<byte>)
    requires Decode(s).Some?
    ensures Scalar(Decode(s).value) && Encode(Decode(s).value) <= s
  {
    if s[0] >= 0xF0 {
      EncodeFour(s[0] - 0xF0, s[1], s[2], s[3]);
    } else if s[0] >= 0xE0 {
      EncodeThree(s[0] - 0xE0, s[1], s[2]);
    }
  }

  lemma EncodeThree(hi: nat, a: byte, b: byte)
    requires hi <= 15 && Continuation(a) && Continuation(b)
    ensures var c := Bits3(hi, a, b);
            0x800 <= c && Scalar(c) ==> c <= 0xFFFF && Encode(c) == [0xE0 + hi, a, b]
  {
    var c, q := Bits3(hi, a, b), Bits2(hi, a);
    assert c / 64 == q && c / 4096 == q / 64 == hi;
  }

  lemma EncodeFour(hi: nat, a: byte, b: byte, d: byte)
    requires hi <= 4 && Continuation(a) && Continuation(b) && Continuation(d)
    ensures var c := Bits4(hi, a, b, d);
            0x10000 <= c && Scalar(c) ==> Encode(c) == [0xF0 + hi, a, b, d]
  {
    var c, q, r := Bits4(hi, a, b, d), Bits3(hi, a, b), Bits2(hi, a);
    assert c / 64 == q && c / 4096 == q / 64 == r && c / 262144 == r / 64 == hi;
  }

  lemma DecodeComplete(c: nat, s: seq<byte>)
    requires Scalar(c) && Encode(c) <= s
    ensures Decode(s) == Some(c)
  {
    var e := Encode(c);
    assert s[0] == e[0];
    if 0x7F < c {
      assert s[1] == e[1];
      if 0x7FF < c {
        assert s[2] == e[2];
        if c <= 0xFFFF {
          DecodeThree(c);
        } else {
          assert s[3] == e[3];
          DecodeFour(c);
        }
      }
    }
  }

  lemma DecodeThree(c: nat)
    requires 0x7FF < c <= 0xFFFF
    ensures Bits3(c / 4096, 0x80 + c / 64 % 64, 0x80 + c % 64) == c
    ensures c / 4096 <= 15
  {
    var q := c / 64;
    assert c / 4096 == q / 64;
  }

  lemma DecodeFour(c: nat)
    requires 0xFFFF < c <= 0x10FFFF
    ensures Bits4(c / 262144, 0x80 + c / 4096 % 64, 0x80 + c / 64 % 64, 0x80 + c % 64) == c
    ensures c / 262144 <= 4
  {
    var q := c / 64;
    var r := q / 64;
    assert c / 4096 == r && c / 262144 == r / 64;
  }

  /** Encoded text splits into scalar values in one way only. */
  lemma {:induction false} DecompositionUnique(cs: seq<nat>, ds: seq<nat>)
    requires Scalars(cs) && Scalars(ds) && EncodeAll(cs) == EncodeAll(ds)
    ensures cs == ds
  {
    if cs != [] && ds != [] {
      DecodeComplete(cs[0], EncodeAll(cs));
      DecodeComplete(ds[0], EncodeAll(ds));
      var k := |Encode(cs[0])|;
      assert EncodeAll(cs)[k..] == EncodeAll(cs[1..]) && EncodeAll(ds)[k..] == EncodeAll(ds[1..]);
      DecompositionUnique(cs[1..], ds[1..]);
      assert cs == [cs[0]] + cs[1..] && ds == [ds[0]] + ds[1..];
    }
  }

  /** Consuming one scalar value does not change correctness. */
  lemma CorrectStep(s: seq<byte>)
    requires s != []
    ensures Correct(s) <==>
            Decode(s).Some? && Scalar(Decode(s).value) && Encode(Decode(s).value) <= s
            && Correct(s[|Encode(Decode(s).value)|..])
  {
    if Decode(s).Some? {
      DecodeSound(s);
      var c := Decode(s).value;
      var rest := s[|Encode(c)|..];
      if cs :| Scalars(cs) && EncodeAll(cs) == rest {
        assert ([c] + cs)[1..] == cs;
        assert EncodeAll([c] + cs) == Encode(c) + rest == s;
      }
    }
    if cs :| Scalars(cs) && EncodeAll(cs) == s {
      DecodeComplete(cs[0], s);
      assert s[|Encode(cs[0])|..] == EncodeAll(cs[1..]);
    }
  }

  /** The bytes of `s` at `i` that the table of section 4 of RFC 3629 accepts as
      one character; 0 when there is none. */
  ghost function StepLength(s: seq<byte>, i: nat): (k: nat)
    requires i < |s|
    ensures k <= |s| - i
  {
    if s[i] <= 0x7F then 1
    else if i + 2 <= |s| && 0xC2 <= s[i] <= 0xDF && Continuation(s[i + 1]) then 2
    else if i + 3 <= |s| && Continuation(s[i + 2]) &&
            ((s[i] == 0xE0 && 0xA0 <= s[i + 1] <= 0xBF) || (s[i] == 0xED && 0x80 <= s[i + 1] <= 0x9F)
             || (0xE1 <= s[i] <= 0xEF && s[i] != 0xED && Continuation(s[i + 1]))) then 3
    else if i + 4 <= |s| && Continuation(s[i + 2]) && Continuation(s[i + 3]) &&
            ((s[i] == 0xF0 && 0x90 <= s[i + 1] <= 0xBF) || (0xF1 <= s[i] <= 0xF3 && Continuation(s[i + 1]))
             || (s[i] == 0xF4 && 0x80 <= s[i + 1] <= 0x8F)) then 4
    else 0
  }

  /** The table agrees with decoding. */
  lemma StepLengthIsDecode(s: seq<byte>, i: nat)
    requires i < |s|
    ensures var d := Decode(s[i..]);
            (d.Some? <==> StepLength(s, i) > 0) &&
            (d.Some? ==> Scalar(d.value) && |Encode(d.value)| == StepLength(s, i))
  {
    if Decode(s[i..]).Some? {
      DecodeSound(s[i..]);
    }
  }

  lemma CorrectAdvance(s: seq<byte>, i: nat)
    requires i < |s|
    ensures Correct(s[i..]) <==> StepLength(s, i) > 0 && Correct(s[i + StepLength(s, i)..])
  {
    StepLengthIsDecode(s, i);
    CorrectStep(s[i..]);
    if Decode(s[i..]).Some? {
      DecodeSound(s[i..]);
      assert s[i..][StepLength(s, i)..] == s[i + StepLength(s, i)..];
    }
  }

  method ImplCorrect(s: seq<byte>) returns (res: bool)
    requires |s| <= USIZE_MAX
    ensures res <==> Correct(s)
  {
    res := true;
    var i: usize := 0;
    var len: usize := |s|;
    assert s[0..] == s;
    while res && i < len
      invariant i <= len
      invariant Correct(s) <==> res && Correct(s[i..])
      decreases res, len - i
    {
      CorrectAdvance(s, i);
      var byte1 := s[i];
      var i1: usize := i + 1;
      if byte1 <= 0x7F {
        i := i1;
      } else if i1 == len {
        res := false;
      } else {
        var byte2 := s[i1];
        var i2: usize := i1 + 1;
        if 0xC2 <= byte1 <= 0xDF && 0x80 <= byte2 <= 0xBF {
          i := i2;
        } else if i2 == len {
          res := false;
        } else {
          var byte3 := s[i2];
          var i3: usize := i2 + 1;
          if !(0x80 <= byte3 <= 0xBF) {
            res := false;
          } else if byte1 == 0xE0 {
            if 0xA0 <= byte2 <= 0xBF { i := i3; } else { res := false; }
          } else if byte1 == 0xED {
            if 0x80 <= byte2 <= 0x9F { i := i3; } else { res := false; }
          } else if 0xE1 <= byte1 <= 0xEF && 0x80 <= byte2 <= 0xBF {
            i := i3;
          } else if i3 == len {
            res := false;
          } else {
            var byte4 := s[i3];
            var i4: usize := i3 + 1;
            if !(0x80 <= byte4 <= 0xBF) {
              res := false;
            } else if byte1 == 0xF0 && 0x90 <= byte2 <= 0xBF {
              i := i4;
            } else if 0xF1 <= byte1 <= 0xF3 && 0x80 <= byte2 <= 0xBF {
              i := i4;
            } else if byte1 == 0xF4 && 0x80 <= byte2 <= 0x8F {
              i := i4;
            } else {
              res := false;
            }
          }
        }
      }
    }
    if res {
      assert s[i..] == [] == EncodeAll([]);
    }
  }

  // ------------------------------------------------------------------
  // Correct text in plain bytes
  // ------------------------------------------------------------------

  /** No text continues a bare prefix of a character, a surrogate, an overlong form or
      a value that is too large: what can follow each byte of correct text. */
  lemma {:induction false} CorrectBytes(s: seq<byte>, i: nat)
    requires Correct(s) && i < |s|
    ensures s[i] <= 0xF4 && s[i] != 0xC0 && s[i] != 0xC1
    ensures s[0] <= 0x7F || 0xC2 <= s[0]
    ensures 0xC2 <= s[i] ==> i + 1 < |s| && 0x80 <= s[i + 1] <= 0xBF
    ensures 0xE0 <= s[i] ==> i + 2 < |s| && 0x80 <= s[i + 2] <= 0xBF
    ensures 0xF0 <= s[i] ==> i + 3 < |s| && 0x80 <= s[i + 3] <= 0xBF
    ensures s[i] == 0xE0 ==> 0xA0 <= s[i + 1]
    ensures s[i] == 0xED ==> s[i + 1] <= 0x9F
    ensures s[i] == 0xF0 ==> 0x90 <= s[i + 1]
    ensures s[i] == 0xF4 ==> s[i + 1] <= 0x8F
    decreases |s|
  {
    hide Correct, Decode, Encode;
    var k := FirstCharacter(s);
    if i >= k {
      CorrectBytes(s[k..], i - k);
    }
  }

  /** The first character of correct text, and that the rest is correct. */
  lemma FirstCharacter(s: seq<byte>) returns (k: nat)
    requires Correct(s) && s != []
    ensures 1 <= k <= |s| && k <= 4 && Correct(s[k..])
    ensures s[0] <= 0x7F ==> k == 1
    ensures k == 1 ==> s[0] <= 0x7F
    ensures k == 2 ==> 0xC2 <= s[0] <= 0xDF
    ensures k == 3 ==> 0xE0 <= s[0] <= 0xEF
    ensures k == 4 ==> 0xF0 <= s[0] <= 0xF4
    ensures forall j | 1 <= j < k :: 0x80 <= s[j] <= 0xBF
    ensures s[0] == 0xE0 ==> 0xA0 <= s[1]
    ensures s[0] == 0xED ==> s[1] <= 0x9F
    ensures s[0] == 0xF0 ==> 0x90 <= s[1]
    ensures s[0] == 0xF4 ==> s[1] <= 0x8F
  {
    assert s[0..] == s;
    StepLengthIsDecode(s, 0);
    CorrectAdvance(s, 0);
    k := StepLength(s, 0);
  }

  /** The empty text is correct, and so are correct texts one after the other. */
  lemma CorrectConcat(s: seq<byte>, t: seq<byte>)
    requires Correct(s) && Correct(t)
    ensures Correct([]) && Correct(s + t)
  {
    assert EncodeAll([]) == [];
    var cs :| Scalars(cs) && EncodeAll(cs) == s;
    var ds :| Scalars(ds) && EncodeAll(ds) == t;
    EncodeAllAppend(cs, ds);
  }

  lemma {:induction false} EncodeAllAppend(cs: seq<nat>, ds: seq<nat>)
    requires Scalars(cs) && Scalars(ds)
    ensures Scalars(cs + ds) && EncodeAll(cs + ds) == EncodeAll(cs) + EncodeAll(ds)
  {
    hide Encode, Scalar;
    if cs == [] {
      assert cs + ds == ds;
    } else {
      EncodeAllAppend(cs[1..], ds);
      assert (cs + ds)[1..] == cs[1..] + ds;
    }
  }

  /** Every code point outside of 0xD800 to 0xDFFF and up to 0x10FFFF is correct text in
      the layout of section 3 of RFC 3629, with as few bytes as hold its bits. */
  lemma CodePointCorrect(c: nat)
    requires c <= 0xD7FF || 0xE000 <= c <= 0x10FFFF
    ensures c <= 0x7F ==> Correct([c])
    ensures 0x80 <= c <= 0x7FF ==> Correct([0xC0 + c / 0x40, 0x80 + c % 0x40])
    ensures 0x800 <= c <= 0xFFFF ==>
              Correct([0xE0 + c / 0x1000, 0x80 + c / 0x40 % 0x40, 0x80 + c % 0x40])
    ensures 0x1_0000 <= c ==>
              Correct([0xF0 + c / 0x4_0000, 0x80 + c / 0x1000 % 0x40, 0x80 + c / 0x40 % 0x40, 0x80 + c % 0x40])
  {
    assert [c][1..] == [];
    assert EncodeAll([c]) == Encode(c) + EncodeAll([]) == Encode(c);
  }
}
