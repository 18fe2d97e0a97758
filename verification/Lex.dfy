/** The byte-wise lexicographic order on encodings. */
module Lex {
  import opened Machine

  /** Negative, zero or positive as `a` is below, equal to or above `b`; a proper
      prefix is below its extensions. */
  ghost function LexCompare(a: seq<byte>, b: seq<byte>): int {
    if a == [] then (if b == [] then 0 else -1)
    else if b == [] then 1
    else if a[0] != b[0] then CompareInt(a[0], b[0])
    else LexCompare(a[1..], b[1..])
  }

  /** Neither sequence is a proper prefix of the other. */
  ghost predicate PrefixFree(a: seq<byte>, b: seq<byte>) {
    (a <= b || b <= a) ==> a == b
  }

  lemma {:induction false} LexZero(a: seq<byte>, b: seq<byte>)
    ensures LexCompare(a, b) == 0 <==> a == b
  {
    if a != [] && b != [] && a[0] == b[0] {
      LexZero(a[1..], b[1..]);
      assert a == [a[0]] + a[1..] && b == [b[0]] + b[1..];
    }
  }

  lemma {:induction false} LexAntisymmetric(a: seq<byte>, b: seq<byte>)
    ensures LexCompare(a, b) == -LexCompare(b, a)
    ensures -1 <= LexCompare(a, b) <= 1
  {
    if a != [] && b != [] && a[0] == b[0] {
      LexAntisymmetric(a[1..], b[1..]);
    }
  }

  lemma {:induction false} LexTransitive(a: seq<byte>, b: seq<byte>, c: seq<byte>)
    requires LexCompare(a, b) < 0 && LexCompare(b, c) < 0
    ensures LexCompare(a, c) < 0
  {
    if a != [] && a[0] == b[0] && b[0] == c[0] {
      LexTransitive(a[1..], b[1..], c[1..]);
    }
  }

  lemma PrefixOfTail(a: seq<byte>, i: nat)
    requires i < |a|
    ensures a[..i + 1] == [a[0]] + a[1..][..i]
  {
  }

  /** The textbook reading of the order: `a` is below `b` exactly when it is a
      proper prefix of `b` or has the smaller byte at the first difference. */
  lemma {:induction false} LexFirstDifference(a: seq<byte>, b: seq<byte>)
    ensures LexCompare(a, b) < 0 <==>
            a < b || exists i :: 0 <= i < |a| && i < |b| && a[..i] == b[..i] && a[i] < b[i]
  {
    if a != [] && b != [] {
      if a[0] != b[0] {
        assert a[..0] == b[..0];
        forall i | 0 < i < |a| && i < |b|
          ensures a[..i] != b[..i]
        {
          assert a[..i][0] != b[..i][0];
        }
      } else {
        var a', b' := a[1..], b[1..];
        LexFirstDifference(a', b');
        if i :| 0 <= i < |a'| && i < |b'| && a'[..i] == b'[..i] && a'[i] < b'[i] {
          PrefixOfTail(a, i);
          PrefixOfTail(b, i);
          assert a[i + 1] < b[i + 1];
        }
        if i :| 0 <= i < |a| && i < |b| && a[..i] == b[..i] && a[i] < b[i] {
          assert a'[..i - 1] == a[..i][1..] && b'[..i - 1] == b[..i][1..];
          assert a'[i - 1] < b'[i - 1];
        }
        assert a < b <==> a' < b' by {
          assert a == [a[0]] + a' && b == [b[0]] + b';
        }
      }
    }
  }

  /** Comparing concatenations of prefix-free parts is comparing part by part. */
  lemma {:induction false} LexConcat(a1: seq<byte>, b1: seq<byte>, a2: seq<byte>, b2: seq<byte>)
    requires PrefixFree(a1, b1)
    ensures LexCompare(a1 + a2, b1 + b2) ==
            if LexCompare(a1, b1) != 0 then LexCompare(a1, b1) else LexCompare(a2, b2)
  {
    if a1 == [] || b1 == [] {
      assert a1 <= b1 || b1 <= a1;
      assert a1 + a2 == a2 && b1 + b2 == b2;
    } else if a1[0] == b1[0] {
      assert a1 == [a1[0]] + a1[1..] && b1 == [b1[0]] + b1[1..];
      assert (a1 + a2)[1..] == a1[1..] + a2 && (b1 + b2)[1..] == b1[1..] + b2;
      LexConcat(a1[1..], b1[1..], a2, b2);
    }
  }

  /** The loop over both slices with one index each. */
  method LexCompareBytes(s1: seq<byte>, s2: seq<byte>) returns (res: int)
    requires |s1| <= USIZE_MAX && |s2| <= USIZE_MAX
    ensures res == LexCompare(s1, s2)
  {
    var i1: usize, i2: usize := 0, 0;
    var n1: usize, n2: usize := |s1|, |s2|;
    res := if 0 < n1 then (if 0 < n2 then 0 else 1) else if 0 < n2 then -1 else 0;
    while res == 0 && i1 < n1
      invariant i1 == i2 <= n1 && i1 <= n2
      invariant res == 0 ==> (i1 < n1 <==> i2 < n2)
      invariant res == 0 ==> LexCompare(s1, s2) == LexCompare(s1[i1..], s2[i2..])
      invariant res != 0 ==> res == LexCompare(s1, s2)
      decreases res == 0, n1 - i1
    {
      var x1 := s1[i1];
      var x2 := s2[i2];
      var c := CompareInt(x1, x2);
      if c == 0 {
        var i1': usize := i1 + 1;
        var i2': usize := i2 + 1;
        assert s1[i1..][1..] == s1[i1'..] && s2[i2..][1..] == s2[i2'..];
        var ci1' := i1' < n1;
        var ci2' := i2' < n2;
        if ci2' && !ci1' {
          res := -1;
        } else if ci1' && !ci2' {
          res := 1;
        } else {
          i1 := i1';
          i2 := i2';
        }
      } else {
        res := c;
      }
    }
  }
}
