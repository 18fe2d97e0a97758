/** The constant-space validator and the unchecked jumper: one offset and one
    counter of items still owed, over the recursive grammar. */
module Validator {
  import opened Machine
  import opened Header
  import opened HeaderIO
  import opened Item
  import Utf8

  /** The number of items that a header owes, as computed without checks. */
  function RemainingDataItems(h: Header): nat
    requires h.fst.majorType in {MAJOR_ARRAY, MAJOR_MAP} ==> !h.snd.LongArgumentSimpleValue?
  {
    var typ := h.fst.majorType;
    if typ == MAJOR_ARRAY then ArgumentAsUint64(h.fst, h.snd)
    else if typ == MAJOR_MAP then
      var arg := ArgumentAsUint64(h.fst, h.snd);
      arg + arg
    else if typ == MAJOR_TAGGED then 1 else 0
  }

  /** The number of string bytes that a header announces. */
  function StringLength(h: Header): nat
    requires h.fst.majorType in {MAJOR_BYTE_STRING, MAJOR_TEXT_STRING} ==> !h.snd.LongArgumentSimpleValue?
  {
    if h.fst.majorType == MAJOR_BYTE_STRING || h.fst.majorType == MAJOR_TEXT_STRING then ArgumentAsUint64(h.fst, h.snd)
    else 0
  }

  /** The header of a leaf, read back from its bytes. */
  lemma LeafHeader(a: seq<byte>, h: Head, content: seq<byte>)
    requires LeafOk(h, content) && LeafBytes(h, content) <= a
    ensures a != [] && JumpHeader(a, 0) == |HeadBytes(h)| <= |a|
    ensures Readable(a[..JumpHeader(a, 0)])
    ensures ReadHeader(a[..JumpHeader(a, 0)]) == HeaderOf(h)
  {
    hide HeadOk, HeaderOf, ReadHeader, Utf8.Correct, BigEndian, FromBigEndian;
    var hb := HeadBytes(h);
    assert hb == LeafBytes(h, content)[..|hb|] == a[..|hb|];
    ParseHeadComplete(h, a);
    ParseHeadComplete(h, hb);
    assert a[0..] == a;
    JumpHeaderParses(a, 0);
    ReadHeaderParses(hb);
  }

  /** Stores in `prem` the number of items that the leaf `a` owes.  Returns true
      instead when that number certainly exceeds `bound`. */
  method ValidateRecursiveStepCountLeaf(a: seq<byte>, bound: usize, prem: array<usize>,
                                        ghost h: Head, ghost content: seq<byte>)
    returns (tooMany: bool)
    requires prem.Length == 1
    requires LeafOk(h, content) && a == LeafBytes(h, content)
    modifies prem
    ensures tooMany ==> Count(h) > bound
    ensures !tooMany ==> prem[0] == Count(h)
  {
    hide HeadOk, HeaderOf, HeadBytes, ReadHeader, Utf8.Correct;
    LeafHeader(a, h, content);
    HeaderOfFields(h);
    var i := JumpHeader(a, 0);
    var x := ReadHeader(a[..i]);
    var typ := x.fst.majorType;
    if typ == MAJOR_ARRAY {
      var arg64: u64 := ArgumentAsUint64(x.fst, x.snd);
      if U64LteSizet(arg64, bound) {
        prem[0] := arg64;
        tooMany := false;
      } else {
        tooMany := true;
      }
    } else if typ == MAJOR_MAP {
      var arg64: u64 := ArgumentAsUint64(x.fst, x.snd);
      if U64LteSizet(arg64, bound) {
        var arg: usize := arg64;
        if bound - arg < arg {
          tooMany := true;
        } else {
          prem[0] := arg + arg;
          tooMany := false;
        }
      } else {
        tooMany := true;
      }
    } else if typ == MAJOR_TAGGED {
      prem[0] := 1;
      tooMany := false;
    } else {
      prem[0] := 0;
      tooMany := false;
    }
  }

  /** Validates a head with its string bytes: succeeds exactly when a leaf of the
      grammar starts at the offset, and moves past it. */
  method ValidateLeaf(input: seq<byte>, poffset: array<usize>) returns (ok: bool)
    requires poffset.Length == 1 && poffset[0] <= |input| <= USIZE_MAX
    modifies poffset
    ensures poffset[0] <= |input|
    ensures ok <==> ParseLeaf(input[old(poffset[0])..]).Leaf?
    ensures ok ==> var l := ParseLeaf(input[old(poffset[0])..]);
                   poffset[0] == old(poffset[0]) + |LeafBytes(l.head, l.content)|
  {
    hide HeadOk, HeaderOf, ReadHeader, Utf8.Correct, BigEndian, FromBigEndian, HeadBytes, Count;
    var offset1 := poffset[0];
    ghost var s := input[offset1..];
    ok := ValidateHeader(input, poffset);
    if ok {
      ghost var h := ParseHead(s).value;
      ParseHeadSound(s);
      ParseHeadComplete(h, HeadBytes(h));
      ReadHeaderParses(HeadBytes(h));
      HeaderOfFields(h);
      assert input[offset1..poffset[0]] == s[..|HeadBytes(h)|] == HeadBytes(h);
      var x := ReadHeader(input[offset1..poffset[0]]);
      if x.fst.majorType == MAJOR_BYTE_STRING || x.fst.majorType == MAJOR_TEXT_STRING {
        var offset2 := poffset[0];
        var remaining: usize := |input| - offset2;
        if U64LteSizet(ArgumentAsUint64(x.fst, x.snd), remaining) {
          var off2: usize := offset2 + ArgumentAsUint64(x.fst, x.snd);
          poffset[0] := off2;
          assert s[|HeadBytes(h)|..|HeadBytes(h)| + ContentLength(h)] == input[offset2..off2];
          var x1 := input[offset2..off2];
          if x.fst.majorType == MAJOR_BYTE_STRING {
            ok := true;
          } else {
            ok := Utf8.ImplCorrect(x1);
          }
        } else {
          ok := false;
        }
      }
    }
  }

  /** What one step of the loop does to the items owed: the checks on the way
      reject only inputs that cannot be completed. */
  lemma OwedStep(s: seq<byte>, n: nat)
    requires n > 0
    ensures Rest(s, n).Some? ==> n <= |s| && ParseLeaf(s).Leaf?
    ensures ParseLeaf(s).Leaf? ==>
              var l := ParseLeaf(s);
              var s' := s[|LeafBytes(l.head, l.content)|..];
              |s'| < |s| && Rest(s, n) == Rest(s', n - 1 + Count(l.head)) &&
              (Rest(s, n).Some? ==> Count(l.head) <= |s| - n)
  {
    hide HeadOk, HeadBytes, Utf8.Correct, Count, LeafOk;
    FlatStep(s, n);
  }

  /** Starting with one item owed, succeeds exactly when the grammar parses one
      item at the offset, and moves the offset to the end of that item. */
  method ValidateRawDataItem(input: seq<byte>, poffset: array<usize>) returns (res: bool)
    requires poffset.Length == 1 && poffset[0] <= |input| <= USIZE_MAX
    modifies poffset
    ensures poffset[0] <= |input|
    ensures res <==> ParseItems(input[old(poffset[0])..], 1).Parsed?
    ensures res ==> ParseItems(input[old(poffset[0])..], 1).rest == input[poffset[0]..]
  {
    hide HeadOk, HeadBytes, Utf8.Correct, Count, ParseLeaf, ParseItems;
    ghost var s0 := input[poffset[0]..];
    var pn := new usize[1](_ => 1);
    res := true;
    while res && pn[0] > 0
      invariant poffset[0] <= |input|
      invariant res ==> Rest(s0, 1) == Rest(input[poffset[0]..], pn[0])
      invariant !res ==> Rest(s0, 1).None?
      decreases res, |input| - poffset[0]
    {
      var off := poffset[0];
      var n0 := pn[0];
      ghost var s := input[off..];
      OwedStep(s, n0);
      if n0 > |input| - off {
        res := false;
      } else {
        var res1 := ValidateLeaf(input, poffset);
        if !res1 {
          res := false;
        } else {
          ghost var l := ParseLeaf(s);
          var input1 := input[off..poffset[0]];
          assert input1 == s[..|LeafBytes(l.head, l.content)|] == LeafBytes(l.head, l.content);
          assert input[poffset[0]..] == s[|LeafBytes(l.head, l.content)|..];
          var bound: usize := |input| - off - n0;
          var res2 := ValidateRecursiveStepCountLeaf(input1, bound, pn, l.head, l.content);
          var count := pn[0];
          if res2 || count > bound {
            res := false;
          } else {
            var n': usize := n0 - 1 + count;
            pn[0] := n';
          }
        }
      }
    }
    if res {
      NothingOwed(input[poffset[0]..]);
    }
  }

  lemma NothingOwed(s: seq<byte>)
    ensures Rest(s, 0) == Some(s)
  {
  }

  /** The length of the item at the front of the input; 0 when there is none. */
  method CborValidate(input: seq<byte>) returns (len: usize)
    requires |input| <= USIZE_MAX
    ensures len == 0 ==> forall x :: WF(x) ==> !(Ser(x) <= input)
    ensures len > 0 ==> len <= |input| && exists x :: WF(x) && Ser(x) == input[..len]
  {
    var poffset := new usize[1](_ => 0);
    assert input[0..] == input;
    var isValid := ValidateRawDataItem(input, poffset);
    if isValid {
      len := poffset[0];
      ParseSound(input, 1);
      ghost var x := ParseItems(input, 1).items[0];
      assert ParseItems(input, 1).items == [x];
      ParseOne(x, input);
      assert input[|Ser(x)|..] == input[len..];
      assert |input[|Ser(x)|..]| == |input[len..]|;
    } else {
      len := 0;
      forall x | WF(x) ensures !(Ser(x) <= input) {
        ParseOne(x, input);
      }
    }
  }

  /** The offset past the head and string bytes of a leaf. */
  method JumpLeaf(input: seq<byte>, off: usize, ghost h: Head, ghost content: seq<byte>) returns (off10: usize)
    requires off <= |input| <= USIZE_MAX
    requires LeafOk(h, content) && LeafBytes(h, content) <= input[off..]
    ensures off10 == off + |LeafBytes(h, content)|
  {
    hide HeadOk, HeaderOf, ReadHeader, Utf8.Correct, BigEndian, FromBigEndian, HeadBytes;
    ghost var s := input[off..];
    LeafHeader(s, h, content);
    HeaderOfFields(h);
    assert input[off..off + 1][0] == s[0..1][0];
    var off1: usize := JumpHeader(input, off);
    assert input[off..off1] == s[..JumpHeader(s, 0)];
    var x := ReadHeader(input[off..off1]);
    off10 := off1 + StringLength(x);
  }

  /** The number of items owed by a leaf. */
  method JumpRecursiveStepCountLeaf(a: seq<byte>, ghost h: Head, ghost content: seq<byte>) returns (count: usize)
    requires LeafOk(h, content) && a == LeafBytes(h, content) && Count(h) <= USIZE_MAX
    ensures count == Count(h)
  {
    hide HeadOk, HeaderOf, ReadHeader, Utf8.Correct, BigEndian, FromBigEndian, HeadBytes;
    LeafHeader(a, h, content);
    HeaderOfFields(h);
    var i: usize := JumpHeader(a, 0);
    count := RemainingDataItems(ReadHeader(a[..i]));
  }

  /** The state of a walk over pending items after its first leaf. */
  lemma WalkStep(pending: seq<Item>, s: seq<byte>, rest: seq<byte>) returns (leaf: seq<byte>)
    requires pending != [] && WFAll(pending) && s == SerAll(pending) + rest
    ensures LeafOk(pending[0].head, pending[0].content) && leaf == LeafBytes(pending[0].head, pending[0].content)
    ensures leaf <= s
    ensures WFAll(pending[0].children + pending[1..])
    ensures s[|leaf|..] == SerAll(pending[0].children + pending[1..]) + rest
    ensures Count(pending[0].head) + |pending| - 1 <= |s|
  {
    hide WF, Ser, SerAll, LeafOk, LeafBytes, Count;
    var y, more := pending[0], pending[1..];
    WFSplit(pending);
    SerUnfold(y);
    SerAllAppend(y.children, more);
    AllOwed(y.children + more);
    LeafNonEmpty(y.head, y.content);
    leaf := LeafBytes(y.head, y.content);
    assert s == leaf + (SerAll(y.children + more) + rest);
  }

  /** On the encoding of an item, whatever follows it, jumping without any check
      lands where validating does, and no counter wraps. */
  method JumpRawDataItem(input: seq<byte>, offset: usize, ghost x: Item) returns (end: usize)
    requires offset <= |input| <= USIZE_MAX
    requires WF(x) && Ser(x) <= input[offset..]
    ensures end == offset + |Ser(x)| <= |input|
  {
    hide WF, Ser, LeafOk, LeafBytes, Count;
    end := offset;
    var n: usize := 1;
    ghost var pending := [x];
    ghost var rest := input[offset + |Ser(x)|..];
    SerSingle(x);
    while n > 0
      invariant end <= |input|
      invariant WFAll(pending) && |pending| == n
      invariant input[end..] == SerAll(pending) + rest
      decreases |input| - end
    {
      ghost var y := pending[0];
      ghost var leaf := WalkStep(pending, input[end..], rest);
      LeafNonEmpty(y.head, y.content);
      WFChildren(pending);
      var off := end;
      var off10 := JumpLeaf(input, off, y.head, y.content);
      assert input[off..off10] == input[off..][..|leaf|];
      var count := JumpRecursiveStepCountLeaf(input[off..off10], y.head, y.content);
      assert input[off10..] == input[off..][|leaf|..];
      n := n - 1 + count;
      end := off10;
      pending := y.children + pending[1..];
    }
    assert pending == [];
    assert |input[end..]| == |rest|;
  }

  lemma WFChildren(xs: seq<Item>)
    requires xs != [] && WFAll(xs)
    ensures |xs[0].children| == Count(xs[0].head)
  {
    WFSplit(xs);
  }

  lemma LeafNonEmpty(h: Head, content: seq<byte>)
    requires LeafOk(h, content)
    ensures |LeafBytes(h, content)| > 0
  {
  }

  /** Each item owed takes at least a byte. */
  lemma {:induction false} AllOwed(xs: seq<Item>)
    requires WFAll(xs)
    ensures |xs| <= |SerAll(xs)|
  {
    if xs != [] {
      AllOwed(xs[1..]);
    }
  }
}
