/** Deterministic encoding (section 4.2.1 of RFC 8949): shortest arguments and
    sorted map keys everywhere; and the validator for it. */
module Det {
  import opened Machine
  import opened Lex
  import opened Header
  import opened HeaderIO
  import opened Item
  import opened Validator
  import Utf8

  /** Arguments as short as possible, at every level. */
  ghost predicate Optimal(x: Item) {
    OptimalHead(x.head) && forall i | 0 <= i < |x.children| :: Optimal(x.children[i])
  }

  predicate OptimalHead(h: Head) {
    h.major == MAJOR_SIMPLE_VALUE || RawUint64Optimal(h.arg)
  }

  /** The encoding of the `i`th key of a map. */
  ghost function KeyBytes(children: seq<Item>, i: nat): seq<byte>
    requires WFAll(children) && 2 * i < |children|
  {
    Ser(children[2 * i])
  }

  /** The first `k` keys are strictly increasing. */
  ghost predicate KeysSorted(children: seq<Item>, k: nat)
    requires WFAll(children) && 2 * k <= |children|
  {
    forall i, j | 0 <= i < j < k :: LexCompare(KeyBytes(children, i), KeyBytes(children, j)) < 0
  }

  /** The keys of this item are strictly increasing, if it is a map. */
  ghost predicate NodeSorted(x: Item)
    requires WF(x)
  {
    x.head.major == MAJOR_MAP ==> KeysSorted(x.children, x.head.arg.value)
  }

  /** Strictly increasing map keys at every level. */
  ghost predicate Sorted(x: Item)
    requires WF(x)
  {
    NodeSorted(x) && forall i | 0 <= i < |x.children| :: Sorted(x.children[i])
  }

  /** Deterministically encoded items. */
  ghost predicate IsDet(x: Item) {
    WF(x) && Optimal(x) && Sorted(x)
  }

  /** An item is deterministic when its head is shortest, its keys are sorted if it
      is a map, and its children are deterministic. */
  lemma DetNode(x: Item)
    requires WF(x) && OptimalHead(x.head) && NodeSorted(x)
    requires forall i | 0 <= i < |x.children| :: IsDet(x.children[i])
    ensures IsDet(x)
  {
  }

  ghost predicate OptimalAll(xs: seq<Item>) {
    forall i | 0 <= i < |xs| :: Optimal(xs[i])
  }

  ghost predicate SortedAll(xs: seq<Item>)
    requires WFAll(xs)
  {
    forall i | 0 <= i < |xs| :: Sorted(xs[i])
  }

  /** A walk that replaces an item by its children meets every item below it. */
  lemma OptimalStep(pending: seq<Item>)
    requires pending != []
    ensures OptimalAll(pending) <==> OptimalHead(pending[0].head) && OptimalAll(pending[0].children + pending[1..])
  {
    var next := pending[0].children + pending[1..];
    if OptimalAll(next) {
      forall i | 0 <= i < |pending[0].children| ensures Optimal(pending[0].children[i]) {
        assert next[i] == pending[0].children[i];
      }
      forall i | 1 <= i < |pending| ensures Optimal(pending[i]) {
        assert next[|pending[0].children| + i - 1] == pending[i];
      }
    }
  }

  lemma SortedStep(pending: seq<Item>)
    requires pending != [] && WFAll(pending) && WFAll(pending[0].children + pending[1..])
    ensures SortedAll(pending) <==> NodeSorted(pending[0]) && SortedAll(pending[0].children + pending[1..])
  {
    hide WF, NodeSorted;
    WFSplit(pending);
    var next := pending[0].children + pending[1..];
    if SortedAll(next) {
      forall i | 0 <= i < |pending[0].children| ensures Sorted(pending[0].children[i]) {
        assert next[i] == pending[0].children[i];
      }
      forall i | 1 <= i < |pending| ensures Sorted(pending[i]) {
        assert next[|pending[0].children| + i - 1] == pending[i];
      }
    }
    if SortedAll(pending) {
      assert Sorted(pending[0]);
      forall i | 0 <= i < |next| ensures Sorted(next[i]) {
        if i >= |pending[0].children| {
          assert next[i] == pending[i - |pending[0].children| + 1];
        }
      }
    }
  }

  /** Is the argument of the first item shortest? */
  method CborRawIntsOptimal(a: seq<byte>, ghost h: Head, ghost content: seq<byte>) returns (res: bool)
    requires LeafOk(h, content) && LeafBytes(h, content) <= a && |a| <= USIZE_MAX
    ensures res <==> OptimalHead(h)
  {
    hide HeadOk, HeaderOf, HeadBytes, ReadHeader, Utf8.Correct;
    LeafHeader(a, h, content);
    HeaderOfFields(h);
    var i: usize := JumpHeader(a, 0);
    var x := ReadHeader(a[..i]);
    if x.fst.majorType == MAJOR_SIMPLE_VALUE {
      res := true;
    } else {
      res := RawUint64Optimal(ArgumentAsRaw(x.fst, x.snd));
    }
  }

  /** Are keys with these encodings in order? */
  method MapKeyOrder(a1: seq<byte>, a2: seq<byte>) returns (r: bool)
    requires |a1| <= USIZE_MAX && |a2| <= USIZE_MAX
    ensures r <==> LexCompare(a1, a2) < 0
  {
    var res := Lex.LexCompareBytes(a1, a2);
    r := res < 0;
  }

  /** The next of several items at the front of `s`. */
  lemma NextItem(children: seq<Item>, i: nat, s: seq<byte>, rest: seq<byte>)
    requires WFAll(children) && i < |children| && s == SerAll(children[i..]) + rest
    ensures WF(children[i]) && Ser(children[i]) <= s[0..]
    ensures s[|Ser(children[i])|..] == SerAll(children[i + 1..]) + rest
    ensures s[..|Ser(children[i])|] == Ser(children[i])
  {
    hide WF, Ser;
    WFSplit(children[i..]);
    assert children[i..][1..] == children[i + 1..];
    assert s == Ser(children[i]) + (SerAll(children[i + 1..]) + rest);
  }

  lemma KeysSortedStep(children: seq<Item>, k: nat)
    requires WFAll(children) && 0 < k && 2 * k < |children| - 1 && KeysSorted(children, k)
    ensures KeysSorted(children, k + 1) <==> LexCompare(KeyBytes(children, k - 1), KeyBytes(children, k)) < 0
  {
    hide LexCompare, KeyBytes;
    if LexCompare(KeyBytes(children, k - 1), KeyBytes(children, k)) < 0 {
      forall i | 0 <= i < k ensures LexCompare(KeyBytes(children, i), KeyBytes(children, k)) < 0 {
        if i < k - 1 {
          LexTransitive(KeyBytes(children, i), KeyBytes(children, k - 1), KeyBytes(children, k));
        }
      }
    }
  }

  /** The header of the first item, and what follows the head if it is a map. */
  lemma NodeHeader(a: seq<byte>, x: Item)
    requires WF(x) && Ser(x) <= a
    ensures a != [] && JumpHeader(a, 0) <= |a| && Readable(a[..JumpHeader(a, 0)])
    ensures HeadOk(x.head) && ReadHeader(a[..JumpHeader(a, 0)]) == HeaderOf(x.head)
    ensures x.head.major == MAJOR_MAP ==>
              WFAll(x.children) && |x.children| == 2 * x.head.arg.value &&
              a[JumpHeader(a, 0)..] == SerAll(x.children[0..]) + a[|Ser(x)|..]
  {
    hide HeadOk, HeaderOf, HeadBytes, ReadHeader, Utf8.Correct, WF, Ser;
    SerUnfold(x);
    var leaf := LeafBytes(x.head, x.content);
    assert x.children[0..] == x.children;
    assert a == leaf + (SerAll(x.children) + a[|Ser(x)|..]);
    LeafHeader(a, x.head, x.content);
  }

  /** Are the keys of the first item strictly increasing, if it is a map? */
  method CborRawSorted(a: seq<byte>, ghost x: Item) returns (res: bool)
    requires WF(x) && Ser(x) <= a && |a| <= USIZE_MAX
    ensures res <==> NodeSorted(x)
  {
    hide HeadOk, HeaderOf, ReadHeader, JumpHeader, Readable, LexCompare, WF, Ser, SerAll, KeyBytes, KeysSorted;
    ghost var children, rest := x.children, a[|Ser(x)|..];
    NodeHeader(a, x);
    HeaderOfFields(x.head);
    var i: usize := JumpHeader(a, 0);
    var input2 := a[i..];
    var h := ReadHeader(a[..i]);
    if h.fst.majorType == MAJOR_MAP {
      var nbpairs: u64 := ArgumentAsUint64(h.fst, h.snd);
      if nbpairs < 2 {
        FewKeysSorted(children, nbpairs);
        res := true;
      } else {
        var i0: usize := StringLength(h);
        var input3 := input2[i0..];
        assert input3 == input2;
        NextItem(children, 0, input3, rest);
        var i1 := JumpRawDataItem(input3, 0, children[0]);
        var key := input3[..i1];
        var input4 := input3[i1..];
        NextItem(children, 1, input4, rest);
        var i2 := JumpRawDataItem(input4, 0, children[1]);
        KeyIs(children, 0);
        res := SortedLoop(key, input4[i2..], nbpairs - 1, children, rest);
      }
    } else {
      res := true;
    }
  }

  lemma FewKeysSorted(children: seq<Item>, k: nat)
    requires WFAll(children) && 2 * k <= |children| && k < 2
    ensures KeysSorted(children, k)
  {
  }

  lemma KeyIs(children: seq<Item>, i: nat)
    requires WFAll(children) && 2 * i < |children|
    ensures WF(children[2 * i]) && KeyBytes(children, i) == Ser(children[2 * i])
  {
  }

  lemma FewerKeysSorted(children: seq<Item>, k: nat, n: nat)
    requires WFAll(children) && k <= n && 2 * n <= |children| && KeysSorted(children, n)
    ensures KeysSorted(children, k)
  {
  }

  /** The loop over the remaining pairs, keeping the previous key. */
  method SortedLoop(key: seq<byte>, input: seq<byte>, pairs: u64, ghost children: seq<Item>, ghost rest: seq<byte>)
    returns (res: bool)
    requires WFAll(children) && |children| == 2 * (pairs + 1)
    requires key == KeyBytes(children, 0) && |key| <= USIZE_MAX
    requires input == SerAll(children[2..]) + rest && |input| <= USIZE_MAX
    ensures res <==> KeysSorted(children, pairs + 1)
  {
    hide LexCompare, WF, Ser, KeyBytes, KeysSorted;
    FewKeysSorted(children, 1);
    var pkey, ppairs, ptail := key, pairs, input;
    ghost var k: nat := 1;
    res := true;
    while res && ppairs > 0
      invariant 1 <= k && k == pairs + 1 - ppairs
      invariant |ptail| <= USIZE_MAX && ptail == SerAll(children[2 * k..]) + rest
      invariant pkey == KeyBytes(children, k - 1) && |pkey| <= USIZE_MAX
      invariant if res then KeysSorted(children, k) else !KeysSorted(children, pairs + 1)
      decreases res, ppairs
    {
      var tail := ptail;
      NextItem(children, 2 * k, tail, rest);
      var i3 := JumpRawDataItem(tail, 0, children[2 * k]);
      var key2 := tail[..i3];
      var tail2 := tail[i3..];
      KeyIs(children, k);
      KeysSortedStep(children, k);
      var inOrder := MapKeyOrder(pkey, key2);
      if inOrder {
        NextItem(children, 2 * k + 1, tail2, rest);
        var i4 := JumpRawDataItem(tail2, 0, children[2 * k + 1]);
        pkey := key2;
        ppairs := ppairs - 1;
        ptail := tail2[i4..];
        k := k + 1;
      } else {
        if KeysSorted(children, pairs + 1) {
          FewerKeysSorted(children, k + 1, pairs + 1);
        }
        res := false;
      }
    }
  }

  lemma WFAllHead(xs: seq<Item>)
    requires xs != [] && WFAll(xs)
    ensures WF(xs[0]) && |xs[0].children| == Count(xs[0].head) && Ser(xs[0]) <= SerAll(xs)
  {
  }

  /** First pass over the items: every argument is shortest. */
  method IntsOptimalPass(input: seq<byte>, ghost x: Item) returns (res: bool)
    requires WF(x) && input == Ser(x) && |input| <= USIZE_MAX
    ensures res <==> Optimal(x)
  {
    hide WF, Ser, LeafOk, LeafBytes, Count, Optimal, OptimalHead;
    var n: usize, pi := 1, input;
    res := true;
    ghost var pending := [x];
    SerSingle(x);
    while res && n > 0
      invariant WFAll(pending) && |pending| == n
      invariant |pi| <= USIZE_MAX && pi == SerAll(pending) + []
      invariant Optimal(x) <==> res && OptimalAll(pending)
      decreases res, |pi|
    {
      ghost var y := pending[0];
      ghost var leaf := WalkStep(pending, pi, []);
      LeafNonEmpty(y.head, y.content);
      WFAllHead(pending);
      OptimalStep(pending);
      var res0 := CborRawIntsOptimal(pi, y.head, y.content);
      if !res0 {
        res := false;
      } else {
        assert pi[0..] == pi;
        var i := JumpLeaf(pi, 0, y.head, y.content);
        var ph := pi[..i];
        var pc := pi[i..];
        var count := JumpRecursiveStepCountLeaf(ph, y.head, y.content);
        n := n - 1 + count;
        pi := pc;
        pending := y.children + pending[1..];
      }
    }
  }

  /** Second pass over the items: every map is sorted. */
  method SortedPass(input: seq<byte>, ghost x: Item) returns (res: bool)
    requires WF(x) && input == Ser(x) && |input| <= USIZE_MAX
    ensures res <==> Sorted(x)
  {
    hide WF, Ser, LeafOk, LeafBytes, Count, Sorted, NodeSorted;
    var n: usize, pi := 1, input;
    res := true;
    ghost var pending := [x];
    SerSingle(x);
    while res && n > 0
      invariant WFAll(pending) && |pending| == n
      invariant |pi| <= USIZE_MAX && pi == SerAll(pending) + []
      invariant Sorted(x) <==> res && SortedAll(pending)
      decreases res, |pi|
    {
      ghost var y := pending[0];
      ghost var leaf := WalkStep(pending, pi, []);
      LeafNonEmpty(y.head, y.content);
      WFAllHead(pending);
      SortedStep(pending);
      var res1 := CborRawSorted(pi, y);
      if !res1 {
        res := false;
      } else {
        assert pi[0..] == pi;
        var i := JumpLeaf(pi, 0, y.head, y.content);
        var ph := pi[..i];
        var pc := pi[i..];
        var count := JumpRecursiveStepCountLeaf(ph, y.head, y.content);
        n := n - 1 + count;
        pi := pc;
        pending := y.children + pending[1..];
      }
    }
  }

  /** The length of the deterministic item at the front of the input; 0 exactly
      when there is none. */
  method ValidateDet(input: seq<byte>) returns (r: usize)
    requires |input| <= USIZE_MAX
    ensures r == 0 ==> forall x :: IsDet(x) ==> !(Ser(x) <= input)
    ensures r > 0 ==> r <= |input| && exists x :: IsDet(x) && Ser(x) == input[..r]
  {
    hide WF, Ser, Optimal, Sorted;
    var len := CborValidate(input);
    if len == 0 {
      return len;
    }
    ghost var x :| WF(x) && Ser(x) == input[..len];
    var input1 := input[..len];
    OnlyItem(x, input);
    var check1 := IntsOptimalPass(input1, x);
    if !check1 {
      return 0;
    }
    var check2 := SortedPass(input1, x);
    r := if !check2 then 0 else len;
  }

  /** At most one item starts at the front of the input. */
  lemma OnlyItem(x: Item, input: seq<byte>)
    requires WF(x) && Ser(x) <= input
    ensures forall y :: WF(y) && Ser(y) <= input ==> y == x
  {
    hide WF, Ser, ParseItems;
    forall y | WF(y) && Ser(y) <= input ensures y == x {
      ParseOne(x, input);
      ParseOne(y, input);
      assert [x][0] == [y][0];
    }
  }
}
