/** What the definitions of items, determinism and meaning come to in plain bytes. */
module Wire {
  import opened Machine
  import opened Lex
  import opened Header
  import opened Item
  import opened Det
  import opened Canonical
  import opened Normalize
  import Utf8

  /** The encoding of an item by its first byte: what follows the head of each of the
      eight major types. */
  lemma ItemLayout(x: Item)
    requires WF(x)
    ensures HeadOk(x.head) && WFAll(x.children)
    ensures Ser(x) == HeadBytes(x.head) + x.content + SerAll(x.children)
    ensures var major, v := Ser(x)[0] / 32, x.head.arg.value;
            && major == x.head.major <= 7
            && |x.content| == (if major == 2 || major == 3 then v else 0)
            && |x.children| == (if major == 4 then v else if major == 5 then 2 * v else if major == 6 then 1 else 0)
            && (major == 3 ==> Utf8.Correct(x.content))
            && (major == 7 ==> if x.head.arg.size == 0 then v < 24 else x.head.arg.size == 1 && 32 <= v < 256)
  {
    hide Utf8.Correct, BigEndian;
    SerUnfold(x);
    HeadLayout(x.head);
    var s := HeadBytes(x.head);
    assert Ser(x) == s + x.content + SerAll(x.children);
    assert Ser(x)[0] == s[0];
  }

  /** Encodings one after the other. */
  lemma ItemsLayout(x: Item, xs: seq<Item>)
    requires WF(x) && WFAll(xs)
    ensures SerAll([]) == []
    ensures WFAll([x] + xs) && SerAll([x] + xs) == Ser(x) + SerAll(xs)
  {
    hide WF, Ser;
    WFCons(x, xs);
  }

  /** An argument is shortest exactly when its bytes would not fit the next smaller
      form: at least 24 in one byte, or more than zero in the more significant half. */
  lemma ShortestBytes(x: Item)
    requires WF(x)
    ensures var s := Ser(x);
            OptimalHead(x.head) <==>
            (s[0] / 32 != 7 ==>
               && (s[0] % 32 == 24 ==> |s| >= 2 && s[1] >= 24)
               && (s[0] % 32 == 25 ==> |s| >= 3 && s[1] != 0)
               && (s[0] % 32 == 26 ==> |s| >= 5 && (s[1] != 0 || s[2] != 0))
               && (s[0] % 32 == 27 ==> |s| >= 9 && (s[1] != 0 || s[2] != 0 || s[3] != 0 || s[4] != 0)))
  {
    ItemLayout(x);
    HeadLayout(x.head);
    var s, h := Ser(x), HeadBytes(x.head);
    assert forall i | 0 <= i < |h| :: s[i] == h[i];
    HeadShortest(x.head, h);
  }

  lemma HeadShortest(h: Head, s: seq<byte>)
    requires HeadOk(h) && s == HeadBytes(h)
    ensures OptimalHead(h) <==>
            (h.major != 7 ==>
               && (h.arg.size == 1 ==> s[1] >= 24)
               && (h.arg.size == 2 ==> s[1] != 0)
               && (h.arg.size == 3 ==> s[1] != 0 || s[2] != 0)
               && (h.arg.size == 4 ==> s[1] != 0 || s[2] != 0 || s[3] != 0 || s[4] != 0))
  {
    hide BigEndian;
    HeadLayout(h);
  }

  /** At the first byte in which two keys of a deterministic map differ, the earlier key
      has the smaller byte. */
  lemma KeysAscend(x: Item, i: nat, j: nat) returns (p: nat)
    requires IsDet(x) && Ser(x)[0] / 32 == 5 && i < j && 2 * j < |x.children|
    ensures WF(x.children[2 * i]) && WF(x.children[2 * j])
    ensures var a, b := Ser(x.children[2 * i]), Ser(x.children[2 * j]);
            p < |a| && p < |b| && a[..p] == b[..p] && a[p] < b[p]
  {
    hide Ser, LexCompare, Optimal, Sorted;
    ItemLayout(x);
    Shape(x);
    var a, b := Ser(x.children[2 * i]), Ser(x.children[2 * j]);
    assert LexCompare(Det.KeyBytes(x.children, i), Det.KeyBytes(x.children, j)) < 0;
    SerPrefixFree(x.children[2 * i], x.children[2 * j]);
    LexFirstDifference(a, b);
    LexZero(a, b);
    p :| 0 <= p < |a| && p < |b| && a[..p] == b[..p] && a[p] < b[p];
  }

  /** The meaning of an item does not depend on the width of its argument. */
  lemma WidthForgotten(x: Item, size: nat)
    requires WF(x) && HeadOk(Head(x.head.major, RawUint64(size, x.head.arg.value)))
    ensures var y := Item(Head(x.head.major, RawUint64(size, x.head.arg.value)), x.content, x.children);
            WF(y) && ValueOf(y) == ValueOf(x)
  {
    hide Ser, Utf8.Correct;
  }

  /** Nor does it depend on the order of the entries of a map. */
  lemma OrderForgotten(x: Item, y: Item)
    requires WF(x) && WF(y) && x.head.major == 5 && y.head.major == 5
    requires |x.children| % 2 == 0 && |y.children| % 2 == 0
    requires multiset(PairUp(x.children)) == multiset(PairUp(y.children))
    ensures ValueOf(x) == ValueOf(y)
  {
    hide Ser, WF, ValueOf;
    MapMeaning(x);
    MapMeaning(y);
    EntriesIn(x, y);
    EntriesIn(y, x);
    assert ValueOf(x).entries == ValueOf(y).entries;
  }

  lemma EntriesIn(x: Item, y: Item)
    requires WF(x) && WF(y) && x.head.major == MAJOR_MAP && y.head.major == MAJOR_MAP
    requires |x.children| % 2 == 0 && |y.children| % 2 == 0
    requires multiset(PairUp(x.children)) == multiset(PairUp(y.children))
    ensures ValueOf(x).Dict? && ValueOf(y).Dict? && ValueOf(x).entries <= ValueOf(y).entries
  {
    hide Ser, WF, ValueOf;
    MapMeaning(x);
    MapMeaning(y);
    forall e | e in ValueOf(x).entries ensures e in ValueOf(y).entries {
      var i :| 0 <= i < x.head.arg.value && EntryAt(x, i) == e;
      assert PairUp(x.children)[i] in multiset(PairUp(y.children));
      var j :| 0 <= j < |PairUp(y.children)| && PairUp(y.children)[j] == PairUp(x.children)[i];
      assert EntryAt(y, j) == EntryAt(x, i);
    }
  }
}
