/** Raw data items, their encoding, and the recursive grammar (section 3 of
    RFC 8949, definite lengths, no floating-point values).

    An item is a head, the bytes of a string, and the items nested directly in
    it.  The children of a map alternate keys and values. */
module Item {
  import opened Machine
  import opened Lex
  import opened Header
  import Utf8

  datatype Item = Item(head: Head, content: seq<byte>, children: seq<Item>)

  predicate IsString(h: Head) {
    h.major == MAJOR_BYTE_STRING || h.major == MAJOR_TEXT_STRING
  }

  /** The number of string bytes after a head. */
  function ContentLength(h: Head): nat {
    if IsString(h) then h.arg.value else 0
  }

  /** The number of items nested directly under a head. */
  function Count(h: Head): nat {
    if h.major == MAJOR_ARRAY then h.arg.value
    else if h.major == MAJOR_MAP then 2 * h.arg.value
    else if h.major == MAJOR_TAGGED then 1
    else 0
  }

  /** A head with its string bytes, text being UTF-8. */
  ghost predicate LeafOk(h: Head, content: seq<byte>) {
    HeadOk(h) && |content| == ContentLength(h) && (h.major == MAJOR_TEXT_STRING ==> Utf8.Correct(content))
  }

  /** Well-formed items. */
  ghost predicate WF(x: Item) {
    LeafOk(x.head, x.content) && |x.children| == Count(x.head) &&
    forall i | 0 <= i < |x.children| :: WF(x.children[i])
  }

  ghost predicate WFAll(xs: seq<Item>) {
    forall i | 0 <= i < |xs| :: WF(xs[i])
  }

  ghost function LeafBytes(h: Head, content: seq<byte>): (s: seq<byte>)
    requires HeadOk(h)
    ensures |s| == 1 + Width(h.arg.size) + |content|
  {
    HeadBytes(h) + content
  }

  /** The encoding of an item. */
  ghost function Ser(x: Item): (s: seq<byte>)
    requires WF(x)
    ensures |s| >= 1
    decreases x, 1
  {
    LeafBytes(x.head, x.content) + SerAll(x.children)
  }

  ghost function SerAll(xs: seq<Item>): seq<byte>
    requires WFAll(xs)
    decreases xs, 0
  {
    if xs == [] then [] else Ser(xs[0]) + SerAll(xs[1..])
  }

  // ------------------------------------------------------------------
  // The recursive grammar
  // ------------------------------------------------------------------

  datatype Leaf = NoLeaf | Leaf(head: Head, content: seq<byte>)
  datatype Parsed = Fail | Parsed(items: seq<Item>, rest: seq<byte>)

  ghost function ParseLeaf(s: seq<byte>): (l: Leaf)
    ensures l.Leaf? ==> LeafOk(l.head, l.content) && LeafBytes(l.head, l.content) <= s
  {
    match ParseHead(s)
    case None => NoLeaf
    case Some(h) =>
      ParseHeadSound(s);
      var k := |HeadBytes(h)|;
      var len := ContentLength(h);
      if |s| < k + len then NoLeaf else
      var content := s[k..k + len];
      if h.major == MAJOR_TEXT_STRING && !Utf8.Correct(content) then NoLeaf
      else assert LeafBytes(h, content) == s[..k + len]; Leaf(h, content)
  }

  /** `n` consecutive items at the front of `s`, each followed by its children. */
  ghost function ParseItems(s: seq<byte>, n: nat): (r: Parsed)
    ensures r.Parsed? ==> |r.rest| + n <= |s|
    decreases |s|, n
  {
    if n == 0 then Parsed([], s) else
    match ParseLeaf(s)
    case NoLeaf => Fail
    case Leaf(h, content) =>
      match ParseItems(s[|LeafBytes(h, content)|..], Count(h))
      case Fail => Fail
      case Parsed(children, s1) =>
        match ParseItems(s1, n - 1)
        case Fail => Fail
        case Parsed(items, s2) => Parsed([Item(h, content, children)] + items, s2)
  }

  /** Every leaf, whatever follows it, is parsed. */
  lemma ParseLeafComplete(h: Head, content: seq<byte>, s: seq<byte>)
    requires LeafOk(h, content) && LeafBytes(h, content) <= s
    ensures ParseLeaf(s) == Leaf(h, content)
  {
    var k := |HeadBytes(h)|;
    assert HeadBytes(h) == LeafBytes(h, content)[..k] == s[..k];
    ParseHeadComplete(h, s);
    assert s[k..k + |content|] == LeafBytes(h, content)[k..] == content;
  }

  lemma WFSplit(xs: seq<Item>)
    requires xs != [] && WFAll(xs)
    ensures WF(xs[0]) && WFAll(xs[0].children) && WFAll(xs[1..])
    ensures SerAll(xs) == Ser(xs[0]) + SerAll(xs[1..])
    ensures xs == [xs[0]] + xs[1..]
  {
    hide LeafOk, LeafBytes, Count, Ser;
  }

  lemma WFCons(x: Item, xs: seq<Item>)
    requires WF(x) && WFAll(xs)
    ensures WFAll([x] + xs) && SerAll([x] + xs) == Ser(x) + SerAll(xs)
  {
    assert ([x] + xs)[1..] == xs;
  }

  /** Parsing `n` items is parsing a leaf, its children, and `n - 1` items. */
  lemma ParseItemsStep(s: seq<byte>, n: nat, h: Head, content: seq<byte>, s0: seq<byte>)
    requires n > 0 && LeafOk(h, content) && s == LeafBytes(h, content) + s0
    ensures ParseItems(s, n) ==
            match ParseItems(s0, Count(h))
            case Fail => Fail
            case Parsed(children, s1) =>
              match ParseItems(s1, n - 1)
              case Fail => Fail
              case Parsed(items, s2) => Parsed([Item(h, content, children)] + items, s2)
  {
    ParseLeafComplete(h, content, s);
    assert s[|LeafBytes(h, content)|..] == s0;
  }

  lemma ParseItemsSplit(s: seq<byte>, n: nat)
    returns (h: Head, content: seq<byte>, s0: seq<byte>, p: Parsed, q: Parsed)
    requires n > 0 && ParseItems(s, n).Parsed?
    ensures LeafOk(h, content) && s == LeafBytes(h, content) + s0 && |s0| < |s|
    ensures p == ParseItems(s0, Count(h)) && p.Parsed? && |p.rest| <= |s0|
    ensures q == ParseItems(p.rest, n - 1) && q.Parsed?
    ensures ParseItems(s, n) == Parsed([Item(h, content, p.items)] + q.items, q.rest)
  {
    h, content := ParseLeaf(s).head, ParseLeaf(s).content;
    s0 := s[|LeafBytes(h, content)|..];
    p := ParseItems(s0, Count(h));
    q := ParseItems(p.rest, n - 1);
  }

  lemma Regroup(a: seq<byte>, b: seq<byte>, c: seq<byte>, d: seq<byte>)
    ensures ((a + b) + c) + d == a + (b + (c + d))
  {
  }

  /** What is parsed is well-formed, and encodes back to the bytes that were read. */
  lemma {:induction false} ParseSound(s: seq<byte>, n: nat)
    requires ParseItems(s, n).Parsed?
    ensures |ParseItems(s, n).items| == n && WFAll(ParseItems(s, n).items)
    ensures s == SerAll(ParseItems(s, n).items) + ParseItems(s, n).rest
    decreases |s|, n
  {
    hide HeadBytes, HeadOk, Utf8.Correct, ContentLength, Count, ParseLeaf;
    if n > 0 {
      var h, content, s0, p, q := ParseItemsSplit(s, n);
      ParseSound(s0, Count(h));
      ParseSound(p.rest, n - 1);
      var x := Item(h, content, p.items);
      WFCons(x, q.items);
      Regroup(LeafBytes(h, content), SerAll(p.items), SerAll(q.items), q.rest);
    }
  }

  /** Every sequence of well-formed items, whatever follows it, is parsed. */
  lemma {:induction false} ParseComplete(xs: seq<Item>, rest: seq<byte>)
    requires WFAll(xs)
    ensures ParseItems(SerAll(xs) + rest, |xs|) == Parsed(xs, rest)
    decreases xs
  {
    hide HeadBytes, HeadOk, Utf8.Correct, ContentLength, Count;
    var s := SerAll(xs) + rest;
    if xs == [] {
      assert s == rest;
    } else {
      WFSplit(xs);
      var x := xs[0];
      var leaf := LeafBytes(x.head, x.content);
      var after := SerAll(xs[1..]) + rest;
      assert s == leaf + (SerAll(x.children) + after);
      ParseComplete(x.children, after);
      ParseComplete(xs[1..], rest);
      ParseItemsStep(s, |xs|, x.head, x.content, SerAll(x.children) + after);
    }
  }

  // ------------------------------------------------------------------
  // Unique decoding
  // ------------------------------------------------------------------

  lemma SerSingle(x: Item)
    requires WF(x)
    ensures WFAll([x]) && SerAll([x]) == Ser(x)
  {
    WFSplit([x]);
  }

  /** One item at the front of `s`: parsing it is the same as encoding it. */
  lemma ParseOne(x: Item, s: seq<byte>)
    ensures WF(x) && Ser(x) <= s <==> ParseItems(s, 1).Parsed? && ParseItems(s, 1).items == [x]
    ensures WF(x) && Ser(x) <= s ==> ParseItems(s, 1).rest == s[|Ser(x)|..]
  {
    hide LeafBytes, ParseLeaf;
    if WF(x) && Ser(x) <= s {
      SerSingle(x);
      var rest := s[|Ser(x)|..];
      ParseComplete([x], rest);
      assert s == SerAll([x]) + rest;
    }
    if ParseItems(s, 1).Parsed? && ParseItems(s, 1).items == [x] {
      ParseSound(s, 1);
      SerSingle([x][0]);
    }
  }

  /** No encoding is a proper prefix of another, and no two items share one. */
  lemma SerPrefixFree(x: Item, y: Item)
    requires WF(x) && WF(y)
    ensures PrefixFree(Ser(x), Ser(y))
    ensures Ser(x) == Ser(y) ==> x == y
  {
    hide LeafBytes, ParseItems;
    ParseOne(x, Ser(x)); ParseOne(y, Ser(x));
    ParseOne(x, Ser(y)); ParseOne(y, Ser(y));
    assert ParseItems(Ser(x), 1).items == [x] && ParseItems(Ser(y), 1).items == [y];
    if Ser(x) <= Ser(y) { assert [x][0] == [y][0]; }
    if Ser(y) <= Ser(x) { assert [x][0] == [y][0]; }
  }

  /** A concatenation of a known number of items splits in only one way. */
  lemma SplitUnique(xs: seq<Item>, ys: seq<Item>, r: seq<byte>, t: seq<byte>)
    requires WFAll(xs) && WFAll(ys) && |xs| == |ys|
    requires SerAll(xs) + r == SerAll(ys) + t
    ensures xs == ys && r == t
  {
    hide ParseItems;
    ParseComplete(xs, r);
    ParseComplete(ys, t);
  }

  // ------------------------------------------------------------------
  // The grammar with one counter of items still owed
  // ------------------------------------------------------------------

  lemma {:induction false} SerAllAppend(xs: seq<Item>, ys: seq<Item>)
    requires WFAll(xs) && WFAll(ys)
    ensures WFAll(xs + ys) && SerAll(xs + ys) == SerAll(xs) + SerAll(ys)
  {
    hide WF, LeafBytes;
    if xs == [] {
      assert xs + ys == ys;
    } else {
      SerAllAppend(xs[1..], ys);
      assert xs + ys == [xs[0]] + (xs[1..] + ys);
      WFCons(xs[0], xs[1..] + ys);
    }
  }

  /** What is left of `s` after `n` items. */
  ghost function Rest(s: seq<byte>, n: nat): Option<seq<byte>> {
    match ParseItems(s, n)
    case Fail => None
    case Parsed(_, rest) => Some(rest)
  }

  /** Owing `a + b` items is owing `a` and then `b`. */
  lemma {:induction false} RestAdd(s: seq<byte>, a: nat, b: nat)
    ensures Rest(s, a + b) == if Rest(s, a).None? then None else Rest(Rest(s, a).value, b)
    decreases |s|, a
  {
    hide HeadBytes, HeadOk, Utf8.Correct, ContentLength, Count, ParseLeaf, LeafOk;
    if a > 0 && ParseLeaf(s).Leaf? {
      var h, content := ParseLeaf(s).head, ParseLeaf(s).content;
      LeafHead(h, content);
      var s0 := s[|LeafBytes(h, content)|..];
      assert s == LeafBytes(h, content) + s0;
      ParseItemsStep(s, a, h, content, s0);
      ParseItemsStep(s, a + b, h, content, s0);
      var p := ParseItems(s0, Count(h));
      if p.Parsed? {
        RestAdd(p.rest, a - 1, b);
      }
    }
  }

  lemma LeafHead(h: Head, content: seq<byte>)
    requires LeafOk(h, content)
    ensures HeadOk(h)
  {
  }

  /** One step of the flat loop: a leaf pays for one item and owes its children. */
  lemma FlatStep(s: seq<byte>, n: nat)
    requires n > 0
    ensures Rest(s, n) ==
            match ParseLeaf(s)
            case NoLeaf => None
            case Leaf(h, content) => Rest(s[|LeafBytes(h, content)|..], Count(h) + (n - 1))
  {
    hide HeadBytes, HeadOk, Utf8.Correct, ContentLength, Count;
    var l := ParseLeaf(s);
    if l.Leaf? {
      RestAdd(s[|LeafBytes(l.head, l.content)|..], Count(l.head), n - 1);
    }
  }

  // ------------------------------------------------------------------
  // The order of encodings
  // ------------------------------------------------------------------

  /** The parts of a well-formed item and of its encoding. */
  lemma SerUnfold(x: Item)
    requires WF(x)
    ensures LeafOk(x.head, x.content) && HeadOk(x.head) && WFAll(x.children) && |x.children| == Count(x.head)
    ensures Ser(x) == LeafBytes(x.head, x.content) + SerAll(x.children)
    ensures Ser(x) == HeadBytes(x.head) + (x.content + SerAll(x.children))
  {
  }

  /** Items compare by head first, then by what follows the head. */
  lemma ItemOrder(x: Item, y: Item)
    requires WF(x) && WF(y)
    ensures LexCompare(Ser(x), Ser(y)) ==
            if x.head.major != y.head.major then CompareInt(x.head.major, y.head.major)
            else if CompareRawUint64(x.head.arg, y.head.arg) != 0 then CompareRawUint64(x.head.arg, y.head.arg)
            else LexCompare(x.content + SerAll(x.children), y.content + SerAll(y.children))
  {
    hide HeadBytes, HeadOk, Utf8.Correct, ContentLength, Count, LexCompare;
    HeadPrefixFree(x.head, y.head);
    HeadOrder(x.head, y.head);
    SerUnfold(x);
    SerUnfold(y);
    LexConcat(HeadBytes(x.head), HeadBytes(y.head), x.content + SerAll(x.children), y.content + SerAll(y.children));
  }

  /** Sequences of items compare item by item. */
  lemma SequenceOrder(x: Item, y: Item, xs: seq<Item>, ys: seq<Item>)
    requires WF(x) && WF(y) && WFAll(xs) && WFAll(ys)
    ensures WFAll([x] + xs) && WFAll([y] + ys)
    ensures LexCompare(SerAll([x] + xs), SerAll([y] + ys)) ==
            if LexCompare(Ser(x), Ser(y)) != 0 then LexCompare(Ser(x), Ser(y))
            else LexCompare(SerAll(xs), SerAll(ys))
  {
    hide LeafBytes;
    WFCons(x, xs);
    WFCons(y, ys);
    SerPrefixFree(x, y);
    LexConcat(Ser(x), Ser(y), SerAll(xs), SerAll(ys));
  }
}
