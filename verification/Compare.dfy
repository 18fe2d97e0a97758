/** Comparing two objects as trees, without serializing them. */
module Compare {
  import opened Machine
  import opened Lex
  import opened Header
  import opened Item
  import opened Raw
  import opened Iterator

  /** The order of the encodings of two items. */
  ghost function ItemCompare(x: Item, y: Item): int
    requires WF(x) && WF(y)
  {
    LexCompare(Ser(x), Ser(y))
  }

  ghost function ItemsCompare(xs: seq<Item>, ys: seq<Item>): int
    requires WFAll(xs) && WFAll(ys)
  {
    LexCompare(SerAll(xs), SerAll(ys))
  }

  /** What follows the head of an item. */
  ghost function Body(x: Item): seq<byte>
    requires WF(x)
  {
    x.content + SerAll(x.children)
  }

  function MajorType(x: CborRaw): byte {
    match x
    case CaseSimple(_) => MAJOR_SIMPLE_VALUE
    case CaseInt(ty, _, _) => ty
    case CaseString(ty, _, _) => ty
    case CaseTagged(_, _) => MAJOR_TAGGED
    case CaseSerializedTagged(_, _) => MAJOR_TAGGED
    case CaseArray(_, _) => MAJOR_ARRAY
    case CaseSerializedArray(_, _) => MAJOR_ARRAY
    case CaseMap(_, _) => MAJOR_MAP
    case CaseSerializedMap(_, _) => MAJOR_MAP
  }

  predicate IsTagged(x: CborRaw) { x.CaseTagged? || x.CaseSerializedTagged? }
  predicate IsArray(x: CborRaw) { x.CaseArray? || x.CaseSerializedArray? }
  predicate IsMap(x: CborRaw) { x.CaseMap? || x.CaseSerializedMap? }

  /** The major type of a valid object tells its cases. */
  lemma MajorTypeCases(x: CborRaw)
    requires Valid(x)
    ensures MajorType(x) == AbsHead(x).major
    ensures x.CaseInt? <==> MajorType(x) in {MAJOR_UINT64, MAJOR_NEG_INT64}
    ensures x.CaseString? <==> MajorType(x) in {MAJOR_BYTE_STRING, MAJOR_TEXT_STRING}
    ensures IsTagged(x) <==> MajorType(x) == MAJOR_TAGGED
    ensures IsArray(x) <==> MajorType(x) == MAJOR_ARRAY
    ensures IsMap(x) <==> MajorType(x) == MAJOR_MAP
    ensures x.CaseSimple? <==> MajorType(x) == MAJOR_SIMPLE_VALUE
    ensures x.CaseString? ==> |x.stringPtr| <= USIZE_MAX
    ensures IsTagged(x) ==> AbsHead(x).arg == TaggedTag(x)
    ensures IsArray(x) ==> AbsHead(x).arg == ArrayLength(x)
    ensures IsMap(x) ==> AbsHead(x).arg == MapLength(x)
  {
    hide ParseItems;
  }

  function TaggedTag(c: CborRaw): RawUint64
    requires IsTagged(c)
  {
    match c
    case CaseTagged(tag, _) => tag
    case CaseSerializedTagged(h, _) => h
  }

  function ArrayLength(c: CborRaw): RawUint64
    requires IsArray(c)
  {
    match c
    case CaseArray(size, ptr) => RawUint64(size, |ptr|)
    case CaseSerializedArray(h, _) => h
  }

  function MapLength(c: CborRaw): RawUint64
    requires IsMap(c)
  {
    match c
    case CaseMap(size, ptr) => RawUint64(size, |ptr|)
    case CaseSerializedMap(h, _) => h
  }

  /** The object under a tag. */
  method TaggedPayload(c: CborRaw) returns (r: CborRaw)
    requires Valid(c) && IsTagged(c)
    ensures Valid(r) && Abs(c).children == [Abs(r)]
    ensures c.CaseTagged? ==> r == c.taggedPtr[0]
  {
    hide ParseItems, WF, Ser;
    match c {
      case CaseTagged(_, ptr) => r := ptr[0];
      case CaseSerializedTagged(_, payload) =>
        PayloadItems(payload, 1);
        ghost var x := ItemsOf(payload, 1)[0];
        SerSingle(x);
        assert ItemsOf(payload, 1) == [x];
        CborReadItem(payload, x);
        r := CborRead(payload);
    }
  }

  /** Valid objects compare by major type and argument first, then by what
      follows the head. */
  lemma ObjectOrder(x1: CborRaw, x2: CborRaw)
    requires Valid(x1) && Valid(x2)
    ensures WF(Abs(x1)) && WF(Abs(x2))
    ensures MajorType(x1) == AbsHead(x1).major && MajorType(x2) == AbsHead(x2).major
    ensures MajorType(x1) != MajorType(x2) ==>
              ItemCompare(Abs(x1), Abs(x2)) == CompareInt(MajorType(x1), MajorType(x2))
    ensures MajorType(x1) == MajorType(x2) ==>
              var c := CompareRawUint64(AbsHead(x1).arg, AbsHead(x2).arg);
              (c != 0 ==> ItemCompare(Abs(x1), Abs(x2)) == c) &&
              (c == 0 ==> AbsHead(x1) == AbsHead(x2)) &&
              (c == 0 ==> ItemCompare(Abs(x1), Abs(x2)) == LexCompare(Body(Abs(x1)), Body(Abs(x2))))
  {
    hide ParseItems, LexCompare, Ser, SerAll;
    ValidAbs(x1);
    ValidAbs(x2);
    ItemOrder(Abs(x1), Abs(x2));
  }

  /** The same, for objects without string bytes. */
  lemma CompositeOrder(x1: CborRaw, x2: CborRaw)
    requires Valid(x1) && Valid(x2)
    requires MajorType(x1) == MajorType(x2) && MajorType(x1) in {MAJOR_ARRAY, MAJOR_MAP, MAJOR_TAGGED}
    requires CompareRawUint64(AbsHead(x1).arg, AbsHead(x2).arg) == 0
    ensures WF(Abs(x1)) && WF(Abs(x2))
    ensures |Abs(x1).children| == |Abs(x2).children|
    ensures ItemCompare(Abs(x1), Abs(x2)) == ItemsCompare(Abs(x1).children, Abs(x2).children)
  {
    hide ParseItems, LexCompare, Ser, SerAll;
    ObjectOrder(x1, x2);
    var c1, c2 := Abs(x1).children, Abs(x2).children;
    assert [] + SerAll(c1) == SerAll(c1) && [] + SerAll(c2) == SerAll(c2);
  }

  /** Two payloads of serialized objects are the encodings of their children. */
  lemma SerializedPayload(x: CborRaw)
    requires Valid(x) && (x.CaseSerializedArray? || x.CaseSerializedMap? || x.CaseSerializedTagged?)
    ensures WF(Abs(x)) && SerAll(Abs(x).children) == x.payload && |x.payload| <= USIZE_MAX
  {
    hide ParseItems, WF, Ser, SerAll;
    ValidAbs(x);
    PayloadItems(x.payload, if x.CaseSerializedTagged? then 1
                            else if x.CaseSerializedArray? then x.header.value else 2 * x.header.value);
  }

  lemma ChildSmaller(x: Item, y: Item)
    requires y in x.children
    ensures y < x
  {
  }

  /** Comparing trees refines comparing their encodings, whichever parts are
      constructed and whichever still serialized. */
  method CompareWithDepth(x1: CborRaw, x2: CborRaw) returns (c: int)
    requires Valid(x1) && Valid(x2)
    ensures c == LexCompare(Enc(x1), Enc(x2))
    decreases Abs(x1), 1
  {
    hide ParseItems, LexCompare, WF, Ser, SerAll, Valid, MajorType, AbsHead;
    MajorTypeCases(x1);
    MajorTypeCases(x2);
    ObjectOrder(x1, x2);
    var ty1 := MajorType(x1);
    var ty2 := MajorType(x2);
    c := CompareInt(ty1, ty2);
    if c != 0 {
      return;
    }
    if ty1 == MAJOR_UINT64 || ty1 == MAJOR_NEG_INT64 {
      c := CompareRawUint64(RawUint64(x1.intSize, x1.intValue), RawUint64(x2.intSize, x2.intValue));
      SameLeaf(x1, x2);
    } else if ty1 == MAJOR_BYTE_STRING || ty1 == MAJOR_TEXT_STRING {
      StringOrder(x1, x2);
      c := CompareRawUint64(RawUint64(x1.stringSize, |x1.stringPtr|), RawUint64(x2.stringSize, |x2.stringPtr|));
      if c == 0 {
        c := Lex.LexCompareBytes(x1.stringPtr, x2.stringPtr);
      }
    } else if ty1 == MAJOR_TAGGED {
      c := CompareRawUint64(TaggedTag(x1), TaggedTag(x2));
      if c == 0 {
        CompositeOrder(x1, x2);
        if x1.CaseSerializedTagged? && x2.CaseSerializedTagged? {
          c := CompareSerialized(x1, x2);
        } else {
          c := ComparePayloads(x1, x2);
        }
      }
    } else if ty1 == MAJOR_ARRAY {
      c := CompareRawUint64(ArrayLength(x1), ArrayLength(x2));
      if c == 0 {
        CompositeOrder(x1, x2);
        if x1.CaseSerializedArray? && x2.CaseSerializedArray? {
          c := CompareSerialized(x1, x2);
        } else {
          c := CompareArrays(x1, x2);
        }
      }
    } else if ty1 == MAJOR_MAP {
      c := CompareRawUint64(MapLength(x1), MapLength(x2));
      if c == 0 {
        CompositeOrder(x1, x2);
        if x1.CaseSerializedMap? && x2.CaseSerializedMap? {
          c := CompareSerialized(x1, x2);
        } else {
          c := CompareMaps(x1, x2);
        }
      }
    } else {
      c := CompareInt(x1.simple, x2.simple);
      SameLeaf(x1, x2);
    }
  }

  /** Objects that are both still serialized compare by their payloads. */
  method CompareSerialized(x1: CborRaw, x2: CborRaw) returns (c: int)
    requires Valid(x1) && Valid(x2)
    requires (x1.CaseSerializedTagged? && x2.CaseSerializedTagged?)
             || (x1.CaseSerializedArray? && x2.CaseSerializedArray?)
             || (x1.CaseSerializedMap? && x2.CaseSerializedMap?)
    ensures WF(Abs(x1)) && WF(Abs(x2))
    ensures c == ItemsCompare(Abs(x1).children, Abs(x2).children)
  {
    hide ParseItems, LexCompare, WF, Ser, SerAll, Valid;
    SerializedPayload(x1);
    SerializedPayload(x2);
    c := Lex.LexCompareBytes(x1.payload, x2.payload);
  }

  /** Tagged objects with the same tag, at least one of them constructed. */
  method ComparePayloads(x1: CborRaw, x2: CborRaw) returns (c: int)
    requires Valid(x1) && Valid(x2) && IsTagged(x1) && IsTagged(x2)
    ensures WF(Abs(x1)) && WF(Abs(x2))
    ensures c == ItemsCompare(Abs(x1).children, Abs(x2).children)
    decreases Abs(x1), 0
  {
    hide ParseItems, LexCompare, WF, Ser, SerAll, Valid;
    ValidAbs(x1);
    ValidAbs(x2);
    var pl1 := TaggedPayload(x1);
    var pl2 := TaggedPayload(x2);
    ValidAbs(pl1);
    ValidAbs(pl2);
    SerSingle(Abs(pl1));
    SerSingle(Abs(pl2));
    ChildSmaller(Abs(x1), Abs(pl1));
    c := CompareWithDepth(pl1, pl2);
  }

  /** Objects with nothing after their heads compare by them. */
  lemma SameLeaf(x1: CborRaw, x2: CborRaw)
    requires Valid(x1) && Valid(x2) && MajorType(x1) == MajorType(x2)
    requires (x1.CaseInt? && x2.CaseInt?) || (x1.CaseSimple? && x2.CaseSimple?)
    ensures WF(Abs(x1)) && WF(Abs(x2))
    ensures ItemCompare(Abs(x1), Abs(x2)) ==
            if x1.CaseInt? then CompareRawUint64(RawUint64(x1.intSize, x1.intValue), RawUint64(x2.intSize, x2.intValue))
            else CompareInt(x1.simple, x2.simple)
  {
    hide ParseItems, LexCompare, WF, Ser;
    ObjectOrder(x1, x2);
    Lex.LexZero([], []);
    assert Abs(x1).content + SerAll(Abs(x1).children) == [] == Abs(x2).content + SerAll(Abs(x2).children);
  }

  lemma StringOrder(x1: CborRaw, x2: CborRaw)
    requires Valid(x1) && Valid(x2) && x1.CaseString? && x2.CaseString? && MajorType(x1) == MajorType(x2)
    ensures WF(Abs(x1)) && WF(Abs(x2))
    ensures var c := CompareRawUint64(RawUint64(x1.stringSize, |x1.stringPtr|),
                                      RawUint64(x2.stringSize, |x2.stringPtr|));
            ItemCompare(Abs(x1), Abs(x2)) == if c != 0 then c else LexCompare(x1.stringPtr, x2.stringPtr)
  {
    hide ParseItems, LexCompare, WF, Ser;
    ObjectOrder(x1, x2);
    assert x1.stringPtr + SerAll([]) == x1.stringPtr && x2.stringPtr + SerAll([]) == x2.stringPtr;
  }

  ghost predicate Tail(children: seq<Item>, left: seq<Item>) {
    |left| <= |children| && left == children[|children| - |left|..]
  }

  /** Where a loop over two iterators stands: the items left on each side are
      tails of the children, of the same length, and decide the comparison
      unless it is already decided. */
  ghost predicate Progress(c1: seq<Item>, c2: seq<Item>, l1: seq<Item>, l2: seq<Item>, res: int) {
    && WFAll(c1) && WFAll(c2) && WFAll(l1) && WFAll(l2)
    && Tail(c1, l1) && Tail(c2, l2) && |l1| == |l2|
    && ItemsCompare(c1, c2) == if res != 0 then res else ItemsCompare(l1, l2)
  }

  lemma ProgressStart(c1: seq<Item>, c2: seq<Item>)
    requires WFAll(c1) && WFAll(c2) && |c1| == |c2|
    ensures Progress(c1, c2, c1, c2, 0)
  {
    hide ItemsCompare, WFAll;
  }

  /** Taking the same number of items off each side, which compare as `c`. */
  lemma ProgressStep(c1: seq<Item>, c2: seq<Item>, f1: seq<Item>, f2: seq<Item>, r1: seq<Item>, r2: seq<Item>, c: int)
    requires WFAll(r1) && WFAll(r2) && |f1| == |f2|
    requires Progress(c1, c2, f1 + r1, f2 + r2, 0)
    requires ItemsCompare(f1 + r1, f2 + r2) == if c != 0 then c else ItemsCompare(r1, r2)
    ensures Progress(c1, c2, r1, r2, c)
  {
    hide ItemsCompare, WFAll;
  }

  lemma ProgressEnd(c1: seq<Item>, c2: seq<Item>, res: int, l1: seq<Item>, l2: seq<Item>)
    requires Progress(c1, c2, l1, l2, res)
    requires res == 0 ==> l1 == []
    ensures WFAll(c1) && WFAll(c2) && res == ItemsCompare(c1, c2)
  {
    hide WFAll;
    if res == 0 {
      EmptyOrder(l1, l2);
    }
  }

  /** The items taken off are children. */
  lemma HeadIsChild(c1: seq<Item>, c2: seq<Item>, l1: seq<Item>, l2: seq<Item>, first: seq<Item>, next: seq<Item>)
    requires Progress(c1, c2, l1, l2, 0) && l1 == first + next
    ensures forall i | 0 <= i < |first| :: first[i] in c1
  {
    hide ItemsCompare, WFAll;
    forall i | 0 <= i < |first| ensures first[i] in c1 {
      assert first[i] == c1[|c1| - |l1| + i];
    }
  }

  lemma ProgressLength(c1: seq<Item>, c2: seq<Item>, l1: seq<Item>, l2: seq<Item>, res: int)
    requires Progress(c1, c2, l1, l2, res)
    ensures |l1| == |l2|
  {
    hide ItemsCompare, WFAll;
  }

  /** Arrays of the same length, at least one of them constructed. */
  method CompareArrays(x1: CborRaw, x2: CborRaw) returns (res: int)
    requires Valid(x1) && Valid(x2)
    requires IsArray(x1) && IsArray(x2)
    requires |Abs(x1).children| == |Abs(x2).children|
    ensures WF(Abs(x1)) && WF(Abs(x2))
    ensures res == ItemsCompare(Abs(x1).children, Abs(x2).children)
    decreases Abs(x1), 0
  {
    hide ParseItems, LexCompare, WF, Ser, SerAll, Valid, AbsAll;
    hide ArrayIteratorOk, ArrayItems, ItemsCompare, Progress, Tail;
    ValidAbs(x1);
    ValidAbs(x2);
    ghost var c1, c2 := Abs(x1).children, Abs(x2).children;
    SerUnfold(Abs(x1)); SerUnfold(Abs(x2));
    InitYieldsChildren(x1);
    InitYieldsChildren(x2);
    var pl1 := ArrayIteratorInit(x1);
    var pl2 := ArrayIteratorInit(x2);
    ArrayItemsLength(pl1);
    ArrayItemsLength(pl2);
    if ArrayLength(x1).value == 0 {
      EmptyOrder(c1, c2);
      return 0;
    }
    var fin1 := ArrayIteratorIsEmpty(pl1);
    var fin2 := ArrayIteratorIsEmpty(pl2);
    if fin1 {
      EmptyOrder(c1, c2);
      return if fin2 then 0 else -1;
    } else if fin2 {
      return 1;
    }
    var pi1 := new ArrayIterator[1](_ => pl1);
    var pi2 := new ArrayIterator[1](_ => pl2);
    res := 0;
    ProgressStart(c1, c2);
    var pfin1 := false;
    while res == 0 && !pfin1
      invariant ArrayIteratorOk(pi1[0]) && ArrayIteratorOk(pi2[0])
      invariant Progress(c1, c2, ArrayItems(pi1[0]), ArrayItems(pi2[0]), res)
      invariant res == 0 ==> (pfin1 <==> ArrayItems(pi1[0]) == [])
      decreases |ArrayItems(pi1[0])|
    {
      ghost var i1, i2 := ArrayItems(pi1[0]), ArrayItems(pi2[0]);
      ProgressLength(c1, c2, i1, i2, 0);
      ArrayItemsLength(pi1[0]);
      ArrayItemsLength(pi2[0]);
      var elt1 := ArrayIteratorNext(pi1);
      var elt2 := ArrayIteratorNext(pi2);
      ghost var r1, r2 := ArrayItems(pi1[0]), ArrayItems(pi2[0]);
      ArrayItemsLength(pi1[0]);
      ArrayItemsLength(pi2[0]);
      ghost var first1, first2 := [Abs(elt1)], [Abs(elt2)];
      HeadIsChild(c1, c2, i1, i2, first1, r1);
      ElementOrder(elt1, elt2, r1, r2);
      assert Abs(elt1) == first1[0];
      ChildSmaller(Abs(x1), Abs(elt1));
      var c := CompareWithDepth(elt1, elt2);
      ProgressStep(c1, c2, first1, first2, r1, r2, c);
      ProgressLength(c1, c2, r1, r2, c);
      if c == 0 {
        var fin1' := ArrayIteratorIsEmpty(pi1[0]);
        var fin2' := ArrayIteratorIsEmpty(pi2[0]);
        if fin1' == fin2' {
          pfin1 := fin1';
        } else if fin1' {
          res := -1;
        } else {
          res := 1;
        }
      } else {
        res := c;
      }
    }
    ProgressEnd(c1, c2, res, ArrayItems(pi1[0]), ArrayItems(pi2[0]));
  }

  /** Maps of the same length, at least one of them constructed. */
  method CompareMaps(x1: CborRaw, x2: CborRaw) returns (res: int)
    requires Valid(x1) && Valid(x2)
    requires IsMap(x1) && IsMap(x2)
    requires |Abs(x1).children| == |Abs(x2).children|
    ensures WF(Abs(x1)) && WF(Abs(x2))
    ensures res == ItemsCompare(Abs(x1).children, Abs(x2).children)
    decreases Abs(x1), 0
  {
    hide ParseItems, LexCompare, WF, Ser, SerAll, Valid, AbsEntries;
    hide MapIteratorOk, MapItems, ItemsCompare, Progress, Tail;
    ValidAbs(x1);
    ValidAbs(x2);
    ghost var c1, c2 := Abs(x1).children, Abs(x2).children;
    SerUnfold(Abs(x1)); SerUnfold(Abs(x2));
    InitYieldsChildren(x1);
    InitYieldsChildren(x2);
    var pl1 := MapIteratorInit(x1);
    var pl2 := MapIteratorInit(x2);
    MapItemsLength(pl1);
    MapItemsLength(pl2);
    if MapLength(x1).value == 0 {
      EmptyOrder(c1, c2);
      return 0;
    }
    var fin1 := MapIteratorIsEmpty(pl1);
    var fin2 := MapIteratorIsEmpty(pl2);
    if fin1 {
      EmptyOrder(c1, c2);
      return if fin2 then 0 else -1;
    } else if fin2 {
      return 1;
    }
    var pi1 := new MapIterator[1](_ => pl1);
    var pi2 := new MapIterator[1](_ => pl2);
    res := 0;
    ProgressStart(c1, c2);
    var pfin1 := false;
    while res == 0 && !pfin1
      invariant MapIteratorOk(pi1[0]) && MapIteratorOk(pi2[0])
      invariant Progress(c1, c2, MapItems(pi1[0]), MapItems(pi2[0]), res)
      invariant res == 0 ==> (pfin1 <==> MapItems(pi1[0]) == [])
      decreases |MapItems(pi1[0])|
    {
      ghost var i1, i2 := MapItems(pi1[0]), MapItems(pi2[0]);
      ProgressLength(c1, c2, i1, i2, 0);
      MapItemsLength(pi1[0]);
      MapItemsLength(pi2[0]);
      var elt1 := MapIteratorNext(pi1);
      var elt2 := MapIteratorNext(pi2);
      ghost var r1, r2 := MapItems(pi1[0]), MapItems(pi2[0]);
      MapItemsLength(pi1[0]);
      MapItemsLength(pi2[0]);
      ghost var first1, first2 := [Abs(elt1.key), Abs(elt1.value)], [Abs(elt2.key), Abs(elt2.value)];
      HeadIsChild(c1, c2, i1, i2, first1, r1);
      EntryOrder(elt1, elt2, r1, r2);
      assert Abs(elt1.key) == first1[0] && Abs(elt1.value) == first1[1];
      ChildSmaller(Abs(x1), Abs(elt1.key));
      ChildSmaller(Abs(x1), Abs(elt1.value));
      var c := CompareWithDepth(elt1.key, elt2.key);
      if c == 0 {
        c := CompareWithDepth(elt1.value, elt2.value);
      }
      ProgressStep(c1, c2, first1, first2, r1, r2, c);
      ProgressLength(c1, c2, r1, r2, c);
      if c == 0 {
        var fin1' := MapIteratorIsEmpty(pi1[0]);
        var fin2' := MapIteratorIsEmpty(pi2[0]);
        if fin1' == fin2' {
          pfin1 := fin1';
        } else if fin1' {
          res := -1;
        } else {
          res := 1;
        }
      } else {
        res := c;
      }
    }
    ProgressEnd(c1, c2, res, MapItems(pi1[0]), MapItems(pi2[0]));
  }

  lemma EmptyOrder(xs: seq<Item>, ys: seq<Item>)
    requires xs == [] && ys == []
    ensures ItemsCompare(xs, ys) == 0
  {
    Lex.LexZero([], []);
  }

  lemma ElementOrder(e1: CborRaw, e2: CborRaw, r1: seq<Item>, r2: seq<Item>)
    requires Valid(e1) && Valid(e2) && WFAll(r1) && WFAll(r2)
    ensures WFAll([Abs(e1)] + r1) && WFAll([Abs(e2)] + r2)
    ensures ItemsCompare([Abs(e1)] + r1, [Abs(e2)] + r2) ==
            if LexCompare(Enc(e1), Enc(e2)) != 0 then LexCompare(Enc(e1), Enc(e2)) else ItemsCompare(r1, r2)
  {
    ValidAbs(e1);
    ValidAbs(e2);
    hide LexCompare, WF, Ser, SerAll, Valid, Abs;
    SequenceOrder(Abs(e1), Abs(e2), r1, r2);
  }

  /** Entries compare by key, then by value. */
  lemma EntryOrder(e1: MapEntry, e2: MapEntry, r1: seq<Item>, r2: seq<Item>)
    requires ValidEntry(e1) && ValidEntry(e2) && WFAll(r1) && WFAll(r2)
    ensures WFAll([Abs(e1.key), Abs(e1.value)] + r1) && WFAll([Abs(e2.key), Abs(e2.value)] + r2)
    ensures ItemsCompare([Abs(e1.key), Abs(e1.value)] + r1, [Abs(e2.key), Abs(e2.value)] + r2) ==
            if LexCompare(Enc(e1.key), Enc(e2.key)) != 0 then LexCompare(Enc(e1.key), Enc(e2.key))
            else if LexCompare(Enc(e1.value), Enc(e2.value)) != 0 then LexCompare(Enc(e1.value), Enc(e2.value))
            else ItemsCompare(r1, r2)
  {
    hide LexCompare, WF, Ser, SerAll, Valid, Abs;
    ValidAbs(e1.key); ValidAbs(e1.value);
    ValidAbs(e2.key); ValidAbs(e2.value);
    var k1, v1, k2, v2 := Abs(e1.key), Abs(e1.value), Abs(e2.key), Abs(e2.value);
    assert [k1, v1] + r1 == [k1] + ([v1] + r1) && [k2, v2] + r2 == [k2] + ([v2] + r2);
    SequenceOrder(v1, v2, r1, r2);
    SequenceOrder(k1, k2, [v1] + r1, [v2] + r2);
  }
}
