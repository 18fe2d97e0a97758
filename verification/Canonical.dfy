/** Why deterministic encoding matters: items with the same meaning have the same
    encoding.  The meaning forgets how wide arguments are and how maps are ordered. */
module Canonical {
  import opened Machine
  import opened Lex
  import opened Header
  import opened Item
  import opened Det
  import MapInsert

  /** The data model: maps are unordered collections of entries. */
  datatype Value =
    | Atom(major: byte, argument: nat, content: seq<byte>)
    | List(values: seq<Value>)
    | Tagged(tag: nat, value: Value)
    | Dict(entries: set<Entry>)

  datatype Entry = Entry(key: Value, value: Value)

  /** The meaning of an item. */
  ghost function ValueOf(x: Item): Value
    requires WF(x)
  {
    if x.head.major == MAJOR_ARRAY then
      List(seq(|x.children|, i requires 0 <= i < |x.children| => ValueOf(x.children[i])))
    else if x.head.major == MAJOR_TAGGED then Tagged(x.head.arg.value, ValueOf(x.children[0]))
    else if x.head.major == MAJOR_MAP then
      Dict(set i | 0 <= i < x.head.arg.value :: Entry(ValueOf(x.children[2 * i]), ValueOf(x.children[2 * i + 1])))
    else Atom(x.head.major, x.head.arg.value, x.content)
  }

  /** Of deterministic items with the same head, one is determined by its parts. */
  lemma SameArgument(x: Item, y: Item)
    requires IsDet(x) && IsDet(y) && x.head.major == y.head.major && x.head.arg.value == y.head.arg.value
    ensures x.head == y.head
  {
    hide Ser, Sorted;
    if x.head.major != MAJOR_SIMPLE_VALUE {
      OptimalIsShortest(x.head.arg);
      OptimalIsShortest(y.head.arg);
    }
  }

  /** Items with nothing nested in them. */
  predicate IsAtom(x: Item) {
    x.head.major != MAJOR_ARRAY && x.head.major != MAJOR_TAGGED && x.head.major != MAJOR_MAP
  }

  lemma Shape(x: Item)
    requires IsDet(x)
    ensures WF(x) && |x.children| == Count(x.head) && WFAll(x.children)
    ensures !IsString(x.head) ==> x.content == []
    ensures forall i | 0 <= i < |x.children| :: IsDet(x.children[i])
    ensures x.head.major == MAJOR_MAP ==> KeysSorted(x.children, x.head.arg.value)
  {
    hide Ser, KeysSorted;
  }

  /** Deterministic items with the same meaning are the same item, so that they
      have the same encoding. */
  lemma {:induction false} DeterministicIsCanonical(x: Item, y: Item)
    requires IsDet(x) && IsDet(y) && ValueOf(x) == ValueOf(y)
    ensures x == y
    decreases x
  {
    hide IsDet, WF, KeysSorted, Ser, ValueOf;
    Shape(x);
    Shape(y);
    SameMajor(x, y);
    forall i, j | 0 <= i < |x.children| && 0 <= j < |y.children| && ValueOf(x.children[i]) == ValueOf(y.children[j])
      ensures x.children[i] == y.children[j]
    {
      DeterministicIsCanonical(x.children[i], y.children[j]);
    }
    if x.head.major == MAJOR_ARRAY {
      SameElements(x, y);
    } else if x.head.major == MAJOR_MAP {
      SameEntries(x, y);
    } else if x.head.major == MAJOR_TAGGED {
      assert x.children[0] == y.children[0];
      assert x.children == y.children;
    }
    SameArgument(x, y);
  }

  /** The meaning of children tells them apart. */
  ghost predicate Faithful(x: Item, y: Item)
    requires WFAll(x.children) && WFAll(y.children)
  {
    forall i, j | 0 <= i < |x.children| && 0 <= j < |y.children| ::
      ValueOf(x.children[i]) == ValueOf(y.children[j]) ==> x.children[i] == y.children[j]
  }

  lemma SameElements(x: Item, y: Item)
    requires WF(x) && WF(y) && WFAll(x.children) && WFAll(y.children) && Faithful(x, y)
    requires x.head.major == MAJOR_ARRAY && y.head.major == MAJOR_ARRAY && ValueOf(x) == ValueOf(y)
    ensures x.children == y.children && x.head.arg.value == y.head.arg.value
  {
    assert |x.children| == |ValueOf(x).values| == |y.children|;
    forall i | 0 <= i < |x.children| ensures x.children[i] == y.children[i] {
      assert ValueOf(x).values[i] == ValueOf(y).values[i];
    }
  }

  lemma SameEntries(x: Item, y: Item)
    requires WF(x) && WF(y) && WFAll(x.children) && WFAll(y.children) && Faithful(x, y)
    requires x.head.major == MAJOR_MAP && y.head.major == MAJOR_MAP && ValueOf(x) == ValueOf(y)
    requires |x.children| == 2 * x.head.arg.value && |y.children| == 2 * y.head.arg.value
    requires KeysSorted(x.children, x.head.arg.value) && KeysSorted(y.children, y.head.arg.value)
    ensures x.children == y.children && x.head.arg.value == y.head.arg.value
  {
    hide WF, Ser, KeysSorted, MapInsert.Ordered, ValueOf, Pairs;
    PairsOrdered(x);
    PairsOrdered(y);
    EntriesContained(x, y);
    EntriesContained(y, x);
    MapInsert.OrderedSetUnique(Pairs(x), Pairs(y));
    PairsDetermine(x, y);
  }

  /** Maps with the same meaning have the same entries. */
  lemma EntriesContained(x: Item, y: Item)
    requires WF(x) && WF(y) && WFAll(x.children) && WFAll(y.children) && Faithful(x, y)
    requires x.head.major == MAJOR_MAP && y.head.major == MAJOR_MAP && ValueOf(x) == ValueOf(y)
    requires |x.children| == 2 * x.head.arg.value && |y.children| == 2 * y.head.arg.value
    ensures forall i | 0 <= i < |Pairs(x)| :: Pairs(x)[i] in Pairs(y)
  {
    hide WF, Ser, ValueOf;
    forall i | 0 <= i < |Pairs(x)| ensures Pairs(x)[i] in Pairs(y) {
      EntryMeaning(x, i);
      var j := EntryFound(y, EntryAt(x, i));
      assert Pairs(y)[j] == Pairs(x)[i];
    }
  }

  ghost function EntryAt(x: Item, i: nat): Entry
    requires WFAll(x.children) && 2 * i + 1 < |x.children|
  {
    Entry(ValueOf(x.children[2 * i]), ValueOf(x.children[2 * i + 1]))
  }

  lemma EntryMeaning(x: Item, i: nat)
    requires WF(x) && WFAll(x.children) && x.head.major == MAJOR_MAP && i < x.head.arg.value
    ensures 2 * i + 1 < |x.children|
    ensures ValueOf(x).Dict? && EntryAt(x, i) in ValueOf(x).entries
  {
    hide Ser;
  }

  lemma EntryFound(x: Item, e: Entry) returns (i: nat)
    requires WF(x) && WFAll(x.children) && x.head.major == MAJOR_MAP
    requires ValueOf(x).Dict? && e in ValueOf(x).entries
    ensures i < x.head.arg.value && 2 * i + 1 < |x.children| && EntryAt(x, i) == e
  {
    hide Ser;
    i :| 0 <= i < x.head.arg.value && e == Entry(ValueOf(x.children[2 * i]), ValueOf(x.children[2 * i + 1]));
  }

  lemma SameMajor(x: Item, y: Item)
    requires WF(x) && WF(y) && ValueOf(x) == ValueOf(y)
    ensures x.head.major == y.head.major
    ensures IsAtom(x) ==>
              x.children == y.children == [] && x.head.arg.value == y.head.arg.value && x.content == y.content
    ensures x.head.major == MAJOR_TAGGED ==> |x.children| == |y.children| == 1 && x.head.arg.value == y.head.arg.value
    ensures x.head.major == MAJOR_TAGGED ==> WF(x.children[0]) && WF(y.children[0]) &&
                                             ValueOf(x.children[0]) == ValueOf(y.children[0])
  {
  }

  /** The entries of a map item. */
  ghost function Pairs(x: Item): (ps: seq<MapInsert.Pair>)
    requires WF(x) && x.head.major == MAJOR_MAP
    ensures |ps| == x.head.arg.value
  {
    seq(x.head.arg.value, i requires 0 <= i < x.head.arg.value =>
          MapInsert.Pair(x.children[2 * i], x.children[2 * i + 1]))
  }

  lemma PairsOrdered(x: Item)
    requires WF(x) && x.head.major == MAJOR_MAP && WFAll(x.children) && |x.children| == 2 * x.head.arg.value
    requires KeysSorted(x.children, x.head.arg.value)
    ensures MapInsert.Ordered(Pairs(x))
  {
    hide WF, Ser, LexCompare;
    var ps := Pairs(x);
    forall i, j | 0 <= i < j < |ps| ensures MapInsert.Before(ps[i], ps[j]) {
      assert LexCompare(Det.KeyBytes(x.children, i), Det.KeyBytes(x.children, j)) < 0;
    }
  }

  lemma PairsDetermine(x: Item, y: Item)
    requires WF(x) && WF(y) && x.head.major == MAJOR_MAP && y.head.major == MAJOR_MAP && Pairs(x) == Pairs(y)
    ensures x.children == y.children && x.head.arg.value == y.head.arg.value
  {
    hide LeafOk, Ser;
    assert |x.children| == 2 * |Pairs(x)| == |y.children|;
    forall k | 0 <= k < |x.children| ensures x.children[k] == y.children[k] {
      assert Pairs(x)[k / 2] == Pairs(y)[k / 2];
    }
  }
}
