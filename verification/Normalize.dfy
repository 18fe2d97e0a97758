/** Which items have a deterministic counterpart: together with uniqueness, the
    deterministic items are exactly one representative of each meaning in which no
    map gives a key two values. */
module Normalize {
  import opened Machine
  import opened Header
  import opened Item
  import opened Det
  import opened Canonical
  import opened MapInsert
  import opened Lex
  import Utf8

  // ------------------------------------------------------------------
  // Sorting entries, keeping one of equal ones
  // ------------------------------------------------------------------

  ghost function Collect(ps: seq<Pair>): (qs: seq<Pair>)
    ensures |qs| <= |ps|
  {
    if ps == [] then [] else
    var n := |ps| - 1;
    var qs := Collect(ps[..n]);
    if HasKey(qs, ps[n].key) then qs else Insert(qs, ps[n])
  }

  /** Entries with the same key are the same entry. */
  ghost predicate Functional(ps: seq<Pair>) {
    forall i, j | 0 <= i < |ps| && 0 <= j < |ps| :: ps[i].key == ps[j].key ==> ps[i] == ps[j]
  }

  ghost predicate Within(ps: seq<Pair>, qs: seq<Pair>) {
    forall i | 0 <= i < |ps| :: ps[i] in qs
  }

  /** The collected entries are strictly increasing and have the same members. */
  lemma {:induction false} CollectSorts(ps: seq<Pair>)
    requires PairsOk(ps) && Functional(ps)
    ensures PairsOk(Collect(ps)) && Ordered(Collect(ps))
    ensures Within(Collect(ps), ps) && Within(ps, Collect(ps))
  {
    hide WF, Before, Insert, HasKey, Ordered;
    if ps == [] {
      EmptyOrdered();
    } else {
      var n := |ps| - 1;
      var before, p := ps[..n], ps[n];
      assert ps == before + [p];
      CollectSorts(before);
      var qs := Collect(before);
      if HasKey(qs, p.key) {
        KeyMember(qs, ps, p);
      } else {
        InsertedMembers(qs, p);
        assert Collect(ps) == Insert(qs, p);
        forall i | 0 <= i < |ps| ensures ps[i] in Insert(qs, p) {
          assert i < n ==> ps[i] == before[i] && before[i] in qs;
        }
        forall i | 0 <= i < |Insert(qs, p)| ensures Insert(qs, p)[i] in ps {
          var q := Insert(qs, p)[i];
          assert q in Insert(qs, p);
          assert q in qs ==> q in before;
        }
      }
    }
  }

  lemma EmptyOrdered()
    ensures Ordered([])
  {
  }

  lemma KeyMember(qs: seq<Pair>, ps: seq<Pair>, p: Pair)
    requires HasKey(qs, p.key) && Within(qs, ps) && Functional(ps) && p in ps
    ensures p in qs
  {
    var i :| 0 <= i < |qs| && qs[i].key == p.key;
    assert qs[i] in ps;
  }

  lemma InsertedMembers(qs: seq<Pair>, p: Pair)
    requires PairsOk(qs) && Ordered(qs) && WF(p.key) && WF(p.value) && !HasKey(qs, p.key)
    ensures PairsOk(Insert(qs, p)) && Ordered(Insert(qs, p))
    ensures forall q :: q in Insert(qs, p) <==> q in qs || q == p
  {
    hide WF, Before, Ordered, HasKey;
    InsertOrdered(qs, p);
    InsertPermutation(qs, p);
    forall q ensures q in Insert(qs, p) <==> q in qs || q == p {
      assert q in Insert(qs, p) <==> q in multiset(Insert(qs, p));
      assert q in qs <==> q in multiset(qs);
    }
  }

  /** Keys and values of entries, alternating. */
  ghost function Flat(ps: seq<Pair>): (xs: seq<Item>)
    ensures |xs| == 2 * |ps|
    ensures forall i | 0 <= i < |ps| :: xs[2 * i] == ps[i].key && xs[2 * i + 1] == ps[i].value
  {
    seq(2 * |ps|, k requires 0 <= k < 2 * |ps| => if k % 2 == 0 then ps[k / 2].key else ps[k / 2].value)
  }

  ghost function PairUp(xs: seq<Item>): (ps: seq<Pair>)
    requires |xs| % 2 == 0
    ensures |ps| == |xs| / 2 && forall i | 0 <= i < |ps| :: ps[i] == Pair(xs[2 * i], xs[2 * i + 1])
  {
    seq(|xs| / 2, i requires 0 <= i < |xs| / 2 => Pair(xs[2 * i], xs[2 * i + 1]))
  }

  // ------------------------------------------------------------------
  // The theorem
  // ------------------------------------------------------------------

  /** This item, if a map, gives no key two values. */
  ghost predicate NodeConsistent(x: Item)
    requires WF(x)
  {
    x.head.major == MAJOR_MAP ==>
      forall i, j | 0 <= i < x.head.arg.value && 0 <= j < x.head.arg.value ::
        ValueOf(x.children[2 * i]) == ValueOf(x.children[2 * j]) ==>
        ValueOf(x.children[2 * i + 1]) == ValueOf(x.children[2 * j + 1])
  }

  /** No map at any level gives a key two values. */
  ghost predicate Consistent(x: Item)
    requires WF(x)
  {
    NodeConsistent(x) && forall i | 0 <= i < |x.children| :: Consistent(x.children[i])
  }

  ghost predicate HasDeterministic(x: Item)
    requires WF(x)
  {
    exists y :: IsDet(y) && ValueOf(y) == ValueOf(x)
  }

  /** An item's meaning has a deterministic encoding exactly when no map in it gives
      a key two values. */
  lemma {:induction false} DeterministicExists(x: Item)
    requires WF(x)
    ensures HasDeterministic(x) <==> Consistent(x)
    decreases x
  {
    hide IsDet, ValueOf, NodeConsistent, HasDeterministic, Ser;
    forall i | 0 <= i < |x.children| ensures HasDeterministic(x.children[i]) <==> Consistent(x.children[i]) {
      DeterministicExists(x.children[i]);
    }
    if HasDeterministic(x) {
      ConsistentWhenDeterministic(x);
    }
    if Consistent(x) {
      Combine(x);
    }
  }

  ghost predicate ChildrenHave(x: Item)
    requires WF(x)
  {
    forall i | 0 <= i < |x.children| :: HasDeterministic(x.children[i])
  }

  /** The entry of a deterministic counterpart that means what an entry of `x` does. */
  lemma CounterpartEntry(x: Item, y: Item, i: nat) returns (j: nat)
    requires WF(x) && IsDet(y) && ValueOf(y) == ValueOf(x) && x.head.major == MAJOR_MAP && i < x.head.arg.value
    ensures WF(y) && WFAll(x.children) && WFAll(y.children) && y.head.major == MAJOR_MAP
    ensures 2 * i + 1 < |x.children| && j < y.head.arg.value && 2 * j + 1 < |y.children|
    ensures EntryAt(y, j) == EntryAt(x, i)
  {
    hide IsDet, ValueOf, Ser, LeafOk, KeysSorted;
    Shape(y);
    SameMajor(x, y);
    EntryMeaning(x, i);
    j := EntryFound(y, EntryAt(x, i));
  }

  /** A deterministic counterpart has counterparts of all children below it, and
      cannot give a key two values. */
  lemma ConsistentWhenDeterministic(x: Item)
    requires WF(x) && HasDeterministic(x)
    ensures NodeConsistent(x) && ChildrenHave(x)
  {
    hide ValueOf, Ser, LeafOk, KeysSorted, Optimal, Sorted;
    var y :| IsDet(y) && ValueOf(y) == ValueOf(x);
    Shape(y);
    SameMajor(x, y);
    if x.head.major == MAJOR_MAP {
      EntriesHave(x, y);
      MapConsistent(x, y);
    } else if x.head.major == MAJOR_ARRAY {
      SameLists(x, y);
    } else if x.head.major == MAJOR_TAGGED {
      assert IsDet(y.children[0]);
    }
  }

  lemma EntriesHave(x: Item, y: Item)
    requires WF(x) && IsDet(y) && ValueOf(y) == ValueOf(x) && x.head.major == MAJOR_MAP
    ensures ChildrenHave(x)
  {
    hide IsDet, ValueOf, Ser, LeafOk, KeysSorted;
    Shape(y);
    forall i | 0 <= i < |x.children| ensures HasDeterministic(x.children[i]) {
      var j := CounterpartEntry(x, y, i / 2);
      assert IsDet(y.children[2 * j]) && IsDet(y.children[2 * j + 1]);
    }
  }

  lemma SameLists(x: Item, y: Item)
    requires WF(x) && WF(y) && x.head.major == MAJOR_ARRAY && y.head.major == MAJOR_ARRAY && ValueOf(x) == ValueOf(y)
    ensures |x.children| == |y.children|
    ensures forall i | 0 <= i < |x.children| :: ValueOf(x.children[i]) == ValueOf(y.children[i])
  {
    hide LeafOk, Ser;
    assert |x.children| == |ValueOf(x).values| == |y.children|;
    forall i | 0 <= i < |x.children| ensures ValueOf(x.children[i]) == ValueOf(y.children[i]) {
      assert ValueOf(x).values[i] == ValueOf(y).values[i];
    }
  }

  lemma MapConsistent(x: Item, y: Item)
    requires WF(x) && IsDet(y) && ValueOf(y) == ValueOf(x) && x.head.major == MAJOR_MAP
    ensures NodeConsistent(x)
  {
    hide IsDet, ValueOf, Ser, LeafOk, KeysSorted;
    Shape(y);
    forall i, j | 0 <= i < x.head.arg.value && 0 <= j < x.head.arg.value &&
                  ValueOf(x.children[2 * i]) == ValueOf(x.children[2 * j])
      ensures ValueOf(x.children[2 * i + 1]) == ValueOf(x.children[2 * j + 1])
    {
      var i' := CounterpartEntry(x, y, i);
      var j' := CounterpartEntry(x, y, j);
      OneEntry(y, i', j');
    }
  }

  /** In a deterministic map, keys with the same meaning are in the same place. */
  lemma OneEntry(y: Item, i: nat, j: nat)
    requires IsDet(y) && WF(y) && y.head.major == MAJOR_MAP && i < y.head.arg.value && j < y.head.arg.value
    requires ValueOf(y.children[2 * i]) == ValueOf(y.children[2 * j])
    ensures i == j
  {
    hide IsDet, ValueOf, Ser, LeafOk;
    Shape(y);
    DeterministicIsCanonical(y.children[2 * i], y.children[2 * j]);
    LexZero(Det.KeyBytes(y.children, i), Det.KeyBytes(y.children, j));
  }

  ghost function Counterpart(x: Item): (y: Item)
    requires WF(x) && HasDeterministic(x)
    ensures IsDet(y) && ValueOf(y) == ValueOf(x)
  {
    var y :| IsDet(y) && ValueOf(y) == ValueOf(x);
    y
  }

  ghost function Counterparts(x: Item): (ys: seq<Item>)
    requires WF(x) && ChildrenHave(x)
    ensures |ys| == |x.children|
    ensures forall i | 0 <= i < |ys| :: IsDet(ys[i]) && ValueOf(ys[i]) == ValueOf(x.children[i])
  {
    seq(|x.children|, i requires 0 <= i < |x.children| => Counterpart(x.children[i]))
  }

  /** The same argument, in shortest form. */
  ghost function ShortHead(h: Head): (r: Head)
    requires HeadOk(h)
    ensures HeadOk(r) && OptimalHead(r) && r.major == h.major && r.arg.value == h.arg.value
  {
    HeaderOfFields(h);
    if h.major == MAJOR_SIMPLE_VALUE then h else Head(h.major, MkRawUint64(h.arg.value))
  }

  /** From counterparts of the children to one of the item. */
  lemma Combine(x: Item)
    requires WF(x) && NodeConsistent(x) && ChildrenHave(x)
    ensures HasDeterministic(x)
  {
    hide IsDet, ValueOf, Ser, NodeConsistent, HasDeterministic, HeadOk, OptimalHead, KeysSorted, Utf8.Correct;
    var ys := Counterparts(x);
    if x.head.major == MAJOR_MAP {
      CombineMap(x, ys);
    } else {
      CombineOther(x, ys);
    }
  }

  lemma CombineOther(x: Item, ys: seq<Item>)
    requires WF(x) && x.head.major != MAJOR_MAP && |ys| == |x.children|
    requires forall i | 0 <= i < |ys| :: IsDet(ys[i]) && ValueOf(ys[i]) == ValueOf(x.children[i])
    ensures HasDeterministic(x)
  {
    hide Ser, OptimalHead, HeadOk, Utf8.Correct, Optimal, Sorted;
    LeafHead(x.head, x.content);
    var y := Item(ShortHead(x.head), x.content, ys);
    DetNode(y);
    assert ValueOf(y) == ValueOf(x);
  }

  lemma CombineMap(x: Item, ys: seq<Item>)
    requires WF(x) && x.head.major == MAJOR_MAP && |ys| == |x.children| && NodeConsistent(x)
    requires forall i | 0 <= i < |ys| :: IsDet(ys[i]) && ValueOf(ys[i]) == ValueOf(x.children[i])
    ensures HasDeterministic(x)
  {
    hide Ser, OptimalHead, HeadOk, Utf8.Correct, IsDet, ValueOf, NodeConsistent, Ordered;
    LeafHead(x.head, x.content);
    HeaderOfFields(x.head);
    var ps := PairUp(ys);
    EntriesFunctional(x, ys);
    CollectSorts(ps);
    var qs := Collect(ps);
    var y := CollectedMap(qs, ps);
    SameEntrySets(x, ys, y, qs);
  }

  lemma EntriesFunctional(x: Item, ys: seq<Item>)
    requires WF(x) && x.head.major == MAJOR_MAP && |ys| == |x.children| && NodeConsistent(x)
    requires forall i | 0 <= i < |ys| :: IsDet(ys[i]) && ValueOf(ys[i]) == ValueOf(x.children[i])
    ensures |ys| % 2 == 0 && PairsOk(PairUp(ys)) && Functional(PairUp(ys)) && |PairUp(ys)| == x.head.arg.value
  {
    hide Ser, LeafOk, Optimal, Sorted, ValueOf;
    var ps := PairUp(ys);
    forall i, j | 0 <= i < |ps| && 0 <= j < |ps| && ps[i].key == ps[j].key ensures ps[i] == ps[j] {
      assert ValueOf(x.children[2 * i]) == ValueOf(x.children[2 * j]);
      DeterministicIsCanonical(ys[2 * i + 1], ys[2 * j + 1]);
    }
  }

  /** Strictly increasing deterministic entries make a deterministic map. */
  lemma CollectedMap(qs: seq<Pair>, ps: seq<Pair>) returns (y: Item)
    requires PairsOk(qs) && Ordered(qs) && |qs| < TWO_TO_THE_64 && Within(qs, ps)
    requires forall i | 0 <= i < |ps| :: IsDet(ps[i].key) && IsDet(ps[i].value)
    ensures y == Item(Head(MAJOR_MAP, MkRawUint64(|qs|)), [], Flat(qs)) && IsDet(y)
  {
    hide IsDet, WF, Flat, Ordered, KeysSorted;
    y := Item(Head(MAJOR_MAP, MkRawUint64(|qs|)), [], Flat(qs));
    forall k | 0 <= k < |y.children| ensures IsDet(y.children[k]) {
      assert qs[k / 2] in ps;
      FlatAt(qs, k);
    }
    FlatSorted(qs);
    MapOfSorted(y);
    DetNode(y);
  }

  lemma FlatAt(qs: seq<Pair>, k: nat)
    requires k < 2 * |qs|
    ensures Flat(qs)[k] == if k % 2 == 0 then qs[k / 2].key else qs[k / 2].value
  {
  }

  lemma MapOfSorted(y: Item)
    requires y.head.major == MAJOR_MAP && y.content == [] && WFAll(y.children)
    requires y.head.arg.value < TWO_TO_THE_64 && y.head.arg == MkRawUint64(y.head.arg.value)
    requires |y.children| == 2 * y.head.arg.value && KeysSorted(y.children, y.head.arg.value)
    ensures WF(y) && OptimalHead(y.head) && NodeSorted(y)
  {
    hide Ser, KeysSorted;
  }

  lemma FlatSorted(qs: seq<Pair>)
    requires PairsOk(qs) && Ordered(qs)
    ensures WFAll(Flat(qs)) && KeysSorted(Flat(qs), |qs|)
  {
    hide Ser, WF, LexCompare;
    var xs := Flat(qs);
    forall k | 0 <= k < |xs| ensures WF(xs[k]) {
      FlatAt(qs, k);
    }
    forall i, j | 0 <= i < j < |qs| ensures LexCompare(Det.KeyBytes(xs, i), Det.KeyBytes(xs, j)) < 0 {
      assert Before(qs[i], qs[j]);
    }
  }

  lemma SameEntrySets(x: Item, ys: seq<Item>, y: Item, qs: seq<Pair>)
    requires WF(x) && x.head.major == MAJOR_MAP && |ys| == |x.children| && |ys| % 2 == 0
    requires forall i | 0 <= i < |ys| :: IsDet(ys[i]) && ValueOf(ys[i]) == ValueOf(x.children[i])
    requires |qs| < TWO_TO_THE_64 && y == Item(Head(MAJOR_MAP, MkRawUint64(|qs|)), [], Flat(qs)) && IsDet(y)
    requires Within(qs, PairUp(ys)) && Within(PairUp(ys), qs)
    ensures HasDeterministic(x)
  {
    hide IsDet, ValueOf, Flat, Ser, LeafOk;
    Shape(y);
    MapMeaning(x);
    MapMeaning(y);
    var ps := PairUp(ys);
    hide PairUp;
    forall i | 0 <= i < |ps| ensures EntryAt(x, i) in ValueOf(y).entries {
      assert ps[i] in qs;
      var j :| 0 <= j < |qs| && qs[j] == ps[i];
      EntryKept(x, ys, y, qs, i, j);
    }
    forall j | 0 <= j < |qs| ensures EntryAt(y, j) in ValueOf(x).entries {
      assert qs[j] in ps;
      var i :| 0 <= i < |ps| && ps[i] == qs[j];
      EntryKept(x, ys, y, qs, i, j);
    }
    assert ValueOf(x).entries == ValueOf(y).entries;
  }

  lemma EntryKept(x: Item, ys: seq<Item>, y: Item, qs: seq<Pair>, i: nat, j: nat)
    requires WFAll(x.children) && |ys| == |x.children| && |ys| % 2 == 0 && i < |ys| / 2
    requires forall i | 0 <= i < |ys| :: IsDet(ys[i]) && ValueOf(ys[i]) == ValueOf(x.children[i])
    requires j < |qs| && y.children == Flat(qs) && qs[j] == PairUp(ys)[i] && WFAll(y.children)
    ensures EntryAt(y, j) == EntryAt(x, i)
  {
    hide IsDet, ValueOf, WF;
  }

  /** The meaning of a map, entry by entry. */
  lemma MapMeaning(x: Item)
    requires WF(x) && x.head.major == MAJOR_MAP
    ensures WFAll(x.children) && |x.children| == 2 * x.head.arg.value && ValueOf(x).Dict?
    ensures forall i | 0 <= i < x.head.arg.value :: EntryAt(x, i) in ValueOf(x).entries
    ensures forall e | e in ValueOf(x).entries :: exists i :: 0 <= i < x.head.arg.value && EntryAt(x, i) == e
  {
    hide Ser, LeafOk, ValueOf;
    assert ValueOf(x).Dict? by {
      MeaningOfMap(x);
    }
    forall i | 0 <= i < x.head.arg.value ensures EntryAt(x, i) in ValueOf(x).entries {
      EntryMeaning(x, i);
    }
    forall e | e in ValueOf(x).entries ensures exists i :: 0 <= i < x.head.arg.value && EntryAt(x, i) == e {
      var i := EntryFound(x, e);
    }
  }

  lemma MeaningOfMap(x: Item)
    requires WF(x) && x.head.major == MAJOR_MAP
    ensures ValueOf(x).Dict?
  {
  }
}
