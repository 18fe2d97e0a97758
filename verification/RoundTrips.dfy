/** Callers of the interface: what is put together is taken apart again, and what is
    taken apart is put together again. */
module RoundTrips {
  import opened Machine
  import opened Header
  import opened Raw
  import opened Iterator
  import opened Sort
  import opened Compare
  import opened Api
  import opened Access
  import Utf8

  // ------------------------------------------------------------------
  // Constructing, then destructing
  // ------------------------------------------------------------------

  method DestructInt64(kind: IntKind, n: u64) returns (v: View)
    ensures v == ViewInt64(kind, n)
  {
    hide Valid, Enc;
    var x := MkInt64(kind, n);
    ObjectMajor(x);
    v := Destruct(x);
  }

  method DestructString(kind: StringKind, s: seq<byte>) returns (v: Option<View>)
    requires |s| <= USIZE_MAX
    ensures v == if kind.TextString? && !Utf8.Correct(s) then None else Some(ViewString(kind, s))
  {
    hide Valid, Enc, Utf8.Correct;
    var x := MkString(kind, s);
    if x.None? {
      return None;
    }
    ObjectMajor(x.value);
    var w := Destruct(x.value);
    v := Some(w);
  }

  method DestructTagged(tag: u64, p: seq<CborRaw>) returns (v: View)
    requires |p| >= 1 && DetObject(p[0])
    ensures v == ViewTagged(tag, p[0])
  {
    hide Valid, Enc;
    var x := MkTagged(tag, p);
    v := Destruct(x);
  }

  method DestructSimpleValue(b: byte) returns (v: Option<View>)
    ensures v == if 24 <= b <= 31 then None else Some(ViewSimpleValue(b))
  {
    hide Valid, Enc;
    var x := MkSimpleValue(b);
    if x.None? {
      return None;
    }
    ObjectMajor(x.value);
    var w := Destruct(x.value);
    v := Some(w);
  }

  lemma ObjectMajor(x: CborRaw)
    requires Valid(x)
    ensures MajorType(x) == Abs(x).head.major
  {
    MajorTypeCases(x);
  }

  // ------------------------------------------------------------------
  // Destructing, then constructing
  // ------------------------------------------------------------------

  /** The views that constructors accept. */
  ghost predicate Constructible(v: View) {
    match v
    case ViewInt64(_, n) => n < TWO_TO_THE_64
    case ViewString(kind, s) => |s| <= USIZE_MAX && (kind.TextString? ==> Utf8.Correct(s))
    case ViewArray(x) => DetObject(x)
    case ViewMap(x) => DetObject(x)
    case ViewTagged(tag, payload) => tag < TWO_TO_THE_64 && DetObject(payload)
    case ViewSimpleValue(b) => b < 24 || 32 <= b
  }

  /** Calls the constructor of the kind of a view on its parts. */
  method Construct(v: View) returns (x: CborRaw)
    requires Constructible(v)
    ensures DetObject(x) && ViewItem.requires(v) && Abs(x) == ViewItem(v)
  {
    hide Valid, Enc, DetObject, Utf8.Correct;
    match v {
      case ViewInt64(kind, n) =>
        x := MkInt64(kind, n);
      case ViewString(kind, s) =>
        var r := MkString(kind, s);
        x := r.value;
        StringItem(x, v);
      case ViewTagged(tag, payload) =>
        x := MkTagged(tag, [payload]);
      case ViewSimpleValue(b) =>
        var r := MkSimpleValue(b);
        x := r.value;
      case ViewArray(a) =>
        x := a;
      case ViewMap(m) =>
        x := m;
    }
  }

  /** A deterministic string is determined by its kind and bytes. */
  lemma StringItem(x: CborRaw, v: View)
    requires DetObject(x) && v.ViewString? && |v.bytes| <= USIZE_MAX
    requires Abs(x).content == v.bytes && Abs(x).children == []
    requires Abs(x).head.major == if v.stringKind.ByteString? then MAJOR_BYTE_STRING else MAJOR_TEXT_STRING
    ensures Abs(x) == ViewItem(v)
  {
    ObjectParts(x, x);
    MajorTypeCases(x);
    DetArgument(x);
  }

  /** Taking an object apart and calling the constructor of its kind on the parts gives
      an equal object. */
  method Rebuild(c: CborRaw) returns (equal: bool)
    requires DetObject(c)
    ensures equal
  {
    hide Valid, Enc, Abs, DetObject, ViewItem, Constructible;
    var v := Destruct(c);
    ViewConstructible(c, v);
    var x := Construct(v);
    ObjectParts(c, x);
    equal := Equal(c, x);
  }

  lemma ViewConstructible(c: CborRaw, v: View)
    requires DetObject(c) && ViewItem.requires(v) && Abs(c) == ViewItem(v)
    requires v.ViewString? ==> MajorType(c) in {MAJOR_BYTE_STRING, MAJOR_TEXT_STRING}
    requires v.ViewSimpleValue? ==> MajorType(c) == MAJOR_SIMPLE_VALUE
    requires v.ViewTagged? ==> DetObject(v.payload)
    requires v.ViewArray? ==> v.arrayObject == c
    requires v.ViewMap? ==> v.mapObject == c
    ensures Constructible(v)
  {
    hide Valid, Enc, Abs, Utf8.Correct;
    if v.ViewString? {
      TextOf(c);
    } else if v.ViewSimpleValue? {
      SimpleOf(c);
    }
  }

  lemma TextOf(c: CborRaw)
    requires Valid(c) && MajorType(c) in {MAJOR_BYTE_STRING, MAJOR_TEXT_STRING}
    ensures |Abs(c).content| <= USIZE_MAX && (MajorType(c) == MAJOR_TEXT_STRING ==> Utf8.Correct(Abs(c).content))
    ensures MajorType(c) == Abs(c).head.major
  {
    hide Utf8.Correct;
    MajorTypeCases(c);
  }

  lemma SimpleOf(c: CborRaw)
    requires Valid(c) && MajorType(c) == MAJOR_SIMPLE_VALUE
    ensures Abs(c).head.arg.value < 24 || 32 <= Abs(c).head.arg.value
  {
    MajorTypeCases(c);
  }

  // ------------------------------------------------------------------
  // Constructing a map, then looking a key up
  // ------------------------------------------------------------------

  /** Whatever the order of the entries: a key that was given is found, and what is
      found is the very value that was given with it; any other key is not found. */
  method LookUp(a: array<MapEntry>, k: CborRaw) returns (built: bool, found: Option<CborRaw>)
    requires a.Length <= USIZE_MAX && DetEntries(a[..]) && DetObject(k)
    modifies a
    ensures built <==> Distinct(old(a[..]))
    ensures built ==> forall i | 0 <= i < a.Length ::
              Abs(old(a[i]).key) == Abs(k) ==> found == Some(old(a[i]).value)
    ensures found.Some? ==> exists i :: 0 <= i < a.Length && Abs(old(a[i]).key) == Abs(k)
  {
    hide Valid, Enc, Distinct, Increasing, DetEntries, DetObject;
    ghost var es := a[..];
    var r := MkMap(a);
    if r.None? {
      return false, None;
    }
    built := true;
    ObjectParts(r.value, k);
    found := MapGet(r.value, k);
    LookUpInOrder(es, a[..], k, r.value, found);
  }

  /** What the lookup in the sorted entries says about the entries as given. */
  lemma LookUpInOrder(es: seq<MapEntry>, sorted: seq<MapEntry>, k: CborRaw, x: CborRaw, found: Option<CborRaw>)
    requires DetEntries(es) && Distinct(es) && multiset(es) == multiset(sorted)
    requires x.CaseMap? && x.mapPtr == sorted
    requires var entries := MapElements(MapIteratorInit(x));
             if found.None? then forall t | 0 <= t < |entries| :: Abs(entries[t].key) != Abs(k)
             else exists t :: 0 <= t < |entries| && Abs(entries[t].key) == Abs(k) && found.value == entries[t].value
    ensures forall i | 0 <= i < |es| :: Abs(es[i].key) == Abs(k) ==> found == Some(es[i].value)
    ensures found.Some? ==> exists i :: 0 <= i < |es| && Abs(es[i].key) == Abs(k)
  {
    hide Valid, Abs, Distinct, DetEntries;
    assert MapElements(MapIteratorInit(x)) == sorted;
    SameMembers(es, sorted);
    DetEntriesValid(es);
    if found.Some? {
      var t :| 0 <= t < |sorted| && Abs(sorted[t].key) == Abs(k) && found.value == sorted[t].value;
      assert sorted[t] in es;
      var j :| 0 <= j < |es| && es[j] == sorted[t];
      forall i | 0 <= i < |es| && Abs(es[i].key) == Abs(k) ensures es[i].value == found.value {
        OnlyEntry(es, i, sorted[t]);
      }
    } else {
      forall i | 0 <= i < |es| ensures Abs(es[i].key) != Abs(k) {
        assert es[i] in sorted;
        var j :| 0 <= j < |sorted| && sorted[j] == es[i];
        assert Abs(sorted[j].key) != Abs(k);
      }
    }
  }

  lemma ObjectParts(x: CborRaw, k: CborRaw)
    requires DetObject(x) && DetObject(k)
    ensures Valid(x) && Valid(k)
  {
  }

  lemma SameMembers(s: seq<MapEntry>, t: seq<MapEntry>)
    requires multiset(s) == multiset(t)
    ensures forall e :: e in s <==> e in t
  {
    forall e ensures e in s <==> e in t {
      assert e in s <==> e in multiset(s);
      assert e in t <==> e in multiset(t);
    }
  }

  lemma DetEntriesValid(es: seq<MapEntry>)
    requires DetEntries(es)
    ensures forall i | 0 <= i < |es| :: ValidEntry(es[i])
  {
  }

  /** Among distinct keys, two entries with the same key are the same entry. */
  lemma OnlyEntry(es: seq<MapEntry>, i: nat, e: MapEntry)
    requires forall j | 0 <= j < |es| :: ValidEntry(es[j])
    requires Distinct(es) && i < |es| && e in es && Abs(es[i].key) == Abs(e.key)
    ensures es[i] == e
  {
    hide Valid, Abs;
    var j :| 0 <= j < |es| && es[j] == e;
    assert ValidEntry(es[i]) && ValidEntry(es[j]);
    assert KeyOf(es[i]) == KeyOf(es[j]);
  }
}
