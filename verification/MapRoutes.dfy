/** The two ways to encode a map, side by side: inserting its entries into a buffer
    one by one, and sorting them to construct an object. */
module MapRoutes {
  import opened Machine
  import opened Header
  import opened Item
  import opened Raw
  import opened Serializer
  import opened Sort
  import opened MapInsert
  import opened Build
  import opened Api

  datatype Insertion = Inserted(len: usize) | Duplicate | NoRoom

  /** One more insertion. */
  lemma InsertAllNext(ps: seq<Pair>, p: Pair)
    ensures InsertAll(ps + [p]) ==
            match InsertAll(ps)
            case None => None
            case Some(qs) => if HasKey(qs, p.key) then None else Some(Insert(qs, p))
  {
    hide HasKey, Insert;
    assert (ps + [p])[..|ps|] == ps;
  }

  /** Where the insertion of `es` stands: `i` entries are in, and take `off` bytes. */
  ghost predicate Inserting(es: seq<MapEntry>, i: nat, off: nat, run: seq<byte>) {
    && ValidEntries(es) && i <= |es| && ValidEntries(es[i..])
    && InsertAll(PairsOf(es[..i])).Some? && PairsOk(InsertAll(PairsOf(es[..i])).value)
    && run == SerPairs(InsertAll(PairsOf(es[..i])).value) && |run| == off
    && off + |EncEntries(es[i..])| == |EncEntries(es)|
  }

  lemma InsertingStart(es: seq<MapEntry>)
    requires ValidEntries(es)
    ensures Inserting(es, 0, 0, [])
  {
    hide Valid, EncEntries;
    assert es[0..] == es && PairsOf(es[..0]) == [];
  }

  /** The entry to insert next, and the run to insert it into. */
  lemma InsertingEntry(es: seq<MapEntry>, i: nat, off: nat, run: seq<byte>) returns (qs: seq<Pair>)
    requires Inserting(es, i, off, run) && i < |es|
    ensures PairsOk(qs) && Ordered(qs) && run == SerPairs(qs) && InsertAll(PairsOf(es[..i])) == Some(qs)
    ensures ValidEntry(es[i]) && ValidEntries(es) && WF(Abs(es[i].key)) && WF(Abs(es[i].value))
    ensures off + |Enc(es[i].key)| + |Enc(es[i].value)| <= |EncEntries(es)|
  {
    hide Valid, WF, Ser, Abs, Enc, EncEntries, Ordered;
    EncEntriesStep(es, i);
    ValidAbs(es[i].key);
    ValidAbs(es[i].value);
    qs := InsertAll(PairsOf(es[..i])).value;
    FirstEntries(es, i);
    InsertAllSorts(PairsOf(es[..i]));
  }

  lemma FirstEntries(es: seq<MapEntry>, i: nat)
    requires ValidEntries(es) && i <= |es|
    ensures PairsOk(PairsOf(es[..i]))
    ensures i < |es| ==> PairsOf(es[..i + 1]) == PairsOf(es[..i]) + [PairOf(es[i])]
  {
    hide Valid, PairOf;
    PairsOfOk(es[..i]);
  }

  lemma InsertingNext(es: seq<MapEntry>, i: nat, off: nat, run: seq<byte>, qs: seq<Pair>, next: seq<byte>)
    requires Inserting(es, i, off, run) && i < |es| && InsertAll(PairsOf(es[..i])) == Some(qs)
    requires !HasKey(qs, PairOf(es[i]).key)
    requires PairsOk(Insert(qs, PairOf(es[i]))) && next == SerPairs(Insert(qs, PairOf(es[i])))
    requires ValidEntry(es[i]) && |next| == off + |Enc(es[i].key)| + |Enc(es[i].value)|
    ensures Inserting(es, i + 1, |next|, next)
  {
    hide Valid, WF, Ser, Abs, Enc, EncEntries, Insert, HasKey, PairOf, PairsOk, SerPairs;
    EncEntriesStep(es, i);
    FirstEntries(es, i);
    InsertAllNext(PairsOf(es[..i]), PairOf(es[i]));
  }

  lemma InsertingStops(es: seq<MapEntry>, i: nat, qs: seq<Pair>)
    requires ValidEntries(es) && i < |es| && InsertAll(PairsOf(es[..i])) == Some(qs)
    requires HasKey(qs, PairOf(es[i]).key)
    ensures InsertAll(PairsOf(es)).None?
  {
    hide Valid, Insert, HasKey, PairOf;
    FirstEntries(es, i);
    InsertAllNext(PairsOf(es[..i]), PairOf(es[i]));
    assert PairsOf(es)[..i + 1] == PairsOf(es[..i + 1]);
    InsertAllPrefix(PairsOf(es), i + 1);
  }

  lemma InsertingEnd(es: seq<MapEntry>, off: nat, run: seq<byte>)
    requires Inserting(es, |es|, off, run)
    ensures ValidEntries(es) && off == |EncEntries(es)|
    ensures InsertAll(PairsOf(es)).Some? && PairsOk(InsertAll(PairsOf(es)).value)
    ensures run == SerPairs(InsertAll(PairsOf(es)).value)
  {
    hide Valid, InsertAll;
    assert es[..|es|] == es;
    EncodingsEnd([], es[|es|..]);
  }

  lemma EncNonEmpty(x: CborRaw)
    requires Valid(x)
    ensures |Enc(x)| > 0
  {
  }

  /** Writes an entry after the run in [0, off) and inserts it there. */
  method InsertEntry(e: MapEntry, out: array<byte>, off: usize, ghost qs: seq<Pair>) returns (r: Insertion)
    requires ValidEntry(e) && off <= out.Length <= USIZE_MAX
    requires WF(Abs(e.key)) && WF(Abs(e.value))
    requires PairsOk(qs) && Ordered(qs) && out[..off] == SerPairs(qs)
    modifies out
    ensures r.NoRoom? ==> off + |Enc(e.key)| + |Enc(e.value)| > out.Length
    ensures r.Duplicate? ==> HasKey(qs, PairOf(e).key)
    ensures r.Inserted? ==> !HasKey(qs, PairOf(e).key) && PairsOk(Insert(qs, PairOf(e)))
    ensures r.Inserted? ==> r.len == off + |Enc(e.key)| + |Enc(e.value)| <= out.Length
    ensures r.Inserted? ==> out[..r.len] == SerPairs(Insert(qs, PairOf(e)))
  {
    hide Valid, WF, Ser, Abs, Enc, Insert, HasKey, PairsOk, Ordered, SerPairs, Inserts, Rejects;
    EncNonEmpty(e.key);
    EncNonEmpty(e.value);
    ghost var run := out[..off];
    var klen := CborSize(e.key, out.Length - off);
    if klen == 0 {
      return NoRoom;
    }
    var off3 := Write(e.key, out, off);
    assert out[..off3] == run + Enc(e.key);
    var vlen := CborSize(e.value, out.Length - off3);
    if vlen == 0 {
      return NoRoom;
    }
    ghost var front := out[..off3];
    var end := Write(e.value, out, off3);
    assert out[..end] == front + Enc(e.value);
    assert out[..end] == run + (Enc(e.key) + Enc(e.value));
    EntryBytes(e);
    var ok := RawMapInsert(out, end, off, off3, qs, PairOf(e));
    r := if ok then Inserted(end) else Duplicate;
  }

  lemma EntryBytes(e: MapEntry)
    requires ValidEntry(e) && WF(Abs(e.key)) && WF(Abs(e.value))
    ensures Enc(e.key) == Ser(PairOf(e).key) && Enc(e.value) == Ser(PairOf(e).value)
  {
  }

  /** Inserts all entries, in the order of the array. */
  method InsertEntries(a: array<MapEntry>, out: array<byte>) returns (r: Insertion)
    requires ValidEntries(a[..]) && a.Length <= USIZE_MAX && out.Length <= USIZE_MAX
    modifies out
    ensures r.NoRoom? ==> |EncEntries(a[..])| > out.Length
    ensures r.Duplicate? ==> InsertAll(PairsOf(a[..])).None?
    ensures r.Inserted? ==> r.len == |EncEntries(a[..])| <= out.Length
    ensures r.Inserted? ==>
              InsertAll(PairsOf(a[..])).Some? && PairsOk(InsertAll(PairsOf(a[..])).value) &&
              out[..r.len] == SerPairs(InsertAll(PairsOf(a[..])).value)
  {
    hide Valid, WF, Ser, Abs, Enc, EncEntries, Insert, InsertAll, PairsOf, PairOf, HasKey, PairsOk, Ordered, SerPairs;
    hide ValidEntries, Inserting;
    ghost var es := a[..];
    var off: usize := 0;
    var i: usize := 0;
    InsertingStart(es);
    while i < a.Length
      invariant i <= |es| && off <= out.Length
      invariant Inserting(es, i, off, out[..off])
    {
      ghost var run := out[..off];
      ghost var qs := InsertingEntry(es, i, off, run);
      var next := InsertEntry(a[i], out, off, qs);
      match next {
        case NoRoom =>
          return NoRoom;
        case Duplicate =>
          InsertingStops(es, i, qs);
          return Duplicate;
        case Inserted(len) =>
          InsertingNext(es, i, off, run, qs, out[..len]);
          off := len;
      }
      i := i + 1;
    }
    InsertingEnd(es, off, out[..off]);
    r := Inserted(off);
  }

  /** The size of the encoding of a map with these entries. */
  ghost function MapSize(es: seq<MapEntry>): nat
    requires ValidEntries(es) && |es| <= USIZE_MAX
  {
    |HeadBytes(Head(MAJOR_MAP, MkRawUint64(|es|)))| + |EncEntries(es)|
  }

  /** Encodes a map in the buffer by inserting, and constructs one from the same
      entries by sorting.  If the buffer is large enough, inserting reports a repeated
      key exactly when sorting does, and otherwise writes exactly the encoding of the
      map that sorting constructs. */
  method BuildBothWays(a: array<MapEntry>, out: array<byte>) returns (written: Insertion, sorted: Option<CborRaw>)
    requires DetEntries(a[..]) && a.Length <= USIZE_MAX && out.Length <= USIZE_MAX
    modifies a, out
    ensures ValidEntries(old(a[..]))
    ensures written.NoRoom? ==> MapSize(old(a[..])) > out.Length
    ensures written.Duplicate? ==> sorted.None?
    ensures written.Inserted? ==> sorted.Some? && DetObject(sorted.value)
    ensures written.Inserted? ==> written.len <= out.Length && out[..written.len] == Enc(sorted.value)
    ensures MapSize(old(a[..])) <= out.Length ==> (written.Duplicate? <==> sorted.None?)
  {
    hide ParseItems, Valid, WF, Ser, Abs, Enc, EncEntries, HeadBytes, HeadOk, MapSize;
    hide InsertAll, PairsOf, PairsOk, SerPairs, Distinct, Increasing, ValidEntries, DetEntries, DetObject;
    ghost var es := a[..];
    DetEntriesParts(es);
    var inserted := InsertEntries(a, out);
    written := inserted;
    if inserted.Inserted? {
      var llen := SerializeMap(MkRawUint64(a.Length), out, inserted.len);
      written := if llen == 0 then NoRoom else Inserted(llen);
    }
    ghost var buffer := out[..];
    SizeIs(es);
    sorted := MkMap(a);
    InsertingIsSorting(es, PairsOf(es), a[..], MkRawUint64(|es|).size);
    assert out[..] == buffer;
  }

  lemma SizeIs(es: seq<MapEntry>)
    requires ValidEntries(es) && |es| <= USIZE_MAX
    ensures MapSize(es) == |HeadBytes(Head(MAJOR_MAP, MkRawUint64(|es|)))| + |EncEntries(es)|
    ensures |HeadBytes(Head(MAJOR_MAP, MkRawUint64(|es|)))| > 0
  {
  }
}
