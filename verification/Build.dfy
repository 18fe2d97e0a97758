/** Encodings completed inside a buffer, and the two ways to build a map. */
module Build {
  import opened Machine
  import opened Sequences
  import opened Lex
  import opened Header
  import opened HeaderIO
  import opened Item
  import opened Raw
  import opened Serializer
  import opened Sort
  import opened Rotation
  import opened MapInsert
  import Utf8

  /** The buffer holds a payload in [0, off).  If the head fits after it, the buffer
      becomes the head followed by that payload; otherwise nothing happens. */
  method PrependHeader(x: Header, out: array<byte>, off: usize, ghost h: Head) returns (llen: usize)
    requires off <= out.Length <= USIZE_MAX && HeadOk(h) && x == HeaderOf(h)
    modifies out
    ensures llen == if off + |HeadBytes(h)| <= out.Length then off + |HeadBytes(h)| else 0
    ensures llen > 0 ==> out[..] == HeadBytes(h) + old(out[..off]) + old(out[..])[llen..]
    ensures llen == 0 ==> out[..] == old(out[..])
  {
    hide HeadOk, HeaderOf, HeadBytes, Rotated;
    var rem := new usize[1](_ => out.Length - off);
    var hfits := SizeHeader(x, rem, h);
    if hfits {
      ghost var before := out[..];
      llen := WriteHeader(x, out, off, h);
      ghost var middle := out[..];
      RotateLeft(out, 0, llen, off);
      PayloadBehind(before, off, HeadBytes(h));
      HeadNonEmpty(h);
    } else {
      llen := 0;
    }
  }

  lemma HeadNonEmpty(h: Head)
    requires HeadOk(h)
    ensures |HeadBytes(h)| > 0
  {
  }

  lemma PayloadBehind(before: seq<byte>, off: nat, head: seq<byte>)
    requires off + |head| <= |before|
    ensures Rotated(Overwrite(before, off, head), 0, off + |head|, off) ==
            head + before[..off] + before[off + |head|..]
  {
    var s := Overwrite(before, off, head);
    assert s[..0] == [] && s[0 + off..0 + (off + |head|)] == head && s[0..0 + off] == before[..off];
    assert s[0 + (off + |head|)..] == before[off + |head|..];
  }

  /** A head in front of the payload it announces is the encoding of an item. */
  lemma HeadAndPayload(h: Head, content: seq<byte>, children: seq<Item>, payload: seq<byte>)
    requires LeafOk(h, content) && WFAll(children) && |children| == Count(h)
    requires payload == content + SerAll(children)
    ensures WF(Item(h, content, children)) && HeadOk(h)
    ensures Ser(Item(h, content, children)) == HeadBytes(h) + payload
  {
    hide HeadBytes, HeadOk, Utf8.Correct;
    SerUnfold(Item(h, content, children));
  }

  method SerializeArray(len: RawUint64, out: array<byte>, off: usize) returns (llen: usize)
    requires off <= out.Length <= USIZE_MAX && ArgOk(len)
    modifies out
    ensures var head := HeadBytes(Head(MAJOR_ARRAY, len));
            if off + |head| <= out.Length then
              llen == off + |head| && out[..] == head + old(out[..off]) + old(out[..])[llen..]
            else llen == 0 && out[..] == old(out[..])
    ensures llen > 0 ==>
              forall children ::
                WFAll(children) && |children| == len.value && SerAll(children) == old(out[..off]) ==>
                var x := Item(Head(MAJOR_ARRAY, len), [], children);
                WF(x) && out[..llen] == Ser(x)
  {
    ghost var head, payload := Head(MAJOR_ARRAY, len), out[..off];
    var h := RawUint64AsArgument(MAJOR_ARRAY, len);
    llen := PrependHeader(h, out, off, head);
    if llen > 0 {
      forall children | WFAll(children) && |children| == len.value && SerAll(children) == payload
        ensures WF(Item(head, [], children)) && out[..llen] == Ser(Item(head, [], children))
      {
        HeadAndPayload(head, [], children, payload);
      }
    }
  }

  method SerializeMap(len: RawUint64, out: array<byte>, off: usize) returns (llen: usize)
    requires off <= out.Length <= USIZE_MAX && ArgOk(len)
    modifies out
    ensures var head := HeadBytes(Head(MAJOR_MAP, len));
            if off + |head| <= out.Length then
              llen == off + |head| && out[..] == head + old(out[..off]) + old(out[..])[llen..]
            else llen == 0 && out[..] == old(out[..])
    ensures llen > 0 ==>
              forall children ::
                WFAll(children) && |children| == 2 * len.value && SerAll(children) == old(out[..off]) ==>
                var x := Item(Head(MAJOR_MAP, len), [], children);
                WF(x) && out[..llen] == Ser(x)
  {
    ghost var head, payload := Head(MAJOR_MAP, len), out[..off];
    var h := RawUint64AsArgument(MAJOR_MAP, len);
    llen := PrependHeader(h, out, off, head);
    if llen > 0 {
      forall children | WFAll(children) && |children| == 2 * len.value && SerAll(children) == payload
        ensures WF(Item(head, [], children)) && out[..llen] == Ser(Item(head, [], children))
      {
        HeadAndPayload(head, [], children, payload);
      }
    }
  }

  /** The payload's length is the argument of its head. */
  method SerializeString(ty: byte, off: RawUint64, out: array<byte>) returns (llen: usize)
    requires off.value <= out.Length <= USIZE_MAX && ArgOk(off)
    requires ty == MAJOR_BYTE_STRING || ty == MAJOR_TEXT_STRING
    modifies out
    ensures var head := HeadBytes(Head(ty, off));
            if off.value + |head| <= out.Length then
              llen == off.value + |head| && out[..] == head + old(out[..off.value]) + old(out[..])[llen..]
            else llen == 0 && out[..] == old(out[..])
    ensures var content := old(out[..off.value]);
            llen > 0 && (ty == MAJOR_TEXT_STRING ==> Utf8.Correct(content)) ==>
              var x := Item(Head(ty, off), content, []);
              WF(x) && out[..llen] == Ser(x)
  {
    hide Utf8.Correct;
    ghost var head, content := Head(ty, off), out[..off.value];
    var h := RawUint64AsArgument(ty, off);
    llen := PrependHeader(h, out, off.value, head);
    if llen > 0 && (ty == MAJOR_TEXT_STRING ==> Utf8.Correct(content)) {
      HeadAndPayload(head, content, [], content);
    }
  }

  /** Writes only the head of a tagged item, at the front of the buffer. */
  method SerializeTag(tag: RawUint64, out: array<byte>) returns (llen: usize)
    requires out.Length <= USIZE_MAX && ArgOk(tag)
    modifies out
    ensures var head := HeadBytes(Head(MAJOR_TAGGED, tag));
            if |head| <= out.Length then llen == |head| && out[..] == head + old(out[..])[llen..]
            else llen == 0 && out[..] == old(out[..])
    ensures llen > 0 ==>
              forall x :: WF(x) ==>
                var y := Item(Head(MAJOR_TAGGED, tag), [], [x]);
                WF(y) && out[..llen] + Ser(x) == Ser(y)
  {
    hide HeadBytes, HeadOk, WF, Ser;
    ghost var hd := Head(MAJOR_TAGGED, tag);
    TagHead(tag);
    var h := RawUint64AsArgument(MAJOR_TAGGED, tag);
    var slen := new usize[1](_ => out.Length);
    var fits := SizeHeader(h, slen, hd);
    if fits {
      llen := WriteHeader(h, out, 0, hd);
      HeadNonEmpty(hd);
      TagCompleted(hd, out[..llen]);
    } else {
      llen := 0;
    }
  }

  /** Any item's encoding after the head of a tag completes a tagged item. */
  lemma TagCompleted(h: Head, written: seq<byte>)
    requires HeadOk(h) && h.major == MAJOR_TAGGED && written == HeadBytes(h)
    ensures forall x :: WF(x) ==> WF(Item(h, [], [x])) && written + Ser(x) == Ser(Item(h, [], [x]))
  {
    hide HeadBytes, WF, Ser;
    forall x | WF(x) ensures WF(Item(h, [], [x])) && written + Ser(x) == Ser(Item(h, [], [x])) {
      SerSingle(x);
      assert [] + SerAll([x]) == Ser(x);
      HeadAndPayload(h, [], [x], Ser(x));
    }
  }

  lemma TagHead(tag: RawUint64)
    requires ArgOk(tag)
    ensures HeadOk(Head(MAJOR_TAGGED, tag))
  {
  }

  // ------------------------------------------------------------------
  // Two ways to build a map
  // ------------------------------------------------------------------

  /** The run after inserting all entries in the given order; None once a key is
      repeated. */
  ghost function InsertAll(ps: seq<Pair>): Option<seq<Pair>> {
    if ps == [] then Some([]) else
    var n := |ps| - 1;
    match InsertAll(ps[..n])
    case None => None
    case Some(qs) => if HasKey(qs, ps[n].key) then None else Some(Insert(qs, ps[n]))
  }

  ghost predicate DistinctKeys(ps: seq<Pair>) {
    forall i, j | 0 <= i < j < |ps| :: ps[i].key != ps[j].key
  }

  /** Keys are found in any reordering. */
  lemma HasKeyPermutation(ps: seq<Pair>, qs: seq<Pair>, k: Item)
    requires multiset(ps) == multiset(qs) && HasKey(ps, k)
    ensures HasKey(qs, k)
  {
    var i :| 0 <= i < |ps| && ps[i].key == k;
    assert ps[i] in multiset(qs);
    var j :| 0 <= j < |qs| && qs[j] == ps[i];
  }

  /** Inserting succeeds exactly when keys are distinct, and then the run is
      strictly increasing and holds exactly those entries. */
  lemma {:induction false} InsertAllSorts(ps: seq<Pair>)
    requires PairsOk(ps)
    ensures InsertAll(ps).Some? <==> DistinctKeys(ps)
    ensures InsertAll(ps).Some? ==>
              var qs := InsertAll(ps).value;
              PairsOk(qs) && Ordered(qs) && multiset(qs) == multiset(ps)
  {
    hide WF, Before, Insert;
    if ps != [] {
      var n := |ps| - 1;
      var before, p := ps[..n], ps[n];
      assert ps == before + [p];
      InsertAllSorts(before);
      if InsertAll(before).Some? {
        var qs := InsertAll(before).value;
        if HasKey(before, p.key) { HasKeyPermutation(before, qs, p.key); }
        if HasKey(qs, p.key) {
          HasKeyPermutation(qs, before, p.key);
          var i :| 0 <= i < |before| && before[i].key == p.key;
          assert ps[i].key == ps[n].key;
        } else {
          AppendOk(qs, p);
          InsertOrdered(qs, p);
          InsertPermutation(qs, p);
          forall i, j | 0 <= i < j < |ps| ensures ps[i].key != ps[j].key {
            if j < n {
              assert before[i] == ps[i] && before[j] == ps[j];
            } else {
              assert before[i] == ps[i];
            }
          }
        }
      } else {
        var i, j :| 0 <= i < j < |before| && before[i].key == before[j].key;
        assert ps[i].key == ps[j].key;
      }
    }
  }

  lemma AppendOk(qs: seq<Pair>, p: Pair)
    requires PairsOk(qs) && WF(p.key) && WF(p.value)
    ensures PairsOk(qs + [p])
  {
  }

  /** Two strictly increasing runs of the same entries are the same run. */
  lemma OrderedUnique(ps: seq<Pair>, qs: seq<Pair>)
    requires Ordered(ps) && Ordered(qs) && multiset(ps) == multiset(qs)
    ensures ps == qs
  {
    hide Before, Ordered;
    forall i | 0 <= i < |ps| ensures ps[i] in qs {
      assert ps[i] in multiset(qs);
    }
    forall i | 0 <= i < |qs| ensures qs[i] in ps {
      assert qs[i] in multiset(ps);
    }
    OrderedSetUnique(ps, qs);
  }

  /** The order of insertion does not matter. */
  lemma InsertionOrderIrrelevant(ps: seq<Pair>, qs: seq<Pair>)
    requires PairsOk(ps) && PairsOk(qs) && multiset(ps) == multiset(qs)
    ensures InsertAll(ps) == InsertAll(qs)
  {
    hide WF;
    InsertAllSorts(ps);
    InsertAllSorts(qs);
    if !DistinctKeys(ps) {
      RepeatedKeysSurvive(ps, qs);
    } else if !DistinctKeys(qs) {
      RepeatedKeysSurvive(qs, ps);
    } else {
      OrderedUnique(InsertAll(ps).value, InsertAll(qs).value);
    }
  }

  /** Repeated keys survive any reordering. */
  lemma RepeatedKeysSurvive(ps: seq<Pair>, qs: seq<Pair>)
    requires multiset(ps) == multiset(qs) && !DistinctKeys(ps)
    ensures !DistinctKeys(qs)
  {
    var i, j :| 0 <= i < j < |ps| && ps[i].key == ps[j].key;
    var k, l := RepeatSurvives(ps, qs, (p: Pair) => p.key, i, j);
  }

  /** The entries that objects stand for. */
  ghost function PairOf(e: MapEntry): Pair {
    Pair(Abs(e.key), Abs(e.value))
  }

  ghost function PairsOf(es: seq<MapEntry>): (ps: seq<Pair>)
    ensures |ps| == |es| && forall i | 0 <= i < |es| :: ps[i] == PairOf(es[i])
  {
    seq(|es|, i requires 0 <= i < |es| => PairOf(es[i]))
  }

  lemma PairsOfOk(es: seq<MapEntry>)
    requires ValidEntries(es)
    ensures PairsOk(PairsOf(es))
  {
    hide Valid, WF;
    forall i | 0 <= i < |es| ensures WF(PairsOf(es)[i].key) && WF(PairsOf(es)[i].value) {
      assert ValidEntry(es[i]);
      ValidAbs(es[i].key);
      ValidAbs(es[i].value);
    }
  }

  lemma {:induction false} PairsOfPermutation(es: seq<MapEntry>, fs: seq<MapEntry>)
    requires multiset(es) == multiset(fs)
    ensures multiset(PairsOf(es)) == multiset(PairsOf(fs))
  {
    hide PairOf, PairsOf;
    if es == [] {
      assert |multiset(fs)| == |fs|;
    } else {
      var before, after := RemoveFirst(es, fs);
      PairsOfPermutation(es[1..], before + after);
      PairsOfConcat([es[0]], es[1..]);
      PairsOfConcat(before, [es[0]] + after);
      PairsOfConcat([es[0]], after);
      PairsOfConcat(before, after);
      assert es == [es[0]] + es[1..];
    }
  }

  lemma PairsOfConcat(es: seq<MapEntry>, fs: seq<MapEntry>)
    ensures PairsOf(es + fs) == PairsOf(es) + PairsOf(fs)
  {
  }

  lemma PairsOfOrder(es: seq<MapEntry>)
    requires ValidEntries(es)
    ensures Distinct(es) <==> DistinctKeys(PairsOf(es))
    ensures Increasing(es) <==> Ordered(PairsOf(es))
  {
    hide Valid, WF, LexCompare;
    var ps := PairsOf(es);
    forall i, j | 0 <= i < j < |es|
      ensures KeyOf(es[i]) == KeyOf(es[j]) <==> ps[i].key == ps[j].key
      ensures Below(es[i], es[j]) <==> Before(ps[i], ps[j])
    {
      assert ValidEntry(es[i]) && ValidEntry(es[j]);
      ValidAbs(es[i].key);
      ValidAbs(es[j].key);
      SerPrefixFree(Abs(es[i].key), Abs(es[j].key));
    }
  }

  lemma {:induction false} SerPairsOf(es: seq<MapEntry>)
    requires ValidEntries(es)
    ensures PairsOk(PairsOf(es)) && SerPairs(PairsOf(es)) == EncEntries(es)
  {
    hide Valid, WF, Ser, Abs;
    PairsOfOk(es);
    if es != [] {
      SerPairsOf(es[1..]);
      assert PairsOf(es)[1..] == PairsOf(es[1..]);
      EncEntriesStep(es, 0);
      assert es[0..] == es;
      SerPairsHead(PairsOf(es));
    } else {
      EncodingsEnd([], es);
    }
  }

  /** Inserting the entries one by one in any order and prepending the map's head
      gives the bytes of the map that sorting the same entries gives; one way
      reports a repeated key exactly when the other does. */
  lemma InsertingIsSorting(es: seq<MapEntry>, order: seq<Pair>, sorted: seq<MapEntry>, size: nat)
    requires ValidEntries(es) && ArgOk(RawUint64(size, |es|))
    requires multiset(order) == multiset(PairsOf(es))
    requires multiset(sorted) == multiset(es) && (Distinct(es) ==> Increasing(sorted))
    ensures InsertAll(order).Some? <==> Distinct(es)
    ensures Distinct(es) ==>
              var x := CaseMap(size, sorted);
              Valid(x) && HeadOk(AbsHead(x)) && PairsOk(InsertAll(order).value) &&
              HeadBytes(AbsHead(x)) + SerPairs(InsertAll(order).value) == Enc(x)
  {
    hide WF, Ser, KeyOf, Below, Distinct, Increasing, Ordered, DistinctKeys, InsertAll, PairOf, Abs;
    PairsOfOk(es);
    OrderOk(order, PairsOf(es));
    InsertionOrderIrrelevant(order, PairsOf(es));
    InsertAllSorts(PairsOf(es));
    PairsOfOrder(es);
    if Distinct(es) {
      ValidPermutation(es, sorted);
      assert |multiset(sorted)| == |sorted| && |multiset(es)| == |es|;
      PairsOfPermutation(sorted, es);
      PairsOfOrder(sorted);
      OrderedUnique(InsertAll(order).value, PairsOf(sorted));
      SerPairsOf(sorted);
      var x := CaseMap(size, sorted);
      ValidMap(size, sorted);
      EncodingParts(x);
      BodyOf(x);
    }
  }

  /** A buffer over a run of successful insertions into an empty map. */
  ghost predicate InsertionRun(order: seq<Pair>, buffers: seq<seq<byte>>) {
    |buffers| == |order| + 1 && buffers[0] == [] &&
    forall i | 0 <= i < |order| :: Inserts(buffers[i], order[i], buffers[i + 1])
  }

  /** After any run, the buffer holds the run of all entries inserted. */
  lemma {:induction false} RunInsertsAll(order: seq<Pair>, buffers: seq<seq<byte>>)
    requires InsertionRun(order, buffers)
    ensures InsertAll(order).Some? && PairsOk(InsertAll(order).value)
    ensures buffers[|order|] == SerPairs(InsertAll(order).value)
  {
    hide WF, Ordered, HasKey, Insert;
    if order != [] {
      var n := |order| - 1;
      RunInsertsAll(order[..n], buffers[..n + 1]);
      var qs := InsertAll(order[..n]).value;
      assert Inserts(buffers[n], order[n], buffers[n + 1]);
      var ps :| && PairsOk(ps) && Ordered(ps) && !HasKey(ps, order[n].key) && buffers[n] == SerPairs(ps)
                && PairsOk(Insert(ps, order[n])) && buffers[n + 1] == SerPairs(Insert(ps, order[n]));
      SerPairsInjective(ps, qs);
    }
  }

  /** A run that is rejected at an entry has repeated a key. */
  lemma RejectedRun(order: seq<Pair>, buffers: seq<seq<byte>>, p: Pair)
    requires InsertionRun(order, buffers) && Rejects(buffers[|order|], p)
    ensures InsertAll(order + [p]).None?
  {
    hide WF, Ordered, HasKey, Insert;
    RunInsertsAll(order, buffers);
    var ps :| PairsOk(ps) && Ordered(ps) && HasKey(ps, p.key) && buffers[|order|] == SerPairs(ps);
    SerPairsInjective(ps, InsertAll(order).value);
    assert (order + [p])[..|order|] == order;
  }

  /** A run of insertions that takes all the entries of a map, in any order, ends
      with the payload of the map that sorting them constructs; a run that is
      rejected midway does not have distinct keys to sort. */
  lemma RunIsSorting(es: seq<MapEntry>, order: seq<Pair>, buffers: seq<seq<byte>>, sorted: seq<MapEntry>, size: nat)
    requires ValidEntries(es) && ArgOk(RawUint64(size, |es|))
    requires multiset(sorted) == multiset(es) && (Distinct(es) ==> Increasing(sorted))
    requires |buffers| <= |order| + 1 && |buffers| > 0 && multiset(order) == multiset(PairsOf(es))
    requires InsertionRun(order[..|buffers| - 1], buffers)
    ensures |buffers| == |order| + 1 ==>
              var x := CaseMap(size, sorted);
              Distinct(es) && Valid(x) && HeadOk(AbsHead(x)) && HeadBytes(AbsHead(x)) + buffers[|order|] == Enc(x)
    ensures |buffers| <= |order| && Rejects(buffers[|buffers| - 1], order[|buffers| - 1]) ==> !Distinct(es)
  {
    hide Valid, WF, Ser, Distinct, Increasing, InsertAll, AbsHead, Inserts, Rejects, PairsOf, HeadOk, HeadBytes;
    InsertingIsSorting(es, order, sorted, size);
    var k := |buffers| - 1;
    if k == |order| {
      assert order[..k] == order;
      RunInsertsAll(order, buffers);
    } else if Rejects(buffers[k], order[k]) {
      RejectedRun(order[..k], buffers, order[k]);
      assert order[..k] + [order[k]] == order[..k + 1];
      InsertAllPrefix(order, k + 1);
    }
  }

  /** Once rejected, always rejected. */
  lemma {:induction false} InsertAllPrefix(order: seq<Pair>, k: nat)
    requires k <= |order| && InsertAll(order[..k]).None?
    ensures InsertAll(order).None?
    decreases |order|
  {
    hide Insert, HasKey;
    if k == |order| {
      assert order[..k] == order;
    } else {
      var n := |order| - 1;
      assert order[..n][..k] == order[..k];
      InsertAllPrefix(order[..n], k);
    }
  }

  lemma OrderOk(order: seq<Pair>, ps: seq<Pair>)
    requires PairsOk(ps) && multiset(order) == multiset(ps)
    ensures PairsOk(order)
  {
    hide WF;
    forall i | 0 <= i < |order| ensures WF(order[i].key) && WF(order[i].value) {
      assert order[i] in multiset(ps);
    }
  }

  lemma ValidMap(size: nat, es: seq<MapEntry>)
    requires ValidEntries(es) && ArgOk(RawUint64(size, |es|))
    ensures Valid(CaseMap(size, es))
  {
    forall i | 0 <= i < |es| ensures Valid(es[i].key) && Valid(es[i].value) {
      assert ValidEntry(es[i]);
    }
  }
}
