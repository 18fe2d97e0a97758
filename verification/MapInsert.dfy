/** Building encodings inside a buffer: inserting an entry into a serialized map,
    and putting a header in front of a payload.  Both end in a rotation. */
module MapInsert {
  import opened Machine
  import opened Lex
  import opened Header
  import opened HeaderIO
  import opened Item
  import opened Validator
  import opened Rotation

  datatype Pair = Pair(key: Item, value: Item)

  ghost predicate PairsOk(ps: seq<Pair>) {
    forall i | 0 <= i < |ps| :: WF(ps[i].key) && WF(ps[i].value)
  }

  /** A serialized run of entries. */
  ghost function SerPairs(ps: seq<Pair>): seq<byte>
    requires PairsOk(ps)
  {
    if ps == [] then [] else Ser(ps[0].key) + Ser(ps[0].value) + SerPairs(ps[1..])
  }

  /** The encoding of a key; keys order by it. */
  ghost function KeyBytes(p: Pair): seq<byte> {
    if WF(p.key) then Ser(p.key) else []
  }

  ghost predicate Before(p: Pair, q: Pair) {
    LexCompare(KeyBytes(p), KeyBytes(q)) < 0
  }

  ghost predicate Ordered(ps: seq<Pair>) {
    forall i, j | 0 <= i < j < |ps| :: Before(ps[i], ps[j])
  }

  ghost predicate HasKey(ps: seq<Pair>, k: Item) {
    exists i :: 0 <= i < |ps| && ps[i].key == k
  }

  /** The entries with a new one in its place. */
  ghost function Insert(ps: seq<Pair>, p: Pair): (r: seq<Pair>)
    ensures |r| == |ps| + 1
  {
    if ps == [] || !Before(ps[0], p) then [p] + ps else [ps[0]] + Insert(ps[1..], p)
  }

  lemma {:induction false} InsertPermutation(ps: seq<Pair>, p: Pair)
    ensures multiset(Insert(ps, p)) == multiset(ps) + multiset{p}
  {
    if ps != [] && Before(ps[0], p) {
      InsertPermutation(ps[1..], p);
      assert ps == [ps[0]] + ps[1..];
    }
  }

  /** The position of a new entry is after all those before it. */
  lemma {:induction false} InsertAt(ps: seq<Pair>, p: Pair, i: nat)
    requires i <= |ps|
    requires forall j | 0 <= j < i :: Before(ps[j], p)
    requires i < |ps| ==> !Before(ps[i], p)
    ensures Insert(ps, p) == ps[..i] + [p] + ps[i..]
  {
    hide Before;
    if i > 0 {
      assert Before(ps[0], p);
      InsertAt(ps[1..], p, i - 1);
      assert ps[1..][..i - 1] == ps[..i][1..] && ps[1..][i - 1..] == ps[i..];
      assert ps[..i] == [ps[0]] + ps[..i][1..];
    }
  }

  lemma BeforeTotal(p: Pair, q: Pair)
    requires WF(p.key) && WF(q.key)
    ensures p.key != q.key ==> Before(p, q) || Before(q, p)
    ensures p.key == q.key ==> !Before(p, q)
    ensures Before(p, q) ==> !Before(q, p)
  {
    hide WF, Ser;
    LexZero(KeyBytes(p), KeyBytes(q));
    LexAntisymmetric(KeyBytes(p), KeyBytes(q));
    SerPrefixFree(p.key, q.key);
  }

  lemma BeforeTransitive(p: Pair, q: Pair, r: Pair)
    requires Before(p, q) && Before(q, r)
    ensures Before(p, r)
  {
    LexTransitive(KeyBytes(p), KeyBytes(q), KeyBytes(r));
  }

  /** Inserting a new key keeps the run strictly increasing. */
  lemma {:induction false} InsertOrdered(ps: seq<Pair>, p: Pair)
    requires PairsOk(ps + [p]) && Ordered(ps) && !HasKey(ps, p.key)
    ensures Ordered(Insert(ps, p)) && PairsOk(Insert(ps, p))
  {
    hide WF, Before;
    InsertPermutation(ps, p);
    var r := Insert(ps, p);
    forall i | 0 <= i < |r| ensures WF(r[i].key) && WF(r[i].value) {
      assert r[i] in multiset(r);
      assert multiset(ps + [p]) == multiset(ps) + multiset{p};
      assert r[i] in ps + [p];
    }
    assert (ps + [p])[|ps|] == p;
    if ps != [] {
      assert (ps + [p])[0] == ps[0];
      assert ps[0].key != p.key;
      BeforeTotal(ps[0], p);
      if Before(ps[0], p) {
        assert ps[1..] + [p] == (ps + [p])[1..];
        InsertOrdered(ps[1..], p);
        InsertPermutation(ps[1..], p);
        forall j | 1 <= j < |r| ensures Before(r[0], r[j]) {
          assert r[j] in multiset(Insert(ps[1..], p));
          assert r[j] == p || r[j] in ps[1..];
        }
      } else {
        forall j | 0 <= j < |ps| ensures Before(p, ps[j]) {
          if j > 0 {
            BeforeTransitive(p, ps[0], ps[j]);
          }
        }
      }
    }
  }

  /** Two strictly increasing runs with the same members are the same run. */
  lemma {:induction false} OrderedSetUnique(ps: seq<Pair>, qs: seq<Pair>)
    requires Ordered(ps) && Ordered(qs)
    requires forall i | 0 <= i < |ps| :: ps[i] in qs
    requires forall j | 0 <= j < |qs| :: qs[j] in ps
    ensures ps == qs
  {
    hide Before, Ordered;
    if ps != [] {
      assert ps[0] in qs;
      LeastFirst(ps, qs);
      LeastFirst(qs, ps);
      BeforeAsymmetric(ps[0], qs[0]);
      TailMembers(ps, qs);
      TailMembers(qs, ps);
      OrderedTail(ps);
      OrderedTail(qs);
      OrderedSetUnique(ps[1..], qs[1..]);
      assert ps == [ps[0]] + ps[1..] && qs == [qs[0]] + qs[1..];
    }
  }

  lemma OrderedTail(ps: seq<Pair>)
    requires Ordered(ps) && ps != []
    ensures Ordered(ps[1..])
  {
    hide Before;
  }

  lemma LeastFirst(ps: seq<Pair>, qs: seq<Pair>)
    requires Ordered(qs) && ps != [] && ps[0] in qs
    ensures ps[0] == qs[0] || Before(qs[0], ps[0])
  {
    var i :| 0 <= i < |qs| && qs[i] == ps[0];
  }

  lemma BeforeAsymmetric(p: Pair, q: Pair)
    ensures Before(p, q) ==> !Before(q, p)
  {
    LexAntisymmetric(KeyBytes(p), KeyBytes(q));
  }

  lemma TailMembers(ps: seq<Pair>, qs: seq<Pair>)
    requires Ordered(ps) && ps != [] && qs != [] && ps[0] == qs[0]
    requires forall i | 0 <= i < |ps| :: ps[i] in qs
    ensures forall i | 0 <= i < |ps[1..]| :: ps[1..][i] in qs[1..]
  {
    hide Before;
    forall i | 0 <= i < |ps[1..]| ensures ps[1..][i] in qs[1..] {
      assert ps[1..][i] == ps[i + 1];
      BeforeAsymmetric(ps[0], ps[i + 1]);
      assert Before(ps[0], ps[i + 1]);
      var j :| 0 <= j < |qs| && qs[j] == ps[i + 1];
      assert j != 0;
      assert qs[1..][j - 1] == ps[i + 1];
    }
  }

  lemma {:induction false} SerPairsAppend(ps: seq<Pair>, qs: seq<Pair>)
    requires PairsOk(ps) && PairsOk(qs)
    ensures PairsOk(ps + qs) && SerPairs(ps + qs) == SerPairs(ps) + SerPairs(qs)
  {
    hide WF, Ser;
    if ps == [] {
      assert ps + qs == qs;
    } else {
      SerPairsAppend(ps[1..], qs);
      assert (ps + qs)[1..] == ps[1..] + qs;
    }
  }

  lemma PairsParts(ps: seq<Pair>, i: nat)
    requires PairsOk(ps) && i <= |ps|
    ensures PairsOk(ps[..i]) && PairsOk(ps[i..])
    ensures i < |ps| ==> PairsOk(ps[i + 1..]) && WF(ps[i].key) && WF(ps[i].value)
  {
  }

  lemma SerPairsSplit(ps: seq<Pair>, i: nat)
    requires PairsOk(ps) && i <= |ps|
    ensures PairsOk(ps[..i]) && PairsOk(ps[i..])
    ensures SerPairs(ps) == SerPairs(ps[..i]) + SerPairs(ps[i..])
    ensures i < |ps| ==> PairsOk(ps[i + 1..]) && WF(ps[i].key) && WF(ps[i].value)
    ensures i < |ps| ==> SerPairs(ps[i..]) == Ser(ps[i].key) + (Ser(ps[i].value) + SerPairs(ps[i + 1..]))
  {
    hide WF, Ser, PairsOk, SerPairs;
    PairsParts(ps, i);
    SerPairsAppend(ps[..i], ps[i..]);
    assert ps[..i] + ps[i..] == ps;
    if i < |ps| {
      assert ps[i..][1..] == ps[i + 1..] && ps[i..][0] == ps[i];
      SerPairsHead(ps[i..]);
    }
  }

  lemma SerPairsHead(ps: seq<Pair>)
    requires PairsOk(ps) && ps != []
    ensures PairsOk(ps[1..]) && WF(ps[0].key) && WF(ps[0].value)
    ensures SerPairs(ps) == Ser(ps[0].key) + (Ser(ps[0].value) + SerPairs(ps[1..]))
  {
    hide WF, Ser;
  }

  lemma SerPairsOne(p: Pair)
    requires WF(p.key) && WF(p.value)
    ensures PairsOk([p]) && SerPairs([p]) == Ser(p.key) + Ser(p.value)
  {
    hide WF, Ser;
    assert SerPairs([p]) == Ser(p.key) + Ser(p.value) + SerPairs([]);
  }

  /** The encoding of an insertion at a known position. */
  lemma SerInserted(ps: seq<Pair>, p: Pair, i: nat)
    requires PairsOk(ps) && WF(p.key) && WF(p.value) && i <= |ps|
    ensures PairsOk(ps[..i]) && PairsOk(ps[i..]) && PairsOk(ps[..i] + [p] + ps[i..])
    ensures SerPairs(ps[..i] + [p] + ps[i..]) ==
            SerPairs(ps[..i]) + (Ser(p.key) + Ser(p.value)) + SerPairs(ps[i..])
  {
    hide WF, Ser, PairsOk, SerPairs;
    PairsParts(ps, i);
    SerPairsOne(p);
    SerPairsAppend(ps[..i], [p]);
    SerPairsAppend(ps[..i] + [p], ps[i..]);
  }

  datatype InsertResult = CFailure | CInProgress | CSuccess

  /** Where the search for the place of `k` stands: `i` entries are passed. */
  ghost predicate Passed(ps: seq<Pair>, p: Pair, i: nat) {
    i <= |ps| && forall j | 0 <= j < i :: Before(ps[j], p)
  }

  /** The outcome of comparing the next key with the new one. */
  lemma SearchStep(ps: seq<Pair>, p: Pair, i: nat)
    requires PairsOk(ps) && Ordered(ps) && WF(p.key) && Passed(ps, p, i) && i < |ps|
    ensures var c := LexCompare(KeyBytes(ps[i]), KeyBytes(p));
            (c < 0 ==> Passed(ps, p, i + 1)) &&
            (c == 0 ==> HasKey(ps, p.key)) &&
            (c > 0 ==> !HasKey(ps, p.key) && Insert(ps, p) == ps[..i] + [p] + ps[i..])
  {
    hide WF, Ser;
    var c := LexCompare(KeyBytes(ps[i]), KeyBytes(p));
    SerPrefixFree(ps[i].key, p.key);
    LexZero(KeyBytes(ps[i]), KeyBytes(p));
    if c > 0 {
      InsertAt(ps, p, i);
      LexAntisymmetric(KeyBytes(ps[i]), KeyBytes(p));
      forall j | 0 <= j < |ps| ensures ps[j].key != p.key {
        BeforeTotal(ps[j], p);
        if j > i {
          BeforeTransitive(p, ps[i], ps[j]);
          BeforeTotal(p, ps[j]);
        }
      }
    }
  }

  lemma SearchEnd(ps: seq<Pair>, p: Pair)
    requires PairsOk(ps) && WF(p.key) && Passed(ps, p, |ps|)
    ensures !HasKey(ps, p.key) && Insert(ps, p) == ps + [p]
  {
    hide WF, Ser, Before;
    InsertAt(ps, p, |ps|);
    assert ps[..|ps|] + [p] + ps[|ps|..] == ps + [p];
    forall j | 0 <= j < |ps| ensures ps[j].key != p.key {
      BeforeTotal(ps[j], p);
    }
  }

  lemma SerPairsEmpty(ps: seq<Pair>)
    requires PairsOk(ps)
    ensures SerPairs(ps) == [] <==> ps == []
  {
  }

  /** The loop invariant of the insertion: `i` entries are passed and `off` bytes
      with them, the buffer is as it was at the start until the search succeeds,
      and then it holds the run with the new entry in its place. */
  ghost predicate Searching(ps: seq<Pair>, p: Pair, i: nat, off: nat, res: InsertResult,
                            before: seq<byte>, now: seq<byte>)
  {
    && PairsOk(ps) && Ordered(ps) && WF(p.key) && WF(p.value) && i <= |ps|
    && before == SerPairs(ps) + (Ser(p.key) + Ser(p.value))
    && PairsOk(ps[..i]) && off == |SerPairs(ps[..i])|
    && match res
       case CInProgress => now == before && Passed(ps, p, i)
       case CFailure => now == before && HasKey(ps, p.key)
       case CSuccess => !HasKey(ps, p.key) && PairsOk(Insert(ps, p)) && now == SerPairs(Insert(ps, p))
  }

  /** `before` is a strictly increasing run without the key of `p`, and `after` is
      the run with the entry in its place. */
  ghost predicate Inserts(before: seq<byte>, p: Pair, after: seq<byte>) {
    exists ps ::
      && PairsOk(ps) && Ordered(ps) && !HasKey(ps, p.key) && before == SerPairs(ps)
      && PairsOk(Insert(ps, p)) && after == SerPairs(Insert(ps, p))
  }

  /** `run` is a strictly increasing run that already has the key of `p`. */
  ghost predicate Rejects(run: seq<byte>, p: Pair) {
    exists ps :: PairsOk(ps) && Ordered(ps) && HasKey(ps, p.key) && run == SerPairs(ps)
  }

  /** A serialized run is the encoding of one run only. */
  lemma {:induction false} SerPairsInjective(ps: seq<Pair>, qs: seq<Pair>)
    requires PairsOk(ps) && PairsOk(qs) && SerPairs(ps) == SerPairs(qs)
    ensures ps == qs
  {
    hide WF, Ser, PairsOk, SerPairs;
    SerPairsEmpty(ps);
    SerPairsEmpty(qs);
    if ps != [] && qs != [] {
      SerPairsHead(ps);
      SerPairsHead(qs);
      var v1, v2 := Ser(ps[0].value) + SerPairs(ps[1..]), Ser(qs[0].value) + SerPairs(qs[1..]);
      FirstUnique(ps[0].key, qs[0].key, v1, v2);
      FirstUnique(ps[0].value, qs[0].value, SerPairs(ps[1..]), SerPairs(qs[1..]));
      SerPairsInjective(ps[1..], qs[1..]);
      assert ps == [ps[0]] + ps[1..] && qs == [qs[0]] + qs[1..];
    }
  }

  lemma FirstUnique(x: Item, y: Item, r: seq<byte>, t: seq<byte>)
    requires WF(x) && WF(y) && Ser(x) + r == Ser(y) + t
    ensures x == y && r == t
  {
    hide WF, Ser;
    SerSingle(x);
    SerSingle(y);
    SplitUnique([x], [y], r, t);
    assert [x][0] == [y][0];
  }

  lemma Outcome(ps: seq<Pair>, p: Pair)
    requires PairsOk(ps) && Ordered(ps)
    ensures HasKey(ps, p.key) ==> Rejects(SerPairs(ps), p)
    ensures !HasKey(ps, p.key) && PairsOk(Insert(ps, p)) ==> Inserts(SerPairs(ps), p, SerPairs(Insert(ps, p)))
  {
    hide SerPairs, Ordered, HasKey, Insert;
  }

  lemma SearchStart(ps: seq<Pair>, p: Pair, s: seq<byte>)
    requires PairsOk(ps) && Ordered(ps) && WF(p.key) && WF(p.value)
    requires s == SerPairs(ps) + (Ser(p.key) + Ser(p.value))
    ensures Searching(ps, p, 0, 0, CInProgress, s, s)
  {
    hide WF, Ser, Ordered, Before;
  }

  /** Where the parts of the buffer are while entries are left. */
  lemma SearchParts(ps: seq<Pair>, p: Pair, i: nat, off: nat, s: seq<byte>)
    requires Searching(ps, p, i, off, CInProgress, s, s)
    requires PairsOk(ps) && off < |SerPairs(ps)|
    ensures i < |ps| && WF(ps[i].key) && WF(ps[i].value) && PairsOk(ps[i + 1..]) && WF(p.key)
    ensures Searching(ps, p, i, off, CInProgress, s, s)
    ensures var off2 := |SerPairs(ps)|;
            && off2 + |Ser(p.key)| <= |s| && s[off2..off2 + |Ser(p.key)|] == Ser(p.key)
            && s[off..off2] == Ser(ps[i].key) + (Ser(ps[i].value) + SerPairs(ps[i + 1..]))
  {
    hide WF, Ser, PairsOk, SerPairs, Ordered, Before, Passed;
    WholeRun(ps, p);
    SerPairsSplit(ps, i);
    ThreeParts(s, SerPairs(ps[..i]), SerPairs(ps[i..]), Ser(p.key), Ser(p.value));
  }

  /** The next key is smaller: go past its entry. */
  lemma SearchNext(ps: seq<Pair>, p: Pair, i: nat, off: nat, s: seq<byte>)
    requires Searching(ps, p, i, off, CInProgress, s, s) && i < |ps| && WF(ps[i].key) && WF(ps[i].value)
    requires LexCompare(Ser(ps[i].key), Ser(p.key)) < 0
    ensures Searching(ps, p, i + 1, off + |Ser(ps[i].key)| + |Ser(ps[i].value)|, CInProgress, s, s)
  {
    hide WF, Ser, LexCompare, PairsOk, SerPairs, Ordered, Before, Passed;
    SearchStep(ps, p, i);
    NextRun(ps, i);
  }

  /** The next key is the new one. */
  lemma SearchFailed(ps: seq<Pair>, p: Pair, i: nat, off: nat, s: seq<byte>)
    requires Searching(ps, p, i, off, CInProgress, s, s) && i < |ps| && WF(ps[i].key)
    requires LexCompare(Ser(ps[i].key), Ser(p.key)) == 0
    ensures Searching(ps, p, i, off, CFailure, s, s)
  {
    hide WF, Ser, LexCompare, PairsOk, SerPairs, Ordered, Before, Passed, HasKey;
    SearchStep(ps, p, i);
  }

  /** The next key is greater: the rotation puts the new entry before it. */
  lemma SearchFound(ps: seq<Pair>, p: Pair, i: nat, off: nat, s: seq<byte>, now: seq<byte>)
    requires Searching(ps, p, i, off, CInProgress, s, s) && i < |ps| && WF(ps[i].key)
    requires PairsOk(ps) && off <= |SerPairs(ps)| <= |s|
    requires LexCompare(Ser(ps[i].key), Ser(p.key)) > 0
    requires now == Rotated(s, off, |s| - off, |SerPairs(ps)| - off)
    ensures Searching(ps, p, i, off, CSuccess, s, now)
  {
    hide WF, Ser, LexCompare, PairsOk, SerPairs, Ordered, Before, Passed, HasKey, Insert, Rotated;
    var kv := Ser(p.key) + Ser(p.value);
    SearchStep(ps, p, i);
    SerPairsSplit(ps, i);
    ThreeParts(s, SerPairs(ps[..i]), SerPairs(ps[i..]), Ser(p.key), Ser(p.value));
    RotatedRun(SerPairs(ps[..i]), SerPairs(ps[i..]), kv);
    SerInserted(ps, p, i);
  }

  /** No entry is left: the new one already is in its place. */
  lemma SearchExhausted(ps: seq<Pair>, p: Pair, i: nat, off: nat, s: seq<byte>)
    requires Searching(ps, p, i, off, CInProgress, s, s) && PairsOk(ps) && |SerPairs(ps)| <= off
    ensures Searching(ps, p, i, off, CSuccess, s, s)
  {
    hide WF, Ser, PairsOk, SerPairs, Ordered, Before, Passed, HasKey, Insert;
    SerPairsSplit(ps, i);
    SerPairsEmpty(ps[i..]);
    SearchEnd(ps, p);
    WholeRun(ps, p);
    SerInserted(ps, p, |ps|);
  }

  lemma SearchOver(ps: seq<Pair>, p: Pair, i: nat, off: nat, res: InsertResult, s: seq<byte>, now: seq<byte>)
    requires Searching(ps, p, i, off, res, s, now)
    ensures res.CInProgress? ==> now == s
    ensures res.CFailure? ==> HasKey(ps, p.key) && now == s
    ensures res.CSuccess? ==> !HasKey(ps, p.key) && PairsOk(Insert(ps, p)) && now == SerPairs(Insert(ps, p))
  {
  }

  /** The first `end` bytes of the buffer are a strictly increasing run of entries in
      [0, off2), then one key up to `off3`, then its value.  Succeeds exactly when the
      key is new, and then those bytes are the run with the entry in its place;
      otherwise they are unchanged.  The bytes after `end` never change. */
  method RawMapInsert(out: array<byte>, end: usize, off2: usize, off3: usize, ghost ps: seq<Pair>, ghost p: Pair)
    returns (ok: bool)
    requires off2 <= off3 <= end <= out.Length <= USIZE_MAX
    requires PairsOk(ps) && Ordered(ps) && WF(p.key) && WF(p.value)
    requires out[..end] == SerPairs(ps) + (Ser(p.key) + Ser(p.value))
    requires off2 == |SerPairs(ps)| && off3 == off2 + |Ser(p.key)|
    modifies out
    ensures ok <==> !HasKey(ps, p.key)
    ensures ok ==> PairsOk(Insert(ps, p)) && out[..end] == SerPairs(Insert(ps, p))
    ensures !ok ==> out[..end] == old(out[..end])
    ensures out[end..] == old(out[end..])
    ensures if ok then Inserts(old(out[..off2]), p, out[..end]) else Rejects(old(out[..off2]), p)
  {
    hide WF, Ser, LexCompare, SerPairs, PairsOk, Ordered, HasKey, Insert, Rotated, Searching, Inserts, Rejects;
    Outcome(ps, p);
    assert out[..off2] == out[..end][..off2] == SerPairs(ps);
    ghost var before, after := out[..end], out[end..];
    var off: usize := 0;
    var res := CInProgress;
    ghost var i: nat := 0;
    SearchStart(ps, p, before);
    while res.CInProgress? && off < off2
      invariant i <= |ps|
      invariant Searching(ps, p, i, off, res, before, out[..end])
      invariant out[end..] == after
      decreases res.CInProgress?, |ps| - i
    {
      SearchOver(ps, p, i, off, res, before, out[..end]);
      SearchParts(ps, p, i, off, before);
      var out2 := out[off..off2];
      var outk := out[off2..off3];
      SliceOfFront(out[..], end, off, off2);
      SliceOfFront(out[..], end, off2, off3);
      PairFront(out2, Ser(ps[i].key), Ser(ps[i].value), SerPairs(ps[i + 1..]));
      var offk := JumpRawDataItem(out2, 0, ps[i].key);
      var outk' := out2[..offk];
      var outvq := out2[offk..];
      var c := Lex.LexCompareBytes(outk', outk);
      if c < 0 {
        var offq := JumpRawDataItem(outvq, 0, ps[i].value);
        SearchNext(ps, p, i, off, before);
        var off': usize := off + offk + offq;
        off := off';
        i := i + 1;
      } else if c > 0 {
        RotatedWithin(out[..], end, off, off2 - off);
        RotateLeft(out, off, end - off, off2 - off);
        SearchFound(ps, p, i, off, before, out[..end]);
        res := CSuccess;
      } else {
        SearchFailed(ps, p, i, off, before);
        res := CFailure;
      }
    }
    SearchOver(ps, p, i, off, res, before, out[..end]);
    match res {
      case CSuccess => ok := true;
      case CFailure => ok := false;
      case CInProgress =>
        SearchExhausted(ps, p, i, off, before);
        SearchOver(ps, p, i, off, CSuccess, before, before);
        ok := true;
    }
  }

  lemma SliceOfFront(s: seq<byte>, end: nat, i: nat, j: nat)
    requires i <= j <= end <= |s|
    ensures s[i..j] == s[..end][i..j]
  {
  }

  lemma PairFront(s: seq<byte>, k: seq<byte>, v: seq<byte>, rest: seq<byte>)
    requires s == k + (v + rest)
    ensures k <= s[0..] && s[..|k|] == k && v <= s[|k|..][0..]
  {
    assert s[|k|..] == v + rest;
  }

  /** Rotating within the first `end` elements. */
  lemma RotatedWithin(s: seq<byte>, end: nat, off: nat, l: nat)
    requires off + l <= end <= |s|
    ensures Rotated(s, off, end - off, l)[..end] == Rotated(s[..end], off, end - off, l)
    ensures Rotated(s, off, end - off, l)[end..] == s[end..]
  {
    var t := s[..end];
    assert t[off + l..end] == s[off + l..end] && t[off..off + l] == s[off..off + l] && t[..off] == s[..off];
    assert t[off + (end - off)..] == [];
  }

  lemma NextRun(ps: seq<Pair>, i: nat)
    requires PairsOk(ps) && i < |ps|
    ensures PairsOk(ps[..i]) && PairsOk(ps[..i + 1]) && WF(ps[i].key) && WF(ps[i].value)
    ensures |SerPairs(ps[..i + 1])| == |SerPairs(ps[..i])| + |Ser(ps[i].key)| + |Ser(ps[i].value)|
  {
    hide WF, Ser;
    SerPairsSplit(ps, i);
    SerPairsSplit(ps, i + 1);
  }

  lemma ThreeParts(s: seq<byte>, run: seq<byte>, rest: seq<byte>, k: seq<byte>, v: seq<byte>)
    requires s == run + rest + (k + v)
    ensures s == run + (rest + (k + v))
    ensures s[|run|..|run| + |rest|] == rest
    ensures s[|run| + |rest|..|run| + |rest| + |k|] == k
  {
  }

  lemma RotatedRun(run: seq<byte>, rest: seq<byte>, kv: seq<byte>)
    ensures var s := run + (rest + kv);
            Rotated(s, |run|, |s| - |run|, |rest|) == run + kv + rest
  {
    var s := run + (rest + kv);
    assert s[|run| + |rest|..|s|] == kv && s[|run|..|run| + |rest|] == rest && s[..|run|] == run;
    assert s[|s|..] == [];
  }

  lemma WholeRun(ps: seq<Pair>, p: Pair)
    requires PairsOk(ps)
    ensures ps[..|ps|] == ps && PairsOk(ps[|ps|..]) && SerPairs(ps[|ps|..]) == []
    ensures ps[..|ps|] + [p] + ps[|ps|..] == ps + [p]
  {
  }
}
