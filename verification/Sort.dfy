/** The in-place merge sort of map entries, which merges by rotating and stops
    at the first pair of equal keys. */
module Sort {
  import opened Machine
  import opened Sequences
  import opened Lex
  import opened Item
  import opened Raw
  import opened Compare
  import opened Rotation

  /** The encoding of the key of an entry. */
  ghost function KeyOf(e: MapEntry): seq<byte> {
    if Valid(e.key) then Enc(e.key) else []
  }

  ghost predicate Below(e: MapEntry, f: MapEntry) {
    LexCompare(KeyOf(e), KeyOf(f)) < 0
  }

  /** Strictly increasing by key. */
  ghost predicate Increasing(s: seq<MapEntry>) {
    forall i, j | 0 <= i < j < |s| :: Below(s[i], s[j])
  }

  /** No two entries have the same key. */
  ghost predicate Distinct(s: seq<MapEntry>) {
    forall i, j | 0 <= i < j < |s| :: KeyOf(s[i]) != KeyOf(s[j])
  }

  lemma BelowTransitive(e: MapEntry, f: MapEntry, g: MapEntry)
    requires Below(e, f) && Below(f, g)
    ensures Below(e, g)
  {
    LexTransitive(KeyOf(e), KeyOf(f), KeyOf(g));
  }

  lemma IncreasingIsDistinct(s: seq<MapEntry>)
    requires Increasing(s)
    ensures Distinct(s)
  {
    hide KeyOf;
    forall i, j | 0 <= i < j < |s| ensures KeyOf(s[i]) != KeyOf(s[j]) {
      assert Below(s[i], s[j]);
      LexZero(KeyOf(s[i]), KeyOf(s[j]));
    }
  }

  /** Duplicate keys survive any reordering. */
  lemma DuplicatesSurvive(s: seq<MapEntry>, t: seq<MapEntry>)
    requires multiset(s) == multiset(t) && !Distinct(s)
    ensures !Distinct(t)
  {
    hide KeyOf;
    var i, j :| 0 <= i < j < |s| && KeyOf(s[i]) == KeyOf(s[j]);
    var p, q := RepeatSurvives(s, t, KeyOf, i, j);
  }

  lemma DistinctPermutation(s: seq<MapEntry>, t: seq<MapEntry>)
    requires multiset(s) == multiset(t)
    ensures Distinct(s) <==> Distinct(t)
  {
    if !Distinct(s) { DuplicatesSurvive(s, t); }
    if !Distinct(t) { DuplicatesSurvive(t, s); }
  }

  lemma ValidPermutation(s: seq<MapEntry>, t: seq<MapEntry>)
    requires multiset(s) == multiset(t) && ValidEntries(s)
    ensures ValidEntries(t)
  {
    hide Valid;
    forall i | 0 <= i < |t| ensures ValidEntry(t[i]) {
      assert t[i] in multiset(s);
    }
  }

  // ------------------------------------------------------------------
  // A merge in progress
  // ------------------------------------------------------------------

  /** The first `i1` entries are merged; the rest of the left run ends at `i2`,
      where the rest of the right run begins. */
  ghost predicate Merging(s: seq<MapEntry>, i1: nat, i2: nat) {
    i1 <= i2 <= |s| && Increasing(s[..i2]) && Increasing(s[i2..]) &&
    forall p, q | 0 <= p < i1 && i2 <= q < |s| :: Below(s[p], s[q])
  }

  lemma MergeAdvance(s: seq<MapEntry>, i1: nat, i2: nat)
    requires Merging(s, i1, i2) && i1 < i2 < |s| && Below(s[i1], s[i2])
    ensures Merging(s, i1 + 1, i2)
  {
    hide Below;
    forall q | i2 < q < |s| ensures Below(s[i1], s[q]) {
      assert s[i2..][0] == s[i2] && s[i2..][q - i2] == s[q];
      BelowTransitive(s[i1], s[i2], s[q]);
    }
  }

  /** The entry at `i2` moved in front of the entry at `i1`. */
  ghost function Moved(s: seq<MapEntry>, i1: nat, i2: nat): (t: seq<MapEntry>)
    requires i1 <= i2 < |s|
    ensures |t| == |s|
  {
    s[..i1] + ([s[i2]] + s[i1..i2]) + s[i2 + 1..]
  }

  lemma MovedPermutation(s: seq<MapEntry>, i1: nat, i2: nat)
    requires i1 <= i2 < |s|
    ensures multiset(Moved(s, i1, i2)) == multiset(s)
  {
    var a, b, c, d := s[..i1], s[i1..i2], [s[i2]], s[i2 + 1..];
    assert s == a + b + c + d;
    SwapParts(a, b, c, d);
  }

  lemma SwapParts(a: seq<MapEntry>, b: seq<MapEntry>, c: seq<MapEntry>, d: seq<MapEntry>)
    ensures multiset(a + (c + b) + d) == multiset(a + b + c + d)
  {
  }

  lemma MergeMove(s: seq<MapEntry>, i1: nat, i2: nat)
    requires Merging(s, i1, i2) && i1 < i2 < |s| && Below(s[i2], s[i1])
    ensures Merging(Moved(s, i1, i2), i1 + 1, i2 + 1)
  {
    hide Below;
    var t := Moved(s, i1, i2);
    forall k | i1 <= k < i2 ensures Below(s[i2], s[k]) {
      if k > i1 {
        assert s[..i2][i1] == s[i1] && s[..i2][k] == s[k];
        BelowTransitive(s[i2], s[i1], s[k]);
      }
    }
    forall i, j | 0 <= i < j < i2 + 1 ensures Below(t[i], t[j]) {
      var i' := if i < i1 then i else if i == i1 then i2 else i - 1;
      var j' := if j < i1 then j else if j == i1 then i2 else j - 1;
      assert t[i] == s[i'] && t[j] == s[j'];
      if i != i1 && j != i1 {
        assert s[..i2][i'] == s[i'] && s[..i2][j'] == s[j'];
      }
    }
    assert t[i2 + 1..] == s[i2..][1..];
    forall p, q | 0 <= p < i1 + 1 && i2 + 1 <= q < |t| ensures Below(t[p], t[q]) {
      assert t[q] == s[q];
      if p == i1 {
        assert s[i2..][0] == s[i2] && s[i2..][q - i2] == s[q];
      }
    }
  }

  lemma MergeEnd(s: seq<MapEntry>, i1: nat, i2: nat)
    requires Merging(s, i1, i2) && (i1 == i2 || i2 == |s|)
    ensures Increasing(s)
  {
    hide Below;
    forall i, j | 0 <= i < j < |s| ensures Below(s[i], s[j]) {
      if j < i2 {
        assert s[..i2][i] == s[i] && s[..i2][j] == s[j];
      } else if i >= i2 {
        assert s[i2..][i - i2] == s[i] && s[i2..][j - i2] == s[j];
      }
    }
  }

  lemma EqualKeys(s: seq<MapEntry>, i1: nat, i2: nat)
    requires i1 < i2 < |s| && KeyOf(s[i1]) == KeyOf(s[i2])
    ensures !Distinct(s)
  {
  }

  // ------------------------------------------------------------------
  // The program
  // ------------------------------------------------------------------

  /** Entries compare by key. */
  method CompareEntries(x1: MapEntry, x2: MapEntry) returns (c: int)
    requires ValidEntry(x1) && ValidEntry(x2)
    ensures c == LexCompare(KeyOf(x1), KeyOf(x2))
    ensures c < 0 <==> Below(x1, x2)
    ensures c > 0 <==> Below(x2, x1)
    ensures c == 0 <==> KeyOf(x1) == KeyOf(x2)
  {
    hide Valid, LexCompare;
    LexAntisymmetric(KeyOf(x1), KeyOf(x2));
    LexZero(KeyOf(x1), KeyOf(x2));
    c := CompareWithDepth(x1.key, x2.key);
  }

  /** The entries from `lo` to `hi` are reordered, and the others unchanged. */
  ghost predicate Shuffled(w0: seq<MapEntry>, w: seq<MapEntry>, lo: nat, hi: nat) {
    |w| == |w0| && lo <= hi <= |w| && w[..lo] == w0[..lo] && w[hi..] == w0[hi..] &&
    multiset(w[lo..hi]) == multiset(w0[lo..hi])
  }

  lemma ShuffledTransitive(w0: seq<MapEntry>, w1: seq<MapEntry>, w2: seq<MapEntry>, lo: nat, hi: nat)
    requires Shuffled(w0, w1, lo, hi) && Shuffled(w1, w2, lo, hi)
    ensures Shuffled(w0, w2, lo, hi)
  {
  }

  /** Reordering within either part of a slice reorders the slice. */
  lemma ShuffledPart(w0: seq<MapEntry>, w: seq<MapEntry>, lo: nat, mid: nat, hi: nat)
    requires lo <= mid <= hi <= |w0|
    requires Shuffled(w0, w, lo, mid) || Shuffled(w0, w, mid, hi)
    ensures Shuffled(w0, w, lo, hi)
    ensures Shuffled(w0, w, lo, mid) ==> w[mid..hi] == w0[mid..hi]
    ensures Shuffled(w0, w, mid, hi) ==> w[lo..mid] == w0[lo..mid]
  {
    assert w[lo..hi] == w[lo..mid] + w[mid..hi] && w0[lo..hi] == w0[lo..mid] + w0[mid..hi];
    if Shuffled(w0, w, lo, mid) {
      assert w[mid..hi] == w[mid..][..hi - mid] == w0[mid..hi];
      assert w[hi..] == w[mid..][hi - mid..] == w0[hi..];
    } else {
      assert w[lo..mid] == w[..mid][lo..] == w0[lo..mid];
      assert w[..lo] == w[..mid][..lo] == w0[..lo];
    }
    if Shuffled(w0, w, mid, hi) {
      assert w[lo..mid] == w[..mid][lo..] == w0[lo..mid];
    }
  }

  /** Duplicates in a part are duplicates in the whole. */
  lemma PartNotDistinct(w: seq<MapEntry>, lo: nat, mid: nat, hi: nat)
    requires lo <= mid <= hi <= |w| && Distinct(w[lo..hi])
    ensures Distinct(w[lo..mid]) && Distinct(w[mid..hi])
  {
    hide KeyOf;
    assert forall i | 0 <= i < mid - lo :: w[lo..mid][i] == w[lo..hi][i];
    assert forall i | 0 <= i < hi - mid :: w[mid..hi][i] == w[lo..hi][mid - lo + i];
  }

  lemma PartValid(w: seq<MapEntry>, lo: nat, mid: nat, hi: nat)
    requires lo <= mid <= hi <= |w| && ValidEntries(w[lo..hi])
    ensures ValidEntries(w[lo..mid]) && ValidEntries(w[mid..hi])
  {
    hide Valid;
    assert forall i | 0 <= i < mid - lo :: w[lo..mid][i] == w[lo..hi][i];
    assert forall i | 0 <= i < hi - mid :: w[mid..hi][i] == w[lo..hi][mid - lo + i];
  }

  /** Sorts the slice from `lo` to `hi`.  The slice is always a permutation of what
      it was; the result is true exactly when its keys were distinct, and then the
      slice is strictly increasing. */
  method SortAux(a: array<MapEntry>, lo: usize, hi: usize) returns (ok: bool)
    requires lo <= hi <= a.Length <= USIZE_MAX && ValidEntries(a[..][lo..hi])
    modifies a
    ensures Shuffled(old(a[..]), a[..], lo, hi)
    ensures ok <==> Distinct(old(a[..])[lo..hi])
    ensures ok ==> Increasing(a[..][lo..hi])
    decreases hi - lo
  {
    hide Valid, Below, KeyOf, Increasing, Distinct, ValidEntries, Shuffled;
    ghost var w0 := a[..];
    ShuffledSame(w0, lo, hi);
    var len: usize := hi - lo;
    if len < 2 {
      ShortIsSorted(w0[lo..hi]);
      return true;
    }
    var mid: usize := lo + len / 2;
    PartValid(w0, lo, mid, hi);
    var res := SortAux(a, lo, mid);
    ghost var w1 := a[..];
    ShuffledPart(w0, w1, lo, mid, hi);
    if Distinct(w0[lo..hi]) {
      PartNotDistinct(w0, lo, mid, hi);
    }
    if !res {
      return false;
    }
    var res1 := SortAux(a, mid, hi);
    ghost var w2 := a[..];
    ShuffledPart(w1, w2, lo, mid, hi);
    ShuffledTransitive(w0, w1, w2, lo, hi);
    if !res1 {
      return false;
    }
    ShuffledMeaning(w0, w2, lo, hi);
    ok := Merge(a, lo, mid, hi);
    ShuffledTransitive(w0, w2, a[..], lo, hi);
  }

  lemma ShuffledSame(w: seq<MapEntry>, lo: nat, hi: nat)
    requires lo <= hi <= |w|
    ensures Shuffled(w, w, lo, hi)
  {
  }

  lemma ShuffledMeaning(w0: seq<MapEntry>, w: seq<MapEntry>, lo: nat, hi: nat)
    requires Shuffled(w0, w, lo, hi)
    ensures |w| == |w0| && lo <= hi <= |w|
    ensures ValidEntries(w0[lo..hi]) ==> ValidEntries(w[lo..hi])
    ensures Distinct(w0[lo..hi]) <==> Distinct(w[lo..hi])
  {
    if ValidEntries(w0[lo..hi]) {
      ValidPermutation(w0[lo..hi], w[lo..hi]);
    }
    DistinctPermutation(w0[lo..hi], w[lo..hi]);
  }

  lemma ShortIsSorted(s: seq<MapEntry>)
    requires |s| < 2
    ensures Distinct(s) && Increasing(s)
  {
  }

  /** Merges two adjacent increasing runs. */
  method Merge(a: array<MapEntry>, lo: usize, mid: usize, hi: usize) returns (ok: bool)
    requires lo <= mid <= hi <= a.Length <= USIZE_MAX && ValidEntries(a[..][lo..hi])
    requires Increasing(a[..][lo..mid]) && Increasing(a[..][mid..hi])
    modifies a
    ensures Shuffled(old(a[..]), a[..], lo, hi)
    ensures ok <==> Distinct(old(a[..])[lo..hi])
    ensures ok ==> Increasing(a[..][lo..hi])
  {
    hide Valid, Below, KeyOf, Increasing, Distinct, ValidEntries, Shuffled, Merging, Rotated, Moved;
    ghost var w0 := a[..];
    ShuffledSame(w0, lo, hi);
    MergeStart(w0, lo, mid, hi);
    var len: usize := hi - lo;
    var i1: usize, i2: usize := 0, mid - lo;
    ok := true;
    while ok && !(i1 == i2 || i2 == len)
      invariant i1 <= i2 <= len
      invariant Shuffled(w0, a[..], lo, hi)
      invariant Merging(a[..][lo..hi], i1, i2)
      invariant !ok ==> !Distinct(w0[lo..hi])
      decreases ok, (len - i1) + (len - i2)
    {
      ghost var w := a[..];
      ghost var s := w[lo..hi];
      ShuffledMeaning(w0, w, lo, hi);
      var x1 := a[lo + i1];
      var x2 := a[lo + i2];
      assert x1 == s[i1] && x2 == s[i2];
      EntriesAt(s, i1, i2);
      var comp := CompareEntries(x1, x2);
      if comp == 0 {
        EqualKeys(s, i1, i2);
        ok := false;
      } else if comp < 0 {
        MergeAdvance(s, i1, i2);
        i1 := i1 + 1;
      } else {
        var i2': usize := i2 + 1;
        RotateLeft(a, lo + i1, i2' - i1, i2 - i1);
        ghost var r := a[..];
        assert s == w[lo..hi];
        MergeRotated(w0, w, r, lo, hi, i1, i2);
        i1 := i1 + 1;
        i2 := i2';
      }
    }
    ShuffledMeaning(w0, a[..], lo, hi);
    if ok {
      MergeEnd(a[..][lo..hi], i1, i2);
      IncreasingIsDistinct(a[..][lo..hi]);
    }
  }

  lemma EntriesAt(s: seq<MapEntry>, i1: nat, i2: nat)
    requires ValidEntries(s) && i1 < |s| && i2 < |s|
    ensures ValidEntry(s[i1]) && ValidEntry(s[i2])
  {
  }

  lemma MergeStart(w: seq<MapEntry>, lo: nat, mid: nat, hi: nat)
    requires lo <= mid <= hi <= |w| && Increasing(w[lo..mid]) && Increasing(w[mid..hi])
    ensures Merging(w[lo..hi], 0, mid - lo)
  {
    assert w[lo..hi][..mid - lo] == w[lo..mid] && w[lo..hi][mid - lo..] == w[mid..hi];
  }

  lemma MergeRotated(w0: seq<MapEntry>, w: seq<MapEntry>, r: seq<MapEntry>, lo: nat, hi: nat, i1: nat, i2: nat)
    requires lo <= hi <= |w| && i1 < i2 < hi - lo
    requires Shuffled(w0, w, lo, hi) && Merging(w[lo..hi], i1, i2) && Below(w[lo..hi][i2], w[lo..hi][i1])
    requires r == Rotated(w, lo + i1, i2 + 1 - i1, i2 - i1)
    ensures Shuffled(w0, r, lo, hi) && Merging(r[lo..hi], i1 + 1, i2 + 1)
  {
    hide Below, Merging, Moved, Rotated;
    MoveIsRotation(w, lo, hi, i1, i2);
    MergeMove(w[lo..hi], i1, i2);
    ShuffledReplace(w, r, lo, hi, Moved(w[lo..hi], i1, i2));
    MovedPermutation(w[lo..hi], i1, i2);
    ShuffledTransitive(w0, w, r, lo, hi);
  }

  lemma ShuffledReplace(w: seq<MapEntry>, r: seq<MapEntry>, lo: nat, hi: nat, m: seq<MapEntry>)
    requires lo <= hi <= |w| && |m| == hi - lo && r == w[..lo] + m + w[hi..]
    ensures |r| == |w| && r[lo..hi] == m && r[..lo] == w[..lo] && r[hi..] == w[hi..]
    ensures multiset(m) == multiset(w[lo..hi]) ==> Shuffled(w, r, lo, hi)
  {
  }

  /** Rotating the entries from `i1` to `i2` moves the last of them to the front. */
  lemma MoveIsRotation(w: seq<MapEntry>, lo: nat, hi: nat, i1: nat, i2: nat)
    requires lo <= hi <= |w| && i1 <= i2 < hi - lo
    ensures Rotated(w, lo + i1, i2 + 1 - i1, i2 - i1) == w[..lo] + Moved(w[lo..hi], i1, i2) + w[hi..]
  {
    var s := w[lo..hi];
    SliceOfSlice(w, lo, hi, i1, i2);
    SliceOfSlice(w, lo, hi, i2, i2 + 1);
    SliceEnds(w, lo, hi, i1, i2 + 1);
    assert s[i2..i2 + 1] == [s[i2]];
    RegroupFive(w[..lo], s[..i1], [s[i2]] + s[i1..i2], s[i2 + 1..], w[hi..]);
  }
}
