/** Facts about sequences, slices and reorderings. */
module Sequences {

  /** An element that occurs twice does so at two places. */
  lemma TwoPlaces<T>(s: seq<T>, e: T) returns (i: nat, j: nat)
    requires multiset(s)[e] >= 2
    ensures i < j < |s| && s[i] == e && s[j] == e
  {
    assert e in s;
    i :| 0 <= i < |s| && s[i] == e;
    var before, after := s[..i], s[i + 1..];
    assert s == before + [e] + after;
    if e in after {
      var k :| 0 <= k < |after| && after[k] == e;
      j := i + 1 + k;
    } else {
      assert e in before;
      j := i;
      i :| 0 <= i < |before| && before[i] == e;
    }
  }

  /** An element at two places occurs twice. */
  lemma CountedTwice<T>(s: seq<T>, i: nat, j: nat)
    requires i < j < |s| && s[i] == s[j]
    ensures multiset(s)[s[i]] >= 2
  {
    assert s == s[..j] + [s[j]] + s[j + 1..];
    assert s[..j][i] == s[i];
    assert s[i] in multiset(s[..j]);
  }

  /** Two elements with the same key have counterparts in any reordering. */
  lemma RepeatSurvives<T(!new), K>(s: seq<T>, t: seq<T>, key: T -> K, i: nat, j: nat) returns (p: nat, q: nat)
    requires multiset(s) == multiset(t) && i < j < |s| && key(s[i]) == key(s[j])
    ensures p < q < |t| && key(t[p]) == key(t[q])
  {
    if s[i] == s[j] {
      CountedTwice(s, i, j);
      p, q := TwoPlaces(t, s[i]);
    } else {
      p := IndexOf(t, s[i]);
      q := IndexOf(t, s[j]);
      if q < p {
        p, q := q, p;
      }
    }
  }

  lemma RemoveFirst<T(!new)>(es: seq<T>, fs: seq<T>) returns (before: seq<T>, after: seq<T>)
    requires multiset(es) == multiset(fs) && es != []
    ensures fs == before + ([es[0]] + after)
    ensures multiset(es[1..]) == multiset(before + after)
  {
    WithoutOne(es, 0);
    var i := IndexOf(fs, es[0]);
    before, after := fs[..i], fs[i + 1..];
    WithoutOne(fs, i);
    SplitAt(fs, i);
    SplitAt(es, 0);
    CancelOne(es[0], multiset(es[1..]), multiset(before + after));
  }

  lemma IndexOf<T>(s: seq<T>, x: T) returns (i: nat)
    requires x in multiset(s)
    ensures i < |s| && s[i] == x
  {
    assert x in s;
    i :| 0 <= i < |s| && s[i] == x;
  }

  lemma SplitAt<T>(s: seq<T>, i: nat)
    requires i < |s|
    ensures s == s[..i] + ([s[i]] + s[i + 1..])
    ensures i == 0 ==> s[..i] + s[i + 1..] == s[1..]
  {
  }

  lemma WithoutOne<T>(s: seq<T>, i: nat)
    requires i < |s|
    ensures multiset(s) == multiset{s[i]} + multiset(s[..i] + s[i + 1..])
  {
    assert s == s[..i] + [s[i]] + s[i + 1..];
  }

  lemma CancelOne<T(!new)>(x: T, a: multiset<T>, b: multiset<T>)
    requires multiset{x} + a == multiset{x} + b
    ensures a == b
  {
    forall y ensures a[y] == b[y] {
      assert (multiset{x} + a)[y] == (multiset{x} + b)[y];
    }
  }

  lemma SliceOfSlice<T>(w: seq<T>, lo: nat, hi: nat, i: nat, j: nat)
    requires lo <= hi <= |w| && i <= j <= hi - lo
    ensures w[lo..hi][i..j] == w[lo + i..lo + j]
  {
    var a, b := w[lo..hi][i..j], w[lo + i..lo + j];
    assert |a| == |b|;
    forall k | 0 <= k < |a| ensures a[k] == b[k] {
      assert a[k] == w[lo..hi][i + k] == w[lo + (i + k)];
    }
  }

  lemma SliceEnds<T>(w: seq<T>, lo: nat, hi: nat, i: nat, j: nat)
    requires lo <= hi <= |w| && i <= hi - lo && j <= hi - lo
    ensures w[..lo + i] == w[..lo] + w[lo..hi][..i]
    ensures w[lo + j..] == w[lo..hi][j..] + w[hi..]
  {
  }

  lemma RegroupFive<T>(a: seq<T>, b: seq<T>, c: seq<T>, d: seq<T>, e: seq<T>)
    ensures ((a + b) + c) + (d + e) == (a + (b + c + d)) + e
  {
  }
}
