/** In-place rotation of a slice by following the cycles of its index map.  There
    are gcd(n, l) cycles, one for each residue. */
module Rotation {
  import opened Machine

  // ------------------------------------------------------------------
  // Arithmetic
  // ------------------------------------------------------------------

  /** `d` divides `x`. */
  ghost predicate Divides(d: int, x: int) {
    exists k :: k * d == x
  }

  /** The greatest common divisor, by its universal property. */
  ghost predicate IsGcd(d: nat, n: nat, l: nat) {
    d > 0 && Divides(d, n) && Divides(d, l) &&
    forall c: int :: Divides(c, n) && Divides(c, l) ==> Divides(c, d)
  }

  /** `x` is an integer combination of `n` and `l`. */
  ghost predicate Combination(x: int, a: int, n: int, b: int, l: int) {
    x == a * n + b * l
  }

  lemma CombinationStep(x: int, y: int, k: int, a: int, b: int, c: int, e: int, n: int, l: int)
    requires Combination(x, a, n, b, l) && Combination(y, c, n, e, l)
    ensures Combination(x - k * y, a - k * c, n, b - k * e, l)
  {
    assert k * (c * n + e * l) == (k * c) * n + (k * e) * l;
    assert (a - k * c) * n == a * n - (k * c) * n;
    assert (b - k * e) * l == b * l - (k * e) * l;
  }

  lemma CombinationShift(x: int, a: int, b: int, p: int, q: int, k: int, r: int)
    requires Combination(x, a, p, b, q) && p == k * q + r
    ensures Combination(x, a * k + b, q, a, r)
  {
    assert a * (k * q + r) == (a * k) * q + a * r;
    assert (a * k + b) * q == (a * k) * q + b * q;
  }

  lemma CommonDivisor(c: int, d: int, a: int, n: int, b: int, l: int)
    requires Combination(d, a, n, b, l) && Divides(c, n) && Divides(c, l)
    ensures Divides(c, d)
  {
    var i :| i * c == n;
    var j :| j * c == l;
    assert (a * i + b * j) * c == a * (i * c) + b * (j * c);
  }

  /** The remainder loop.  Its ghost results are the cofactors and the Bezout
      coefficients of the divisor it finds. */
  method GcdLoop(n0: usize, l0: usize) returns (d: usize, ghost q: int, ghost m: int, ghost u: int, ghost v: int)
    requires n0 > 0
    ensures IsGcd(d, n0, l0)
    ensures n0 == q * d && l0 == m * d
    ensures Combination(d, u, n0, v, l0)
  {
    hide Combination, IsGcd;
    CombinationStart(n0, l0);
    var pn: usize, pl: usize := n0, l0;
    ghost var a, b, c, e := 1, 0, 0, 1;
    ghost var s, t := 0, 1;
    u, v := 1, 0;
    while pl > 0
      invariant pn > 0
      invariant Combination(n0, a, pn, b, pl) && Combination(l0, c, pn, e, pl)
      invariant Combination(pn, u, n0, v, l0) && Combination(pl, s, n0, t, l0)
      decreases pl
    {
      var n := pn;
      var l := pl;
      var l' := n % l;
      ghost var k := n / l;
      assert n == k * l + l';
      CombinationShift(n0, a, b, n, l, k, l');
      CombinationShift(l0, c, e, n, l, k, l');
      CombinationStep(n, l, k, u, v, s, t, n0, l0);
      a, b := a * k + b, a;
      c, e := c * k + e, c;
      u, v, s, t := s, t, u - k * s, v - k * t;
      pn := l;
      pl := l';
    }
    d := pn;
    q, m := a, c;
    CombinationEnd(d, n0, l0, a, b, c, e, u, v);
  }

  lemma CombinationStart(n: int, l: int)
    ensures Combination(n, 1, n, 0, l) && Combination(l, 0, n, 1, l)
  {
  }

  lemma CombinationEnd(d: nat, n0: nat, l0: nat, a: int, b: int, c: int, e: int, u: int, v: int)
    requires d > 0 && Combination(n0, a, d, b, 0) && Combination(l0, c, d, e, 0) && Combination(d, u, n0, v, l0)
    ensures n0 == a * d && l0 == c * d && IsGcd(d, n0, l0)
  {
    forall x: int | Divides(x, n0) && Divides(x, l0) ensures Divides(x, d) {
      CommonDivisor(x, d, u, n0, v, l0);
    }
  }

  lemma MulOrder(x: int, y: int, d: int)
    requires d > 0
    ensures x < y <==> x * d < y * d
    ensures x == y <==> x * d == y * d
  {
    if x < y {
      assert (y - x) * d > 0;
    } else if y < x {
      assert (x - y) * d > 0;
    }
  }

  lemma ModUnique(x: int, q: int, k: int, r: int)
    requires 0 <= r < q && x == k * q + r
    ensures x / q == k && x % q == r
  {
    var k' := x / q;
    assert (k - k') * q == k * q - k' * q == x % q - r;
    MulOrder(k - k', 1, q);
    MulOrder(-1, k - k', q);
  }

  lemma ModShift(x: int, k: int, q: int)
    requires q > 0
    ensures (x + k * q) % q == x % q
  {
    ModUnique(x + k * q, q, x / q + k, x % q);
  }

  // ------------------------------------------------------------------
  // The cycles
  // ------------------------------------------------------------------

  /** The position that supplies position `k` when rotating `n` elements by `l`. */
  function Next(k: nat, n: nat, l: nat): (r: nat)
    requires k < n && l <= n
    ensures r < n || l == 0
  {
    if k >= n - l then k - (n - l) else k + l
  }

  /** It is the position `l` further on, modulo the length. */
  lemma NextIsModular(k: nat, n: nat, l: nat)
    requires k < n && l <= n
    ensures Next(k, n, l) == (k + l) % n
  {
    ModUnique(k + l, n, if k >= n - l then 1 else 0, Next(k, n, l));
  }

  /** The divisor, cofactors and coefficients that describe the cycles. */
  datatype Cycles = Cycles(n: nat, l: nat, d: nat, q: nat, m: nat, u: int, v: int)

  ghost predicate CyclesOk(c: Cycles) {
    c.d > 0 && 1 < c.q && 0 < c.m < c.q && c.n == c.q * c.d && c.l == c.m * c.d && 0 < c.l < c.n
    && 1 == c.u * c.q + c.v * c.m
  }

  /** How many steps into its cycle a position lies. */
  ghost function Steps(c: Cycles, k: nat): int
    requires CyclesOk(c)
  {
    (k / c.d * c.v) % c.q
  }

  /** The residue class of a position, which is the start of its cycle. */
  ghost function Residue(c: Cycles, k: nat): int
    requires CyclesOk(c)
  {
    k % c.d
  }

  /** Each step stays in the residue class and advances by one around the cycle. */
  lemma StepsNext(c: Cycles, k: nat)
    requires CyclesOk(c) && k < c.n
    ensures 0 <= Steps(c, k) < c.q && 0 <= Residue(c, k) < c.d
    ensures Residue(c, Next(k, c.n, c.l)) == Residue(c, k)
    ensures Steps(c, Next(k, c.n, c.l)) == if Steps(c, k) == c.q - 1 then 0 else Steps(c, k) + 1
  {
    NextClass(k, c.n, c.l, c.d, c.q, c.m);
    StepsAdvance(k / c.d, c.m, c.q, c.u, c.v, k >= c.n - c.l);
  }

  lemma NextClass(k: nat, n: nat, l: nat, d: nat, q: nat, m: nat)
    requires d > 0 && n == q * d && l == m * d && k < n && l <= n
    ensures Next(k, n, l) / d == if k >= n - l then k / d + m - q else k / d + m
    ensures Next(k, n, l) % d == k % d
  {
    var t := k / d;
    var t' := if k >= n - l then t + m - q else t + m;
    Distribute(t, m, t' - t - m, d);
    ModUnique(Next(k, n, l), d, t', k % d);
  }

  lemma StepsAdvance(t: int, m: int, q: int, u: int, v: int, wrap: bool)
    requires q > 1 && 1 == u * q + v * m
    ensures var t' := if wrap then t + m - q else t + m;
            t' * v % q == if t * v % q == q - 1 then 0 else t * v % q + 1
  {
    var t', w := if wrap then t + m - q else t + m, if wrap then -v else 0;
    assert t' * v == (t * v + 1) + (w - u) * q by {
      Distribute(t, m, if wrap then -q else 0, v);
      Distribute(w, -u, 0, q);
      assert m * v == v * m == 1 - u * q;
    }
    ModShift(t * v + 1, w - u, q);
    ModSuccessor(t * v, q);
  }

  lemma ModSuccessor(x: int, q: int)
    requires q > 1
    ensures (x + 1) % q == if x % q == q - 1 then 0 else x % q + 1
  {
    if x % q == q - 1 {
      ModUnique(x + 1, q, x / q + 1, 0);
    } else {
      ModUnique(x + 1, q, x / q, x % q + 1);
    }
  }

  lemma Distribute(x: int, y: int, z: int, d: int)
    ensures (x + y + z) * d == x * d + y * d + z * d
  {
  }

  /** The cycles are disjoint and pass each position once: two positions of a
      residue class are never the same number of steps in. */
  lemma StepsInjective(c: Cycles, k: nat, k': nat)
    requires CyclesOk(c) && k < c.n && k' < c.n
    requires Residue(c, k) == Residue(c, k') && Steps(c, k) == Steps(c, k')
    ensures k == k'
  {
    var t, t' := k / c.d, k' / c.d;
    var x, z := t - t', t * c.v / c.q - t' * c.v / c.q;
    assert x * c.v == z * c.q by {
      Distribute(t, -t', 0, c.v);
      Distribute(t * c.v / c.q, -(t' * c.v / c.q), 0, c.q);
    }
    var y := x * c.u + z * c.m;
    assert x == y * c.q by {
      Bezout(x, c.u, c.q, c.v, c.m, z);
    }
    QuotientBound(k, c.d, c.q);
    QuotientBound(k', c.d, c.q);
    MulOrder(y, 1, c.q);
    MulOrder(-1, y, c.q);
  }

  lemma Bezout(x: int, u: int, q: int, v: int, m: int, z: int)
    requires 1 == u * q + v * m && x * v == z * q
    ensures x == (x * u + z * m) * q
  {
    calc {
      x;
      x * (u * q + v * m);
      (x * u) * q + (x * v) * m;
      (x * u) * q + (z * q) * m;
      (x * u) * q + (z * m) * q;
      { Distribute(x * u, z * m, 0, q); }
      (x * u + z * m) * q;
    }
  }

  lemma QuotientBound(k: nat, d: nat, q: nat)
    requires d > 0 && k < q * d
    ensures 0 <= k / d < q
  {
    MulOrder(k / d, q, d);
  }

  lemma StepsStart(c: Cycles, i: nat)
    requires CyclesOk(c) && i < c.d
    ensures Residue(c, i) == i && Steps(c, i) == 0 && i < c.n
  {
    ModUnique(i, c.d, 0, i);
    assert c.q * c.d >= c.d;
  }

  lemma MkCycles(n: nat, l: nat, d: nat, q: int, m: int, u: int, v: int) returns (c: Cycles)
    requires 0 < l < n && d > 0 && n == q * d && l == m * d && Combination(d, u, n, v, l)
    ensures CyclesOk(c) && c.n == n && c.l == l && c.d == d && c.q == q && n / d == q && q > 1
  {
    MulOrder(m, q, d);
    MulOrder(0, m, d);
    MulOrder(1, q, d);
    assert (u * q + v * m) * d == u * (q * d) + v * (m * d) == d;
    MulOrder(u * q + v * m, 1, d);
    ModUnique(n, d, q, 0);
    assert m >= 1;
    c := Cycles(n, l, d, q, m, u, v);
  }

  lemma OnlyHere(c: Cycles, k: nat, idx: nat)
    requires CyclesOk(c) && idx < c.n && k < c.n && k != idx && Residue(c, k) == Residue(c, idx)
    ensures Steps(c, k) != Steps(c, idx)
  {
    if Steps(c, k) == Steps(c, idx) {
      StepsInjective(c, k, idx);
    }
  }

  // ------------------------------------------------------------------
  // A rotation in progress
  // ------------------------------------------------------------------

  /** Positions already filled when the cycles before `i` are complete and `j`
      steps of cycle `i` are. */
  ghost predicate Done(c: Cycles, k: nat, i: int, j: int)
    requires CyclesOk(c)
  {
    Residue(c, k) < i || (Residue(c, k) == i && Steps(c, k) < j)
  }

  ghost predicate Rotating<T>(s0: seq<T>, s: seq<T>, lo: nat, c: Cycles, i: int, j: int) {
    CyclesOk(c) && |s| == |s0| && lo + c.n <= |s| &&
    s[..lo] == s0[..lo] && s[lo + c.n..] == s0[lo + c.n..] &&
    forall k | 0 <= k < c.n :: s[lo + k] == if Done(c, k, i, j) then s0[lo + Next(k, c.n, c.l)] else s0[lo + k]
  }

  lemma RotatingStart<T>(s: seq<T>, lo: nat, c: Cycles)
    requires CyclesOk(c) && lo + c.n <= |s|
    ensures Rotating(s, s, lo, c, 0, 0)
  {
    forall k | 0 <= k < c.n ensures !Done(c, k, 0, 0) {
      StepsNext(c, k);
    }
  }

  /** Filling the position reached after `j` steps. */
  lemma RotatingStep<T>(s0: seq<T>, s: seq<T>, lo: nat, c: Cycles, i: int, j: int, idx: nat)
    requires Rotating(s0, s, lo, c, i, j) && idx < c.n && Residue(c, idx) == i && Steps(c, idx) == j
    ensures Rotating(s0, s[lo + idx := s0[lo + Next(idx, c.n, c.l)]], lo, c, i, j + 1)
  {
    hide Steps, Residue;
    var s' := s[lo + idx := s0[lo + Next(idx, c.n, c.l)]];
    assert s'[..lo] == s[..lo] && s'[lo + c.n..] == s[lo + c.n..];
    var j' := j + 1;
    forall k | 0 <= k < c.n
      ensures s'[lo + k] == if Done(c, k, i, j') then s0[lo + Next(k, c.n, c.l)] else s0[lo + k]
    {
      var filled := Done(c, k, i, j);
      if k != idx && Residue(c, k) == i {
        OnlyHere(c, k, idx);
      }
    }
    assert Rotating(s0, s', lo, c, i, j');
  }

  /** After as many steps as the cycle is long, the next cycle begins. */
  lemma RotatingCycle<T>(s0: seq<T>, s: seq<T>, lo: nat, c: Cycles, i: int)
    requires Rotating(s0, s, lo, c, i, c.q)
    ensures Rotating(s0, s, lo, c, i + 1, 0)
  {
    var i' := i + 1;
    forall k | 0 <= k < c.n
      ensures s[lo + k] == if Done(c, k, i', 0) then s0[lo + Next(k, c.n, c.l)] else s0[lo + k]
    {
      StepsNext(c, k);
      assert Done(c, k, i, c.q) == Done(c, k, i', 0);
    }
    assert Rotating(s0, s, lo, c, i', 0);
  }

  /** After the last cycle every position is filled. */
  lemma RotatingEnd<T>(s0: seq<T>, s: seq<T>, lo: nat, c: Cycles)
    requires Rotating(s0, s, lo, c, c.d, 0)
    ensures s == Rotated(s0, lo, c.n, c.l)
  {
    forall k | 0 <= k < c.n
      ensures s[lo + k] == s0[lo + Next(k, c.n, c.l)]
    {
      StepsNext(c, k);
      assert Done(c, k, c.d, 0);
    }
    assert s == s[..lo] + s[lo..lo + c.n] + s[lo + c.n..];
    var mid := s0[lo + c.l..lo + c.n] + s0[lo..lo + c.l];
    forall k | 0 <= k < c.n
      ensures s[lo..lo + c.n][k] == mid[k]
    {
      assert s[lo + k] == s0[lo + Next(k, c.n, c.l)];
    }
    assert s[lo..lo + c.n] == mid;
  }

  /** The slice of `n` elements from `lo` on, rotated left by `l`. */
  ghost function Rotated<T>(s: seq<T>, lo: nat, n: nat, l: nat): (r: seq<T>)
    requires lo + n <= |s| && l <= n
    ensures |r| == |s|
  {
    s[..lo] + (s[lo + l..lo + n] + s[lo..lo + l]) + s[lo + n..]
  }

  /** A rotated slice, element by element. */
  lemma RotatedAt<T>(s: seq<T>, lo: nat, n: nat, l: nat, i: nat)
    requires lo + n <= |s| && l <= n && i < n
    ensures Rotated(s, lo, n, l)[lo + i] == s[lo + (i + l) % n]
  {
    NextIsModular(i, n, l);
  }

  // ------------------------------------------------------------------
  // The program
  // ------------------------------------------------------------------

  /** Rotates the `n` elements from `lo` on to the left by `l`; nothing else
      changes. */
  method RotateLeft<T>(a: array<T>, lo: usize, n: usize, l: usize)
    requires lo + n <= a.Length <= USIZE_MAX && l <= n
    modifies a
    ensures a[..] == Rotated(old(a[..]), lo, n, l)
  {
    hide Steps, Residue, CyclesOk, Rotating, Next;
    ghost var s0 := a[..];
    if !(l == 0 || l == n) {
      var d;
      ghost var q', m, u, v;
      d, q', m, u, v := GcdLoop(n, l);
      ghost var c := MkCycles(n, l, d, q', m, u, v);
      var q: usize := n / d;
      var i: usize := 0;
      RotatingStart(a[..], lo, c);
      while i < d
        invariant i <= d
        invariant Rotating(s0, a[..], lo, c, i, 0)
      {
        StepsStart(c, i);
        var save := a[lo + i];
        RotatingOld(s0, a[..], lo, c, i, 0, i);
        var j: usize := 0;
        var idx: usize := i;
        while j < q - 1
          invariant j <= q - 1
          invariant idx < n && Residue(c, idx) == i && Steps(c, idx) == j
          invariant Rotating(s0, a[..], lo, c, i, j)
        {
          StepsNext(c, idx);
          NextIs(idx, n, l);
          var idx': usize := if idx >= n - l then idx - (n - l) else idx + l;
          RotatingOld(s0, a[..], lo, c, i, j, idx');
          var x := a[lo + idx'];
          RotatingStep(s0, a[..], lo, c, i, j, idx);
          ghost var s := a[..];
          a[lo + idx] := x;
          assert a[..] == s[lo + idx := x];
          j := j + 1;
          idx := idx';
        }
        StepsNext(c, idx);
        NextIs(idx, n, l);
        StepsInjective(c, Next(idx, n, l), i);
        RotatingStep(s0, a[..], lo, c, i, j, idx);
        ghost var s := a[..];
        a[lo + idx] := save;
        assert a[..] == s[lo + idx := save];
        RotatingCycle(s0, a[..], lo, c, i);
        i := i + 1;
      }
      RotatingEnd(s0, a[..], lo, c);
    } else {
      assert a[..] == Rotated(s0, lo, n, l);
    }
  }

  lemma NextIs(k: nat, n: nat, l: nat)
    requires k < n && 0 < l <= n
    ensures Next(k, n, l) == (if k >= n - l then k - (n - l) else k + l) < n
  {
  }

  /** Positions not yet filled hold their old element. */
  lemma RotatingOld<T>(s0: seq<T>, s: seq<T>, lo: nat, c: Cycles, i: int, j: int, k: nat)
    requires Rotating(s0, s, lo, c, i, j) && k < c.n && Residue(c, k) == i && Steps(c, k) >= j
    ensures s[lo + k] == s0[lo + k]
  {
    assert !Done(c, k, i, j);
  }
}
