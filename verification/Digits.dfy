/** Numbers written in base 2^26, least significant digit first.

    A big integer keeps its digits as numbered properties of a JavaScript object, that is, in a
    map from index to digit: indices past the current length may hold stale digits or nothing. */
module Digits {
  import opened JsNumber
  import opened Ring

  const DB: nat := 26
  const DV: int := 0x400_0000
  const DM: int := 0x3ff_ffff

  /** `x & DM`: the lowest digit of the two's complement form of x. */
  function Mask(x: int): (r: int)
    requires Exact(x)
    ensures 0 <= r < DV
  {
    x % 0x400_0000
  }

  /** `x >> DB`, which rounds towards minus infinity. */
  function Carry(x: int): int
    requires Int32(x)
  {
    x / 0x400_0000
  }

  type Store = map<int, int>

  ghost predicate Defined(d: Store, lo: int, n: nat) {
    forall i :: lo <= i < lo + n ==> i in d
  }

  ghost predicate InRange(d: Store, lo: int, n: nat) {
    forall i :: lo <= i < lo + n ==> i in d && 0 <= d[i] < DV
  }

  /** The weight of digit n. */
  function P(n: nat): (r: int)
    ensures r >= 1
  {
    if n == 0 then 1 else 0x400_0000 * P(n - 1)
  }

  /** The number written by the n digits from index lo upwards. */
  ghost function S(d: Store, lo: int, n: nat): int
    requires Defined(d, lo, n)
  {
    if n == 0 then 0 else S(d, lo, n - 1) + Mul(d[lo + n - 1], P(n - 1))
  }

  lemma Scale(x: int, p: int)
    ensures Mul(0x400_0000 * x, p) == 0x400_0000 * Mul(x, p)
    ensures Mul(x, 0x400_0000 * p) == 0x400_0000 * Mul(x, p)
    ensures Mul(0x400_0000, p) == 0x400_0000 * p
    ensures Mul(p, 0x400_0000) == 0x400_0000 * p
  {
  }

  lemma POne()
    ensures P(0) == 1 && P(1) == 0x400_0000
  {
  }

  lemma PNext(n: nat)
    ensures P(n + 1) == 0x400_0000 * P(n)
  {
  }

  lemma PAdd(a: nat, b: nat)
    ensures P(a + b) == Mul(P(a), P(b))
  {
    hide Mul;
    if a > 0 {
      PAdd(a - 1, b);
      Scale(P(a - 1), P(b));
    } else {
      Units(P(b));
    }
  }

  lemma PMonotone(a: nat, b: nat)
    requires a <= b
    ensures P(a) <= P(b)
  {
    if a < b { PMonotone(a, b - 1); }
  }

  lemma PIsPow2(n: nat)
    ensures P(n) == Pow2(26 * n)
  {
    hide Mul;
    Pow2Values();
    if n > 0 {
      PIsPow2(n - 1);
      Pow2Add(26, 26 * (n - 1));
      Scale(1, Pow2(26 * (n - 1)));
    }
  }

  /** The value depends only on the digits read. */
  lemma SFrame(d: Store, lo: int, e: Store, lo': int, n: nat)
    requires Defined(d, lo, n) && Defined(e, lo', n)
    requires forall i :: lo <= i < lo + n ==> d[i] == e[i + (lo' - lo)]
    ensures S(d, lo, n) == S(e, lo', n)
  {
    hide Mul;
    if n > 0 {
      SFrame(d, lo, e, lo', n - 1);
    }
  }

  lemma SSplit(d: Store, lo: int, a: nat, b: nat)
    requires Defined(d, lo, a + b)
    ensures S(d, lo, a + b) == S(d, lo, a) + Mul(P(a), S(d, lo + a, b))
  {
    hide Mul, P;
    if b > 0 {
      SSplit(d, lo, a, b - 1);
      PAdd(a, b - 1);
      var x := d[lo + a + b - 1];
      Associate(P(a), x, P(b - 1));
      Distribute(S(d, lo + a, b), S(d, lo + a, b - 1), Mul(x, P(b - 1)), P(a));
    } else {
      Units(P(a));
    }
  }

  lemma SBound(d: Store, lo: int, n: nat)
    requires InRange(d, lo, n)
    ensures 0 <= S(d, lo, n) < P(n)
  {
    hide Mul;
    if n > 0 {
      SBound(d, lo, n - 1);
      MulLe(0, d[lo + n - 1], P(n - 1));
      MulGap(d[lo + n - 1], 0x400_0000, P(n - 1));
      Scale(1, P(n - 1));
      Units(P(n - 1));
    }
  }

  lemma STop(d: Store, n: nat)
    requires n > 0 && InRange(d, 0, n) && d[n - 1] != 0
    ensures S(d, 0, n) >= P(n - 1)
  {
    hide Mul;
    SBound(d, 0, n - 1);
    MulLe(1, d[n - 1], P(n - 1));
    Units(P(n - 1));
  }

  lemma SZero(d: Store, lo: int, n: nat)
    requires Defined(d, lo, n) && forall i :: lo <= i < lo + n ==> d[i] == 0
    ensures S(d, lo, n) == 0
  {
    hide Mul;
    if n > 0 {
      SZero(d, lo, n - 1);
      Units(P(n - 1));
    }
  }

  lemma SLast(d: Store, lo: int, n: nat)
    requires Defined(d, lo, n + 1)
    ensures S(d, lo, n + 1) == S(d, lo, n) + Mul(d[lo + n], P(n))
  {
  }

  lemma SEmpty(d: Store, lo: int)
    ensures S(d, lo, 0) == 0
  {
  }

  lemma SOne(d: Store, lo: int)
    requires lo in d
    ensures S(d, lo, 1) == d[lo]
  {
    Units(d[lo]);
    assert P(0) == 1 && S(d, lo, 0) == 0;
  }

  /** Reading the digits below i back from the value, and those from i on. */
  lemma SDivMod(d: Store, n: nat, i: nat)
    requires i <= n && InRange(d, 0, n)
    ensures Quo(S(d, 0, n), P(i)) == S(d, i, n - i)
    ensures Mod(S(d, 0, n), P(i)) == S(d, 0, i)
  {
    hide Mul, Quo, Mod, P, S;
    SSplit(d, 0, i, n - i);
    SBound(d, 0, i);
    Commute(P(i), S(d, i, n - i));
    DivUnique(S(d, 0, n), P(i), S(d, i, n - i), S(d, 0, i));
  }

  lemma SDigit(d: Store, n: nat, i: nat)
    requires i < n && InRange(d, 0, n)
    ensures d[i] == Quo(S(d, 0, n), P(i)) % 0x400_0000
  {
    hide Mul, S, P, Quo;
    SDivMod(d, n, i);
    SLow(d, i, n - i);
  }

  lemma SLow(d: Store, i: int, n: nat)
    requires n > 0 && Defined(d, i, n)
    ensures S(d, i, n) == d[i] + 0x400_0000 * S(d, i + 1, n - 1)
  {
    hide Mul;
    SSplit(d, i, 1, n - 1);
    SOne(d, i);
    Scale(1, S(d, i + 1, n - 1));
    assert P(1) == 0x400_0000;
  }

  /** Equal values of equal length have equal digits. */
  lemma SUnique(d: Store, e: Store, n: nat)
    requires InRange(d, 0, n) && InRange(e, 0, n) && S(d, 0, n) == S(e, 0, n)
    ensures forall i :: 0 <= i < n ==> d[i] == e[i]
  {
    hide Mul, Quo, P, S;
    forall i | 0 <= i < n ensures d[i] == e[i] {
      SDigit(d, n, i);
      SDigit(e, n, i);
    }
  }

  ghost predicate SameOutside(w: Store, v: Store, j: nat, n: nat) {
    forall i :: !(j <= i < j + n) ==> (i in w <==> i in v) && (i in w ==> w[i] == v[i])
  }

  /** Changing the window of n digits from j on changes the whole at the window's weight. */
  lemma SWindow(v: Store, w: Store, j: nat, n: nat, total: nat, delta: int)
    requires j + n <= total && Defined(v, 0, total) && Defined(w, j, n) && SameOutside(w, v, j, n)
    requires S(w, j, n) == S(v, j, n) + delta
    ensures Defined(w, 0, total) && S(w, 0, total) == S(v, 0, total) + Mul(P(j), delta)
  {
    hide Mul, P, S;
    SWindowHere(v, w, j, n, delta);
    SAbove(v, w, j + n, total);
  }

  lemma SAbove(v: Store, w: Store, k: nat, total: nat)
    requires k <= total && Defined(v, 0, total) && Defined(w, 0, total)
    requires forall i :: k <= i < total ==> w[i] == v[i]
    ensures S(w, 0, total) - S(v, 0, total) == S(w, 0, k) - S(v, 0, k)
  {
    hide Mul, P;
    if k < total {
      SAbove(v, w, k, total - 1);
    }
  }

  lemma SWindowHere(v: Store, w: Store, j: nat, n: nat, delta: int)
    requires Defined(v, 0, j + n) && Defined(w, j, n) && SameOutside(w, v, j, n)
    requires S(w, j, n) == S(v, j, n) + delta
    ensures Defined(w, 0, j + n) && S(w, 0, j + n) == S(v, 0, j + n) + Mul(P(j), delta)
  {
    hide Mul, P, S;
    SSplit(v, 0, j, n);
    SSplit(w, 0, j, n);
    SFrame(v, 0, w, 0, j);
    Distribute(S(w, j, n), S(v, j, n), delta, P(j));
  }

  /** Overwriting digit i adds the difference at that weight. */
  lemma SUpdate(d: Store, n: nat, i: nat, x: int)
    requires i < n && Defined(d, 0, n)
    ensures Defined(d[i := x], 0, n)
    ensures S(d[i := x], 0, n) == S(d, 0, n) + Mul(x - d[i], P(i))
  {
    hide Mul, P, S;
    SOne(d, i);
    SOne(d[i := x], i);
    SWindow(d, d[i := x], i, 1, n, x - d[i]);
    Commute(P(i), x - d[i]);
  }
}
