/** Modular reduction in two ways, and exponentiation over either. */
module Reducers {
  import opened JsNumber
  import opened Ring
  import opened Digits
  import opened SignedDigits
  import opened Division
  import opened Congruence
  import opened BigIntegers

  /** The multiplier that clears digit e: the product of e and mp modulo 2^26, from 15-bit halves
      so that no product is lost to the 32-bit operators. */
  function ClearingDigit(e: int, mpl: int, mph: int): int
    requires 0 <= e < DV && 0 <= mpl < 0x8000 && 0 <= mph < 0x800
  {
    var lo, hi := e % 0x8000, e / 0x8000;
    HalfProducts(lo, hi, mpl, mph);
    Mask(Mul(lo, mpl) + Shl(Low(Mul(lo, mph) + Mul(hi, mpl), 11), 15))
  }

  lemma HalfProducts(lo: int, hi: int, mpl: int, mph: int)
    requires 0 <= lo < 0x8000 && 0 <= hi < 0x800 && 0 <= mpl < 0x8000 && 0 <= mph < 0x800
    ensures 0 <= Mul(lo, mpl) < 0x4000_0000 && 0 <= Mul(lo, mph) + Mul(hi, mpl) < 0x800_0000
    ensures Exact(Mul(lo, mph) + Mul(hi, mpl))
    ensures var l := Low(Mul(lo, mph) + Mul(hi, mpl), 11);
      0 <= l < 0x800 && Mul(l, Pow2(15)) == 0x8000 * l && Int32(Mul(l, Pow2(15)))
      && Exact(Mul(lo, mpl) + Mul(l, Pow2(15)))
  {
    hide Mul, Quo, Mod, Congruent, Low, Pow2;
    MulLe(0, lo, mpl);
    MulLe(0, lo, mph);
    MulLe(0, hi, mpl);
    Units(mpl);
    Units(mph);
    MulLe(lo, 0x7fff, mpl);
    MulLe(lo, 0x7fff, mph);
    MulLe(hi, 0x7ff, mpl);
    MulLe(mpl, 0x7fff, 0x7fff);
    MulLe(mph, 0x7ff, 0x7fff);
    MulLe(mpl, 0x7fff, 0x7ff);
    HalfLiterals();
    Pow2Values();
    var z := Mul(lo, mph) + Mul(hi, mpl);
    LowCongruent(z, 11);
    ShiftByFifteen(Low(z, 11));
  }

  lemma HalfLiterals()
    ensures Mul(0x7fff, 0x7fff) < 0x4000_0000 && Mul(0x7fff, 0x7ff) < 0x400_0000 && Mul(0x7ff, 0x7fff) < 0x400_0000
  {
  }

  lemma ShiftByFifteen(x: int)
    ensures Mul(x, Pow2(15)) == 0x8000 * x
  {
    Pow2Values();
  }

  lemma ClearingDigitIsProduct(e: int, mp: int)
    requires 0 <= e < DV && 0 <= mp < DV
    ensures var b := ClearingDigit(e, mp % 0x8000, mp / 0x8000);
      0 <= b < DV && Congruent(b, Mul(e, mp), DV)
  {
    hide Mul, Quo, Mod, Congruent, Low, Pow2;
    var lo, hi, mpl, mph := e % 0x8000, e / 0x8000, mp % 0x8000, mp / 0x8000;
    HalfProducts(lo, hi, mpl, mph);
    var z := Mul(lo, mph) + Mul(hi, mpl);
    var l := Low(z, 11);
    LowCongruent(z, 11);
    Pow2Values();
    var k := SplitCongruence(l, z, 0x800);
    ProductOfHalves(lo, hi, mpl, mph);
    var v := Mul(lo, mpl) + 0x8000 * l;
    var q := v / 0x400_0000;
    Scale(1, k - 16 * Mul(hi, mph) - q);
    Units(k - 16 * Mul(hi, mph) - q);
    Commute(k - 16 * Mul(hi, mph) - q, DV);
    CongruentBy(v % 0x400_0000, Mul(e, mp), DV, k - 16 * Mul(hi, mph) - q);
  }

  lemma SplitCongruence(l: int, z: int, m: int) returns (k: int)
    requires Congruent(l, z, m) && m == 0x800
    ensures l == z + 0x800 * k
  {
    k :| l == z + Mul(k, m);
  }

  lemma ProductOfHalves(lo: int, hi: int, mpl: int, mph: int)
    ensures Mul(lo + 0x8000 * hi, mpl + 0x8000 * mph)
         == Mul(lo, mpl) + 0x8000 * (Mul(lo, mph) + Mul(hi, mpl)) + 0x4000_0000 * Mul(hi, mph)
  {
  }

  /** The state of a Montgomery reduction of x when the a lowest digits have been cleared. */
  ghost predicate Reducing(v: int, x: int, m: int, k: nat, a: nat) {
    m > 0 && 0 <= v < Mul(m, P(k)) + Mul(m, P(a)) && Congruent(v, x, m) && Mod(v, P(a)) == 0
  }

  lemma ReducingStart(x: int, m: int, k: nat)
    requires m > 0 && 0 <= x < Mul(m, P(k))
    ensures Reducing(x, x, m, k, 0)
  {
    hide Mul, Quo, Mod, P, Congruent;
    POne();
    Units(m);
    Units(x);
    CongruentSame(x, m);
    DivUnique(x, 1, x, 0);
  }

  /** Clearing digit a by adding the right multiple of the modulus. */
  lemma ReducingStep(v: int, x: int, m: int, m0: int, mp: int, k: nat, a: nat, e: int, b: int)
    requires Reducing(v, x, m, k, a) && Congruent(m, m0, DV) && Congruent(Mul(mp, m0), -1, DV)
    requires e == Quo(v, P(a)) % 0x400_0000 && 0 <= b < DV && Congruent(b, Mul(e, mp), DV)
    ensures Reducing(v + Mul(Mul(b, m), P(a)), x, m, k, a + 1)
  {
    hide Mul, Quo, Mod, P, Congruent;
    var u := Quo(v, P(a));
    DivMod(v, P(a));
    var w := u + Mul(b, m);
    assert Congruent(w, 0, DV) by { DigitCleared(u, m, m0, mp, e, b); }
    var y := ZeroResidue(w, DV);
    Distribute(w, u, Mul(b, m), P(a));
    PNext(a);
    Scale(y, P(a));
    Scale(1, y);
    Units(y);
    Commute(y, DV);
    DivMultiple(y, P(a + 1));
    assert Congruent(v + Mul(Mul(b, m), P(a)), x, m) by {
      Associate(b, m, P(a));
      Commute(m, P(a));
      Associate(b, P(a), m);
      CongruentBy(v + Mul(Mul(b, P(a)), m), v, m, Mul(b, P(a)));
      CongruentJoin(v + Mul(Mul(b, P(a)), m), v, x, m);
    }
    MulLe(0, b, m);
    Units(m);
    MulGap(b, 0x400_0000, m);
    MulLe(0, Mul(b, m), P(a));
    Units(P(a));
    Scale(1, m);
    MulLe(Mul(b, m) + m, 0x400_0000 * m, P(a));
    Distribute(Mul(b, m) + m, Mul(b, m), m, P(a));
    Scale(m, P(a));
  }

  lemma DigitCleared(u: int, m: int, m0: int, mp: int, e: int, b: int)
    requires Congruent(m, m0, DV) && Congruent(Mul(mp, m0), -1, DV)
    requires e == u % 0x400_0000 && Congruent(b, Mul(e, mp), DV)
    ensures Congruent(u + Mul(b, m), 0, DV)
  {
    hide Mul, Congruent;
    CongruentMul(b, Mul(e, mp), m, m0, DV);
    Associate(e, mp, m0);
    CongruentScale(Mul(mp, m0), -1, DV, e);
    Units(e);
    CongruentJoin(Mul(b, m), Mul(e, Mul(mp, m0)), -e, DV);
    var q := u / 0x400_0000;
    Scale(1, q);
    Units(q);
    Commute(q, DV);
    CongruentBy(u, e, DV, q);
    CongruentAdd(u, e, Mul(b, m), -e, DV);
  }

  lemma ZeroResidue(w: int, m: int) returns (y: int)
    requires Congruent(w, 0, m)
    ensures w == Mul(y, m)
  {
    y :| w == 0 + Mul(y, m);
  }

  /** With all k digits cleared, the rest of the number is the reduced value, up to one m. */
  lemma ReducingDone(v: int, x: int, m: int, k: nat)
    requires Reducing(v, x, m, k, k)
    ensures var y := Quo(v, P(k));
      0 <= y < 2 * m && Congruent(Mul(y, P(k)), x, m) && Congruent(Mul(y - m, P(k)), x, m)
  {
    hide Mul, Quo, Mod, P, Congruent;
    var y := Quo(v, P(k));
    DivMod(v, P(k));
    Units(P(k));
    if y < 0 { MulLe(y, -1, P(k)); }
    if y >= 2 * m {
      MulLe(2 * m, y, P(k));
      Distribute(2 * m, m, m, P(k));
    }
    Distribute(y, y - m, m, P(k));
    Commute(m, P(k));
    Negate(P(k), m);
    CongruentBy(Mul(y - m, P(k)), Mul(y, P(k)), m, -P(k));
    CongruentJoin(Mul(y - m, P(k)), Mul(y, P(k)), x, m);
  }

  /** Reduction by shifting down: with k the length of the odd modulus, x becomes x / 2^(26 k). */
  class Montgomery {
    const m: BigInteger
    const mp: int
    const mpl: int
    const mph: int
    const mt2: int
    const est: Estimator

    ghost predicate Valid()
      reads this, m
    {
      m.Valid() && m.s == 0 && m.t > 0 && m.Value() > 0 && m.Value() % 2 == 1
      && 0 < mp < DV && Congruent(Mul(mp, m.d[0]), -1, DV)
      && mpl == mp % 0x8000 && mph == mp / 0x8000 && mt2 == 2 * m.t
    }

    constructor (a: BigInteger, est: Estimator)
      requires a.Valid() && a.Value() > 0 && a.Value() % 2 == 1
      ensures Valid() && m == a && this.est == est
    {
      hide Mul, P, S, Congruent;
      SignOf(a.d, a.t, a.s);
      NumEmpty(a.d, a.s);
      ParityOf(a.d, a.t, a.s);
      m := a;
      var p := a.InvDigit();
      mp := p;
      mpl := p % 0x8000;
      mph := p / 0x8000;
      mt2 := 2 * a.t;
      this.est := est;
    }

    /** The number that stands for x: x * 2^(26 k) mod m. */
    method Convert(x: BigInteger) returns (a: BigInteger)
      requires Valid() && x.Valid()
      requires GuessesSound(est, Mul(Magnitude(x.Value()), P(m.t)), m.Value())
      ensures fresh(a) && a.Valid() && a.s == 0 && 0 <= a.Value() < m.Value()
      ensures Congruent(a.Value(), Mul(x.Value(), P(m.t)), m.Value())
    {
      hide Mul, Quo, Mod, P, S, Congruent, GuessesSound;
      ghost var n, M, R := x.Value(), m.Value(), P(m.t);
      SignOf(x.d, x.t, x.s);
      SignOf(m.d, m.t, m.s);
      a := new BigInteger.Nbi();
      var e := x.Abs();
      ScaledMagnitude(n, R, M);
      ZeroLength(e.d, e.t, e.s);
      e.DlShiftTo(m.t, a);
      a.DivRemTo(m, null, a, est);
      var zero := Nbv(0);
      var c := a.CompareTo(zero);
      if x.s < 0 && c > 0 {
        m.SubTo(a, a);
      }
      SignOf(a.d, a.t, a.s);
    }

    /** The number that b stands for. */
    method Revert(b: BigInteger) returns (a: BigInteger)
      requires Valid() && b.Valid() && b.s == 0 && 0 <= b.Value() < m.Value()
      ensures fresh(a) && a.Valid() && a.s == 0 && 0 <= a.Value() < m.Value()
      ensures Congruent(Mul(a.Value(), P(m.t)), b.Value(), m.Value())
    {
      hide Mul, P, Congruent;
      a := new BigInteger.Nbi();
      b.CopyTo(a);
      Units(m.Value());
      MulLe(1, P(m.t), m.Value());
      Reduce(a);
    }

    /** c = c / 2^(26 k) modulo m, in place, for any c that is below m * 2^(26 k). */
    method Reduce(c: BigInteger)
      requires Valid() && c != m && c.Valid() && c.s == 0
      requires 0 <= c.Value() < Mul(m.Value(), P(m.t))
      modifies c
      ensures c.Valid() && c.s == 0 && 0 <= c.Value() < m.Value()
      ensures Congruent(Mul(c.Value(), P(m.t)), old(c.Value()), m.Value())
    {
      hide Mul, Quo, Mod, P, S, Congruent, Reducing;
      ghost var x, M, k := c.Value(), m.Value(), m.t;
      SignOf(m.d, m.t, m.s);
      ProductLength(c.d, c.t, c.s, M, k);
      ReducingStart(x, M, k);
      c.PadTo(mt2 + 1);
      var a := 0;
      while a < m.t
        invariant 0 <= a <= k && Valid() && c.Digits() && c.s == 0 && c.t == 2 * k + 1
        invariant Reducing(c.Value(), x, M, k, a)
      {
        ReduceDigit(c, a, x);
        a := a + 1;
      }
      ReducingDone(c.Value(), x, M, k);
      c.Clamp();
      c.DrShiftTo(m.t, c);
      var r := c.CompareTo(m);
      if r >= 0 {
        c.SubTo(m, c);
      }
      SignOf(c.d, c.t, c.s);
    }

    /** One digit of the reduction: add the multiple of m that clears digit a, and carry. */
    method ReduceDigit(c: BigInteger, a: nat, ghost x: int)
      requires Valid() && c != m && a < m.t && c.Digits() && c.s == 0 && c.t == 2 * m.t + 1
      requires Reducing(c.Value(), x, m.Value(), m.t, a)
      modifies c`d
      ensures c.Digits() && Reducing(c.Value(), x, m.Value(), m.t, a + 1)
    {
      hide Mul, Quo, Mod, P, S, Congruent, Reducing, ClearingDigit;
      var k := m.t;
      NumNonNegative(c.d, c.t);
      NumNonNegative(m.d, m.t);
      SignOf(m.d, m.t, m.s);
      ghost var v, M := c.d, m.Value();
      SDigit(c.d, c.t, a);
      ClearingDigitIsProduct(c.d[a], mp);
      var b := ClearingDigit(c.d[a], mpl, mph);
      LowestDigit(m.d, m.t);
      ReducingStep(c.Value(), x, M, m.d[0], mp, k, a, c.d[a], b);
      ReducingFits(c.Value() + Mul(Mul(b, M), P(a)), x, M, k, a + 1);
      var carry := m.Am(0, b, c, a, 0, k);
      KernelEffect(v, c.d, a, k, c.t, b, M, carry);
      c.d := c.d[a + k := c.d[a + k] + carry];
      c.CarryUp(a + k);
      NumNonNegative(c.d, c.t);
    }
  }

  /** The residue of n * r from that of its magnitude. */
  lemma ScaledMagnitude(n: int, r: int, m: int)
    requires r > 0 && m > 0
    ensures var y := Mul(Magnitude(n), r);
      y >= 0 && (n == 0 ==> y == 0)
      && var z := TruncatedRemainder(y, m);
        0 <= z < m && Congruent(if n < 0 && z > 0 then m - z else z, Mul(n, r), m)
  {
    hide Mul, Quo, Mod, Congruent;
    var x: int := Magnitude(n);
    Units(r);
    MulLe(0, x, r);
    if x > 0 { MulPositive(x, r); }
    Negate(x, r);
    TruncatedFromMagnitudes(Mul(x, r), m);
    ResidueOfMagnitude(Mul(n, r), m);
    CongruentMod(Mul(n, r), m);
  }

  lemma ZeroLength(d: Store, t: nat, s: int)
    requires InRange(d, 0, t) && Clamped(d, t, s) && s == 0
    ensures Num(d, t, s) == 0 ==> t == 0
  {
    LengthBounds(d, t, s);
  }

  lemma ProductLength(d: Store, t: nat, s: int, m: int, k: nat)
    requires InRange(d, 0, t) && Clamped(d, t, s) && s == 0 && 0 < m < P(k)
    requires Num(d, t, s) < Mul(m, P(k))
    ensures t <= 2 * k
  {
    hide Mul, P, S;
    if t > 2 * k {
      LengthBounds(d, t, s);
      PMonotone(2 * k, t - 1);
      PAdd(k, k);
      MulLe(m, P(k), P(k));
    }
  }

  lemma LowestDigit(d: Store, t: nat)
    requires t > 0 && InRange(d, 0, t)
    ensures Congruent(Num(d, t, 0), d[0], DV)
  {
    hide Mul, P, S;
    NumNonNegative(d, t);
    SLow(d, 0, t);
    var q := S(d, 1, t - 1);
    Scale(1, q);
    Units(q);
    Commute(q, DV);
    CongruentBy(Num(d, t, 0), d[0], DV, q);
  }

  /** The number being reduced always fits 2 k + 1 digits. */
  lemma ReducingFits(v: int, x: int, m: int, k: nat, a: nat)
    requires Reducing(v, x, m, k, a) && a <= k && m < P(k)
    ensures 0 <= v < P(2 * k + 1)
  {
    hide Mul, Mod, P, Congruent;
    PMonotone(a, k);
    MulLe(P(a), P(k), m);
    MulLe(m, P(k), P(k));
    PAdd(k, k);
    PNext(2 * k);
  }

  /** Reduction by division. */
  class Classic {
    const m: BigInteger
    const est: Estimator

    ghost predicate Valid()
      reads m
    {
      m.Valid() && m.Value() > 0
    }

    constructor (a: BigInteger, est: Estimator)
      requires a.Valid() && a.Value() > 0
      ensures Valid() && m == a && this.est == est
    {
      m := a;
      this.est := est;
    }

    /** The residue of x; x itself, the same object, if it is one already. */
    method Convert(x: BigInteger) returns (a: BigInteger)
      requires Valid() && x.Valid()
      requires GuessesSound(est, Magnitude(x.Value()), m.Value())
      ensures a == x || fresh(a)
      ensures a.Valid() && a.s == 0 && a.Value() == Mod(x.Value(), m.Value())
    {
      hide Mul, Quo, Mod, P, S, GuessesSound;
      SignOf(x.d, x.t, x.s);
      var c := 0;
      if x.s >= 0 {
        c := x.CompareTo(m);
      }
      if x.s < 0 || c >= 0 {
        a := x.Residue(m, est);
      } else {
        a := x;
        Units(m.Value());
        DivUnique(x.Value(), m.Value(), 0, x.Value());
      }
    }

    /** x modulo m, in place. */
    method Reduce(x: BigInteger)
      requires Valid() && x != m && x.Valid() && x.s == 0
      requires GuessesSound(est, x.Value(), m.Value())
      modifies x
      ensures x.Valid() && x.s == 0 && x.Value() == Mod(old(x.Value()), m.Value())
    {
      hide Mul, Quo, Mod, P, S, GuessesSound;
      SignOf(x.d, x.t, x.s);
      TruncatedFromMagnitudes(x.Value(), m.Value());
      QuoNonNegative(x.Value(), m.Value());
      x.DivRemTo(m, null, x, est);
      SignOf(x.d, x.t, x.s);
    }
  }
}
