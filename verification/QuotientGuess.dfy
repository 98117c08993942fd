/** The quotient digit guess of long division: what it must satisfy, that exact arithmetic
    satisfies it, and that double arithmetic does not always. */
module QuotientGuess {
  import opened JsNumber
  import opened Ring
  import opened Digits
  import opened Division

  /** The two leading digits of the divisor as one number. */
  function Leading2(d1: int, d2: int): int {
    d1 * 0x400_0000 + d2
  }

  /** The guess in exact arithmetic: the window's two top digits, the lower one raised by one,
      over the divisor's two top digits, rounded down. */
  function ExactGuess(b1: int, b2: int, d1: int, d2: int): int {
    if Leading2(d1, d2) > 0 then Quo((b1 * 0x400_0000 + b2 + 1) * 0x400_0000, Leading2(d1, d2)) else 0
  }

  /** A quotient digit b of the window is bounded by the leading digits: b * K stays below
      (b1 * 2^26 + b2 + 1) * 2^26. */
  lemma LeadingBound(win: int, w: int, h: nat)
    requires Normalized(w, h) && 0 <= win < 0x400_0000 * w
    ensures var q, k := Quo(win, w), Leading2(Top(w, h), Second(w, h));
      var b1, b2 := Quo(win, P(h)), Quo(win, P(h - 1)) % 0x400_0000;
      Mul(q, k) < (b1 * 0x400_0000 + b2 + 1) * 0x400_0000
      && 0x8_0000_0000_0000 <= k && k < 0x10_0000_0000_0000 && 0 <= b1 <= Top(w, h)
      && 0 <= Second(w, h) < DV && 0x200_0000 <= Top(w, h) < DV && 0 <= q < DV
  {
    hide Mul, Quo, Mod, P;
    LeadingDigits(w, h);
    WindowTop(win, w, h);
    TrueDigitBound(win, w);
    DivMod(win, w);
    var q, k := Quo(win, w), Leading2(Top(w, h), Second(w, h));
    var top := Quo(win, P(h - 1));
    DivMod(win, P(h - 1));
    if h > 1 {
      PNext(h - 2);
      var p := P(h - 2);
      MulLe(Mul(k, p), w, q);
      Associate(q, k, p);
      Distribute(top + 1, top, 1, P(h - 1));
      Units(P(h - 1));
      Scale(top + 1, p);
      assert Mul(Mul(q, k), p) < Mul(0x400_0000 * (top + 1), p);
      if Mul(q, k) >= 0x400_0000 * (top + 1) {
        MulLe(0x400_0000 * (top + 1), Mul(q, k), p);
        assert false;
      }
    } else {
      POne();
      Units(w);
      Units(win);
      Units(top);
      Scale(q, w);
      Commute(q, 0x400_0000 * w);
      Commute(q, w);
      Scale(w, q);
      assert Mul(q, k) == 0x400_0000 * Mul(q, w);
    }
  }

  /** The divisor's leading digits bound it from below; its top bit is set. */
  lemma LeadingDigits(w: int, h: nat)
    requires Normalized(w, h)
    ensures var d1, d2 := Top(w, h), Second(w, h);
      0x200_0000 <= d1 < DV && 0 <= d2 < DV
      && (h > 1 ==> Mul(Leading2(d1, d2), P(h - 2)) <= w)
      && (h == 1 ==> w == d1 && d2 == 0)
  {
    hide Mul, Quo, Mod, P;
    var d1 := Quo(w, P(h - 1));
    DivMod(w, P(h - 1));
    PNext(h - 1);
    Units(P(h - 1));
    Scale(1, P(h - 1));
    if d1 >= 0x400_0000 { MulLe(0x400_0000, d1, P(h - 1)); }
    if d1 < 0x200_0000 {
      MulLe(d1 + 1, 0x200_0000, P(h - 1));
      Distribute(d1 + 1, d1, 1, P(h - 1));
      Distribute(0x400_0000, 0x200_0000, 0x200_0000, P(h - 1));
    }
    if h > 1 {
      var p := P(h - 2);
      PNext(h - 2);
      var u := Quo(w, p);
      DivMod(w, p);
      TwoPow(p);
      QuoQuo(w, p, 0x400_0000);
      QuoLiteral(u);
      assert d1 == u / 0x400_0000;
    } else {
      POne();
      Units(d1);
    }
  }

  lemma TwoPow(p: int)
    ensures Mul(p, 0x400_0000) == 0x400_0000 * p
  {
  }

  lemma QuoLiteral(u: int)
    ensures Quo(u, 0x400_0000) == u / 0x400_0000
  {
  }

  lemma WindowTop(win: int, w: int, h: nat)
    requires Normalized(w, h) && 0 <= win < 0x400_0000 * w
    ensures 0 <= Quo(win, P(h)) <= Top(w, h)
    ensures Quo(win, P(h - 1)) == 0x400_0000 * Quo(win, P(h)) + Quo(win, P(h - 1)) % 0x400_0000
  {
    hide Mul, Quo, Mod, P;
    var p := P(h - 1);
    PNext(h - 1);
    TwoPow(p);
    QuoQuo(win, p, 0x400_0000);
    QuoLiteral(Quo(win, p));
    QuoNonNegative(win, P(h));
    DivMod(win, P(h));
    DivMod(w, p);
    var b, d := Quo(win, P(h)), Quo(w, p);
    Distribute(d + 1, d, 1, p);
    Units(p);
    Scale(b, p);
    if b > d {
      MulLe(d + 1, b, p);
    }
  }

  /** In exact arithmetic the guess is never too low. */
  lemma ExactGuessSound(win: int, w: int, h: nat)
    requires Normalized(w, h) && 0 <= win < 0x400_0000 * w
    ensures TrialSound(ExactGuess, win, w, h)
  {
    hide Mul, Quo, Mod, P;
    LeadingBound(win, w, h);
    var d1, d2, q := Top(w, h), Second(w, h), Quo(win, w);
    var k := Leading2(d1, d2);
    var b1, b2 := Quo(win, P(h)), Quo(win, P(h - 1)) % 0x400_0000;
    if b1 != d1 {
      var x := (b1 * 0x400_0000 + b2 + 1) * 0x400_0000;
      var g := Quo(x, k);
      DivMod(x, k);
      Distribute(g + 1, g, 1, k);
      Units(k);
      if q > g { MulLe(g + 1, q, k); }
      Scale(1, k);
      if g > 0x400_0000 { MulGap(0x400_0000, g, k); }
    }
  }

  /** With exact guesses every division is sound, whatever the operands. */
  lemma ExactAlwaysSound(n: int, m: int)
    requires n >= 0 && m > 0
    ensures GuessesSound(ExactGuess, n, m)
  {
    hide Mul, Quo, Mod, P;
    forall l: nat, h: nat | l < 26 && Normalized(Mul(m, Pow2(l)), h)
      ensures Mul(m, Pow2(l)) > 0 && StepsSound(ExactGuess, Mul(n, Pow2(l)), Mul(m, Pow2(l)), h)
    {
      var x, w := Mul(n, Pow2(l)), Mul(m, Pow2(l));
      MulPositive(m, Pow2(l));
      MulLe(0, n, Pow2(l));
      Units(Pow2(l));
      forall c: nat | x >= P(c + h) ensures TrialSound(ExactGuess, Window(x, w, c), w, h) {
        WindowFacts(x, w, c);
        ExactGuessSound(Window(x, w, c), w, h);
      }
    }
  }

  /** A non-negative double: m / p with p a power of two. */
  datatype Double = Double(m: int, p: int)

  ghost predicate IsPow2(p: int) {
    exists k: nat :: p == Pow2(k)
  }

  /** x is the double nearest to num / den, ties going to the even mantissa (round to nearest of
      IEEE 754, for results from 2^-1022 up to 2^53). */
  ghost predicate Rounded(num: int, den: int, x: Double) {
    if num == 0 then x == Double(0, 1)
    else
      && den > 0 && IsPow2(x.p)
      && Mul(0x10_0000_0000_0000, den) <= Mul(num, x.p) < Mul(0x20_0000_0000_0000, den)
      && var off := 2 * (Mul(num, x.p) - Mul(x.m, den));
         -den <= off <= den && (off == den || off == -den ==> x.m % 2 == 0)
  }

  datatype Steps = Steps(f: Double, z: Double, u: Double, v: Double, s: Double)

  /** The guess as doubles compute it: f = 2^52 / K, z = 2^26 / K, floor(b1 * f + (b2 + 1) * z). */
  ghost predicate Computes(t: Steps, b1: int, b2: int, d1: int, d2: int, g: int) {
    var k := Leading2(d1, d2);
    && Rounded(0x10_0000_0000_0000, k, t.f) && Rounded(0x400_0000, k, t.z)
    && Rounded(Mul(b1, t.f.m), t.f.p, t.u) && Rounded(Mul(b2 + 1, t.z.m), t.z.p, t.v)
    && Rounded(Mul(t.u.m, t.v.p) + Mul(t.v.m, t.u.p), Mul(t.u.p, t.v.p), t.s)
    && t.s.p > 0 && g == Quo(t.s.m, t.s.p)
  }

  lemma RoundedUnique(num: int, den: int, x: Double, y: Double)
    requires num >= 0 && Rounded(num, den, x) && Rounded(num, den, y)
    ensures x == y
  {
    hide Mul;
    if num > 0 {
      SameBinade(num, den, x.p, y.p);
      SameBinade(num, den, y.p, x.p);
      NearestIsHighest(Mul(num, x.p), den, x.m, y.m);
      NearestIsHighest(Mul(num, x.p), den, y.m, x.m);
    }
  }

  /** The exponent is fixed by the value. */
  lemma SameBinade(num: int, den: int, p: int, r: int)
    requires num > 0 && den > 0 && IsPow2(p) && IsPow2(r)
    requires Mul(0x10_0000_0000_0000, den) <= Mul(num, p) && Mul(num, r) < Mul(0x20_0000_0000_0000, den)
    ensures r <= p
  {
    hide Mul;
    var i: nat :| p == Pow2(i);
    var j: nat :| r == Pow2(j);
    Distribute(0x20_0000_0000_0000, 0x10_0000_0000_0000, 0x10_0000_0000_0000, den);
    Distribute(2 * p, p, p, num);
    Pow2Next(i);
    if j <= i {
      Pow2Monotone(j, i);
    } else {
      Pow2Monotone(i + 1, j);
      MulLe(2 * p, r, num);
    }
  }

  lemma NearestIsHighest(x: int, den: int, m: int, n: int)
    requires den > 0
    requires -den <= 2 * (x - Mul(m, den)) <= den && -den <= 2 * (x - Mul(n, den)) <= den
    requires 2 * (x - Mul(m, den)) == den ==> m % 2 == 0
    requires 2 * (x - Mul(n, den)) == -den ==> n % 2 == 0
    ensures m >= n
  {
    hide Mul;
    Distribute(m + 1, m, 1, den);
    Units(den);
    if n > m + 1 {
      MulGap(m + 1, n, den);
    }
  }

  /** Double arithmetic gives one guess only. */
  lemma ComputesUnique(t: Steps, r: Steps, b1: int, b2: int, d1: int, d2: int, g: int, e: int)
    requires b1 >= 0 && b2 >= 0 && Leading2(d1, d2) > 0
    requires Computes(t, b1, b2, d1, d2, g) && Computes(r, b1, b2, d1, d2, e)
    ensures t == r && g == e
  {
    hide Mul, Quo, Rounded;
    var k := Leading2(d1, d2);
    RoundedUnique(0x10_0000_0000_0000, k, t.f, r.f);
    RoundedUnique(0x400_0000, k, t.z, r.z);
    RoundedPositive(0x10_0000_0000_0000, k, t.f);
    RoundedPositive(0x400_0000, k, t.z);
    MulLe(0, b1, t.f.m);
    MulLe(0, b2 + 1, t.z.m);
    Units(t.f.m);
    Units(t.z.m);
    RoundedUnique(Mul(b1, t.f.m), t.f.p, t.u, r.u);
    RoundedUnique(Mul(b2 + 1, t.z.m), t.z.p, t.v, r.v);
    RoundedPositive(Mul(b1, t.f.m), t.f.p, t.u);
    RoundedPositive(Mul(b2 + 1, t.z.m), t.z.p, t.v);
    MulLe(0, t.u.m, t.v.p);
    MulLe(0, t.v.m, t.u.p);
    Units(t.v.p);
    Units(t.u.p);
    RoundedUnique(Mul(t.u.m, t.v.p) + Mul(t.v.m, t.u.p), Mul(t.u.p, t.v.p), t.s, r.s);
  }

  lemma RoundedPositive(num: int, den: int, x: Double)
    requires num >= 0 && Rounded(num, den, x)
    ensures x.m >= 0 && x.p >= 1 && (num > 0 ==> x.m >= 0x10_0000_0000_0000)
  {
    hide Mul;
    if num > 0 {
      var k: nat :| x.p == Pow2(k);
      if x.m < 0x10_0000_0000_0000 {
        MulGap(x.m, 0x10_0000_0000_0000, den);
      }
    }
  }

  const LOW_DIVISOR: int := 2251808470728719
  const LOW_WINDOW: int := 40297682094194524422143

  /** A divisor of two digits and a window of it, 17895697 times the divisor, for which doubles
      compute one less than the true quotient digit. */
  lemma DoubleGuessTooLow() returns (t: Steps)
    ensures var w, win := LOW_DIVISOR, LOW_WINDOW;
      && Normalized(w, 2) && 0 <= win < 0x400_0000 * w
      && Quo(win, P(2)) < Top(w, 2) && Quo(win, w) == 17895697 && Mod(win, w) == 0
      && Computes(t, Quo(win, P(2)), Quo(win, P(1)) % 0x400_0000, Top(w, 2), Second(w, 2), 17895696)
  {
    LowDigits();
    hide Mul, Quo, Mod, Rounded;
    t := Steps(Double(9007164626700235, 0x10_0000_0000_0000), Double(9007164626700235, 0x4000_0000_0000_0000_0000),
               Double(4803839101450905, 0x1000_0000), Double(8106447546631036, 0x10_0000_0000_0000),
               Double(4803839584632831, 0x1000_0000));
    LowReciprocals();
    LowProduct1();
    LowProduct2();
    LowSum();
  }

  lemma LowReciprocals()
    ensures Rounded(0x10_0000_0000_0000, LOW_DIVISOR, Double(9007164626700235, 0x10_0000_0000_0000))
    ensures Rounded(0x400_0000, LOW_DIVISOR, Double(9007164626700235, 0x4000_0000_0000_0000_0000))
  {
    PowersUsed();
    assert IsPow2(0x10_0000_0000_0000) && IsPow2(0x4000_0000_0000_0000_0000);
  }

  lemma LowProduct1()
    ensures Rounded(Mul(8947882, 9007164626700235), 0x10_0000_0000_0000, Double(4803839101450905, 0x1000_0000))
  {
    PowersUsed();
    assert IsPow2(0x1000_0000);
  }

  lemma LowProduct2()
    ensures Rounded(Mul(60397973, 9007164626700235), 0x4000_0000_0000_0000_0000, Double(8106447546631036, 0x10_0000_0000_0000))
  {
    PowersUsed();
    assert IsPow2(0x10_0000_0000_0000);
  }

  lemma LowSum()
    ensures Rounded(Mul(4803839101450905, 0x10_0000_0000_0000) + Mul(8106447546631036, 0x1000_0000),
                    Mul(0x1000_0000, 0x10_0000_0000_0000), Double(4803839584632831, 0x1000_0000))
    ensures Quo(4803839584632831, 0x1000_0000) == 17895696
  {
    PowersUsed();
    assert IsPow2(0x1000_0000);
  }

  lemma LowDigits()
    ensures var w, win := LOW_DIVISOR, LOW_WINDOW;
      && Normalized(w, 2) && 0 <= win < 0x400_0000 * w
      && Top(w, 2) == 0x200_0081 && Second(w, 2) == 15
      && Quo(win, P(2)) == 8947882 && Quo(win, P(1)) % 0x400_0000 == 60397972
      && Quo(win, w) == 17895697 && Mod(win, w) == 0 && Quo(win, P(1)) < w
  {
    POne();
    PNext(1);
  }

  /** With that guess the step leaves the divisor itself as remainder: LOW_WINDOW divided by
      LOW_DIVISOR gives 17895696, remainder LOW_DIVISOR. */
  lemma TooLowRemainder()
    ensures var b := Settle(0, LOW_WINDOW, 0, LOW_DIVISOR, 2, 0, 17895696);
      var v := Buffer(0, LOW_WINDOW, 0, LOW_DIVISOR, 2, 0, b);
      b == 17895696 && Quo(v, P(2)) == 17895696 && Mod(v, P(2)) == LOW_DIVISOR
    ensures DivState(Buffer(0, LOW_WINDOW, 0, LOW_DIVISOR, 2, 0, 0), LOW_WINDOW, LOW_DIVISOR, 2, 1)
  {
    LowDigits();
    hide Quo, Mod, Mul;
    SettleIff(0, LOW_WINDOW, 0, LOW_DIVISOR, 2, 0, 17895696);
    LowProducts();
    POne();
    PNext(1);
    var v := Buffer(0, LOW_WINDOW, 0, LOW_DIVISOR, 2, 0, 17895696);
    DivUnique(v, P(2), 17895696, LOW_DIVISOR);
    var u, r := Quo(LOW_WINDOW, P(1)), Mod(LOW_WINDOW, P(1));
    DivMod(LOW_WINDOW, P(1));
    QuoNonNegative(LOW_WINDOW, P(1));
    Units(LOW_DIVISOR);
    Units(P(3));
    Units(P(2));
    Units(LOW_WINDOW);
    DivUnique(u, LOW_DIVISOR, 0, u);
  }

  lemma LowProducts()
    ensures Mul(0, P(3)) == 0 && Mul(LOW_WINDOW - Mul(17895696, LOW_DIVISOR), P(0)) == LOW_DIVISOR
  {
  }

  lemma PowersUsed()
    ensures Pow2(52) == 0x10_0000_0000_0000 && Pow2(78) == 0x4000_0000_0000_0000_0000 && Pow2(28) == 0x1000_0000
  {
    Pow2Values();
    Pow2Add(26, 26);
    Pow2Add(52, 26);
    Pow2Next(26);
    Pow2Next(27);
  }

  /** Half a unit in the last place of a 53-bit mantissa, relative to the value. */
  const UNIT: real := 1.0 / 9007199254740992.0

  /** y is x up to at most k units. */
  ghost predicate Near(x: real, y: real, k: real) {
    x - k * UNIT * x <= y <= x + k * UNIT * x
  }

  function Ratio(num: int, den: int): real
    requires den > 0
  {
    num as real / den as real
  }

  lemma RoundedNear(num: int, den: int, x: Double)
    requires num >= 0 && den > 0 && Rounded(num, den, x) && x.p > 0
    ensures Near(Ratio(num, den), Ratio(x.m, x.p), 1.0)
  {
    hide Mul;
    if num > 0 {
      CastProducts(num, den, x.m, x.p);
      RatioError(num as real, den as real, x.m as real, x.p as real, Mul(num, x.p) as real, Mul(x.m, den) as real);
    }
  }

  lemma CastProducts(num: int, den: int, m: int, p: int)
    ensures Mul(num, p) as real == num as real * p as real
    ensures Mul(m, den) as real == m as real * den as real
    ensures Mul(0x10_0000_0000_0000, den) as real == 4503599627370496.0 * den as real
  {
  }

  lemma RatioError(a: real, b: real, n: real, p: real, ap: real, nb: real)
    requires b > 0.0 && p > 0.0 && ap == a * p && nb == n * b
    requires 4503599627370496.0 * b <= ap && -b <= 2.0 * (ap - nb) <= b
    ensures Near(a / b, n / p, 1.0)
  {
    var x, y, c := a / b, n / p, b * p;
    assert c > 0.0;
    assert ap == x * c && nb == y * c;
    RealCancel(x - y, UNIT * x, c);
    RealCancel(y - x, UNIT * x, c);
  }

  lemma RealCancel(u: real, v: real, c: real)
    requires c > 0.0 && u * c <= v * c
    ensures u <= v
  {
    assert (u - v) * c <= 0.0;
  }

  lemma RealCancelStrict(u: real, v: real, c: real)
    requires c > 0.0 && u * c < v * c
    ensures u < v
  {
    assert (v - u) * c > 0.0;
  }

  lemma NearScale(x: real, y: real, k: real, c: real)
    requires Near(x, y, k) && c >= 0.0
    ensures Near(c * x, c * y, k)
  {
    var e := k * UNIT * x;
    assert c * (x - e) <= c * y <= c * (x + e);
    assert c * e == k * UNIT * (c * x);
  }

  lemma NearJoin(x: real, y: real, z: real, k: real)
    requires x >= 0.0 && 1.0 <= k <= 8.0 && Near(x, y, k) && Near(y, z, 1.0)
    ensures Near(x, z, k + 2.0)
  {
    var e := UNIT * x;
    assert y <= x + k * e && y >= x - k * e;
    assert UNIT * y <= UNIT * (x + k * e) <= 2.0 * e by {
      assert k * UNIT <= 1.0;
      assert k * e <= x;
    }
  }

  lemma NearSum(x: real, y: real, u: real, v: real, k: real)
    requires Near(x, u, k) && Near(y, v, k)
    ensures Near(x + y, u + v, k)
  {
    assert k * UNIT * (x + y) == k * UNIT * x + k * UNIT * y;
  }

  lemma RatioScale(b: int, m: int, p: int)
    requires p > 0
    ensures Ratio(Mul(b, m), p) == b as real * Ratio(m, p)
  {
    assert Mul(b, m) as real == b as real * m as real;
  }

  lemma RatioSum(m: int, p: int, n: int, r: int)
    requires p > 0 && r > 0
    ensures Mul(p, r) > 0
    ensures Ratio(Mul(m, r) + Mul(n, p), Mul(p, r)) == Ratio(m, p) + Ratio(n, r)
  {
    MulPositive(p, r);
    var a, b, c, d := m as real, p as real, n as real, r as real;
    assert (Mul(m, r) + Mul(n, p)) as real == a * d + c * b;
    assert Mul(p, r) as real == b * d;
    var x, y := a / b, c / d;
    assert a == x * b && c == y * d;
    assert a * d + c * b == (x + y) * (b * d);
    QuotientIs(a * d + c * b, b * d, x + y);
  }

  lemma QuotientIs(x: real, y: real, q: real)
    requires y > 0.0 && x == q * y
    ensures x / y == q
  {
  }

  /** The computed sum is within five units of the exact one. */
  lemma ComputedNear(t: Steps, b1: int, b2: int, d1: int, d2: int, g: int) returns (e: real)
    requires b1 >= 0 && b2 >= 0 && Leading2(d1, d2) > 0 && Computes(t, b1, b2, d1, d2, g)
    ensures t.s.p > 0
    ensures var k := Leading2(d1, d2);
      e == b1 as real * Ratio(0x10_0000_0000_0000, k) + (b2 + 1) as real * Ratio(0x400_0000, k)
    ensures Near(e, Ratio(t.s.m, t.s.p), 5.0)
  {
    hide Mul, Quo, Rounded, Near, Ratio;
    var k := Leading2(d1, d2);
    var x := ProductNear(0x10_0000_0000_0000, k, t.f, b1, t.u);
    var y := ProductNear(0x400_0000, k, t.z, b2 + 1, t.v);
    var u, v := Ratio(t.u.m, t.u.p), Ratio(t.v.m, t.v.p);
    NearSum(x, y, u, v, 3.0);
    RatioSum(t.u.m, t.u.p, t.v.m, t.v.p);
    MulLe(0, t.u.m, t.v.p);
    MulLe(0, t.v.m, t.u.p);
    Units(t.v.p);
    Units(t.u.p);
    RoundedNear(Mul(t.u.m, t.v.p) + Mul(t.v.m, t.u.p), Mul(t.u.p, t.v.p), t.s);
    e := x + y;
    NearJoin(e, u + v, Ratio(t.s.m, t.s.p), 3.0);
  }

  lemma RatioPositive(n: int, k: int)
    requires n >= 0 && k > 0
    ensures Ratio(n, k) >= 0.0
  {
  }

  lemma ProductNear(n: int, k: int, f: Double, b: int, u: Double) returns (x: real)
    requires n > 0 && k > 0 && b >= 0 && Rounded(n, k, f) && Rounded(Mul(b, f.m), f.p, u)
    ensures f.p > 0 && u.p > 0 && u.m >= 0
    ensures x == b as real * Ratio(n, k) && x >= 0.0 && Near(x, Ratio(u.m, u.p), 3.0)
  {
    hide Mul, Quo, Rounded, Near, Ratio;
    RoundedPositive(n, k, f);
    RoundedNear(n, k, f);
    NearScale(Ratio(n, k), Ratio(f.m, f.p), 1.0, b as real);
    MulLe(0, b, f.m);
    Units(f.m);
    RoundedPositive(Mul(b, f.m), f.p, u);
    RoundedNear(Mul(b, f.m), f.p, u);
    RatioScale(b, f.m, f.p);
    RatioPositive(n, k);
    x := b as real * Ratio(n, k);
    NearJoin(x, Ratio(Mul(b, f.m), f.p), Ratio(u.m, u.p), 1.0);
  }

  /** Doubles guess at most one too low, and never above 2^26. */
  lemma DoubleGuessRange(t: Steps, win: int, w: int, h: nat, g: int)
    requires Normalized(w, h) && 0 <= win < 0x400_0000 * w && Quo(win, P(h)) != Top(w, h)
    requires Computes(t, Quo(win, P(h)), Quo(win, P(h - 1)) % 0x400_0000, Top(w, h), Second(w, h), g)
    ensures Quo(win, w) - 1 <= g <= DV
  {
    hide Mul, Quo, Mod, P, Rounded, Near, Ratio, Top, Second;
    LeadingBound(win, w, h);
    var b1, b2 := Quo(win, P(h)), Quo(win, P(h - 1)) % 0x400_0000;
    var d1, d2, q := Top(w, h), Second(w, h), Quo(win, w);
    var k := Leading2(d1, d2);
    var e := ComputedNear(t, b1, b2, d1, d2, g);
    ExactRange(b1, b2, d1, d2, q, e);
    FloorRange(t.s.m, t.s.p, e, q, g);
  }

  lemma ExactRange(b1: int, b2: int, d1: int, d2: int, q: int, e: real)
    requires 0 <= b1 < d1 && 0 <= b2 < DV && 0 <= d2 < DV
    requires var k := Leading2(d1, d2);
      k > 0 && Mul(q, k) < (b1 * 0x400_0000 + b2 + 1) * 0x400_0000
      && e == b1 as real * Ratio(0x10_0000_0000_0000, k) + (b2 + 1) as real * Ratio(0x400_0000, k)
    ensures q as real <= e <= 67108864.0
  {
    var k := Leading2(d1, d2);
    var c := k as real;
    var a := ((b1 * 0x400_0000 + b2 + 1) * 0x400_0000) as real;
    var x, y := 0x10_0000_0000_0000 as real / c, 0x400_0000 as real / c;
    assert x * c == 4503599627370496.0 && y * c == 67108864.0;
    assert e * c == b1 as real * (x * c) + (b2 + 1) as real * (y * c);
    assert e * c == a;
    assert Mul(q, k) as real == q as real * c;
    RealCancel(q as real, e, c);
    assert 67108864.0 * c >= a;
    RealCancel(e, 67108864.0, c);
  }

  lemma FloorRange(m: int, p: int, e: real, q: int, g: int)
    requires p > 0 && g == Quo(m, p) && Near(e, Ratio(m, p), 5.0) && q as real <= e <= 67108864.0 && q >= 0
    ensures q - 1 <= g <= DV
  {
    var x := Ratio(m, p);
    assert 5.0 * UNIT * e < 1.0;
    assert q as real - 1.0 < x < 67108865.0;
    var c := p as real;
    assert x * c == m as real;
    assert g * p <= m < (g + 1) * p by {
      hide Mul;
      DivMod(m, p);
      Distribute(g + 1, g, 1, p);
      Units(p);
      NamedProducts(g, p);
    }
    assert g as real * c <= m as real < (g + 1) as real * c;
    RealCancel(g as real, x, c);
    RealCancelStrict(x, (g + 1) as real, c);
  }

  lemma NamedProducts(g: int, p: int)
    ensures Mul(g, p) == g * p && Mul(g + 1, p) == (g + 1) * p
  {
  }
}
