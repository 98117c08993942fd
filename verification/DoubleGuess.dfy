/** The quotient digit guess that the program makes, and for which operands it is never too low.

    The guess is a quotient of leading digits, computed with five rounded operations.  It can only
    be too low where the quotient of the leading digits lies just above an integer; how close it
    has to be is worked out here. */
module DoubleGuess {
  import opened JsNumber
  import opened Ring
  import opened Digits
  import opened Division
  import opened QuotientGuess

  /** The power of two, from p upwards, that gives num / den a 53-bit mantissa. */
  function Binade(num: int, den: int, p: int): (r: int)
    requires num > 0 && den > 0 && p > 0 && Mul(num, p) < Mul(0x20_0000_0000_0000, den)
    ensures Mul(0x10_0000_0000_0000, den) <= Mul(num, r) < Mul(0x20_0000_0000_0000, den)
    decreases Mul(0x10_0000_0000_0000, den) - Mul(num, p)
  {
    if Mul(0x10_0000_0000_0000, den) <= Mul(num, p) then p
    else
      BinadeStep(num, den, p);
      Binade(num, den, 2 * p)
  }

  lemma BinadeStep(num: int, den: int, p: int)
    requires num > 0 && p > 0 && Mul(num, p) < Mul(0x10_0000_0000_0000, den)
    ensures Mul(num, p) < Mul(num, 2 * p) < Mul(0x20_0000_0000_0000, den)
  {
    hide Mul;
    Distribute(2 * p, p, p, num);
    Distribute(0x20_0000_0000_0000, 0x10_0000_0000_0000, 0x10_0000_0000_0000, den);
    MulPositive(num, p);
  }

  lemma {:induction false} BinadeIsPow2(num: int, den: int, p: int)
    requires num > 0 && den > 0 && p > 0 && Mul(num, p) < Mul(0x20_0000_0000_0000, den) && IsPow2(p)
    ensures IsPow2(Binade(num, den, p))
    decreases Mul(0x10_0000_0000_0000, den) - Mul(num, p)
  {
    hide Mul;
    if Mul(num, p) < Mul(0x10_0000_0000_0000, den) {
      BinadeStep(num, den, p);
      var k: nat :| p == Pow2(k);
      Pow2Next(k);
      BinadeIsPow2(num, den, 2 * p);
    }
  }

  /** The integer nearest to x / den; of two, the even one. */
  function Nearest(x: int, den: int): int
    requires den > 0
  {
    var m := Quo(2 * x + den, 2 * den);
    if Mod(2 * x + den, 2 * den) == 0 && m % 2 == 1 then m - 1 else m
  }

  lemma NearestIs(x: int, den: int)
    requires den > 0
    ensures var off := 2 * (x - Mul(Nearest(x, den), den));
      -den <= off <= den && (off == den || off == -den ==> Nearest(x, den) % 2 == 0)
  {
    hide Mul, Quo, Mod;
    var m := Quo(2 * x + den, 2 * den);
    DivMod(2 * x + den, 2 * den);
    Distribute(2 * den, den, den, m);
    Distribute(m, m - 1, 1, den);
    Units(den);
  }

  /** num / den as a double, if it is not negative and below 2^53; guesses need no others. */
  function Round(num: int, den: int): Double {
    if den <= 0 || num <= 0 || num >= Mul(0x20_0000_0000_0000, den) then Double(0, 1)
    else
      Units(num);
      var p := Binade(num, den, 1);
      Double(Nearest(Mul(num, p), den), p)
  }

  lemma RoundRounds(num: int, den: int)
    requires num >= 0 && den > 0 && num < Mul(0x20_0000_0000_0000, den)
    ensures Rounded(num, den, Round(num, den))
  {
    hide Mul, Nearest, Binade;
    if num > 0 {
      Units(num);
      assert Pow2(0) == 1;
      BinadeIsPow2(num, den, 1);
      NearestIs(Mul(num, Binade(num, den, 1)), den);
    }
  }

  /** The guess as the program computes it: 2^52 / K and 2^26 / K once for a division, then
      floor(b1 * f + (b2 + 1) * z), every operation rounded. */
  function ProgramGuess(b1: int, b2: int, d1: int, d2: int): int {
    var k := Leading2(d1, d2);
    var f, z := Round(0x10_0000_0000_0000, k), Round(0x400_0000, k);
    var u, v := Round(Mul(b1, f.m), f.p), Round(Mul(b2 + 1, z.m), z.p);
    var s := Round(Mul(u.m, v.p) + Mul(v.m, u.p), Mul(u.p, v.p));
    if s.p > 0 then Quo(s.m, s.p) else 0
  }

  /** The four digits a guess is made from, when the division is normalized. */
  ghost predicate GuessDigits(b1: int, b2: int, d1: int, d2: int) {
    0 <= b1 < DV && 0x200_0000 <= d1 < DV && 0 <= b2 < DV && 0 <= d2 < DV
  }

  /** A rounded quotient is at most twice the exact one. */
  lemma RoundedSmall(num: int, den: int, x: Double, b: real)
    requires num >= 0 && den > 0 && Rounded(num, den, x) && Ratio(num, den) <= b
    ensures x.m >= 0 && x.p > 0 && 0.0 <= Ratio(x.m, x.p) <= 2.0 * b
  {
    RoundedPositive(num, den, x);
    RoundedNear(num, den, x);
    RatioPositive(num, den);
  }

  lemma NumeratorFits(num: int, den: int)
    requires den > 0 && Ratio(num, den) <= 2147483648.0
    ensures num < Mul(0x20_0000_0000_0000, den)
  {
    if num >= 0x20_0000_0000_0000 * den {
      QuotientAtLeast(num as real, den as real, 9007199254740992.0);
    }
  }

  /** Quotients below 2^53 can be rounded. */
  lemma RoundFits(num: int, den: int, b: real) returns (x: Double)
    requires num >= 0 && den > 0 && Ratio(num, den) <= b <= 2147483648.0
    ensures x == Round(num, den) && Rounded(num, den, x)
    ensures x.m >= 0 && x.p > 0 && 0.0 <= Ratio(x.m, x.p) <= 2.0 * b
  {
    hide Rounded, Round;
    NumeratorFits(num, den);
    RoundRounds(num, den);
    x := Round(num, den);
    RoundedSmall(num, den, x, b);
  }

  /** A product with a rounded factor. */
  lemma TimesFits(a: int, x: Double, b: real) returns (y: Double)
    requires 0 <= a <= 0x400_0000 && x.m >= 0 && x.p > 0 && Ratio(x.m, x.p) <= b <= 4.0
    ensures y == Round(Mul(a, x.m), x.p) && Rounded(Mul(a, x.m), x.p, y)
    ensures y.m >= 0 && y.p > 0 && 0.0 <= Ratio(y.m, y.p) <= 536870912.0
  {
    hide Rounded, Round, Mul, Ratio;
    MulLe(0, a, x.m);
    Units(x.m);
    RatioScale(a, x.m, x.p);
    RatioPositive(x.m, x.p);
    RealProduct(a as real, 67108864.0, Ratio(x.m, x.p), 4.0);
    y := RoundFits(Mul(a, x.m), x.p, 268435456.0);
  }

  /** The program's guess is the one that rounding to nearest gives. */
  lemma GuessComputes(b1: int, b2: int, d1: int, d2: int) returns (t: Steps)
    requires GuessDigits(b1, b2, d1, d2)
    ensures Computes(t, b1, b2, d1, d2, ProgramGuess(b1, b2, d1, d2))
  {
    hide Rounded, Round, Mul, Ratio, Quo;
    var k := Leading2(d1, d2);
    ReciprocalSmall(k);
    var f := RoundFits(0x10_0000_0000_0000, k, 2.0);
    var z := RoundFits(0x400_0000, k, 2.0);
    var u := TimesFits(b1, f, 4.0);
    var v := TimesFits(b2 + 1, z, 4.0);
    RatioSum(u.m, u.p, v.m, v.p);
    MulLe(0, u.m, v.p);
    MulLe(0, v.m, u.p);
    Units(v.p);
    Units(u.p);
    assert Ratio(Mul(u.m, v.p) + Mul(v.m, u.p), Mul(u.p, v.p)) <= 2147483648.0;
    var s := RoundFits(Mul(u.m, v.p) + Mul(v.m, u.p), Mul(u.p, v.p), 2147483648.0);
    t := Steps(f, z, u, v, s);
  }

  lemma ReciprocalSmall(k: int)
    requires k >= 0x8_0000_0000_0000
    ensures Ratio(0x10_0000_0000_0000, k) <= 2.0 && Ratio(0x400_0000, k) <= 2.0
  {
  }

  lemma RealProduct(a: real, b: real, c: real, d: real)
    requires 0.0 <= a <= b && 0.0 <= c <= d
    ensures a * c <= b * d
  {
    RealNonNegative(b - a, c);
    RealNonNegative(b, d - c);
  }

  /** Rounding to nearest even leaves exactly one guess, the program's. */
  lemma GuessIff(b1: int, b2: int, d1: int, d2: int, g: int)
    requires GuessDigits(b1, b2, d1, d2)
    ensures (exists t :: Computes(t, b1, b2, d1, d2, g)) <==> g == ProgramGuess(b1, b2, d1, d2)
  {
    hide Computes, ProgramGuess;
    var r := GuessComputes(b1, b2, d1, d2);
    if t :| Computes(t, b1, b2, d1, d2, g) {
      ComputesUnique(t, r, b1, b2, d1, d2, g, ProgramGuess(b1, b2, d1, d2));
    }
  }

  /** Below 2^26, rounding takes off at most 2^-28. */
  lemma RoundedLoss(num: int, den: int, x: Double)
    requires num >= 0 && den > 0 && Rounded(num, den, x) && Ratio(num, den) < 67108864.0
    ensures x.p > 0 && Ratio(x.m, x.p) >= Ratio(num, den) - 1.0 / 268435456.0
  {
    hide Mul;
    if num > 0 {
      var k: nat :| x.p == Pow2(k);
      NumeratorBelow(num, den);
      MulGap(num, 0x400_0000 * den, x.p);
      Associate(0x400_0000, den, x.p);
      ScaleGap(den, x.p, num);
      ScaleReached(k);
      LossBound(num, den, x.m, x.p);
    }
  }

  lemma NumeratorBelow(num: int, den: int)
    requires den > 0 && Ratio(num, den) < 67108864.0
    ensures num < 0x400_0000 * den
  {
    if num >= 0x400_0000 * den {
      QuotientAtLeast(num as real, den as real, 67108864.0);
    }
  }

  lemma QuotientAtLeast(a: real, b: real, c: real)
    requires b > 0.0 && a >= c * b
    ensures a / b >= c
  {
    var x := a / b;
    assert a == x * b;
    RealCancel(c, x, b);
  }

  lemma ScaleGap(den: int, p: int, num: int)
    requires den > 0 && p > 0 && num < 0x400_0000 * den
    requires Mul(0x10_0000_0000_0000, den) <= Mul(num, p)
    ensures p > 0x400_0000
  {
    if p <= 0x400_0000 {
      MulLe(p, 0x400_0000, num);
    }
  }

  lemma ScaleReached(k: nat)
    requires Pow2(k) > 0x400_0000
    ensures Pow2(k) >= 0x800_0000
  {
    Pow2Values();
    Pow2Next(26);
    if k <= 26 {
      Pow2Monotone(k, 26);
    } else {
      Pow2Monotone(27, k);
    }
  }

  lemma LossBound(num: int, den: int, m: int, p: int)
    requires den > 0 && p >= 0x800_0000 && 2 * (Mul(num, p) - Mul(m, den)) <= den
    ensures Ratio(m, p) >= Ratio(num, den) - 1.0 / 268435456.0
  {
    hide Mul;
    CastProducts(num, den, m, p);
    LossReal(num as real, den as real, m as real, p as real);
  }

  lemma LossReal(a: real, b: real, n: real, p: real)
    requires b > 0.0 && p >= 134217728.0 && 2.0 * (a * p - n * b) <= b
    ensures n / p >= a / b - 1.0 / 268435456.0
  {
    var x, y, c := a / b, n / p, 1.0 / 268435456.0;
    assert a == x * b && n == y * p;
    assert a * p == (x * p) * b && n * b == (y * p) * b;
    assert (2.0 * ((x - y) * p)) * b == 2.0 * (a * p - n * b);
    RealCancel(2.0 * ((x - y) * p), 1.0, b);
    assert 1.0 <= 2.0 * c * p;
    RealCancel(x - y, c, p);
  }

  /** The first product loses little: b * F is below 2^26. */
  lemma FirstTerm(b: int, d: int, k: int, f: Double, u: Double)
    requires 0 <= b < d <= 0x400_0000 && 0x400_0000 * d <= k <= 0x10_0000_0000_0000
    requires Rounded(0x10_0000_0000_0000, k, f) && f.p > 0 && f.m >= 0 && Rounded(Mul(b, f.m), f.p, u)
    ensures var x := Ratio(0x10_0000_0000_0000, k);
      u.p > 0 && Ratio(u.m, u.p) >= b as real * x - b as real * (UNIT * x) - 1.0 / 268435456.0
  {
    hide Mul, Rounded, Ratio;
    RoundedNear(0x10_0000_0000_0000, k, f);
    MulLe(0, b, f.m);
    Units(f.m);
    RatioScale(b, f.m, f.p);
    ReciprocalAtMost(k, d);
    FirstReal(b as real, d as real, Ratio(0x10_0000_0000_0000, k), Ratio(f.m, f.p));
    RoundedLoss(Mul(b, f.m), f.p, u);
  }

  lemma ReciprocalAtMost(k: int, d: int)
    requires 0 < d && 0x400_0000 * d <= k <= 0x10_0000_0000_0000
    ensures Ratio(0x10_0000_0000_0000, k) >= 1.0
    ensures d as real * Ratio(0x10_0000_0000_0000, k) <= 67108864.0
  {
    var x, c := Ratio(0x10_0000_0000_0000, k), k as real;
    assert x * c == 4503599627370496.0;
    RealCancel(1.0, x, c);
    assert 67108864.0 * d as real <= c;
    assert (d as real * x) * c == d as real * 4503599627370496.0 <= 67108864.0 * c;
    RealCancel(d as real * x, 67108864.0, c);
  }

  lemma FirstReal(b: real, d: real, x: real, y: real)
    requires 0.0 <= b <= d - 1.0 && d <= 67108864.0 && x >= 1.0 && d * x <= 67108864.0 && Near(x, y, 1.0)
    ensures b * x - b * (UNIT * x) <= b * y
    ensures b * y < 67108864.0
  {
    var e, q := UNIT * x, d * x;
    assert x - e <= y <= x + e;
    assert b * (x - e) <= b * y;
    RealProduct(b, d - 1.0, y, x + e);
    assert (d - 1.0) * (x + e) == q - x + UNIT * q - e;
    SmallExcess(q, x, e, b * y);
  }

  lemma SmallExcess(q: real, x: real, e: real, v: real)
    requires q <= 67108864.0 && x >= 1.0 && e >= 0.0 && v <= q - x + UNIT * q - e
    ensures v < 67108864.0
  {
  }

  /** The second product loses at most two units, and is small. */
  lemma SecondTerm(c: int, k: int, z: Double, v: Double)
    requires 0 <= c <= 0x400_0000 && 0 < k && Rounded(0x400_0000, k, z)
    requires z.p > 0 && z.m >= 0 && Rounded(Mul(c, z.m), z.p, v) && v.p > 0
    ensures var x := c as real * Ratio(0x400_0000, k);
      Ratio(v.m, v.p) >= x - 2.0 * UNIT * x
  {
    hide Mul, Rounded, Ratio, Near;
    RoundedNear(0x400_0000, k, z);
    MulLe(0, c, z.m);
    Units(z.m);
    RatioScale(c, z.m, z.p);
    RoundedNear(Mul(c, z.m), z.p, v);
    NearScale(Ratio(0x400_0000, k), Ratio(z.m, z.p), 1.0, c as real);
    SecondSmall(c, k);
    SecondReal(c as real * Ratio(0x400_0000, k), Ratio(Mul(c, z.m), z.p), Ratio(v.m, v.p));
  }

  lemma SecondSmall(c: int, k: int)
    requires 0 <= c <= 0x400_0000 && 0 < k
    ensures 0.0 <= c as real * Ratio(0x400_0000, k) <= Ratio(0x10_0000_0000_0000, k)
  {
    hide Ratio;
    RatioPositive(0x400_0000, k);
    ReciprocalRatio(k);
    SmallFactor(c as real, Ratio(0x400_0000, k), Ratio(0x10_0000_0000_0000, k));
  }

  lemma RealNonNegative(a: real, b: real)
    requires a >= 0.0 && b >= 0.0
    ensures a * b >= 0.0
  {
  }

  lemma SmallFactor(c: real, x: real, y: real)
    requires 0.0 <= c <= 67108864.0 && x >= 0.0 && y == 67108864.0 * x
    ensures 0.0 <= c * x <= y
  {
    RealNonNegative(c, x);
    RealNonNegative(67108864.0 - c, x);
  }

  lemma ReciprocalRatio(k: int)
    requires k > 0
    ensures 67108864.0 * Ratio(0x400_0000, k) == Ratio(0x10_0000_0000_0000, k)
  {
  }

  lemma SecondReal(x: real, y: real, v: real)
    requires x >= 0.0 && Near(x, y, 1.0) && Near(y, v, 1.0)
    ensures v >= x - 2.0 * UNIT * x
  {
    var e := UNIT * x;
    assert y >= x - e && v >= y - UNIT * y;
    assert (1.0 - UNIT) * y >= (1.0 - UNIT) * (x - e);
  }

  /** The computed sum is below the exact one by at most 2^26 / K, or just below 2^26. */
  lemma SumLoss(t: Steps, b1: int, b2: int, d1: int, d2: int, g: int) returns (e: real, x: real)
    requires b1 < d1 && GuessDigits(b1, b2, d1, d2) && Computes(t, b1, b2, d1, d2, g)
    ensures x == Ratio(0x10_0000_0000_0000, Leading2(d1, d2))
    ensures e == b1 as real * x + (b2 + 1) as real * Ratio(0x400_0000, Leading2(d1, d2))
    ensures t.s.p > 0 && (Ratio(t.s.m, t.s.p) >= e - x / 67108864.0 || Ratio(t.s.m, t.s.p) >= 67108863.0)
  {
    hide Mul, Quo, Rounded, Ratio, Near;
    var k := Leading2(d1, d2);
    x := Ratio(0x10_0000_0000_0000, k);
    var y := (b2 + 1) as real * Ratio(0x400_0000, k);
    e := b1 as real * x + y;
    RoundedPositive(0x10_0000_0000_0000, k, t.f);
    RoundedPositive(0x400_0000, k, t.z);
    MulLe(0, b1, t.f.m);
    MulLe(0, b2 + 1, t.z.m);
    Units(t.f.m);
    Units(t.z.m);
    RoundedPositive(Mul(b1, t.f.m), t.f.p, t.u);
    RoundedPositive(Mul(b2 + 1, t.z.m), t.z.p, t.v);
    FirstTerm(b1, d1, k, t.f, t.u);
    SecondTerm(b2 + 1, k, t.z, t.v);
    SecondSmall(b2 + 1, k);
    ReciprocalAtMost(k, d1);
    var u, v := Ratio(t.u.m, t.u.p), Ratio(t.v.m, t.v.p);
    RatioSum(t.u.m, t.u.p, t.v.m, t.v.p);
    MulLe(0, t.u.m, t.v.p);
    MulLe(0, t.v.m, t.u.p);
    Units(t.v.p);
    Units(t.u.p);
    var num, den := Mul(t.u.m, t.v.p) + Mul(t.v.m, t.u.p), Mul(t.u.p, t.v.p);
    RoundedNear(num, den, t.s);
    if u + v < 67108864.0 {
      RoundedLoss(num, den, t.s);
      SumReal(b1 as real, x, y, u, v, Ratio(t.s.m, t.s.p));
    } else {
      LargeSum(u + v, Ratio(t.s.m, t.s.p));
    }
  }

  lemma SumReal(b: real, x: real, y: real, u: real, v: real, s: real)
    requires 0.0 <= b <= 67108862.0 && 1.0 <= x && 0.0 <= y <= x
    requires u >= b * x - b * (UNIT * x) - 1.0 / 268435456.0 && v >= y - 2.0 * UNIT * y
    requires s >= u + v - 1.0 / 268435456.0
    ensures s >= b * x + y - x / 67108864.0
  {
    assert b * (UNIT * x) <= 67108862.0 * (UNIT * x);
    assert UNIT * y <= UNIT * x;
  }

  lemma LargeSum(w: real, s: real)
    requires w >= 67108864.0 && Near(w, s, 1.0)
    ensures s >= 67108863.0
  {
  }

  /** A guess that cannot be too low: the digits give the quotient of the leading digits as an
      integer, or as at least 2^26 / K above one. */
  ghost predicate Clear(b1: int, b2: int, d1: int, d2: int) {
    Leading2(d1, d2) > 0 &&
    var r := Mod((b1 * 0x400_0000 + b2 + 1) * 0x400_0000, Leading2(d1, d2));
    r == 0 || r >= 0x400_0000
  }

  /** The exact sum and its distance from the integers below. */
  lemma ExactSum(b1: int, b2: int, d1: int, d2: int, e: real, x: real, q: int, r: int)
    requires var k := Leading2(d1, d2);
      k > 0 && (b1 * 0x400_0000 + b2 + 1) * 0x400_0000 == Mul(q, k) + r && r >= 0
      && x == Ratio(0x10_0000_0000_0000, k) && e == b1 as real * x + (b2 + 1) as real * Ratio(0x400_0000, k)
    ensures e >= q as real && (r >= 0x400_0000 ==> e - x / 67108864.0 >= q as real)
  {
    var k := Leading2(d1, d2);
    var c, y := k as real, Ratio(0x400_0000, k);
    assert x * c == 4503599627370496.0 && y * c == 67108864.0;
    assert e * c == b1 as real * (x * c) + (b2 + 1) as real * (y * c);
    assert e * c == q as real * c + r as real by { assert Mul(q, k) as real == q as real * c; }
    RealCancel(q as real, e, c);
    var z := x / 67108864.0;
    assert z * c == 67108864.0;
    if r >= 0x400_0000 {
      assert (e - z) * c == e * c - z * c;
      RealCancel(q as real, e - z, c);
    }
  }

  lemma FloorAtLeast(m: int, p: int, q: int)
    requires p > 0 && Ratio(m, p) >= q as real
    ensures Quo(m, p) >= q
  {
    hide Mul, Quo;
    var c := p as real;
    assert m as real == Ratio(m, p) * c >= q as real * c;
    assert m >= q * p;
    NamedProducts(q, p);
    NamedProducts(Quo(m, p), p);
    DivMod(m, p);
    if Quo(m, p) < q {
      MulGap(Quo(m, p), q, p);
    }
  }

  /** Where the remainder of the leading digits is clear, the program's guess is not too low. */
  lemma ClearGuess(win: int, w: int, h: nat)
    requires Normalized(w, h) && 0 <= win < 0x400_0000 * w
    requires Quo(win, P(h)) != Top(w, h)
      ==> Clear(Quo(win, P(h)), Quo(win, P(h - 1)) % 0x400_0000, Top(w, h), Second(w, h))
    ensures TrialSound(ProgramGuess, win, w, h)
  {
    hide Mul, Quo, Mod, P, Rounded, Near, Ratio, Top, Second, Computes, ProgramGuess;
    LeadingBound(win, w, h);
    var b1, b2 := Quo(win, P(h)), Quo(win, P(h - 1)) % 0x400_0000;
    var d1, d2, q := Top(w, h), Second(w, h), Quo(win, w);
    if b1 != d1 {
      var t := GuessComputes(b1, b2, d1, d2);
      var g := ProgramGuess(b1, b2, d1, d2);
      DoubleGuessRange(t, win, w, h, g);
      ClearDigits(t, b1, b2, d1, d2, q, g);
    }
  }

  lemma ClearDigits(t: Steps, b1: int, b2: int, d1: int, d2: int, q: int, g: int)
    requires b1 < d1 && GuessDigits(b1, b2, d1, d2) && Computes(t, b1, b2, d1, d2, g) && Clear(b1, b2, d1, d2)
    requires 0 <= q < DV && Mul(q, Leading2(d1, d2)) < (b1 * 0x400_0000 + b2 + 1) * 0x400_0000
    ensures q <= g
  {
    hide Mul, Quo, Mod, Rounded, Near, Ratio;
    var k, x := Leading2(d1, d2), (b1 * 0x400_0000 + b2 + 1) * 0x400_0000;
    var e, r := Quo(x, k), Mod(x, k);
    DivMod(x, k);
    if e < q { MulGap(e, q, k); }
    var y, z := SumLoss(t, b1, b2, d1, d2, g);
    ExactSum(b1, b2, d1, d2, y, z, e, r);
    if r == 0 {
      var y' := ComputedNear(t, b1, b2, d1, d2, g);
      ExactRange(b1, b2, d1, d2, q, y);
      FloorRange(t.s.m, t.s.p, y, q + 1, g);
    } else {
      FloorAtLeast(t.s.m, t.s.p, q);
    }
  }

  /** No step of the division of n by m has a window for which the guess could be too low. */
  ghost predicate ClearDivision(n: int, m: int) {
    forall l: nat, h: nat, c: nat :: ClearStep(n, m, l, h, c)
  }

  ghost predicate ClearStep(n: int, m: int, l: nat, h: nat, c: nat) {
    l < 26 && Normalized(Mul(m, Pow2(l)), h) && Mul(n, Pow2(l)) >= P(c + h) ==>
    Mul(m, Pow2(l)) > 0 && ClearWindow(Window(Mul(n, Pow2(l)), Mul(m, Pow2(l)), c), Mul(m, Pow2(l)), h)
  }

  ghost predicate ClearWindow(win: int, w: int, h: nat) {
    h > 0 && (Quo(win, P(h)) != Top(w, h)
      ==> Clear(Quo(win, P(h)), Quo(win, P(h - 1)) % 0x400_0000, Top(w, h), Second(w, h)))
  }

  /** Then the program's guesses serve the whole division. */
  lemma ClearSound(n: int, m: int)
    requires n >= 0 && m >= 0 && ClearDivision(n, m)
    ensures GuessesSound(ProgramGuess, n, m)
  {
    hide Mul, Quo, Mod, P, Window, Clear, TrialSound, Top, Second;
    forall l: nat, h: nat | l < 26 && Normalized(Mul(m, Pow2(l)), h)
      ensures Mul(m, Pow2(l)) > 0 && StepsSound(ProgramGuess, Mul(n, Pow2(l)), Mul(m, Pow2(l)), h)
    {
      var x, w := Mul(n, Pow2(l)), Mul(m, Pow2(l));
      MulLe(0, m, Pow2(l));
      MulLe(0, n, Pow2(l));
      Units(Pow2(l));
      forall c: nat | x >= P(c + h) ensures TrialSound(ProgramGuess, Window(x, w, c), w, h) {
        WindowFacts(x, w, c);
        assert ClearStep(n, m, l, h, c);
        ClearGuess(Window(x, w, c), w, h);
      }
    }
  }

  /** If the divisor, shifted up, has the second digit zero, every window is clear. */
  lemma ZeroSecondClear(win: int, w: int, h: nat)
    requires Normalized(w, h) && 0 <= win < 0x400_0000 * w && Second(w, h) == 0
    ensures ClearWindow(win, w, h)
  {
    hide Mul, Quo, Mod, P, Top, Second;
    LeadingBound(win, w, h);
    var d, x := Top(w, h), Quo(win, P(h)) * 0x400_0000 + Quo(win, P(h - 1)) % 0x400_0000 + 1;
    ScaledRemainder(x, d);
  }

  lemma ScaledRemainder(x: int, d: int)
    requires d > 0
    ensures Mod(x * 0x400_0000, d * 0x400_0000) == 0 || Mod(x * 0x400_0000, d * 0x400_0000) >= 0x400_0000
  {
    hide Mul, Quo, Mod;
    var q, r := Quo(x, d), Mod(x, d);
    DivMod(x, d);
    Scale(q, d);
    DivUnique(x * 0x400_0000, d * 0x400_0000, q, r * 0x400_0000);
  }

  /** A divisor of one digit, with or without zero digits below it, never gets a guess too low,
      whatever is divided. */
  lemma OneDigitSound(a: int, k: nat)
    requires 0 < a < DV
    ensures SoundFor(ProgramGuess, Mul(a, P(k)))
  {
    hide Mul, Quo, Mod, P, GuessesSound, ClearDivision;
    MulPositive(a, P(k));
    forall n: nat ensures GuessesSound(ProgramGuess, n, Mul(a, P(k))) {
      OneDigitClear(n, a, k, Mul(a, P(k)));
      ClearSound(n, Mul(a, P(k)));
    }
  }

  lemma OneDigitClear(n: nat, a: int, k: nat, m: int)
    requires 0 < a < DV && m == Mul(a, P(k)) && m > 0
    ensures ClearDivision(n, m)
  {
    hide Mul, Quo, Mod, P, Window, Normalized, ClearWindow;
    forall l: nat, h: nat, c: nat ensures ClearStep(n, m, l, h, c) {
      if l < 26 && Normalized(Mul(m, Pow2(l)), h) {
        var x, w := Mul(n, Pow2(l)), Mul(m, Pow2(l));
        MulPositive(m, Pow2(l));
        MulLe(0, n, Pow2(l));
        Units(Pow2(l));
        WindowFacts(x, w, c);
        OneDigitSecond(a, k, l, h);
        ZeroSecondClear(Window(x, w, c), w, h);
      }
    }
  }

  lemma OneDigitSecond(a: int, k: nat, l: nat, h: nat)
    requires 0 < a < DV && l < 26 && Normalized(Mul(Mul(a, P(k)), Pow2(l)), h)
    ensures Second(Mul(Mul(a, P(k)), Pow2(l)), h) == 0
  {
    hide Mul, Quo, Mod, P;
    var b := Mul(a, Pow2(l));
    Associate(a, P(k), Pow2(l));
    Associate(a, Pow2(l), P(k));
    Commute(P(k), Pow2(l));
    ShiftedDigit(a, l);
    OneDigitLength(b, k, h);
    if k > 0 {
      PNext(k - 1);
      Scale(b, P(k - 1));
      Units(P(k - 1));
      DivUnique(Mul(b, P(k)), P(k - 1), 0x400_0000 * b, 0);
    }
  }

  lemma ShiftedDigit(a: int, l: nat)
    requires 0 < a < DV && l < 26
    ensures 1 <= Mul(a, Pow2(l)) < 0x8_0000_0000_0000
  {
    hide Mul;
    Pow2Values();
    Pow2Next(25);
    Pow2Monotone(l, 25);
    MulPositive(a, Pow2(l));
    MulLe(a, DM, Pow2(l));
    MulLe(Pow2(l), 0x200_0000, DM);
    assert Mul(DM, 0x200_0000) == DM * 0x200_0000 by { NamedProducts(DM, 0x200_0000); }
  }

  lemma OneDigitLength(b: int, k: nat, h: nat)
    requires 1 <= b < 0x8_0000_0000_0000 && Normalized(Mul(b, P(k)), h)
    ensures h == k + 1
  {
    hide Mul, P;
    var w := Mul(b, P(k));
    MulLe(1, b, P(k));
    Units(P(k));
    if h <= k {
      PMonotone(h, k);
    }
    if h > k + 1 {
      PMonotone(k + 2, h);
      PNext(k);
      PNext(k + 1);
      MulGap(b, 0x8_0000_0000_0000, P(k));
      HalfSquare(P(k));
    }
  }

  lemma HalfSquare(p: int)
    ensures 2 * Mul(0x8_0000_0000_0000, p) == 0x400_0000 * (0x400_0000 * p)
  {
  }

  /** The condition on the divisor, once it is shifted up by l bits. */
  ghost predicate ShiftedSound(est: Estimator, m: int, l: nat, h: nat) {
    l < 26 && Normalized(Mul(m, Pow2(l)), h) ==> Mul(m, Pow2(l)) > 0 && DivisorSound(est, Mul(m, Pow2(l)), h)
  }

  /** A guess for a divisor is never too low, whatever is divided, exactly if for every two digits
      of the window it reaches the largest digit possible. */
  lemma SoundForIff(est: Estimator, m: int)
    requires m > 0
    ensures SoundFor(est, m) <==> forall l: nat, h: nat :: ShiftedSound(est, m, l, h)
  {
    hide Mul, Quo, Mod, P, Normalized, DivisorSound, StepsSound, GuessesSound;
    if SoundFor(est, m) {
      forall l: nat, h: nat ensures ShiftedSound(est, m, l, h) {
        if l < 26 && Normalized(Mul(m, Pow2(l)), h) {
          MulPositive(m, Pow2(l));
          NormalizedLength(Mul(m, Pow2(l)), h);
          forall n: nat ensures StepsSound(est, Mul(n, Pow2(l)), Mul(m, Pow2(l)), h) {
            SoundSteps(est, n, m, l, h);
          }
          DivisorSoundIff(est, m, l, Mul(m, Pow2(l)), h);
        }
      }
    }
    if forall l: nat, h: nat :: ShiftedSound(est, m, l, h) {
      forall n: nat ensures GuessesSound(est, n, m) {
        ShiftedSoundAt(est, m, n);
      }
    }
  }

  lemma ShiftedSoundAt(est: Estimator, m: int, n: nat)
    requires m > 0 && forall l: nat, h: nat :: ShiftedSound(est, m, l, h)
    ensures GuessesSound(est, n, m)
  {
    hide Mul, Quo, Mod, P, Normalized, DivisorSound, StepsSound;
    forall l: nat, h: nat | l < 26 && Normalized(Mul(m, Pow2(l)), h)
      ensures Mul(m, Pow2(l)) > 0 && StepsSound(est, Mul(n, Pow2(l)), Mul(m, Pow2(l)), h)
    {
      assert ShiftedSound(est, m, l, h);
      NormalizedLength(Mul(m, Pow2(l)), h);
      DivisorSoundIff(est, m, l, Mul(m, Pow2(l)), h);
    }
  }

  lemma NormalizedLength(w: int, h: nat)
    requires Normalized(w, h)
    ensures h > 0
  {
  }

  lemma DivisorSoundIff(est: Estimator, m: int, l: nat, w: int, h: nat)
    requires m > 0 && l < 26 && w == Mul(m, Pow2(l)) && w > 0 && h > 0 && Normalized(w, h)
    ensures DivisorSound(est, w, h) <==> forall n: nat :: StepsSound(est, Mul(n, Pow2(l)), w, h)
  {
    hide Mul, Quo, Mod, P, Window, TrialSound, Top, Second, Normalized, Highest;
    if DivisorSound(est, w, h) {
      forall n: nat ensures StepsSound(est, Mul(n, Pow2(l)), w, h) {
        MulLe(0, n, Pow2(l));
        Units(Pow2(l));
        var x := Mul(n, Pow2(l));
        forall c: nat | x >= P(c + h) ensures TrialSound(est, Window(x, w, c), w, h) {
          WindowFacts(x, w, c);
          HighestBounds(est, Window(x, w, c), w, h);
        }
      }
    }
    if forall n: nat :: StepsSound(est, Mul(n, Pow2(l)), w, h) {
      forall b1, b2 | 0 <= b1 < Top(w, h) && 0 <= b2 < DV
        ensures Highest(b1, b2, w, h) <= est(b1, b2, Top(w, h), Second(w, h)) <= DV
      {
        var win, n := HighestWindow(b1, b2, m, l, w, h);
        assert StepsSound(est, Mul(n, Pow2(l)), w, h);
        assert TrialSound(est, Window(Mul(n, Pow2(l)), w, 1), w, h);
        TrialSoundHere(est, win, b1, b2, w, h);
      }
    }
  }

  /** No window with its two top digits has a larger quotient. */
  lemma HighestBounds(est: Estimator, win: int, w: int, h: nat)
    requires h > 0 && w > 0 && Normalized(w, h) && DivisorSound(est, w, h) && 0 <= win < 0x400_0000 * w
    ensures TrialSound(est, win, w, h)
  {
    hide Mul, Quo, Mod, P, Top, Second, Normalized;
    var b1, b2 := Quo(win, P(h)), Quo(win, P(h - 1)) % 0x400_0000;
    WindowTop(win, w, h);
    TrueDigitBound(win, w);
    if b1 != Top(w, h) {
      var top, x := b1 * 0x400_0000 + b2, Highest(b1, b2, w, h);
      var p := P(h - 1);
      DivMod(win, p);
      Distribute(top + 1, top, 1, p);
      Units(p);
      var y := Mul(top + 1, p) - 1;
      DivMod(win, w);
      DivMod(y, w);
      if x < Quo(win, w) { MulGap(x, Quo(win, w), w); }
    }
  }

  lemma TrialSoundHere(est: Estimator, win: int, b1: int, b2: int, w: int, h: nat)
    requires h > 0 && w > 0 && TrialSound(est, win, w, h) && b1 < Top(w, h) && 0 <= b2 < DV
    requires Quo(win, P(h)) == b1 && Quo(win, P(h - 1)) == b1 * 0x400_0000 + b2
    ensures Quo(win, w) <= est(b1, b2, Top(w, h), Second(w, h)) <= DV
  {
    hide Mul, Quo, Mod, P, Top, Second;
    assert (b1 * 0x400_0000 + b2) % 0x400_0000 == b2;
  }

  /** A dividend that has the largest window with the top digits b1 and b2. */
  lemma HighestWindow(b1: int, b2: int, m: int, l: nat, w: int, h: nat) returns (win: int, n: nat)
    requires m > 0 && l < 26 && w == Mul(m, Pow2(l)) && w > 0 && h > 0 && Normalized(w, h)
    requires 0 <= b1 < Top(w, h) && 0 <= b2 < DV
    ensures Quo(win, w) == Highest(b1, b2, w, h) && Window(Mul(n, Pow2(l)), w, 1) == win
    ensures Quo(win, P(h)) == b1 && Quo(win, P(h - 1)) == b1 * 0x400_0000 + b2
    ensures Mul(n, Pow2(l)) >= P(1 + h)
  {
    hide Mul, Quo, Mod, P, Top, Second, Window;
    var top, p := b1 * 0x400_0000 + b2, P(h - 1);
    win := Mul(top + 1, p) - 1;
    Distribute(top + 1, top, 1, p);
    Units(p);
    DivUnique(win, p, top, p - 1);
    MulLe(0, top, p);
    PNext(h - 1);
    TwoPow(p);
    QuoQuo(win, p, 0x400_0000);
    QuoLiteral(top);
    WindowBelow(win, top, w, h);
    n := ShiftedDividend(win, m, l, w);
    HalfPower(w, h);
  }

  lemma WindowBelow(win: int, top: int, w: int, h: nat)
    requires h > 0 && Normalized(w, h) && win < Mul(top + 1, P(h - 1)) && top + 1 <= 0x400_0000 * Top(w, h)
    ensures win < 0x400_0000 * w
  {
    hide Mul, Quo, Mod, P;
    var d := Quo(w, P(h - 1));
    DivMod(w, P(h - 1));
    MulLe(top + 1, 0x400_0000 * d, P(h - 1));
    Scale(d, P(h - 1));
  }

  /** The window win occurs in the division of m * 2^52 + win * 2^(26 - l). */
  lemma ShiftedDividend(win: int, m: int, l: nat, w: int) returns (n: nat)
    requires m > 0 && l < 26 && w == Mul(m, Pow2(l)) && w > 0 && 0 <= win < 0x400_0000 * w
    ensures Window(Mul(n, Pow2(l)), w, 1) == win && Mul(n, Pow2(l)) >= Mul(w, P(2))
  {
    hide Mul, Quo, Mod, P, Window;
    var y := Pow2(26 - l);
    MulPositive(m, P(2));
    MulLe(0, win, y);
    Units(y);
    n := Mul(m, P(2)) + Mul(win, y);
    Distribute(n, Mul(m, P(2)), Mul(win, y), Pow2(l));
    Associate(m, P(2), Pow2(l));
    Associate(m, Pow2(l), P(2));
    Commute(P(2), Pow2(l));
    Associate(win, y, Pow2(l));
    Pow2Add(26 - l, l);
    Pow2Values();
    POne();
    MulLe(0, win, P(1));
    Units(P(1));
    WindowHere(Mul(n, Pow2(l)), win, w);
  }

  lemma WindowHere(x: int, win: int, w: int)
    requires w > 0 && 0 <= win < 0x400_0000 * w && x == Mul(w, P(2)) + Mul(win, P(1))
    ensures Window(x, w, 1) == win
  {
    hide Mul, Quo, Mod, P;
    POne();
    PNext(1);
    var u, g := win / 0x400_0000, win % 0x400_0000;
    var s := 0x400_0000 * w;
    Scale(s, P(1));
    Scale(w, P(1));
    Distribute(s + win, s, win, P(1));
    DivUnique(x, P(1), s + win, 0);
    Distribute(win, 0x400_0000 * u, g, P(1));
    Scale(u, P(1));
    Distribute(w + u, w, u, P(2));
    Scale(g, 1);
    Units(g);
    MulLe(0, g, P(1));
    DivUnique(x, P(2), w + u, 0x400_0000 * g);
    Units(w);
    DivUnique(w + u, w, 1, u);
  }

  lemma HalfPower(w: int, h: nat)
    requires Normalized(w, h)
    ensures Mul(w, P(2)) >= P(1 + h)
  {
    hide Mul;
    POne();
    PNext(1);
    PNext(h);
    MulLe(w, w, P(2));
    Commute(w, P(2));
    MulLe(2, P(2), w);
    MulTwo(w);
    MulLe(0x800_0000, P(2), w);
    LargeMultiple(w, P(h));
  }

  lemma MulTwo(w: int)
    ensures Mul(2, w) == 2 * w && Mul(w, 2) == 2 * w
  {
  }

  lemma LargeMultiple(w: int, p: int)
    requires p <= 2 * w
    ensures Mul(0x800_0000, w) >= 0x400_0000 * p
  {
  }

  const MADE_DIVISOR: int := 4433987871167635
  const MADE_WINDOW: int := 287770947396734323632447

  /** A quotient digit that is guessed one too low and yet made up for: dividing MADE_WINDOW with a
      zero digit below it, the first digit should be 64901158 and 64901157 is guessed; then the
      program reads its next digits, guesses 2^26, which is no proper digit, and ends with the
      right state. */
  lemma LowDigitMadeUp()
    ensures var w, win := MADE_DIVISOR, MADE_WINDOW;
      var n, rest := 0x400_0000 * win, 0x400_0000 * (win - 64901157 * w);
      var v := Buffer(0, win, 0, w, 2, 1, 64901157);
      && Normalized(w, 2) && DivState(n, n, w, 2, 2) && Window(n, w, 1) == win
      && Quo(win, w) == 64901158 && Trial(ProgramGuess, win, w, 2) == 64901157
      && Settle(0, win, 0, w, 2, 1, 64901157) == 64901157
      && v == Buffer(64901157, rest, 0, w, 2, 0, 0) && Quo(v, P(2)) == 0x400_0000 * 64901157 + Quo(rest, P(2))
      && Trial(ProgramGuess, rest, w, 2) == DV && Settle(64901157, rest, 0, w, 2, 0, DV) == DV
      && DivState(Buffer(64901157, rest, 0, w, 2, 0, DV), n, w, 2, 0)
  {
    hide Mul, Quo, Mod, P, Window, DivState, Buffer, Settle, Trial, ProgramGuess;
    MadeDigits();
    MadeTrials();
    MadeStart();
    MadeBuffers();
    MadeEnd();
    SettleIff(0, MADE_WINDOW, 0, MADE_DIVISOR, 2, 1, 64901157);
  }

  lemma MadeDigits()
    ensures P(0) == 1 && P(1) == 0x400_0000 && P(2) == 0x10_0000_0000_0000 && P(3) == 0x4000_0000_0000_0000_0000
    ensures var w, win := MADE_DIVISOR, MADE_WINDOW;
      && Normalized(w, 2) && 0 <= win < 0x400_0000 * w
      && Top(w, 2) == 66071567 && Second(w, 2) == 67097747
      && Quo(win, P(2)) == 63897986 && Quo(win, P(1)) % 0x400_0000 == 21717088
      && Quo(win, w) == 64901158
    ensures var rest := 0x400_0000 * (MADE_WINDOW - 64901157 * MADE_DIVISOR);
      Quo(rest, P(2)) == 66071568 && Quo(rest, P(1)) % 0x400_0000 == 0
  {
    POne();
    PNext(1);
    PNext(2);
  }

  /** The two guesses, in doubles. */
  lemma MadeTrials()
    ensures Trial(ProgramGuess, MADE_WINDOW, MADE_DIVISOR, 2) == 64901157
    ensures Trial(ProgramGuess, 0x400_0000 * (MADE_WINDOW - 64901157 * MADE_DIVISOR), MADE_DIVISOR, 2) == DV
  {
    hide Mul, Quo, Mod, P, Rounded, ProgramGuess, Top, Second;
    MadeDigits();
    MadeReciprocals();
    MadeFirst();
    MadeSecond();
    var f, z := Double(4574304259048537, 0x10_0000_0000_0000), Double(4574304259048537, 0x4000_0000_0000_0000_0000);
    var t := Steps(f, z, Double(8710885927212947, 0x800_0000), Double(5921159547974833, 0x40_0000_0000_0000),
                   Double(8710885971329023, 0x800_0000));
    assert Computes(t, 63897986, 21717088, 66071567, 67097747, 64901157);
    GuessIff(63897986, 21717088, 66071567, 67097747, 64901157);
    var r := Steps(f, z, Double(4503599627381787, 0x400_0000), Double(4574304259048537, 0x4000_0000_0000_0000_0000),
                   Double(4503599627381788, 0x400_0000));
    assert Computes(r, 66071568, 0, 66071567, 67097747, DV);
    GuessIff(66071568, 0, 66071567, 67097747, DV);
  }

  lemma MadeReciprocals()
    ensures Leading2(66071567, 67097747) == MADE_DIVISOR
    ensures Rounded(0x10_0000_0000_0000, MADE_DIVISOR, Double(4574304259048537, 0x10_0000_0000_0000))
    ensures Rounded(0x400_0000, MADE_DIVISOR, Double(4574304259048537, 0x4000_0000_0000_0000_0000))
  {
    PowersUsed();
    assert IsPow2(0x10_0000_0000_0000) && IsPow2(0x4000_0000_0000_0000_0000);
  }

  lemma MadePowers()
    ensures IsPow2(0x400_0000) && IsPow2(0x800_0000) && IsPow2(0x40_0000_0000_0000) && IsPow2(0x4000_0000_0000_0000_0000)
  {
    PowersUsed();
    Pow2Values();
    Pow2Next(26);
    Pow2Next(52);
    Pow2Next(53);
    assert Pow2(26) == 0x400_0000 && Pow2(27) == 0x800_0000 && Pow2(54) == 0x40_0000_0000_0000;
  }

  lemma MadeFirst()
    ensures Rounded(Mul(63897986, 4574304259048537), 0x10_0000_0000_0000, Double(8710885927212947, 0x800_0000))
    ensures Rounded(Mul(21717089, 4574304259048537), 0x4000_0000_0000_0000_0000, Double(5921159547974833, 0x40_0000_0000_0000))
    ensures Rounded(Mul(8710885927212947, 0x40_0000_0000_0000) + Mul(5921159547974833, 0x800_0000),
                    Mul(0x800_0000, 0x40_0000_0000_0000), Double(8710885971329023, 0x800_0000))
    ensures Quo(8710885971329023, 0x800_0000) == 64901157
  {
    MadePowers();
  }

  lemma MadeSecond()
    ensures Rounded(Mul(66071568, 4574304259048537), 0x10_0000_0000_0000, Double(4503599627381787, 0x400_0000))
    ensures Rounded(Mul(1, 4574304259048537), 0x4000_0000_0000_0000_0000, Double(4574304259048537, 0x4000_0000_0000_0000_0000))
    ensures Rounded(Mul(4503599627381787, 0x4000_0000_0000_0000_0000) + Mul(4574304259048537, 0x400_0000),
                    Mul(0x400_0000, 0x4000_0000_0000_0000_0000), Double(4503599627381788, 0x400_0000))
    ensures Quo(4503599627381788, 0x400_0000) == DV
  {
    MadePowers();
  }

  /** The state before, and the buffer that the low digit leaves. */
  lemma MadeBuffers()
    ensures var w, win := MADE_DIVISOR, MADE_WINDOW;
      var rest := 0x400_0000 * (win - 64901157 * w);
      var v := Buffer(0, win, 0, w, 2, 1, 64901157);
      && v == Buffer(64901157, rest, 0, w, 2, 0, 0)
      && Quo(v, P(2)) == 0x400_0000 * 64901157 + Quo(rest, P(2))
  {
    hide P;
    MadeDigits();
  }

  lemma MadeStart()
    ensures DivState(0x400_0000 * MADE_WINDOW, 0x400_0000 * MADE_WINDOW, MADE_DIVISOR, 2, 2)
    ensures Window(0x400_0000 * MADE_WINDOW, MADE_DIVISOR, 1) == MADE_WINDOW
  {
    hide P;
    MadeDigits();
    PNext(3);
  }

  /** The buffer with the digit 2^26. */
  lemma MadeValue()
    ensures var w, win := MADE_DIVISOR, MADE_WINDOW;
      Buffer(64901157, 0x400_0000 * (win - 64901157 * w), 0, w, 2, 0, DV) == 19615171407272136795499832279040
    ensures Quo(19615171407272136795499832279040, P(2)) == 0x400_0000 * 64901157 + DV
  {
    hide P;
    MadeDigits();
  }

  /** That digit is left as it is, and makes up for the low one. */
  lemma MadeEnd()
    ensures var w, win := MADE_DIVISOR, MADE_WINDOW;
      var rest := 0x400_0000 * (win - 64901157 * w);
      && Settle(64901157, rest, 0, w, 2, 0, DV) == DV
      && DivState(Buffer(64901157, rest, 0, w, 2, 0, DV), 0x400_0000 * win, w, 2, 0)
  {
    MadeValue();
    MadeRight();
    hide *;
    SettleStays(64901157, 0x400_0000 * (MADE_WINDOW - 64901157 * MADE_DIVISOR), MADE_DIVISOR);
  }

  lemma SettleStays(q: int, win: int, w: int)
    requires Quo(Buffer(q, win, 0, w, 2, 0, DV), P(2)) - 0x400_0000 * q >= DV
    ensures Settle(q, win, 0, w, 2, 0, DV) == DV
  {
    hide Quo, P, Buffer;
  }

  lemma MadeRight()
    ensures DivState(19615171407272136795499832279040, 0x400_0000 * MADE_WINDOW, MADE_DIVISOR, 2, 0)
  {
    hide Mul, Quo, Mod, P;
    MadeDigits();
    var n := 0x400_0000 * MADE_WINDOW;
    MadeProduct();
    DivUnique(n, P(0), n, 0);
    DivUnique(n, MADE_DIVISOR, 0x400_0000 * 64901158, 746049241088);
  }

  lemma MadeProduct()
    ensures 0x400_0000 * MADE_WINDOW == Mul(0x400_0000 * 64901158, MADE_DIVISOR) + 746049241088
    ensures Mul(0x400_0000 * MADE_WINDOW, 1) == 0x400_0000 * MADE_WINDOW
    ensures 19615171407272136795499832279040 == Mul(0x400_0000 * 64901158, 0x10_0000_0000_0000) + Mul(746049241088, 1)
  {
  }

  /** The program's own guess fails: the division of LOW_WINDOW by LOW_DIVISOR is one step, and it
      tries one less than the true digit. */
  lemma ProgramGuessTooLow()
    ensures Trial(ProgramGuess, LOW_WINDOW, LOW_DIVISOR, 2) == Quo(LOW_WINDOW, LOW_DIVISOR) - 1
    ensures !GuessesSound(ProgramGuess, LOW_WINDOW, LOW_DIVISOR)
  {
    hide Mul, Quo, Mod, P, Computes, ProgramGuess, Top, Second, StepsSound, Window, Trial;
    var w, win := LOW_DIVISOR, LOW_WINDOW;
    var t := DoubleGuessTooLow();
    LeadingBound(win, w, 2);
    var b1, b2 := Quo(win, P(2)), Quo(win, P(1)) % 0x400_0000;
    GuessIff(b1, b2, Top(w, 2), Second(w, 2), 17895696);
    LowTrial(b1, b2);
    if GuessesSound(ProgramGuess, win, w) {
      assert Pow2(0) == 1;
      Units(w);
      Units(win);
      SoundSteps(ProgramGuess, win, w, 0, 2);
      assert StepsSound(ProgramGuess, win, w, 2);
      LowStep();
      assert false;
    }
  }

  lemma LowTrial(b1: int, b2: int)
    requires b1 == Quo(LOW_WINDOW, P(2)) && b2 == Quo(LOW_WINDOW, P(1)) % 0x400_0000
    requires b1 < Top(LOW_DIVISOR, 2)
    requires ProgramGuess(b1, b2, Top(LOW_DIVISOR, 2), Second(LOW_DIVISOR, 2)) == 17895696
    ensures Trial(ProgramGuess, LOW_WINDOW, LOW_DIVISOR, 2) == 17895696
  {
    hide Quo, P, ProgramGuess, Top, Second;
  }

  lemma LowStep()
    requires StepsSound(ProgramGuess, LOW_WINDOW, LOW_DIVISOR, 2)
    ensures TrialSound(ProgramGuess, LOW_WINDOW, LOW_DIVISOR, 2)
  {
    hide ProgramGuess, Mod, Quo, TrialSound;
    var w, win := LOW_DIVISOR, LOW_WINDOW;
    LowDigits();
    POne();
    PNext(1);
    Units(w);
    var u := Quo(win, P(1));
    QuoNonNegative(win, P(1));
    DivUnique(u, w, 0, u);
    DivMod(win, P(1));
    DivUnique(win, P(0), win, 0);
    assert Window(win, w, 0) == win;
  }
}
