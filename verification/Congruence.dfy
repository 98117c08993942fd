/** Congruence of integers, and the residue arithmetic that modular exponentiation rests on. */
module Congruence {
  import opened JsNumber
  import opened Ring
  import opened Digits

  ghost predicate Congruent(x: int, y: int, m: int) {
    exists k :: x == y + Mul(k, m)
  }

  lemma CongruentBy(x: int, y: int, m: int, k: int)
    requires x == y + Mul(k, m)
    ensures Congruent(x, y, m)
  {
  }

  lemma CongruentSame(x: int, m: int)
    ensures Congruent(x, x, m)
  {
    Units(m);
    CongruentBy(x, x, m, 0);
  }

  lemma CongruentFlip(x: int, y: int, m: int)
    requires Congruent(x, y, m)
    ensures Congruent(y, x, m)
  {
    hide Mul;
    var k :| x == y + Mul(k, m);
    Negate(k, m);
    CongruentBy(y, x, m, -k);
  }

  lemma CongruentJoin(x: int, y: int, z: int, m: int)
    requires Congruent(x, y, m) && Congruent(y, z, m)
    ensures Congruent(x, z, m)
  {
    hide Mul;
    var k :| x == y + Mul(k, m);
    var l :| y == z + Mul(l, m);
    Distribute(k + l, k, l, m);
    CongruentBy(x, z, m, k + l);
  }

  lemma CongruentAdd(x: int, x': int, y: int, y': int, m: int)
    requires Congruent(x, x', m) && Congruent(y, y', m)
    ensures Congruent(x + y, x' + y', m) && Congruent(x - y, x' - y', m)
  {
    hide Mul;
    var k :| x == x' + Mul(k, m);
    var l :| y == y' + Mul(l, m);
    Distribute(k + l, k, l, m);
    Distribute(k, k - l, l, m);
    CongruentBy(x + y, x' + y', m, k + l);
    CongruentBy(x - y, x' - y', m, k - l);
  }

  lemma CongruentScale(x: int, y: int, m: int, c: int)
    requires Congruent(x, y, m)
    ensures Congruent(Mul(x, c), Mul(y, c), m) && Congruent(Mul(c, x), Mul(c, y), m)
  {
    hide Mul;
    var k :| x == y + Mul(k, m);
    Distribute(x, y, Mul(k, m), c);
    Associate(c, k, m);
    Commute(c, Mul(k, m));
    CongruentBy(Mul(x, c), Mul(y, c), m, Mul(c, k));
    CongruentBy(Mul(c, x), Mul(c, y), m, Mul(c, k));
  }

  lemma CongruentMul(x: int, x': int, y: int, y': int, m: int)
    requires Congruent(x, x', m) && Congruent(y, y', m)
    ensures Congruent(Mul(x, y), Mul(x', y'), m)
  {
    hide Mul, Congruent;
    CongruentScale(x, x', m, y);
    CongruentScale(y, y', m, x');
    CongruentJoin(Mul(x, y), Mul(x', y), Mul(x', y'), m);
  }

  lemma CongruentMod(x: int, m: int)
    requires m > 0
    ensures Congruent(Mod(x, m), x, m) && 0 <= Mod(x, m) < m
  {
    hide Mul, Quo, Mod;
    DivMod(x, m);
    Negate(Quo(x, m), m);
    CongruentBy(Mod(x, m), x, m, -Quo(x, m));
  }

  lemma CongruentUnique(x: int, y: int, m: int)
    requires Congruent(x, y, m) && 0 <= x < m && 0 <= y < m
    ensures x == y
  {
    hide Mul;
    var k :| x == y + Mul(k, m);
    Units(m);
    if k > 0 {
      MulLe(1, k, m);
    } else if k < 0 {
      MulLe(k, -1, m);
    }
  }

  lemma ModUnique(x: int, y: int, m: int)
    requires Congruent(x, y, m) && 0 <= x < m
    ensures x == Mod(y, m)
  {
    hide Mul, Mod, Congruent;
    CongruentMod(y, m);
    CongruentFlip(Mod(y, m), y, m);
    CongruentJoin(x, y, Mod(y, m), m);
    CongruentUnique(x, Mod(y, m), m);
  }

  /** Congruence for a multiple of the modulus. */
  lemma CongruentFactor(x: int, y: int, m: int, n: int)
    requires Congruent(x, y, Mul(m, n))
    ensures Congruent(x, y, n)
  {
    hide Mul;
    var k :| x == y + Mul(k, Mul(m, n));
    Associate(k, m, n);
    CongruentBy(x, y, n, Mul(k, m));
  }

  /** An odd modulus that divides 2^k times a number divides the number. */
  lemma {:induction false} HalvesCancel(x: int, y: int, k: nat, m: int)
    requires Mul(Pow2(k), x) == Mul(y, m) && m % 2 == 1
    ensures Congruent(x, 0, m)
    decreases k
  {
    hide Mul;
    if k == 0 {
      Units(x);
      CongruentBy(x, 0, m, y);
    } else {
      Distribute(Pow2(k), Pow2(k - 1), Pow2(k - 1), x);
      EvenFactor(y, m);
      Distribute(y, y / 2, y / 2, m);
      HalvesCancel(x, y / 2, k - 1, m);
    }
  }

  lemma EvenFactor(y: int, m: int)
    requires m % 2 == 1 && Mul(y, m) % 2 == 0
    ensures y % 2 == 0
  {
    hide Mul;
    var n := m / 2;
    Distribute(m, n + n, 1, y);
    Distribute(n + n, n, n, y);
    Units(y);
  }

  /** A power of two may be cancelled from a congruence with an odd modulus. */
  lemma CancelPow2(x: int, y: int, k: nat, m: int)
    requires m % 2 == 1 && Congruent(Mul(x, Pow2(k)), Mul(y, Pow2(k)), m)
    ensures Congruent(x, y, m)
  {
    hide Mul;
    var l :| Mul(x, Pow2(k)) == Mul(y, Pow2(k)) + Mul(l, m);
    Distribute(x, x - y, y, Pow2(k));
    Commute(x - y, Pow2(k));
    HalvesCancel(x - y, l, k, m);
    var i :| x - y == 0 + Mul(i, m);
    CongruentBy(x, y, m, i);
  }

  /** One Newton step doubles the number of bits to which a is the inverse of b. */
  lemma NewtonStep(a: int, b: int, m: int, c: int, e: int)
    requires Congruent(Mul(a, b), 1, m)
    requires Congruent(e, Mul(b, a), Mul(m, m)) && Congruent(c, Mul(a, 2 - e), Mul(m, m))
    ensures Congruent(Mul(c, b), 1, Mul(m, m))
  {
    hide Mul, Congruent;
    var n, p := Mul(m, m), Mul(a, b);
    Commute(a, b);
    CongruentSame(2, n);
    CongruentAdd(2, 2, e, p, n);
    CongruentScale(2 - e, 2 - p, n, a);
    CongruentJoin(c, Mul(a, 2 - e), Mul(a, 2 - p), n);
    CongruentScale(c, Mul(a, 2 - p), n, b);
    Associate(a, 2 - p, b);
    Associate(b, 2 - p, a);
    Commute(2 - p, b);
    Associate(a, b, 2 - p);
    assert Mul(Mul(a, 2 - p), b) == Mul(p, 2 - p);
    SquareOfError(p, m);
    CongruentJoin(Mul(c, b), Mul(p, 2 - p), 1, n);
  }

  lemma SquareOfError(p: int, m: int)
    requires Congruent(p, 1, m)
    ensures Congruent(Mul(p, 2 - p), 1, Mul(m, m))
  {
    hide Mul;
    var k :| p == 1 + Mul(k, m);
    var z := Mul(k, m);
    Distribute(p, 1, z, 2 - p);
    Distribute(1, 2 - p, z, z);
    Units(2 - p);
    Units(z);
    Associate(k, m, z);
    Associate(k, m, m);
    Associate(m, k, m);
    Associate(k, k, Mul(m, m));
    Negate(Mul(k, k), Mul(m, m));
    CongruentBy(Mul(p, 2 - p), 1, Mul(m, m), -Mul(k, k));
  }

  lemma ProductFits(x: int, y: int, i: nat, j: nat)
    requires 0 <= x < Pow2(i) && -Pow2(j) <= y <= Pow2(j) && i + j <= 52
    ensures Exact(Mul(x, y)) && -0x10_0000_0000_0000 <= Mul(x, y) <= 0x10_0000_0000_0000
  {
    Pow2At52();
    hide Mul, Pow2;
    Pow2Add(i, j);
    Pow2Monotone(i + j, 52);
    MulLe(x, Pow2(i), Pow2(j));
    MulLe(y, Pow2(j), x);
    MulLe(-Pow2(j), y, x);
    Negate(x, Pow2(j));
  }

  lemma Pow2At52()
    ensures Pow2(52) == 0x10_0000_0000_0000
  {
    Pow2Values();
    Pow2Add(26, 26);
  }

  lemma LowCongruent(x: int, k: nat)
    requires Exact(x) && k <= 31
    ensures Congruent(Low(x, k), x, Pow2(k)) && 0 <= Low(x, k) < Pow2(k)
  {
    hide Mul, Quo, Mod, Congruent;
    CongruentMod(x, Pow2(k));
  }

  /** A Newton step in k to 2k bits, as computed with masks. */
  lemma MaskedNewton(a: int, b: int, k: nat)
    requires 1 <= k <= 4 && 0 <= a < Pow2(k) && 0 <= b < DV && Congruent(Mul(a, b), 1, Pow2(k))
    ensures Exact(Mul(a, 2 - Mul(Low(b, 2 * k), a)))
    ensures var c := Low(Mul(a, 2 - Mul(Low(b, 2 * k), a)), 2 * k);
      0 <= c < Pow2(2 * k) && Congruent(Mul(c, b), 1, Pow2(2 * k))
  {
    hide Mul, Quo, Mod, Congruent, Low, Pow2;
    var l := Low(b, 2 * k);
    LowCongruent(b, 2 * k);
    Pow2Add(k, k);
    LowProduct(l, a, 2 * k, k);
    Pow2Small(3 * k);
    ProductFits(a, 2 - Mul(l, a), k, 3 * k + 1);
    CongruentScale(l, b, Pow2(2 * k), a);
    var z := Mul(a, 2 - Mul(l, a));
    LowCongruent(z, 2 * k);
    NewtonStep(a, b, Pow2(k), Low(z, 2 * k), Mul(l, a));
  }

  lemma LowProduct(l: int, a: int, i: nat, k: nat)
    requires 0 <= l < Pow2(i) && 0 <= a < Pow2(k)
    ensures 0 <= Mul(l, a) <= Pow2(i + k)
  {
    hide Mul;
    Pow2Add(i, k);
    MulLe(0, l, a);
    Units(a);
    MulLe(l, Pow2(i), a);
    MulLe(a, Pow2(k), Pow2(i));
  }

  lemma Pow2Small(n: nat)
    ensures Pow2(n + 1) == Pow2(n) + Pow2(n) && (n > 0 ==> Pow2(n) >= 2)
  {
  }

  /** The step to 16 bits masks the inner product as well. */
  lemma MaskedNewton16(a: int, b: int)
    requires 0 <= a < 0x100 && 0 <= b < DV && Congruent(Mul(a, b), 1, 0x100)
    ensures Exact(Mul(Low(b, 16), a)) && Exact(Mul(a, 2 - Low(Mul(Low(b, 16), a), 16)))
    ensures var c := Low(Mul(a, 2 - Low(Mul(Low(b, 16), a), 16)), 16);
      0 <= c < 0x1_0000 && Congruent(Mul(c, b), 1, 0x1_0000)
  {
    hide Mul, Quo, Mod, Congruent;
    Pow2Values();
    Pow2Add(8, 8);
    var l := Low(b, 16);
    CongruentMod(b, 0x1_0000);
    ProductFits(l, a, 16, 8);
    var e := Low(Mul(l, a), 16);
    CongruentMod(Mul(l, a), 0x1_0000);
    CongruentScale(l, b, 0x1_0000, a);
    CongruentJoin(e, Mul(l, a), Mul(b, a), 0x1_0000);
    ProductFits(a, 2 - e, 8, 16);
    var z := Mul(a, 2 - e);
    CongruentMod(z, 0x1_0000);
    NewtonStep(a, b, 0x100, Mod(z, 0x1_0000), e);
  }

  lemma RemCongruent(x: int, m: int)
    requires m > 0
    ensures Congruent(Rem(x, m), x, m) && -m < Rem(x, m) < m && (x >= 0 ==> Rem(x, m) >= 0)
  {
    hide Mul, Quo, Mod;
    DivMod(x, m);
    var k := RemMultiple(x, m);
    Negate(k, m);
    CongruentBy(Rem(x, m), x, m, -k);
  }

  /** The last step, from 16 to 26 bits, takes truncated remainders; its result is negated. */
  lemma LastNewton(a: int, b: int)
    requires 0 <= a < 0x1_0000 && 0 <= b < DV && Congruent(Mul(a, b), 1, 0x1_0000)
    ensures Exact(Mul(b, a)) && Exact(Mul(a, 2 - Rem(Mul(b, a), DV)))
    ensures var c := Rem(Mul(a, 2 - Rem(Mul(b, a), DV)), DV);
      var r := if c > 0 then DV - c else -c;
      0 < r < DV && Congruent(Mul(r, b), -1, DV)
  {
    hide Mul, Quo, Mod, Rem, Congruent;
    Pow2Values();
    ProductFits(b, a, 26, 16);
    var e := Rem(Mul(b, a), DV);
    MulLe(0, b, a);
    Units(a);
    RemCongruent(Mul(b, a), DV);
    ProductFits(a, 2 - e, 16, 26);
    var z := Mul(a, 2 - e);
    var c := Rem(z, DV);
    RemCongruent(z, DV);
    WideNewton(a, b, c, e);
    LastNegation(c, b);
  }

  /** From 16 bits a full step gives 32; 26 of them are kept. */
  lemma WideNewton(a: int, b: int, c: int, e: int)
    requires Congruent(Mul(a, b), 1, 0x1_0000)
    requires Congruent(e, Mul(b, a), DV) && Congruent(c, Mul(a, 2 - e), DV)
    ensures Congruent(Mul(c, b), 1, DV)
  {
    hide Mul, Congruent;
    var f := Mul(a, 2 - Mul(b, a));
    CongruentSame(Mul(b, a), Mul(0x1_0000, 0x1_0000));
    CongruentSame(f, Mul(0x1_0000, 0x1_0000));
    NewtonStep(a, b, 0x1_0000, f, Mul(b, a));
    assert Mul(0x1_0000, 0x1_0000) == Mul(0x40, 0x400_0000) by {
      assert 0x1_0000 * 0x1_0000 == 0x40 * 0x400_0000;
      LiteralProducts();
    }
    CongruentFactor(Mul(f, b), 1, 0x40, 0x400_0000);
    CongruentSame(2, DV);
    CongruentAdd(2, 2, e, Mul(b, a), DV);
    CongruentScale(2 - e, 2 - Mul(b, a), DV, a);
    CongruentJoin(c, Mul(a, 2 - e), f, DV);
    CongruentScale(c, f, DV, b);
    CongruentJoin(Mul(c, b), Mul(f, b), 1, DV);
  }

  lemma LiteralProducts()
    ensures Mul(0x1_0000, 0x1_0000) == Mul(0x40, 0x400_0000)
  {
  }

  lemma LastNegation(c: int, b: int)
    requires -DV < c < DV && Congruent(Mul(c, b), 1, DV)
    ensures var r := if c > 0 then DV - c else -c;
      0 < r < DV && Congruent(Mul(r, b), -1, DV)
  {
    hide Mul;
    var k :| Mul(c, b) == 1 + Mul(k, DV);
    Negate(k, DV);
    Negate(c, b);
    Units(b);
    Scale(1, k);
    Units(k);
    if c > 0 {
      Distribute(DV, DV - c, c, b);
      Commute(DV, b);
      Distribute(b - k, b, -k, DV);
      CongruentBy(Mul(DV - c, b), -1, DV, b - k);
    } else {
      CongruentBy(Mul(-c, b), -1, DV, -k);
    }
  }

  /** An odd number is its own inverse in two bits. */
  lemma TwoBitInverse(b: int)
    requires b >= 0 && b % 2 == 1 && Exact(b)
    ensures 0 <= Low(b, 2) < 4 && Congruent(Mul(Low(b, 2), b), 1, 4)
  {
    Pow2Values();
    var a := b % 4;
    assert Low(b, 2) == a;
    var q := b / 4;
    assert b == 4 * q + a && (a == 1 || a == 3);
    hide Mul;
    Distribute(b, 4 * q, a, a);
    if a == 1 {
      Units(b);
      FourTimes(q);
      CongruentBy(b, 1, 4, q);
    } else {
      TripleProduct(b);
      FourTimes(3 * q + 2);
      CongruentBy(Mul(3, b), 1, 4, 3 * q + 2);
    }
  }

  lemma TripleProduct(b: int)
    ensures Mul(3, b) == 3 * b
  {
  }

  lemma FourTimes(q: int)
    ensures Mul(q, 4) == 4 * q
  {
  }

  function Power(x: int, n: nat): int {
    if n == 0 then 1 else Mul(x, Power(x, n - 1))
  }

  lemma PowerAdd(x: int, a: nat, b: nat)
    ensures Power(x, a + b) == Mul(Power(x, a), Power(x, b))
  {
    hide Mul;
    if a == 0 {
      Units(Power(x, b));
    } else {
      PowerAdd(x, a - 1, b);
      Associate(x, Power(x, a - 1), Power(x, b));
    }
  }
}
