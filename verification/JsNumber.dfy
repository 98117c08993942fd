/** The integer part of JavaScript's number arithmetic that the big-integer code relies on.

    A number is an IEEE double: integers are exact up to 2^53, and the bit operators first
    reduce their operand to a 32-bit two's complement integer.  Each operator below carries
    the range in which its JavaScript result is the integer result, as a precondition. */
module JsNumber {
  import opened Ring

  function Pow2(n: nat): (r: int)
    ensures r >= 1
  {
    if n == 0 then 1 else 2 * Pow2(n - 1)
  }

  /** Integers that a double represents without rounding, whatever was added to reach them. */
  predicate Exact(x: int) {
    -0x20_0000_0000_0000 <= x <= 0x20_0000_0000_0000
  }

  predicate Int32(x: int) {
    -0x8000_0000 <= x < 0x8000_0000
  }

  /** `x & ((1 << k) - 1)`: the low k bits of the two's complement form of x. */
  function Low(x: int, k: nat): int
    requires Exact(x) && k <= 31
  {
    Mod(x, Pow2(k))
  }

  /** `x >> k`: arithmetic shift, rounding towards minus infinity. */
  function Asr(x: int, k: nat): int
    requires Int32(x) && k <= 31
  {
    Quo(x, Pow2(k))
  }

  /** `x << k`, where no bit is lost at the top. */
  function Shl(x: int, k: nat): int
    requires k <= 31 && Int32(Mul(x, Pow2(k)))
  {
    Mul(x, Pow2(k))
  }

  /** `(x & (1 << k)) > 0`; with k == 31 the mask would be negative and the test always fail. */
  predicate HasBit(x: int, k: nat)
    requires 0 <= x < 0x1_0000_0000 && k <= 30
  {
    Quo(x, Pow2(k)) % 2 == 1
  }

  /** `x | y` on non-negative operands, bit by bit. */
  function Or(x: nat, y: nat): nat {
    if x == 0 then y
    else if y == 0 then x
    else 2 * Or(x / 2, y / 2) + (if x % 2 == 1 || y % 2 == 1 then 1 else 0)
  }

  /** `x % y` for positive y: the remainder takes the sign of the dividend. */
  function Rem(x: int, y: int): int
    requires y > 0
  {
    if x >= 0 then Mod(x, y) else -Mod(-x, y)
  }

  /** The truncated remainder differs from its dividend by a multiple of the divisor. */
  lemma RemMultiple(x: int, y: int) returns (k: int)
    requires y > 0
    ensures x == Rem(x, y) + Mul(k, y)
    ensures -y < Rem(x, y) < y
  {
    hide Mul, Quo, Mod;
    if x >= 0 {
      k := Quo(x, y);
      DivMod(x, y);
    } else {
      k := -Quo(-x, y);
      DivMod(-x, y);
      Negate(Quo(-x, y), y);
    }
  }

  lemma Pow2Add(a: nat, b: nat)
    ensures Pow2(a + b) == Mul(Pow2(a), Pow2(b))
  {
    hide Mul;
    if a > 0 {
      Pow2Add(a - 1, b);
      Distribute(Pow2(a), Pow2(a - 1), Pow2(a - 1), Pow2(b));
    } else {
      Units(Pow2(b));
    }
  }

  lemma Pow2Values()
    ensures Pow2(1) == 2 && Pow2(2) == 4 && Pow2(4) == 16 && Pow2(8) == 0x100
    ensures Pow2(11) == 0x800 && Pow2(15) == 0x8000 && Pow2(16) == 0x1_0000
    ensures Pow2(25) == 0x200_0000 && Pow2(26) == 0x400_0000 && Pow2(32) == 0x1_0000_0000
  {
    Pow2Add(2, 2);
    Pow2Add(4, 4);
    assert Pow2(3) == 8;
    Pow2Add(8, 3);
    Pow2Add(11, 4);
    Pow2Add(8, 8);
    Pow2Add(15, 11);
    assert Pow2(26) == 2 * Pow2(25);
    Pow2Add(16, 16);
  }

  lemma Pow2Monotone(a: nat, b: nat)
    requires a <= b
    ensures Pow2(a) <= Pow2(b)
  {
    if a < b { Pow2Monotone(a, b - 1); }
  }

  /** Operands with no bit in common are added by `|`: x is a multiple of 2^k, y is below it. */
  lemma {:induction false} OrDisjoint(x: nat, y: nat, q: nat, k: nat)
    requires x == Mul(q, Pow2(k)) && y < Pow2(k)
    ensures Or(x, y) == x + y && Or(y, x) == x + y
    decreases k
  {
    hide Mul;
    if k > 0 && x != 0 && y != 0 {
      Distribute(Pow2(k), Pow2(k - 1), Pow2(k - 1), q);
      OrDisjoint(x / 2, y / 2, q, k - 1);
    }
  }

  /** Splitting off the k low bits. */
  lemma SplitBits(x: int, k: nat)
    requires Int32(x) && k <= 31
    ensures x == Mul(Asr(x, k), Pow2(k)) + Low(x, k)
    ensures 0 <= Low(x, k) < Pow2(k)
  {
    hide Mul, Quo, Mod;
    DivMod(x, Pow2(k));
  }

  lemma QuoPow2Bounds(x: int, j: nat, k: nat)
    requires 0 <= x < Pow2(j + k)
    ensures 0 <= Quo(x, Pow2(k)) < Pow2(j)
  {
    hide Mul, Quo, Mod;
    DivMod(x, Pow2(k));
    Pow2Add(j, k);
    var q := Quo(x, Pow2(k));
    Units(Pow2(k));
    if q < 0 {
      MulLe(q, -1, Pow2(k));
    } else if q >= Pow2(j) {
      MulLe(Pow2(j), q, Pow2(k));
    }
  }

  /** b is x without its e low bits. */
  ghost predicate Leading(x: int, b: int, e: nat) {
    Mul(b, Pow2(e)) <= x < Mul(b + 1, Pow2(e))
  }

  lemma LeadingShift(x: int, b: int, e: nat, k: nat)
    requires Leading(x, b, e)
    ensures Leading(x, Quo(b, Pow2(k)), e + k)
  {
    hide Mul, Quo, Mod;
    var c := Quo(b, Pow2(k));
    DivMod(b, Pow2(k));
    Pow2Add(k, e);
    Distribute(c + 1, c, 1, Pow2(k));
    Units(Pow2(k));
    Associate(c, Pow2(k), Pow2(e));
    Associate(c + 1, Pow2(k), Pow2(e));
    MulLe(Mul(c, Pow2(k)), b, Pow2(e));
    MulLe(b + 1, Mul(c + 1, Pow2(k)), Pow2(e));
  }

  /** One test of nbits: with 2k bits left, keep the upper k if they are not all zero. */
  method NBitsTest(ghost x: int, b0: int, r0: nat, k: nat) returns (b: int, r: nat)
    requires k <= 16 && 0 <= b0 < Pow2(k + k) && r0 >= 1 && Leading(x, b0, r0 - 1)
    ensures 0 <= b < Pow2(k) && (b0 > 0 ==> b > 0)
    ensures r0 <= r <= r0 + k && Leading(x, b, r - 1)
  {
    hide Mul, Quo, Mod;
    b, r := b0, r0;
    var c := Quo(b, Pow2(k));
    LeadingShift(x, b, r - 1, k);
    QuoPow2Bounds(b0, k, k);
    if c != 0 {
      b := c;
      r := r + k;
    } else {
      DivMod(b, Pow2(k));
      Units(Pow2(k));
    }
  }

  /** The number of bits of x, by halving the range at each test; 1 for 0. */
  method NBits(x: int) returns (r: nat)
    requires 0 <= x < 0x1_0000_0000
    ensures 1 <= r <= 32 && x < Pow2(r)
    ensures x > 0 ==> Pow2(r - 1) <= x
  {
    hide Mul;
    Pow2Values();
    assert Pow2(0) == 1;
    hide Pow2;
    Units(x);
    Units(x + 1);
    var b;
    b, r := NBitsTest(x, x, 1, 16);
    b, r := NBitsTest(x, b, r, 8);
    b, r := NBitsTest(x, b, r, 4);
    b, r := NBitsTest(x, b, r, 2);
    b, r := NBitsTest(x, b, r, 1);
    Units(Pow2(r - 1));
    Distribute(2, 1, 1, Pow2(r - 1));
    Pow2Next(r - 1);
  }

  lemma Pow2Next(n: nat)
    ensures Pow2(n + 1) == 2 * Pow2(n)
  {
  }
}
