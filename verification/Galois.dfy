/** Arithmetic in GF(2^8), the field of the cipher: addition is exclusive or, and
    multiplication is modulo x^8 + x^4 + x^3 + x + 1. */
module Galois {

  /** The sum of two field elements, named so that proofs can work from its laws alone. */
  function Add(a: bv8, b: bv8): bv8 {
    a ^ b
  }

  /** The product with x. */
  function XTime(a: bv8): bv8 {
    if a & 0x80 != 0 then (a << 1) ^ 0x1b else a << 1
  }

  /** The product of a with the polynomial of the low n bits of b. */
  function MulBits(a: bv8, b: bv8, n: nat): bv8
    decreases n
  {
    if n == 0 then 0
    else Add(if b & 1 != 0 then a else 0, MulBits(XTime(a), b >> 1, n - 1))
  }

  /** The field product. */
  function Mul(a: bv8, b: bv8): bv8 {
    MulBits(a, b, 8)
  }

  lemma AddLaws(a: bv8, b: bv8, c: bv8)
    ensures Add(a, b) == Add(b, a)
    ensures Add(Add(a, b), c) == Add(a, Add(b, c))
    ensures Add(a, 0) == a && Add(0, a) == a && Add(a, a) == 0
  {
  }

  /** Adding twice changes nothing. */
  lemma AddCancels(a: bv8, k: bv8)
    ensures Add(Add(a, k), k) == a && Add(k, Add(k, a)) == a && Add(k, Add(a, k)) == a
  {
  }

  lemma AddMixed(a: bv8, b: bv8, c: bv8, d: bv8)
    ensures Add(Add(a, b), Add(c, d)) == Add(Add(a, c), Add(b, d))
  {
    hide Add;
    AddLaws(a, b, Add(c, d));
    AddLaws(b, c, d);
    AddLaws(c, b, d);
    AddLaws(a, c, Add(b, d));
  }

  lemma ShiftLinear(a: bv8, b: bv8)
    ensures (a ^ b) << 1 == (a << 1) ^ (b << 1)
    ensures (a ^ b) & 0x80 == (a & 0x80) ^ (b & 0x80)
  {
  }

  lemma TopBit(a: bv8)
    ensures a & 0x80 == 0 || a & 0x80 == 0x80
  {
  }

  lemma Reductions(x: bv8, y: bv8)
    ensures (x ^ 0x1b) ^ (y ^ 0x1b) == x ^ y
    ensures (x ^ y) ^ 0x1b == (x ^ 0x1b) ^ y && (x ^ y) ^ 0x1b == x ^ (y ^ 0x1b)
  {
  }

  lemma XTimeLinear(a: bv8, b: bv8)
    ensures XTime(Add(a, b)) == Add(XTime(a), XTime(b))
  {
    ShiftLinear(a, b);
    TopBit(a);
    TopBit(b);
    Reductions(a << 1, b << 1);
  }

  lemma {:induction false} MulBitsLinear(a: bv8, c: bv8, b: bv8, n: nat)
    ensures MulBits(Add(a, c), b, n) == Add(MulBits(a, b, n), MulBits(c, b, n))
    decreases n
  {
    if n == 0 {
      AddLaws(0, 0, 0);
    } else {
      MulBitsStep(a, c, b, n);
    }
  }

  lemma {:induction false} MulBitsStep(a: bv8, c: bv8, b: bv8, n: nat)
    requires n > 0
    ensures MulBits(Add(a, c), b, n) == Add(MulBits(a, b, n), MulBits(c, b, n))
    decreases n, 0
  {
    hide Add, XTime;
    XTimeLinear(a, c);
    MulBitsLinear(XTime(a), XTime(c), b >> 1, n - 1);
    var x := MulBits(XTime(a), b >> 1, n - 1);
    var y := MulBits(XTime(c), b >> 1, n - 1);
    AddMixed(a, c, x, y);
    AddMixed(0, 0, x, y);
    AddLaws(0, 0, 0);
  }

  /** The product distributes over the sum. */
  lemma MulLinear(a: bv8, c: bv8, b: bv8)
    ensures Mul(Add(a, c), b) == Add(Mul(a, b), Mul(c, b))
  {
    MulBitsLinear(a, c, b, 8);
  }

  lemma {:induction false} MulBitsZero(a: bv8, n: nat)
    ensures MulBits(a, 0, n) == 0
    decreases n
  {
    if n > 0 {
      MulBitsZero(XTime(a), n - 1);
    }
  }

  lemma Unfold(a: bv8, b: bv8, n: nat)
    ensures n == 0 ==> MulBits(a, b, n) == 0
    ensures n == 8 ==> MulBits(a, b, n) == Mul(a, b)
    ensures n > 0 ==>
      MulBits(a, b, n) == Add(if b & 1 != 0 then a else 0, MulBits(XTime(a), b >> 1, n - 1))
  {
  }

  lemma BitsOfSum(b: bv8, c: bv8)
    ensures Add(b, c) >> 1 == Add(b >> 1, c >> 1)
    ensures (Add(b, c) & 1 != 0) == ((b & 1 != 0) != (c & 1 != 0))
  {
  }

  lemma {:induction false} MulBitsRight(a: bv8, b: bv8, c: bv8, n: nat)
    ensures MulBits(a, Add(b, c), n) == Add(MulBits(a, b, n), MulBits(a, c, n))
    decreases n
  {
    hide Add, XTime;
    AddLaws(0, 0, 0);
    if n > 0 {
      BitsOfSum(b, c);
      MulBitsRight(XTime(a), b >> 1, c >> 1, n - 1);
      ghost var x := MulBits(XTime(a), b >> 1, n - 1);
      ghost var y := MulBits(XTime(a), c >> 1, n - 1);
      ghost var p := if b & 1 != 0 then a else 0;
      ghost var q := if c & 1 != 0 then a else 0;
      AddMixed(p, q, x, y);
      AddLaws(a, 0, 0);
    }
  }

  lemma {:induction false} MulBitsXTime(a: bv8, b: bv8, n: nat)
    ensures MulBits(XTime(a), b, n) == XTime(MulBits(a, b, n))
    decreases n
  {
    hide Add, XTime;
    XTimeZero();
    if n > 0 {
      MulBitsXTime(XTime(a), b >> 1, n - 1);
      XTimeLinear(if b & 1 != 0 then a else 0, MulBits(XTime(a), b >> 1, n - 1));
    }
  }

  lemma XTimeZero()
    ensures XTime(0) == 0
  {
  }

  /** The product of a with b0 + b1 x + b2 x^2 + b3 x^3 + b4 x^4. */
  function Combination(a: bv8, b: bv8): bv8 {
    Add(if b & 1 != 0 then a else 0,
    Add(if b & 2 != 0 then XTime(a) else 0,
    Add(if b & 4 != 0 then XTime(XTime(a)) else 0,
    Add(if b & 8 != 0 then XTime(XTime(XTime(a))) else 0,
        if b & 16 != 0 then XTime(XTime(XTime(XTime(a)))) else 0))))
  }

  lemma MulShort(a: bv8, b: bv8)
    requires b < 0x20
    ensures Mul(a, b) == Combination(a, b)
  {
    ghost var x := XTime(a);
    ghost var y := XTime(x);
    ghost var z := XTime(y);
    ghost var w := XTime(z);
    hide Add, XTime, MulBits, Mul;
    ShortBits(b);
    MulBitsZero(XTime(w), 3);
    AddLaws(if b & 16 != 0 then w else 0, 0, 0);
    Unfold(w, b >> 1 >> 1 >> 1 >> 1, 4);
    Unfold(z, b >> 1 >> 1 >> 1, 5);
    Unfold(y, b >> 1 >> 1, 6);
    Unfold(x, b >> 1, 7);
    Unfold(a, b, 8);
  }

  lemma ShortBits(b: bv8)
    requires b < 0x20
    ensures b >> 1 >> 1 >> 1 >> 1 >> 1 == 0
    ensures (b & 2 != 0) == ((b >> 1) & 1 != 0)
    ensures (b & 4 != 0) == ((b >> 1 >> 1) & 1 != 0)
    ensures (b & 8 != 0) == ((b >> 1 >> 1 >> 1) & 1 != 0)
    ensures (b & 16 != 0) == ((b >> 1 >> 1 >> 1 >> 1) & 1 != 0)
  {
  }

  lemma ShiftedBits(b: bv8)
    requires b < 0x10
    ensures b << 1 < 0x20 && (b << 1) & 1 == 0 && b & 16 == 0
    ensures (b & 1 != 0) == ((b << 1) & 2 != 0)
    ensures (b & 2 != 0) == ((b << 1) & 4 != 0)
    ensures (b & 4 != 0) == ((b << 1) & 8 != 0)
    ensures (b & 8 != 0) == ((b << 1) & 16 != 0)
  {
  }

  /** The product distributes over the sum on the right too. */
  lemma MulRight(a: bv8, b: bv8, c: bv8)
    ensures Mul(a, Add(b, c)) == Add(Mul(a, b), Mul(a, c))
  {
    MulBitsRight(a, b, c, 8);
  }

  lemma MulUnits(a: bv8)
    ensures Mul(a, 0) == 0 && Mul(a, 1) == a && Mul(a, 2) == XTime(a) && Mul(a, 3) == Add(a, XTime(a))
  {
    hide Add, XTime;
    MulBitsZero(a, 8);
    MulShort(a, 1);
    MulShort(a, 2);
    AddLaws(0, 0, 0);
    AddLaws(a, 0, 0);
    AddLaws(XTime(a), 0, 0);
    OneAndTwo();
    MulRight(a, 1, 2);
  }

  lemma OneAndTwo()
    ensures Add(1, 2) == 3
  {
  }

  /** Multiplying by x and then by a short polynomial, in either order. */
  lemma MulDouble(a: bv8, b: bv8)
    requires b < 0x10
    ensures Mul(Mul(a, 2), b) == Mul(a, b << 1) == Mul(Mul(a, b), 2)
  {
    MulUnits(a);
    MulUnits(Mul(a, b));
    MulBitsXTime(a, b, 8);
    ShiftedBits(b);
    MulShort(XTime(a), b);
    MulShort(a, b << 1);
    hide Add, XTime, Mul;
    AddLaws(if b & 8 != 0 then XTime(XTime(XTime(XTime(a)))) else 0, 0, 0);
    ghost var c := b << 1;
    AddLaws(Add(if c & 2 != 0 then XTime(a) else 0,
    Add(if c & 4 != 0 then XTime(XTime(a)) else 0,
    Add(if c & 8 != 0 then XTime(XTime(XTime(a))) else 0,
        if c & 16 != 0 then XTime(XTime(XTime(XTime(a)))) else 0))), 0, 0);
  }

  lemma MulTriple(a: bv8, b: bv8)
    requires b < 0x10
    ensures Mul(Mul(a, 3), b) == Mul(a, Add(b << 1, b)) == Mul(Mul(a, b), 3)
  {
    hide Add, XTime, Mul;
    MulUnits(a);
    MulUnits(Mul(a, b));
    MulDouble(a, b);
    MulLinear(a, XTime(a), b);
    MulRight(a, b << 1, b);
    AddLaws(Mul(a, b << 1), Mul(a, b), 0);
  }

  /** Multiplication as the program does it: shift and add, reducing a to eight bits. */
  method Multiply(a: bv8, b: bv8) returns (p: bv8)
    ensures p == Mul(a, b)
  {
    hide Add, MulBits;
    p := 0;
    var x, y := a, b;
    Unfold(a, b, 8);
    AddLaws(Mul(a, b), 0, 0);
    for counter := 0 to 8
      invariant Add(p, MulBits(x, y, 8 - counter)) == Mul(a, b)
    {
      Unfold(x, y, 8 - counter);
      ghost var rest := MulBits(XTime(x), y >> 1, 7 - counter);
      AddLaws(p, if y & 1 != 0 then x else 0, rest);
      AddLaws(rest, 0, 0);
      if y & 1 != 0 {
        p := Add(p, x);
      }
      var high := x & 0x80;
      x := x << 1;
      if high != 0 {
        x := x ^ 0x1b;
      }
      y := y >> 1;
    }
    Unfold(x, y, 0);
    AddLaws(p, 0, 0);
  }
}
