/** Products and quotients under a name.  The big-integer proofs hide these definitions and
    reason only with the laws below, one shape of product at a time. */
module Ring {

  function Mul(x: int, y: int): int {
    x * y
  }

  function Quo(x: int, y: int): int
    requires y > 0
  {
    x / y
  }

  function Mod(x: int, y: int): int
    requires y > 0
  {
    x % y
  }

  lemma Commute(a: int, b: int)
    ensures Mul(a, b) == Mul(b, a)
  {
  }

  lemma Associate(a: int, b: int, c: int)
    ensures Mul(Mul(a, b), c) == Mul(a, Mul(b, c))
    ensures Mul(a, Mul(b, c)) == Mul(b, Mul(a, c))
  {
  }

  /** Distribution over the sum y. */
  lemma Distribute(y: int, a: int, b: int, c: int)
    requires y == a + b
    ensures Mul(y, c) == Mul(a, c) + Mul(b, c)
    ensures Mul(c, y) == Mul(c, a) + Mul(c, b)
  {
  }

  lemma Units(x: int)
    ensures Mul(0, x) == 0 && Mul(x, 0) == 0
    ensures Mul(1, x) == x && Mul(x, 1) == x
    ensures Mul(-1, x) == -x && Mul(x, -1) == -x
  {
  }

  lemma Negate(x: int, y: int)
    ensures Mul(-x, y) == -Mul(x, y) && Mul(x, -y) == -Mul(x, y)
  {
  }

  lemma MulLe(a: int, b: int, c: int)
    requires a <= b && c >= 0
    ensures Mul(a, c) <= Mul(b, c) && Mul(c, a) <= Mul(c, b)
  {
  }

  lemma MulGap(a: int, b: int, c: int)
    requires a < b && c >= 0
    ensures Mul(a, c) + c <= Mul(b, c) && Mul(c, a) + c <= Mul(c, b)
  {
    hide Mul;
    MulLe(a + 1, b, c);
    Distribute(a + 1, a, 1, c);
    Units(c);
  }

  lemma MulPositive(a: int, b: int)
    requires a > 0 && b > 0
    ensures Mul(a, b) > 0
  {
    hide Mul;
    MulGap(0, a, b);
    Units(b);
  }

  lemma DivMod(x: int, y: int)
    requires y > 0
    ensures x == Mul(Quo(x, y), y) + Mod(x, y) && 0 <= Mod(x, y) < y
  {
  }

  /** Quotient and remainder of Euclidean division are the only ones there are. */
  lemma DivUnique(x: int, y: int, q: int, r: int)
    requires y > 0 && 0 <= r < y && x == Mul(q, y) + r
    ensures Quo(x, y) == q && Mod(x, y) == r
  {
    hide Mul, Quo, Mod;
    DivMod(x, y);
    var p := Quo(x, y);
    if q > p {
      MulGap(p, q, y);
    } else if q < p {
      MulGap(q, p, y);
    }
  }

  lemma DivMultiple(k: int, y: int)
    requires y > 0
    ensures Mod(Mul(k, y), y) == 0
    ensures Quo(Mul(k, y), y) == k
  {
    hide Mul, Quo, Mod;
    DivUnique(Mul(k, y), y, k, 0);
  }

  lemma QuoQuo(v: int, a: int, b: int)
    requires a > 0 && b > 0
    ensures Mul(a, b) > 0 && Quo(Quo(v, a), b) == Quo(v, Mul(a, b))
  {
    hide Mul, Quo, Mod;
    MulPositive(a, b);
    DivMod(v, a);
    var p := Quo(v, a);
    DivMod(p, b);
    var q, r := Quo(p, b), Mod(p, b);
    Distribute(p, Mul(q, b), r, a);
    Associate(q, b, a);
    Commute(a, b);
    Units(a);
    MulLe(0, r, a);
    MulGap(r, b, a);
    DivUnique(v, Mul(a, b), q, Mul(r, a) + Mod(v, a));
  }
}
