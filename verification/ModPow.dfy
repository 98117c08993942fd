/** Modular exponentiation with a machine integer exponent, as the RSA public operation uses it. */
module ModPow {
  import opened JsNumber
  import opened Ring
  import opened Digits
  import opened SignedDigits
  import opened Division
  import opened Congruence
  import opened BigIntegers
  import opened Reducers

  /** v is the number that stands for x: the residue of x times the factor f. */
  ghost predicate Stands(v: int, x: int, f: int, m: int) {
    0 <= v < m && Congruent(v, Mul(x, f), m)
  }

  /** The factor may be cancelled: it is 1, or a power of two and the modulus is odd. */
  ghost predicate Cancels(f: int, m: int) {
    m > 0 && f >= 1 && (f == 1 || (m % 2 == 1 && exists k: nat :: f == Pow2(k)))
  }

  lemma CancelFactor(x: int, y: int, f: int, m: int)
    requires Cancels(f, m) && Congruent(Mul(x, f), Mul(y, f), m)
    ensures Congruent(x, y, m)
  {
    hide Mul, Congruent;
    if f == 1 {
      Units(x);
      Units(y);
    } else {
      var k: nat :| f == Pow2(k);
      CancelPow2(x, y, k, m);
    }
  }

  /** Multiplying representatives and taking the factor out once represents the product. */
  lemma ProductStands(u: int, v: int, w: int, x: int, y: int, f: int, m: int)
    requires Cancels(f, m) && Stands(v, x, f, m) && Stands(w, y, f, m)
    requires 0 <= u < m && Congruent(Mul(u, f), Mul(v, w), m)
    ensures Stands(u, Mul(x, y), f, m)
  {
    hide Mul, Congruent;
    CongruentMul(v, Mul(x, f), w, Mul(y, f), m);
    CongruentJoin(Mul(u, f), Mul(v, w), Mul(Mul(x, f), Mul(y, f)), m);
    Associate(Mul(x, f), y, f);
    Associate(x, f, y);
    Commute(f, y);
    Associate(x, y, f);
    assert Mul(Mul(x, f), Mul(y, f)) == Mul(Mul(Mul(x, y), f), f);
    CancelFactor(u, Mul(Mul(x, y), f), f, m);
  }

  lemma RevertStands(u: int, v: int, x: int, f: int, m: int)
    requires Cancels(f, m) && Stands(v, x, f, m) && 0 <= u < m && Congruent(Mul(u, f), v, m)
    ensures u == Mod(x, m)
  {
    hide Mul, Mod, Congruent;
    CongruentJoin(Mul(u, f), v, Mul(x, f), m);
    CancelFactor(u, x, f, m);
    ModUnique(u, x, m);
  }

  datatype Reducer = ByDivision(classic: Classic) | ByShifting(montgomery: Montgomery) {

    function Modulus(): BigInteger {
      match this
      case ByDivision(c) => c.m
      case ByShifting(g) => g.m
    }

    ghost function Factor(): int
      reads Modulus()
    {
      if ByDivision? || Modulus().t < 0 then 1 else P(Modulus().t)
    }

    ghost predicate Valid()
      reads Modulus(), if ByShifting? then {montgomery} else {}
    {
      match this
      case ByDivision(c) => c.Valid() && SoundFor(c.est, c.m.Value())
      case ByShifting(g) => g.Valid()
    }

    lemma FactorCancels()
      requires Valid()
      ensures Modulus().Value() > 0 && Cancels(Factor(), Modulus().Value())
    {
      hide Mul, S, P, Congruent, SoundFor;
      var m := Modulus();
      if ByShifting? {
        PIsPow2(m.t);
      }
    }

    ghost predicate CanConvert(x: int)
      requires Valid()
      reads Modulus(), if ByShifting? then {montgomery} else {}
    {
      ByShifting? ==> GuessesSound(montgomery.est, Mul(Magnitude(x), P(Modulus().t)), Modulus().Value())
    }

    method Convert(x: BigInteger) returns (a: BigInteger)
      requires Valid() && x.Valid() && CanConvert(x.Value())
      ensures a == x || fresh(a)
      ensures a.Valid() && a.s == 0 && Stands(a.Value(), x.Value(), Factor(), Modulus().Value())
    {
      hide Mul, Quo, Mod, P, S, Congruent, SoundFor, GuessesSound;
      match this {
        case ByDivision(c) =>
          SoundAt(c.est, c.m.Value(), Magnitude(x.Value()));
          a := c.Convert(x);
          CongruentMod(x.Value(), c.m.Value());
          Units(x.Value());
        case ByShifting(g) =>
          a := g.Convert(x);
      }
    }

    method Revert(b: BigInteger) returns (a: BigInteger)
      requires Valid() && b.Valid() && b.s == 0 && b.Value() < Modulus().Value()
      ensures a == b || fresh(a)
      ensures a.Valid() && a.s == 0 && 0 <= a.Value() < Modulus().Value()
      ensures Congruent(Mul(a.Value(), Factor()), b.Value(), Modulus().Value())
    {
      hide Mul, P, S, Congruent, SoundFor;
      SignOf(b.d, b.t, b.s);
      match this {
        case ByDivision(c) =>
          a := b;
          Units(b.Value());
          CongruentSame(b.Value(), c.m.Value());
        case ByShifting(g) =>
          a := g.Revert(b);
      }
    }

    /** r = r with the factor taken out, reduced. */
    method Reduce(r: BigInteger, ghost v: int, ghost w: int)
      requires Valid() && r != Modulus() && r.Valid() && r.Value() == Mul(v, w)
      requires 0 <= v < Modulus().Value() && 0 <= w < Modulus().Value()
      modifies r
      ensures r.Valid() && r.s == 0 && 0 <= r.Value() < Modulus().Value()
      ensures Congruent(Mul(r.Value(), Factor()), Mul(v, w), Modulus().Value())
    {
      hide Mul, Quo, Mod, P, S, Congruent, SoundFor, GuessesSound;
      var m := Modulus();
      ghost var M := m.Value();
      MulLe(0, v, w);
      Units(w);
      SignOf(r.d, r.t, r.s);
      match this {
        case ByDivision(c) =>
          SoundAt(c.est, M, Mul(v, w));
          c.Reduce(r);
          CongruentMod(Mul(v, w), M);
          Units(r.Value());
        case ByShifting(g) =>
          SignOf(m.d, m.t, m.s);
          ResidueProduct(v, w, M, P(m.t));
          g.Reduce(r);
      }
    }

    method SqrTo(b: BigInteger, r: BigInteger, ghost x: int)
      requires Valid() && r != Modulus() && r != b && b.Valid() && b.s == 0
      requires Stands(b.Value(), x, Factor(), Modulus().Value())
      modifies r
      ensures r.Valid() && r.s == 0 && Stands(r.Value(), Mul(x, x), Factor(), Modulus().Value())
    {
      hide Mul, P, S, Congruent, SoundFor;
      ghost var v := b.Value();
      b.SquareTo(r);
      Reduce(r, v, v);
      FactorCancels();
      ProductStands(r.Value(), v, v, x, x, Factor(), Modulus().Value());
    }

    method MulTo(b: BigInteger, a: BigInteger, r: BigInteger, ghost x: int, ghost y: int)
      requires Valid() && r != Modulus() && r != a && r != b
      requires b.Valid() && b.s == 0 && Stands(b.Value(), x, Factor(), Modulus().Value())
      requires a.Valid() && a.s == 0 && Stands(a.Value(), y, Factor(), Modulus().Value())
      modifies r
      ensures r.Valid() && r.s == 0 && Stands(r.Value(), Mul(x, y), Factor(), Modulus().Value())
    {
      hide Mul, P, S, Congruent, SoundFor;
      ghost var v, w := b.Value(), a.Value();
      b.MultiplyTo(a, r);
      Reduce(r, v, w);
      FactorCancels();
      ProductStands(r.Value(), v, w, x, y, Factor(), Modulus().Value());
    }
  }

  lemma ResidueProduct(v: int, w: int, m: int, p: int)
    requires 0 <= v < m && 0 <= w < m <= p
    ensures 0 <= Mul(v, w) < Mul(m, p)
  {
    hide Mul;
    MulLe(0, v, w);
    Units(w);
    MulLe(v, m, w);
    MulGap(w, p, m);
  }

  /** Reading the exponent one bit further. */
  lemma ExponentBit(x: int, f: int, c: nat)
    requires f >= 0 && Quo(f, Pow2(c + 1)) >= 0
    ensures var e, g := Quo(f, Pow2(c + 1)), Quo(f, Pow2(c));
      g >= 0 && Power(x, g) == if g % 2 == 1 then Mul(Mul(Power(x, e), Power(x, e)), x) else Mul(Power(x, e), Power(x, e))
  {
    hide Mul, Quo, Mod;
    var e, g := Quo(f, Pow2(c + 1)), Quo(f, Pow2(c));
    QuoNonNegative(f, Pow2(c));
    Pow2Next(c);
    QuoQuo(f, Pow2(c), 2);
    TwiceIs(Pow2(c));
    HalfOf(g);
    PowerAdd(x, e, e);
    if g % 2 == 1 {
      assert g == (e + e) + 1;
      PowerAdd(x, e + e, 1);
      Units(x);
    } else {
      assert g == e + e;
    }
  }

  lemma TwiceIs(p: int)
    ensures Mul(p, 2) == 2 * p
  {
  }

  lemma HalfOf(g: int)
    ensures Quo(g, 2) == g / 2
  {
  }

  /** One bit of the exponent: h is squared into d, and either multiplied back by a or swapped. */
  method ExpBit(z: Reducer, a: BigInteger, h: BigInteger, d: BigInteger, bit: bool, ghost x: int, ghost y: int)
    returns (next: BigInteger, spare: BigInteger)
    requires z.Valid() && h != d && h != a && d != a && h != z.Modulus() && d != z.Modulus()
    requires a.Valid() && a.s == 0 && Stands(a.Value(), x, z.Factor(), z.Modulus().Value())
    requires h.Valid() && h.s == 0 && Stands(h.Value(), y, z.Factor(), z.Modulus().Value())
    modifies h, d
    ensures (next == h && spare == d) || (next == d && spare == h)
    ensures z.Valid() && z.Factor() == old(z.Factor()) && z.Modulus().Value() == old(z.Modulus().Value())
    ensures next.Valid() && next.s == 0
    ensures Stands(next.Value(), if bit then Mul(Mul(y, y), x) else Mul(y, y), z.Factor(), z.Modulus().Value())
  {
    hide Mul, Quo, Mod, P, S, Congruent, SoundFor, GuessesSound, Power, Stands, Cancels;
    next, spare := h, d;
    z.SqrTo(next, spare, y);
    if bit {
      z.MulTo(spare, a, next, Mul(y, y), x);
    } else {
      var g := next;
      next := spare;
      spare := g;
    }
  }

  /** The loop over the bits of f below the top one: h starts as the base and ends as the power. */
  method ExpBits(z: Reducer, a: BigInteger, h0: BigInteger, d0: BigInteger, f: int, ghost x: int)
    returns (h: BigInteger)
    requires z.Valid() && 1 <= f <= 0xffff_ffff
    requires h0 != d0 && h0 != a && d0 != a && h0 != z.Modulus() && d0 != z.Modulus()
    requires a.Valid() && a.s == 0 && Stands(a.Value(), x, z.Factor(), z.Modulus().Value())
    requires h0.Valid() && h0.s == 0 && h0.Value() == a.Value()
    modifies h0, d0
    ensures h == h0 || h == d0
    ensures z.Valid() && z.Factor() == old(z.Factor()) && z.Modulus().Value() == old(z.Modulus().Value())
    ensures h.Valid() && h.s == 0 && Stands(h.Value(), Power(x, f), z.Factor(), z.Modulus().Value())
  {
    hide Mul, Quo, Mod, P, S, Congruent, SoundFor, GuessesSound, Power, Stands, Cancels;
    ghost var k, M := z.Factor(), z.Modulus().Value();
    var d := d0;
    h := h0;
    var bits := NBits(f);
    var c := bits - 1;
    FirstBit(x, f, c);
    while c > 0
      invariant 0 <= c <= 31
      invariant z.Valid() && z.Factor() == k && M == z.Modulus().Value()
      invariant a.Valid() && a.s == 0 && Stands(a.Value(), x, k, M)
      invariant (h == h0 && d == d0) || (h == d0 && d == h0)
      invariant h.Valid() && h.s == 0 && Quo(f, Pow2(c)) >= 0
      invariant Stands(h.Value(), Power(x, Quo(f, Pow2(c))), k, M)
    {
      c := c - 1;
      ghost var y := Power(x, Quo(f, Pow2(c + 1)));
      ExponentBit(x, f, c);
      h, d := ExpBit(z, a, h, d, HasBit(f, c), x, y);
    }
    QuoOne(f);
  }

  lemma FirstBit(x: int, f: int, c: nat)
    requires Pow2(c) <= f < Pow2(c + 1)
    ensures Quo(f, Pow2(c)) == 1 && Power(x, 1) == x
  {
    hide Mul, Quo, Mod;
    Units(Pow2(c));
    Units(x);
    Pow2Next(c);
    DivUnique(f, Pow2(c), 1, f - Pow2(c));
  }

  /** this^f modulo the modulus of z, by squaring and multiplying from the top bit of f down; two
      buffers take turns.  Exponents outside 1 .. 2^32 - 1 give the number one. */
  method Exp(b: BigInteger, f: int, z: Reducer) returns (r: BigInteger)
    requires z.Valid() && b.Valid()
    requires 1 <= f <= 0xffff_ffff ==> z.CanConvert(b.Value())
    ensures r.Valid()
    ensures 1 <= f <= 0xffff_ffff ==> r.Value() == Mod(Power(b.Value(), f), z.Modulus().Value())
    ensures !(1 <= f <= 0xffff_ffff) ==> r.Value() == 1
  {
    hide Mul, Quo, Mod, P, S, Congruent, SoundFor, GuessesSound, Power, Stands, Cancels;
    if f > 0xffff_ffff || f < 1 {
      r := Nbv(1);
      return;
    }
    ghost var x := b.Value();
    var h := new BigInteger.Nbi();
    var d := new BigInteger.Nbi();
    var a := z.Convert(b);
    ghost var m, k := z.Modulus(), z.Factor();
    ghost var M := m.Value();
    a.CopyTo(h);
    h := ExpBits(z, a, h, d, f, x);
    z.FactorCancels();
    StandsBound(h.Value(), Power(x, f), k, M);
    ghost var v := h.Value();
    r := z.Revert(h);
    RevertStands(r.Value(), v, Power(x, f), k, M);
  }

  lemma StandsBound(v: int, x: int, f: int, m: int)
    requires Stands(v, x, f, m)
    ensures 0 <= v < m
  {
  }

  lemma QuoOne(f: int)
    ensures Quo(f, Pow2(0)) == f
  {
  }

  /** this^e mod m: by division for small exponents and even moduli, else by Montgomery's method. */
  method ModPowInt(b: BigInteger, e: int, m: BigInteger, est: Estimator) returns (r: BigInteger)
    requires b.Valid() && m.Valid() && m.Value() > 0
    requires e < 256 || m.Value() % 2 == 0 ==> SoundFor(est, m.Value())
    requires 256 <= e && m.Value() % 2 == 1 ==> m.t >= 0 && GuessesSound(est, Mul(Magnitude(b.Value()), P(m.t)), m.Value())
    ensures r.Valid()
    ensures 1 <= e <= 0xffff_ffff ==> r.Value() == Mod(Power(b.Value(), e), m.Value())
    ensures !(1 <= e <= 0xffff_ffff) ==> r.Value() == 1
  {
    hide Mul, Quo, Mod, P, S, Congruent, SoundFor, GuessesSound, Power;
    var even := m.IsEven();
    if e < 256 || even {
      var c := new Classic(m, est);
      r := Exp(b, e, ByDivision(c));
    } else {
      var g := new Montgomery(m, est);
      r := Exp(b, e, ByShifting(g));
    }
  }
}
