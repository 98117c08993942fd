/** Signed multi-digit integers: the in-place methods of the big-integer library. */
module BigIntegers {
  import opened JsNumber
  import opened Ring
  import opened Digits
  import opened SignedDigits
  import opened Division
  import opened Congruence

  method Nbv(i: int) returns (r: BigInteger)
    requires -DV <= i < DV
    ensures fresh(r) && r.Valid() && r.Value() == i
  {
    r := new BigInteger.Nbi();
    r.FromInt(i);
  }

  class BigInteger {
    var d: Store
    var t: int
    var s: int

    /** Digits are in range and present; nothing above them is known. */
    ghost predicate Digits()
      reads this
    {
      t >= 0 && InRange(d, 0, t) && (s == 0 || s == -1)
    }

    /** The canonical form that clamp establishes. */
    ghost predicate Valid()
      reads this
    {
      Digits() && Clamped(d, t, s)
    }

    ghost function Value(): int
      requires Digits()
      reads this
    {
      Num(d, t, s)
    }

    /** A new object: no digit, and neither t nor s has a value yet. */
    constructor Nbi()
      ensures d == map[]
    {
      d := map[];
    }

    method CopyTo(b: BigInteger)
      requires Digits()
      modifies b
      ensures b.Digits() && b.Value() == old(Value())
      ensures b.t == old(t) && b.s == old(s)
      ensures old(Valid()) ==> b.Valid()
    {
      hide Mul, Quo, P, S;
      var a := t - 1;
      while a >= 0
        invariant -1 <= a < t
        invariant t == old(t) && s == old(s)
        invariant forall i :: 0 <= i < t ==> i in d && d[i] == old(d)[i]
        invariant forall i :: a < i < t ==> i in b.d && b.d[i] == old(d)[i]
      {
        b.d := b.d[a := d[a]];
        a := a - 1;
      }
      b.t := t;
      b.s := s;
      SFrame(old(d), 0, b.d, 0, b.t);
    }

    /** Set from an integer that one digit and the sign can hold. */
    method FromInt(a: int)
      requires -DV <= a < DV
      modifies this
      ensures Valid() && Value() == a
    {
      t := 1;
      s := if a < 0 then -1 else 0;
      if a > 0 {
        d := d[0 := a];
      } else if a < -1 {
        d := d[0 := a + DV];
      } else {
        t := 0;
      }
      if t == 0 {
        NumEmpty(d, s);
      } else {
        SOne(d, 0);
        assert P(1) == DV;
        Units(DV);
      }
    }

    method Clamp()
      requires Digits()
      modifies this`t
      ensures Valid() && Value() == old(Value()) && t <= old(t)
      ensures forall i :: t <= i < old(t) ==> d[i] == SignDigit(s)
    {
      hide Mul, P, S;
      var a := SignDigit(s);
      while t > 0 && d[t - 1] == a
        invariant 0 <= t <= old(t)
        invariant Digits() && Value() == old(Value())
        invariant forall i :: t <= i < old(t) ==> d[i] == SignDigit(s)
      {
        DropSignDigit(d, t, s);
        t := t - 1;
      }
    }

    method CompareTo(b: BigInteger) returns (r: int)
      requires Digits() && b.Digits() && ((Valid() && b.Valid()) || t == b.t)
      ensures r > 0 <==> Value() > b.Value()
      ensures r == 0 <==> Value() == b.Value()
    {
      hide Mul, P, S;
      SignOf(d, t, s);
      SignOf(b.d, b.t, b.s);
      var a := s - b.s;
      if a != 0 { return a; }
      var c := t;
      a := c - b.t;
      if a != 0 {
        LongerIsFarther(b);
        return if s < 0 then -a else a;
      }
      c := c - 1;
      while c >= 0
        invariant -1 <= c < t
        invariant forall i :: c < i < t ==> d[i] == b.d[i]
      {
        a := d[c] - b.d[c];
        if a != 0 {
          if a < 0 { CompareAt(d, b.d, t, c); } else { CompareAt(b.d, d, t, c); }
          return a;
        }
        c := c - 1;
      }
      SFrame(d, 0, b.d, 0, t);
      return 0;
    }

    lemma LongerIsFarther(b: BigInteger)
      requires Valid() && b.Valid() && s == b.s && t != b.t
      ensures s == 0 ==> (t > b.t <==> Value() > b.Value()) && Value() != b.Value()
      ensures s == -1 ==> (t > b.t <==> Value() < b.Value()) && Value() != b.Value()
    {
      SignOf(d, t, s);
      SignOf(b.d, b.t, b.s);
      if t > b.t {
        ClampedMagnitude(d, t, s);
        PMonotone(b.t, t - 1);
      } else {
        ClampedMagnitude(b.d, b.t, b.s);
        PMonotone(t, b.t - 1);
      }
    }

    /** Shift up by n whole digits.  Division by a longer number passes n == -t: the digits then go
        to negative indices, and the number left is empty. */
    method DlShiftTo(n: int, r: BigInteger)
      requires Digits() && (n >= 0 || (n == -t && r != this))
      modifies r
      ensures n >= 0 ==> r.Digits() && r.Value() == Mul(old(Value()), P(n))
      ensures r.t == old(t) + n && r.s == old(s)
      ensures old(Valid()) && old(Value()) != 0 ==> r.Valid()
    {
      hide Mul, Quo, P, S, SameFrom, MovedUp;
      ghost var e := d;
      NumEmpty(d, s);
      MoveUp(n, r);
      ghost var f := r.d;
      r.ZeroBelow(n);
      r.t := t + n;
      r.s := s;
      ShiftedDigits(r.d, f, e, old(t), old(s), n);
    }

    /** The digits, moved n places up into r, from the top down. */
    method MoveUp(n: int, r: BigInteger)
      requires Digits() && (n >= 0 || r != this)
      modifies r`d
      ensures MovedUp(r.d, old(d), t, n)
    {
      hide Mul, Quo, P, S, Num, MovedFrom, KeptTo, InRange;
      ghost var D := d;
      KeptAll(d, t);
      NothingMoved(r.d, D, t, n);
      var c := t - 1;
      while c >= 0
        invariant -1 <= c < t
        invariant KeptTo(d, D, c) && MovedFrom(r.d, D, c, t, n)
      {
        KeptAt(d, D, c);
        if n >= 0 {
          KeepStep(d, D, c, n, d[c]);
        }
        MoveStep(r.d, D, c, t, n);
        r.d := r.d[c + n := d[c]];
        c := c - 1;
      }
    }

    /** Drop the n lowest digits. */
    method DrShiftTo(n: nat, r: BigInteger)
      requires Digits()
      modifies r
      ensures r.Digits() && r.Value() == Quo(old(Value()), P(n))
      ensures old(Valid()) ==> r.Valid()
    {
      hide Mul, Quo, P, S, Num, MovedDown, KeptFrom, Clamped, InRange;
      ghost var D := d;
      MoveDownStart(r.d, D, t, n);
      var c := n;
      while c < t
        invariant n <= c && (c == n || c <= t)
        invariant t == old(t) && s == old(s)
        invariant KeptFrom(d, D, c, t) && MovedDown(r.d, D, c, n)
      {
        MoveDownStep(r.d, d, D, c, t, n);
        r.d := r.d[c - n := d[c]];
        c := c + 1;
      }
      r.t := if t - n > 0 then t - n else 0;
      r.s := s;
      MovedDownDigits(r.d, D, old(t), old(s), n);
    }

    /** r = this - a; r may be this, a, or both. */
    method SubTo(a: BigInteger, r: BigInteger)
      requires Digits() && a.Digits()
      modifies r
      ensures r.Valid() && r.Value() == old(Value()) - old(a.Value())
      ensures old(a.t == 0 && a.s == 0 && s == 0 && t > 0) && r == this != a ==> d == old(d)
    {
      hide Mul, Quo, P, S;
      ghost var D, E, n, m := d, a.d, t, a.t;
      ghost var x, y := Value(), a.Value();
      var f, c := SubCommon(a, r);
      if a.t < t {
        Distribute(c, c - a.s, a.s, P(f));
        c := c - a.s;
        assert S(r.d, 0, f) + Mul(c, P(f)) == S(D, 0, f) - y;
        f, c := SubRest(r, f, c, D, y);
        Distribute(c + s, c, s, P(f));
        c := c + s;
        assert S(r.d, 0, f) + Mul(c, P(f)) == x - y;
      } else {
        Distribute(c + s, c, s, P(f));
        c := c + s;
        assert S(r.d, 0, f) + Mul(c, P(f)) == x - S(E, 0, f);
        f, c := SubBorrow(a, r, f, c, E, x);
        Distribute(c, c - a.s, a.s, P(f));
        c := c - a.s;
        assert S(r.d, 0, f) + Mul(c, P(f)) == x - y;
      }
      r.SubFinish(f, c);
    }

    /** The digits that both operands have. */
    method SubCommon(a: BigInteger, r: BigInteger) returns (f: nat, c: int)
      requires Digits() && a.Digits()
      modifies r`d
      ensures f == if a.t < t then a.t else t
      ensures f == 0 ==> r.d == old(r.d) && c == 0
      ensures -1 <= c <= 0 && InRange(r.d, 0, f)
      ensures S(r.d, 0, f) + Mul(c, P(f)) == S(old(d), 0, f) - S(old(a.d), 0, f)
      ensures forall i :: f <= i && i in old(d) ==> i in d && d[i] == old(d)[i]
      ensures forall i :: f <= i && i in old(a.d) ==> i in a.d && a.d[i] == old(a.d)[i]
    {
      hide Mul, P;
      POne();
      Units(0);
      Units(P(0));
      f, c := 0, 0;
      var k := if a.t < t then a.t else t;
      while f < k
        invariant 0 <= f <= k && -1 <= c <= 0
        invariant f == 0 ==> r.d == old(r.d) && c == 0
        invariant forall i :: f <= i && i in old(d) ==> i in d && d[i] == old(d)[i]
        invariant forall i :: f <= i && i in old(a.d) ==> i in a.d && a.d[i] == old(a.d)[i]
        invariant InRange(r.d, 0, f)
        invariant S(r.d, 0, f) + Mul(c, P(f)) == S(old(d), 0, f) - S(old(a.d), 0, f)
      {
        ghost var c' := c;
        Units(P(f));
        c := c + (d[f] - a.d[f]);
        SubDigits(r.d, f, c', d[f], a.d[f], c);
        r.d := r.d[f := Mask(c)];
        c := Carry(c);
        f := f + 1;
      }
    }

    /** The digits that only the minuend has; v is all that is being subtracted. */
    method SubRest(r: BigInteger, f0: nat, c0: int, ghost D: Store, ghost v: int) returns (f: nat, c: int)
      requires f0 <= t && -1 <= c0 <= 1 && InRange(D, 0, t) && InRange(r.d, 0, f0)
      requires forall i :: f0 <= i < t ==> i in d && d[i] == D[i]
      requires S(r.d, 0, f0) + Mul(c0, P(f0)) == S(D, 0, f0) - v
      modifies r`d
      ensures f == t && -1 <= c <= 1 && InRange(r.d, 0, f)
      ensures c0 == 0 && r == this ==> d == old(d) && c == 0
      ensures S(r.d, 0, f) + Mul(c, P(f)) == S(D, 0, f) - v
    {
      hide Mul, P;
      f, c := f0, c0;
      while f < t
        invariant f0 <= f <= t && -1 <= c <= 1
        invariant c0 == 0 && r == this ==> d == old(d) && c == 0
        invariant forall i :: f <= i < t ==> i in d && d[i] == D[i]
        invariant InRange(r.d, 0, f)
        invariant S(r.d, 0, f) + Mul(c, P(f)) == S(D, 0, f) - v
      {
        ghost var c' := c;
        Units(P(f));
        c := c + d[f];
        SubDigits(r.d, f, c', d[f], 0, c);
        r.d := r.d[f := Mask(c)];
        c := Carry(c);
        f := f + 1;
      }
    }

    /** The digits that only the subtrahend a has; v is what it is subtracted from. */
    method SubBorrow(a: BigInteger, r: BigInteger, f0: nat, c0: int, ghost E: Store, ghost v: int)
        returns (f: nat, c: int)
      requires f0 <= a.t && -2 <= c0 <= 0 && InRange(E, 0, a.t) && InRange(r.d, 0, f0)
      requires forall i :: f0 <= i < a.t ==> i in a.d && a.d[i] == E[i]
      requires S(r.d, 0, f0) + Mul(c0, P(f0)) == v - S(E, 0, f0)
      modifies r`d
      ensures f == a.t && -2 <= c <= 0 && InRange(r.d, 0, f)
      ensures S(r.d, 0, f) + Mul(c, P(f)) == v - S(E, 0, f)
    {
      hide Mul, P;
      f, c := f0, c0;
      while f < a.t
        invariant f0 <= f <= a.t && -2 <= c <= 0
        invariant forall i :: f <= i < a.t ==> i in a.d && a.d[i] == E[i]
        invariant InRange(r.d, 0, f)
        invariant S(r.d, 0, f) + Mul(c, P(f)) == v - S(E, 0, f)
      {
        ghost var c' := c;
        Units(P(f));
        c := c - a.d[f];
        SubDigits(r.d, f, c', 0, a.d[f], c);
        r.d := r.d[f := Mask(c)];
        c := Carry(c);
        f := f + 1;
      }
    }

    /** The last carry becomes the sign and at most one more digit. */
    method SubFinish(f0: nat, c: int)
      requires InRange(d, 0, f0) && -2 <= c <= 1
      modifies this
      ensures Valid() && Value() == old(S(d, 0, f0)) + Mul(c, P(f0))
      ensures c == 0 ==> d == old(d)
    {
      hide Mul, P, S;
      FinishValue(d, f0, c);
      var f := f0;
      s := if c < 0 then -1 else 0;
      if c < -1 {
        d := d[f := DV + c];
        f := f + 1;
      } else if c > 0 {
        d := d[f := c];
        f := f + 1;
      }
      t := f;
      Clamp();
    }

    method Negate() returns (r: BigInteger)
      requires Digits()
      ensures fresh(r) && r.Valid() && r.Value() == -Value()
    {
      hide Mul, P, S;
      r := new BigInteger.Nbi();
      var zero := Nbv(0);
      zero.SubTo(this, r);
    }

    /** The closing step of signed operations: 0 - this in place. */
    method NegateWhen(c: bool)
      requires Valid()
      modifies this
      ensures Valid() && Value() == if c then -old(Value()) else old(Value())
    {
      if c {
        var zero := Nbv(0);
        zero.SubTo(this, this);
      }
    }

    method Abs() returns (r: BigInteger)
      requires Digits()
      ensures r.Digits() && r.s == 0 && (Valid() ==> r.Valid())
      ensures if s < 0 then fresh(r) && r.Value() == -Value() else r == this
      ensures r.Value() == if Value() < 0 then -Value() else Value()
    {
      hide Mul, P, S;
      SignOf(d, t, s);
      if s < 0 {
        r := Negate();
        SignOf(r.d, r.t, r.s);
      } else {
        r := this;
      }
    }

    /** Multiply-accumulate, the kernel for 26-bit digits: w[j..j+n) += x * this[i..i+n) + c0.
        The multiplier may have 27 bits, the double that squaring passes; every accumulator is
        an exact double. */
    method Am(i: nat, x: int, w: BigInteger, j: nat, c0: int, n: nat) returns (c: int)
      requires w != this
      requires InRange(d, i, n) && InRange(w.d, j, n)
      requires 0 <= c0 <= x < 2 * DV
      modifies w`d
      ensures 0 <= c <= x && InRange(w.d, j, n)
      ensures S(w.d, j, n) + Mul(c, P(n)) == old(S(w.d, j, n)) + Mul(x, S(d, i, n)) + c0
      ensures SameOutside(w.d, old(w.d), j, n)
    {
      hide Mul, P;
      Units(x);
      Units(c0);
      POne();
      c := c0;
      var k := 0;
      while k < n
        invariant 0 <= k <= n && 0 <= c <= x
        invariant InRange(w.d, j, k)
        invariant SameOutside(w.d, old(w.d), j, k)
        invariant S(w.d, j, k) + Mul(c, P(k)) == S(old(w.d), j, k) + Mul(x, S(d, i, k)) + c0
      {
        AccumulatorBound(x, d[i + k], w.d[j + k], c);
        var g := Mul(x, d[i + k]) + w.d[j + k] + c;
        assert Exact(Mul(x, d[i + k])) && Exact(Mul(x, d[i + k]) + w.d[j + k]) && Exact(g);
        AmDigit(w.d, j, k, x, d, i, old(w.d)[j + k], c, g);
        c := g / 0x400_0000;
        w.d := w.d[j + k := Mask(g)];
        k := k + 1;
      }
    }

    /** r = this << n. */
    method LShiftTo(n: nat, r: BigInteger)
      requires Digits()
      modifies r
      ensures r.Valid() && r.Value() == Mul(old(Value()), Pow2(n))
      ensures forall i :: r.t <= i < old(t) + n / 26 + 1 ==> i in r.d && r.d[i] == SignDigit(r.s)
    {
      hide Mul, P, S, LShifted, Or, Low, Asr;
      ghost var D, v := d, Value();
      var j := n % 26;
      var low := n / 26;
      var h := LShiftDigits(low, j, r);
      ghost var e := r.d;
      r.ZeroBelow(low);
      r.d := r.d[low := h];
      r.t := t + low + 1;
      r.s := s;
      LShiftDone(e, r.d, D, old(t), r.s, low, j, h, v);
      r.Clamp();
    }

    /** The shifted digits from the top down; h are the bits left for the lowest. */
    method LShiftDigits(low: nat, j: nat, r: BigInteger) returns (h: int)
      requires Digits() && j < 26
      modifies r`d
      ensures LShifted(r.d, old(d), t, s, 0, low, j, h)
      ensures 0 <= h < DV
    {
      hide Mul, P, S, LShifted, Or, Low, Asr;
      ghost var D := d;
      ghost var q := LShiftStart(r.d, D, t, s, low, j);
      LShiftMask(s, j);
      h := Low(Shl(s, j), DB);
      var a := t - 1;
      while a >= 0
        invariant -1 <= a < t
        invariant forall i :: 0 <= i <= a ==> i in d && d[i] == D[i]
        invariant LShifted(r.d, D, t, s, a + 1, low, j, h)
        invariant 0 <= h < DV && h == Mul(q, Pow2(j)) && 0 <= q < Pow2(26 - j)
      {
        var x := d[a];
        LShiftDigit(x, j, h, q);
        LShiftStep(r.d, D, t, s, a, low, j, h, Asr(x, 26 - j), Mul(Low(x, 26 - j), Pow2(j)));
        r.d := r.d[a + low + 1 := Or(Asr(x, 26 - j), h)];
        h := Shl(Low(x, 26 - j), j);
        q := Low(x, 26 - j);
        a := a - 1;
      }
    }

    /** r = this >> n, rounding towards minus infinity. */
    method RShiftTo(n: nat, r: BigInteger)
      requires Digits()
      modifies r
      ensures r.Valid() && r.Value() == Quo(old(Value()), Pow2(n))
    {
      hide Mul, Quo, P, S, RShifted, Or, Low, Asr;
      ghost var D, v := d, Value();
      r.s := s;
      var h := n / 26;
      if h >= t {
        r.t := 0;
        RShiftAll(r.d, D, old(t), r.s, n);
        return;
      }
      var j := n % 26;
      RShiftDigits(h, j, r);
      ghost var e := r.d;
      RShiftDone(e, D, t, s, h, j, n, v);
      if j > 0 {
        r.d := r.d[t - h - 1 := Or(r.d[t - h - 1], Shl(Low(s, j), 26 - j))];
      }
      assert r.d == e[t - h - 1 := e[t - h - 1] + Mul(Low(s, j), Pow2(26 - j))];
      r.t := t - h;
      r.Clamp();
    }

    /** The digits of the quotient, the top one still without the sign bits. */
    method RShiftDigits(h: nat, j: nat, r: BigInteger)
      requires h < t && InRange(d, 0, t) && j < 26
      modifies r`d
      ensures RShifted(r.d, old(d), h, t - h, j)
    {
      hide Mul, Quo, P, S, RShifted, Or, Low, Asr;
      ghost var D := d;
      RShiftStart(r.d, D, h, j);
      r.d := r.d[0 := Asr(d[h], j)];
      var g := h + 1;
      while g < t
        invariant h < g <= t
        invariant forall i :: g <= i < t ==> i in d && d[i] == D[i]
        invariant RShifted(r.d, D, h, g - h, j)
      {
        RShiftStep(r.d, D, h, g - h, j);
        r.d := r.d[g - h - 1 := Or(r.d[g - h - 1], Shl(Low(d[g], j), 26 - j))];
        r.d := r.d[g - h := Asr(d[g], j)];
        g := g + 1;
      }
    }

    /** The zero-filling loop of the operations that build a number in place. */
    method ZeroBelow(n: int)
      modifies this`d
      ensures forall i :: 0 <= i < n ==> i in d && d[i] == 0
      ensures SameFrom(d, old(d), n)
    {
      var c := n - 1;
      while c >= 0
        invariant -1 <= c < n || c == n - 1
        invariant forall i :: c < i < n && 0 <= i ==> i in d && d[i] == 0
        invariant SameFrom(d, old(d), n)
      {
        d := d[c := 0];
        c := c - 1;
      }
    }

    /** r = this * a; r is neither operand. */
    method MultiplyTo(a: BigInteger, r: BigInteger)
      requires r != this && r != a && Valid() && a.Valid()
      modifies r
      ensures r.Valid() && r.Value() == Mul(Value(), a.Value())
    {
      hide Mul, P, S;
      SignOf(d, t, s);
      SignOf(a.d, a.t, a.s);
      var f := Abs();
      var c := a.Abs();
      ghost var x, y := f.Value(), c.Value();
      SignedProduct(Value(), a.Value(), x, y);
      r.MultiplyMagnitudes(f, c);
      r.NegateWhen(s != a.s);
    }

    /** r = this * this; r is another object. */
    method SquareTo(r: BigInteger)
      requires r != this && Valid()
      modifies r
      ensures r.Valid() && r.Value() == Mul(Value(), Value())
    {
      hide Mul, P, S;
      SignOf(d, t, s);
      var a := Abs();
      SignedProduct(Value(), Value(), a.Value(), a.Value());
      NumNonNegative(a.d, a.t);
      r.SquareMagnitude(a);
      r.s := 0;
      NumNonNegative(r.d, r.t);
      r.Clamp();
    }

    /** The rows of the square: each product of two different digits is taken once, doubled. */
    method SquareMagnitude(a: BigInteger)
      requires this != a && a.t >= 0 && InRange(a.d, 0, a.t)
      modifies this`d, this`t
      ensures t >= 0 && InRange(d, 0, t) && S(d, 0, t) == Square(S(a.d, 0, a.t))
    {
      hide Mul, P, S, Square;
      var n := a.t;
      ghost var x := S(a.d, 0, n);
      t := 2 * n;
      ZeroBelow(t);
      SZero(d, 0, t);
      POne();
      Units(Square(x));
      var i := 0;
      while i < n - 1
        invariant 0 <= i <= n && (n > 0 ==> i < n)
        invariant n > 0 ==> SquareRest(d, n, i)
        invariant t == 2 * n && InRange(d, 0, t)
        invariant S(d, 0, t) + Mul(P(2 * i), Square(S(a.d, i, n - i))) == Square(x)
      {
        SquareRow(a, i);
        i := i + 1;
      }
      if t > 0 {
        ghost var v := d;
        var carry := a.Am(i, a.d[i], this, 2 * i, 0, 1);
        SquareLast(v, d, i, a.d, carry);
        SUpdate(d, t, t - 1, d[t - 1] + carry);
        d := d[t - 1 := d[t - 1] + carry];
      } else {
        SquareOfNothing(a.d, d);
      }
    }

    /** The square of digit i and twice its product with the digits above it. */
    method SquareRow(a: BigInteger, i: nat)
      requires this != a && a.t >= 0 && InRange(a.d, 0, a.t) && i < a.t - 1
      requires SquareRest(d, a.t, i)
      modifies this`d
      ensures SquareRest(d, a.t, i + 1)
      ensures S(d, 0, 2 * a.t) + Mul(P(2 * (i + 1)), Square(S(a.d, i + 1, a.t - (i + 1))))
           == old(S(d, 0, 2 * a.t)) + Mul(P(2 * i), Square(S(a.d, i, a.t - i)))
    {
      hide Mul, P, S;
      var n := a.t;
      ghost var v := d;
      var b := a.Am(i, a.d[i], this, 2 * i, 0, 1);
      ghost var u := d;
      assert SquareRest(u, n, i);
      var c := a.Am(i + 1, 2 * a.d[i], this, 2 * i + 1, b, n - i - 1);
      assert SquareRest(d, n, i);
      SquareWindows(v, u, d, a.d, n, i, b, c);
      ghost var w := d;
      SUpdate(d, 2 * n, i + n, d[i + n] + c);
      d := d[i + n := d[i + n] + c];
      if d[i + n] >= DV {
        SquareOverflow(d, 2 * n, i + n);
        d := d[i + n := d[i + n] - DV];
        d := d[i + n + 1 := 1];
      }
    }

    /** The schoolbook rows: this = f * c. */
    method MultiplyMagnitudes(f: BigInteger, c: BigInteger)
      requires this != f && this != c && f.Valid() && c.Valid() && f.s == 0 && c.s == 0
      modifies this
      ensures Valid() && Value() == Mul(f.Value(), c.Value())
    {
      hide Mul, P, S, SameFrom;
      t := f.t + c.t;
      ZeroBelow(f.t);
      ghost var x := S(f.d, 0, f.t);
      NumNonNegative(f.d, f.t);
      NumNonNegative(c.d, c.t);
      SZero(d, 0, f.t);
      SEmpty(c.d, 0);
      Units(x);
      var i := 0;
      while i < c.t
        invariant 0 <= i <= c.t && t == f.t + c.t
        invariant InRange(d, 0, i + f.t)
        invariant S(d, 0, i + f.t) == Mul(x, S(c.d, 0, i))
      {
        MultiplyDigit(f, c, i);
        i := i + 1;
      }
      s := 0;
      NumNonNegative(d, t);
      Clamp();
    }

    /** One row of the product: digit i of c times f is added at i, and the carry put above. */
    method MultiplyDigit(f: BigInteger, c: BigInteger, i: nat)
      requires this != f && this != c && f.t >= 0 && InRange(f.d, 0, f.t) && InRange(c.d, 0, i + 1)
      requires InRange(d, 0, i + f.t) && S(d, 0, i + f.t) == Mul(S(f.d, 0, f.t), S(c.d, 0, i))
      modifies this`d
      ensures InRange(d, 0, i + f.t + 1) && S(d, 0, i + f.t + 1) == Mul(S(f.d, 0, f.t), S(c.d, 0, i + 1))
    {
      hide Mul, P, S, SameOutside;
      ghost var v := d;
      var carry := f.Am(0, c.d[i], this, i, 0, f.t);
      RowKept(d, v, i, f.t);
      MultiplyRow(v, d, i, f.t, c.d, S(f.d, 0, f.t), carry);
      d := d[i + f.t := carry];
    }

    /** The loop that appends zero digits up to n of them. */
    method PadTo(n: nat)
      requires Digits() && s == 0
      modifies this`d, this`t
      ensures Digits() && Value() == old(Value()) && t == if old(t) < n then n else old(t)
    {
      hide Mul, P, S;
      NumNonNegative(d, t);
      while t < n
        invariant Digits() && S(d, 0, t) == old(Value())
        invariant old(t) <= t && (t <= n || t == old(t))
      {
        Units(P(t));
        SLast(d[t := 0], 0, t);
        SFrame(d, 0, d[t := 0], 0, t);
        d := d[t := 0];
        t := t + 1;
      }
      NumNonNegative(d, t);
    }

    /** For 0 <= this and a normalized w: this becomes the buffer with the remainder in its w.t
        lowest digits and the quotient above; w and g are scratch.  A zero dividend with no digit
        left becomes 1. */
    method DivideDigits(w: BigInteger, g: BigInteger, est: Estimator)
      requires this != w && this != g && w != g
      requires w.Valid() && w.s == 0 && Dividend(w.t)
      requires Normalized(w.Value(), w.t) && StepsSound(est, Value(), w.Value(), w.t)
      modifies this, w, g
      ensures Digits() && s == 0
      ensures old(t) > 0 ==> t >= old(w.t) && DivState(Value(), old(Value()), old(w.Value()), old(w.t), 0)
      ensures old(t) == 0 ==> t == 1 && d == old(d)[0 := 1]
    {
      hide Mul, Quo, Mod, P, S, DivState, Window;
      ghost var n, y := Value(), w.Value();
      var h := w.t;
      DivisorDigits(w.d, h, y);
      var d1 := w.d[h - 1];
      var d2 := if h > 1 then w.d[h - 2] else 0;
      assert d1 != 0;
      var j := t;
      var c := j - h;
      DivideTop(w, g, c);
      DivideComplement(w, g);
      ghost var empty := d;
      while c > 0
        invariant Digits() && s == 0 && c <= j - h && (j > 0 ==> c >= 0)
        invariant c > 0 ==> Valid()
        invariant w.Digits() && w.s == 0 && w.t == h && S(w.d, 0, h) == P(h) - y
        invariant j > 0 ==> t >= h && DivState(Value(), n, y, h, c)
        invariant j > 0 && c > 0 ==> n >= P(j - 1) && Value() >= P(c + h - 1)
        invariant j == 0 ==> t == 1 && d == empty
      {
        c := c - 1;
        PMonotone(c + h, j - 1);
        DivideStep(w, g, c, d1, d2, est, n, y);
        PMonotone(c + h - 1, c + h);
        PMonotone(h - 1, c + h);
        LengthAtLeast(d, t, s, h);
      }
    }

    /** A dividend for h digits: proper and long enough, or zero, as h zero digits or as none. */
    ghost predicate Dividend(h: nat)
      reads this
    {
      Digits() && s == 0 && ((Valid() && t >= h) || (Value() == 0 && (t == h || t == 0)))
    }

    /** The top digits: the divisor, shifted up to them, fits in at most once. */
    method DivideTop(w: BigInteger, g: BigInteger, c: int)
      requires this != w && this != g && w != g
      requires w.Valid() && w.s == 0 && Dividend(w.t)
      requires Normalized(w.Value(), w.t) && t == c + w.t
      modifies this, g
      ensures Digits() && s == 0
      ensures c > 0 ==> Valid() && Value() >= P(c + w.t - 1) && old(Value()) >= P(c + w.t - 1)
      ensures c >= 0 ==> t >= w.t && DivState(Value(), old(Value()), w.Value(), w.t, c)
      ensures c < 0 ==> t == 1 && d == old(d)[0 := 1]
    {
      hide Mul, Quo, Mod, P, S, DivState;
      ghost var n, y, h := Value(), w.Value(), w.t;
      SignOf(d, t, s);
      if c >= 0 {
        FirstState(n, y, h, c);
        PMonotone(h - 1, c + h);
        if Valid() {
          ClampedMagnitude(d, t, s);
          PMonotone(h - 1, t - 1);
          PMonotone(t - 1, t);
        }
      }
      w.DlShiftTo(c, g);
      NumEmpty(d, 0);
      NumEmpty(g.d, 0);
      var r := CompareTo(g);
      if r >= 0 {
        AppendOne(d, t);
        ghost var e := d[t := 1];
        d := d[t := 1];
        t := t + 1;
        SubTo(g, this);
        POne();
        if c >= 0 {
          LengthAtLeast(d, t, s, h);
        } else {
          LengthOfOne(d, t, s);
        }
      }
      SignOf(d, t, s);
    }

    /** w = P(w.t) - w, the negative of the divisor in w.t digits. */
    method DivideComplement(w: BigInteger, g: BigInteger)
      requires w != g && w.Valid() && w.s == 0 && w.Value() > 0
      modifies w, g
      ensures w.Digits() && w.s == 0 && w.t == old(w.t)
      ensures S(w.d, 0, w.t) == P(w.t) - old(w.Value())
    {
      hide Mul, P, S;
      ghost var y, h := w.Value(), w.t;
      LengthBounds(w.d, w.t, w.s);
      var one := Nbv(1);
      one.DlShiftTo(w.t, g);
      Units(P(h));
      var k := w.t;
      g.SubTo(w, w);
      ComplementLength(w.d, w.t, w.s, h, y);
      w.PadTo(k);
      NumNonNegative(w.d, w.t);
    }

    /** Taking the shifted divisor off again for each unit the digit tried was too large. */
    method Correct(w: BigInteger, g: BigInteger, c: nat, first: int, ghost n: int, ghost y: int) returns (b: int)
      requires this != w && this != g && w != g
      requires Valid() && s == 0 && w.t > 0 && w.Digits() && w.s == 0
      requires y > 0 && n >= 0 && w.Value() == P(w.t) - y && c + w.t < t && Value() >= P(c + w.t)
      requires Trying(Value(), n, y, w.t, c, first) && d[c + w.t] < first
      requires first >= Quo(Window(n, y, c), y) >= 0 && first > Quo(Window(n, y, c), y)
      modifies this, g
      ensures Valid() && s == 0 && c + w.t < t && Value() >= P(c + w.t) && w.t == old(w.t)
      ensures Trying(Value(), n, y, w.t, c, b) && b == Quo(Window(n, y, c), y)
    {
      hide Mul, Quo, Mod, P, S, Window, DivState, Top, Second, Trying;
      var h := w.t;
      var j := c + h;
      b := first;
      w.DlShiftTo(c, g);
      TryingLess(Value(), n, y, h, c, b);
      SubTo(g, this);
      b := b - 1;
      TryingValue(n, y, h, c, b);
      while d[j] < b
        invariant Valid() && s == 0 && j < t && Value() >= P(j)
        invariant g.Digits() && g.Value() == Mul(P(h) - y, P(c))
        invariant Trying(Value(), n, y, h, c, b)
        invariant b >= Quo(Window(n, y, c), y) >= 0 && (d[j] < b <==> b > Quo(Window(n, y, c), y))
        decreases b
      {
        TryingLess(Value(), n, y, h, c, b);
        SubTo(g, this);
        b := b - 1;
        TryingValue(n, y, h, c, b);
      }
    }

    /** One quotient digit.  this is the buffer, w the divisor's complement P(h) - y, g scratch. */
    method DivideStep(w: BigInteger, g: BigInteger, c: nat, d1: int, d2: int, est: Estimator,
                      ghost n: int, ghost y: int)
      requires this != w && this != g && w != g
      requires Valid() && s == 0 && w.t > 0 && w.Digits() && w.s == 0
      requires n >= 0 && Normalized(y, w.t) && S(w.d, 0, w.t) == P(w.t) - y
      requires d1 == Top(y, w.t) && d2 == Second(y, w.t)
      requires DivState(Value(), n, y, w.t, c + 1) && Value() >= P(c + w.t)
      requires TrialSound(est, Window(n, y, c), y, w.t)
      modifies this, g
      ensures Valid() && s == 0
      ensures DivState(Value(), n, y, w.t, c) && Value() >= P(c + w.t)
    {
      hide Mul, Quo, Mod, P, S, Window, DivState, Top, Second, Trying;
      var h := w.t;
      var j := c + h;
      NumNonNegative(d, t);
      NumNonNegative(w.d, h);
      DivideStart(d, t, n, y, h, c);
      var b := if d[j] == d1 then DM else est(d[j], d[j - 1], d1, d2);
      assert b == Trial(est, Window(n, y, c), y, h);
      ghost var v := d;
      var carry := w.Am(0, b, this, c, 0, h);
      DivideKernel(v, d, t, n, y, h, c, b, carry);
      d := d[j := d[j] + carry];
      NumNonNegative(d, t);
      TryingDigit(d, t, n, y, h, c, b);
      if d[j] < b {
        b := Correct(w, g, c, b, n, y);
      }
      TryingDone(Value(), n, y, h, c, b);
    }

    /** q = this / m and r = this % m, truncating; either result may be left out.  r may be this
        or m, q may be m.  Division by zero leaves both as they are.  The dividend is proper, or
        the zero with as many digits as the divisor that Montgomery conversion passes. */
    method DivRemTo(m: BigInteger, q: BigInteger?, r: BigInteger?, est: Estimator)
      requires Digits() && m.Valid()
      requires Valid() || (m.s == 0 && Dividend(m.t))
      requires q != null ==> q != r && q != this
      requires GuessesSound(est, Magnitude(Value()), Magnitude(m.Value()))
      modifies q, r
      ensures old(m.Value()) == 0 ==> (q != null ==> unchanged(q)) && (r != null ==> unchanged(r))
      ensures old(m.Value()) != 0 && q != null ==>
        q.Valid() && q.Value() == TruncatedQuotient(old(Value()), old(m.Value()))
      ensures old(m.Value()) != 0 && r != null ==>
        r.Valid() && r.Value() == TruncatedRemainder(old(Value()), old(m.Value()))
    {
      hide Mul, Quo, Mod, P, S, GuessesSound, TruncatedQuotient, TruncatedRemainder;
      ghost var N, M := Value(), m.Value();
      SignOf(d, t, s);
      SignOf(m.d, m.t, m.s);
      var x := m.Abs();
      LengthBounds(x.d, x.t, x.s);
      NumEmpty(x.d, x.s);
      if x.t <= 0 { return; }
      TruncatedFromMagnitudes(N, M);
      var e := Abs();
      SignOf(e.d, e.t, e.s);
      if e.t < x.t {
        PMonotone(e.t, x.t - 1);
        SmallDividend(N, M);
        KeepAsRemainder(q, r);
        return;
      }
      var b: BigInteger;
      if r == null { b := new BigInteger.Nbi(); } else { b := r; }
      e.DivideSigned(x, q, b, s < 0, s != m.s, est);
    }

    /** The division of the magnitudes, and the signs put on. */
    method DivideSigned(x: BigInteger, q: BigInteger?, b: BigInteger, negative: bool, differ: bool, est: Estimator)
      requires x.Valid() && x.s == 0 && 0 < x.t <= t && Dividend(x.t)
      requires q != null ==> q != b && q != this
      requires GuessesSound(est, Value(), x.Value())
      modifies q, b
      ensures old(x.Value()) > 0
      ensures b.Valid() && var r := Mod(old(Value()), old(x.Value())); b.Value() == if negative then -r else r
      ensures q != null ==>
        q.Valid() && var k := Quo(old(Value()), old(x.Value())); q.Value() == if differ then -k else k
    {
      hide Mul, Quo, Mod, P, S, GuessesSound;
      DivideMagnitudes(x, q, b, est);
      if q != null { q.NegateWhen(differ); }
      b.NegateWhen(negative);
    }

    /** A dividend shorter than the divisor is the remainder. */
    method KeepAsRemainder(q: BigInteger?, r: BigInteger?)
      requires Valid() && (q != null ==> q != r && q != this)
      modifies q, r
      ensures q != null ==> q.Valid() && q.Value() == 0
      ensures r != null ==> r.Valid() && r.Value() == old(Value())
    {
      hide Mul, P, S;
      if q != null { q.FromInt(0); }
      if r != null { CopyTo(r); }
    }

    /** The division of non-negative numbers, the divisor x not longer than this. */
    method DivideMagnitudes(x: BigInteger, q: BigInteger?, b: BigInteger, est: Estimator)
      requires x.Valid() && x.s == 0 && 0 < x.t <= t && Dividend(x.t)
      requires q != null ==> q != b && q != this
      requires GuessesSound(est, Value(), x.Value())
      modifies q, b
      ensures old(x.Value()) > 0
      ensures b.Valid() && b.Value() == Mod(old(Value()), old(x.Value()))
      ensures q != null ==> q.Valid() && q.Value() == Quo(old(Value()), old(x.Value()))
    {
      hide Mul, Quo, Mod, P, S, GuessesSound, DivState;
      var w, l := Normalize(x, b);
      var h := w.t;
      ghost var p := Pow2(l);
      ghost var N, X, empty := old(Value()), old(x.Value()), b.t == 0;
      ScaledDivision(N, X, p);
      MulLe(0, N, p);
      Units(p);
      SoundSteps(est, N, X, l, h);
      var g: BigInteger;
      if q == null { g := new BigInteger.Nbi(); } else { g := q; }
      b.DivideDigits(w, g, est);
      if empty {
        LoneDigit(b.d, h, l, X);
      } else {
        FinalState(b.Value(), Mul(N, p), Mul(X, p), h);
        LowDigits(b.d, b.t, h);
      }
      if q != null {
        b.DrShiftTo(h, q);
        q.Clamp();
      }
      b.t := h;
      b.Clamp();
      if l > 0 {
        b.RShiftTo(l, b);
      } else {
        Units(Mod(N, X));
      }
    }

    /** w = x << l and b = this << l, so that the top bit of w's top digit is set. */
    method Normalize(x: BigInteger, b: BigInteger) returns (w: BigInteger, l: nat)
      requires x.Valid() && x.s == 0 && 0 < x.t <= t && Dividend(x.t)
      modifies b
      ensures fresh(w) && w.Valid() && w.s == 0 && l < 26 && w.t == old(x.t) > 0
      ensures old(x.Value()) > 0 && old(Value()) >= 0
      ensures w.Value() == Mul(old(x.Value()), Pow2(l)) && Normalized(w.Value(), w.t)
      ensures b.Dividend(w.t) && b.Value() == Mul(old(Value()), Pow2(l))
      ensures b.t == 0 ==> old(Value()) == 0 && l > 0 && forall i :: 0 <= i < w.t ==> i in b.d && b.d[i] == 0
    {
      hide Mul, P, S;
      ghost var N, X, h := Value(), x.Value(), x.t;
      SignOf(d, t, s);
      LengthBounds(x.d, x.t, x.s);
      w := new BigInteger.Nbi();
      var bits := NBits(x.d[x.t - 1]);
      NormalizingBits(x.d, h, bits);
      l := 26 - bits;
      ghost var p := Pow2(l);
      Units(N);
      Units(X);
      Units(p);
      if l > 0 {
        x.LShiftTo(l, w);
        LShiftTo(l, b);
      } else {
        x.CopyTo(w);
        CopyTo(b);
      }
      LengthByValue(w.d, w.t, w.s, h);
      SignOf(b.d, b.t, b.s);
      MulLe(0, N, p);
      if N > 0 {
        ClampedMagnitude(old(d), old(t), old(s));
        PMonotone(h - 1, old(t) - 1);
        MulLe(1, p, N);
        Commute(N, p);
        LengthAtLeast(b.d, b.t, b.s, h);
      } else if l > 0 {
        LengthBounds(b.d, b.t, b.s);
      }
    }

    /** The loop that carries an oversize digit k upwards. */
    method CarryUp(k0: nat)
      requires k0 < t && Defined(d, 0, t) && 0 <= d[k0] < 2 * DV
      requires InRange(d, 0, k0) && InRange(d, k0 + 1, t - k0 - 1) && S(d, 0, t) < P(t)
      modifies this`d
      ensures InRange(d, 0, t) && S(d, 0, t) == old(S(d, 0, t))
    {
      hide Mul, P, S;
      var k := k0;
      while d[k] >= DV
        invariant 0 <= k < t && Defined(d, 0, t) && 0 <= d[k] < 2 * DV
        invariant InRange(d, 0, k) && InRange(d, k + 1, t - k - 1)
        invariant S(d, 0, t) == old(S(d, 0, t))
        decreases t - k
      {
        CarryHasRoom(d, t, k);
        CarryMoves(d, t, k);
        d := d[k := d[k] - DV];
        k := k + 1;
        d := d[k := d[k] + 1];
      }
    }

    /** The least non-negative residue modulo a positive m. */
    method Residue(m: BigInteger, est: Estimator) returns (a: BigInteger)
      requires Valid() && m.Valid() && m.Value() > 0
      requires GuessesSound(est, Magnitude(Value()), m.Value())
      ensures fresh(a) && a.Valid() && a.s == 0 && a.Value() == Mod(Value(), m.Value())
    {
      hide Mul, Quo, Mod, P, S, GuessesSound;
      ghost var n, M := Value(), m.Value();
      SignOf(d, t, s);
      a := new BigInteger.Nbi();
      var e := Abs();
      e.DivRemTo(m, null, a, est);
      TruncatedFromMagnitudes(Magnitude(n), M);
      ResidueOfMagnitude(n, M);
      var zero := Nbv(0);
      var c := a.CompareTo(zero);
      if s < 0 && c > 0 {
        m.SubTo(a, a);
      }
      SignOf(a.d, a.t, a.s);
    }

    method IsEven() returns (b: bool)
      requires Digits()
      ensures b <==> Value() % 2 == 0
    {
      b := if t > 0 then d[0] % 2 == 0 else s == 0;
      ParityOf(d, t, s);
    }

    /** -1 / this modulo 2^26 for an odd number, by Newton's iteration from two bits. */
    method InvDigit() returns (r: int)
      requires Digits()
      ensures t < 1 || d[0] % 2 == 0 ==> r == 0
      ensures t >= 1 && d[0] % 2 == 1 ==> 0 < r < DV && Congruent(Mul(r, d[0]), -1, DV)
    {
      hide Mul, Low, Rem, Congruent;
      if t < 1 { return 0; }
      var b := d[0];
      if b % 2 == 0 { return 0; }
      Pow2Values();
      TwoBitInverse(b);
      var a := Low(b, 2);
      MaskedNewton(a, b, 2);
      a := Low(Mul(a, 2 - Mul(Low(b, 4), a)), 4);
      MaskedNewton(a, b, 4);
      a := Low(Mul(a, 2 - Mul(Low(b, 8), a)), 8);
      MaskedNewton16(a, b);
      a := Low(Mul(a, 2 - Low(Mul(Low(b, 16), a), 16)), 16);
      LastNewton(a, b);
      a := Rem(Mul(a, 2 - Rem(Mul(b, a), DV)), DV);
      return if a > 0 then DV - a else -a;
    }

    lemma TryingValue(n: int, y: int, h: nat, c: nat, b: int)
      requires Valid() && Trying(Value(), n, y, h, c, b)
      ensures s == 0 && c + h < t && Value() >= P(c + h)
      ensures b >= Quo(Window(n, y, c), y) >= 0
      ensures d[c + h] < b <==> b > Quo(Window(n, y, c), y)
    {
      hide Mul, Quo, Mod, P, S, Window, Trying;
      TryingLarge(Value(), n, y, h, c, b);
      SignOf(d, t, s);
      NumNonNegative(d, t);
      TryingDigit(d, t, n, y, h, c, b);
    }
  }
}
