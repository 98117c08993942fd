/** The arithmetic of schoolbook division in base 2^26, on values.

    The dividend n is consumed from the top.  With the digits below index c still to come, the
    buffer holds the quotient of the consumed part above the remainder and the rest of n. */
module Division {
  import opened JsNumber
  import opened Ring
  import opened Digits

  /** How a quotient digit is guessed: from the two top digits of the window and the two top
      digits of the divisor. */
  type Estimator = (int, int, int, int) -> int

  /** The divisor w has h digits and its top bit set. */
  ghost predicate Normalized(w: int, h: nat) {
    h > 0 && P(h) <= 2 * w && w < P(h)
  }

  function Top(w: int, h: nat): int
    requires h > 0
  {
    Quo(w, P(h - 1))
  }

  function Second(w: int, h: nat): int
    requires h > 0
  {
    if h > 1 then Quo(w, P(h - 2)) % 0x400_0000 else 0
  }

  /** The quotient digit tried for a window: the largest digit if the tops agree, else the guess. */
  function Trial(est: Estimator, win: int, w: int, h: nat): int
    requires h > 0
  {
    if Quo(win, P(h)) == Top(w, h) then DM
    else est(Quo(win, P(h)), Quo(win, P(h - 1)) % 0x400_0000, Top(w, h), Second(w, h))
  }

  /** The trial digit is not below the true one, and fits the multiplier of the kernel. */
  ghost predicate TrialSound(est: Estimator, win: int, w: int, h: nat) {
    w > 0 && h > 0 && Quo(win, w) <= Trial(est, win, w, h) <= DV
  }

  /** What is divided when digit c of n is taken in. */
  ghost function Window(n: int, w: int, c: nat): int
    requires w > 0
  {
    0x400_0000 * Mod(Quo(n, P(c + 1)), w) + Quo(n, P(c)) % 0x400_0000
  }

  ghost predicate DivState(v: int, n: int, w: int, h: nat, c: nat) {
    w > 0 &&
    v == Mul(Quo(Quo(n, P(c)), w), P(c + h)) + Mul(Mod(Quo(n, P(c)), w), P(c)) + Mod(n, P(c))
  }

  /** The buffer while digit c is worked on, if b has been tried as the quotient digit: q are the
      quotient digits above, low the digits of n below. */
  ghost function Buffer(q: int, win: int, low: int, w: int, h: nat, c: nat, b: int): int {
    Mul(q, P(c + h + 1)) + Mul(b, P(c + h)) + Mul(win - Mul(b, w), P(c)) + low
  }

  /** Taking in one more digit of n. */
  lemma TakeDigit(n: int, c: nat)
    requires n >= 0
    ensures var g := Quo(n, P(c)) % 0x400_0000;
      Quo(n, P(c)) == 0x400_0000 * Quo(n, P(c + 1)) + g && 0 <= g < DV
      && Mod(n, P(c + 1)) == Mul(g, P(c)) + Mod(n, P(c))
  {
    hide Mul, Quo, Mod, P;
    var u := Quo(n, P(c));
    var x, g := u / 0x400_0000, u % 0x400_0000;
    DivMod(n, P(c));
    PNext(c);
    Distribute(u, 0x400_0000 * x, g, P(c));
    Scale(x, P(c));
    MulLe(0, g, P(c));
    Units(P(c));
    MulGap(g, 0x400_0000, P(c));
    Scale(1, P(c));
    DivUnique(n, P(c + 1), x, Mul(g, P(c)) + Mod(n, P(c)));
  }

  lemma WindowFacts(n: int, w: int, c: nat)
    requires n >= 0 && w > 0
    ensures var q := Quo(Quo(n, P(c + 1)), w);
      0 <= q && 0 <= Window(n, w, c) < 0x400_0000 * w
      && Quo(n, P(c)) == 0x400_0000 * Mul(q, w) + Window(n, w, c)
  {
    hide Mul, Quo, Mod, P;
    TakeDigit(n, c);
    var u := Quo(n, P(c + 1));
    DivMod(u, w);
    QuoNonNegative(n, P(c + 1));
    QuoNonNegative(u, w);
  }

  lemma QuoNonNegative(n: int, p: int)
    requires n >= 0 && p > 0
    ensures 0 <= Quo(n, p) <= n && 0 <= Mod(n, p) < p
  {
    hide Mul, Quo, Mod;
    DivMod(n, p);
    var q := Quo(n, p);
    Units(p);
    Units(q);
    if q < 0 {
      MulLe(q, -1, p);
    } else {
      MulLe(1, p, q);
    }
  }

  /** Before the step the buffer is the one for trial digit 0. */
  lemma StateToBuffer(v: int, n: int, w: int, h: nat, c: nat)
    requires n >= 0 && DivState(v, n, w, h, c + 1)
    ensures v == Buffer(Quo(Quo(n, P(c + 1)), w), Window(n, w, c), Mod(n, P(c)), w, h, c, 0)
  {
    hide Mul, Quo, Mod, P;
    TakeDigit(n, c);
    var r, g := Mod(Quo(n, P(c + 1)), w), Quo(n, P(c)) % 0x400_0000;
    Units(P(c + h));
    Units(w);
    PNext(c);
    Scale(r, P(c));
    Distribute(Window(n, w, c), 0x400_0000 * r, g, P(c));
  }

  /** With the true quotient digit the buffer is the next state. */
  lemma BufferToState(n: int, w: int, h: nat, c: nat)
    requires n >= 0 && w > 0
    ensures var q, win := Quo(Quo(n, P(c + 1)), w), Window(n, w, c);
      DivState(Buffer(q, win, Mod(n, P(c)), w, h, c, Quo(win, w)), n, w, h, c)
      && Quo(Quo(n, P(c)), w) == 0x400_0000 * q + Quo(win, w)
  {
    hide Mul, Quo, Mod, P;
    WindowFacts(n, w, c);
    var q, win := Quo(Quo(n, P(c + 1)), w), Window(n, w, c);
    var b, r := Quo(win, w), Mod(win, w);
    DivMod(win, w);
    var u := Quo(n, P(c));
    Distribute(0x400_0000 * q + b, 0x400_0000 * q, b, w);
    Scale(q, w);
    DivUnique(u, w, 0x400_0000 * q + b, r);
    PNext(c + h);
    Distribute(0x400_0000 * q + b, 0x400_0000 * q, b, P(c + h));
    Scale(q, P(c + h));
  }

  /** The two digits that the guess reads are those of the window. */
  lemma WindowDigits(q: int, win: int, low: int, w: int, h: nat, c: nat)
    requires h > 0 && 0 <= win < 0x400_0000 * w && w < P(h) && 0 <= low < P(c)
    ensures var v := Buffer(q, win, low, w, h, c, 0);
      Quo(v, P(c + h)) == 0x400_0000 * q + Quo(win, P(h)) && 0 <= Quo(win, P(h)) < DV
      && Quo(v, P(c + h - 1)) % 0x400_0000 == Quo(win, P(h - 1)) % 0x400_0000
  {
    hide Mul, Quo, Mod, P;
    Units(P(c + h));
    Units(w);
    WindowQuotient(q, win, low, h, c);
    WindowQuotient(0x400_0000 * q, win, low, h - 1, c);
    PNext(c + h);
    PNext(c + h - 1);
    Scale(q, P(c + h));
    QuoNonNegative(win, P(h));
    DivMod(win, P(h));
    var x := Quo(win, P(h));
    Scale(1, P(h));
    Units(P(h));
    if x >= 0x400_0000 {
      MulLe(0x400_0000, x, P(h));
    }
    assert (0x400_0000 * (0x400_0000 * q) + Quo(win, P(h - 1))) % 0x400_0000 == Quo(win, P(h - 1)) % 0x400_0000;
  }

  lemma WindowQuotient(q: int, win: int, low: int, k: nat, c: nat)
    requires 0 <= win && 0 <= low < P(c)
    ensures Quo(Mul(q, P(c + k + 1)) + Mul(win, P(c)) + low, P(c + k)) == 0x400_0000 * q + Quo(win, P(k))
  {
    hide Mul, Quo, Mod, P;
    var x, r := Quo(win, P(k)), Mod(win, P(k));
    DivMod(win, P(k));
    PAdd(c, k);
    PNext(c + k);
    Distribute(win, Mul(x, P(k)), r, P(c));
    Associate(x, P(k), P(c));
    Commute(P(k), P(c));
    Distribute(0x400_0000 * q + x, 0x400_0000 * q, x, P(c + k));
    Scale(q, P(c + k));
    MulLe(0, r, P(c));
    MulGap(r, P(k), P(c));
    Units(P(c));
    DivUnique(Mul(q, P(c + k + 1)) + Mul(win, P(c)) + low, P(c + k), 0x400_0000 * q + x, Mul(r, P(c)) + low);
  }

  /** The digit that a trial digit b, not below the true one, leaves in its place: it stays at b
      exactly when b is the true digit, else it drops below b but not below the true digit. */
  lemma TrialDigit(q: int, win: int, low: int, w: int, h: nat, c: nat, b: int)
    requires 0 < w < P(h) && 0 <= win < 0x400_0000 * w && 0 <= low < P(c) && 0 <= q
    requires Quo(win, w) <= b <= DV
    ensures var g := Quo(Buffer(q, win, low, w, h, c, b), P(c + h)) - 0x400_0000 * q;
      Quo(win, w) <= g <= b && g < DV && (g == b <==> b == Quo(win, w))
  {
    hide Mul, Quo, Mod, P;
    var t, r := Quo(win, w), Mod(win, w);
    DivMod(win, w);
    TrueDigitBound(win, w);
    var k := b - t;
    var z := win - Mul(b, w);
    assert z == r - Mul(k, w) by { Distribute(b, t, k, w); }
    var y := Mul(z, P(c)) + low;
    PAdd(c, h);
    Associate(z, P(c), 1);
    Units(P(c));
    assert y < P(c + h) by {
      MulLe(0, k, w);
      Units(w);
      MulGap(z, P(h), P(c));
      Commute(P(h), P(c));
    }
    assert y >= -Mul(k, P(c + h)) by {
      MulLe(w, P(h), k);
      MulLe(-Mul(k, P(h)), z, P(c));
      Negate(Mul(k, P(h)), P(c));
      Associate(k, P(h), P(c));
      Commute(P(h), P(c));
    }
    assert k == 0 ==> y >= 0 by { Units(w); MulLe(0, r, P(c)); }
    assert k > 0 ==> y < 0 by {
      Units(w);
      if k > 0 {
        MulLe(1, k, w);
        MulLe(z, -1, P(c));
      }
    }
    var e := Quo(y, P(c + h));
    DivMod(y, P(c + h));
    QuotientRange(y, P(c + h), k);
    PNext(c + h);
    Scale(q, P(c + h));
    var u := 0x400_0000 * q + b;
    Distribute(u, 0x400_0000 * q, b, P(c + h));
    Distribute(u + e, u, e, P(c + h));
    DivUnique(Buffer(q, win, low, w, h, c, b), P(c + h), u + e, Mod(y, P(c + h)));
  }

  lemma TrueDigitBound(win: int, w: int)
    requires 0 < w && 0 <= win < 0x400_0000 * w
    ensures 0 <= Quo(win, w) < 0x400_0000
  {
    hide Mul, Quo, Mod;
    DivMod(win, w);
    QuoNonNegative(win, w);
    Scale(1, w);
    Units(w);
    if Quo(win, w) >= 0x400_0000 {
      MulLe(0x400_0000, Quo(win, w), w);
    }
  }

  lemma QuotientRange(y: int, p: int, k: int)
    requires p > 0 && -Mul(k, p) <= y < p
    ensures -k <= Quo(y, p) <= 0
    ensures y >= 0 ==> Quo(y, p) == 0
    ensures y < 0 ==> Quo(y, p) <= -1
  {
    hide Mul, Quo, Mod;
    var e := Quo(y, p);
    DivMod(y, p);
    Units(p);
    Negate(k, p);
    if e < -k {
      MulGap(e, -k, p);
    }
    if e > 0 {
      MulLe(1, e, p);
    }
    if y >= 0 && e < 0 {
      MulLe(e, -1, p);
    }
  }

  /** Trying one less adds the divisor back. */
  lemma BufferStep(q: int, win: int, low: int, w: int, h: nat, c: nat, b: int, d: int)
    ensures Buffer(q, win, low, w, h, c, b + d)
         == Buffer(q, win, low, w, h, c, b) + Mul(Mul(d, P(h) - w), P(c))
  {
    hide Mul, Quo, Mod, P;
    Distribute(b + d, b, d, P(c + h));
    Distribute(b + d, b, d, w);
    var z := win - Mul(b, w);
    Distribute(z, z - Mul(d, w), Mul(d, w), P(c));
    Distribute(P(h), P(h) - w, w, d);
    Distribute(Mul(d, P(h)), Mul(d, P(h) - w), Mul(d, w), P(c));
    PAdd(c, h);
    Associate(d, P(h), P(c));
    Commute(P(h), P(c));
  }

  /** The first digit left of the quotient is not zero. */
  lemma BufferLarge(q: int, win: int, low: int, w: int, h: nat, c: nat, b: int)
    requires 0 < w < P(h) && 0 <= win < 0x400_0000 * w && 0 <= low < P(c) && 0 <= q
    requires Quo(win, w) <= b <= DV && Buffer(q, win, low, w, h, c, 0) >= P(c + h)
    ensures Buffer(q, win, low, w, h, c, b) >= P(c + h)
    ensures 0x400_0000 * q + Quo(win, w) >= 1
  {
    hide Mul, Quo, Mod, P;
    TrialDigit(q, win, low, w, h, c, b);
    TrueDigitBound(win, w);
    var v := Buffer(q, win, low, w, h, c, b);
    var x := Quo(v, P(c + h));
    DivMod(v, P(c + h));
    if q == 0 {
      Units(P(c + h + 1));
      Units(P(c + h));
      Units(w);
      PAdd(c, h);
      if win < w {
        MulGap(win, P(h), P(c));
        Commute(P(h), P(c));
        assert false;
      }
      DivMod(win, w);
      if Quo(win, w) == 0 {
        assert false;
      }
    }
    MulLe(1, x, P(c + h));
    Units(P(c + h));
  }

  /** The steps of dividing n by w never guess a digit too low. */
  ghost predicate StepsSound(est: Estimator, n: int, w: int, h: nat)
    requires w > 0
  {
    forall c: nat :: n >= P(c + h) ==> TrialSound(est, Window(n, w, c), w, h)
  }

  /** The division of n by x never guesses a digit too low, once both are shifted up so that the
      divisor has its top bit set. */
  ghost predicate GuessesSound(est: Estimator, n: int, x: int) {
    forall l: nat, h: nat :: l < 26 && Normalized(Mul(x, Pow2(l)), h)
      ==> Mul(x, Pow2(l)) > 0 && StepsSound(est, Mul(n, Pow2(l)), Mul(x, Pow2(l)), h)
  }

  lemma SoundSteps(est: Estimator, n: int, x: int, l: nat, h: nat)
    requires GuessesSound(est, n, x) && l < 26 && Normalized(Mul(x, Pow2(l)), h)
    ensures Mul(x, Pow2(l)) > 0 && StepsSound(est, Mul(n, Pow2(l)), Mul(x, Pow2(l)), h)
  {
  }

  /** No division by m guesses a quotient digit too low. */
  ghost predicate SoundFor(est: Estimator, m: int) {
    forall n: nat :: GuessesSound(est, n, m)
  }

  lemma SoundAt(est: Estimator, m: int, n: nat)
    requires SoundFor(est, m)
    ensures GuessesSound(est, n, m)
  {
  }

  /** The largest quotient digit of a window with the two top digits b1 and b2. */
  function Highest(b1: int, b2: int, w: int, h: nat): int
    requires w > 0 && h > 0
  {
    Quo(Mul(b1 * 0x400_0000 + b2 + 1, P(h - 1)) - 1, w)
  }

  /** Every guess for this divisor reaches the largest digit that its window can have, and is at
      most 2^26. */
  ghost predicate DivisorSound(est: Estimator, w: int, h: nat)
    requires w > 0 && h > 0
  {
    forall b1, b2 :: 0 <= b1 < Top(w, h) && 0 <= b2 < DV
      ==> Highest(b1, b2, w, h) <= est(b1, b2, Top(w, h), Second(w, h)) <= DV
  }

  /** Truncating division, as the library defines it for signed operands. */
  function Magnitude(x: int): nat {
    if x < 0 then -x else x
  }

  function TruncatedQuotient(x: int, y: int): int
    requires y != 0
  {
    var q := Quo(Magnitude(x), Magnitude(y));
    if (x < 0) == (y < 0) then q else -q
  }

  function TruncatedRemainder(x: int, y: int): int
    requires y != 0
  {
    var r := Mod(Magnitude(x), Magnitude(y));
    if x < 0 then -r else r
  }

  lemma TruncatedFromMagnitudes(x: int, y: int)
    requires y != 0
    ensures var q := Quo(Magnitude(x), Magnitude(y));
      TruncatedQuotient(x, y) == if (x < 0) == (y < 0) then q else -q
    ensures var r := Mod(Magnitude(x), Magnitude(y));
      TruncatedRemainder(x, y) == if x < 0 then -r else r
  {
  }

  lemma SmallDividend(x: int, y: int)
    requires Magnitude(x) < Magnitude(y)
    ensures TruncatedQuotient(x, y) == 0 && TruncatedRemainder(x, y) == x
  {
    hide Mul, Quo, Mod;
    Units(Magnitude(y));
    DivUnique(Magnitude(x), Magnitude(y), 0, Magnitude(x));
  }

  /** Quotient and remainder recompose the dividend; the remainder is smaller than the divisor and
      carries the sign of the dividend; and no other pair does. */
  lemma TruncatedDivision(x: int, y: int, q: int, r: int)
    requires y != 0
    ensures q == TruncatedQuotient(x, y) && r == TruncatedRemainder(x, y) <==>
      x == Mul(q, y) + r && Magnitude(r) < Magnitude(y) && (x >= 0 ==> r >= 0) && (x <= 0 ==> r <= 0)
  {
    hide Mul, Quo, Mod;
    var a: int, b: int := Magnitude(x), Magnitude(y);
    DivMod(a, b);
    QuoNonNegative(a, b);
    var q0 := Quo(a, b);
    Negate(q0, b);
    Negate(q0, -b);
    Negate(q, y);
    Negate(q, -y);
    if x == Mul(q, y) + r && Magnitude(r) < Magnitude(y) && (x >= 0 ==> r >= 0) && (x <= 0 ==> r <= 0) {
      DivUnique(a, b, if (x < 0) == (y < 0) then q else -q, Magnitude(r));
      if x == 0 {
        Units(y);
        Units(b);
        DivUnique(0, b, 0, 0);
      }
    }
  }

  /** Shifting dividend and divisor alike keeps the quotient and shifts the remainder. */
  lemma ScaledDivision(a: int, b: int, p: int)
    requires a >= 0 && b > 0 && p > 0
    ensures Mul(b, p) > 0 && Quo(Mul(a, p), Mul(b, p)) == Quo(a, b)
    ensures Mod(Mul(a, p), Mul(b, p)) == Mul(Mod(a, b), p)
    ensures Quo(Mul(Mod(a, b), p), p) == Mod(a, b)
  {
    hide Mul, Quo, Mod;
    var q, r := Quo(a, b), Mod(a, b);
    DivMod(a, b);
    MulPositive(b, p);
    Distribute(a, Mul(q, b), r, p);
    Associate(q, b, p);
    MulLe(0, r, p);
    MulGap(r, b, p);
    Units(p);
    DivUnique(Mul(a, p), Mul(b, p), q, Mul(r, p));
    DivMultiple(r, p);
  }

  /** Shifting up by the leading zero bits of the top digit d normalizes. */
  lemma NormalizingShift(x: int, d: int, h: nat, bits: nat)
    requires h > 0 && 1 <= bits <= 26 && Pow2(bits - 1) <= d < Pow2(bits)
    requires Mul(d, P(h - 1)) <= x < Mul(d + 1, P(h - 1))
    ensures Normalized(Mul(x, Pow2(26 - bits)), h)
  {
    hide Mul, P;
    var p, k := P(h - 1), 26 - bits;
    Pow2Values();
    Pow2Add(bits, k);
    Pow2Add(bits - 1, k);
    PNext(h - 1);
    MulLe(Pow2(bits - 1), d, p);
    MulLe(d + 1, Pow2(bits), p);
    MulLe(Mul(Pow2(bits - 1), p), x, Pow2(k));
    Associate(Pow2(bits - 1), p, Pow2(k));
    Associate(Pow2(bits - 1), Pow2(k), p);
    Commute(p, Pow2(k));
    MulGap(x, Mul(Pow2(bits), p), Pow2(k));
    Associate(Pow2(bits), p, Pow2(k));
    Associate(Pow2(bits), Pow2(k), p);
    Scale(1, p);
    Units(p);
    Distribute(0x400_0000, 0x200_0000, 0x200_0000, p);
  }

  /** The dividend with nothing taken in but its h top digits: at most one divisor fits. */
  lemma FirstState(n: int, w: int, h: nat, c: nat)
    requires n >= 0 && Normalized(w, h) && n < P(c + h)
    ensures Mul(w, P(c)) <= n ==> DivState(n + P(c + h) - Mul(w, P(c)), n, w, h, c)
    ensures Mul(w, P(c)) > n ==> DivState(n, n, w, h, c)
  {
    hide Mul, Quo, Mod, P;
    var u := Quo(n, P(c));
    DivMod(n, P(c));
    QuoNonNegative(n, P(c));
    PAdd(c, h);
    Commute(P(c), P(h));
    if u >= P(h) {
      MulLe(P(h), u, P(c));
    }
    Units(w);
    Units(P(c + h));
    if u >= w {
      MulLe(w, u, P(c));
      DivUnique(u, w, 1, u - w);
      Distribute(u, u - w, w, P(c));
    } else {
      MulGap(u, w, P(c));
      DivUnique(u, w, 0, u);
    }
  }

  /** The digit at which the corrections stop that start from a guess b: while the digit left in
      place is below the one tried, the divisor is added back and the next smaller one tried. */
  ghost function Settle(q: int, win: int, low: int, w: int, h: nat, c: nat, b: nat): int {
    if b > 0 && Quo(Buffer(q, win, low, w, h, c, b), P(c + h)) - 0x400_0000 * q < b
    then Settle(q, win, low, w, h, c, b - 1)
    else b
  }

  /** The corrections end at the true digit exactly if the guess was not below it; a guess below
      it is not corrected at all. */
  lemma {:induction false} SettleIff(q: int, win: int, low: int, w: int, h: nat, c: nat, b: nat)
    requires 0 < w < P(h) && 0 <= win < 0x400_0000 * w && 0 <= low < P(c) && 0 <= q && b <= DV
    ensures Settle(q, win, low, w, h, c, b) == Quo(win, w) <==> b >= Quo(win, w)
    ensures b < Quo(win, w) ==> Settle(q, win, low, w, h, c, b) == b
  {
    hide Mul, Quo, Mod, P, Buffer;
    TrueDigitBound(win, w);
    if b < Quo(win, w) {
      LowGuessStays(q, win, low, w, h, c, b);
    } else {
      TrialDigit(q, win, low, w, h, c, b);
      if b > Quo(win, w) {
        SettleIff(q, win, low, w, h, c, b - 1);
      }
    }
  }

  lemma LowGuessStays(q: int, win: int, low: int, w: int, h: nat, c: nat, b: int)
    requires 0 < w < P(h) && 0 <= win && 0 <= low < P(c) && b < Quo(win, w)
    ensures Quo(Buffer(q, win, low, w, h, c, b), P(c + h)) - 0x400_0000 * q >= b
  {
    hide Mul, Quo, Mod, P;
    DivMod(win, w);
    MulLe(b + 1, Quo(win, w), w);
    Distribute(b + 1, b, 1, w);
    Units(w);
    var z := win - Mul(b, w);
    MulLe(0, z, P(c));
    Units(P(c));
    var y := Mul(z, P(c)) + low;
    PNext(c + h);
    Scale(q, P(c + h));
    var u := 0x400_0000 * q + b;
    Distribute(u, 0x400_0000 * q, b, P(c + h));
    var v := Buffer(q, win, low, w, h, c, b);
    DivMod(v, P(c + h));
    var e := Quo(v, P(c + h));
    if e < u {
      MulGap(e, u, P(c + h));
    }
  }

  /** A step of the division leaves the right state behind exactly if its guess was not below the
      true quotient digit. */
  lemma StepRightIff(n: int, w: int, h: nat, c: nat, b: nat)
    requires n >= 0 && Normalized(w, h) && b <= DV
    ensures var q, win, low := Quo(Quo(n, P(c + 1)), w), Window(n, w, c), Mod(n, P(c));
      DivState(Buffer(q, win, low, w, h, c, Settle(q, win, low, w, h, c, b)), n, w, h, c)
      <==> b >= Quo(win, w)
  {
    hide Mul, Quo, Mod, P, Window, DivState, Buffer, Settle;
    var q, win, low := Quo(Quo(n, P(c + 1)), w), Window(n, w, c), Mod(n, P(c));
    WindowFacts(n, w, c);
    DivMod(n, P(c));
    SettleIff(q, win, low, w, h, c, b);
    BufferToState(n, w, h, c);
    var e := Settle(q, win, low, w, h, c, b);
    BufferDistinct(q, win, low, w, h, c, e, Quo(win, w));
    StateUnique(Buffer(q, win, low, w, h, c, e), Buffer(q, win, low, w, h, c, Quo(win, w)), n, w, h, c);
  }

  lemma BufferDistinct(q: int, win: int, low: int, w: int, h: nat, c: nat, b: int, e: int)
    requires w < P(h)
    ensures Buffer(q, win, low, w, h, c, b) == Buffer(q, win, low, w, h, c, e) <==> b == e
  {
    hide Mul, P, Buffer;
    if b == e { return; }
    var x := P(h) - w;
    BufferStep(q, win, low, w, h, c, b, e - b);
    if e > b {
      MulPositive(e - b, x);
      MulPositive(Mul(e - b, x), P(c));
    } else {
      MulPositive(b - e, x);
      MulPositive(Mul(b - e, x), P(c));
      Negate(b - e, x);
      Negate(Mul(b - e, x), P(c));
    }
  }

  lemma StateUnique(v: int, u: int, n: int, w: int, h: nat, c: nat)
    ensures DivState(v, n, w, h, c) && DivState(u, n, w, h, c) ==> v == u
  {
  }

  /** The true quotient digit at c. */
  ghost function TrueDigit(n: int, w: int, c: nat): int
    requires w > 0
  {
    Quo(Window(n, w, c), w)
  }

  /** The digit the step at c settles on if the digits above it are right. */
  ghost function Settled(est: Estimator, n: int, w: int, h: nat, c: nat): int
    requires w > 0 && h > 0
  {
    var g := Trial(est, Window(n, w, c), w, h);
    if g < 0 then g else Settle(Quo(Quo(n, P(c + 1)), w), Window(n, w, c), Mod(n, P(c)), w, h, c, g)
  }

  /** The digits b that a division into k digits settles on.  Nothing is said of a step below a
      wrong digit. */
  ghost predicate Run(est: Estimator, n: int, w: int, h: nat, k: nat, b: Store)
    requires w > 0 && h > 0
  {
    Defined(b, 0, k) &&
    forall c: nat :: c < k && RightAbove(n, w, k, b, c + 1) ==> b[c] == Settled(est, n, w, h, c)
  }

  ghost predicate RightAbove(n: int, w: int, k: nat, b: Store, c: nat)
    requires w > 0 && Defined(b, 0, k)
  {
    forall i :: c <= i < k ==> b[i] == TrueDigit(n, w, i)
  }

  /** The buffer that starts as v, once the digits from k - 1 down to c have been tried: each adds
      its multiple of the divisor's complement. */
  ghost function Tried(v: int, w: int, h: nat, b: Store, c: nat, k: nat): int
    requires c <= k && Defined(b, 0, k)
    decreases k - c
  {
    if c == k then v else Tried(v, w, h, b, c + 1, k) + Mul(Mul(b[c], P(h) - w), P(c))
  }

  lemma {:induction false} TriedSum(v: int, w: int, h: nat, b: Store, c: nat, k: nat)
    requires c <= k && Defined(b, 0, k)
    requires Defined(b, 0, c)
    ensures Tried(v, w, h, b, c, k) == v + Mul(S(b, 0, k) - S(b, 0, c), P(h) - w)
    decreases k - c
  {
    hide Mul, P;
    var x := P(h) - w;
    if c == k {
      Units(x);
    } else {
      TriedSum(v, w, h, b, c + 1, k);
      Associate(b[c], x, P(c));
      Commute(x, P(c));
      Associate(b[c], P(c), x);
      Distribute(S(b, 0, k) - S(b, 0, c), S(b, 0, k) - S(b, 0, c + 1), Mul(b[c], P(c)), x);
    }
  }

  /** With the true digits every state on the way is right. */
  lemma {:induction false} TrueDigitsRight(v: int, n: int, w: int, h: nat, b: Store, c: nat, k: nat)
    requires c <= k && Defined(b, 0, k) && n >= 0 && w > 0 && DivState(v, n, w, h, k) && RightAbove(n, w, k, b, c)
    ensures DivState(Tried(v, w, h, b, c, k), n, w, h, c)
    decreases k - c
  {
    hide Mul, Quo, Mod, P, Window, DivState, Buffer;
    if c < k {
      TrueDigitsRight(v, n, w, h, b, c + 1, k);
      var u := Tried(v, w, h, b, c + 1, k);
      StateToBuffer(u, n, w, h, c);
      BufferStep(Quo(Quo(n, P(c + 1)), w), Window(n, w, c), Mod(n, P(c)), w, h, c, 0, b[c]);
      BufferToState(n, w, h, c);
    }
  }

  /** The digits settled on are right exactly if no guess was too low. */
  lemma RunDigits(est: Estimator, n: int, w: int, h: nat, k: nat, b: Store)
    requires n >= 0 && Normalized(w, h) && Run(est, n, w, h, k, b)
    requires forall c: nat :: c < k ==> 0 <= Trial(est, Window(n, w, c), w, h) <= DV
    ensures RightAbove(n, w, k, b, 0)
      <==> forall c: nat :: c < k ==> TrueDigit(n, w, c) <= Trial(est, Window(n, w, c), w, h)
  {
    hide Mul, Quo, Mod, P, Window, Trial, Settle, TrueDigit;
    forall c: nat | c < k ensures Settled(est, n, w, h, c) == TrueDigit(n, w, c)
        <==> TrueDigit(n, w, c) <= Trial(est, Window(n, w, c), w, h) {
      SettledIff(est, n, w, h, c);
    }
    if RightAbove(n, w, k, b, 0) {
      forall c: nat | c < k ensures TrueDigit(n, w, c) <= Trial(est, Window(n, w, c), w, h) {
        assert RightAbove(n, w, k, b, c + 1);
      }
    } else if forall c: nat :: c < k ==> TrueDigit(n, w, c) <= Trial(est, Window(n, w, c), w, h) {
      RunRight(est, n, w, h, k, b, 0);
    }
  }

  lemma SettledIff(est: Estimator, n: int, w: int, h: nat, c: nat)
    requires n >= 0 && Normalized(w, h) && 0 <= Trial(est, Window(n, w, c), w, h) <= DV
    ensures Settled(est, n, w, h, c) == TrueDigit(n, w, c)
      <==> TrueDigit(n, w, c) <= Trial(est, Window(n, w, c), w, h)
  {
    hide Mul, Quo, Mod, P, Window, Trial, Settle;
    WindowFacts(n, w, c);
    DivMod(n, P(c));
    SettleIff(Quo(Quo(n, P(c + 1)), w), Window(n, w, c), Mod(n, P(c)), w, h, c, Trial(est, Window(n, w, c), w, h));
  }

  lemma {:induction false} RunRight(est: Estimator, n: int, w: int, h: nat, k: nat, b: Store, c: nat)
    requires c <= k && w > 0 && h > 0 && Run(est, n, w, h, k, b)
    requires forall i: nat :: i < k ==> Settled(est, n, w, h, i) == TrueDigit(n, w, i)
    ensures RightAbove(n, w, k, b, c)
    decreases k - c
  {
    hide Settled, TrueDigit;
    if c < k {
      RunRight(est, n, w, h, k, b, c + 1);
    }
  }

  /** A whole division ends in the right state, and with proper digits, exactly if none of its guesses
      was too low.  Only an improper digit can make up for one that is too low. */
  lemma DivisionRightIff(est: Estimator, v: int, n: int, w: int, h: nat, k: nat, b: Store)
    requires n >= 0 && Normalized(w, h) && DivState(v, n, w, h, k) && Run(est, n, w, h, k, b)
    requires forall c: nat :: c < k ==> 0 <= Trial(est, Window(n, w, c), w, h) <= DV
    ensures InRange(b, 0, k) && DivState(Tried(v, w, h, b, 0, k), n, w, h, 0)
      <==> forall c: nat :: c < k ==> TrueDigit(n, w, c) <= Trial(est, Window(n, w, c), w, h)
  {
    hide Mul, Quo, Mod, P, Window, Trial, DivState, Settled, S, TrueDigit;
    RunDigits(est, n, w, h, k, b);
    if RightAbove(n, w, k, b, 0) {
      TrueDigitsRight(v, n, w, h, b, 0, k);
      forall i | 0 <= i < k ensures i in b && 0 <= b[i] < DV {
        ProperTrueDigit(n, w, i);
      }
    } else if InRange(b, 0, k) && DivState(Tried(v, w, h, b, 0, k), n, w, h, 0) {
      RightDigits(v, n, w, h, b, k);
    }
  }

  lemma ProperTrueDigit(n: int, w: int, c: nat)
    requires n >= 0 && w > 0
    ensures 0 <= TrueDigit(n, w, c) < DV
  {
    hide Mul, Quo, Mod, P, Window;
    WindowFacts(n, w, c);
    TrueDigitBound(Window(n, w, c), w);
  }

  /** Proper digits that end in the right state are the true ones. */
  lemma RightDigits(v: int, n: int, w: int, h: nat, b: Store, k: nat)
    requires n >= 0 && Normalized(w, h) && DivState(v, n, w, h, k) && InRange(b, 0, k)
    requires DivState(Tried(v, w, h, b, 0, k), n, w, h, 0)
    ensures RightAbove(n, w, k, b, 0)
  {
    hide Mul, Quo, Mod, P, Window, DivState, S, TrueDigit;
    var e: Store := map i | 0 <= i < k :: TrueDigit(n, w, i);
    forall i | 0 <= i < k ensures 0 <= e[i] < DV {
      ProperTrueDigit(n, w, i);
    }
    TrueDigitsRight(v, n, w, h, e, 0, k);
    StateUnique(Tried(v, w, h, b, 0, k), Tried(v, w, h, e, 0, k), n, w, h, 0);
    TriedSum(v, w, h, b, 0, k);
    TriedSum(v, w, h, e, 0, k);
    SEmpty(b, 0);
    SEmpty(e, 0);
    SameSum(S(b, 0, k), S(e, 0, k), P(h) - w);
    SUnique(b, e, k);
  }

  lemma SameSum(x: int, y: int, p: int)
    requires p > 0
    ensures Mul(x, p) == Mul(y, p) <==> x == y
  {
    hide Mul;
    if x < y { MulGap(x, y, p); }
    if y < x { MulGap(y, x, p); }
  }
}
