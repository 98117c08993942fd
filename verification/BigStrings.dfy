/** Big integers read from and written as text in the bases 2, 4, 8, 16 and 32, whose digits straddle
    the 26-bit digits of the number. */
module BigStrings {
  import opened JsNumber
  import opened Ring
  import opened Digits
  import opened SignedDigits
  import opened BigIntegers

  /** A character as the reader sees it: the value of a digit, a minus sign, or anything else. */
  datatype Sym = Digit(g: nat) | Minus | Other

  /** The bits of a digit in each base. */
  predicate DigitBits(h: nat) {
    1 <= h <= 5
  }

  /** The number that digits write, the highest first. */
  function Read(f: seq<Sym>, h: nat): nat {
    if f == [] then 0
    else
      var last := f[|f| - 1];
      if last.Digit? then Mul(Read(f[..|f| - 1], h), Pow2(h)) + last.g else Read(f[..|f| - 1], h)
  }

  /** How many digits there are. */
  function DigitCount(f: seq<Sym>): nat {
    if f == [] then 0 else DigitCount(f[..|f| - 1]) + if f[|f| - 1].Digit? then 1 else 0
  }

  /** A minus sign counts if no digit comes before it. */
  predicate IsNegative(f: seq<Sym>) {
    f != [] && (f[0].Minus? || (f[0].Other? && IsNegative(f[1..])))
  }

  /** The integer a text is read as. */
  function ReadInteger(f: seq<Sym>, h: nat): int {
    var n: int := Read(f, h);
    if IsNegative(f) then -n else n
  }

  /** Every digit is one of the base. */
  predicate InBase(f: seq<Sym>, h: nat) {
    forall i :: 0 <= i < |f| && f[i].Digit? ==> f[i].g < Pow2(h)
  }

  // Reading

  /** The number of bits held: c of the top digit, or all of it when c is 0. */
  function BitsHeld(t: nat, c: nat): (n: nat)
    requires c > 0 ==> t > 0
  {
    if c == 0 then 26 * t else 26 * (t - 1) + c
  }

  /** A number being filled from below: its digits make v, and the top one has c bits so far. */
  ghost predicate Filling(d: Store, t: int, c: nat, v: int) {
    && t >= 0 && c < 26 && InRange(d, 0, t) && S(d, 0, t) == v
    && (c > 0 ==> t > 0 && d[t - 1] < Pow2(c))
  }

  lemma WeightOfTop(t: nat, c: nat)
    requires c > 0 ==> t > 0
    ensures Pow2(BitsHeld(t, c)) == if c == 0 then P(t) else Mul(Pow2(c), P(t - 1))
  {
    hide Mul, P, Pow2;
    if c == 0 {
      PIsPow2(t);
    } else {
      PIsPow2(t - 1);
      Pow2Add(c, 26 * (t - 1));
    }
  }

  lemma Pow2Bound(h: nat)
    requires h <= 26
    ensures Pow2(h) <= 0x400_0000
  {
    Pow2Values();
    Pow2Monotone(h, 26);
  }

  /** A digit that starts a new digit of the number. */
  lemma PushNew(d: Store, t: nat, v: int, g: nat, h: nat)
    requires Filling(d, t, 0, v) && DigitBits(h) && g < Pow2(h)
    ensures Filling(d[t := g], t + 1, h, v + Mul(g, Pow2(BitsHeld(t, 0))))
  {
    hide Mul, P, S, Pow2;
    var e := d[t := g];
    Pow2Bound(h);
    SFrame(d, 0, e, 0, t);
    SLast(e, 0, t);
    WeightOfTop(t, 0);
  }

  /** A digit that fits into the top digit. */
  lemma PushWithin(d: Store, t: nat, c: nat, v: int, g: nat, h: nat)
    requires Filling(d, t, c, v) && c > 0 && DigitBits(h) && g < Pow2(h) && c + h <= 26
    ensures 0 <= Mul(g, Pow2(c))
    ensures var x := Or(d[t - 1], Mul(g, Pow2(c)));
      && x == d[t - 1] + Mul(g, Pow2(c)) && x < Pow2(c + h) <= 0x400_0000
      && InRange(d[t - 1 := x], 0, t)
      && S(d[t - 1 := x], 0, t) == v + Mul(g, Pow2(BitsHeld(t, c)))
  {
    hide Mul, P, S, Pow2, Or;
    var y := d[t - 1];
    MulLe(0, g, Pow2(c));
    Units(Pow2(c));
    OrDisjoint(Mul(g, Pow2(c)), y, g, c);
    Pow2Add(h, c);
    MulGap(g, Pow2(h), Pow2(c));
    Pow2Bound(c + h);
    var x := y + Mul(g, Pow2(c));
    SUpdate(d, t, t - 1, x);
    WeightOfTop(t, c);
    Associate(g, Pow2(c), P(t - 1));
  }

  /** A digit that straddles two: its low bits fill the top digit, and the others start the next. */
  lemma PushAcross(d: Store, t: nat, c: nat, v: int, g: nat, h: nat)
    requires Filling(d, t, c, v) && c > 0 && DigitBits(h) && g < Pow2(h) && c + h > 26
    ensures Exact(g) && Int32(g) && 0 <= Mul(Low(g, 26 - c), Pow2(c))
    ensures var x := Or(d[t - 1], Mul(Low(g, 26 - c), Pow2(c)));
      && x == d[t - 1] + Mul(Low(g, 26 - c), Pow2(c))
      && Filling(d[t - 1 := x][t := Asr(g, 26 - c)], t + 1, c + h - 26, v + Mul(g, Pow2(BitsHeld(t, c))))
  {
    hide Mul, P, S, Pow2, Or, Low, Asr, Quo, Mod;
    var k := 26 - c;
    Pow2Bound(h);
    SplitBits(g, k);
    var lo, hi := Low(g, k), Asr(g, k);
    HighPart(g, h, k);
    MulLe(0, lo, Pow2(c));
    Units(Pow2(c));
    OrDisjoint(Mul(lo, Pow2(c)), d[t - 1], lo, c);
    Pow2Add(k, c);
    MulGap(lo, Pow2(k), Pow2(c));
    Pow2Values();
    var x := d[t - 1] + Mul(lo, Pow2(c));
    var e := d[t - 1 := x];
    SUpdate(d, t, t - 1, x);
    var r := e[t := hi];
    SFrame(e, 0, r, 0, t);
    SLast(r, 0, t);
    Pow2Bound(c + h - 26);
    AcrossValue(lo, hi, g, c, t);
  }

  lemma HighPart(g: nat, h: nat, k: nat)
    requires g < Pow2(h) && k <= h <= 26 && k <= 31 && Pow2(h) <= 0x400_0000
    ensures 0 <= Asr(g, k) < Pow2(h - k)
  {
    hide Quo, Pow2;
    QuoPow2Bounds(g, h - k, k);
  }

  lemma AcrossValue(lo: int, hi: int, g: int, c: nat, t: nat)
    requires 0 < c < 26 && t > 0 && g == Mul(hi, Pow2(26 - c)) + lo
    ensures Mul(Mul(lo, Pow2(c)), P(t - 1)) + Mul(hi, P(t)) == Mul(g, Pow2(BitsHeld(t, c)))
  {
    hide Mul, P, Pow2;
    WeightOfTop(t, c);
    var w := Mul(Pow2(c), P(t - 1));
    Associate(lo, Pow2(c), P(t - 1));
    Pow2Add(26 - c, c);
    Pow2Values();
    PNext(t - 1);
    Scale(1, P(t - 1));
    Associate(Pow2(26 - c), Pow2(c), P(t - 1));
    Associate(hi, Pow2(26 - c), w);
    Distribute(g, Mul(hi, Pow2(26 - c)), lo, w);
  }

  /** One digit is put above the bits held. */
  method PushDigit(x: BigInteger, g: nat, h: nat, c: nat, ghost v: int) returns (next: nat)
    requires Filling(x.d, x.t, c, v) && DigitBits(h) && g < Pow2(h)
    modifies x
    ensures x.s == old(x.s) && Filling(x.d, x.t, next, v + Mul(g, Pow2(BitsHeld(old(x.t), c))))
    ensures (next > 0 ==> x.t > 0) && BitsHeld(x.t, next) == BitsHeld(old(x.t), c) + h
  {
    hide Mul, P, S, Pow2, Or, Low, Asr;
    Pow2Bound(h);
    next := c + h;
    if c == 0 {
      PushNew(x.d, x.t, v, g, h);
      x.d := x.d[x.t := g];
      x.t := x.t + 1;
    } else if c + h > 26 {
      PushAcross(x.d, x.t, c, v, g, h);
      x.d := x.d[x.t - 1 := Or(x.d[x.t - 1], Mul(Low(g, 26 - c), Pow2(c)))];
      x.t := x.t + 1;
      x.d := x.d[x.t - 1 := Asr(g, 26 - c)];
    } else {
      PushWithin(x.d, x.t, c, v, g, h);
      Shifted(g, h, c);
      x.d := x.d[x.t - 1 := Or(x.d[x.t - 1], Shl(g, c))];
    }
    if next >= 26 {
      next := next - 26;
    }
  }

  lemma Shifted(g: nat, h: nat, c: nat)
    requires g < Pow2(h) && c + h <= 26
    ensures Int32(Mul(g, Pow2(c)))
  {
    hide Mul, Pow2;
    MulLe(0, g, Pow2(c));
    Units(Pow2(c));
    Pow2Add(h, c);
    MulLe(g, Pow2(h), Pow2(c));
    Pow2Bound(c + h);
  }

  /** What a character at the front adds. */
  lemma {:induction false} ReadFront(f: seq<Sym>, h: nat)
    requires f != []
    ensures DigitCount(f) == DigitCount(f[1..]) + if f[0].Digit? then 1 else 0
    ensures Read(f, h) ==
      Read(f[1..], h) + if f[0].Digit? then Mul(f[0].g, Pow2(h * DigitCount(f[1..]))) else 0
    decreases |f|
  {
    hide Mul, Pow2;
    var n := |f| - 1;
    var front, tail := f[..n], f[1..];
    Units(Pow2(h));
    if n == 0 {
      assert front == [] && tail == [];
      FirstDigit(f[0]);
    } else {
      ReadFront(front, h);
      assert front[1..] == tail[..n - 1] && front[0] == f[0] && tail[n - 1] == f[n];
      if f[n].Digit? {
        var k := DigitCount(front[1..]);
        var g := if f[0].Digit? then f[0].g else 0;
        TimesNext(h, k);
        Pow2Add(h * k, h);
        Associate(g, Pow2(h * k), Pow2(h));
        Units(Pow2(h * k));
        Distribute(Read(front, h), Read(front[1..], h), Mul(g, Pow2(h * k)), Pow2(h));
        Units(Pow2(h * (k + 1)));
      }
    }
  }

  lemma TimesNext(h: nat, k: nat)
    ensures h * (k + 1) == h * k + h
  {
  }

  lemma FirstDigit(s: Sym)
    ensures s.Digit? ==> Mul(s.g, Pow2(0)) == s.g
  {
    Units(if s.Digit? then s.g else 0);
  }

  /** Reads a text into a number; characters that are no digits are passed over. */
  method FromString(x: BigInteger, f: seq<Sym>, h: nat)
    requires DigitBits(h) && InBase(f, h)
    modifies x
    ensures x.Valid() && x.Value() == ReadInteger(f, h)
  {
    hide Mul, P, S, Pow2, Read, DigitCount;
    x.t := 0;
    x.s := 0;
    var d, a := |f|, false;
    var c: nat := 0;
    SEmpty(x.d, 0);
    NothingRead(h);
    assert f[|f|..] == [];
    while d > 0
      invariant 0 <= d <= |f| && x.s == 0 && a == IsNegative(f[d..])
      invariant Filling(x.d, x.t, c, Read(f[d..], h)) && (c > 0 ==> x.t > 0)
      invariant BitsHeld(x.t, c) == h * DigitCount(f[d..])
    {
      d := d - 1;
      ghost var u := f[d..];
      assert u[1..] == f[d + 1..] && u[0] == f[d];
      ReadFront(u, h);
      TimesNext(h, DigitCount(u[1..]));
      match f[d]
      case Minus => a := true;
      case Other =>
      case Digit(g) =>
        a := false;
        c := PushDigit(x, g, h, c, Read(u[1..], h));
    }
    assert f[0..] == f;
    NumNonNegative(x.d, x.t);
    x.Clamp();
    x.NegateWhen(a);
  }

  lemma NothingRead(h: nat)
    ensures Read([], h) == 0 && DigitCount([]) == 0 && h * 0 == 0
  {
  }

  // Writing

  /** The digits of a number, without leading zeros. */
  function Written(n: nat, h: nat): (f: seq<Sym>)
    requires h > 0
    ensures f != []
    decreases n
  {
    Pow2AtLeast(h);
    QuoBelow(n, h);
    if n < Pow2(h) then [Digit(n)] else Written(Quo(n, Pow2(h)), h) + [Digit(Mod(n, Pow2(h)))]
  }

  lemma Pow2AtLeast(h: nat)
    requires h > 0
    ensures Pow2(h) >= 2
  {
  }

  lemma QuoBelow(n: nat, h: nat)
    requires h > 0
    ensures 0 <= Mod(n, Pow2(h)) < Pow2(h)
    ensures n >= Pow2(h) ==> 0 < Quo(n, Pow2(h)) < n
  {
    hide Mul, Quo, Mod;
    Pow2AtLeast(h);
    DivMod(n, Pow2(h));
    var q := Quo(n, Pow2(h));
    if n >= Pow2(h) {
      if q <= 0 {
        MulLe(q, 0, Pow2(h));
        Units(Pow2(h));
      }
      MulLe(2, Pow2(h), q);
      Commute(2, q);
      Double(q);
    }
  }

  lemma Double(q: int)
    ensures Mul(2, q) == 2 * q && Mul(q, 2) == 2 * q
  {
  }

  /** The text of an integer. */
  function WrittenInteger(v: int, h: nat): seq<Sym>
    requires h > 0
  {
    if v < 0 then [Minus] + Written(-v, h) else Written(v, h)
  }

  /** Reading undoes writing. */
  lemma {:induction false} ReadWritten(n: nat, h: nat)
    requires h > 0
    ensures Read(Written(n, h), h) == n && InBase(Written(n, h), h)
    ensures Written(n, h)[0].Digit? && (n > 0 ==> Written(n, h)[0].g > 0)
    decreases n
  {
    hide Mul, Quo, Mod, Pow2;
    QuoBelow(n, h);
    var f := Written(n, h);
    if n < Pow2(h) {
      assert f[..0] == [];
      Units(Pow2(h));
      NothingRead(h);
    } else {
      ReadWritten(Quo(n, Pow2(h)), h);
      DivMod(n, Pow2(h));
      assert f[..|f| - 1] == Written(Quo(n, Pow2(h)), h);
    }
  }

  /** So the text of an integer is read as that integer, and starts with no zero but its own. */
  lemma ReadWrittenInteger(v: int, h: nat)
    requires h > 0
    ensures ReadInteger(WrittenInteger(v, h), h) == v && InBase(WrittenInteger(v, h), h)
  {
    hide Mul, Pow2, Written, Read;
    ReadWritten(if v < 0 then -v else v, h);
    if v < 0 {
      var w := Written(-v, h);
      var f := [Minus] + w;
      assert f[1..] == w;
      ReadFront(f, h);
    }
  }

  /** Dropping low bits of a number whose upper part starts higher. */
  lemma ShiftSum(x: int, y: int, j: nat, k: nat)
    ensures Quo(x + Mul(y, Pow2(j + k)), Pow2(j)) == Quo(x, Pow2(j)) + Mul(y, Pow2(k))
  {
    hide Mul, Quo, Mod, Pow2;
    DivMod(x, Pow2(j));
    Pow2Add(k, j);
    Associate(y, Pow2(k), Pow2(j));
    var q := Quo(x, Pow2(j));
    Distribute(q + Mul(y, Pow2(k)), q, Mul(y, Pow2(k)), Pow2(j));
    DivUnique(x + Mul(y, Pow2(j + k)), Pow2(j), q + Mul(y, Pow2(k)), Mod(x, Pow2(j)));
  }

  lemma ModSum(x: int, y: int, c: nat, k: nat)
    requires c <= k
    ensures Mod(x + Mul(y, Pow2(k)), Pow2(c)) == Mod(x, Pow2(c))
  {
    hide Mul, Quo, Mod, Pow2;
    DivMod(x, Pow2(c));
    Pow2Add(k - c, c);
    Associate(y, Pow2(k - c), Pow2(c));
    var q, z := Quo(x, Pow2(c)), Mul(y, Pow2(k - c));
    Distribute(q + z, q, z, Pow2(c));
    DivUnique(x + Mul(y, Pow2(k)), Pow2(c), q + z, Mod(x, Pow2(c)));
  }

  /** The number from bit 26 h + j on, from its digits. */
  lemma FromBit(d: Store, t: nat, h: nat, j: nat)
    requires h < t && InRange(d, 0, t) && j <= 26
    ensures Quo(S(d, 0, t), Pow2(26 * h + j))
         == Quo(d[h], Pow2(j)) + Mul(S(d, h + 1, t - h - 1), Pow2(26 - j))
  {
    hide Mul, Quo, Mod, P, S, Pow2;
    var v := S(d, 0, t);
    SDivMod(d, t, h);
    PIsPow2(h);
    Pow2Add(26 * h, j);
    QuoQuo(v, Pow2(26 * h), Pow2(j));
    SLow(d, h, t - h);
    Pow2Values();
    var r := S(d, h + 1, t - h - 1);
    Scale(1, r);
    Commute(0x400_0000, r);
    ShiftSum(d[h], r, j, 26 - j);
  }

  /** A digit of the text that lies within one digit of the number. */
  lemma WithinDigit(d: Store, t: nat, h: nat, a: nat, c: nat)
    requires h < t && InRange(d, 0, t) && c <= a <= 26
    ensures Mod(Quo(S(d, 0, t), Pow2(26 * h + a - c)), Pow2(c)) == Mod(Quo(d[h], Pow2(a - c)), Pow2(c))
  {
    hide Mul, Quo, Mod, P, S, Pow2;
    FromBit(d, t, h, a - c);
    ModSum(Quo(d[h], Pow2(a - c)), S(d, h + 1, t - h - 1), c, 26 - (a - c));
  }

  /** A digit of the text that takes the lowest bits of one digit of the number and the highest of the
      digit below. */
  lemma AcrossDigits(d: Store, t: nat, h: nat, a: nat, c: nat)
    requires 0 < h < t && InRange(d, 0, t) && 0 < a < c <= 5
    ensures var lo, hi := Mod(d[h], Pow2(a)), Quo(d[h - 1], Pow2(26 + a - c));
      && 0 <= lo < Pow2(a) && 0 <= hi < Pow2(c - a)
      && Mod(Quo(S(d, 0, t), Pow2(26 * h + a - c)), Pow2(c)) == Mul(lo, Pow2(c - a)) + hi
  {
    hide Mul, Quo, Mod, P, S, Pow2;
    var j := 26 + a - c;
    var lo, hi := Mod(d[h], Pow2(a)), Quo(d[h - 1], Pow2(j));
    Pow2Values();
    QuoPow2Bounds(d[h - 1], c - a, j);
    FromBit(d, t, h - 1, j);
    SLow(d, h, t - h);
    var r := S(d, h + 1, t - h - 1);
    var y := S(d, h, t - h);
    Scale(1, r);
    Commute(0x400_0000, r);
    ModSum(d[h], r, a, 26);
    DivMod(y, Pow2(a));
    DivMod(d[h], Pow2(a));
    var y1 := Quo(y, Pow2(a));
    AcrossSum(y, y1, lo, hi, a, c);
  }

  lemma AcrossSum(y: int, y1: int, lo: int, hi: int, a: nat, c: nat)
    requires a < c && y == Mul(y1, Pow2(a)) + lo && 0 <= lo < Pow2(a) && 0 <= hi < Pow2(c - a)
    ensures Mod(hi + Mul(y, Pow2(c - a)), Pow2(c)) == Mul(lo, Pow2(c - a)) + hi
  {
    hide Mul, Quo, Mod, Pow2;
    Distribute(y, Mul(y1, Pow2(a)), lo, Pow2(c - a));
    Associate(y1, Pow2(a), Pow2(c - a));
    Pow2Add(a, c - a);
    MulLe(0, lo, Pow2(c - a));
    Units(Pow2(c - a));
    MulGap(lo, Pow2(a), Pow2(c - a));
    DivUnique(hi + Mul(y, Pow2(c - a)), Pow2(c), y1, Mul(lo, Pow2(c - a)) + hi);
  }

  /** What has been written once the bits from `pos` on have been looked at. */
  ghost function WrittenFrom(v: nat, pos: nat, c: nat): seq<Sym>
    requires c > 0
  {
    var q := Quo(v, Pow2(pos));
    if q > 0 then Written(q, c) else []
  }

  /** The next digit is written behind, or left out while it is a leading zero. */
  lemma WriteNext(v: nat, pos: nat, c: nat, f: nat)
    requires 0 < c <= pos && f == Mod(Quo(v, Pow2(pos - c)), Pow2(c))
    ensures WrittenFrom(v, pos - c, c)
      == if WrittenFrom(v, pos, c) != [] || f > 0 then WrittenFrom(v, pos, c) + [Digit(f)] else []
  {
    hide Mul, Mod, Pow2, Quo;
    var q := Quo(v, Pow2(pos - c));
    Pow2Add(pos - c, c);
    QuoQuo(v, Pow2(pos - c), Pow2(c));
    QuoOf(v, pos - c);
    QuoOf(q, c);
    DivMod(q, Pow2(c));
    Units(Pow2(c));
    if q < Pow2(c) {
      DivUnique(q, Pow2(c), 0, q);
    } else {
      QuoBelow(q, c);
    }
  }

  lemma QuoOf(v: nat, k: nat)
    ensures Quo(v, Pow2(k)) >= 0
  {
    hide Mul, Mod, Pow2, Quo;
    DivMod(v, Pow2(k));
    var q := Quo(v, Pow2(k));
    if q < 0 {
      MulLe(q, -1, Pow2(k));
      Units(Pow2(k));
    }
  }

  /** The highest bits, fewer than a digit of the text. */
  lemma WriteFirst(d: Store, t: nat, a: nat, c: nat)
    requires t > 0 && InRange(d, 0, t) && 26 - c < a <= 26 && DigitBits(c)
    ensures S(d, 0, t) >= 0 && Quo(d[t - 1], Pow2(a)) >= 0
    ensures WrittenFrom(S(d, 0, t), 26 * (t - 1) + a, c)
      == if Quo(d[t - 1], Pow2(a)) > 0 then [Digit(Quo(d[t - 1], Pow2(a)))] else []
    ensures a == 26 ==> Quo(d[t - 1], Pow2(a)) == 0
  {
    hide Mul, Quo, Mod, P, S, Pow2;
    SBound(d, 0, t);
    SEmpty(d, t);
    FromBit(d, t, t - 1, a);
    Units(Pow2(26 - a));
    Pow2Values();
    QuoPow2Bounds(d[t - 1], 26 - a, a);
    Pow2Monotone(26 - a, c);
    NoShift();
  }

  lemma NoShift()
    ensures Pow2(0) == 1
  {
  }

  /** One digit of the text: from within the current digit of the number, or across the one below. */
  method NextDigit(x: BigInteger, h: int, a: int, c: nat, ghost k: nat) returns (f: nat, hh: int, aa: int)
    requires DigitBits(c) && x.Digits() && x.s == 0 && 0 <= h < x.t && 0 < a <= 26
    requires Mul(k, c) == 26 * h + a && S(x.d, 0, x.t) >= 0
    ensures 26 * h + a >= c && 26 * hh + aa == 26 * h + a - c && -1 <= hh <= h && 0 < aa <= 26
    ensures f == Mod(Quo(S(x.d, 0, x.t), Pow2(26 * h + a - c)), Pow2(c))
  {
    hide Mul, Quo, Mod, P, S, Pow2, Or;
    EnoughBits(k, c, h, a);
    hh, aa := h, a;
    if a < c {
      AcrossDigits(x.d, x.t, h, a, c);
      var lo := Low(x.d[h], a);
      MulLe(0, lo, Pow2(c - a));
      Units(Pow2(c - a));
      hh := h - 1;
      aa := a + 26 - c;
      var hi := Asr(x.d[hh], aa);
      OrDisjoint(Mul(lo, Pow2(c - a)), hi, lo, c - a);
      LowShifted(lo, a, c);
      f := Or(Shl(lo, c - a), hi);
    } else {
      WithinDigit(x.d, x.t, h, a, c);
      aa := a - c;
      DivMod(Asr(x.d[h], aa), Pow2(c));
      QuoPow2Range(x.d[h], aa);
      f := Low(Asr(x.d[h], aa), c);
      if aa <= 0 {
        aa := aa + 26;
        hh := hh - 1;
      }
    }
  }

  lemma QuoPow2Range(x: int, k: nat)
    requires 0 <= x < 0x400_0000 && k <= 26
    ensures 0 <= Quo(x, Pow2(k)) < 0x400_0000
  {
    hide Mul, Quo, Pow2;
    Pow2Values();
    QuoPow2Bounds(x, 26 - k, k);
    Pow2Monotone(26 - k, 26);
  }

  lemma EnoughBits(k: nat, c: nat, h: int, a: int)
    requires Mul(k, c) == 26 * h + a && h >= 0 && a > 0 && c > 0
    ensures k > 0 && 26 * h + a >= c
  {
    hide Mul;
    Units(c);
    if k > 0 {
      MulLe(1, k, c);
    }
  }

  lemma LowShifted(lo: int, a: nat, c: nat)
    requires 0 <= lo < Pow2(a) && a < c <= 5
    ensures Int32(Mul(lo, Pow2(c - a)))
  {
    hide Mul, Pow2;
    MulLe(0, lo, Pow2(c - a));
    Units(Pow2(c - a));
    Pow2Add(a, c - a);
    MulLe(lo, Pow2(a), Pow2(c - a));
    Pow2Bound(c);
  }

  /** The text of a number that is not negative. */
  method MagnitudeString(x: BigInteger, c: nat) returns (r: seq<Sym>)
    requires DigitBits(c) && x.Digits() && x.s == 0
    ensures x.Value() >= 0 && r == Written(x.Value(), c)
  {
    hide Mul, Quo, Mod, P, S, Pow2, Written;
    NumNonNegative(x.d, x.t);
    SBound(x.d, 0, x.t);
    ghost var v := x.Value();
    ZeroWritten(c);
    var h := x.t;
    DivMod(26 * h, c);
    var a, b := 26 - Rem(h * 26, c), false;
    ghost var k := Quo(26 * h, c);
    KeepsPositive(k, c, 26 * h);
    r := [];
    if h > 0 {
      h := h - 1;
      WriteFirst(x.d, x.t, a, c);
      if a < 26 {
        var f := Asr(x.d[h], a);
        if f > 0 {
          b := true;
          r := [Digit(f)];
        }
      }
      while h >= 0
        invariant -1 <= h < x.t && 0 < a <= 26 && k >= 0 && 26 * h + a >= 0 && Mul(k, c) == 26 * h + a
        invariant r == WrittenFrom(v, 26 * h + a, c) && b == (r != [])
        decreases 26 * h + a
      {
        ghost var pos := 26 * h + a;
        EnoughBits(k, c, h, a);
        Distribute(k, k - 1, 1, c);
        Units(c);
        var f;
        f, h, a := NextDigit(x, h, a, c, k);
        k := k - 1;
        KeepsPositive(k, c, pos - c);
        WriteNext(v, pos, c, f);
        if f > 0 {
          b := true;
        }
        if b {
          r := r + [Digit(f)];
        }
      }
      WholeWritten(v, c);
    } else {
      SEmpty(x.d, 0);
    }
    return if b then r else [Digit(0)];
  }

  lemma KeepsPositive(k: int, c: nat, n: int)
    requires c > 0
    ensures k >= 0 ==> Mul(k, c) >= 0
    ensures n >= 0 && Mul(k, c) <= n < Mul(k, c) + c ==> k >= 0
  {
    hide Mul;
    Units(c);
    if k >= 0 {
      MulLe(0, k, c);
    } else {
      MulLe(k, -1, c);
    }
  }

  lemma ZeroWritten(c: nat)
    requires c > 0
    ensures Written(0, c) == [Digit(0)]
  {
    Pow2AtLeast(c);
  }

  lemma WholeWritten(v: nat, c: nat)
    requires c > 0
    ensures WrittenFrom(v, 0, c) == if v > 0 then Written(v, c) else []
  {
    NoShift();
    assert Quo(v, 1) == v;
  }

  /** Writes a number as text. */
  method ToString(x: BigInteger, c: nat) returns (r: seq<Sym>)
    requires DigitBits(c) && x.Valid()
    ensures r == WrittenInteger(x.Value(), c)
  {
    hide Mul, P, S, Pow2, Written;
    SignOf(x.d, x.t, x.s);
    if x.s < 0 {
      var n := x.Negate();
      SignOf(n.d, n.t, n.s);
      var m := MagnitudeString(n, c);
      return [Minus] + m;
    }
    r := MagnitudeString(x, c);
  }
}
