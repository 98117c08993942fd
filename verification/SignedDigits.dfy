/** Signed numbers over a digit store, and what each in-place loop of the library has achieved
    when it has processed some of the digits. */
module SignedDigits {
  import opened JsNumber
  import opened Ring
  import opened Digits
  import opened Division

  /** The number denoted by t digits and a sign word s that stands for all digits above them:
      s == -1 makes the digits the two's complement form of a negative number. */
  ghost function Num(d: Store, t: nat, s: int): int
    requires Defined(d, 0, t)
  {
    S(d, 0, t) + Mul(s, P(t))
  }

  /** The digit that the sign word repeats above the stored digits. */
  function SignDigit(s: int): int {
    if s == 0 then 0 else DM
  }

  ghost predicate Clamped(d: Store, t: nat, s: int) {
    t > 0 ==> t - 1 in d && d[t - 1] != SignDigit(s)
  }

  lemma NumEmpty(d: Store, s: int)
    ensures Num(d, 0, s) == s
  {
    Units(s);
    assert P(0) == 1 && S(d, 0, 0) == 0;
  }

  lemma NumNonNegative(d: Store, t: nat)
    requires Defined(d, 0, t)
    ensures Num(d, t, 0) == S(d, 0, t)
  {
    Units(P(t));
  }

  lemma SignOf(d: Store, t: nat, s: int)
    requires InRange(d, 0, t) && (s == 0 || s == -1)
    ensures s == 0 <==> Num(d, t, s) >= 0
    ensures -P(t) <= Num(d, t, s) < P(t)
  {
    hide Mul, S, P;
    SBound(d, 0, t);
    Units(P(t));
  }

  /** A clamped number of t digits is too large for t - 1 digits. */
  lemma ClampedMagnitude(d: Store, t: nat, s: int)
    requires InRange(d, 0, t) && (s == 0 || s == -1) && Clamped(d, t, s) && t > 0
    ensures s == 0 ==> Num(d, t, s) >= P(t - 1)
    ensures s == -1 ==> Num(d, t, s) < -P(t - 1)
  {
    hide Mul;
    Units(P(t));
    if s == 0 {
      STop(d, t);
    } else {
      SBound(d, 0, t - 1);
      MulGap(d[t - 1], 0x3ff_ffff, P(t - 1));
      Distribute(0x400_0000, 0x3ff_ffff, 1, P(t - 1));
      Units(P(t - 1));
      Scale(1, P(t - 1));
    }
  }

  /** Dropping a top digit that only repeats the sign. */
  lemma DropSignDigit(d: Store, t: nat, s: int)
    requires t > 0 && Defined(d, 0, t) && (s == 0 || s == -1) && d[t - 1] == SignDigit(s)
    ensures Num(d, t - 1, s) == Num(d, t, s)
  {
    hide Mul;
    Units(P(t - 1));
    Units(P(t));
    Distribute(0x400_0000, 0x3ff_ffff, 1, P(t - 1));
    Scale(1, P(t - 1));
  }

  /** The first difference from the top decides the order of two numbers of equal length. */
  lemma CompareAt(d: Store, e: Store, t: nat, c: nat)
    requires c < t && InRange(d, 0, t) && InRange(e, 0, t)
    requires forall i :: c < i < t ==> d[i] == e[i]
    requires d[c] < e[c]
    ensures S(d, 0, t) < S(e, 0, t)
  {
    hide Mul;
    if c == t - 1 {
      SBound(d, 0, c);
      SBound(e, 0, c);
      MulGap(d[c], e[c], P(c));
    } else {
      CompareAt(d, e, t - 1, c);
    }
  }

  /** One step of a carry loop: x is split into a digit and a signed carry. */
  lemma CarryStep(x: int, p: int)
    ensures Mul(x % 0x400_0000, p) + Mul(x / 0x400_0000, 0x400_0000 * p) == Mul(x, p)
  {
    hide Mul;
    var q, r := x / 0x400_0000, x % 0x400_0000;
    Distribute(x, 0x400_0000 * q, r, p);
    Scale(q, p);
  }

  /** One digit of a subtraction: v is the borrow c plus a digit x minus a digit y. */
  lemma SubDigits(r: Store, f: nat, c: int, x: int, y: int, v: int)
    requires Defined(r, 0, f) && v == c + x - y
    ensures S(r[f := v % 0x400_0000], 0, f + 1) + Mul(v / 0x400_0000, P(f + 1))
         == S(r, 0, f) + Mul(c, P(f)) + Mul(x, P(f)) - Mul(y, P(f))
  {
    hide Mul;
    var p := P(f);
    SFrame(r, 0, r[f := v % 0x400_0000], 0, f);
    CarryStep(v, p);
    Distribute(c + x, v, y, p);
    Distribute(c + x, c, x, p);
  }

  /** What the last carry c of a subtraction stands for. */
  lemma FinishValue(d: Store, f: nat, c: int)
    requires InRange(d, 0, f) && -2 <= c <= 1
    ensures c == -2 ==> Num(d[f := DV + c], f + 1, -1) == S(d, 0, f) + Mul(c, P(f))
    ensures c == 1 ==> Num(d[f := c], f + 1, 0) == S(d, 0, f) + Mul(c, P(f))
    ensures c == -1 || c == 0 ==> Num(d, f, c) == S(d, 0, f) + Mul(c, P(f))
  {
    hide Mul;
    Units(P(f + 1));
    if c == -2 {
      SFrame(d, 0, d[f := DV - 2], 0, f);
      Distribute(DV - 2, DV, -2, P(f));
      Scale(1, P(f));
    } else if c == 1 {
      SFrame(d, 0, d[f := 1], 0, f);
    }
  }

  /** The digits of an up-shift by j bits written so far: those from index u on have been read,
      and h is what the next digit up still lacks. */
  ghost predicate LShifted(e: Store, d: Store, t: nat, s: int, u: nat, low: nat, j: nat, h: int) {
    u <= t && Defined(d, 0, t) && InRange(e, low + u + 1, t - u)
    && Mul(Pow2(j), S(d, u, t - u) + Mul(s, P(t - u)))
       == h + 0x400_0000 * S(e, low + u + 1, t - u) + Mul(s, P(t - u + 1))
  }

  lemma LShiftStart(e: Store, d: Store, t: nat, s: int, low: nat, j: nat) returns (q: int)
    requires Defined(d, 0, t) && (s == 0 || s == -1) && j < 26
    ensures var h := if s == 0 then 0 else DV - Pow2(j);
      LShifted(e, d, t, s, t, low, j, h) && h == Mul(q, Pow2(j)) && 0 <= q < Pow2(26 - j)
  {
    hide Mul;
    Pow2Values();
    Pow2Add(26 - j, j);
    q := if s == 0 then 0 else Pow2(26 - j) - 1;
    Distribute(Pow2(26 - j), Pow2(26 - j) - 1, 1, Pow2(j));
    Units(Pow2(j));
    POne();
    Units(P(0));
    Units(P(1));
    SEmpty(d, t);
  }

  /** The high bits of digit y complete the pending digit h, its low bits are the next one. */
  lemma LShiftDigit(y: int, j: nat, h: int, q: int)
    requires j < 26 && 0 <= y < DV && h == Mul(q, Pow2(j)) && 0 <= q < Pow2(26 - j)
    ensures var x, r := Asr(y, 26 - j), Low(y, 26 - j);
      0 <= h && 0 <= x && Or(x, h) == x + h && 0 <= x + h < DV
      && 0 <= r < Pow2(26 - j) && 0 <= Mul(r, Pow2(j)) < DV
      && Mul(Pow2(j), y) == 0x400_0000 * x + Mul(r, Pow2(j))
  {
    hide Mul, Or;
    Pow2Values();
    var x, r := Asr(y, 26 - j), Low(y, 26 - j);
    SplitBits(y, 26 - j);
    assert 0 <= x < Pow2(j) by { QuoPow2Bounds(y, j, 26 - j); }
    LowBitsFit(q, 26 - j, j);
    LowBitsFit(r, 26 - j, j);
    OrDisjoint(h, x, q, j);
    Distribute(y, Mul(x, Pow2(26 - j)), r, Pow2(j));
    Associate(Pow2(j), x, Pow2(26 - j));
    Pow2Add(j, 26 - j);
    Commute(Pow2(j), r);
    Scale(1, x);
    Units(x);
  }

  /** One digit more of an up-shift. */
  lemma LShiftStep(e: Store, d: Store, t: nat, s: int, u: nat, low: nat, j: nat, h: int, x: int, r: int)
    requires u < t && LShifted(e, d, t, s, u + 1, low, j, h) && 0 <= x + h < DV
    requires Mul(Pow2(j), d[u]) == 0x400_0000 * x + r
    ensures LShifted(e[low + u + 1 := x + h], d, t, s, u, low, j, r)
  {
    hide Mul, P, S;
    var k := t - u - 1;
    var f := e[low + u + 1 := x + h];
    SFrame(e, low + u + 2, f, low + u + 2, k);
    SLow(f, low + u + 1, k + 1);
    SLow(d, u, k + 1);
    PNext(k);
    PNext(k + 1);
    Scale(s, P(k));
    Scale(s, P(k + 1));
    var y, z := S(d, u + 1, k) + Mul(s, P(k)), S(d, u, k + 1) + Mul(s, P(k + 1));
    Distribute(z, d[u], 0x400_0000 * y, Pow2(j));
    Scale(Pow2(j), y);
    Units(y);
  }

  lemma LShiftMask(s: int, j: nat)
    requires j < 26 && (s == 0 || s == -1)
    ensures -DV <= Mul(s, Pow2(j)) <= 0
    ensures 0 <= Low(Mul(s, Pow2(j)), DB) < DV
    ensures Low(Mul(s, Pow2(j)), DB) == if s == 0 then 0 else DV - Pow2(j)
  {
    hide Mul, Quo, Mod;
    Pow2Values();
    Pow2Monotone(j, 25);
    Units(DV);
    Units(Pow2(j));
    DivUnique(0, DV, 0, 0);
    DivUnique(-Pow2(j), DV, -1, DV - Pow2(j));
  }

  lemma LowBitsFit(q: int, i: nat, j: nat)
    requires 0 <= q < Pow2(i) && i + j == 26
    ensures 0 <= Mul(q, Pow2(j)) <= DV - Pow2(j)
  {
    hide Mul;
    Pow2Values();
    Pow2Add(i, j);
    MulLe(0, q, Pow2(j));
    MulGap(q, Pow2(i), Pow2(j));
    Units(Pow2(j));
  }

  lemma LShiftDone(e0: Store, e: Store, d: Store, t: nat, s: int, low: nat, j: nat, h: int, v: int)
    requires 0 <= h < DV && LShifted(e0, d, t, s, 0, low, j, h)
    requires Defined(d, 0, t) && v == Num(d, t, s)
    requires forall i :: low < i && i in e0 ==> i in e && e[i] == e0[i]
    requires forall i :: 0 <= i < low ==> i in e && e[i] == 0
    requires low in e && e[low] == h
    ensures InRange(e, 0, t + low + 1)
    ensures Num(e, t + low + 1, s) == Mul(v, Pow2(26 * low + j))
  {
    hide Mul, P, S;
    SFrame(e0, low + 1, e, low + 1, t);
    SSplit(e, 0, low, t + 1);
    SZero(e, 0, low);
    SLow(e, low, t + 1);
    PAdd(low, t + 1);
    PIsPow2(low);
    Pow2Add(26 * low, j);
    var x := Mul(Pow2(j), v);
    Distribute(x, S(e, low, t + 1), Mul(s, P(t + 1)), P(low));
    Associate(P(low), s, P(t + 1));
    Associate(P(low), Pow2(j), v);
    Commute(v, Mul(P(low), Pow2(j)));
  }

  /** The k digits from h on of a number, shifted down by j bits: e holds the quotient, its top
      digit still without the bits that come from above. */
  ghost predicate RShifted(e: Store, d: Store, h: nat, k: nat, j: nat) {
    k > 0 && j < 26 && Defined(d, h, k) && InRange(e, 0, k) && e[k - 1] < Pow2(26 - j)
    && 0 <= S(d, h, k) - Mul(Pow2(j), S(e, 0, k)) < Pow2(j)
  }

  lemma RShiftStart(e: Store, d: Store, h: nat, j: nat)
    requires j < 26 && h in d && 0 <= d[h] < DV
    ensures RShifted(e[0 := Asr(d[h], j)], d, h, 1, j)
  {
    hide Mul, Asr;
    Pow2Values();
    var x := Asr(d[h], j);
    SplitBits(d[h], j);
    RShiftDigit(d[h], j, 0);
    Pow2Monotone(26 - j, 26);
    SOne(e[0 := x], 0);
    SOne(d, h);
    Commute(x, Pow2(j));
  }

  /** Digit y gives its high bits x to one digit, and its low bits to the digit below, pending p. */
  lemma RShiftDigit(y: int, j: nat, p: int)
    requires j < 26 && 0 <= y < DV && 0 <= p < Pow2(26 - j)
    ensures var x, b := Asr(y, j), Mul(Low(y, j), Pow2(26 - j));
      0 <= x < Pow2(26 - j) && 0 <= b && Or(p, b) == p + b < DV
      && Mul(Pow2(j), b) + Mul(Pow2(j), 0x400_0000 * x) == 0x400_0000 * y
  {
    hide Mul, Or;
    Pow2Values();
    SplitBits(y, j);
    QuoPow2Bounds(y, 26 - j, j);
    RShiftLow(y, j, p);
  }

  /** The low bits of y, a digit or the sign word, moved to the top of a digit with pending p. */
  lemma RShiftLow(y: int, j: nat, p: int)
    requires j < 26 && Int32(y) && 0 <= p < Pow2(26 - j)
    ensures var x, b := Asr(y, j), Mul(Low(y, j), Pow2(26 - j));
      0 <= b && Or(p, b) == p + b < DV
      && Mul(Pow2(j), b) + Mul(Pow2(j), 0x400_0000 * x) == 0x400_0000 * y
  {
    hide Mul, Or, Quo, Mod;
    Pow2Values();
    var x, l := Asr(y, j), Low(y, j);
    SplitBits(y, j);
    LowBitsFit(l, j, 26 - j);
    OrDisjoint(Mul(l, Pow2(26 - j)), p, l, 26 - j);
    Associate(Pow2(j), l, Pow2(26 - j));
    Pow2Add(j, 26 - j);
    Scale(1, l);
    Units(l);
    Commute(l, 0x400_0000);
    Scale(Pow2(j), x);
    Commute(Pow2(j), x);
  }

  lemma RShiftStep(e: Store, d: Store, h: nat, k: nat, j: nat)
    requires RShifted(e, d, h, k, j) && h + k in d && 0 <= d[h + k] < DV
    ensures k - 1 in e && 0 <= e[k - 1] && j <= 25 && Int32(Mul(Low(d[h + k], j), Pow2(26 - j)))
    ensures var b := Mul(Low(d[h + k], j), Pow2(26 - j));
      0 <= b && RShifted(e[k - 1 := Or(e[k - 1], b)][k := Asr(d[h + k], j)], d, h, k + 1, j)
  {
    hide Mul, P, S, Or, Asr, Low;
    var y := d[h + k];
    var x, b := Asr(y, j), Mul(Low(y, j), Pow2(26 - j));
    RShiftDigit(y, j, e[k - 1]);
    Pow2Monotone(26 - j, 26);
    Pow2Values();
    RShiftStore(e, k, e[k - 1] + b, x);
    SLast(d, h, k);
    PNext(k - 1);
    RShiftAlgebra(S(e, 0, k), b, P(k - 1), x, y, Pow2(j));
  }

  /** The digits with the last one changed and one more put behind. */
  lemma RShiftStore(e: Store, k: nat, u: int, x: int)
    requires k > 0 && InRange(e, 0, k) && 0 <= u < DV && 0 <= x < DV
    ensures var f := e[k - 1 := u][k := x];
      InRange(f, 0, k + 1) && f[k] == x
      && S(f, 0, k + 1) == S(e, 0, k) + Mul(u - e[k - 1], P(k - 1)) + Mul(x, P(k))
  {
    hide Mul, P, S;
    var f := e[k - 1 := u];
    SUpdate(e, k, k - 1, u);
    SFrame(f, 0, f[k := x], 0, k);
    SLast(f[k := x], 0, k);
  }

  lemma RShiftAlgebra(s: int, b: int, p: int, x: int, y: int, q: int)
    requires Mul(q, b) + Mul(q, 0x400_0000 * x) == 0x400_0000 * y
    ensures Mul(q, s + Mul(b, p) + Mul(x, 0x400_0000 * p)) == Mul(q, s) + Mul(y, 0x400_0000 * p)
  {
    hide Mul;
    Scale(x, p);
    var u := b + 0x400_0000 * x;
    Distribute(u, b, 0x400_0000 * x, p);
    Distribute(u, b, 0x400_0000 * x, q);
    Distribute(s + Mul(u, p), s, Mul(u, p), q);
    Associate(q, u, p);
    Scale(y, p);
  }

  lemma RShiftAll(e: Store, d: Store, t: nat, s: int, n: nat)
    requires InRange(d, 0, t) && (s == 0 || s == -1) && n / 26 >= t
    ensures Num(e, 0, s) == Quo(Num(d, t, s), Pow2(n))
  {
    hide Mul, Quo, P, S;
    NumEmpty(e, s);
    SignOf(d, t, s);
    PIsPow2(t);
    Pow2Monotone(26 * t, n);
    Units(Pow2(n));
    DivUnique(Num(d, t, s), Pow2(n), s, Num(d, t, s) - Mul(s, Pow2(n)));
  }

  /** The sign bits complete the top digit. */
  lemma RShiftDone(e: Store, d: Store, t: nat, s: int, h: nat, j: nat, n: nat, v: int)
    requires h < t && InRange(d, 0, t) && (s == 0 || s == -1) && RShifted(e, d, h, t - h, j)
    requires n == 26 * h + j && v == Num(d, t, s)
    ensures t - h - 1 in e && 0 <= e[t - h - 1] && j <= 25
    ensures var b := Mul(Low(s, j), Pow2(26 - j));
      0 <= b < DV && (j == 0 ==> b == 0) && Or(e[t - h - 1], b) == e[t - h - 1] + b
      && RShiftResult(e[t - h - 1 := e[t - h - 1] + b], t - h, s, v, n)
  {
    hide Mul, P, S, Or, Low, Quo, Mod, Asr;
    var k, q := t - h, Pow2(j);
    var b := Mul(Low(s, j), Pow2(26 - j));
    RShiftLow(s, j, e[k - 1]);
    SignLow(s, j);
    var f := e[k - 1 := e[k - 1] + b];
    SUpdate(e, k, k - 1, e[k - 1] + b);
    PNext(k - 1);
    RShiftAlgebra(S(e, 0, k), b, P(k - 1), s, s, q);
    DropValue(d, t, s, h);
    var w := Num(f, k, s);
    Commute(q, w);
    DivUnique(Quo(v, P(h)), q, w, S(d, h, k) - Mul(q, S(e, 0, k)));
    PIsPow2(h);
    Pow2Add(26 * h, j);
    QuoQuo(v, P(h), q);
  }

  ghost predicate RShiftResult(f: Store, k: nat, s: int, v: int, n: nat) {
    InRange(f, 0, k) && Num(f, k, s) == Quo(v, Pow2(n))
  }

  lemma SignLow(s: int, j: nat)
    requires (s == 0 || s == -1) && j < 26
    ensures Asr(s, j) == s && (j == 0 ==> Low(s, j) == 0 && Mul(Low(s, j), Pow2(26 - j)) == 0)
  {
    hide Mul, Quo, Mod;
    Units(Pow2(j));
    Units(Pow2(26 - j));
    DivUnique(s, Pow2(j), s, s - Mul(s, Pow2(j)));
  }

  lemma ShiftedUp(e: Store, d: Store, t: nat, s: int, n: nat)
    requires InRange(d, 0, t)
    requires forall i :: 0 <= i < n ==> i in e && e[i] == 0
    requires forall i :: n <= i < t + n ==> i in e && e[i] == d[i - n]
    ensures InRange(e, 0, t + n) && Num(e, t + n, s) == Mul(Num(d, t, s), P(n))
  {
    hide Mul, P, S;
    SSplit(e, 0, n, t);
    SZero(e, 0, n);
    SFrame(e, n, d, 0, t);
    PAdd(n, t);
    Distribute(Num(d, t, s), S(d, 0, t), Mul(s, P(t)), P(n));
    Associate(P(n), s, P(t));
    Commute(P(n), Num(d, t, s));
  }

  /** The digits of d above index c, n places up. */
  ghost predicate MovedFrom(e: Store, d: Store, c: int, t: nat, n: int) {
    forall i :: c < i < t ==> i in d && i + n in e && d[i] == e[i + n]
  }

  /** The digits of d up to index c. */
  ghost predicate KeptTo(e: Store, d: Store, c: int) {
    forall i :: 0 <= i <= c ==> i in e && i in d && e[i] == d[i]
  }

  lemma MoveStep(e: Store, d: Store, c: int, t: nat, n: int)
    requires 0 <= c < t && c in d && MovedFrom(e, d, c, t, n)
    ensures MovedFrom(e[c + n := d[c]], d, c - 1, t, n)
  {
    var f := e[c + n := d[c]];
    forall i | c - 1 < i < t ensures i in d && i + n in f && d[i] == f[i + n] {
      if i != c {
        assert i in d && i + n in e;
      }
    }
  }

  lemma KeptAt(e: Store, d: Store, c: nat)
    requires KeptTo(e, d, c)
    ensures c in e && c in d && e[c] == d[c] && KeptTo(e, d, c - 1)
  {
  }

  lemma KeepStep(e: Store, d: Store, c: nat, n: nat, x: int)
    requires KeptTo(e, d, c)
    ensures KeptTo(e[c + n := x], d, c - 1)
  {
  }

  lemma NothingMoved(e: Store, d: Store, t: nat, n: int)
    ensures MovedFrom(e, d, t - 1, t, n)
  {
  }

  lemma KeptAll(d: Store, t: nat)
    requires InRange(d, 0, t)
    ensures KeptTo(d, d, t - 1)
  {
  }

  /** The digits of d from index n up to c, n places down. */
  ghost predicate MovedDown(e: Store, d: Store, c: int, n: nat) {
    forall i :: n <= i < c ==> i in d && i - n in e && d[i] == e[i - n]
  }

  ghost predicate KeptFrom(e: Store, d: Store, c: int, t: nat) {
    forall i :: c <= i < t ==> i in e && i in d && e[i] == d[i]
  }

  lemma MoveDownStart(e: Store, d: Store, t: nat, n: nat)
    requires InRange(d, 0, t)
    ensures MovedDown(e, d, n, n) && KeptFrom(d, d, n, t)
  {
  }

  lemma MoveDownStep(e: Store, f: Store, d: Store, c: nat, t: nat, n: nat)
    requires n <= c < t && KeptFrom(f, d, c, t) && MovedDown(e, d, c, n)
    ensures c in f && f[c] == d[c] && KeptFrom(f, d, c + 1, t) && KeptFrom(f[c - n := f[c]], d, c + 1, t)
    ensures MovedDown(e[c - n := f[c]], d, c + 1, n)
  {
    var g := e[c - n := f[c]];
    forall i | n <= i < c + 1 ensures i in d && i - n in g && d[i] == g[i - n] {
      if i != c {
        assert i in d && i - n in e;
      }
    }
  }

  lemma MovedDownAt(e: Store, d: Store, c: int, n: nat, i: int)
    requires MovedDown(e, d, c, n) && n <= i < c
    ensures i in d && i - n in e && d[i] == e[i - n]
  {
  }

  lemma MovedDownRange(e: Store, d: Store, t: nat, n: nat)
    requires InRange(d, 0, t) && n < t && MovedDown(e, d, t, n)
    ensures InRange(e, 0, t - n) && Defined(d, n, t - n) && S(e, 0, t - n) == S(d, n, t - n)
    ensures e[t - n - 1] == d[t - 1]
  {
    hide MovedDown, S;
    forall i | 0 <= i < t - n ensures i in e && e[i] == d[i + n] && 0 <= e[i] < DV {
      MovedDownAt(e, d, t, n, i + n);
    }
    SFrame(e, 0, d, n, t - n);
  }

  lemma MovedDownDigits(e: Store, d: Store, t: nat, s: int, n: nat)
    requires InRange(d, 0, t) && (s == 0 || s == -1) && (n < t ==> MovedDown(e, d, t, n))
    ensures var k := if n < t then t - n else 0;
      InRange(e, 0, k) && Num(e, k, s) == Quo(Num(d, t, s), P(n)) && (Clamped(d, t, s) ==> Clamped(e, k, s))
  {
    hide Mul, Quo, P, S, MovedDown;
    DropValue(d, t, s, n);
    NumEmpty(e, s);
    if n < t {
      MovedDownRange(e, d, t, n);
    }
  }

  /** The digits of d, n places up. */
  ghost predicate MovedUp(e: Store, d: Store, t: nat, n: int) {
    MovedFrom(e, d, -1, t, n)
  }

  /** Nothing but the n lowest digits differs. */
  ghost predicate SameFrom(e: Store, d: Store, n: int) {
    forall i :: !(0 <= i < n) ==> (i in e <==> i in d) && (i in e ==> e[i] == d[i])
  }

  lemma ShiftedDigits(e: Store, f: Store, d: Store, t: nat, s: int, n: int)
    requires InRange(d, 0, t) && (n >= 0 || n + t == 0) && MovedUp(f, d, t, n) && SameFrom(e, f, n)
    requires forall i :: 0 <= i < n ==> i in e && e[i] == 0
    ensures n >= 0 ==> InRange(e, 0, t + n) && Num(e, t + n, s) == Mul(Num(d, t, s), P(n))
    ensures n >= 0 && Clamped(d, t, s) ==> t == 0 || Clamped(e, t + n, s)
  {
    hide Mul, P, S;
    if n >= 0 {
      forall i | n <= i < t + n ensures i in e && e[i] == d[i - n] {
        assert i - n in d;
      }
      ShiftedUp(e, d, t, s, n);
    }
  }

  lemma DropValue(d: Store, t: nat, s: int, n: nat)
    requires InRange(d, 0, t) && (s == 0 || s == -1)
    ensures n < t ==> Quo(Num(d, t, s), P(n)) == S(d, n, t - n) + Mul(s, P(t - n))
    ensures n >= t ==> Quo(Num(d, t, s), P(n)) == s
  {
    hide Mul, P, S, Quo;
    if n < t {
      SSplit(d, 0, n, t - n);
      SBound(d, 0, n);
      PAdd(n, t - n);
      var q := S(d, n, t - n) + Mul(s, P(t - n));
      Distribute(q, S(d, n, t - n), Mul(s, P(t - n)), P(n));
      Associate(P(n), s, P(t - n));
      Commute(P(n), q);
      DivUnique(Num(d, t, s), P(n), q, S(d, 0, n));
    } else {
      SignOf(d, t, s);
      PMonotone(t, n);
      Units(P(n));
      DivUnique(Num(d, t, s), P(n), s, Num(d, t, s) - Mul(s, P(n)));
    }
  }

  lemma AccumulatorBound(x: int, u: int, w: int, c: int)
    requires 0 <= x < 2 * DV && 0 <= u < DV && 0 <= w < DV && 0 <= c <= x
    ensures 0 <= Mul(x, u) && Mul(x, u) + w + c < 0x400_0000 * (x + 1)
  {
    hide Mul;
    MulLe(0, x, u);
    MulLe(u, 0x3ff_ffff, x);
    Distribute(0x400_0000, 0x3ff_ffff, 1, x);
    Units(x);
    Units(u);
    Scale(1, x);
  }

  /** One digit of a multiply-accumulate: carry * 2^26 + digit == x * u + w + old carry. */
  lemma AmDigit(v: Store, j: int, k: nat, x: int, d: Store, i: int, w: int, c: int, g: int)
    requires Defined(v, j, k) && Defined(d, i, k + 1) && g == Mul(x, d[i + k]) + w + c
    ensures S(v[j + k := g % 0x400_0000], j, k + 1) + Mul(g / 0x400_0000, P(k + 1))
         == S(v, j, k) + Mul(c, P(k)) + Mul(w, P(k)) + Mul(x, S(d, i, k + 1)) - Mul(x, S(d, i, k))
  {
    hide Mul;
    var u, p := d[i + k], P(k);
    SFrame(v, j, v[j + k := g % 0x400_0000], j, k);
    CarryStep(g, p);
    Distribute(g, Mul(x, u) + w, c, p);
    Distribute(Mul(x, u) + w, Mul(x, u), w, p);
    Associate(x, u, p);
    Distribute(S(d, i, k + 1), S(d, i, k), Mul(u, p), x);
  }

  /** A row of the schoolbook product: digit i of c times f, carry x stored above. */
  lemma MultiplyRow(v: Store, w: Store, i: nat, n: nat, c: Store, f: int, x: int)
    requires Defined(c, 0, i + 1) && Defined(v, 0, i + n) && Defined(w, i, n) && SameOutside(w, v, i, n)
    requires S(w, i, n) + Mul(x, P(n)) == S(v, i, n) + Mul(c[i], f)
    requires S(v, 0, i + n) == Mul(f, S(c, 0, i))
    ensures Defined(w[i + n := x], 0, i + n + 1)
    ensures S(w[i + n := x], 0, i + n + 1) == Mul(f, S(c, 0, i + 1))
  {
    hide Mul, P, S;
    SLast(c, 0, i);
    SLast(w[i + n := x], 0, i + n);
    SWindow(v, w, i, n, i + n, Mul(c[i], f) - Mul(x, P(n)));
    SFrame(w, 0, w[i + n := x], 0, i + n);
    PAdd(i, n);
    RowAlgebra(S(c, 0, i), c[i], P(i), P(n), f, x);
  }

  lemma RowKept(w: Store, v: Store, i: nat, n: nat)
    requires InRange(v, 0, i + n) && InRange(w, i, n) && SameOutside(w, v, i, n)
    ensures InRange(w, 0, i + n)
  {
  }

  lemma RowAlgebra(s: int, c: int, p: int, q: int, f: int, x: int)
    ensures Mul(f, s) + Mul(p, Mul(c, f) - Mul(x, q)) + Mul(x, Mul(p, q)) == Mul(f, s + Mul(c, p))
  {
    hide Mul;
    Distribute(Mul(c, f), Mul(c, f) - Mul(x, q), Mul(x, q), p);
    Associate(p, x, q);
    Distribute(s + Mul(c, p), s, Mul(c, p), f);
    Associate(f, c, p);
    Associate(p, c, f);
    Commute(f, p);
  }

  ghost function Square(x: int): int {
    Mul(x, x)
  }

  lemma SquareOfNothing(a: Store, d: Store)
    ensures S(d, 0, 0) == Square(S(a, 0, 0))
  {
    Units(0);
  }

  /** While squaring, the digits not yet reached are zero, but for one pending carry. */
  ghost predicate SquareRest(d: Store, n: nat, i: nat) {
    InRange(d, 0, 2 * n) && i < n && 0 <= d[i + n] <= 1 && forall k :: i + n < k < 2 * n ==> d[k] == 0
  }

  /** Storing a digit of one bit too many and moving the bit up leave the value as it is. */
  lemma SquareOverflow(d: Store, n: nat, k: nat)
    requires k + 1 < n && Defined(d, 0, n) && d[k + 1] == 0
    ensures var e := d[k := d[k] - DV];
      S(e[k + 1 := 1], 0, n) == S(d, 0, n)
  {
    hide Mul, S;
    var e := d[k := d[k] - DV];
    SUpdate(d, n, k, d[k] - DV);
    SUpdate(e, n, k + 1, 1);
    Units(P(k + 1));
    Negate(DV, P(k));
    Scale(1, P(k));
  }

  /** The two windows of a row change the total by the row's share, up to the carry above them. */
  lemma SquareWindows(v: Store, u: Store, w: Store, a: Store, n: nat, i: nat, b: int, c: int)
    requires i < n - 1 && Defined(a, 0, n)
    requires Defined(v, 0, 2 * n) && Defined(u, 0, 2 * n) && Defined(w, 0, 2 * n)
    requires SameOutside(u, v, 2 * i, 1) && SameOutside(w, u, 2 * i + 1, n - i - 1)
    requires S(u, 2 * i, 1) + Mul(b, P(1)) == S(v, 2 * i, 1) + Mul(a[i], S(a, i, 1))
    requires S(w, 2 * i + 1, n - i - 1) + Mul(c, P(n - i - 1))
          == S(u, 2 * i + 1, n - i - 1) + Mul(2 * a[i], S(a, i + 1, n - i - 1)) + b
    ensures S(w, 0, 2 * n) + Mul(c, P(i + n)) + Mul(P(2 * (i + 1)), Square(S(a, i + 1, n - (i + 1))))
         == S(v, 0, 2 * n) + Mul(P(2 * i), Square(S(a, i, n - i)))
  {
    hide Mul, P, S, SameOutside;
    var x, y := a[i], S(a, i + 1, n - i - 1);
    SOne(a, i);
    SWindow(v, u, 2 * i, 1, 2 * n, Mul(x, x) - Mul(b, P(1)));
    SWindow(u, w, 2 * i + 1, n - i - 1, 2 * n, Mul(2 * x, y) + b - Mul(c, P(n - i - 1)));
    assert S(a, i, n - i) == x + 0x400_0000 * y by { SLow(a, i, n - i); }
    assert P(2 * i + 1) == 0x400_0000 * P(2 * i) && P(2 * (i + 1)) == 0x400_0000 * P(2 * i + 1) by {
      PNext(2 * i);
      PNext(2 * i + 1);
    }
    PAdd(2 * i + 1, n - i - 1);
    POne();
    SquareAlgebra(P(2 * i), x, y, b, c, P(n - i - 1));
  }

  lemma SquareAlgebra(p: int, x: int, y: int, b: int, c: int, q: int)
    ensures var p1 := 0x400_0000 * p;
      Mul(p, Mul(x, x) - Mul(b, 0x400_0000)) + Mul(p1, Mul(2 * x, y) + b - Mul(c, q)) + Mul(c, Mul(p1, q))
        + Mul(0x400_0000 * p1, Mul(y, y))
      == Mul(p, Mul(x + 0x400_0000 * y, x + 0x400_0000 * y))
  {
    hide Mul;
    var xx, xy, yy, cq := Mul(x, x), Mul(x, y), Mul(y, y), Mul(c, q);
    assert Mul(p, xx - Mul(b, 0x400_0000)) == Mul(p, xx) - 0x400_0000 * Mul(p, b) by {
      Scale(b, p);
      Scale(1, b);
      Distribute(xx, xx - Mul(b, 0x400_0000), Mul(b, 0x400_0000), p);
      Commute(p, b);
      Commute(p, 0x400_0000 * b);
    }
    assert Mul(0x400_0000 * p, Mul(2 * x, y) + b - cq) == 0x400_0000 * (2 * Mul(p, xy) + Mul(p, b) - Mul(p, cq)) by {
      Distribute(2 * x, x, x, y);
      Distribute(2 * xy, xy, xy, p);
      Distribute(2 * xy + b, 2 * xy, b, p);
      Distribute(2 * xy + b, 2 * xy + b - cq, cq, p);
      Scale(p, 2 * xy + b - cq);
    }
    assert Mul(c, Mul(0x400_0000 * p, q)) == 0x400_0000 * Mul(p, cq) by {
      Associate(c, p, q);
      Scale(p, q);
      Scale(c, Mul(p, q));
    }
    assert Mul(0x400_0000 * (0x400_0000 * p), yy) == 0x400_0000 * (0x400_0000 * Mul(p, yy)) by {
      Scale(p, yy);
      Scale(0x400_0000 * p, yy);
    }
    SquareOfSum(x, y);
    var z := xx + 0x400_0000 * (2 * xy + 0x400_0000 * yy);
    assert Mul(p, z) == Mul(p, xx) + 0x400_0000 * (2 * Mul(p, xy) + 0x400_0000 * Mul(p, yy)) by {
      Distribute(z, xx, 0x400_0000 * (2 * xy + 0x400_0000 * yy), p);
      Scale(p, 2 * xy + 0x400_0000 * yy);
      Distribute(2 * xy + 0x400_0000 * yy, 2 * xy, 0x400_0000 * yy, p);
      Distribute(2 * xy, xy, xy, p);
      Scale(p, yy);
    }
  }

  lemma SquareOfSum(x: int, y: int)
    ensures var z := x + 0x400_0000 * y;
      Mul(z, z) == Mul(x, x) + 0x400_0000 * (2 * Mul(x, y) + 0x400_0000 * Mul(y, y))
  {
    hide Mul;
    var w := 0x400_0000 * y;
    Distribute(x + w, x, w, x + w);
    Distribute(x + w, x, w, x);
    Distribute(x + w, x, w, w);
    Scale(x, y);
    Scale(y, x);
    Commute(x, y);
    Scale(y, y);
    Scale(w, y);
  }

  /** The last square of a digit completes the sum. */
  lemma SquareLast(v: Store, u: Store, i: nat, a: Store, b: int)
    requires Defined(v, 0, 2 * (i + 1)) && InRange(a, 0, i + 1) && SameOutside(u, v, 2 * i, 1)
    requires InRange(u, 0, 2 * (i + 1)) && b >= 0
    requires S(u, 2 * i, 1) + Mul(b, P(1)) == S(v, 2 * i, 1) + Mul(a[i], S(a, i, 1))
    requires S(v, 0, 2 * (i + 1)) + Mul(P(2 * i), Square(S(a, i, 1))) == Square(S(a, 0, i + 1))
    ensures S(u, 0, 2 * (i + 1)) + Mul(b, P(2 * i + 1)) == Square(S(a, 0, i + 1))
    ensures u[2 * i + 1] + b < DV
  {
    hide Mul, P, S;
    var n, x := 2 * (i + 1), S(a, 0, i + 1);
    SOne(a, i);
    SWindow(v, u, 2 * i, 1, n, Square(a[i]) - Mul(b, P(1)));
    Distribute(Square(a[i]), Square(a[i]) - Mul(b, P(1)), Mul(b, P(1)), P(2 * i));
    PAdd(1, 2 * i);
    Associate(P(2 * i), b, P(1));
    Commute(P(2 * i), P(1));
    assert Square(x) < P(n) by {
      SBound(a, 0, i + 1);
      PAdd(i + 1, i + 1);
      MulLe(x, P(i + 1), x);
      MulGap(x, P(i + 1), P(i + 1));
    }
    SLast(u, 0, n - 1);
    SBound(u, 0, n - 1);
    PNext(n - 1);
    Distribute(u[n - 1] + b, u[n - 1], b, P(n - 1));
    Scale(1, P(n - 1));
    Units(P(n - 1));
    if u[n - 1] + b >= DV {
      MulLe(0x400_0000, u[n - 1] + b, P(n - 1));
    }
  }

  /** The product of the magnitudes is the product, up to the sign. */
  lemma SignedProduct(x: int, y: int, a: int, b: int)
    requires a == (if x < 0 then -x else x) && b == (if y < 0 then -y else y)
    ensures Mul(x, y) == if (x < 0) == (y < 0) then Mul(a, b) else -Mul(a, b)
  {
    hide Mul;
    Negate(x, y);
    Negate(x, -y);
  }

  /** A clamped number from P(j) on has a digit j. */
  lemma LongEnough(d: Store, t: nat, j: nat)
    requires InRange(d, 0, t) && S(d, 0, t) >= P(j)
    ensures j < t
  {
    SBound(d, 0, t);
    if t <= j { PMonotone(t, j); }
  }

  lemma TopNotZero(d: Store, t: nat)
    requires t > 0 && InRange(d, 0, t) && S(d, 0, t) >= P(t - 1)
    ensures d[t - 1] != 0
  {
    hide Mul;
    SBound(d, 0, t - 1);
    Units(P(t - 1));
  }

  /** Digit j read from the value, whether or not it is in range. */
  lemma OversizeDigit(d: Store, n: nat, j: nat)
    requires j < n && Defined(d, 0, n) && InRange(d, 0, j)
    ensures Quo(S(d, 0, n), P(j)) == d[j] + 0x400_0000 * S(d, j + 1, n - j - 1)
  {
    hide Mul, Quo, Mod, P, S;
    SSplit(d, 0, j, n - j);
    SLow(d, j, n - j);
    SBound(d, 0, j);
    Commute(P(j), S(d, j, n - j));
    DivUnique(S(d, 0, n), P(j), S(d, j, n - j), S(d, 0, j));
  }

  /** What the kernel adds to the whole number, its carry put into the next digit. */
  lemma KernelEffect(v: Store, u: Store, c: nat, h: nat, t: nat, b: int, y: int, carry: int)
    requires c + h < t && InRange(v, 0, t) && InRange(u, c, h) && SameOutside(u, v, c, h)
    requires S(u, c, h) + Mul(carry, P(h)) == S(v, c, h) + Mul(b, y)
    ensures var w := u[c + h := u[c + h] + carry];
      Defined(w, 0, t) && SameOutside(w, v, c, h + 1) && InRange(w, 0, c + h)
      && S(w, 0, t) == S(v, 0, t) + Mul(Mul(b, y), P(c))
  {
    hide Mul, P, S;
    SWindow(v, u, c, h, t, Mul(b, y) - Mul(carry, P(h)));
    SUpdate(u, t, c + h, u[c + h] + carry);
    Distribute(Mul(b, y), Mul(b, y) - Mul(carry, P(h)), Mul(carry, P(h)), P(c));
    PAdd(c, h);
    Associate(P(c), carry, P(h));
    Commute(Mul(b, y), P(c));
  }

  /** The buffer of a division of n by y holds v while b is tried as quotient digit for the digit
      c of the dividend; the true digit is not above b. */
  ghost predicate Trying(v: int, n: int, y: int, h: nat, c: nat, b: int) {
    n >= 0 && Normalized(y, h) &&
    var q, win, low := Quo(Quo(n, P(c + 1)), y), Window(n, y, c), Mod(n, P(c));
    v == Buffer(q, win, low, y, h, c, b) && Buffer(q, win, low, y, h, c, 0) >= P(c + h)
    && Quo(win, y) <= b <= DV
  }

  /** What is known of the two digits the guess reads. */
  lemma DivideStart(d: Store, t: nat, n: int, y: int, h: nat, c: nat)
    requires InRange(d, 0, t) && n >= 0 && Normalized(y, h)
    requires DivState(S(d, 0, t), n, y, h, c + 1) && S(d, 0, t) >= P(c + h)
    ensures var win := Window(n, y, c);
      c + h < t && d[c + h] == Quo(win, P(h)) && d[c + h - 1] == Quo(win, P(h - 1)) % 0x400_0000
      && 0 <= Quo(win, y) < DV
  {
    hide Mul, Quo, Mod, P, S, Buffer, Window, DivState;
    var v, j := S(d, 0, t), c + h;
    var q, win, low := Quo(Quo(n, P(c + 1)), y), Window(n, y, c), Mod(n, P(c));
    StateToBuffer(v, n, y, h, c);
    WindowFacts(n, y, c);
    DivMod(n, P(c));
    TrueDigitBound(win, y);
    WindowDigits(q, win, low, y, h, c);
    LongEnough(d, t, j);
    SDigit(d, t, j);
    SDigit(d, t, j - 1);
  }

  lemma TryingFirst(v: int, n: int, y: int, h: nat, c: nat, b: int)
    requires n >= 0 && Normalized(y, h) && DivState(v, n, y, h, c + 1) && v >= P(c + h)
    requires Quo(Window(n, y, c), y) <= b <= DV
    ensures Trying(v + Mul(Mul(b, P(h) - y), P(c)), n, y, h, c, b)
  {
    hide Mul, Quo, Mod, P, Buffer, Window, DivState;
    StateToBuffer(v, n, y, h, c);
    BufferStep(Quo(Quo(n, P(c + 1)), y), Window(n, y, c), Mod(n, P(c)), y, h, c, 0, b);
  }

  lemma TryingLarge(v: int, n: int, y: int, h: nat, c: nat, b: int)
    requires Trying(v, n, y, h, c, b)
    ensures v >= P(c + h) && b >= Quo(Window(n, y, c), y) >= 0
  {
    hide Mul, Quo, Mod, P, Buffer, Window;
    WindowFacts(n, y, c);
    DivMod(n, P(c));
    TrueDigitBound(Window(n, y, c), y);
    BufferLarge(Quo(Quo(n, P(c + 1)), y), Window(n, y, c), Mod(n, P(c)), y, h, c, b);
  }

  /** Digit c + h shows whether b is the true quotient digit. */
  lemma TryingDigit(d: Store, t: nat, n: int, y: int, h: nat, c: nat, b: int)
    requires InRange(d, 0, t) && Trying(S(d, 0, t), n, y, h, c, b)
    ensures S(d, 0, t) >= P(c + h) && c + h < t
    ensures Quo(Window(n, y, c), y) <= d[c + h] <= b
    ensures d[c + h] < b <==> b > Quo(Window(n, y, c), y)
  {
    hide Mul, Quo, Mod, P, S, Trying, Window;
    TryingLarge(S(d, 0, t), n, y, h, c, b);
    LongEnough(d, t, c + h);
    TryingQuotient(S(d, 0, t), n, y, h, c, b);
    SDigit(d, t, c + h);
  }

  /** Adding the divisor back moves on to the next smaller trial digit. */
  lemma TryingLess(v: int, n: int, y: int, h: nat, c: nat, b: int)
    requires Trying(v, n, y, h, c, b) && b > Quo(Window(n, y, c), y)
    ensures Trying(v - Mul(P(h) - y, P(c)), n, y, h, c, b - 1)
  {
    hide Mul, Quo, Mod, P, Buffer, Window;
    var q, win, low := Quo(Quo(n, P(c + 1)), y), Window(n, y, c), Mod(n, P(c));
    BufferStep(q, win, low, y, h, c, b, -1);
    Units(P(h) - y);
    Negate(P(h) - y, P(c));
  }

  lemma TryingDone(v: int, n: int, y: int, h: nat, c: nat, b: int)
    requires Trying(v, n, y, h, c, b) && b == Quo(Window(n, y, c), y)
    ensures DivState(v, n, y, h, c)
  {
    hide Mul, Quo, Mod, P, Buffer, Window, DivState;
    BufferToState(n, y, h, c);
  }

  /** Adding b times the complement of the divisor to the window leaves proper digits. */
  lemma DivideKernel(v: Store, u: Store, t: nat, n: int, y: int, h: nat, c: nat, b: int, carry: int)
    requires c + h < t && InRange(v, 0, t) && InRange(u, c, h) && SameOutside(u, v, c, h)
    requires v[t - 1] != 0
    requires S(u, c, h) + Mul(carry, P(h)) == S(v, c, h) + Mul(b, P(h) - y)
    requires DivState(S(v, 0, t), n, y, h, c + 1) && n >= 0 && Normalized(y, h)
    requires S(v, 0, t) >= P(c + h) && Quo(Window(n, y, c), y) <= b <= DV
    ensures var w := u[c + h := u[c + h] + carry];
      InRange(w, 0, t) && w[t - 1] != 0 && Trying(S(w, 0, t), n, y, h, c, b)
  {
    hide Mul, Quo, Mod, P, S, Window, DivState, Trying, SameOutside;
    var j := c + h;
    KernelPlace(v, u, c, h, t);
    var w := u[j := u[j] + carry];
    KernelEffect(v, u, c, h, t, b, P(h) - y, carry);
    TryingFirst(S(v, 0, t), n, y, h, c, b);
    TryingLarge(S(w, 0, t), n, y, h, c, b);
    DigitsAbove(v, t, n, y, h, c);
    KernelAbove(v, w, c, h, t);
    KernelDigit(w, t, n, y, h, c, b);
    KernelWhole(v, w, c, h, t);
    if t - 1 == j {
      TopNotZero(w, t);
    }
  }

  lemma KernelPlace(v: Store, u: Store, c: nat, h: nat, t: nat)
    requires c + h < t && InRange(v, 0, t) && SameOutside(u, v, c, h)
    ensures c + h in u
  {
    assert c + h in v;
  }

  lemma KernelAbove(v: Store, w: Store, c: nat, h: nat, t: nat)
    requires c + h < t && Defined(v, 0, t) && Defined(w, 0, t) && SameOutside(w, v, c, h + 1)
    ensures S(w, c + h + 1, t - c - h - 1) == S(v, c + h + 1, t - c - h - 1)
  {
    hide S;
    SFrame(v, c + h + 1, w, c + h + 1, t - c - h - 1);
  }

  lemma KernelWhole(v: Store, w: Store, c: nat, h: nat, t: nat)
    requires c + h < t && InRange(v, 0, t) && SameOutside(w, v, c, h + 1)
    requires InRange(w, 0, c + h) && c + h in w && 0 <= w[c + h] < DV
    ensures InRange(w, 0, t) && (t - 1 != c + h ==> w[t - 1] == v[t - 1])
  {
  }

  lemma KernelDigit(w: Store, t: nat, n: int, y: int, h: nat, c: nat, b: int)
    requires c + h < t && Defined(w, 0, t) && InRange(w, 0, c + h)
    requires Trying(S(w, 0, t), n, y, h, c, b)
    requires S(w, c + h + 1, t - c - h - 1) == Quo(Quo(n, P(c + 1)), y)
    ensures 0 <= w[c + h] < DV
  {
    hide Mul, Quo, P, S, Window, Trying;
    OversizeDigit(w, t, c + h);
    TryingQuotient(S(w, 0, t), n, y, h, c, b);
  }

  /** The digits above the one worked on are the quotient so far. */
  lemma DigitsAbove(v: Store, t: nat, n: int, y: int, h: nat, c: nat)
    requires c + h < t && InRange(v, 0, t) && n >= 0 && Normalized(y, h)
    requires DivState(S(v, 0, t), n, y, h, c + 1)
    ensures S(v, c + h + 1, t - c - h - 1) == Quo(Quo(n, P(c + 1)), y)
  {
    hide Mul, Quo, Mod, P, S, Buffer, Window, DivState;
    StateToBuffer(S(v, 0, t), n, y, h, c);
    WindowFacts(n, y, c);
    DivMod(n, P(c));
    WindowDigits(Quo(Quo(n, P(c + 1)), y), Window(n, y, c), Mod(n, P(c)), y, h, c);
    OversizeDigit(v, t, c + h);
  }

  lemma TryingQuotient(v: int, n: int, y: int, h: nat, c: nat, b: int)
    requires Trying(v, n, y, h, c, b)
    ensures var g := Quo(v, P(c + h)) - 0x400_0000 * Quo(Quo(n, P(c + 1)), y);
      0 <= g < DV && g <= b && (g < b <==> b > Quo(Window(n, y, c), y))
      && g >= Quo(Window(n, y, c), y)
  {
    hide Mul, Quo, Mod, P, Buffer, Window;
    WindowFacts(n, y, c);
    DivMod(n, P(c));
    TrueDigitBound(Window(n, y, c), y);
    TrialDigit(Quo(Quo(n, P(c + 1)), y), Window(n, y, c), Mod(n, P(c)), y, h, c, b);
  }

  /** The digits kept of the divisor are the ones the guess is defined on. */
  lemma DivisorDigits(d: Store, h: nat, y: int)
    requires h > 0 && InRange(d, 0, h) && Clamped(d, h, 0) && y == Num(d, h, 0) && Normalized(y, h)
    ensures d[h - 1] == Top(y, h) && (if h > 1 then d[h - 2] else 0) == Second(y, h)
    ensures d[h - 1] >= 0x200_0000
  {
    hide Mul, Quo, Mod, P, S;
    NumNonNegative(d, h);
    SDivMod(d, h, h - 1);
    SOne(d, h - 1);
    if h > 1 {
      SDigit(d, h, h - 2);
    }
    DivMod(y, P(h - 1));
    PNext(h - 1);
    var x := d[h - 1];
    Units(P(h - 1));
    MulGap(x, x + 1, P(h - 1));
    if x + 1 <= 0x200_0000 {
      MulLe(x + 1, 0x200_0000, P(h - 1));
      Scale(1, P(h - 1));
      Distribute(0x400_0000, 0x200_0000, 0x200_0000, P(h - 1));
    }
  }

  lemma LengthBounds(d: Store, t: nat, s: int)
    requires InRange(d, 0, t) && Clamped(d, t, s) && s == 0
    ensures 0 <= Num(d, t, s) < P(t)
    ensures t > 0 ==> Num(d, t, s) >= P(t - 1)
  {
    hide Mul, P, S;
    SignOf(d, t, s);
    if t > 0 { ClampedMagnitude(d, t, s); }
  }

  lemma AppendOne(d: Store, t: nat)
    requires Defined(d, 0, t)
    ensures Num(d[t := 1], t + 1, 0) == Num(d, t, 0) + P(t)
  {
    hide Mul, P, S;
    NumNonNegative(d, t);
    NumNonNegative(d[t := 1], t + 1);
    SLast(d[t := 1], 0, t);
    SFrame(d, 0, d[t := 1], 0, t);
    Units(P(t));
  }

  /** The complement of a normalized divisor needs no more digits than the divisor. */
  lemma ComplementLength(d: Store, t: nat, s: int, h: nat, y: int)
    requires InRange(d, 0, t) && (s == 0 || s == -1) && Clamped(d, t, s)
    requires Num(d, t, s) == P(h) - y && 0 < y < P(h)
    ensures s == 0 && t <= h
  {
    hide Mul, P, S;
    SignOf(d, t, s);
    if t > h {
      ClampedMagnitude(d, t, s);
      PMonotone(h, t - 1);
    }
  }

  /** The shift that normalizes a divisor of h digits whose top digit has the given bits. */
  lemma NormalizingBits(d: Store, h: nat, bits: nat)
    requires h > 0 && InRange(d, 0, h) && Clamped(d, h, 0)
    requires 1 <= bits <= 32 && d[h - 1] < Pow2(bits) && (d[h - 1] > 0 ==> Pow2(bits - 1) <= d[h - 1])
    ensures 1 <= bits <= 26 && Normalized(Mul(Num(d, h, 0), Pow2(26 - bits)), h)
  {
    hide Mul, P, S;
    Pow2Values();
    if bits > 26 { Pow2Monotone(26, bits - 1); }
    NumNonNegative(d, h);
    SLast(d, 0, h - 1);
    SBound(d, 0, h - 1);
    Distribute(d[h - 1] + 1, d[h - 1], 1, P(h - 1));
    Units(P(h - 1));
    NormalizingShift(Num(d, h, 0), d[h - 1], h, bits);
  }

  lemma LengthByValue(d: Store, t: nat, s: int, h: nat)
    requires InRange(d, 0, t) && (s == 0 || s == -1) && Clamped(d, t, s) && Normalized(Num(d, t, s), h)
    ensures s == 0 && t == h
  {
    hide Mul, P, S;
    SignOf(d, t, s);
    PNext(h - 1);
    LengthAtLeast(d, t, s, h);
    if t > h {
      ClampedMagnitude(d, t, s);
      PMonotone(h, t - 1);
    }
  }

  lemma LengthOfOne(d: Store, t: nat, s: int)
    requires InRange(d, 0, t) && (s == 0 || s == -1) && Clamped(d, t, s) && Num(d, t, s) == 1
    ensures s == 0 && t == 1
  {
    hide Mul, P, S;
    POne();
    SignOf(d, t, s);
    if t > 1 {
      ClampedMagnitude(d, t, s);
      PMonotone(1, t - 1);
    }
  }

  lemma LengthAtLeast(d: Store, t: nat, s: int, h: nat)
    requires h > 0 && InRange(d, 0, t) && (s == 0 || s == -1) && Num(d, t, s) >= P(h - 1)
    ensures s == 0 && t >= h
  {
    hide Mul, P, S;
    SignOf(d, t, s);
    if t < h {
      PMonotone(t, h - 1);
    }
  }

  /** When no digit of the dividend is left, the buffer is quotient and remainder. */
  lemma FinalState(v: int, n: int, y: int, h: nat)
    requires DivState(v, n, y, h, 0) && n >= 0 && 0 < y < P(h)
    ensures Quo(v, P(h)) == Quo(n, y) && Mod(v, P(h)) == Mod(n, y)
  {
    hide Mul, Quo, Mod;
    POne();
    Units(n);
    Units(Mod(n, y));
    DivUnique(n, 1, n, 0);
    DivMod(n, y);
    DivUnique(v, P(h), Quo(n, y), Mod(n, y));
  }

  lemma LowDigits(d: Store, t: nat, h: nat)
    requires InRange(d, 0, t) && h <= t
    ensures Num(d, h, 0) == Mod(Num(d, t, 0), P(h))
  {
    hide Mul, Mod, Quo, P, S;
    NumNonNegative(d, t);
    NumNonNegative(d, h);
    SDivMod(d, t, h);
  }

  /** The digits 1, 0, 0, ... that a zero dividend leaves; shifting them down gives zero again. */
  lemma LoneDigit(d: Store, h: nat, l: nat, x: int)
    requires h > 0 && InRange(d, 0, h) && d[0] == 1 && (forall i :: 1 <= i < h ==> d[i] == 0)
    requires l > 0 && x > 0
    ensures Num(d, h, 0) == 1 && Num(d, 1, 0) == 1
    ensures Quo(1, Pow2(l)) == 0 == Mod(0, x) && Quo(1, P(h)) == 0 == Quo(0, x)
  {
    hide Mul, Mod, Quo, S;
    NumNonNegative(d, h);
    NumNonNegative(d, 1);
    SLow(d, 0, h);
    SZero(d, 1, h - 1);
    SOne(d, 0);
    Units(x);
    Units(P(h));
    Units(Pow2(l));
    PMonotone(1, h);
    DivUnique(1, P(h), 0, 1);
    DivUnique(1, Pow2(l), 0, 1);
    DivUnique(0, x, 0, 0);
  }

  /** From the residue of the magnitude to that of the number. */
  lemma ResidueOfMagnitude(n: int, m: int)
    requires m > 0
    ensures var r := Mod(Magnitude(n), m);
      0 <= r < m && Mod(n, m) == if n < 0 && r > 0 then m - r else r
  {
    hide Mul, Quo, Mod;
    var x: int := Magnitude(n);
    DivMod(x, m);
    var q, r := Quo(x, m), Mod(x, m);
    DivMod(n, m);
    if n < 0 {
      Negate(q, m);
      Distribute(-q, -q - 1, 1, m);
      Units(m);
      if r > 0 {
        DivUnique(n, m, -q - 1, m - r);
      } else {
        DivUnique(n, m, -q, 0);
      }
    }
  }

  lemma ParityOf(d: Store, t: nat, s: int)
    requires InRange(d, 0, t) && (s == 0 || s == -1)
    ensures Num(d, t, s) % 2 == if t > 0 then d[0] % 2 else s % 2
  {
    hide Mul, P, S;
    if t > 0 {
      SLow(d, 0, t);
      PNext(t - 1);
      Scale(s, P(t - 1));
      hide Num;
      NumIs(d, t, s);
      EvenRest(d[0], S(d, 1, t - 1), Mul(s, P(t - 1)));
    } else {
      NumEmpty(d, s);
    }
  }

  lemma NumIs(d: Store, t: nat, s: int)
    requires Defined(d, 0, t)
    ensures Num(d, t, s) == S(d, 0, t) + Mul(s, P(t))
  {
  }

  lemma EvenRest(a: int, x: int, y: int)
    ensures (a + 0x400_0000 * x + 0x400_0000 * y) % 2 == a % 2
  {
    TwiceMore(a, 0x200_0000 * x + 0x200_0000 * y);
  }

  lemma TwiceMore(a: int, k: int)
    ensures (a + 2 * k) % 2 == a % 2
  {
  }

  /** A number that fits its length cannot overflow from its top digit. */
  lemma CarryHasRoom(d: Store, t: nat, k: nat)
    requires k < t && Defined(d, 0, t) && InRange(d, 0, k) && d[k] >= DV && S(d, 0, t) < P(t)
    ensures k + 1 < t
  {
    hide Mul, P, S;
    if k + 1 == t {
      SLast(d, 0, k);
      SBound(d, 0, k);
      PNext(k);
      MulLe(0x400_0000, d[k], P(k));
      Scale(1, P(k));
      Units(P(k));
      assert false;
    }
  }

  lemma CarryMoves(d: Store, t: nat, k: nat)
    requires k + 1 < t && Defined(d, 0, t)
    ensures var e := d[k := d[k] - DV];
      S(e[k + 1 := e[k + 1] + 1], 0, t) == S(d, 0, t)
  {
    hide Mul, P, S;
    var e := d[k := d[k] - DV];
    SUpdate(d, t, k, d[k] - DV);
    SUpdate(e, t, k + 1, e[k + 1] + 1);
    PNext(k);
    Units(P(k + 1));
    Negate(DV, P(k));
    Scale(1, P(k));
    Units(P(k));
  }
}
