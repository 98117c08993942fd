/** The generation of sjcl's tables: one walk through the field, multiplying by x + 1 on one side and
    dividing by it on the other, yields every element with its inverse; the loop stops when it comes
    back to an element it has met, and then the tables are complete. */
module SjclGenerator {
  import opened AesTables
  import opened Galois
  import opened AesState
  import opened Words
  import opened SjclTables
  import opened Logarithms

  /** What the substitution does after inversion. */
  function Affine(x: bv8): bv8 {
    var y := x as bv16;
    var o := y ^ (y << 1) ^ (y << 2) ^ (y << 3) ^ (y << 4);
    ((o >> 8) ^ (o & 255) ^ 99) as bv8
  }

  function InvAffine(s: bv8): bv8 {
    ((s << 1) | (s >> 7)) ^ ((s << 3) | (s >> 5)) ^ ((s << 6) | (s >> 2)) ^ 0x05
  }

  lemma AffineInverse(s: bv8)
    ensures Affine(InvAffine(s)) == s
  {
  }

  /** The inverse of an element, read off the S-box. */
  function Inverse(w: bv8): bv8 {
    InvAffine(SBox(w))
  }

  /** The negative of a logarithm, modulo 255. */
  function Negative(k: bv8): bv8 {
    if k == 0 then 0 else 0xff - k
  }

  lemma ExpInverseLowest(w: bv8)
    requires 0 < w < 0x40
    ensures Inverse(w) == Exp(Negative(Log(w)))
  {
  }

  lemma ExpInverseLow(w: bv8)
    requires 0x40 <= w < 0x80
    ensures Inverse(w) == Exp(Negative(Log(w)))
  {
  }

  lemma ExpInverseMiddle(w: bv8)
    requires 0x80 <= w < 0xc0
    ensures Inverse(w) == Exp(Negative(Log(w)))
  {
  }

  lemma ExpInverseHigh(w: bv8)
    requires w >= 0xc0
    ensures Inverse(w) == Exp(Negative(Log(w)))
  {
  }

  /** The inverse is the power with the negative of the logarithm. */
  lemma ExpInverse(w: bv8)
    requires w != 0
    ensures Inverse(w) == Exp(Negative(Log(w)))
  {
    hide Inverse, Log, Exp, Negative;
    if w < 0x40 {
      ExpInverseLowest(w);
    } else if w < 0x80 {
      ExpInverseLow(w);
    } else if w < 0xc0 {
      ExpInverseMiddle(w);
    } else {
      ExpInverseHigh(w);
    }
  }

  lemma ExpStepLow(k: bv8)
    requires k < 0x80
    ensures Triple(Exp(k)) == Exp(k + 1) && Exp(k) != 0
  {
  }

  lemma ExpStepHigh(k: bv8)
    requires 0x80 <= k < 254
    ensures Triple(Exp(k)) == Exp(k + 1) && Exp(k) != 0
  {
  }

  /** The next power is the triple. */
  lemma ExpStep(k: bv8)
    requires k < 255
    ensures Triple(Exp(k)) == Exp(if k == 254 then 0 else k + 1) && Exp(k) != 0
  {
    if k < 0x80 {
      ExpStepLow(k);
    } else if k < 254 {
      ExpStepHigh(k);
    }
  }

  /** Multiplying an element by x + 1 divides its inverse by x + 1. */
  lemma InverseStep(w: bv8)
    requires w != 0
    ensures Triple(Inverse(Triple(w))) == Inverse(w) && Inverse(w) != 0
  {
    hide Inverse, Log, Exp, Triple;
    LogTriple(w);
    ExpInverse(w);
    ExpInverse(Triple(w));
    ExpStep(Negative(Log(w)));
    ExpStep(Negative(Log(Triple(w))));
  }

  lemma InverseStart()
    ensures Inverse(1) == 1 && Inverse(0) == 0
  {
  }

  /** An element as an index. */
  function Num(b: bv8): (n: nat)
    ensures n < 256
  {
    b as nat
  }

  lemma NumInjective(a: bv8, b: bv8)
    ensures Num(a) == Num(b) ==> a == b
  {
  }

  lemma NumNext(b: bv8)
    requires Num(b) < 255
    ensures Num(b + 1) == Num(b) + 1
  {
  }

  lemma NumZero()
    ensures Num(0) == 0
  {
  }

  /** The element with an index. */
  function Element(n: nat): (b: bv8)
    requires n < 256
    ensures Num(b) == n
  {
    if n == 0 then
      NumZero();
      0
    else
      NumNext(Element(n - 1));
      Element(n - 1) + 1
  }

  lemma LogStep(w: bv8)
    requires w != 0
    ensures Triple(w) != 0 && Num(Log(w)) < 255
    ensures Num(Log(Triple(w))) == if Num(Log(w)) == 254 then 0 else Num(Log(w)) + 1
  {
    hide Log, Triple;
    LogTriple(w);
    LogCarry(Log(w));
  }

  lemma LogCarry(k: bv8)
    requires k < 255
    ensures k < 254 ==> Num(k + 1) == Num(k) + 1
  {
  }

  lemma LogStart()
    ensures Num(Log(1)) == 0 && SBox(1) == 0x7c && Num(0) == 0
  {
  }

  /** The doubles and the thirds, tabled first. */
  ghost predicate Doubles(v: map<nat, bv8>, u: map<nat, bv8>, n: nat) {
    forall b: bv8 :: Num(b) < n ==>
      Num(b) in v && v[Num(b)] == XTime(b) && Num(Triple(b)) in u && u[Num(Triple(b))] == b
  }

  lemma DoubledNext(v: map<nat, bv8>, u: map<nat, bv8>, n: nat)
    requires n < 256 && Doubles(v, u, n)
    ensures var b := Element(n);
      Doubles(v[n := XTime(b)], u[Num(Triple(b)) := b], n + 1)
  {
    hide XTime, Triple, Num;
    var b := Element(n);
    forall c: bv8 | Num(c) < n + 1
      ensures var w, t := v[n := XTime(b)], u[Num(Triple(b)) := b];
        Num(c) in w && w[Num(c)] == XTime(c) && Num(Triple(c)) in t && t[Num(Triple(c))] == c
    {
      NumInjective(b, c);
      NumInjective(Triple(b), Triple(c));
      TripleInjective(b, c);
    }
  }

  lemma DoubleFormula(b: bv8)
    ensures var d := ((b as bv32) << 1) ^ (283 * ((b as bv32) >> 7));
      d < 256 && d as bv8 == XTime(b)
    ensures XTime(b) ^ b == Triple(b)
  {
  }

  method Doubling() returns (v: map<nat, bv8>, u: map<nat, bv8>)
    ensures Doubles(v, u, 256)
  {
    hide Doubles, XTime, Triple, Num;
    v, u := map[], map[];
    NothingDoubled();
    for n := 0 to 256
      invariant Doubles(v, u, n)
    {
      var b := Element(n);
      DoubleFormula(b);
      DoubledNext(v, u, n);
      v := v[n := (((b as bv32) << 1) ^ (283 * ((b as bv32) >> 7))) as bv8];
      u := u[Num(v[n] ^ b) := b];
    }
  }

  lemma NothingDoubled()
    ensures Doubles(map[], map[], 0)
  {
  }

  /** The words that the round tables start from, by the program's formulas. */
  lemma EncryptingFormula(o: bv8, d: bv8)
    requires d == XTime(o)
    ensures (257 * d as bv32) ^ (16843008 * o as bv32) == Pack(o, o, Add(o, d), d)
  {
  }

  lemma Spreads(b: bv8)
    ensures 16843009 * b as bv32 == Pack(b, b, b, b) && 65537 * b as bv32 == Pack(0, b, 0, b)
    ensures 257 * b as bv32 == Pack(0, 0, b, b) && 16843008 * b as bv32 == Pack(b, b, b, 0)
  {
  }

  function DecryptingWord(w: bv8, s: bv8, n: bv8, i: bv8): Word32 {
    Xor(Xor(Xor(16843009 * i as bv32, 65537 * n as bv32), 257 * s as bv32), 16843008 * w as bv32)
  }

  lemma DecryptingFormula(w: bv8, s: bv8, n: bv8, i: bv8)
    ensures DecryptingWord(w, s, n, i) == Pack(Add(i, w), Add(Add(i, n), w), Add(Add(i, s), w), Add(Add(i, n), s))
  {
    hide Pack, Add, Xor;
    Spreads(i);
    Spreads(n);
    Spreads(s);
    Spreads(w);
    PackXor(i, i, i, i, 0, n, 0, n);
    PackXor(Add(i, 0), Add(i, n), Add(i, 0), Add(i, n), 0, 0, s, s);
    PackXor(Add(Add(i, 0), 0), Add(Add(i, n), 0), Add(Add(i, 0), s), Add(Add(i, n), s), w, w, w, 0);
    AddLaws(i, 0, 0);
    AddLaws(Add(i, n), 0, 0);
    AddLaws(Add(Add(i, n), s), 0, 0);
  }

  /** The coefficients of the decrypting mix in powers of x: 9, 13, 11 and 14. */
  lemma SpreadIs(w: bv8)
    ensures var s := XTime(w);
      var n := XTime(s);
      var i := XTime(n);
      DecryptingWord(w, s, n, i) == Spread(w, true)
  {
    var s := XTime(w);
    var n := XTime(s);
    var i := XTime(n);
    DecryptingFormula(w, s, n, i);
    MulShort(w, 9);
    MulShort(w, 13);
    MulShort(w, 11);
    MulShort(w, 14);
    hide Add, Mul, XTime, Pack, DecryptingWord;
    AddLaws(0, 0, 0);
    AddLaws(i, 0, 0);
    AddLaws(n, 0, 0);
    AddLaws(Add(n, i), 0, 0);
    AddLaws(Add(s, i), 0, 0);
    AddLaws(Add(s, Add(n, i)), 0, 0);
    AddLaws(w, i, 0);
    AddLaws(w, Add(n, i), 0);
    AddLaws(w, Add(s, i), 0);
    AddLaws(n, i, 0);
    AddLaws(s, i, 0);
    AddLaws(s, Add(n, i), 0);
  }

  lemma EncryptingSpread(o: bv8)
    ensures (257 * XTime(o) as bv32) ^ (16843008 * o as bv32) == Spread(o, false)
  {
    hide Add, Mul, XTime, Pack;
    EncryptingFormula(o, XTime(o));
    MulUnits(o);
  }

  type RoundTable = map<nat, Word32>

  /** The entries for element w in the four encrypting and the four decrypting round tables. */
  ghost predicate RoundEntries(r: seq<RoundTable>, q: seq<RoundTable>, w: bv8)
    requires |r| == |q| == 4
  {
    forall n :: 0 <= n < 4 ==>
      && Num(w) in r[n] && r[n][Num(w)] == Table(n, w, false)
      && Num(SBox(w)) in q[n] && q[n][Num(SBox(w))] == Table(n, SBox(w), true)
  }

  /** Elements met after t steps of the walk: 0, and those with a logarithm below t - 1. */
  ghost predicate Met(e: bv8, t: nat) {
    t > 0 && (e == 0 || Num(Log(e)) < t - 1)
  }

  datatype Tables = Tables(p: map<nat, bv8>, o: map<nat, bv8>, r: seq<RoundTable>, q: seq<RoundTable>) {
    /** All four kinds of tables hold what they should for element e. */
    ghost predicate Entry(e: bv8)
      requires |r| == |q| == 4
    {
      && Num(e) in p && p[Num(e)] == SBox(e)
      && Num(SBox(e)) in o && o[Num(SBox(e))] == e
      && RoundEntries(r, q, e)
    }

    ghost predicate After(t: nat) {
      && |r| == |q| == 4
      && (forall e: bv8 :: Met(e, t) ==> Entry(e))
      && (forall e: bv8 :: Num(e) in p ==> Met(e, t))
    }
  }

  lemma SBoxInjective(v: bv8, w: bv8)
    ensures SBox(v) == SBox(w) ==> v == w
  {
    hide SBox, InvSBox;
    SBoxInverse(v);
    SBoxInverse(w);
  }

  lemma MetNext(e: bv8, w: bv8, t: nat)
    requires if t == 0 then w == 0 else w != 0 && Num(Log(w)) == t - 1
    ensures Met(e, t + 1) <==> Met(e, t) || e == w
    ensures !Met(w, t)
  {
    hide Log, Num;
    if e != 0 && w != 0 && Num(Log(e)) == Num(Log(w)) {
      NumInjective(Log(e), Log(w));
      LogInjective(e, w);
    }
  }

  /** The walk's next element: 1 after 0, and the triple otherwise. */
  function Following(w: bv8): bv8 {
    if w == 0 then 1 else Triple(w)
  }

  lemma AfterNext(b: Tables, c: Tables, w: bv8, t: nat)
    requires b.After(t) && |c.r| == |c.q| == 4
    requires if t == 0 then w == 0 else w != 0 && Num(Log(w)) == t - 1
    requires c.p == b.p[Num(w) := SBox(w)] && c.o == b.o[Num(SBox(w)) := w]
    requires RoundEntries(c.r, c.q, w)
    requires forall e: bv8 :: e != w && RoundEntries(b.r, b.q, e) ==> RoundEntries(c.r, c.q, e)
    ensures c.After(t + 1)
  {
    hide SBox, Num, Met, RoundEntries;
    forall e: bv8 | Met(e, t + 1) ensures c.Entry(e) {
      MetNext(e, w, t);
      if e != w {
        assert b.Entry(e);
        NumInjective(e, w);
        NumInjective(SBox(e), SBox(w));
        SBoxInjective(e, w);
      }
    }
    forall e: bv8 | Num(e) in c.p ensures Met(e, t + 1) {
      MetNext(e, w, t);
      NumInjective(e, w);
    }
  }

  /** Writes the eight entries that an element has in the round tables, turning a word each time. */
  method FillRounds(r: seq<RoundTable>, q: seq<RoundTable>, w: bv8, i: Word32, j: Word32)
    returns (rr: seq<RoundTable>, qq: seq<RoundTable>)
    requires |r| == |q| == 4
    requires i == Spread(SBox(w), false) && j == Spread(w, true)
    ensures |rr| == |qq| == 4 && RoundEntries(rr, qq, w)
    ensures forall n :: 0 <= n < 4 ==> rr[n] == r[n][Num(w) := Table(n, w, false)]
    ensures forall n :: 0 <= n < 4 ==> qq[n] == q[n][Num(SBox(w)) := Table(n, SBox(w), true)]
  {
    hide SBox, InvSBox, Spread, Num, Table, RoundEntries;
    rr, qq := r, q;
    var a, b := i, j;
    for n := 0 to 4
      invariant |rr| == |qq| == 4
      invariant forall k :: n <= k < 4 ==> rr[k] == r[k] && qq[k] == q[k]
      invariant forall k :: 0 <= k < n ==> rr[k] == r[k][Num(w) := Table(k, w, false)]
      invariant forall k :: 0 <= k < n ==> qq[k] == q[k][Num(SBox(w)) := Table(k, SBox(w), true)]
      invariant a == if n == 0 then i else Table(n - 1, w, false)
      invariant b == if n == 0 then j else Table(n - 1, SBox(w), true)
    {
      TableTurns(n, w);
      a := TurnRight(a);
      var row: RoundTable := rr[n][Num(w) := a];
      rr := rr[n := row];
      b := TurnRight(b);
      var back: RoundTable := qq[n][Num(SBox(w)) := b];
      qq := qq[n := back];
    }
    EntriesFilled(rr, qq, r, q, w);
  }

  lemma TableTurns(n: nat, w: bv8)
    ensures Table(n, w, false) == TurnRight(if n == 0 then Spread(SBox(w), false) else Table(n - 1, w, false))
    ensures Table(n, SBox(w), true) == TurnRight(if n == 0 then Spread(w, true) else Table(n - 1, SBox(w), true))
  {
    hide SBox, InvSBox, Spread;
    SBoxInverse(w);
  }

  lemma EntriesFilled(rr: seq<RoundTable>, qq: seq<RoundTable>, r: seq<RoundTable>, q: seq<RoundTable>, w: bv8)
    requires |r| == |q| == |rr| == |qq| == 4
    requires forall n :: 0 <= n < 4 ==> rr[n] == r[n][Num(w) := Table(n, w, false)]
    requires forall n :: 0 <= n < 4 ==> qq[n] == q[n][Num(SBox(w)) := Table(n, SBox(w), true)]
    ensures RoundEntries(rr, qq, w)
  {
    hide SBox, Num, Table;
  }

  lemma OthersKept(r: seq<RoundTable>, q: seq<RoundTable>, rr: seq<RoundTable>, qq: seq<RoundTable>, w: bv8)
    requires |r| == |q| == |rr| == |qq| == 4
    requires forall n :: 0 <= n < 4 ==> rr[n] == r[n][Num(w) := Table(n, w, false)]
    requires forall n :: 0 <= n < 4 ==> qq[n] == q[n][Num(SBox(w)) := Table(n, SBox(w), true)]
    ensures forall e: bv8 :: e != w && RoundEntries(r, q, e) ==> RoundEntries(rr, qq, e)
  {
    hide SBox, Num, Table;
    forall e: bv8 | e != w && RoundEntries(r, q, e) ensures RoundEntries(rr, qq, e) {
      NumInjective(e, w);
      NumInjective(SBox(e), SBox(w));
      SBoxInjective(e, w);
    }
  }

  /** One turn of the walk. */
  method Step(b: Tables, v: map<nat, bv8>, u: map<nat, bv8>, w: bv8, x: bv8, ghost t: nat)
    returns (c: Tables, next: bv8, inverse: bv8)
    requires b.After(t) && Doubles(v, u, 256) && x == Inverse(w)
    requires if t == 0 then w == 0 else w != 0 && Num(Log(w)) == t - 1
    ensures c.After(t + 1) && next == Following(w) && inverse == Inverse(next)
  {
    hide SBox, InvSBox, Num, Log, XTime, Triple, Affine, InvAffine, Spread, RoundEntries, Met;
    AffineInverse(SBox(w));
    var o := Affine(x);
    var p, oo := b.p[Num(w) := o], b.o[Num(o) := w];
    assert forall d: bv8 :: Num(d) < 256;
    var s := v[Num(w)];
    var n := v[Num(s)];
    var i := v[Num(n)];
    SpreadIs(w);
    EncryptingSpread(o);
    var rr, qq := FillRounds(b.r, b.q, w, (257 * v[Num(o)] as bv32) ^ (16843008 * o as bv32),
                             DecryptingWord(w, s, n, i));
    OthersKept(b.r, b.q, rr, qq, w);
    c := Tables.Tables(p, oo, rr, qq);
    AfterNext(b, c, w, t);
    next, inverse := Advance(v, u, w, x, s);
  }

  method Advance(v: map<nat, bv8>, u: map<nat, bv8>, w: bv8, x: bv8, s: bv8) returns (next: bv8, inverse: bv8)
    requires Doubles(v, u, 256) && x == Inverse(w) && s == XTime(w)
    ensures next == Following(w) && inverse == Inverse(next)
  {
    hide SBox, InvAffine, Num, XTime, Triple, Doubles;
    InverseStart();
    StartStep();
    DoubleFormula(w);
    NonZero(w, s);
    Third(v, u, if w == 0 then 0 else Inverse(Triple(w)));
    if w != 0 {
      InverseStep(w);
      LogStep(w);
      InverseStep(Triple(w));
    }
    next := w ^ (if s != 0 then s else 1);
    var third := u[Num(x)];
    inverse := if third != 0 then third else 1;
  }

  lemma Third(v: map<nat, bv8>, u: map<nat, bv8>, b: bv8)
    requires Doubles(v, u, 256)
    ensures Num(Triple(b)) in u && u[Num(Triple(b))] == b
  {
    assert Num(b) < 256;
  }

  lemma StartStep()
    ensures Triple(0) == 0 && XTime(0) == 0 && Triple(1) != 0
  {
  }

  lemma NonZero(w: bv8, s: bv8)
    requires s == XTime(w)
    ensures s == 0 <==> w == 0
    ensures w ^ s == s ^ w && (w == 0 ==> w ^ 1 == 1)
  {
  }

  /** The whole generation. */
  method Generate() returns (b: Tables)
    ensures |b.r| == |b.q| == 4
    ensures forall e: bv8 :: b.Entry(e)
  {
    hide SBox, Num, Log, Inverse, Doubles, Met, RoundEntries, Triple;
    var v, u := Doubling();
    b := Tables.Tables(map[], map[], [map[], map[], map[], map[]], [map[], map[], map[], map[]]);
    var w: bv8, x: bv8 := 0, 0;
    InverseStart();
    LogStart();
    NothingMet();
    ghost var t := 0;
    while !(Num(w) in b.p && b.p[Num(w)] != 0)
      invariant b.After(t) && x == Inverse(w) && t <= 256
      invariant if t == 0 then w == 0 else w != 0 && Num(Log(w)) == if t == 256 then 0 else t - 1
      decreases 256 - t
    {
      NotBack(b, w, t);
      if w != 0 {
        LogStep(w);
      }
      b, w, x := Step(b, v, u, w, x, t);
      t := t + 1;
    }
    Stopped(b, w, t);
    forall e: bv8 ensures b.Entry(e) {
      AllMet(e);
    }
  }

  lemma NothingMet()
    ensures forall e: bv8 :: !Met(e, 0)
  {
  }

  /** After 256 steps the walk is back at 1, which has an entry, and not zero: the loop stops. */
  lemma NotBack(b: Tables, w: bv8, t: nat)
    requires b.After(t) && t <= 256 && !(Num(w) in b.p && b.p[Num(w)] != 0)
    requires if t == 0 then w == 0 else w != 0 && Num(Log(w)) == if t == 256 then 0 else t - 1
    ensures t < 256
  {
    hide SBox, Num, Log, Met;
    if t == 256 {
      LogStart();
      NumInjective(Log(w), Log(1));
      LogInjective(w, 1);
      AllMet(w);
    }
  }

  lemma AllMet(e: bv8)
    ensures Met(e, 256)
  {
    hide Log, Num, Triple;
    if e != 0 {
      LogStep(e);
    }
  }

  /** Before that it never is at an element it has met. */
  lemma Stopped(b: Tables, w: bv8, t: nat)
    requires b.After(t) && t <= 256 && Num(w) in b.p
    requires if t == 0 then w == 0 else w != 0 && Num(Log(w)) == if t == 256 then 0 else t - 1
    ensures t == 256
  {
    hide SBox, Num, Log;
    assert Met(w, t);
  }
}
