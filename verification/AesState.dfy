/** The four transformations of the cipher's state and their inverses.  A state is 16 bytes,
    row by row: byte 4 * r + c is row r of column c.  `inv` selects the inverse transformation. */
module AesState {
  import opened AesTables
  import opened Galois

  type State = s: seq<bv8> | |s| == 16 witness seq(16, _ => 0)

  function Substitute(x: bv8, inv: bool): bv8 {
    if inv then InvSBox(x) else SBox(x)
  }

  function SubBytes(s: State, inv: bool): State {
    seq(16, i requires 0 <= i < 16 => Substitute(s[i], inv))
  }

  /** Where place c of a row comes from once the row has turned n places, to the left or the right. */
  function Turned(c: nat, n: nat, inv: bool): (d: nat)
    requires c < 4 && n < 4
    ensures d < 4
  {
    var k := if inv then c + 4 - n else c + n;
    if k >= 4 then k - 4 else k
  }

  lemma NotTurned(c: nat, inv: bool)
    requires c < 4
    ensures Turned(c, 0, inv) == c
  {
  }

  /** Where byte i comes from when row r of the state turns by r places. */
  function Source(i: nat, inv: bool): (j: nat)
    requires i < 16
    ensures j < 16
  {
    4 * (i / 4) + Turned(i % 4, i / 4, inv)
  }

  lemma SourceTurned(c: nat, r: nat, inv: bool)
    requires c < 4 && r < 4
    ensures Source(4 * r + c, inv) == 4 * r + Turned(c, r, inv)
  {
    hide Turned;
    assert (4 * r + c) / 4 == r && (4 * r + c) % 4 == c;
  }

  function ShiftRows(s: State, inv: bool): State {
    seq(16, i requires 0 <= i < 16 => s[Source(i, inv)])
  }

  function Sum4(a: bv8, b: bv8, c: bv8, d: bv8): bv8 {
    Add(Add(Add(a, b), c), d)
  }

  /** One byte of a mixed column, from that byte and the three above it, cyclically. */
  function Dot(a: bv8, b: bv8, c: bv8, d: bv8, inv: bool): bv8 {
    if inv then Sum4(Mul(a, 14), Mul(b, 9), Mul(c, 13), Mul(d, 11))
    else Sum4(Mul(a, 2), Mul(b, 1), Mul(c, 1), Mul(d, 3))
  }

  /** The byte k rows above byte i, in the same column. */
  function Above(i: nat, k: nat): (j: nat)
    requires i < 16 && k < 4
    ensures j < 16
  {
    if i >= 4 * k then i - 4 * k else i + 16 - 4 * k
  }

  function MixColumns(s: State, inv: bool): State {
    seq(16, i requires 0 <= i < 16 => Dot(s[i], s[Above(i, 1)], s[Above(i, 2)], s[Above(i, 3)], inv))
  }

  function AddRoundKey(s: State, k: State): State {
    seq(16, i requires 0 <= i < 16 => Add(s[i], k[i]))
  }

  lemma SubBytesInverse(s: State, inv: bool)
    ensures SubBytes(SubBytes(s, inv), !inv) == s
  {
    hide SBox, InvSBox;
    var t := SubBytes(SubBytes(s, inv), !inv);
    forall i | 0 <= i < 16 ensures t[i] == s[i] {
      SBoxInverse(s[i]);
      assert SubBytes(s, inv)[i] == Substitute(s[i], inv);
    }
  }

  lemma SourceInverse(i: nat, inv: bool)
    requires i < 16
    ensures Source(Source(i, !inv), inv) == i
  {
  }

  lemma ShiftRowsInverse(s: State, inv: bool)
    ensures ShiftRows(ShiftRows(s, inv), !inv) == s
  {
    hide Source;
    var t := ShiftRows(ShiftRows(s, inv), !inv);
    forall i | 0 <= i < 16 ensures t[i] == s[i] {
      SourceInverse(i, inv);
    }
  }

  lemma AddRoundKeyInverse(s: State, k: State)
    ensures AddRoundKey(AddRoundKey(s, k), k) == s
  {
    hide Add;
    var t := AddRoundKey(AddRoundKey(s, k), k);
    forall i | 0 <= i < 16 ensures t[i] == s[i] {
      AddCancels(s[i], k[i]);
    }
  }

  lemma Sum4Mul(a: bv8, b: bv8, c: bv8, d: bv8, k: bv8)
    ensures Mul(Sum4(a, b, c, d), k) == Sum4(Mul(a, k), Mul(b, k), Mul(c, k), Mul(d, k))
  {
    hide Add, Mul;
    MulLinear(Add(Add(a, b), c), d, k);
    MulLinear(Add(a, b), c, k);
    MulLinear(a, b, k);
  }

  lemma Sum4Add(a: bv8, b: bv8, c: bv8, d: bv8, e: bv8, f: bv8, g: bv8, h: bv8)
    ensures Add(Sum4(a, b, c, d), Sum4(e, f, g, h)) == Sum4(Add(a, e), Add(b, f), Add(c, g), Add(d, h))
  {
    hide Add;
    AddMixed(Add(Add(a, b), c), d, Add(Add(e, f), g), h);
    AddMixed(Add(a, b), c, Add(e, f), g);
    AddMixed(a, b, e, f);
  }

  lemma Sum4Turn(a: bv8, b: bv8, c: bv8, d: bv8)
    ensures Sum4(b, c, d, a) == Sum4(a, b, c, d)
  {
    hide Add;
    AddLaws(Add(Add(b, c), d), a, 0);
    AddLaws(a, Add(b, c), d);
    AddLaws(a, b, c);
  }

  lemma Sum4Transpose(a: seq<bv8>, b: seq<bv8>, c: seq<bv8>, d: seq<bv8>)
    requires |a| == |b| == |c| == |d| == 4
    ensures Sum4(Sum4(a[0], b[0], c[0], d[0]), Sum4(a[1], b[1], c[1], d[1]),
                 Sum4(a[2], b[2], c[2], d[2]), Sum4(a[3], b[3], c[3], d[3]))
         == Sum4(Sum4(a[0], a[1], a[2], a[3]), Sum4(b[0], b[1], b[2], b[3]),
                 Sum4(c[0], c[1], c[2], c[3]), Sum4(d[0], d[1], d[2], d[3]))
  {
    hide Add;
    Sum4Add(a[0], b[0], c[0], d[0], a[1], b[1], c[1], d[1]);
    Sum4Add(Add(a[0], a[1]), Add(b[0], b[1]), Add(c[0], c[1]), Add(d[0], d[1]), a[2], b[2], c[2], d[2]);
    Sum4Add(Add(Add(a[0], a[1]), a[2]), Add(Add(b[0], b[1]), b[2]), Add(Add(c[0], c[1]), c[2]),
            Add(Add(d[0], d[1]), d[2]), a[3], b[3], c[3], d[3]);
  }

  /** The product of a coefficient 1, 2 or 3 of the mix with a short polynomial. */
  function Times(m: bv8, c: bv8): bv8 {
    if m == 1 then c else if m == 2 then c << 1 else Add(c << 1, c)
  }

  lemma MulTwice(a: bv8, m: bv8, c: bv8)
    requires 1 <= m <= 3 && c < 0x10
    ensures Mul(Mul(a, m), c) == Mul(a, Times(m, c)) == Mul(Mul(a, c), m)
  {
    hide Mul, Add;
    assert m == 1 || m == 2 || m == 3;
    MulUnits(a);
    MulUnits(Mul(a, c));
    MulDouble(a, c);
    MulTriple(a, c);
  }

  lemma Gathered(a: bv8, p: bv8, q: bv8, r: bv8, s: bv8)
    ensures Sum4(Mul(a, p), Mul(a, q), Mul(a, r), Mul(a, s)) == Mul(a, Sum4(p, q, r, s))
  {
    hide Mul, Add;
    MulRight(a, p, q);
    MulRight(a, Add(p, q), r);
    MulRight(a, Add(Add(p, q), r), s);
  }

  /** The coefficients of the two mixes cancel: each row times each column of the product. */
  lemma Coefficients()
    ensures Times(2, 14) == 28 && Times(3, 14) == 18 && Times(1, 14) == 14
    ensures Times(2, 9) == 18 && Times(3, 9) == 27 && Times(1, 9) == 9
    ensures Times(2, 13) == 26 && Times(3, 13) == 23 && Times(1, 13) == 13
    ensures Times(2, 11) == 22 && Times(3, 11) == 29 && Times(1, 11) == 11
    ensures Sum4(28, 27, 13, 11) == 1 && Sum4(28, 11, 13, 27) == 1
    ensures Sum4(14, 18, 23, 11) == 0 && Sum4(18, 14, 11, 23) == 0
    ensures Sum4(14, 9, 26, 29) == 0 && Sum4(26, 9, 14, 29) == 0
    ensures Sum4(18, 9, 13, 22) == 0 && Sum4(22, 13, 9, 18) == 0
  {
  }

  /** The terms of one byte in the product of the two mixes: its coefficient is 1 ... */
  lemma Same(a: bv8)
    ensures Sum4(Mul(Mul(a, 2), 14), Mul(Mul(a, 3), 9), Mul(Mul(a, 1), 13), Mul(Mul(a, 1), 11)) == a
    ensures Sum4(Mul(Mul(a, 14), 2), Mul(Mul(a, 11), 1), Mul(Mul(a, 13), 1), Mul(Mul(a, 9), 3)) == a
  {
    hide Mul, Add, Sum4, Times;
    Coefficients();
    MulUnits(a);
    MulTwice(a, 2, 14); MulTwice(a, 3, 9); MulTwice(a, 1, 13); MulTwice(a, 1, 11);
    Gathered(a, 28, 27, 13, 11);
    Gathered(a, 28, 11, 13, 27);
  }

  /** ... and the coefficients of the three others are 0. */
  lemma Gone(a: bv8)
    ensures Sum4(Mul(Mul(a, 1), 14), Mul(Mul(a, 2), 9), Mul(Mul(a, 3), 13), Mul(Mul(a, 1), 11)) == 0
    ensures Sum4(Mul(Mul(a, 9), 2), Mul(Mul(a, 14), 1), Mul(Mul(a, 11), 1), Mul(Mul(a, 13), 3)) == 0
  {
    hide Mul, Add, Sum4, Times;
    Coefficients();
    MulUnits(a);
    MulTwice(a, 1, 14); MulTwice(a, 2, 9); MulTwice(a, 3, 13); MulTwice(a, 1, 11);
    Gathered(a, 14, 18, 23, 11);
    Gathered(a, 18, 14, 11, 23);
  }

  lemma GoneNext(a: bv8)
    ensures Sum4(Mul(Mul(a, 1), 14), Mul(Mul(a, 1), 9), Mul(Mul(a, 2), 13), Mul(Mul(a, 3), 11)) == 0
    ensures Sum4(Mul(Mul(a, 13), 2), Mul(Mul(a, 9), 1), Mul(Mul(a, 14), 1), Mul(Mul(a, 11), 3)) == 0
  {
    hide Mul, Add, Sum4, Times;
    Coefficients();
    MulUnits(a);
    MulTwice(a, 1, 14); MulTwice(a, 1, 9); MulTwice(a, 2, 13); MulTwice(a, 3, 11);
    Gathered(a, 14, 9, 26, 29);
    Gathered(a, 26, 9, 14, 29);
  }

  lemma GoneLast(a: bv8)
    ensures Sum4(Mul(Mul(a, 3), 14), Mul(Mul(a, 1), 9), Mul(Mul(a, 1), 13), Mul(Mul(a, 2), 11)) == 0
    ensures Sum4(Mul(Mul(a, 11), 2), Mul(Mul(a, 13), 1), Mul(Mul(a, 9), 1), Mul(Mul(a, 14), 3)) == 0
  {
    hide Mul, Add, Sum4, Times;
    Coefficients();
    MulUnits(a);
    MulTwice(a, 3, 14); MulTwice(a, 1, 9); MulTwice(a, 1, 13); MulTwice(a, 2, 11);
    Gathered(a, 18, 9, 13, 22);
    Gathered(a, 22, 13, 9, 18);
  }

  /** A row of coefficients times a column that was mixed with another row of them, gathered by
      the byte each term comes from. */
  lemma Regrouped(a: bv8, b: bv8, c: bv8, d: bv8, m: seq<bv8>, n: seq<bv8>)
    requires |m| == |n| == 4
    ensures Sum4(Mul(Sum4(Mul(a, m[0]), Mul(b, m[1]), Mul(c, m[2]), Mul(d, m[3])), n[0]),
                 Mul(Sum4(Mul(b, m[0]), Mul(c, m[1]), Mul(d, m[2]), Mul(a, m[3])), n[1]),
                 Mul(Sum4(Mul(c, m[0]), Mul(d, m[1]), Mul(a, m[2]), Mul(b, m[3])), n[2]),
                 Mul(Sum4(Mul(d, m[0]), Mul(a, m[1]), Mul(b, m[2]), Mul(c, m[3])), n[3]))
         == Sum4(Sum4(Mul(Mul(a, m[0]), n[0]), Mul(Mul(a, m[3]), n[1]),
                       Mul(Mul(a, m[2]), n[2]), Mul(Mul(a, m[1]), n[3])),
                 Sum4(Mul(Mul(b, m[1]), n[0]), Mul(Mul(b, m[0]), n[1]),
                       Mul(Mul(b, m[3]), n[2]), Mul(Mul(b, m[2]), n[3])),
                 Sum4(Mul(Mul(c, m[2]), n[0]), Mul(Mul(c, m[1]), n[1]),
                       Mul(Mul(c, m[0]), n[2]), Mul(Mul(c, m[3]), n[3])),
                 Sum4(Mul(Mul(d, m[3]), n[0]), Mul(Mul(d, m[2]), n[1]),
                       Mul(Mul(d, m[1]), n[2]), Mul(Mul(d, m[0]), n[3])))
  {
    hide Mul, Add, Sum4;
    Sum4Mul(Mul(a, m[0]), Mul(b, m[1]), Mul(c, m[2]), Mul(d, m[3]), n[0]);
    Sum4Mul(Mul(b, m[0]), Mul(c, m[1]), Mul(d, m[2]), Mul(a, m[3]), n[1]);
    Sum4Mul(Mul(c, m[0]), Mul(d, m[1]), Mul(a, m[2]), Mul(b, m[3]), n[2]);
    Sum4Mul(Mul(d, m[0]), Mul(a, m[1]), Mul(b, m[2]), Mul(c, m[3]), n[3]);
    ghost var p := [Mul(Mul(a, m[0]), n[0]), Mul(Mul(a, m[3]), n[1]),
                       Mul(Mul(a, m[2]), n[2]), Mul(Mul(a, m[1]), n[3])];
    ghost var q := [Mul(Mul(b, m[1]), n[0]), Mul(Mul(b, m[0]), n[1]),
                       Mul(Mul(b, m[3]), n[2]), Mul(Mul(b, m[2]), n[3])];
    ghost var r := [Mul(Mul(c, m[2]), n[0]), Mul(Mul(c, m[1]), n[1]),
                       Mul(Mul(c, m[0]), n[2]), Mul(Mul(c, m[3]), n[3])];
    ghost var s := [Mul(Mul(d, m[3]), n[0]), Mul(Mul(d, m[2]), n[1]),
                       Mul(Mul(d, m[1]), n[2]), Mul(Mul(d, m[0]), n[3])];
    Sum4Turn(p[1], q[1], r[1], s[1]);
    Sum4Turn(p[2], q[2], r[2], s[2]);
    Sum4Turn(q[2], r[2], s[2], p[2]);
    Sum4Turn(p[3], q[3], r[3], s[3]);
    Sum4Turn(q[3], r[3], s[3], p[3]);
    Sum4Turn(r[3], s[3], p[3], q[3]);
    Sum4Transpose(p, q, r, s);
  }

  /** Mixing a column and then mixing it back gives every byte again. */
  lemma DotInverse(a: bv8, b: bv8, c: bv8, d: bv8, inv: bool)
    ensures Dot(Dot(a, b, c, d, inv), Dot(b, c, d, a, inv), Dot(c, d, a, b, inv), Dot(d, a, b, c, inv), !inv) == a
  {
    var forward := [2, 1, 1, 3];
    var back := [14, 9, 13, 11];
    if inv {
      Regrouped(a, b, c, d, back, forward);
    } else {
      Regrouped(a, b, c, d, forward, back);
    }
    hide Mul, Add;
    Same(a);
    Gone(b);
    GoneNext(c);
    GoneLast(d);
    AddLaws(a, 0, 0);
  }

  lemma AboveAbove(i: nat)
    requires i < 16
    ensures Above(Above(i, 1), 1) == Above(i, 2) && Above(Above(i, 1), 2) == Above(i, 3) && Above(Above(i, 1), 3) == i
    ensures Above(Above(i, 2), 1) == Above(i, 3) && Above(Above(i, 2), 2) == i && Above(Above(i, 2), 3) == Above(i, 1)
    ensures Above(Above(i, 3), 1) == i && Above(Above(i, 3), 2) == Above(i, 1) && Above(Above(i, 3), 3) == Above(i, 2)
  {
  }

  lemma MixColumnsInverse(s: State, inv: bool)
    ensures MixColumns(MixColumns(s, inv), !inv) == s
  {
    hide Above, Dot;
    var m := MixColumns(s, inv);
    var t := MixColumns(m, !inv);
    forall i | 0 <= i < 16 ensures t[i] == s[i] {
      AboveAbove(i);
      DotInverse(s[i], s[Above(i, 1)], s[Above(i, 2)], s[Above(i, 3)], inv);
      assert m[i] == Dot(s[i], s[Above(i, 1)], s[Above(i, 2)], s[Above(i, 3)], inv);
      assert m[Above(i, 1)] == Dot(s[Above(i, 1)], s[Above(i, 2)], s[Above(i, 3)], s[i], inv);
      assert m[Above(i, 2)] == Dot(s[Above(i, 2)], s[Above(i, 3)], s[i], s[Above(i, 1)], inv);
      assert m[Above(i, 3)] == Dot(s[Above(i, 3)], s[i], s[Above(i, 1)], s[Above(i, 2)], inv);
    }
  }
}
