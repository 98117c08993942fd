/** The table form of a round: one look-up a byte does the substitution and the mixing at once.
    Each table round equals the plain transformations of AesState. */
module SjclTables {
  import opened AesTables
  import opened Galois
  import opened AesState
  import opened AesCipher
  import opened Words

  /** The word that table generation turns round: the byte times the coefficients of a mix. */
  function Spread(t: bv8, inv: bool): Word32 {
    if inv then Pack(Mul(t, 9), Mul(t, 13), Mul(t, 11), Mul(t, 14))
    else Pack(Mul(t, 1), Mul(t, 1), Mul(t, 3), Mul(t, 2))
  }

  /** Entry x of round table n, in the encrypting or the decrypting set. */
  function Table(n: nat, x: bv8, inv: bool): Word32
    decreases n
  {
    if n == 0 then TurnRight(Spread(Substitute(x, inv), inv)) else TurnRight(Table(n - 1, x, inv))
  }

  /** Coefficient n of the mix. */
  function Coefficient(n: nat, inv: bool): bv8
    requires n < 4
  {
    if inv then [14, 9, 13, 11][n] else [2, 1, 1, 3][n]
  }

  lemma Entries(x: bv8, inv: bool)
    ensures var t := Substitute(x, inv);
      var m0, m1, m2, m3 := Mul(t, Coefficient(0, inv)), Mul(t, Coefficient(1, inv)),
                            Mul(t, Coefficient(2, inv)), Mul(t, Coefficient(3, inv));
      && Table(0, x, inv) == Pack(m0, m1, m2, m3) && Table(1, x, inv) == Pack(m3, m0, m1, m2)
      && Table(2, x, inv) == Pack(m2, m3, m0, m1) && Table(3, x, inv) == Pack(m1, m2, m3, m0)
  {
    hide Pack, TurnRight, Mul, SBox, InvSBox;
    var t := Substitute(x, inv);
    var m0, m1, m2, m3 := Mul(t, Coefficient(0, inv)), Mul(t, Coefficient(1, inv)),
                          Mul(t, Coefficient(2, inv)), Mul(t, Coefficient(3, inv));
    assert Spread(t, inv) == Pack(m1, m2, m3, m0);
    PackTurns(m1, m2, m3, m0);
    PackTurns(m0, m1, m2, m3);
    PackTurns(m3, m0, m1, m2);
    PackTurns(m2, m3, m0, m1);
  }

  /** Column c of a state, as a word. */
  function Column(s: State, c: nat): Word32
    requires c < 4
  {
    Pack(s[c], s[c + 4], s[c + 8], s[c + 12])
  }

  /** A full round, or an inverse round in the order of the equivalent inverse cipher. */
  function Next(s: State, k: State, inv: bool): State {
    AddRoundKey(MixColumns(ShiftRows(SubBytes(s, inv), inv), inv), k)
  }

  function Last(s: State, k: State, inv: bool): State {
    AddRoundKey(ShiftRows(SubBytes(s, inv), inv), k)
  }

  function TableWord(w: Word32, x: Word32, y: Word32, z: Word32, k: Word32, inv: bool): Word32 {
    Xor(Xor(Xor(Xor(Table(0, Byte0(w), inv), Table(1, Byte1(x), inv)), Table(2, Byte2(y), inv)),
            Table(3, Byte3(z), inv)), k)
  }

  function FinalWord(w: Word32, x: Word32, y: Word32, z: Word32, k: Word32, inv: bool): Word32 {
    Xor(Shifted(Substitute(Byte0(w), inv), Substitute(Byte1(x), inv), Substitute(Byte2(y), inv),
                Substitute(Byte3(z), inv)), k)
  }

  lemma Sum4Orders(a: bv8, b: bv8, c: bv8, d: bv8)
    ensures Sum4(a, b, c, d) == Sum4(a, d, c, b) == Sum4(b, a, d, c) == Sum4(c, b, a, d) == Sum4(d, c, b, a)
  {
    hide Add;
    AddLaws(a, b, c);
    AddLaws(Add(a, b), c, d);
    AddLaws(b, c, d);
    AddLaws(c, b, d);
    AddLaws(d, b, c);
    AddLaws(a, Add(Add(b, c), d), 0);
    AddLaws(a, b, Add(c, d));
    AddLaws(a, d, Add(c, b));
    AddLaws(a, Add(d, c), b);
    AddLaws(d, c, b);
    AddLaws(a, d, c);
    AddLaws(Add(b, a), d, c);
    AddLaws(d, c, 0);
    AddLaws(c, d, 0);
    AddLaws(Add(c, b), a, d);
    AddLaws(c, b, a);
    AddLaws(c, Add(b, a), d);
    AddLaws(c, d, Add(b, a));
    AddLaws(Add(d, c), b, a);
    AddLaws(Add(a, b), Add(d, c), 0);
  }

  /** The four look-ups of a round add up to a mixed column of the substituted bytes. */
  lemma Mixed(a: bv8, b: bv8, c: bv8, d: bv8, inv: bool)
    ensures Xor(Xor(Xor(Table(0, a, inv), Table(1, b, inv)), Table(2, c, inv)), Table(3, d, inv))
      == var p, q, r, s := Substitute(a, inv), Substitute(b, inv), Substitute(c, inv), Substitute(d, inv);
         Pack(Dot(p, s, r, q, inv), Dot(q, p, s, r, inv), Dot(r, q, p, s, inv), Dot(s, r, q, p, inv))
  {
    hide Pack, Xor, Mul, Add, Table, Substitute, Coefficient;
    var p, q, r, s := Substitute(a, inv), Substitute(b, inv), Substitute(c, inv), Substitute(d, inv);
    Entries(a, inv);
    Entries(b, inv);
    Entries(c, inv);
    Entries(d, inv);
    var m := Weights(inv);
    MixedWords(p, q, r, s, m);
    DotWeights(p, s, r, q, inv);
    DotWeights(q, p, s, r, inv);
    DotWeights(r, q, p, s, inv);
    DotWeights(s, r, q, p, inv);
  }

  function Weights(inv: bool): (m: seq<bv8>)
    ensures |m| == 4
    ensures m == [Coefficient(0, inv), Coefficient(1, inv), Coefficient(2, inv), Coefficient(3, inv)]
  {
    if inv then [14, 9, 13, 11] else [2, 1, 1, 3]
  }

  lemma DotWeights(a: bv8, b: bv8, c: bv8, d: bv8, inv: bool)
    ensures var m := Weights(inv);
      Dot(a, b, c, d, inv) == Sum4(Mul(a, m[0]), Mul(b, m[1]), Mul(c, m[2]), Mul(d, m[3]))
  {
    hide Mul, Sum4;
  }

  lemma MixedWords(p: bv8, q: bv8, r: bv8, s: bv8, m: seq<bv8>)
    requires |m| == 4
    ensures Xor(Xor(Xor(Pack(Mul(p, m[0]), Mul(p, m[1]), Mul(p, m[2]), Mul(p, m[3])),
                        Pack(Mul(q, m[3]), Mul(q, m[0]), Mul(q, m[1]), Mul(q, m[2]))),
                    Pack(Mul(r, m[2]), Mul(r, m[3]), Mul(r, m[0]), Mul(r, m[1]))),
                Pack(Mul(s, m[1]), Mul(s, m[2]), Mul(s, m[3]), Mul(s, m[0])))
      == Pack(Sum4(Mul(p, m[0]), Mul(s, m[1]), Mul(r, m[2]), Mul(q, m[3])),
              Sum4(Mul(q, m[0]), Mul(p, m[1]), Mul(s, m[2]), Mul(r, m[3])),
              Sum4(Mul(r, m[0]), Mul(q, m[1]), Mul(p, m[2]), Mul(s, m[3])),
              Sum4(Mul(s, m[0]), Mul(r, m[1]), Mul(q, m[2]), Mul(p, m[3])))
  {
    hide Pack, Xor, Mul, Add;
    var p0, p1, p2, p3 := Mul(p, m[0]), Mul(p, m[1]), Mul(p, m[2]), Mul(p, m[3]);
    var q0, q1, q2, q3 := Mul(q, m[0]), Mul(q, m[1]), Mul(q, m[2]), Mul(q, m[3]);
    var r0, r1, r2, r3 := Mul(r, m[0]), Mul(r, m[1]), Mul(r, m[2]), Mul(r, m[3]);
    var s0, s1, s2, s3 := Mul(s, m[0]), Mul(s, m[1]), Mul(s, m[2]), Mul(s, m[3]);
    PackXor(p0, p1, p2, p3, q3, q0, q1, q2);
    PackXor(Add(p0, q3), Add(p1, q0), Add(p2, q1), Add(p3, q2), r2, r3, r0, r1);
    PackXor(Add(Add(p0, q3), r2), Add(Add(p1, q0), r3), Add(Add(p2, q1), r0), Add(Add(p3, q2), r1), s1, s2, s3, s0);
    Sum4Orders(p0, q3, r2, s1);
    Sum4Orders(p1, q0, r3, s2);
    Sum4Orders(p2, q1, r0, s3);
    Sum4Orders(p3, q2, r1, s0);
  }

  lemma ColumnBytes(s: State, c: nat)
    requires c < 4
    ensures Byte0(Column(s, c)) == s[c] && Byte1(Column(s, c)) == s[c + 4]
    ensures Byte2(Column(s, c)) == s[c + 8] && Byte3(Column(s, c)) == s[c + 12]
  {
    PackBytes(s[c], s[c + 4], s[c + 8], s[c + 12]);
  }

  /** The bytes of column c after substitution and turning of the rows. */
  lemma ShiftedColumn(s: State, c: nat, inv: bool)
    requires c < 4
    ensures var t := ShiftRows(SubBytes(s, inv), inv);
      && t[c] == Substitute(s[c], inv) && t[c + 4] == Substitute(s[4 + Turned(c, 1, inv)], inv)
      && t[c + 8] == Substitute(s[8 + Turned(c, 2, inv)], inv)
      && t[c + 12] == Substitute(s[12 + Turned(c, 3, inv)], inv)
  {
    hide Substitute, Source, Turned;
    SourceTurned(c, 0, inv);
    SourceTurned(c, 1, inv);
    SourceTurned(c, 2, inv);
    SourceTurned(c, 3, inv);
    NotTurned(c, inv);
  }

  lemma MixedColumnWord(t: State, c: nat, inv: bool)
    requires c < 4
    ensures Column(MixColumns(t, inv), c) ==
      Pack(Dot(t[c], t[c + 12], t[c + 8], t[c + 4], inv), Dot(t[c + 4], t[c], t[c + 12], t[c + 8], inv),
           Dot(t[c + 8], t[c + 4], t[c], t[c + 12], inv), Dot(t[c + 12], t[c + 8], t[c + 4], t[c], inv))
  {
    hide Dot, Pack;
  }

  lemma ColumnXor(s: State, k: State, c: nat)
    requires c < 4
    ensures Column(AddRoundKey(s, k), c) == Xor(Column(s, c), Column(k, c))
  {
    hide Pack, Xor, Add;
    PackXor(s[c], s[c + 4], s[c + 8], s[c + 12], k[c], k[c + 4], k[c + 8], k[c + 12]);
  }

  /** A table round is a plain round, column by column, in either direction. */
  lemma TableRound(s: State, k: State, c: nat, inv: bool)
    requires c < 4
    ensures TableWord(Column(s, c), Column(s, Turned(c, 1, inv)), Column(s, Turned(c, 2, inv)),
                      Column(s, Turned(c, 3, inv)), Column(k, c), inv) == Column(Next(s, k, inv), c)
  {
    hide SubBytes, ShiftRows, MixColumns, AddRoundKey, Column, Pack, Xor, Dot, Table, Turned, Substitute;
    var t := ShiftRows(SubBytes(s, inv), inv);
    ColumnBytes(s, c);
    ColumnBytes(s, Turned(c, 1, inv));
    ColumnBytes(s, Turned(c, 2, inv));
    ColumnBytes(s, Turned(c, 3, inv));
    ShiftedColumn(s, c, inv);
    Mixed(s[c], s[4 + Turned(c, 1, inv)], s[8 + Turned(c, 2, inv)], s[12 + Turned(c, 3, inv)], inv);
    MixedColumnWord(t, c, inv);
    ColumnXor(MixColumns(t, inv), k, c);
  }

  lemma FinalWordPacked(w: Word32, x: Word32, y: Word32, z: Word32, k: Word32, inv: bool)
    ensures FinalWord(w, x, y, z, k, inv)
      == Xor(Pack(Substitute(Byte0(w), inv), Substitute(Byte1(x), inv), Substitute(Byte2(y), inv),
                  Substitute(Byte3(z), inv)), k)
  {
    hide Substitute, Pack, Shifted, Xor, Byte0, Byte1, Byte2, Byte3;
    PackShifts(Substitute(Byte0(w), inv), Substitute(Byte1(x), inv), Substitute(Byte2(y), inv), Substitute(Byte3(z), inv));
  }

  lemma FinalRound(s: State, k: State, c: nat, inv: bool)
    requires c < 4
    ensures FinalWord(Column(s, c), Column(s, Turned(c, 1, inv)), Column(s, Turned(c, 2, inv)),
                      Column(s, Turned(c, 3, inv)), Column(k, c), inv) == Column(Last(s, k, inv), c)
  {
    hide SubBytes, ShiftRows, AddRoundKey, Column, Pack, Xor, Turned, Substitute, FinalWord;
    var t := ShiftRows(SubBytes(s, inv), inv);
    ColumnBytes(s, c);
    ColumnBytes(s, Turned(c, 1, inv));
    ColumnBytes(s, Turned(c, 2, inv));
    ColumnBytes(s, Turned(c, 3, inv));
    ShiftedColumn(s, c, inv);
    ColumnXor(t, k, c);
    ColumnIs(t, c);
    FinalWordPacked(Column(s, c), Column(s, Turned(c, 1, inv)), Column(s, Turned(c, 2, inv)),
                    Column(s, Turned(c, 3, inv)), Column(k, c), inv);
  }

  lemma ColumnIs(s: State, c: nat)
    requires c < 4
    ensures Column(s, c) == Pack(s[c], s[c + 4], s[c + 8], s[c + 12])
  {
  }

  /** Substitution and the turning of the rows can be done in either order. */
  lemma SubShift(s: State, inv: bool)
    ensures SubBytes(ShiftRows(s, inv), inv) == ShiftRows(SubBytes(s, inv), inv)
  {
    hide Substitute, Source;
  }

  /** Mixing is linear. */
  lemma MixLinear(s: State, k: State, inv: bool)
    ensures MixColumns(AddRoundKey(s, k), inv) == AddRoundKey(MixColumns(s, inv), MixColumns(k, inv))
  {
    hide Dot, Add, Above;
    forall i | 0 <= i < 16
      ensures MixColumns(AddRoundKey(s, k), inv)[i] == AddRoundKey(MixColumns(s, inv), MixColumns(k, inv))[i]
    {
      DotLinear(s[i], s[Above(i, 1)], s[Above(i, 2)], s[Above(i, 3)],
                k[i], k[Above(i, 1)], k[Above(i, 2)], k[Above(i, 3)], inv);
    }
  }

  lemma DotLinear(a: bv8, b: bv8, c: bv8, d: bv8, e: bv8, f: bv8, g: bv8, h: bv8, inv: bool)
    ensures Dot(Add(a, e), Add(b, f), Add(c, g), Add(d, h), inv) == Add(Dot(a, b, c, d, inv), Dot(e, f, g, h, inv))
  {
    var m := Weights(inv);
    hide Add, Mul, Sum4, Weights;
    DotWeights(a, b, c, d, inv);
    DotWeights(e, f, g, h, inv);
    DotWeights(Add(a, e), Add(b, f), Add(c, g), Add(d, h), inv);
    MulLinear(a, e, m[0]);
    MulLinear(b, f, m[1]);
    MulLinear(c, g, m[2]);
    MulLinear(d, h, m[3]);
    Sum4Add(Mul(a, m[0]), Mul(b, m[1]), Mul(c, m[2]), Mul(d, m[3]),
            Mul(e, m[0]), Mul(f, m[1]), Mul(g, m[2]), Mul(h, m[3]));
  }

  /** An inverse round in the order of section 5.3.5 of FIPS 197, with its key mixed beforehand. */
  lemma InvRoundIs(s: State, k: State)
    ensures InvRound(s, k) == Next(s, MixColumns(k, true), true)
  {
    hide SubBytes, ShiftRows, MixColumns, AddRoundKey;
    SubShift(s, true);
    MixLinear(ShiftRows(SubBytes(s, true), true), k, true);
  }
}
