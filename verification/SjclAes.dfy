/** The block cipher of sjcl on 32-bit words: key schedules and rounds by table look-up, and that it
    computes the plain cipher and its inverse for every key size and block. */
module SjclAes {
  import opened AesTables
  import opened Galois
  import opened AesState
  import opened AesCipher
  import opened Words
  import opened SjclTables

  function ByteOf(w: Word32, k: nat): bv8
    requires k < 4
  {
    if k == 0 then Byte0(w) else if k == 1 then Byte1(w) else if k == 2 then Byte2(w) else Byte3(w)
  }

  /** The bytes of a list of words. */
  function Unpacked(ws: seq<Word32>): (b: Bytes)
    ensures |b| == 4 * |ws|
  {
    seq(4 * |ws|, i requires 0 <= i < 4 * |ws| => ByteOf(ws[i / 4], i % 4))
  }

  function PackWord(w: Word): Word32 {
    Pack(w[0], w[1], w[2], w[3])
  }

  /** Word i of the key schedule. */
  function ScheduleWord(key: Bytes, nk: nat, i: nat): Word32
    requires nk > 0 && |key| >= 4 * nk
  {
    PackWord(KeyWord(key, nk, i))
  }

  lemma KeyWords(ws: seq<Word32>, i: nat)
    requires i < |ws|
    ensures ws[i] == PackWord(Unpacked(ws)[4 * i..4 * i + 4])
  {
    hide Pack, Byte0, Byte1, Byte2, Byte3;
    var b := Unpacked(ws);
    BytesPack(ws[i]);
    assert b[4 * i] == ByteOf(ws[i], 0);
    assert b[4 * i + 1] == ByteOf(ws[i], 1);
    assert b[4 * i + 2] == ByteOf(ws[i], 2);
    assert b[4 * i + 3] == ByteOf(ws[i], 3);
  }

  lemma TransposedColumn(b: State, c: nat)
    requires c < 4
    ensures var s := Transposed(b);
      s[c] == b[4 * c] && s[c + 4] == b[4 * c + 1] && s[c + 8] == b[4 * c + 2] && s[c + 12] == b[4 * c + 3]
  {
    assert c / 4 == 0 && (c + 4) / 4 == 1 && (c + 8) / 4 == 2 && (c + 12) / 4 == 3;
    assert c % 4 == (c + 4) % 4 == (c + 8) % 4 == (c + 12) % 4 == c;
  }

  lemma ColumnsOfBlock(ws: seq<Word32>, c: nat)
    requires |ws| == 4 && c < 4
    ensures Column(Transposed(Unpacked(ws)), c) == ws[c]
  {
    hide Pack, Unpacked, Transposed;
    KeyWords(ws, c);
    TransposedColumn(Unpacked(ws), c);
  }

  lemma BlockOfColumns(ws: seq<Word32>, s: State)
    requires |ws| == 4 && forall c :: 0 <= c < 4 ==> ws[c] == Column(s, c)
    ensures Unpacked(ws) == Transposed(s)
  {
    hide Pack, Byte0, Byte1, Byte2, Byte3, Column;
    var b := Unpacked(ws);
    var t := Transposed(s);
    forall i | 0 <= i < 16 ensures b[i] == t[i] {
      ColumnBytes(s, i / 4);
    }
  }

  /** The schedule for decryption runs backwards, with the keys of the inner rounds mixed; within a
      round the last three words are in reverse order. */
  function BackwardWord(key: Bytes, nk: nat, i: nat): Word32
    requires nk > 0 && |key| >= 4 * nk && i < 4 * nk + 28
  {
    var r := Rounds(nk) - i / 4;
    if i / 4 == 0 || r == 0 then Column(RoundKey(key, nk, r), Turned(0, i % 4, true))
    else Column(MixColumns(RoundKey(key, nk, r), true), Turned(0, i % 4, true))
  }

  lemma ScheduleColumn(key: Bytes, nk: nat, r: nat, c: nat)
    requires nk > 0 && |key| >= 4 * nk && c < 4
    ensures Column(RoundKey(key, nk, r), c) == ScheduleWord(key, nk, 4 * r + c)
  {
    hide KeyWord, Pack;
    var k := RoundKey(key, nk, r);
    var w := KeyWord(key, nk, 4 * r + c);
    assert k[c] == w[0] && k[c + 4] == w[1] && k[c + 8] == w[2] && k[c + 12] == w[3];
  }

  /** Decrypting tables at substituted bytes mix a word of the schedule. */
  lemma MixedKey(s: State, c: nat)
    requires c < 4
    ensures var w := Column(s, c);
      Xor(Xor(Xor(Table(0, SBox(Byte0(w)), true), Table(1, SBox(Byte1(w)), true)), Table(2, SBox(Byte2(w)), true)),
          Table(3, SBox(Byte3(w)), true)) == Column(MixColumns(s, true), c)
  {
    hide SBox, InvSBox, Pack, Xor, Dot, Table, MixColumns, Column;
    ColumnBytes(s, c);
    Mixed(SBox(s[c]), SBox(s[c + 4]), SBox(s[c + 8]), SBox(s[c + 12]), true);
    SBoxInverse(s[c]);
    SBoxInverse(s[c + 4]);
    SBoxInverse(s[c + 8]);
    SBoxInverse(s[c + 12]);
    MixedColumnWord(s, c, true);
  }

  function SubWord32(w: Word32): Word32 {
    Pack(SBox(Byte0(w)), SBox(Byte1(w)), SBox(Byte2(w)), SBox(Byte3(w)))
  }

  lemma SubPacked(w: Word)
    ensures SubWord32(PackWord(w)) == PackWord(SubWord(w))
  {
    hide SBox, Pack, Byte0, Byte1, Byte2, Byte3;
    PackBytes(w[0], w[1], w[2], w[3]);
  }

  lemma CorePacked(w: Word, n: nat)
    requires n > 0
    ensures Xor(TurnLeft(SubWord32(PackWord(w))), Pack(Rcon(n), 0, 0, 0)) == PackWord(Core(w, n))
  {
    SubPacked(w);
    hide SBox, Pack, Xor, TurnLeft, Rcon, Add, SubWord32;
    var t := SubWord(w);
    PackTurns(t[0], t[1], t[2], t[3]);
    PackXor(t[1], t[2], t[3], t[0], Rcon(n), 0, 0, 0);
    AddLaws(t[2], 0, 0);
    AddLaws(t[3], 0, 0);
    AddLaws(t[0], 0, 0);
  }

  lemma AddPacked(v: Word, w: Word)
    ensures Xor(PackWord(v), PackWord(w)) == PackWord(AddWord(v, w))
  {
    hide Pack, Xor, Add;
    PackXor(v[0], v[1], v[2], v[3], w[0], w[1], w[2], w[3]);
  }

  /** How the state's columns lie in the four words: in order, or the last three in reverse. */
  ghost predicate Lies(w0: Word32, w1: Word32, w2: Word32, w3: Word32, s: State, z: bool) {
    && w0 == Column(s, Turned(0, 0, z)) && w1 == Column(s, Turned(0, 1, z))
    && w2 == Column(s, Turned(0, 2, z)) && w3 == Column(s, Turned(0, 3, z))
  }

  /** Going on from a place in that order is turning twice. */
  lemma TurnedOn(p: nat, r: nat, z: bool)
    requires p < 4 && r < 4
    ensures Turned(Turned(0, p, z), r, z) == Turned(0, if p + r < 4 then p + r else p + r - 4, z)
  {
  }

  /** The four words after a table round. */
  lemma RoundLies(w0: Word32, w1: Word32, w2: Word32, w3: Word32, s: State,
                  k0: Word32, k1: Word32, k2: Word32, k3: Word32, k: State, z: bool)
    requires Lies(w0, w1, w2, w3, s, z) && Lies(k0, k1, k2, k3, k, z)
    ensures Lies(TableWord(w0, w1, w2, w3, k0, z), TableWord(w1, w2, w3, w0, k1, z),
                 TableWord(w2, w3, w0, w1, k2, z), TableWord(w3, w0, w1, w2, k3, z), Next(s, k, z), z)
  {
    hide Column, Turned, TableWord, Next;
    forall p, r | 0 <= p < 4 && 0 <= r < 4
      ensures Turned(Turned(0, p, z), r, z) == Turned(0, if p + r < 4 then p + r else p + r - 4, z)
    {
      TurnedOn(p, r, z);
    }
    TableRound(s, k, Turned(0, 0, z), z);
    TableRound(s, k, Turned(0, 1, z), z);
    TableRound(s, k, Turned(0, 2, z), z);
    TableRound(s, k, Turned(0, 3, z), z);
  }

  lemma FinalLies(w0: Word32, w1: Word32, w2: Word32, w3: Word32, s: State,
                  k0: Word32, k1: Word32, k2: Word32, k3: Word32, k: State, z: bool)
    requires Lies(w0, w1, w2, w3, s, z) && Lies(k0, k1, k2, k3, k, z)
    ensures Lies(FinalWord(w0, w1, w2, w3, k0, z), FinalWord(w1, w2, w3, w0, k1, z),
                 FinalWord(w2, w3, w0, w1, k2, z), FinalWord(w3, w0, w1, w2, k3, z), Last(s, k, z), z)
  {
    hide Column, Turned, FinalWord, Last;
    forall p, r | 0 <= p < 4 && 0 <= r < 4
      ensures Turned(Turned(0, p, z), r, z) == Turned(0, if p + r < 4 then p + r else p + r - 4, z)
    {
      TurnedOn(p, r, z);
    }
    FinalRound(s, k, Turned(0, 0, z), z);
    FinalRound(s, k, Turned(0, 1, z), z);
    FinalRound(s, k, Turned(0, 2, z), z);
    FinalRound(s, k, Turned(0, 3, z), z);
  }

  /** The state after n table rounds. */
  function After(key: Bytes, nk: nat, s: State, n: nat, z: bool): State
    requires KeySize(nk) && |key| >= 4 * nk && n < Rounds(nk)
  {
    if z then Backward(key, nk, s, Rounds(nk) - n) else Forward(key, nk, s, n)
  }

  /** The key of table round n. */
  function KeyFor(key: Bytes, nk: nat, n: nat, z: bool): State
    requires KeySize(nk) && |key| >= 4 * nk && n <= Rounds(nk)
  {
    if !z then RoundKey(key, nk, n)
    else if n == 0 || n == Rounds(nk) then RoundKey(key, nk, Rounds(nk) - n)
    else MixColumns(RoundKey(key, nk, Rounds(nk) - n), true)
  }

  lemma FirstState(key: Bytes, nk: nat, s: State, z: bool)
    requires KeySize(nk) && |key| >= 4 * nk
    ensures After(key, nk, s, 0, z) == AddRoundKey(s, KeyFor(key, nk, 0, z))
  {
  }

  lemma NextState(key: Bytes, nk: nat, s: State, n: nat, z: bool)
    requires KeySize(nk) && |key| >= 4 * nk && n + 1 < Rounds(nk)
    ensures After(key, nk, s, n + 1, z) == Next(After(key, nk, s, n, z), KeyFor(key, nk, n + 1, z), z)
  {
    hide SubBytes, ShiftRows, MixColumns, AddRoundKey, RoundKey;
    if z {
      InvRoundIs(After(key, nk, s, n, z), RoundKey(key, nk, Rounds(nk) - n - 1));
    }
  }

  lemma LastState(key: Bytes, nk: nat, s: State, z: bool)
    requires KeySize(nk) && |key| >= 4 * nk
    ensures Last(After(key, nk, s, Rounds(nk) - 1, z), KeyFor(key, nk, Rounds(nk), z), z)
      == if z then InvMain(key, nk, s) else Main(key, nk, s)
  {
    hide SubBytes, ShiftRows, AddRoundKey, RoundKey;
    if z {
      SubShift(After(key, nk, s, Rounds(nk) - 1, z), true);
    }
  }
}
