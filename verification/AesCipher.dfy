/** The block cipher of FIPS 197 on bytes, as functions: key expansion by words (section 5.2), the
    rounds (5.1), the inverse rounds (5.3), and why decryption and encryption undo each other. */
module AesCipher {
  import opened AesTables
  import opened Galois
  import opened AesState

  type Bytes = seq<bv8>
  type Word = w: seq<bv8> | |w| == 4 witness [0, 0, 0, 0]

  /** A key of 128, 192 or 256 bits, in words of 32 bits. */
  predicate KeySize(nk: nat) {
    nk == 4 || nk == 6 || nk == 8
  }

  /** The number of rounds. */
  function Rounds(nk: nat): nat {
    nk + 6
  }

  function RotWord(w: Word): Word {
    w[1..] + w[..1]
  }

  function SubWord(w: Word): Word {
    [SBox(w[0]), SBox(w[1]), SBox(w[2]), SBox(w[3])]
  }

  function AddWord(v: Word, w: Word): Word {
    [Add(v[0], w[0]), Add(v[1], w[1]), Add(v[2], w[2]), Add(v[3], w[3])]
  }

  /** The round constant: x to the power n - 1. */
  function Rcon(n: nat): bv8
    requires n > 0
  {
    if n == 1 then 1 else XTime(Rcon(n - 1))
  }

  /** The table of round constants lists those powers. */
  lemma RconTable(n: nat)
    requires 1 <= n <= 10
    ensures RCON[n] == Rcon(n)
  {
    assert Rcon(5) == 0x10;
    assert Rcon(8) == 0x80;
    assert Rcon(10) == 0x36;
  }

  function Core(w: Word, n: nat): Word
    requires n > 0
  {
    var t := SubWord(RotWord(w));
    [Add(t[0], Rcon(n)), t[1], t[2], t[3]]
  }

  /** How many key lengths the schedule has gone through before word i. */
  function Iteration(i: nat, nk: nat): (q: nat)
    requires 0 < nk <= i
    ensures q > 0
  {
    if i < 2 * nk then 1 else 1 + Iteration(i - nk, nk)
  }

  /** What word i of the schedule adds to the word one key length earlier. */
  function Scheduled(previous: Word, nk: nat, i: nat): Word
    requires 0 < nk <= i
  {
    if i % nk == 0 then Core(previous, Iteration(i, nk))
    else if nk == 8 && i % 8 == 4 then SubWord(previous)
    else previous
  }

  /** Word i of the expanded key. */
  function KeyWord(key: Bytes, nk: nat, i: nat): Word
    requires nk > 0 && |key| >= 4 * nk
    decreases i
  {
    if i < nk then key[4 * i..4 * i + 4]
    else AddWord(KeyWord(key, nk, i - nk), Scheduled(KeyWord(key, nk, i - 1), nk, i))
  }

  /** The key of round r: four words, one a column. */
  function RoundKey(key: Bytes, nk: nat, r: nat): State
    requires nk > 0 && |key| >= 4 * nk
  {
    seq(16, i requires 0 <= i < 16 => KeyWord(key, nk, 4 * r + i % 4)[i / 4])
  }

  /** Blocks are stored column by column, states row by row. */
  function Transposed(s: State): State {
    seq(16, i requires 0 <= i < 16 => s[4 * (i % 4) + i / 4])
  }

  lemma TransposedTwice(s: State)
    ensures Transposed(Transposed(s)) == s
  {
  }

  /** The state after the first n rounds, all of them alike. */
  function Forward(key: Bytes, nk: nat, s: State, n: nat): State
    requires nk > 0 && |key| >= 4 * nk
  {
    if n == 0 then AddRoundKey(s, RoundKey(key, nk, 0))
    else Round(Forward(key, nk, s, n - 1), RoundKey(key, nk, n))
  }

  function Round(s: State, k: State): State {
    AddRoundKey(MixColumns(ShiftRows(SubBytes(s, false), false), false), k)
  }

  /** The last round does not mix. */
  function Main(key: Bytes, nk: nat, s: State): State
    requires nk > 0 && |key| >= 4 * nk
  {
    AddRoundKey(ShiftRows(SubBytes(Forward(key, nk, s, Rounds(nk) - 1), false), false),
                RoundKey(key, nk, Rounds(nk)))
  }

  /** The state once the inverse rounds have come down to round n, going through them all. */
  function Backward(key: Bytes, nk: nat, s: State, n: nat): State
    requires nk > 0 && |key| >= 4 * nk && n <= Rounds(nk)
    decreases Rounds(nk) - n
  {
    if n == Rounds(nk) then AddRoundKey(s, RoundKey(key, nk, n))
    else InvRound(Backward(key, nk, s, n + 1), RoundKey(key, nk, n))
  }

  function InvRound(s: State, k: State): State {
    MixColumns(AddRoundKey(SubBytes(ShiftRows(s, true), true), k), true)
  }

  function InvMain(key: Bytes, nk: nat, s: State): State
    requires nk > 0 && |key| >= 4 * nk
  {
    AddRoundKey(SubBytes(ShiftRows(Backward(key, nk, s, 1), true), true), RoundKey(key, nk, 0))
  }

  function Encrypt(key: Bytes, nk: nat, block: State): State
    requires nk > 0 && |key| >= 4 * nk
  {
    Transposed(Main(key, nk, Transposed(block)))
  }

  function Decrypt(key: Bytes, nk: nat, block: State): State
    requires nk > 0 && |key| >= 4 * nk
  {
    Transposed(InvMain(key, nk, Transposed(block)))
  }

  /** Going down from the encrypted state, the inverse rounds meet the forward ones: before its
      round n + 1 is undone, the state is the one in the middle of that round. */
  lemma {:induction false} BackwardMeetsForward(key: Bytes, nk: nat, s: State, n: nat)
    requires nk > 0 && |key| >= 4 * nk && n < Rounds(nk)
    ensures Backward(key, nk, Main(key, nk, s), n + 1)
         == ShiftRows(SubBytes(Forward(key, nk, s, n), false), false)
    decreases Rounds(nk) - n
  {
    hide SubBytes, ShiftRows, MixColumns, AddRoundKey, RoundKey;
    var f := Forward(key, nk, s, n);
    var middle := ShiftRows(SubBytes(f, false), false);
    if n + 1 == Rounds(nk) {
      AddRoundKeyInverse(middle, RoundKey(key, nk, n + 1));
    } else {
      BackwardMeetsForward(key, nk, s, n + 1);
      var k := RoundKey(key, nk, n + 1);
      var next := Forward(key, nk, s, n + 1);
      ShiftRowsInverse(SubBytes(next, false), false);
      SubBytesInverse(next, false);
      AddRoundKeyInverse(MixColumns(middle, false), k);
      MixColumnsInverse(middle, false);
    }
  }

  /** Decryption undoes encryption, for every key and every block. */
  lemma DecryptEncrypt(key: Bytes, nk: nat, block: State)
    requires nk > 0 && |key| >= 4 * nk
    ensures Decrypt(key, nk, Encrypt(key, nk, block)) == block
  {
    hide SubBytes, ShiftRows, MixColumns, AddRoundKey, RoundKey, Transposed, Main, Backward;
    var s := Transposed(block);
    TransposedTwice(block);
    TransposedTwice(Main(key, nk, s));
    BackwardMeetsForward(key, nk, s, 0);
    var f := Forward(key, nk, s, 0);
    ShiftRowsInverse(SubBytes(f, false), false);
    SubBytesInverse(f, false);
    AddRoundKeyInverse(s, RoundKey(key, nk, 0));
  }

  /** The other way round: the forward rounds meet the inverse ones. */
  lemma {:induction false} ForwardMeetsBackward(key: Bytes, nk: nat, s: State, n: nat)
    requires nk > 0 && |key| >= 4 * nk && n < Rounds(nk)
    ensures Forward(key, nk, InvMain(key, nk, s), n)
         == SubBytes(ShiftRows(Backward(key, nk, s, n + 1), true), true)
  {
    hide SubBytes, ShiftRows, MixColumns, AddRoundKey, RoundKey;
    var middle := SubBytes(ShiftRows(Backward(key, nk, s, n + 1), true), true);
    var k := RoundKey(key, nk, n);
    if n == 0 {
      AddRoundKeyInverse(middle, k);
    } else {
      ForwardMeetsBackward(key, nk, s, n - 1);
      var next := Backward(key, nk, s, n);
      SubBytesInverse(ShiftRows(next, true), true);
      ShiftRowsInverse(next, true);
      MixColumnsInverse(AddRoundKey(middle, k), true);
      AddRoundKeyInverse(middle, k);
    }
  }

  /** So encryption reaches every block: it is a permutation of the blocks. */
  lemma EncryptDecrypt(key: Bytes, nk: nat, block: State)
    requires nk > 0 && |key| >= 4 * nk
    ensures Encrypt(key, nk, Decrypt(key, nk, block)) == block
  {
    hide SubBytes, ShiftRows, MixColumns, AddRoundKey, RoundKey, Transposed, InvMain, Forward;
    var s := Transposed(block);
    TransposedTwice(block);
    TransposedTwice(InvMain(key, nk, s));
    var n := Rounds(nk) - 1;
    ForwardMeetsBackward(key, nk, s, n);
    var last := Backward(key, nk, s, n + 1);
    SubBytesInverse(ShiftRows(last, true), true);
    ShiftRowsInverse(last, true);
    AddRoundKeyInverse(s, RoundKey(key, nk, n + 1));
  }
}
