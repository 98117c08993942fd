/** The cipher object of sjcl: its two key schedules, built in loops, and the block function over
    them in either direction. */
module SjclCipher {
  import opened AesTables
  import opened Galois
  import opened AesState
  import opened AesCipher
  import opened Words
  import opened SjclTables
  import opened SjclAes
  import AesBlock
  import opened Options

  /** The first n words of the schedule. */
  ghost predicate Expanding(o: seq<Word32>, key: Bytes, nk: nat)
    requires nk > 0 && |key| >= 4 * nk
  {
    forall i :: 0 <= i < |o| ==> o[i] == ScheduleWord(key, nk, i)
  }

  /** The first words of the schedule for decryption. */
  ghost predicate Reversing(n: seq<Word32>, key: Bytes, nk: nat)
    requires nk > 0 && |key| >= 4 * nk && |n| <= 4 * nk + 28
  {
    forall i :: 0 <= i < |n| ==> n[i] == BackwardWord(key, nk, i)
  }

  lemma KeyExpands(words: seq<Word32>)
    requires KeySize(|words|)
    ensures Expanding(words, Unpacked(words), |words|)
  {
    hide Unpacked, PackWord;
    forall i | 0 <= i < |words| ensures words[i] == ScheduleWord(Unpacked(words), |words|, i) {
      KeyWords(words, i);
    }
  }

  lemma RconWord(r: bv8)
    ensures (r as bv32) << 24 == Pack(r, 0, 0, 0)
    ensures ((r as bv32) << 1) ^ (283 * ((r as bv32) >> 7)) == XTime(r) as bv32
  {
  }

  /** The round constant the schedule is at. */
  ghost predicate AtConstant(k: Word32, iteration: nat)
    requires iteration > 0
  {
    k == Rcon(iteration) as bv32
  }

  /** Word j of the schedule from those before it; the round constant moves on when it was used. */
  method NextWord(o: seq<Word32>, k: Word32, ghost key: Bytes, nk: nat, ghost iteration: nat)
    returns (word: Word32, next: Word32)
    requires KeySize(nk) && |key| >= 4 * nk && nk <= |o| < 4 * nk + 28
    requires Expanding(o, key, nk)
    requires iteration > 0 && AtConstant(k, iteration)
    requires (iteration - 1) * nk < |o| <= iteration * nk
    ensures word == ScheduleWord(key, nk, |o|)
    ensures if |o| == iteration * nk then AtConstant(next, iteration + 1) else next == k
  {
    hide KeyWord, AddWord, Core, SubWord, PackWord, Xor, TurnLeft, SubWord32, Iteration, Pack, XTime;
    var j := |o|;
    assert (iteration - 1) * nk == iteration * nk - nk;
    AesBlock.Multiples(nk, j, iteration * nk, iteration);
    AesBlock.IterationCounts(nk, iteration);
    ghost var before, previous := KeyWord(key, nk, j - nk), KeyWord(key, nk, j - 1);
    ScheduleNext(key, nk, j);
    assert o[j - 1] == PackWord(previous);
    SubPacked(previous);
    CorePacked(previous, iteration);
    RconWord(Rcon(iteration));
    AddPacked(before, Scheduled(previous, nk, j));
    var p := o[j - 1];
    next := k;
    if j % nk == 0 || (nk == 8 && j % nk == 4) {
      p := SubWord32(p);
      if j % nk == 0 {
        p := Xor(TurnLeft(p), k << 24);
        next := (k << 1) ^ (283 * (k >> 7));
      }
    }
    word := Xor(o[j - nk], p);
  }

  lemma ScheduleNext(key: Bytes, nk: nat, j: nat)
    requires KeySize(nk) && |key| >= 4 * nk && nk <= j
    ensures KeyWord(key, nk, j) == AddWord(KeyWord(key, nk, j - nk), Scheduled(KeyWord(key, nk, j - 1), nk, j))
  {
    hide AddWord, Scheduled;
  }

  /** Word i of the decrypting schedule. */
  method ReversedWord(o: seq<Word32>, i: nat, j: nat, ghost key: Bytes, nk: nat) returns (w: Word32)
    requires KeySize(nk) && |key| >= 4 * nk && |o| == 4 * nk + 28 && Expanding(o, key, nk)
    requires i < |o| && j == |o| - i
    ensures w == BackwardWord(key, nk, i)
  {
    hide Column, RoundKey, ScheduleWord, Table, Xor, MixColumns, SBox;
    ghost var r, c := Rounds(nk) - i / 4, Turned(0, i % 4, true);
    var p := o[if i % 4 != 0 then j else j - 4];
    ScheduleColumn(key, nk, r, c);
    assert p == ScheduleWord(key, nk, 4 * r + c);
    if 4 >= j || 4 > i {
      return p;
    }
    MixedKey(RoundKey(key, nk, r), c);
    return Xor(Xor(Xor(Table(0, SBox(Byte0(p)), true), Table(1, SBox(Byte1(p)), true)),
                   Table(2, SBox(Byte2(p)), true)), Table(3, SBox(Byte3(p)), true));
  }

  lemma Expanded(o: seq<Word32>, word: Word32, key: Bytes, nk: nat)
    requires nk > 0 && |key| >= 4 * nk && Expanding(o, key, nk) && word == ScheduleWord(key, nk, |o|)
    ensures Expanding(o + [word], key, nk)
  {
    hide ScheduleWord;
  }

  lemma Reversed(n: seq<Word32>, word: Word32, key: Bytes, nk: nat)
    requires nk > 0 && |key| >= 4 * nk && |n| < 4 * nk + 28
    requires Reversing(n, key, nk) && word == BackwardWord(key, nk, |n|)
    ensures Reversing(n + [word], key, nk)
  {
    hide BackwardWord;
  }

  method ExpandWords(words: seq<Word32>) returns (o: seq<Word32>)
    requires KeySize(|words|)
    ensures |o| == 4 * |words| + 28 && o[..|words|] == words
    ensures Expanding(o, Unpacked(words), |words|)
  {
    hide Expanding, AtConstant, Unpacked, ScheduleWord;
    var i := |words|;
    ghost var key := Unpacked(words);
    KeyExpands(words);
    o := words;
    var k: Word32 := 1;
    ghost var iteration := 1;
    var j := i;
    FirstConstant();
    while j < 4 * i + 28
      invariant i <= j == |o| <= 4 * i + 28 && iteration > 0
      invariant Expanding(o, key, i) && o[..i] == words
      invariant (iteration - 1) * i < j <= iteration * i && AtConstant(k, iteration)
    {
      assert (iteration + 1) * i == iteration * i + i;
      var word;
      word, k := NextWord(o, k, key, i, iteration);
      iteration := if j == iteration * i then iteration + 1 else iteration;
      Expanded(o, word, key, i);
      o := o + [word];
      j := j + 1;
    }
  }

  lemma FirstConstant()
    ensures AtConstant(1, 1)
  {
  }

  method ReverseWords(o: seq<Word32>, ghost key: Bytes, nk: nat) returns (n: seq<Word32>)
    requires KeySize(nk) && |key| >= 4 * nk && |o| == 4 * nk + 28 && Expanding(o, key, nk)
    ensures |n| == |o| && Reversing(n, key, nk)
  {
    hide Expanding, BackwardWord;
    n := [];
    var i, j := 0, |o|;
    while j != 0
      invariant 0 <= i == |n| && 0 <= j && i + j == |o|
      invariant Reversing(n, key, nk)
    {
      var word := ReversedWord(o, i, j, key, nk);
      Reversed(n, word, key, nk);
      n := n + [word];
      i := i + 1;
      j := j - 1;
    }
  }

  /** A schedule that keeps the keys of the table rounds, in order. */
  ghost predicate Keyed(y: seq<Word32>, key: Bytes, nk: nat, z: bool)
    requires KeySize(nk) && |key| >= 4 * nk
  {
    && |y| == 4 * nk + 28
    && if z then Reversing(y, key, nk) else Expanding(y, key, nk)
  }

  lemma KeyLies(y: seq<Word32>, key: Bytes, nk: nat, n: nat, z: bool)
    requires KeySize(nk) && |key| >= 4 * nk && n <= Rounds(nk) && Keyed(y, key, nk, z)
    ensures Lies(y[4 * n], y[4 * n + 1], y[4 * n + 2], y[4 * n + 3], KeyFor(key, nk, n, z), z)
  {
    hide Column, RoundKey, MixColumns, ScheduleWord;
    forall c | 0 <= c < 4 ensures y[4 * n + c] == Column(KeyFor(key, nk, n, z), Turned(0, c, z)) {
      if z {
        assert y[4 * n + c] == BackwardWord(key, nk, 4 * n + c);
        assert (4 * n + c) / 4 == n && (4 * n + c) % 4 == c;
      } else {
        ScheduleColumn(key, nk, n, c);
      }
    }
    assert y[4 * n] == y[4 * n + 0];
  }

  /** The last round, one word at a time into its place, the four words turning meanwhile. */
  method FinalWords(w: seq<Word32>, y: seq<Word32>, q: nat, z: bool) returns (o: array<Word32>)
    requires |w| == 4 && q + 4 <= |y|
    ensures fresh(o) && o.Length == 4
    ensures o[0] == FinalWord(w[0], w[1], w[2], w[3], y[q], z)
    ensures o[if z then 3 else 1] == FinalWord(w[1], w[2], w[3], w[0], y[q + 1], z)
    ensures o[2] == FinalWord(w[2], w[3], w[0], w[1], y[q + 2], z)
    ensures o[if z then 1 else 3] == FinalWord(w[3], w[0], w[1], w[2], y[q + 3], z)
  {
    hide FinalWord;
    var x0, x1, x2, x3 := w[0], w[1], w[2], w[3];
    o := new Word32[4](_ => 0);
    for r := 0 to 4
      invariant x0 == w[if r < 4 then r else r - 4] && x1 == w[if r < 3 then r + 1 else r - 3]
      invariant x2 == w[if r < 2 then r + 2 else r - 2] && x3 == w[if r < 1 then r + 3 else r - 1]
      invariant r > 0 ==> o[0] == FinalWord(w[0], w[1], w[2], w[3], y[q], z)
      invariant r > 1 ==> o[if z then 3 else 1] == FinalWord(w[1], w[2], w[3], w[0], y[q + 1], z)
      invariant r > 2 ==> o[2] == FinalWord(w[2], w[3], w[0], w[1], y[q + 2], z)
      invariant r > 3 ==> o[if z then 1 else 3] == FinalWord(w[3], w[0], w[1], w[2], y[q + 3], z)
    {
      o[if z then (4 - r) % 4 else r] := FinalWord(x0, x1, x2, x3, y[q + r], z);
      x0, x1, x2, x3 := x1, x2, x3, x0;
    }
  }

  lemma OutputLies(o: seq<Word32>, s: State, z: bool)
    requires |o| == 4
    requires Lies(o[0], o[if z then 3 else 1], o[2], o[if z then 1 else 3], s, z)
    ensures forall c :: 0 <= c < 4 ==> o[c] == Column(s, c)
  {
    hide Column;
  }

  lemma InputLies(input: seq<Word32>, z: bool)
    requires |input| == 4
    ensures Lies(input[0], input[if z then 3 else 1], input[2], input[if z then 1 else 3],
                 Transposed(Unpacked(input)), z)
  {
    hide Column, Unpacked, Transposed;
    ColumnsOfBlock(input, 0);
    ColumnsOfBlock(input, 1);
    ColumnsOfBlock(input, 2);
    ColumnsOfBlock(input, 3);
  }

  lemma AddedLies(a0: Word32, a1: Word32, a2: Word32, a3: Word32, s: State,
                  k0: Word32, k1: Word32, k2: Word32, k3: Word32, k: State, z: bool)
    requires Lies(a0, a1, a2, a3, s, z) && Lies(k0, k1, k2, k3, k, z)
    ensures Lies(Xor(a0, k0), Xor(a1, k1), Xor(a2, k2), Xor(a3, k3), AddRoundKey(s, k), z)
  {
    hide Column, AddRoundKey, Xor;
    ColumnXor(s, k, 0);
    ColumnXor(s, k, 1);
    ColumnXor(s, k, 2);
    ColumnXor(s, k, 3);
  }

  /** The table rounds between the first key and the last round. */
  method InnerRounds(w0: Word32, w1: Word32, w2: Word32, w3: Word32, y: seq<Word32>, z: bool,
                     ghost key: Bytes, nk: nat, ghost s: State)
    returns (x0: Word32, x1: Word32, x2: Word32, x3: Word32, q: nat)
    requires KeySize(nk) && |key| >= 4 * nk && Keyed(y, key, nk, z)
    requires Lies(w0, w1, w2, w3, After(key, nk, s, 0, z), z)
    ensures q == 4 * Rounds(nk) && Lies(x0, x1, x2, x3, After(key, nk, s, Rounds(nk) - 1, z), z)
  {
    hide Lies, Keyed, After, KeyFor, TableWord, Next;
    assert |y| == 4 * nk + 28 by { KeyedLength(y, key, nk, z); }
    var rounds := |y| / 4 - 2;
    x0, x1, x2, x3, q := w0, w1, w2, w3, 4;
    for i := 0 to rounds
      invariant q == 4 * i + 4
      invariant Lies(x0, x1, x2, x3, After(key, nk, s, i, z), z)
    {
      KeyLies(y, key, nk, i + 1, z);
      NextState(key, nk, s, i, z);
      RoundLies(x0, x1, x2, x3, After(key, nk, s, i, z),
                y[q], y[q + 1], y[q + 2], y[q + 3], KeyFor(key, nk, i + 1, z), z);
      x0, x1, x2, x3 :=
        TableWord(x0, x1, x2, x3, y[q], z), TableWord(x1, x2, x3, x0, y[q + 1], z),
        TableWord(x2, x3, x0, x1, y[q + 2], z), TableWord(x3, x0, x1, x2, y[q + 3], z);
      q := q + 4;
    }
  }

  /** All the rounds over a schedule, on the four words of a block. */
  method RunRounds(input: seq<Word32>, y: seq<Word32>, z: bool, ghost key: Bytes, nk: nat)
    returns (o: array<Word32>)
    requires KeySize(nk) && |key| >= 4 * nk && Keyed(y, key, nk, z) && |input| == 4
    ensures o.Length == 4
    ensures var s := Transposed(Unpacked(input));
      forall c :: 0 <= c < 4 ==> o[c] == Column(if z then InvMain(key, nk, s) else Main(key, nk, s), c)
  {
    hide Lies, Column, Keyed, After, KeyFor, InvMain, Main, Xor, FinalWord, Last, AddRoundKey, Transposed, Unpacked;
    ghost var s := Transposed(Unpacked(input));
    assert |y| == 4 * nk + 28 by { KeyedLength(y, key, nk, z); }
    InputLies(input, z);
    KeyLies(y, key, nk, 0, z);
    FirstState(key, nk, s, z);
    AddedLies(input[0], input[if z then 3 else 1], input[2], input[if z then 1 else 3], s,
              y[0], y[1], y[2], y[3], KeyFor(key, nk, 0, z), z);
    var x0, x1, x2, x3, q := InnerRounds(
      Xor(input[0], y[0]), Xor(input[if z then 3 else 1], y[1]), Xor(input[2], y[2]),
      Xor(input[if z then 1 else 3], y[3]), y, z, key, nk, s);
    ghost var n := Rounds(nk);
    KeyLies(y, key, nk, n, z);
    LastState(key, nk, s, z);
    FinalLies(x0, x1, x2, x3, After(key, nk, s, n - 1, z),
              y[q], y[q + 1], y[q + 2], y[q + 3], KeyFor(key, nk, n, z), z);
    o := FinalWords([x0, x1, x2, x3], y, q, z);
    OutputLies(o[..], if z then InvMain(key, nk, s) else Main(key, nk, s), z);
  }

  lemma KeyedLength(y: seq<Word32>, key: Bytes, nk: nat, z: bool)
    requires KeySize(nk) && |key| >= 4 * nk && Keyed(y, key, nk, z)
    ensures |y| == 4 * nk + 28
  {
  }

  class Aes {
    var enc: seq<Word32>
    var dec: seq<Word32>

    ghost predicate Valid()
      reads this
    {
      && |enc| >= 28 && KeySize(Size()) && |enc| == |dec| == 4 * Size() + 28
      && Expanding(enc, Key(), Size()) && Reversing(dec, Key(), Size())
    }

    /** The length of the key in words. */
    function Size(): nat
      requires |enc| >= 28
      reads this
    {
      (|enc| - 28) / 4
    }

    /** The bytes of the key. */
    ghost function Key(): Bytes
      requires |enc| >= 28
      reads this
    {
      Unpacked(enc[..Size()])
    }

    constructor (words: seq<Word32>)
      requires KeySize(|words|)
      ensures Valid() && Size() == |words| && Key() == Unpacked(words)
    {
      var o := ExpandWords(words);
      var n := ReverseWords(o, Unpacked(words), |words|);
      enc, dec := o, n;
    }

    /** The block function: encrypts, or decrypts for z. */
    method Crypt(input: seq<Word32>, z: bool) returns (r: Option<seq<Word32>>)
      requires Valid()
      ensures r.None? <==> |input| != 4
      ensures r.Some? ==> |r.value| == 4
      ensures r.Some? && !z ==> Unpacked(r.value) == Encrypt(Key(), Size(), Unpacked(input))
      ensures r.Some? && z ==> Unpacked(r.value) == Decrypt(Key(), Size(), Unpacked(input))
    {
      hide InvMain, Main, Transposed, Unpacked, Column, Expanding, Reversing;
      if |input| != 4 { return None; }
      var o := RunRounds(input, if z then dec else enc, z, Key(), Size());
      ghost var s := Transposed(Unpacked(input));
      BlockOfColumns(o[..], if z then InvMain(Key(), Size(), s) else Main(Key(), Size(), s));
      return Some(o[..]);
    }
  }

  /** A cipher for a key of four, six or eight words, and none for any other. */
  method NewCipher(words: seq<Word32>) returns (r: Option<Aes>)
    ensures r.None? <==> !KeySize(|words|)
    ensures r.Some? ==> fresh(r.value) && r.value.Valid()
    ensures r.Some? ==> r.value.Size() == |words| && r.value.Key() == Unpacked(words)
  {
    if |words| != 4 && |words| != 6 && |words| != 8 { return None; }
    var c := new Aes(words);
    return Some(c);
  }

  /** Words are determined by their bytes. */
  lemma UnpackedInjective(v: seq<Word32>, w: seq<Word32>)
    requires Unpacked(v) == Unpacked(w)
    ensures v == w
  {
    hide Unpacked, PackWord;
    assert 4 * |v| == |Unpacked(v)| == 4 * |w|;
    forall i | 0 <= i < |v| ensures v[i] == w[i] {
      KeyWords(v, i);
      KeyWords(w, i);
    }
  }

  /** What sjcl's encryption makes of a block, its decryption turns back, and the other way round. */
  lemma CryptInverts(key: Bytes, nk: nat, plain: seq<Word32>, cipher: seq<Word32>)
    requires KeySize(nk) && |key| >= 4 * nk && |plain| == |cipher| == 4
    ensures Unpacked(cipher) == Encrypt(key, nk, Unpacked(plain))
       <==> Unpacked(plain) == Decrypt(key, nk, Unpacked(cipher))
  {
    hide Encrypt, Decrypt, Unpacked;
    DecryptEncrypt(key, nk, Unpacked(plain));
    EncryptDecrypt(key, nk, Unpacked(cipher));
  }

  /** Encrypting a block and decrypting the result, with one object, gives the words of the block. */
  method CryptTwice(c: Aes, input: seq<Word32>) returns (r: seq<Word32>)
    requires c.Valid() && |input| == 4
    ensures r == input
  {
    hide Encrypt, Decrypt, Unpacked, Expanding, Reversing;
    var o := c.Crypt(input, false);
    var q := c.Crypt(o.value, true);
    r := q.value;
    DecryptEncrypt(c.Key(), c.Size(), Unpacked(input));
    UnpackedInjective(r, input);
  }

  /** And the other way round. */
  method CryptBack(c: Aes, input: seq<Word32>) returns (r: seq<Word32>)
    requires c.Valid() && |input| == 4
    ensures r == input
  {
    hide Encrypt, Decrypt, Unpacked, Expanding, Reversing;
    var o := c.Crypt(input, true);
    var q := c.Crypt(o.value, false);
    r := q.value;
    EncryptDecrypt(c.Key(), c.Size(), Unpacked(input));
    UnpackedInjective(r, input);
  }
}
