/** The modes of operation OFB, CFB and CBC (sections 6.2 to 6.4 of NIST SP 800-38A) over messages
    of any length, as functions; decryption undoes encryption. */
module AesModes {
  import opened Galois
  import opened AesState
  import opened AesCipher

  const OFB := 0
  const CFB := 1
  const CBC := 2

  predicate Known(mode: nat) {
    mode == OFB || mode == CFB || mode == CBC
  }

  /** A cipher key and the initial vector; both may be longer than what is used of them. */
  datatype Setting = Setting(mode: nat, key: Bytes, nk: nat, iv: Bytes) {
    predicate Valid() {
      KeySize(nk) && |key| >= 4 * nk && |iv| >= 16
    }

    function Enc(b: State): State
      requires Valid()
    {
      Encrypt(key, nk, b)
    }

    function Dec(b: State): State
      requires Valid()
    {
      Decrypt(key, nk, b)
    }
  }

  /** The number of blocks, the last one perhaps shorter. */
  function Count(text: Bytes): nat {
    (|text| + 15) / 16
  }

  function Ending(text: Bytes, j: nat): nat {
    if 16 * j + 16 > |text| then |text| else 16 * j + 16
  }

  /** Block j of the text. */
  function Piece(text: Bytes, j: nat): (p: Bytes)
    requires j < Count(text)
    ensures 0 < |p| <= 16
    ensures j + 1 < Count(text) ==> |p| == 16
  {
    text[16 * j..Ending(text, j)]
  }

  function Padded(p: Bytes): State
    requires |p| <= 16
  {
    p + seq(16 - |p|, _ => 0)
  }

  /** What block j is combined with when encrypting: the value carried over from the blocks before. */
  function Carried(x: Setting, text: Bytes, j: nat): State
    requires x.Valid() && j <= Count(text)
    decreases j, 0
  {
    if j == 0 then x.iv[..16]
    else if x.mode == OFB then x.Enc(Carried(x, text, j - 1))
    else CipherBlock(x, text, j - 1)
  }

  function CipherBlock(x: Setting, text: Bytes, j: nat): State
    requires x.Valid() && j < Count(text)
    decreases j, 1
  {
    if x.mode == CBC then x.Enc(AddRoundKey(Padded(Piece(text, j)), Carried(x, text, j)))
    else AddRoundKey(Padded(Piece(text, j)), x.Enc(Carried(x, text, j)))
  }

  /** The ciphertext of the first j blocks.  CBC keeps whole blocks, the other modes the length. */
  function CipherText(x: Setting, text: Bytes, j: nat): Bytes
    requires x.Valid() && j <= Count(text)
  {
    if j == 0 then []
    else if x.mode == CBC then CipherText(x, text, j - 1) + CipherBlock(x, text, j - 1)
    else CipherText(x, text, j - 1) + CipherBlock(x, text, j - 1)[..|Piece(text, j - 1)|]
  }

  /** The value carried over when decrypting: from the ciphertext itself, except in OFB. */
  function Recovered(x: Setting, cipher: Bytes, j: nat): State
    requires x.Valid() && j < Count(cipher)
  {
    if j == 0 then x.iv[..16]
    else if x.mode == OFB then x.Enc(Recovered(x, cipher, j - 1))
    else Piece(cipher, j - 1)
  }

  /** CBC decrypts whole blocks only. */
  predicate Decryptable(x: Setting, cipher: Bytes) {
    x.mode == CBC ==> |cipher| % 16 == 0
  }

  lemma WholePiece(x: Setting, cipher: Bytes, j: nat)
    requires Decryptable(x, cipher) && x.mode == CBC && j < Count(cipher)
    ensures |Piece(cipher, j)| == 16
  {
  }

  function PlainBlock(x: Setting, cipher: Bytes, j: nat): State
    requires x.Valid() && Decryptable(x, cipher) && j < Count(cipher)
  {
    if x.mode == CBC then
      WholePiece(x, cipher, j);
      AddRoundKey(Recovered(x, cipher, j), x.Dec(Piece(cipher, j)))
    else AddRoundKey(x.Enc(Recovered(x, cipher, j)), Padded(Piece(cipher, j)))
  }

  datatype Size = Unspecified | Original(value: int)

  /** How many bytes of block j are kept: in CBC the original size, when given, cuts off the padding. */
  function Kept(x: Setting, cipher: Bytes, j: nat, size: Size): (n: nat)
    requires j < Count(cipher)
    ensures n <= 16
  {
    if x.mode == CBC && size.Original? && size.value < Ending(cipher, j) then
      if size.value < 16 * j then 0 else size.value - 16 * j
    else |Piece(cipher, j)|
  }

  function PlainText(x: Setting, cipher: Bytes, size: Size, j: nat): Bytes
    requires x.Valid() && Decryptable(x, cipher) && j <= Count(cipher)
  {
    if j == 0 then []
    else PlainText(x, cipher, size, j - 1) + PlainBlock(x, cipher, j - 1)[..Kept(x, cipher, j - 1, size)]
  }

  function EncryptText(x: Setting, text: Bytes): Bytes
    requires x.Valid()
  {
    CipherText(x, text, Count(text))
  }

  function DecryptText(x: Setting, cipher: Bytes, size: Size): Bytes
    requires x.Valid() && Decryptable(x, cipher)
  {
    PlainText(x, cipher, size, Count(cipher))
  }

  lemma {:induction false} CipherLength(x: Setting, text: Bytes, j: nat)
    requires x.Valid() && j <= Count(text)
    ensures x.mode == CBC ==> |CipherText(x, text, j)| == 16 * j
    ensures x.mode != CBC ==> |CipherText(x, text, j)| == if 16 * j <= |text| then 16 * j else |text|
  {
    hide CipherBlock;
    if j > 0 {
      CipherLength(x, text, j - 1);
    }
  }

  /** The ciphertext of the first j blocks is the start of the whole. */
  lemma {:induction false} CipherPrefix(x: Setting, text: Bytes, j: nat, n: nat)
    requires x.Valid() && j <= n <= Count(text)
    ensures CipherText(x, text, j) <= CipherText(x, text, n)
    decreases n - j
  {
    hide CipherBlock;
    if j < n {
      CipherPrefix(x, text, j + 1, n);
    }
  }

  /** How many blocks, and how much of the last one, encryption leaves. */
  lemma CipherCount(x: Setting, text: Bytes)
    requires x.Valid()
    ensures Count(EncryptText(x, text)) == Count(text)
  {
    CipherLength(x, text, Count(text));
    hide CipherText;
    SameCount(text, EncryptText(x, text), x.mode == CBC);
  }

  lemma SameCount(text: Bytes, c: Bytes, whole: bool)
    requires |c| == if whole then 16 * Count(text) else |text|
    ensures Count(c) == Count(text)
  {
  }

  /** Block j of the ciphertext is the encrypted block j, cut to length unless in CBC. */
  lemma CipherPiece(x: Setting, text: Bytes, j: nat)
    requires x.Valid() && j < Count(text)
    ensures Count(EncryptText(x, text)) == Count(text)
    ensures Piece(EncryptText(x, text), j)
      == if x.mode == CBC then CipherBlock(x, text, j) else CipherBlock(x, text, j)[..|Piece(text, j)|]
  {
    CipherCount(x, text);
    CipherLength(x, text, j);
    CipherLength(x, text, j + 1);
    CipherLength(x, text, Count(text));
    CipherPrefix(x, text, j + 1, Count(text));
    CipherNext(x, text, j);
    Lasting(text, j);
    EncryptIs(x, text);
    hide CipherBlock, CipherText, Carried, EncryptText, Count, Piece;
    PieceOf(EncryptText(x, text), CipherText(x, text, j),
            if x.mode == CBC then CipherBlock(x, text, j) else CipherBlock(x, text, j)[..|Piece(text, j)|], j);
  }

  /** The block function taken n times of the initial vector. */
  function EncTimes(x: Setting, n: nat): State
    requires x.Valid()
  {
    if n == 0 then x.iv[..16] else x.Enc(EncTimes(x, n - 1))
  }

  lemma {:induction false} CarriedOfb(x: Setting, text: Bytes, j: nat)
    requires x.Valid() && x.mode == OFB && j <= Count(text)
    ensures Carried(x, text, j) == EncTimes(x, j)
    decreases j
  {
    hide Encrypt;
    if j > 0 {
      CarriedOfb(x, text, j - 1);
    }
  }

  /** The equations of the standard, on the blocks p of the text and c of the ciphertext: in OFB the block
      function is taken again and again of the initial vector, in the others it is fed with the block of
      ciphertext before, which for the first block is the initial vector. */
  lemma ModeEquations(x: Setting, text: Bytes, j: nat)
    requires x.Valid() && j < Count(text)
    ensures Count(EncryptText(x, text)) == Count(text)
    ensures var p, c := Piece(text, j), Piece(EncryptText(x, text), j);
      var before := if j == 0 then x.iv[..16] else Piece(EncryptText(x, text), j - 1);
      && |before| == 16
      && (x.mode == OFB ==> c == AddRoundKey(Padded(p), EncTimes(x, j + 1))[..|p|])
      && (x.mode == CBC ==> c == x.Enc(AddRoundKey(Padded(p), before)))
      && (x.mode != OFB && x.mode != CBC ==> c == AddRoundKey(Padded(p), x.Enc(before))[..|p|])
  {
    hide EncryptText, Piece, Count, Padded, AddRoundKey, Encrypt;
    CipherPiece(x, text, j);
    if j > 0 {
      CipherPiece(x, text, j - 1);
      var b := CipherBlock(x, text, j - 1);
      assert b[..16] == b;
    }
    if x.mode == OFB {
      CarriedOfb(x, text, j);
    }
  }

  lemma EncryptIs(x: Setting, text: Bytes)
    requires x.Valid()
    ensures EncryptText(x, text) == CipherText(x, text, Count(text))
  {
  }

  lemma Lasting(text: Bytes, j: nat)
    requires j < Count(text)
    ensures 16 * j < |text| <= 16 * Count(text)
    ensures |Piece(text, j)| == if 16 * j + 16 <= |text| then 16 else |text| - 16 * j
  {
  }

  lemma PieceOf(c: Bytes, p: Bytes, b: Bytes, j: nat)
    requires p + b <= c && |p| == 16 * j && 0 < |b| <= 16 && (|b| == 16 || |c| == |p| + |b|)
    ensures Piece(c, j) == b
  {
    assert c[..|p| + |b|] == p + b;
  }

  lemma CipherNext(x: Setting, text: Bytes, j: nat)
    requires x.Valid() && j < Count(text)
    ensures CipherText(x, text, j + 1) == CipherText(x, text, j) +
      if x.mode == CBC then CipherBlock(x, text, j) else CipherBlock(x, text, j)[..|Piece(text, j)|]
  {
    hide CipherBlock, Piece;
  }

  /** While encryption and decryption go along the blocks, they carry the same values. */
  lemma {:induction false} SameCarried(x: Setting, text: Bytes, j: nat)
    requires x.Valid() && j < Count(text)
    requires Count(EncryptText(x, text)) == Count(text)
    ensures Recovered(x, EncryptText(x, text), j) == Carried(x, text, j)
  {
    hide CipherBlock, EncryptText, Piece, Count;
    if j > 0 {
      SameCarried(x, text, j - 1);
      CipherPiece(x, text, j - 1);
      var b := CipherBlock(x, text, j - 1);
      assert b[..16] == b;
    }
  }

  /** Adding the key stream to a cut-off block twice. */
  lemma CutAndPadded(p: Bytes, k: State)
    requires |p| <= 16
    ensures AddRoundKey(k, Padded(AddRoundKey(Padded(p), k)[..|p|]))[..|p|] == p
  {
    hide Add;
    var c := AddRoundKey(Padded(p), k);
    var d := AddRoundKey(k, Padded(c[..|p|]));
    forall i | 0 <= i < |p| ensures d[i] == p[i] {
      AddCancels(p[i], k[i]);
    }
  }

  lemma AddedTwice(p: State, k: State)
    ensures AddRoundKey(k, AddRoundKey(p, k)) == p
  {
    hide Add;
    var d := AddRoundKey(k, AddRoundKey(p, k));
    forall i | 0 <= i < 16 ensures d[i] == p[i] {
      AddCancels(p[i], k[i]);
    }
  }

  /** Decrypting block j of the ciphertext gives block j of the text back. */
  lemma PlainBlockIs(x: Setting, text: Bytes, j: nat)
    requires x.Valid() && j < Count(text)
    ensures Decryptable(x, EncryptText(x, text)) && Count(EncryptText(x, text)) == Count(text)
    ensures PlainBlock(x, EncryptText(x, text), j)[..|Piece(text, j)|] == Piece(text, j)
    ensures x.mode == CBC ==> PlainBlock(x, EncryptText(x, text), j) == Padded(Piece(text, j))
  {
    CipherLength(x, text, Count(text));
    CipherPiece(x, text, j);
    SameCarried(x, text, j);
    hide EncryptText, Carried, Recovered, Piece, AddRoundKey, Encrypt, Decrypt;
    var p := Piece(text, j);
    if x.mode == CBC {
      var b := AddRoundKey(Padded(p), Carried(x, text, j));
      DecryptEncrypt(x.key, x.nk, b);
      AddedTwice(Padded(p), Carried(x, text, j));
    } else {
      CutAndPadded(p, x.Enc(Carried(x, text, j)));
    }
  }

  /** The first j blocks of the text, with the padding that CBC adds to the last one. */
  function Whole(text: Bytes, j: nat): Bytes
    requires j <= Count(text)
  {
    if j == 0 then [] else Whole(text, j - 1) + Padded(Piece(text, j - 1))
  }

  lemma {:induction false} WholeIs(text: Bytes, j: nat)
    requires j <= Count(text)
    ensures |Whole(text, j)| == 16 * j
    ensures 16 * j <= |text| ==> Whole(text, j) == text[..16 * j]
    ensures 16 * j > |text| ==> Whole(text, j) == text + seq(16 * j - |text|, _ => 0)
  {
    if j > 0 {
      WholeIs(text, j - 1);
    }
  }

  function Prefix(text: Bytes, j: nat): Bytes {
    if 16 * j <= |text| then text[..16 * j] else text
  }

  lemma PrefixNext(text: Bytes, j: nat)
    requires j < Count(text)
    ensures Prefix(text, j + 1) == Prefix(text, j) + Piece(text, j)
  {
  }

  lemma Lengths(x: Setting, text: Bytes)
    requires x.Valid()
    ensures Decryptable(x, EncryptText(x, text)) && Count(EncryptText(x, text)) == Count(text)
  {
    hide CipherText;
    CipherLength(x, text, Count(text));
  }

  /** The text decrypted so far, when only the text's own bytes are kept. */
  lemma {:induction false} PlainSoFar(x: Setting, text: Bytes, c: Bytes, size: Size, j: nat)
    requires x.Valid() && j <= Count(text)
    requires (size.Unspecified? && x.mode != CBC) || (size.Original? && size.value == |text|)
    requires c == EncryptText(x, text) && Decryptable(x, c) && Count(c) == Count(text)
    ensures PlainText(x, c, size, j) == Prefix(text, j)
  {
    hide *;
    PlainNext(x, c, size, j);
    PrefixNone(text);
    if j > 0 {
      PlainSoFar(x, text, c, size, j - 1);
      PlainBlockIs(x, text, j - 1);
      PieceKept(x, text, size, j - 1);
      PrefixNext(text, j - 1);
    }
  }

  lemma PlainNext(x: Setting, c: Bytes, size: Size, j: nat)
    requires x.Valid() && Decryptable(x, c) && j <= Count(c)
    ensures j == 0 ==> PlainText(x, c, size, j) == []
    ensures j > 0 ==>
      PlainText(x, c, size, j) == PlainText(x, c, size, j - 1) + PlainBlock(x, c, j - 1)[..Kept(x, c, j - 1, size)]
  {
    hide PlainBlock, Kept;
  }

  lemma PrefixNone(text: Bytes)
    ensures Prefix(text, 0) == []
  {
  }

  /** In CBC without the size, the padding is kept. */
  lemma {:induction false} PlainPadded(x: Setting, text: Bytes, c: Bytes, j: nat)
    requires x.Valid() && x.mode == CBC && j <= Count(text)
    requires c == EncryptText(x, text) && Decryptable(x, c) && Count(c) == Count(text)
    ensures PlainText(x, c, Unspecified, j) == Whole(text, j)
  {
    hide *;
    PlainNext(x, c, Unspecified, j);
    WholeNext(text, j);
    if j > 0 {
      PlainPadded(x, text, c, j - 1);
      PaddedBlock(x, text, j - 1);
    }
  }

  /** A decrypted block of CBC is kept in full. */
  lemma PaddedBlock(x: Setting, text: Bytes, j: nat)
    requires x.Valid() && x.mode == CBC && j < Count(text)
    ensures Decryptable(x, EncryptText(x, text)) && Count(EncryptText(x, text)) == Count(text)
    ensures var c := EncryptText(x, text);
      PlainBlock(x, c, j)[..Kept(x, c, j, Unspecified)] == Padded(Piece(text, j))
  {
    hide PlainBlock, Padded, EncryptText, Piece, Kept;
    PlainBlockIs(x, text, j);
    PieceKept(x, text, Unspecified, j);
    var b := Padded(Piece(text, j));
    assert b[..16] == b;
  }

  lemma WholeNext(text: Bytes, j: nat)
    requires j <= Count(text)
    ensures j == 0 ==> Whole(text, j) == []
    ensures j > 0 ==> Whole(text, j) == Whole(text, j - 1) + Padded(Piece(text, j - 1))
  {
    hide Piece, Padded;
  }

  lemma PieceKept(x: Setting, text: Bytes, size: Size, j: nat)
    requires x.Valid() && j < Count(text)
    requires size.Unspecified? || size.value == |text|
    ensures Count(EncryptText(x, text)) == Count(text)
    ensures x.mode != CBC || size.Original? ==> Kept(x, EncryptText(x, text), j, size) == |Piece(text, j)|
    ensures x.mode == CBC && size.Unspecified? ==> Kept(x, EncryptText(x, text), j, size) == 16
  {
    CipherLength(x, text, Count(text));
    hide CipherText;
  }

  /** Decryption undoes encryption in every mode, for every key size and every message, the empty one
      and a partial last block included; CBC is given the original size. */
  lemma DecryptEncryptText(x: Setting, text: Bytes)
    requires x.Valid()
    ensures Decryptable(x, EncryptText(x, text))
    ensures DecryptText(x, EncryptText(x, text), Original(|text|)) == text
    ensures x.mode != CBC ==> DecryptText(x, EncryptText(x, text), Unspecified) == text
    ensures x.mode != CBC ==> |EncryptText(x, text)| == |text|
  {
    hide PlainText, CipherText, Decrypt, Encrypt;
    CipherLength(x, text, Count(text));
    Lengths(x, text);
    PlainSoFar(x, text, EncryptText(x, text), Original(|text|), Count(text));
    if x.mode != CBC {
      PlainSoFar(x, text, EncryptText(x, text), Unspecified, Count(text));
    }
  }

  /** Without the size, CBC gives the text back if and only if it was whole blocks, and otherwise
      the text and its padding. */
  lemma DecryptEncryptUnsized(x: Setting, text: Bytes)
    requires x.Valid() && x.mode == CBC
    ensures Decryptable(x, EncryptText(x, text))
    ensures DecryptText(x, EncryptText(x, text), Unspecified) == text + seq(16 * Count(text) - |text|, _ => 0)
    ensures DecryptText(x, EncryptText(x, text), Unspecified) == text <==> |text| % 16 == 0
  {
    hide PlainText, CipherText, Decrypt, Encrypt;
    Lengths(x, text);
    PlainPadded(x, text, EncryptText(x, text), Count(text));
    WholeIs(text, Count(text));
    assert |DecryptText(x, EncryptText(x, text), Unspecified)| == 16 * Count(text);
  }
}
