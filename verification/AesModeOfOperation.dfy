/** The program of the modes of operation.  Lists are shared on purpose: `iput` becomes another name
    of the ciphertext of the last block, or of the last output, while that list is used again. */
module AesModeOfOperation {
  import opened Galois
  import opened AesState
  import opened AesCipher
  import opened AesBlock
  import opened AesModes
  import opened Options

  /** Up to 16 characters of a string as a list of numbers, of full length in CBC. */
  method ConvertString(text: Bytes, start: nat, end: nat, mode: nat) returns (ar: array<bv8>)
    requires start <= end <= |text| && end - start <= 16
    ensures fresh(ar)
    ensures ar[..] == if mode == CBC then Padded(text[start..end]) else text[start..end]
  {
    if mode == CBC {
      ar := new bv8[16](_ => 0);
    } else {
      ar := new bv8[end - start](_ => 0);
    }
    var i, j := start, 0;
    while i < end
      invariant start <= i <= end && j == i - start
      invariant forall k :: 0 <= k < j ==> ar[k] == text[start + k]
      invariant forall k :: j <= k < ar.Length ==> ar[k] == 0
    {
      ar[j] := text[i];
      j := j + 1;
      i := i + 1;
    }
  }

  /** Writes the sum of a key stream block and a perhaps shorter piece. */
  method Combine(target: array<bv8>, piece: array<bv8>, output: array<bv8>)
    requires target.Length == 16 && piece.Length <= 16 && output.Length == 16
    requires target != piece && target != output
    modifies target
    ensures target[..] == AddRoundKey(Padded(piece[..]), output[..])
  {
    for i := 0 to 16
      invariant forall k :: 0 <= k < i ==> target[k] == Add(Padded(piece[..])[k], output[k])
    {
      if piece.Length - 1 < i {
        target[i] := 0 ^ output[i];
      } else {
        target[i] := piece[i] ^ output[i];
      }
    }
  }

  method AddChained(target: array<bv8>, first: array<bv8>, second: array<bv8>)
    requires target.Length == 16 && first.Length >= 16 && second.Length >= 16
    requires target != first && target != second
    modifies target
    ensures target[..] == AddRoundKey(first[..16], second[..16])
  {
    for i := 0 to 16
      invariant forall k :: 0 <= k < i ==> target[k] == Add(first[k], second[k])
    {
      target[i] := first[i] ^ second[i];
    }
  }

  /** A key of whole multiples of its size, not empty, has at least that many bytes. */
  lemma LongEnough(n: nat, size: nat)
    requires (size == 16 || size == 24 || size == 32) && n > 0 && n % size == 0
    ensures n >= size
  {
  }

  predicate SupportedSize(size: nat) {
    size == 16 || size == 24 || size == 32
  }

  /** Where the program keeps what it carries over to block j. */
  ghost predicate Chaining(x: Setting, text: Bytes, j: nat, iput: array<bv8>, ciphertext: array<bv8>)
    requires x.Valid() && j <= Count(text)
    reads iput, ciphertext
  {
    && (x.mode == CFB && j > 0 ==> iput == ciphertext && iput[..] == Carried(x, text, j))
    && (x.mode == OFB && j > 0 ==> iput[..] == Carried(x, text, j))
    && (x.mode == CBC && j > 0 ==> ciphertext[..] == Carried(x, text, j))
  }

  /** What encrypting block j adds. */
  lemma CipherStep(x: Setting, text: Bytes, j: nat)
    requires x.Valid() && Known(x.mode) && j < Count(text)
    ensures x.mode != CBC ==>
      CipherBlock(x, text, j) == AddRoundKey(Padded(Piece(text, j)), Encrypt(x.key, x.nk, Carried(x, text, j)))
    ensures x.mode != CBC ==>
      CipherText(x, text, j + 1) == CipherText(x, text, j) + CipherBlock(x, text, j)[..|Piece(text, j)|]
    ensures x.mode == OFB ==> Carried(x, text, j + 1) == Encrypt(x.key, x.nk, Carried(x, text, j))
    ensures x.mode != OFB ==> Carried(x, text, j + 1) == CipherBlock(x, text, j)
    ensures x.mode == CBC ==>
      CipherBlock(x, text, j) == Encrypt(x.key, x.nk, AddRoundKey(Padded(Piece(text, j)), Carried(x, text, j)))
    ensures x.mode == CBC ==> CipherText(x, text, j + 1) == CipherText(x, text, j) + CipherBlock(x, text, j)
    ensures j == 0 ==> Carried(x, text, j) == x.iv[..16]
  {
    hide Encrypt, AddRoundKey, Piece, Padded;
  }

  /** The next block of key stream, from the initial vector the first time. */
  method StreamBlock(iput: array<bv8>, iv: array<bv8>, firstRound: bool, key: Bytes, size: nat)
    returns (output: array<bv8>)
    requires SupportedSize(size) && |key| >= size
    requires firstRound ==> iv.Length >= 16
    requires !firstRound ==> iput.Length >= 16
    ensures fresh(output) && output.Length == 16
    ensures output[..] == Encrypt(key, size / 4, if firstRound then iv[..16] else iput[..16])
  {
    hide Encrypt;
    var block;
    if firstRound {
      block := EncryptBlock(iv, key, size);
    } else {
      block := EncryptBlock(iput, key, size);
    }
    return block.value;
  }

  lemma CipherNone(x: Setting, text: Bytes)
    requires x.Valid()
    ensures CipherText(x, text, 0) == []
  {
  }

  /** A block in OFB or CFB; the result is what `iput` names from now on. */
  method StreamRound(ghost x: Setting, ghost text: Bytes, ghost j: nat, iput: array<bv8>, ciphertext: array<bv8>,
                     iv: array<bv8>, firstRound: bool, plaintext: array<bv8>, mode: nat, key: Bytes, size: nat)
    returns (next: array<bv8>)
    requires SupportedSize(size) && |key| >= size && iv.Length >= 16
    requires x == Setting(mode, key, size / 4, iv[..]) && (mode == CFB || mode == OFB)
    requires j < Count(text) && plaintext[..] == Piece(text, j)
    requires iput.Length == ciphertext.Length == 16 && plaintext != ciphertext && iv != ciphertext
    requires firstRound == (j == 0) && Chaining(x, text, j, iput, ciphertext)
    modifies ciphertext
    ensures ciphertext[..] == CipherBlock(x, text, j)
    ensures next.Length == 16 && Chaining(x, text, j + 1, next, ciphertext)
    ensures if mode == CFB then next == ciphertext else fresh(next)
  {
    hide Encrypt, AddRoundKey, Padded, CipherText, CipherBlock, Carried, Piece;
    CipherStep(x, text, j);
    assert iput[..16] == iput[..];
    var output := StreamBlock(iput, iv, firstRound, key, size);
    Combine(ciphertext, plaintext, output);
    next := if mode == CFB then ciphertext else output;
  }

  /** A block in CBC; the result is the new list of its ciphertext. */
  method ChainRound(ghost x: Setting, ghost text: Bytes, ghost j: nat, iput: array<bv8>, ciphertext: array<bv8>,
                    iv: array<bv8>, firstRound: bool, plaintext: array<bv8>, key: Bytes, size: nat)
    returns (next: array<bv8>)
    requires SupportedSize(size) && |key| >= size && iv.Length >= 16
    requires x == Setting(CBC, key, size / 4, iv[..])
    requires j < Count(text) && plaintext[..] == Padded(Piece(text, j))
    requires iput.Length == ciphertext.Length == 16 && iput != plaintext && iput != iv && iput != ciphertext
    requires firstRound == (j == 0) && Chaining(x, text, j, iput, ciphertext)
    modifies iput
    ensures fresh(next) && next.Length == 16
    ensures next[..] == CipherBlock(x, text, j) && Chaining(x, text, j + 1, iput, next)
  {
    hide Encrypt, AddRoundKey, Padded, CipherText, CipherBlock, Carried, Piece;
    CipherStep(x, text, j);
    assert ciphertext[..16] == ciphertext[..];
    assert plaintext.Length == |plaintext[..]| == 16;
    assert plaintext[..16] == plaintext[..];
    AddChained(iput, plaintext, if firstRound then iv else ciphertext);
    assert iput[..16] == iput[..];
    var block := EncryptBlock(iput, key, size);
    next := block.value;
  }

  method EncryptMessage(stringIn: Bytes, mode: nat, key: Bytes, size: nat, iv: array<bv8>)
    returns (r: Option<(nat, nat, Bytes)>)
    requires size > 0
    requires stringIn != [] && Known(mode) ==> SupportedSize(size) && key != [] && iv.Length > 0
    ensures r.None? <==> |key| % size != 0 || iv.Length % 16 != 0
    ensures r.Some? ==> r.value.0 == mode && r.value.1 == |stringIn|
    ensures r.Some? && !Known(mode) ==> r.value.2 == []
    ensures r.Some? && stringIn == [] ==> r.value.2 == []
    ensures r.Some? && Known(mode) && stringIn != [] ==>
      var x := Setting(mode, key, size / 4, iv[..]);
      x.Valid() && r.value.2 == EncryptText(x, stringIn)
  {
    hide Encrypt, AddRoundKey, Padded, CipherText, CipherBlock, Carried;
    if |key| % size != 0 { return None; }
    if iv.Length % 16 != 0 { return None; }
    ghost var x := Setting(mode, key, size / 4, iv[..]);
    if stringIn != [] && Known(mode) {
      LongEnough(|key|, size);
    }
    var iput := new bv8[16](_ => 0);
    var ciphertext := new bv8[16](_ => 0);
    var cipherOut: Bytes := [];
    var firstRound := true;
    if stringIn != [] && Known(mode) {
      CipherNone(x, stringIn);
    }
    for j := 0 to Count(stringIn)
      invariant fresh(iput) && iput.Length == 16 && fresh(ciphertext) && ciphertext.Length == 16
      invariant j == 0 || !Known(mode) ==> cipherOut == []
      invariant Known(mode) ==> firstRound == (j == 0) && (mode != CFB || j == 0 ==> iput != ciphertext)
      invariant Known(mode) && stringIn != [] ==>
        x.Valid() && cipherOut == CipherText(x, stringIn, j) && Chaining(x, stringIn, j, iput, ciphertext)
    {
      var start, end := j * 16, j * 16 + 16;
      if end > |stringIn| {
        end := |stringIn|;
      }
      var plaintext := ConvertString(stringIn, start, end, mode);
      if Known(mode) {
        CipherStep(x, stringIn, j);
        assert Piece(stringIn, j) == stringIn[start..end];
      }
      if mode == CFB || mode == OFB {
        iput := StreamRound(x, stringIn, j, iput, ciphertext, iv, firstRound, plaintext, mode, key, size);
        firstRound := false;
        cipherOut := cipherOut + ciphertext[..end - start];
      } else if mode == CBC {
        ciphertext := ChainRound(x, stringIn, j, iput, ciphertext, iv, firstRound, plaintext, key, size);
        firstRound := false;
        cipherOut := cipherOut + ciphertext[..];
      }
    }
    return Some((mode, |stringIn|, cipherOut));
  }

  /** Writes the sum of a key stream block and a perhaps shorter piece of ciphertext. */
  method Uncombine(target: array<bv8>, output: array<bv8>, piece: array<bv8>)
    requires target.Length == 16 && piece.Length <= 16 && output.Length == 16
    requires target != piece && target != output
    modifies target
    ensures target[..] == AddRoundKey(output[..], Padded(piece[..]))
  {
    for i := 0 to 16
      invariant forall k :: 0 <= k < i ==> target[k] == Add(output[k], Padded(piece[..])[k])
    {
      if piece.Length - 1 < i {
        target[i] := output[i] ^ 0;
      } else {
        target[i] := output[i] ^ piece[i];
      }
    }
  }

  /** Where the program keeps what it carries over to block j of a ciphertext. */
  ghost predicate Unchaining(x: Setting, cipher: Bytes, j: nat, iput: array<bv8>)
    requires x.Valid() && j <= Count(cipher)
    reads iput
  {
    0 < j < Count(cipher) ==> iput.Length >= 16 && iput[..16] == Recovered(x, cipher, j)
  }

  /** What decrypting block j adds. */
  lemma PlainStep(x: Setting, cipher: Bytes, size: Size, j: nat)
    requires x.Valid() && Known(x.mode) && Decryptable(x, cipher) && j < Count(cipher)
    ensures x.mode != CBC ==>
      PlainBlock(x, cipher, j) == AddRoundKey(Encrypt(x.key, x.nk, Recovered(x, cipher, j)), Padded(Piece(cipher, j)))
    ensures x.mode == CBC ==> |Piece(cipher, j)| == 16
    ensures x.mode == CBC ==>
      PlainBlock(x, cipher, j) == AddRoundKey(Recovered(x, cipher, j), Decrypt(x.key, x.nk, Piece(cipher, j)))
    ensures x.mode == OFB && j + 1 < Count(cipher) ==>
      Recovered(x, cipher, j + 1) == Encrypt(x.key, x.nk, Recovered(x, cipher, j))
    ensures x.mode != OFB && j + 1 < Count(cipher) ==> Recovered(x, cipher, j + 1) == Piece(cipher, j)
    ensures j == 0 ==> Recovered(x, cipher, j) == x.iv[..16]
    ensures PlainText(x, cipher, size, j + 1)
         == PlainText(x, cipher, size, j) + PlainBlock(x, cipher, j)[..Kept(x, cipher, j, size)]
  {
    if x.mode == CBC {
      WholePiece(x, cipher, j);
    }
    hide Encrypt, Decrypt, AddRoundKey, Piece, Padded;
  }

  /** A block in OFB or CFB; the result is what `iput` names from now on. */
  method StreamBack(ghost x: Setting, ghost cipher: Bytes, ghost j: nat, iput: array<bv8>, ciphertext: array<bv8>,
                    iv: array<bv8>, firstRound: bool, plaintext: array<bv8>, mode: nat, key: Bytes, size: nat)
    returns (next: array<bv8>)
    requires SupportedSize(size) && |key| >= size && iv.Length >= 16
    requires x == Setting(mode, key, size / 4, iv[..]) && (mode == CFB || mode == OFB)
    requires j < Count(cipher) && ciphertext[..] == Piece(cipher, j)
    requires plaintext.Length == 16 && plaintext != ciphertext
    requires firstRound == (j == 0) && Unchaining(x, cipher, j, iput)
    modifies plaintext
    ensures plaintext[..] == PlainBlock(x, cipher, j)
    ensures Unchaining(x, cipher, j + 1, next) && (next == ciphertext || fresh(next))
  {
    hide Encrypt, AddRoundKey, Padded, PlainBlock, Recovered, Piece;
    PlainStep(x, cipher, Unspecified, j);
    var output := StreamBlock(iput, iv, firstRound, key, size);
    Uncombine(plaintext, output, ciphertext);
    assert output[..16] == output[..];
    next := if mode == CFB then ciphertext else output;
    if j + 1 < Count(cipher) && mode == CFB {
      assert |Piece(cipher, j)| == ciphertext.Length == 16;
      assert ciphertext[..16] == ciphertext[..];
    }
  }

  /** A block in CBC. */
  method ChainBack(ghost x: Setting, ghost cipher: Bytes, ghost j: nat, iput: array<bv8>, ciphertext: array<bv8>,
                   iv: array<bv8>, firstRound: bool, plaintext: array<bv8>, key: Bytes, size: nat)
    requires SupportedSize(size) && |key| >= size && iv.Length >= 16
    requires x == Setting(CBC, key, size / 4, iv[..]) && Decryptable(x, cipher)
    requires j < Count(cipher) && ciphertext[..] == Piece(cipher, j)
    requires plaintext.Length == 16 && plaintext != ciphertext && plaintext != iput && plaintext != iv
    requires firstRound == (j == 0) && Unchaining(x, cipher, j, iput)
    modifies plaintext
    ensures plaintext[..] == PlainBlock(x, cipher, j)
    ensures Unchaining(x, cipher, j + 1, ciphertext)
  {
    hide Encrypt, Decrypt, AddRoundKey, Padded, PlainBlock, Recovered, Piece;
    PlainStep(x, cipher, Unspecified, j);
    assert |Piece(cipher, j)| == ciphertext.Length == 16;
    assert ciphertext[..16] == ciphertext[..];
    var block := DecryptBlock(ciphertext, key, size);
    var output := block.value;
    assert output[..16] == output[..];
    AddChained(plaintext, if firstRound then iv else iput, output);
  }

  method DecryptMessage(cipherIn: Bytes, originalsize: Size, mode: nat, key: Bytes, size: nat, iv: array<bv8>)
    returns (r: Option<Bytes>)
    requires size > 0
    requires cipherIn != [] && Known(mode) ==> SupportedSize(size) && key != [] && iv.Length > 0
    requires mode == CBC ==> |cipherIn| % 16 == 0
    ensures r.None? <==> |key| % size != 0 || iv.Length % 16 != 0
    ensures r.Some? && !Known(mode) ==> r.value == []
    ensures r.Some? && cipherIn == [] ==> r.value == []
    ensures r.Some? && Known(mode) && cipherIn != [] ==>
      var x := Setting(mode, key, size / 4, iv[..]);
      x.Valid() && r.value == DecryptText(x, cipherIn, originalsize)
  {
    hide Encrypt, Decrypt, AddRoundKey, Padded, PlainText, PlainBlock, Recovered;
    if |key| % size != 0 { return None; }
    if iv.Length % 16 != 0 { return None; }
    ghost var x := Setting(mode, key, size / 4, iv[..]);
    var iput := new bv8[0];
    var plaintext := new bv8[16](_ => 0);
    var stringOut: Bytes := [];
    var firstRound := true;
    if cipherIn != [] && Known(mode) {
      LongEnough(|key|, size);
      PlainNone(x, cipherIn, originalsize);
    }
    for j := 0 to Count(cipherIn)
      invariant fresh(plaintext) && plaintext.Length == 16 && fresh(iput) && iput != plaintext
      invariant j == 0 || !Known(mode) ==> stringOut == []
      invariant Known(mode) ==> firstRound == (j == 0)
      invariant Known(mode) && cipherIn != [] ==>
        x.Valid() && stringOut == PlainText(x, cipherIn, originalsize, j) && Unchaining(x, cipherIn, j, iput)
    {
      var start, end := j * 16, j * 16 + 16;
      if j * 16 + 16 > |cipherIn| {
        end := |cipherIn|;
      }
      var ciphertext := new bv8[end - start](i requires 0 <= i < end - start => cipherIn[start + i]);
      assert ciphertext[..] == cipherIn[start..end] == Piece(cipherIn, j);
      if Known(mode) {
        PlainStep(x, cipherIn, originalsize, j);
      }
      if mode == CFB || mode == OFB {
        iput := StreamBack(x, cipherIn, j, iput, ciphertext, iv, firstRound, plaintext, mode, key, size);
        firstRound := false;
        stringOut := stringOut + plaintext[..end - start];
      } else if mode == CBC {
        ChainBack(x, cipherIn, j, iput, ciphertext, iv, firstRound, plaintext, key, size);
        firstRound := false;
        if originalsize.Original? && originalsize.value < end {
          stringOut := stringOut + plaintext[..if originalsize.value < start then 0 else originalsize.value - start];
        } else {
          stringOut := stringOut + plaintext[..end - start];
        }
        iput := ciphertext;
      }
    }
    return Some(stringOut);
  }

  lemma PlainNone(x: Setting, cipher: Bytes, size: Size)
    requires x.Valid() && Decryptable(x, cipher)
    ensures PlainText(x, cipher, size, 0) == []
  {
  }
}
