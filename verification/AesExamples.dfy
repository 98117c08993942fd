/** Words of expanded keys that FIPS 197 works out in its appendix A. */
module AesExamples {
  import opened AesCipher

  const KEY128: Bytes :=
    [0x2b, 0x7e, 0x15, 0x16, 0x28, 0xae, 0xd2, 0xa6, 0xab, 0xf7, 0x15, 0x88, 0x09, 0xcf, 0x4f, 0x3c]

  const KEY192: Bytes :=
    [0x8e, 0x73, 0xb0, 0xf7, 0xda, 0x0e, 0x64, 0x52, 0xc8, 0x10, 0xf3, 0x2b,
     0x80, 0x90, 0x79, 0xe5, 0x62, 0xf8, 0xea, 0xd2, 0x52, 0x2c, 0x6b, 0x7b]

  const KEY256: Bytes :=
    [0x60, 0x3d, 0xeb, 0x10, 0x15, 0xca, 0x71, 0xbe, 0x2b, 0x73, 0xae, 0xf0, 0x85, 0x7d, 0x77, 0x81] +
    [0x1f, 0x35, 0x2c, 0x07, 0x3b, 0x61, 0x08, 0xd7, 0x2d, 0x98, 0x10, 0xa3, 0x09, 0x14, 0xdf, 0xf4]

  lemma KeyPart(key: Bytes, nk: nat, i: nat)
    requires i < nk && |key| >= 4 * nk
    ensures KeyWord(key, nk, i) == [key[4 * i], key[4 * i + 1], key[4 * i + 2], key[4 * i + 3]]
  {
  }

  lemma KeyStep(key: Bytes, nk: nat, i: nat, w: Word, p: Word)
    requires 0 < nk <= i && |key| >= 4 * nk && KeyWord(key, nk, i - nk) == w && KeyWord(key, nk, i - 1) == p
    ensures KeyWord(key, nk, i) == AddWord(w, Scheduled(p, nk, i))
  {
  }

  /** The first words behind the key, for keys of each length (appendices A.1 to A.3), and for the longest
      also the one behind half a key length, which is substituted without being turned. */
  lemma FirstWords()
    ensures KeyWord(KEY128, 4, 4) == [0xa0, 0xfa, 0xfe, 0x17]
    ensures KeyWord(KEY192, 6, 6) == [0xfe, 0x0c, 0x91, 0xf7]
    ensures KeyWord(KEY256, 8, 8) == [0x9b, 0xa3, 0x54, 0x11]
    ensures KeyWord(KEY256, 8, 12) == [0xa8, 0xb0, 0x9c, 0x1a]
  {
    hide KeyWord;
    Parts128();
    Parts192();
    Parts256();
    LastParts256();
    Word128(KEY128);
    Word192(KEY192);
    Word256(KEY256);
    ExtraWord(KEY256);
  }

  lemma Parts128()
    ensures KeyWord(KEY128, 4, 0) == [0x2b, 0x7e, 0x15, 0x16] && KeyWord(KEY128, 4, 3) == [0x09, 0xcf, 0x4f, 0x3c]
  {
    hide KeyWord;
    KeyPart(KEY128, 4, 0);
    KeyPart(KEY128, 4, 3);
  }

  lemma Parts192()
    ensures KeyWord(KEY192, 6, 0) == [0x8e, 0x73, 0xb0, 0xf7] && KeyWord(KEY192, 6, 5) == [0x52, 0x2c, 0x6b, 0x7b]
  {
    hide KeyWord;
    KeyPart(KEY192, 6, 0);
    KeyPart(KEY192, 6, 5);
  }

  lemma Parts256()
    ensures KeyWord(KEY256, 8, 0) == [0x60, 0x3d, 0xeb, 0x10] && KeyWord(KEY256, 8, 1) == [0x15, 0xca, 0x71, 0xbe]
    ensures KeyWord(KEY256, 8, 2) == [0x2b, 0x73, 0xae, 0xf0] && KeyWord(KEY256, 8, 3) == [0x85, 0x7d, 0x77, 0x81]
  {
    hide KeyWord;
    KeyPart(KEY256, 8, 0);
    KeyPart(KEY256, 8, 1);
    KeyPart(KEY256, 8, 2);
    KeyPart(KEY256, 8, 3);
  }

  lemma LastParts256()
    ensures KeyWord(KEY256, 8, 4) == [0x1f, 0x35, 0x2c, 0x07] && KeyWord(KEY256, 8, 7) == [0x09, 0x14, 0xdf, 0xf4]
  {
    hide KeyWord;
    KeyPart(KEY256, 8, 4);
    KeyPart(KEY256, 8, 7);
  }

  lemma Word128(key: Bytes)
    requires |key| == 16
    requires KeyWord(key, 4, 0) == [0x2b, 0x7e, 0x15, 0x16] && KeyWord(key, 4, 3) == [0x09, 0xcf, 0x4f, 0x3c]
    ensures KeyWord(key, 4, 4) == [0xa0, 0xfa, 0xfe, 0x17]
  {
    hide KeyWord;
    KeyStep(key, 4, 4, [0x2b, 0x7e, 0x15, 0x16], [0x09, 0xcf, 0x4f, 0x3c]);
  }

  lemma Word192(key: Bytes)
    requires |key| == 24
    requires KeyWord(key, 6, 0) == [0x8e, 0x73, 0xb0, 0xf7] && KeyWord(key, 6, 5) == [0x52, 0x2c, 0x6b, 0x7b]
    ensures KeyWord(key, 6, 6) == [0xfe, 0x0c, 0x91, 0xf7]
  {
    hide KeyWord;
    KeyStep(key, 6, 6, [0x8e, 0x73, 0xb0, 0xf7], [0x52, 0x2c, 0x6b, 0x7b]);
  }

  lemma Word256(key: Bytes)
    requires |key| == 32
    requires KeyWord(key, 8, 0) == [0x60, 0x3d, 0xeb, 0x10] && KeyWord(key, 8, 7) == [0x09, 0x14, 0xdf, 0xf4]
    ensures KeyWord(key, 8, 8) == [0x9b, 0xa3, 0x54, 0x11]
  {
    hide KeyWord;
    KeyStep(key, 8, 8, [0x60, 0x3d, 0xeb, 0x10], [0x09, 0x14, 0xdf, 0xf4]);
  }

  lemma ExtraWord(key: Bytes)
    requires |key| == 32 && KeyWord(key, 8, 8) == [0x9b, 0xa3, 0x54, 0x11]
    requires KeyWord(key, 8, 1) == [0x15, 0xca, 0x71, 0xbe] && KeyWord(key, 8, 2) == [0x2b, 0x73, 0xae, 0xf0]
    requires KeyWord(key, 8, 3) == [0x85, 0x7d, 0x77, 0x81] && KeyWord(key, 8, 4) == [0x1f, 0x35, 0x2c, 0x07]
    ensures KeyWord(key, 8, 12) == [0xa8, 0xb0, 0x9c, 0x1a]
  {
    hide KeyWord, AddWord, Scheduled;
    PlainWords(key);
    KeyStep(key, 8, 12, [0x1f, 0x35, 0x2c, 0x07], [0x20, 0x67, 0xfc, 0xde]);
    SubstitutedWord();
  }

  lemma PlainWords(key: Bytes)
    requires |key| == 32 && KeyWord(key, 8, 8) == [0x9b, 0xa3, 0x54, 0x11]
    requires KeyWord(key, 8, 1) == [0x15, 0xca, 0x71, 0xbe] && KeyWord(key, 8, 2) == [0x2b, 0x73, 0xae, 0xf0]
    requires KeyWord(key, 8, 3) == [0x85, 0x7d, 0x77, 0x81]
    ensures KeyWord(key, 8, 11) == [0x20, 0x67, 0xfc, 0xde]
  {
    hide KeyWord, AddWord;
    Sums();
    PlainStep(key, 8, 9, [0x15, 0xca, 0x71, 0xbe], [0x9b, 0xa3, 0x54, 0x11], [0x8e, 0x69, 0x25, 0xaf]);
    PlainStep(key, 8, 10, [0x2b, 0x73, 0xae, 0xf0], [0x8e, 0x69, 0x25, 0xaf], [0xa5, 0x1a, 0x8b, 0x5f]);
    PlainStep(key, 8, 11, [0x85, 0x7d, 0x77, 0x81], [0xa5, 0x1a, 0x8b, 0x5f], [0x20, 0x67, 0xfc, 0xde]);
  }

  lemma Sums()
    ensures AddWord([0x15, 0xca, 0x71, 0xbe], [0x9b, 0xa3, 0x54, 0x11]) == [0x8e, 0x69, 0x25, 0xaf]
    ensures AddWord([0x2b, 0x73, 0xae, 0xf0], [0x8e, 0x69, 0x25, 0xaf]) == [0xa5, 0x1a, 0x8b, 0x5f]
    ensures AddWord([0x85, 0x7d, 0x77, 0x81], [0xa5, 0x1a, 0x8b, 0x5f]) == [0x20, 0x67, 0xfc, 0xde]
  {
  }

  lemma PlainStep(key: Bytes, nk: nat, i: nat, w: Word, p: Word, r: Word)
    requires 8 == nk < i < 12 && |key| >= 4 * nk && KeyWord(key, nk, i - nk) == w && KeyWord(key, nk, i - 1) == p
    requires AddWord(w, p) == r
    ensures KeyWord(key, nk, i) == r
  {
    hide KeyWord, AddWord;
    KeyStep(key, nk, i, w, p);
  }

  lemma SubstitutedWord()
    ensures AddWord([0x1f, 0x35, 0x2c, 0x07], Scheduled([0x20, 0x67, 0xfc, 0xde], 8, 12)) == [0xa8, 0xb0, 0x9c, 0x1a]
  {
  }
}
