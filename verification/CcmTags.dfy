/** What a CCM tag covers: for inputs that differ in anything, some block function gives tags that differ
    in their first four bytes, which every tag has. */
module CcmTags {
  import opened BitArray
  import opened BitNumbers
  import opened Ccm
  import opened CcmBlocks
  import opened Options
  import opened Ring

  /** The cipher block chain of section 2.2 of RFC 3610: each block is added to what came before, and the
      block function taken of the sum. */
  function Mac(e: Cipher, b: seq<Block>): Block {
    if b == [] then ZeroBlock() else e(XorBlock(Mac(e, b[..|b| - 1]), b[|b| - 1]))
  }

  lemma MacStep(e: Cipher, b: seq<Block>, s: Block)
    ensures Mac(e, b + [s]) == e(XorBlock(Mac(e, b), s))
  {
    assert (b + [s])[..|b|] == b;
  }

  lemma {:induction false} ChainedMac(e: Cipher, front: seq<Block>, m: seq<Entry>, j: nat)
    requires j <= |BlocksOf(m)|
    ensures Chained(e, Mac(e, front), m, 4 * j) == Mac(e, front + BlocksOf(m)[j..])
    decreases |BlocksOf(m)| - j
  {
    hide Mac, XorBlock, BlockAt;
    var b := BlocksOf(m);
    if 4 * j < |m| {
      MacStep(e, front, b[j]);
      ChainedMac(e, front + [b[j]], m, j + 1);
      assert front + [b[j]] + b[j + 1..] == front + b[j..];
    } else {
      assert front + b[j..] == front;
    }
  }

  /** The tag is the chain of everything that is given to it. */
  lemma TagIsMac(e: Cipher, x: Input)
    requires x.Valid()
    ensures Tag(e, x) == Mac(e, Fed(x))
  {
    hide Mac, XorBlock, BlockAt, BlocksOf, Chained, FirstBlock, Canonical, Authenticated;
    var f, a, d := FirstBlock(x), Authenticated(x), x.data;
    EmptyMac(e);
    MacStep(e, [], f);
    ZeroAdded(f);
    assert [] + [f] == [f];
    ChainedMac(e, [f], a, 0);
    assert BlocksOf(a)[0..] == BlocksOf(a) && BlocksOf(d)[0..] == BlocksOf(d);
    ChainedMac(e, [f] + BlocksOf(a), d, 0);
  }

  lemma EmptyMac(e: Cipher)
    ensures Mac(e, []) == ZeroBlock()
  {
  }

  lemma ZeroAdded(b: Block)
    ensures XorBlock(ZeroBlock(), b) == b
  {
    assert XorWord(ZERO, b[0]) == b[0] && XorWord(ZERO, b[1]) == b[1];
    assert XorWord(ZERO, b[2]) == b[2] && XorWord(ZERO, b[3]) == b[3];
  }

  lemma XorTwice(a: Block, b: Block)
    ensures XorBlock(XorBlock(a, b), b) == a && XorBlock(a, XorBlock(a, b)) == b
  {
    forall i | 0 <= i < 4
      ensures XorWord(XorWord(a[i], b[i]), b[i]) == a[i] && XorWord(a[i], XorWord(a[i], b[i])) == b[i]
    {
      WordTwice(a[i], b[i]);
    }
  }

  lemma WordTwice(v: Word, w: Word)
    ensures XorWord(XorWord(v, w), w) == v && XorWord(v, XorWord(v, w)) == w
  {
  }

  // Two lists of blocks that differ are told apart

  /** The chain of b goes through the states of p, one for each block, and everything else leads back to
      the start. */
  ghost function Walk(p: seq<Block>, b: seq<Block>, x: Block): Block
    requires |p| == |b| + 1
  {
    if k :| 0 <= k < |b| && x == XorBlock(p[k], b[k]) then p[k + 1] else ZeroBlock()
  }

  ghost function Walker(p: seq<Block>, b: seq<Block>): Cipher
    requires |p| == |b| + 1
  {
    (x: Block) => Walk(p, b, x)
  }

  /** The states start at the zero block, have a first word of zeros, and differ from each other by no
      two blocks of d. */
  ghost predicate Apart(p: seq<Block>, d: seq<Block>) {
    && p != [] && p[0] == ZeroBlock() && (forall k :: 0 <= k < |p| ==> p[k][0] == ZERO)
    && (forall i, k, s, t :: 0 <= i < k < |p| && s in d && t in d ==> p[k] != XorBlock(XorBlock(p[i], s), t))
  }

  /** States for the chain of b; only the last has a first word that is not of zeros. */
  ghost predicate Guides(p: seq<Block>, b: seq<Block>, d: seq<Block>) {
    && |p| == |b| + 1 && b != [] && Apart(p[..|b|], d) && p[|b|][0] != ZERO
    && forall s :: s in b ==> s in d
  }

  /** From state i the walk goes on with block i of b, and back to the start with any other. */
  lemma WalkStep(p: seq<Block>, b: seq<Block>, d: seq<Block>, i: nat, s: Block)
    requires Guides(p, b, d) && i < |b| && s in d
    ensures Walk(p, b, XorBlock(p[i], s)) == if s == b[i] then p[i + 1] else p[0]
  {
    hide XorBlock;
    var x := XorBlock(p[i], s);
    assert p[..|b|][0] == p[0];
    forall k | 0 <= k < |b| && x == XorBlock(p[k], b[k]) ensures k == i && s == b[i] {
      OnlyState(p[..|b|], d, i, s, k, b[k]);
      XorTwice(p[i], s);
      XorTwice(p[i], b[i]);
    }
  }

  lemma OnlyState(p: seq<Block>, d: seq<Block>, i: nat, s: Block, k: nat, t: Block)
    requires Apart(p, d) && i < |p| && k < |p| && s in d && t in d && XorBlock(p[i], s) == XorBlock(p[k], t)
    ensures i == k
  {
    hide XorBlock;
    XorTwice(p[i], s);
    XorTwice(p[k], t);
  }

  /** On b the walk ends in the last state. */
  lemma {:induction false} WalkThrough(p: seq<Block>, b: seq<Block>, d: seq<Block>, j: nat)
    requires Guides(p, b, d) && j <= |b|
    ensures Mac(Walker(p, b), b[..j]) == p[j]
  {
    hide Apart, XorBlock, Walk;
    if j > 0 {
      WalkThrough(p, b, d, j - 1);
      assert b[..j] == b[..j - 1] + [b[j - 1]];
      MacStep(Walker(p, b), b[..j - 1], b[j - 1]);
      WalkStep(p, b, d, j - 1, b[j - 1]);
    } else {
      FirstState(p, b, d);
    }
  }

  lemma FirstState(p: seq<Block>, b: seq<Block>, d: seq<Block>)
    requires Guides(p, b, d)
    ensures p[0] == ZeroBlock()
  {
    assert p[..|b|][0] == p[0];
  }

  /** On any c not longer, it is in state i only when the last i blocks are the first of b. */
  lemma {:induction false} WalkElsewhere(p: seq<Block>, b: seq<Block>, d: seq<Block>, c: seq<Block>, j: nat)
    returns (i: nat)
    requires Guides(p, b, d) && j <= |c| <= |b| && forall s :: s in c ==> s in d
    ensures i <= j && Mac(Walker(p, b), c[..j]) == p[i] && c[j - i..j] == b[..i]
  {
    hide Apart, XorBlock, Walk;
    i := 0;
    FirstState(p, b, d);
    if j > 0 {
      i := WalkElsewhere(p, b, d, c, j - 1);
      assert c[..j] == c[..j - 1] + [c[j - 1]];
      MacStep(Walker(p, b), c[..j - 1], c[j - 1]);
      WalkStep(p, b, d, i, c[j - 1]);
      if c[j - 1] == b[i] {
        OneMore(b, c, i, j);
        i := i + 1;
      } else {
        i := 0;
      }
    }
  }

  lemma OneMore(b: seq<Block>, c: seq<Block>, i: nat, j: nat)
    requires i < j <= |c| && i < |b| && c[j - 1 - i..j - 1] == b[..i] && c[j - 1] == b[i]
    ensures c[j - 1 - i..j] == b[..i + 1]
  {
    assert c[j - 1 - i..j] == c[j - 1 - i..j - 1] + [c[j - 1]];
  }

  /** So the first words of the two chains differ. */
  lemma ToldApart(p: seq<Block>, b: seq<Block>, d: seq<Block>, c: seq<Block>)
    requires Guides(p, b, d) && |c| <= |b| && b != c && forall s :: s in c ==> s in d
    ensures Mac(Walker(p, b), b)[0] != Mac(Walker(p, b), c)[0]
  {
    hide XorBlock, Walk, Mac, Walker;
    WalkThrough(p, b, d, |b|);
    assert b[..|b|] == b && c[..|c|] == c;
    var i := WalkElsewhere(p, b, d, c, |c|);
    assert i == |c| ==> c[|c| - i..|c|] == c;
    assert i < |b| ==> p[..|b|][i] == p[i];
  }

  // There are such states

  /** Of more numbers than a list has, one is not in it. */
  lemma {:induction false} FreshNumber(l: seq<nat>, n: nat) returns (v: nat)
    requires |l| < n
    ensures v < n && v !in l
    decreases n
  {
    if n - 1 in l {
      var j :| 0 <= j < |l| && l[j] == n - 1;
      v := FreshNumber(l[..j] + l[j + 1..], n - 1);
      assert forall i :: 0 <= i < |l| && l[i] == v ==> i != j;
      assert forall i :: 0 <= i < j ==> (l[..j] + l[j + 1..])[i] == l[i];
      assert forall i :: j < i < |l| ==> (l[..j] + l[j + 1..])[i - 1] == l[i];
    } else {
      v := n - 1;
    }
  }

  /** The last 96 bits of a block as a number. */
  function Low(b: Block): nat {
    Value(BlockBits(b)[32..])
  }

  /** Of 2^96 blocks whose first word is of zeros, one is not in a list that is not so long. */
  lemma FreshBlock(f: seq<Block>) returns (z: Block)
    requires |f| < TwoTo(96)
    ensures z !in f && z[0] == ZERO
  {
    hide BlockBits, TwoTo, Value, NumberBits;
    var l := seq(|f|, i requires 0 <= i < |f| => Low(f[i]));
    var v := FreshNumber(l, TwoTo(96));
    var n: Bits := NumberBits(v, 96);
    Below(v, 96);
    z := [ZERO, n[..32], n[32..64], n[64..]];
    Words(z);
    assert BlockBits(z)[32..] == n by {
      var t := BlockBits(z)[32..];
      assert t == t[..32] + t[32..64] + t[64..] && n == n[..32] + n[32..64] + n[64..];
    }
    assert forall i :: 0 <= i < |f| ==> l[i] == Low(f[i]);
  }

  /** All sums of a block of a and one of d. */
  function Sums(a: seq<Block>, d: seq<Block>): seq<Block> {
    if a == [] then [] else seq(|d|, i requires 0 <= i < |d| => XorBlock(a[0], d[i])) + Sums(a[1..], d)
  }

  lemma {:induction false} SumsAre(a: seq<Block>, d: seq<Block>)
    ensures |Sums(a, d)| == Mul(|a|, |d|)
    ensures forall i, s :: 0 <= i < |a| && s in d ==> XorBlock(a[i], s) in Sums(a, d)
  {
    hide XorBlock, Mul;
    Units(|d|);
    if a != [] {
      SumsAre(a[1..], d);
      Distribute(|a|, 1, |a| - 1, |d|);
      forall i, s | 0 <= i < |a| && s in d ensures XorBlock(a[i], s) in Sums(a, d) {
        if i == 0 {
          var k :| 0 <= k < |d| && d[k] == s;
          assert Sums(a, d)[k] == XorBlock(a[0], s);
        } else {
          assert a[1..][i - 1] == a[i];
        }
      }
    }
  }

  /** n states that are apart, if there are not too many blocks. */
  lemma {:induction false} States(n: nat, d: seq<Block>) returns (p: seq<Block>)
    requires n > 0 && Mul(Mul(n, |d|), |d|) < TwoTo(96)
    ensures |p| == n && Apart(p, d)
    decreases n
  {
    hide XorBlock, TwoTo, Sums, Mul;
    if n == 1 {
      p := [ZeroBlock()];
    } else {
      MulLe(n - 1, n, |d|);
      MulLe(Mul(n - 1, |d|), Mul(n, |d|), |d|);
      p := States(n - 1, d);
      SumsAre(p, d);
      SumsAre(Sums(p, d), d);
      var z := FreshBlock(Sums(Sums(p, d), d));
      forall i, s, t | 0 <= i < n - 1 && s in d && t in d ensures z != XorBlock(XorBlock(p[i], s), t) {
        var u := XorBlock(p[i], s);
        var k :| 0 <= k < |Sums(p, d)| && Sums(p, d)[k] == u;
      }
      p := p + [z];
    }
  }

  // The tags

  /** Some block function tells two lists of blocks apart. */
  lemma Different(b: seq<Block>, c: seq<Block>) returns (e: Cipher)
    requires b != c && |b| <= 0x4000_0000 && |c| <= 0x4000_0000
    ensures Mac(e, b)[0] != Mac(e, c)[0]
    decreases |c|
  {
    hide Mac, TwoTo, Apart, Mul, XorBlock;
    if |b| < |c| {
      e := Different(c, b);
    } else {
      var d := b + c;
      FewEnough(|b|, |d|);
      var p := States(|b|, d);
      var ones: Block := [seq(32, _ => true), ZERO, ZERO, ZERO];
      assert ones[0][0] && !ZERO[0];
      assert (p + [ones])[..|b|] == p;
      ToldApart(p + [ones], b, d, c);
      e := Walker(p + [ones], b);
    }
  }

  lemma FewEnough(n: nat, m: nat)
    requires n <= 0x4000_0000 && m <= 0x8000_0000
    ensures Mul(Mul(n, m), m) < TwoTo(96)
  {
    Powers();
    TwoToSum(64, 32);
    hide Mul, TwoTo;
    MulLe(n, 0x4000_0000, m);
    MulLe(m, 0x8000_0000, 0x4000_0000);
    MulLe(Mul(n, m), Mul(0x4000_0000, m), m);
    MulLe(Mul(0x4000_0000, m), Mul(0x4000_0000, 0x8000_0000), m);
    MulLe(m, 0x8000_0000, Mul(0x4000_0000, 0x8000_0000));
    BigProduct();
  }

  lemma BigProduct()
    ensures Mul(Mul(0x4000_0000, 0x8000_0000), 0x8000_0000) < 0x1_0000_0000_0000_0000 * 0x1_0000_0000
    ensures Mul(0x4000_0000, 0x8000_0000) >= 0
  {
  }

  lemma FedLength(x: Input)
    requires Proper(x)
    ensures 0 < |Fed(x)| <= 0x4000_0000
  {
    hide Flat, Canonical, Packed, TwoTo, NumberBits, FirstBlock;
    LengthBound(x.data);
    PackedCanonical(LengthPrefix(|Flat(x.adata)|) + Flat(x.adata));
    LengthBound(Authenticated(x));
    assert |LengthPrefix(|Flat(x.adata)|)| <= 48;
  }

  /** For inputs that differ in the data, the associated data, the nonce or one of the lengths, some block
      function gives different tags; not even their first words are the same. */
  lemma TagsDiffer(x: Input, y: Input) returns (e: Cipher)
    requires Proper(x) && Proper(y) && x != y
    ensures Tag(e, x)[0] != Tag(e, y)[0]
    ensures Packed(BlockBits(Tag(e, x))[..x.tlen]) != Packed(BlockBits(Tag(e, y))[..y.tlen])
  {
    hide Mac, Fed, Tag, TwoTo, NonceFits, Canonical, Flat, Packed, BlockBits;
    if Fed(x) == Fed(y) {
      FedDetermines(x, y);
    }
    FedLength(x);
    FedLength(y);
    e := Different(Fed(x), Fed(y));
    TagIsMac(e, x);
    TagIsMac(e, y);
    FirstWord(Tag(e, x), x.tlen, Tag(e, y), y.tlen);
  }

  lemma FirstWord(a: Block, n: nat, b: Block, m: nat)
    requires 32 <= n <= 128 && 32 <= m <= 128 && a[0] != b[0]
    ensures Packed(BlockBits(a)[..n]) != Packed(BlockBits(b)[..m])
  {
    hide Packed, BlockBits;
    PackedCanonical(BlockBits(a)[..n]);
    PackedCanonical(BlockBits(b)[..m]);
    Words(a);
    Words(b);
    assert BlockBits(a)[..n][..32] == a[0] && BlockBits(b)[..m][..32] == b[0];
  }

  lemma {:induction false} ByteValuesAre(n: nat)
    ensures ByteValues(n) == TwoTo(8 * n)
  {
    if n > 0 {
      ByteValuesAre(n - 1);
      EightMore(8 * (n - 1));
    }
  }

  lemma EightMore(k: nat)
    ensures TwoTo(k + 8) == 256 * TwoTo(k)
  {
    TwoToSum(k, 4);
    TwoToSum(k + 4, 4);
    assert TwoTo(4) == 16;
  }

  /** Data of whole bytes, fewer than 2^32 of them. */
  predicate FewBytes(a: seq<Entry>) {
    Canonical(a) && |Flat(a)| % 8 == 0 && |Flat(a)| / 8 < 0x1_0000_0000
  }

  /** What the mode authenticates of such data is proper. */
  lemma Authenticates(data: seq<Entry>, iv: seq<Entry>, adata: seq<Entry>, tlen: nat)
    requires FewBytes(data) && FewBytes(adata) && WholeBytes(iv) && |Flat(iv)| >= 56 && TagLength(tlen)
    ensures var l := LengthBytes(|Flat(data)| / 8, |Flat(iv)| / 8);
      Proper(Input(data, Nonce(iv, l), adata, tlen, l))
  {
    hide Flat, Packed, TwoTo, TagLength, LengthBytes;
    var bytes, ivBytes := |Flat(data)| / 8, |Flat(iv)| / 8;
    var l := LengthBytes(bytes, ivBytes);
    PackedCanonical(Flat(iv)[..8 * (15 - l)]);
    LengthHolds(bytes, ivBytes);
    ByteValuesAre(l);
  }

  lemma LengthHolds(bytes: nat, ivBytes: nat)
    requires bytes < 0x1_0000_0000 && ivBytes >= 7
    ensures bytes < ByteValues(LengthBytes(bytes, ivBytes))
  {
    hide ByteValues, LeastLength;
    var l := LengthBytes(bytes, ivBytes);
    if l >= 4 {
      ByteValuesUsed();
      ByteValuesGrow(4, l);
    }
  }

  /** With some block function, a ciphertext is not accepted under any other associated data. */
  lemma OtherRefused(data: seq<Entry>, iv: seq<Entry>, adata: seq<Entry>, tlen: nat, other: seq<Entry>)
    returns (e: Cipher, cipher: seq<Entry>)
    requires FewBytes(data) && FewBytes(adata) && FewBytes(other) && adata != other
    requires WholeBytes(iv) && |Flat(iv)| >= 56 && TagLength(tlen)
    ensures Canonical(cipher) && Flat(cipher) == Encrypted(e, data, iv, adata, tlen)
    ensures Decrypted(e, cipher, iv, adata, tlen) == Done(data)
    ensures Decrypted(e, cipher, iv, other, tlen) == Corrupt
  {
    hide Flat, Packed, Canonical, Streamed, Covered, BlockBits, Tag, CounterStart, LengthBytes, Encrypted, Decrypted;
    hide Nonce, Proper;
    var l := LengthBytes(|Flat(data)| / 8, |Flat(iv)| / 8);
    var nonce := Nonce(iv, l);
    Authenticates(data, iv, adata, tlen);
    Authenticates(data, iv, other, tlen);
    e := TagsDiffer(Input(data, nonce, adata, tlen, l), Input(data, nonce, other, tlen, l));
    var c := Encrypted(e, data, iv, adata, tlen);
    cipher := Packed(c);
    PackedCanonical(c);
    EncryptedLength(e, data, iv, adata, tlen);
    DecryptsTo(e, cipher, iv, adata, tlen, data);
    PartsOf(e, data, iv, adata, tlen, c);
    DecryptedCanonical(e, cipher, iv, other, tlen);
    var r := Decrypted(e, cipher, iv, other, tlen);
    if r.Done? {
      DecryptsTo(e, cipher, iv, other, tlen, r.bits);
      PartsOf(e, r.bits, iv, other, tlen, c);
      FlatPacked(r.bits);
      FlatPacked(data);
    }
  }

  /** Bit i of a ciphertext: in the data, that of the data and that of the block function at the counter
      block whose number is the data's block, counted from one; behind them, that of the chain of what is
      authenticated and that of the block function at the counter block 0. */
  lemma EncryptedBit(e: Cipher, data: seq<Entry>, iv: seq<Entry>, adata: seq<Entry>, tlen: nat, i: nat, a: Block)
    requires FewBytes(data) && FewBytes(adata) && WholeBytes(iv) && |Flat(iv)| >= 56 && TagLength(tlen)
    requires i < |Flat(data)| + tlen
    requires var l := LengthBytes(|Flat(data)| / 8, |Flat(iv)| / 8);
      BlockBits(a) == Numbered(l - 1, Nonce(iv, l), l, if i < |Flat(data)| then i / 128 + 1 else 0)
    ensures var l := LengthBytes(|Flat(data)| / 8, |Flat(iv)| / 8);
      var x := Input(data, Nonce(iv, l), adata, tlen, l);
      var c, n := Encrypted(e, data, iv, adata, tlen), |Flat(data)|;
      && Proper(x) && |c| == n + tlen
      && c[i] == if i < n then Flat(data)[i] != BlockBits(e(a))[i % 128]
                 else BlockBits(Mac(e, Fed(x)))[i - n] != BlockBits(e(a))[i - n]
  {
    hide Flat, Packed, Streamed, Covered, BlockBits, Tag, CounterStart, LengthBytes, Nonce, TwoTo, Mac, Fed;
    var n, l := |Flat(data)|, LengthBytes(|Flat(data)| / 8, |Flat(iv)| / 8);
    var nonce := Nonce(iv, l);
    var x := Input(data, nonce, adata, tlen, l);
    Authenticates(data, iv, adata, tlen);
    TagIsMac(e, x);
    EncryptedLength(e, data, iv, adata, tlen);
    var tag := BlockBits(Tag(e, x))[..tlen];
    Lengths(e, CounterStart(nonce, l), Flat(data), tag);
    if i < n {
      CounterFits(n, i, TwoTo(8 * l), l);
      StreamedBit(e, nonce, l, Flat(data), i, a);
    } else {
      CoveredBit(e, nonce, l, tag, i - n, a);
    }
  }

  lemma CounterFits(n: nat, i: nat, p: nat, l: nat)
    requires i < n && n % 8 == 0 && n / 8 < p && n / 8 < 0x1_0000_0000 && l >= 2 && p == TwoTo(8 * l)
    ensures i / 128 + 1 < p && i / 128 + 1 < 0x1_0000_0000
  {
    ByteValuesAre(l);
    ByteValuesUsed();
    ByteValuesGrow(2, l);
    assert n == 8 * (n / 8);
  }
}
