/** sjcl's CCM mode (RFC 3610) over any block function: decryption gives the message back and accepts
    its tag. */
module Ccm {
  import opened BitArray
  import opened BitNumbers
  import opened Options

  type Block = b: seq<Word> | |b| == 4 witness seq(4, _ => ZERO)
  type Cipher = Block -> Block

  function XorWord(v: Word, w: Word): Word {
    seq(32, i requires 0 <= i < 32 => v[i] != w[i])
  }

  /** The word at a place of an array; there are zeros behind its end. */
  function WordAt(a: seq<Entry>, k: nat): Word {
    if k < |a| then a[k].word else ZERO
  }

  /** Four words from a place on. */
  function BlockAt(a: seq<Entry>, k: nat): Block {
    [WordAt(a, k), WordAt(a, k + 1), WordAt(a, k + 2), WordAt(a, k + 3)]
  }

  function XorBlock(a: Block, b: Block): Block {
    [XorWord(a[0], b[0]), XorWord(a[1], b[1]), XorWord(a[2], b[2]), XorWord(a[3], b[3])]
  }

  /** A number as the bits of a partial or full entry. */
  function NumberEntry(n: nat, part: nat): Entry
    requires 1 <= part <= 32
  {
    Entry(NumberBits(n, part) + Zeros(32 - part), part)
  }

  lemma NumberEntryCanonical(n: nat, part: nat)
    requires 1 <= part <= 32
    ensures Canonical([NumberEntry(n, part)])
  {
  }

  /** The tag length is valid: 4, 6, ... or 16 bytes. */
  predicate TagLength(tlen: nat) {
    32 <= tlen <= 128 && tlen % 16 == 0
  }

  // The message authentication

  /** The cipher block chain over the words from place k on. */
  function Chained(e: Cipher, l: Block, m: seq<Entry>, k: nat): Block
    decreases |m| - k
  {
    if k >= |m| then l else Chained(e, e(XorBlock(l, BlockAt(m, k))), m, k + 4)
  }

  method Chain(e: Cipher, l: Block, m: seq<Entry>) returns (r: Block)
    ensures r == Chained(e, l, m, 0)
  {
    hide XorBlock, BlockAt;
    r := l;
    var o := 0;
    while o < |m|
      invariant Chained(e, r, m, o) == Chained(e, l, m, 0)
      decreases |m| - o
    {
      r := e(XorBlock(r, BlockAt(m, o)));
      o := o + 4;
    }
  }

  /** What is authenticated: the message, the nonce, the associated data, the length of the tag and the
      number of bytes of the message's length. */
  datatype Input = Input(data: seq<Entry>, iv: seq<Entry>, adata: seq<Entry>, tlen: nat, l: nat) {
    predicate Valid() {
      Canonical(data) && Canonical(iv) && Canonical(adata) && TagLength(tlen) && 2 <= l <= 8
    }
  }

  function Flags(x: Input): nat
    requires x.Valid()
  {
    (if x.adata != [] then 64 else 0) + (x.tlen / 8 - 2) * 4 + (x.l - 1)
  }

  /** The first block: flags, nonce, and the length in the last word. */
  function FirstBlock(x: Input): Block
    requires x.Valid()
  {
    var b := BlockAt(Packed(Flat([NumberEntry(Flags(x), 8)]) + Flat(x.iv)), 0);
    b[3 := Or(b[3], NumberBits(|Flat(x.data)| / 8, 32))]
  }

  /** The length in bytes of associated data of so many bits.  The program compares it unrounded, and
      rounds it down where it is written; data longer than the mode can say has no length. */
  function LengthPrefix(bits: nat): Bits {
    if bits <= 8 * 65279 then NumberBits(bits / 8, 16)
    else if bits <= 8 * 4294967295 then NumberBits(65534, 16) + NumberBits(bits / 8, 32)
    else []
  }

  function Authenticated(x: Input): seq<Entry>
    requires x.Valid()
  {
    if x.adata == [] then [] else Packed(LengthPrefix(|Flat(x.adata)|) + Flat(x.adata))
  }

  /** The tag, before it is encrypted. */
  function Tag(e: Cipher, x: Input): Block
    requires x.Valid()
  {
    Chained(e, Chained(e, e(FirstBlock(x)), Authenticated(x), 0), x.data, 0)
  }

  /** The four words of a block as an array. */
  function BlockArray(b: Block): seq<Entry> {
    [Full(b[0]), Full(b[1]), Full(b[2]), Full(b[3])]
  }

  function BlockBits(b: Block): (r: Bits)
    ensures |r| == 128
  {
    var r0: Bits, r1: Bits, r2: Bits, r3: Bits := b[0], b[1], b[2], b[3];
    r0 + r1 + r2 + r3
  }

  lemma BlockArrayBits(b: Block)
    ensures Canonical(BlockArray(b)) && AllFull(BlockArray(b)) && Flat(BlockArray(b)) == BlockBits(b)
  {
    var a := BlockArray(b);
    FullBits(a);
    assert a[..3] == [Full(b[0]), Full(b[1]), Full(b[2])] && a[..3][..2] == [Full(b[0]), Full(b[1])];
    assert a[..3][..2][..1] == [Full(b[0])] && a[..3][..2][..1][..0] == [];
  }

  method Authenticate(e: Cipher, x: Input) returns (tag: seq<Entry>)
    requires x.Valid()
    ensures tag == Packed(BlockBits(Tag(e, x))[..x.tlen])
  {
    hide Flat, Packed, Canonical, Chained, NumberBits, BlockAt, Or;
    NumberEntryCanonical(Flags(x), 8);
    var first := Concat([NumberEntry(Flags(x), 8)], x.iv);
    BitLengthIs(x.data);
    var b := BlockAt(first, 0);
    var l := e(b[3 := Or(b[3], NumberBits(BitLength(x.data) / 8, 32))]);
    if |x.adata| != 0 {
      var m := PrefixedData(x.adata);
      l := Chain(e, l, m);
    } else {
      NothingChained(e, l);
    }
    l := Chain(e, l, x.data);
    BlockArrayBits(l);
    tag := Clamp(BlockArray(l), x.tlen);
  }

  lemma NothingChained(e: Cipher, l: Block)
    ensures Chained(e, l, [], 0) == l
  {
  }

  method PrefixedData(adata: seq<Entry>) returns (m: seq<Entry>)
    requires Canonical(adata)
    ensures m == Packed(LengthPrefix(|Flat(adata)|) + Flat(adata))
  {
    hide Flat, Packed, Canonical, NumberBits;
    BitLengthIs(adata);
    var bits := BitLength(adata);
    var p := bits / 8;
    m := [];
    NoBits();
    EmptyCanonical();
    if bits <= 8 * 65279 {
      m := [NumberEntry(p, 16)];
      NumberEntryCanonical(p, 16);
      NumberEntryBits(p, 16);
    } else if bits <= 8 * 4294967295 {
      NumberEntryCanonical(65534, 16);
      NumberEntryCanonical(p, 32);
      NumberEntryBits(65534, 16);
      NumberEntryBits(p, 32);
      m := Concat([NumberEntry(65534, 16)], [NumberEntry(p, 32)]);
      PackedCanonical(NumberBits(65534, 16) + NumberBits(p, 32));
    }
    m := Concat(m, adata);
  }

  lemma EmptyCanonical()
    ensures Canonical([])
  {
  }

  lemma NumberEntryBits(n: nat, part: nat)
    requires 1 <= part <= 32
    ensures Flat([NumberEntry(n, part)]) == NumberBits(n, part)
  {
    FlatOne(NumberEntry(n, part));
  }

  // The key stream

  /** A word counted up, modulo 2^32. */
  function Increment(w: Word): Word {
    NumberBits(Value(w) + 1, 32)
  }

  /** The counter block after k increments of its last word. */
  function Counter(u: Block, k: nat): Block
    decreases k
  {
    if k == 0 then u else
      var c := Counter(u, k - 1);
      [c[0], c[1], c[2], Increment(c[3])]
  }

  /** The counter block at the start: the length of the length, and the nonce. */
  function CounterStart(iv: seq<Entry>, l: nat): Block
    requires l > 0
  {
    BlockAt(Packed(NumberBits(l - 1, 8) + Flat(iv)), 0)
  }

  function StreamBit(e: Cipher, u: Block, i: nat): bool {
    e(Counter(u, i / 128 + 1))[(i / 32) % 4][i % 32]
  }

  /** Some bits with the key stream added. */
  function Streamed(e: Cipher, u: Block, b: Bits): Bits {
    seq(|b|, i requires 0 <= i < |b| => b[i] != StreamBit(e, u, i))
  }

  /** Adding the key stream twice changes nothing. */
  lemma StreamedTwice(e: Cipher, u: Block, b: Bits)
    ensures Streamed(e, u, Streamed(e, u, b)) == b
  {
    hide StreamBit;
  }

  /** The tag with the first key stream block added. */
  function Covered(e: Cipher, u: Block, b: Bits): Bits
    requires |b| <= 128
  {
    seq(|b|, i requires 0 <= i < |b| => b[i] != e(u)[i / 32][i % 32])
  }

  lemma CoveredTwice(e: Cipher, u: Block, b: Bits)
    requires |b| <= 128
    ensures Covered(e, u, Covered(e, u, b)) == b
  {
  }

  /** The bits of an array are those of its words. */
  lemma {:induction false} FlatBit(a: seq<Entry>, i: nat)
    requires Canonical(a) && i < |Flat(a)|
    ensures i / 32 < |a| && Flat(a)[i] == a[i / 32].word[i % 32]
  {
    LengthBound(a);
    var k := i / 32;
    FlatTake(a, k);
    assert GoodEntry(a[k], k == |a| - 1);
    EntryFront(a[k..]);
    LengthOf(a, k);
  }

  lemma BlockBit(b: Block, i: nat)
    requires i < 128
    ensures BlockBits(b)[i] == b[i / 32][i % 32]
  {
    if i < 32 {
    } else if i < 64 {
      assert i / 32 == 1;
    } else if i < 96 {
      assert i / 32 == 2;
    } else {
      assert i / 32 == 3;
    }
  }

  /** Some bits, filled up with zeros to a length. */
  function Filled(b: Bits, n: nat): (r: Bits)
    ensures |b| <= n ==> |r| == n
    ensures |b| == n ==> r == b
  {
    if |b| < n then b + Zeros(n - |b|) else b
  }

  lemma FilledBit(a: seq<Entry>, n: nat, i: nat)
    requires Canonical(a) && |Flat(a)| <= n && i < n
    ensures Filled(Flat(a), n)[i] == WordAt(a, i / 32)[i % 32]
  {
    if i < |Flat(a)| {
      FlatBit(a, i);
    } else if i / 32 < |a| {
      FlatPacked(a);
      LastGood(a);
      assert i / 32 == |a| - 1;
    }
  }

  /** Covers a tag: the first key stream block is added, and as many bits kept as asked for. */
  method CoverTag(e: Cipher, u: Block, tag: seq<Entry>, tlen: nat) returns (r: seq<Entry>)
    requires Canonical(tag) && |Flat(tag)| <= tlen && TagLength(tlen)
    ensures r == Packed(Covered(e, u, Filled(Flat(tag), tlen)))
  {
    var x := XorBlock(BlockAt(tag, 0), e(u));
    BlockArrayBits(x);
    hide Flat, Packed, Canonical, AllFull, Filled;
    r := BitSlice(BlockArray(x), 0, Some(tlen));
    ghost var c := Covered(e, u, Filled(Flat(tag), tlen));
    forall i | 0 <= i < tlen ensures BlockBits(x)[0..tlen][i] == c[i] {
      BlockBit(x, i);
      FilledBit(tag, tlen, i);
      CoverBit(e, u, tag, i);
    }
    assert BlockBits(x)[0..tlen] == c;
  }

  lemma CoverBit(e: Cipher, u: Block, tag: seq<Entry>, i: nat)
    requires i < 128
    ensures XorBlock(BlockAt(tag, 0), e(u))[i / 32][i % 32] == (WordAt(tag, i / 32)[i % 32] != e(u)[i / 32][i % 32])
  {
    var k := i / 32;
    assert k == 0 || k == 1 || k == 2 || k == 3;
  }

  /** The words of the data with the key stream added, whole blocks of them. */
  ghost predicate StreamedWords(e: Cipher, u: Block, v: seq<Entry>, r: seq<Entry>) {
    AllFull(r) && forall k :: 0 <= k < |r| ==> r[k].word == XorWord(WordAt(v, k), e(Counter(u, k / 4 + 1))[k % 4])
  }

  /** The stream loop: four words a turn, and the array grows to whole blocks. */
  method AddStream(e: Cipher, u0: Block, v: seq<Entry>) returns (r: seq<Entry>)
    ensures |v| <= |r| && StreamedWords(e, u0, v, r)
  {
    hide XorWord, Increment, WordAt, Counter;
    var u := u0;
    r := [];
    var o := 0;
    CounterFirst(u0);
    while o < |v|
      invariant o == |r| && o % 4 == 0 && u == Counter(u0, o / 4)
      invariant StreamedWords(e, u0, v, r)
      decreases |v| - o
    {
      CounterNext(u0, o / 4);
      u := [u[0], u[1], u[2], Increment(u[3])];
      var p := e(u);
      r := StreamedBlock(e, u0, v, r, p);
      o := o + 4;
    }
  }

  method StreamedBlock(e: Cipher, ghost u0: Block, v: seq<Entry>, r: seq<Entry>, p: Block) returns (s: seq<Entry>)
    requires |r| % 4 == 0 && StreamedWords(e, u0, v, r) && p == e(Counter(u0, |r| / 4 + 1))
    ensures |s| == |r| + 4 && StreamedWords(e, u0, v, s)
  {
    hide XorWord, WordAt, Counter;
    var o := |r|;
    s := r + [Full(XorWord(WordAt(v, o), p[0])), Full(XorWord(WordAt(v, o + 1), p[1])),
              Full(XorWord(WordAt(v, o + 2), p[2])), Full(XorWord(WordAt(v, o + 3), p[3]))];
    forall k | o <= k < o + 4
      ensures s[k].word == XorWord(WordAt(v, k), e(Counter(u0, k / 4 + 1))[k % 4])
    {
      assert k / 4 == o / 4 && k % 4 == k - o;
      assert k == o || k == o + 1 || k == o + 2 || k == o + 3;
    }
  }

  lemma CounterFirst(u: Block)
    ensures Counter(u, 0) == u
  {
  }

  lemma CounterNext(u: Block, k: nat)
    ensures var c := Counter(u, k);
      Counter(u, k + 1) == [c[0], c[1], c[2], Increment(c[3])]
  {
  }

  /** The data with the key stream added, cut to its length. */
  method StreamData(e: Cipher, u: Block, v: seq<Entry>) returns (r: seq<Entry>)
    requires Canonical(v)
    ensures r == Packed(Streamed(e, u, Flat(v)))
  {
    hide Flat, Packed, Canonical, StreamedWords, Streamed;
    BitLengthIs(v);
    LengthBound(v);
    if |v| == 0 {
      NoBits();
      NothingStreamed(e, u);
      return [];
    }
    var w := AddStream(e, u, v);
    StreamedBits(e, u, v, w);
    r := Clamp(w, BitLength(v));
  }

  lemma NothingStreamed(e: Cipher, u: Block)
    ensures Packed(Streamed(e, u, [])) == []
  {
  }

  lemma StreamedBits(e: Cipher, u: Block, v: seq<Entry>, w: seq<Entry>)
    requires Canonical(v) && |v| <= |w| && StreamedWords(e, u, v, w) && |Flat(v)| <= 32 * |v|
    ensures Canonical(w) && |Flat(v)| <= |Flat(w)| && Flat(w)[..|Flat(v)|] == Streamed(e, u, Flat(v))
  {
    FullFront(w, []);
    assert w + [] == w;
    FullBits(w);
    hide Flat, Canonical, AllBits, Counter;
    var n := |Flat(v)|;
    forall i | 0 <= i < n ensures Flat(w)[i] == Streamed(e, u, Flat(v))[i] {
      FlatBit(v, i);
      FlatBit(w, i);
      assert (i / 32) / 4 == i / 128;
    }
    assert Flat(w)[..n] == Streamed(e, u, Flat(v));
  }

  /** Both at once: the tag covered and the data with the key stream added. */
  method AddKeyStream(e: Cipher, v: seq<Entry>, iv: seq<Entry>, tag: seq<Entry>, tlen: nat, l: nat)
    returns (data: seq<Entry>, covered: seq<Entry>)
    requires Canonical(v) && Canonical(iv) && Canonical(tag) && |Flat(tag)| <= tlen && TagLength(tlen) && l > 0
    ensures data == Packed(Streamed(e, CounterStart(iv, l), Flat(v)))
    ensures covered == Packed(Covered(e, CounterStart(iv, l), Filled(Flat(tag), tlen)))
  {
    hide Flat, Packed, Canonical, NumberBits, Streamed, Covered, BlockAt;
    NumberEntryCanonical(l - 1, 8);
    NumberEntryBits(l - 1, 8);
    var c := Concat([NumberEntry(l - 1, 8)], iv);
    var u := BlockAt(c, 0);
    covered := CoverTag(e, u, tag, tlen);
    data := StreamData(e, u, v);
  }

  // The mode

  /** How many lengths n bytes can state. */
  function ByteValues(n: nat): (r: nat)
    ensures r >= 1
  {
    if n == 0 then 1 else 256 * ByteValues(n - 1)
  }

  /** n bytes for the length leave no more of the 15 than the nonce has, and hold the length; four are
      taken to be enough. */
  predicate Suffices(n: nat, bytes: nat, ivBytes: nat) {
    n + ivBytes >= 15 && (n >= 4 || bytes < ByteValues(n))
  }

  /** The least number of bytes, from n upwards, that suffices. */
  function LeastLength(n: nat, bytes: nat, ivBytes: nat): (l: nat)
    requires 2 <= n <= 8 && ivBytes >= 7
    ensures n <= l <= 8 && Suffices(l, bytes, ivBytes)
    ensures forall k :: n <= k < l ==> !Suffices(k, bytes, ivBytes)
    decreases 8 - n
  {
    if Suffices(n, bytes, ivBytes) then n else LeastLength(n + 1, bytes, ivBytes)
  }

  /** The length is looked at as a 32-bit number. */
  function LengthBytes(bytes: int, ivBytes: nat): (l: nat)
    requires ivBytes >= 7
    ensures 2 <= l <= 8 && l + ivBytes >= 15
  {
    LeastLength(2, bytes % 0x1_0000_0000, ivBytes)
  }

  /** The number of bytes for the message's length: the least from two up to eight that suffices.  A
      length below 2^32 can be written in them. */
  method FindLengthBytes(bytes: int, ivBytes: nat) returns (n: nat)
    requires ivBytes >= 7
    ensures n == LengthBytes(bytes, ivBytes) && 2 <= n <= 8 && n + ivBytes >= 15
    ensures bytes < 0x1_0000_0000 ==> bytes < ByteValues(n)
    ensures forall k :: 2 <= k < n ==> k + ivBytes < 15 || (k < 4 && bytes % 0x1_0000_0000 >= ByteValues(k))
  {
    hide ByteValues, Suffices, LeastLength;
    var x := bytes % 0x1_0000_0000;
    n := 2;
    DivZero(x, ByteValues(n));
    while n < 4 && x / ByteValues(n) != 0
      invariant 2 <= n <= 4 && (x / ByteValues(n) != 0 <==> x >= ByteValues(n))
      invariant forall k :: 2 <= k < n ==> x >= ByteValues(k)
    {
      n := n + 1;
      DivZero(x, ByteValues(n));
    }
    ghost var least := n;
    if n + ivBytes < 15 {
      n := 15 - ivBytes;
    }
    LengthFound(x, ivBytes, least, n);
  }

  lemma DivZero(x: nat, p: nat)
    requires p >= 1
    ensures x / p != 0 <==> x >= p
  {
  }

  lemma LengthFound(x: nat, ivBytes: nat, least: nat, n: nat)
    requires ivBytes >= 7 && x < 0x1_0000_0000 && 2 <= least <= 4
    requires n == if least + ivBytes < 15 then 15 - ivBytes else least
    requires least >= 4 || x < ByteValues(least)
    requires forall k :: 2 <= k < least ==> x >= ByteValues(k)
    ensures n == LeastLength(2, x, ivBytes) && 2 <= n <= 8 && n + ivBytes >= 15 && x < ByteValues(n)
    ensures forall k :: 2 <= k < n ==> k + ivBytes < 15 || (k < 4 && x >= ByteValues(k))
  {
    ByteValuesUsed();
    ByteValuesGrow(least, n);
    hide ByteValues, LeastLength;
    assert Suffices(n, x, ivBytes);
    assert forall k :: 2 <= k < n ==> !Suffices(k, x, ivBytes);
    var l := LeastLength(2, x, ivBytes);
    assert Suffices(l, x, ivBytes);
  }

  lemma ByteValuesUsed()
    ensures ByteValues(2) == 0x1_0000 && ByteValues(3) == 0x100_0000 && ByteValues(4) == 0x1_0000_0000
  {
    assert ByteValues(1) == 256;
  }

  lemma ByteValuesGrow(k: nat, n: nat)
    requires k <= n
    ensures ByteValues(k) <= ByteValues(n)
  {
  }

  datatype Result = Invalid | Corrupt | Done(bits: seq<Entry>)

  /** The nonce cut to what the length leaves. */
  function Nonce(iv: seq<Entry>, l: nat): seq<Entry>
    requires l <= 15 && 8 * (15 - l) <= |Flat(iv)|
  {
    Packed(Flat(iv)[..8 * (15 - l)])
  }

  /** Nonces of whole bytes. */
  predicate WholeBytes(iv: seq<Entry>) {
    Canonical(iv) && |Flat(iv)| % 8 == 0
  }

  /** The ciphertext: the data with the key stream added, and behind it the covered tag. */
  function Encrypted(e: Cipher, data: seq<Entry>, iv: seq<Entry>, adata: seq<Entry>, tlen: nat): Bits
    requires Canonical(data) && WholeBytes(iv) && Canonical(adata) && TagLength(tlen) && |Flat(iv)| / 8 >= 7
  {
    var l := LengthBytes(|Flat(data)| / 8, |Flat(iv)| / 8);
    var nonce := Nonce(iv, l);
    PackedCanonical(Flat(iv)[..8 * (15 - l)]);
    var tag := BlockBits(Tag(e, Input(data, nonce, adata, tlen, l)))[..tlen];
    Streamed(e, CounterStart(nonce, l), Flat(data)) + Covered(e, CounterStart(nonce, l), tag)
  }

  method Encrypt(e: Cipher, data: seq<Entry>, iv: seq<Entry>, adata: seq<Entry>, tlen: nat) returns (r: Result)
    requires Canonical(data) && WholeBytes(iv) && Canonical(adata)
    ensures r.Invalid? <==> |Flat(iv)| < 56 || !TagLength(tlen)
    ensures r.Done? || r.Invalid?
    ensures r.Done? ==> r.bits == Packed(Encrypted(e, data, iv, adata, tlen))
  {
    hide Flat, Packed, Canonical, Streamed, Covered, BlockBits, Tag, CounterStart, LengthBytes;
    BitLengthIs(iv);
    BitLengthIs(data);
    if BitLength(iv) / 8 < 7 { return Invalid; }
    var n := FindLengthBytes(BitLength(data) / 8, BitLength(iv) / 8);
    if !TagLength(tlen) { return Invalid; }
    var u := Clamp(iv, 8 * (15 - n));
    PackedCanonical(Flat(iv)[..8 * (15 - n)]);
    var x := Input(data, u, adata, tlen, n);
    var tag := Authenticate(e, x);
    PackedCanonical(BlockBits(Tag(e, x))[..tlen]);
    var d, t := AddKeyStream(e, data, u, tag, tlen, n);
    PackedCanonical(Streamed(e, CounterStart(u, n), Flat(data)));
    PackedCanonical(Covered(e, CounterStart(u, n), Flat(tag)));
    var out := Concat(d, t);
    return Done(out);
  }

  /** What the parts of a ciphertext say about a message of its length. */
  lemma PartsOf(e: Cipher, data: seq<Entry>, iv: seq<Entry>, adata: seq<Entry>, tlen: nat, c: Bits)
    requires Canonical(data) && WholeBytes(iv) && Canonical(adata) && TagLength(tlen) && |Flat(iv)| / 8 >= 7
    requires tlen <= |c|
    ensures var m := |c| - tlen;
      var l := LengthBytes(m / 8, |Flat(iv)| / 8);
      var nonce := Nonce(iv, l);
      Canonical(nonce) &&
      (c == Encrypted(e, data, iv, adata, tlen) <==>
        && |Flat(data)| == m
        && Flat(data) == Streamed(e, CounterStart(nonce, l), c[..m])
        && BlockBits(Tag(e, Input(data, nonce, adata, tlen, l)))[..tlen] == Covered(e, CounterStart(nonce, l), c[m..]))
  {
    hide Flat, Packed, Canonical, Streamed, Covered, BlockBits, Tag, CounterStart, LengthBytes;
    var m := |c| - tlen;
    var l := LengthBytes(m / 8, |Flat(iv)| / 8);
    var nonce := Nonce(iv, l);
    PackedCanonical(Flat(iv)[..8 * (15 - l)]);
    EncryptedLength(e, data, iv, adata, tlen);
    assert c == c[..m] + c[m..];
    if |Flat(data)| == m {
      var u := CounterStart(nonce, l);
      var tag := BlockBits(Tag(e, Input(data, nonce, adata, tlen, l)))[..tlen];
      Lengths(e, u, Flat(data), tag);
      Lengths(e, u, c[..m], c[m..]);
      StreamedTwice(e, u, Flat(data));
      StreamedTwice(e, u, c[..m]);
      CoveredTwice(e, u, tag);
      CoveredTwice(e, u, c[m..]);
      Halves(c, m, Streamed(e, u, Flat(data)), Covered(e, u, tag));
    }
  }

  lemma Halves(c: Bits, m: nat, a: Bits, b: Bits)
    requires m <= |c| && |a| == m
    ensures c == a + b <==> c[..m] == a && c[m..] == b
  {
    if c == a + b {
      assert c[..m] == a && c[m..] == b;
    }
    if c[..m] == a && c[m..] == b {
      assert c == c[..m] + c[m..];
    }
  }

  lemma Lengths(e: Cipher, u: Block, b: Bits, t: Bits)
    requires |t| <= 128
    ensures |Streamed(e, u, b)| == |b| && |Covered(e, u, t)| == |t|
  {
  }

  lemma EncryptedLength(e: Cipher, data: seq<Entry>, iv: seq<Entry>, adata: seq<Entry>, tlen: nat)
    requires Canonical(data) && WholeBytes(iv) && Canonical(adata) && TagLength(tlen) && |Flat(iv)| / 8 >= 7
    ensures |Encrypted(e, data, iv, adata, tlen)| == |Flat(data)| + tlen
  {
    hide Flat, Packed, Canonical, Streamed, Covered, BlockBits, Tag, CounterStart, LengthBytes;
    var l := LengthBytes(|Flat(data)| / 8, |Flat(iv)| / 8);
    var nonce := Nonce(iv, l);
    PackedCanonical(Flat(iv)[..8 * (15 - l)]);
    var tag := BlockBits(Tag(e, Input(data, nonce, adata, tlen, l)))[..tlen];
    Lengths(e, CounterStart(nonce, l), Flat(data), tag);
  }

  /** A number of bits as bytes, where the program cuts a negative number towards zero. */
  function WholeBytesOf(bits: int): int {
    if bits < 0 then -(-bits / 8) else bits / 8
  }

  /** What decryption makes of a ciphertext: its front without the key stream, if the tag of that is the
      rest of the ciphertext uncovered.  A ciphertext shorter than the tag is cut at places counted back
      from its end, and the tag filled up with zeros. */
  function Decrypted(e: Cipher, cipher: seq<Entry>, iv: seq<Entry>, adata: seq<Entry>, tlen: nat): Result
    requires Canonical(cipher) && WholeBytes(iv) && Canonical(adata)
  {
    if |Flat(iv)| < 56 || !TagLength(tlen) then Invalid
    else
      var m := |Flat(cipher)| - tlen;
      var l := LengthBytes(WholeBytesOf(m), |Flat(iv)| / 8);
      var nonce := Nonce(iv, l);
      PackedCanonical(Flat(iv)[..8 * (15 - l)]);
      SlicedShort(cipher, m, tlen);
      ClampedBits(cipher, m);
      var data := Packed(Streamed(e, CounterStart(nonce, l), Flat(Clamped(cipher, m))));
      PackedCanonical(Streamed(e, CounterStart(nonce, l), Flat(Clamped(cipher, m))));
      if Covered(e, CounterStart(nonce, l), Filled(Sliced(cipher, m), tlen))
         == BlockBits(Tag(e, Input(data, nonce, adata, tlen, l)))[..tlen]
      then Done(data) else Corrupt
  }

  lemma SlicedShort(c: seq<Entry>, m: int, tlen: nat)
    requires m == |Flat(c)| - tlen
    ensures |Sliced(c, m)| <= tlen && (m >= 0 ==> |Sliced(c, m)| == tlen)
  {
  }

  lemma ClampedBits(c: seq<Entry>, m: int)
    requires Canonical(c) && m <= |Flat(c)|
    ensures Canonical(Clamped(c, m)) && |Flat(Clamped(c, m))| <= |Flat(c)|
    ensures m >= 0 ==> Flat(Clamped(c, m)) == Flat(c)[..m]
    ensures AllZero(Flat(c)) ==> AllZero(Flat(Clamped(c, m)))
  {
    LengthBound(c);
    hide Flat, Packed, Canonical;
    PackedCanonical(Flat(c)[..if m < 0 then BackLength(|c|, m) else m]);
  }

  predicate AllZero(b: Bits) {
    forall i :: 0 <= i < |b| ==> !b[i]
  }

  /** Decryption gives a message just when the ciphertext is the encryption of that message; anything
      else is found corrupt. */
  ghost predicate DecryptsRight(e: Cipher, cipher: seq<Entry>, iv: seq<Entry>, adata: seq<Entry>, tlen: nat)
    requires Canonical(cipher) && WholeBytes(iv) && Canonical(adata) && TagLength(tlen) && |Flat(iv)| >= 56
  {
    forall data :: Canonical(data) ==>
      (Decrypted(e, cipher, iv, adata, tlen) == Done(data) <==> Flat(cipher) == Encrypted(e, data, iv, adata, tlen))
  }

  /** Of a ciphertext not shorter than the tag, the front and the rest are what they seem. */
  lemma LongDecrypted(e: Cipher, cipher: seq<Entry>, iv: seq<Entry>, adata: seq<Entry>, tlen: nat, m: nat)
    requires Canonical(cipher) && WholeBytes(iv) && Canonical(adata) && TagLength(tlen) && |Flat(iv)| >= 56
    requires |Flat(cipher)| == m + tlen
    ensures var l := LengthBytes(m / 8, |Flat(iv)| / 8);
      var nonce := Nonce(iv, l);
      var u := CounterStart(nonce, l);
      var data := Packed(Streamed(e, u, Flat(cipher)[..m]));
      && Canonical(nonce) && Canonical(data) && Flat(data) == Streamed(e, u, Flat(cipher)[..m])
      && Decrypted(e, cipher, iv, adata, tlen)
         == if Covered(e, u, Flat(cipher)[m..]) == BlockBits(Tag(e, Input(data, nonce, adata, tlen, l)))[..tlen]
            then Done(data) else Corrupt
  {
    var l := LengthBytes(m / 8, |Flat(iv)| / 8);
    PackedCanonical(Flat(iv)[..8 * (15 - l)]);
    ClampedBits(cipher, m);
    SlicedShort(cipher, m, tlen);
    assert Sliced(cipher, m) == Flat(cipher)[m..];
    hide Flat, Packed, Canonical, Streamed, Covered, BlockBits, Tag, CounterStart, LengthBytes, Clamped, Filled, Sliced;
    PackedCanonical(Streamed(e, CounterStart(Nonce(iv, l), l), Flat(cipher)[..m]));
  }

  /** So it is for every ciphertext not shorter than the tag. */
  lemma LongDecryptsRight(e: Cipher, cipher: seq<Entry>, iv: seq<Entry>, adata: seq<Entry>, tlen: nat)
    requires Canonical(cipher) && WholeBytes(iv) && Canonical(adata) && TagLength(tlen) && |Flat(iv)| >= 56
    requires |Flat(cipher)| >= tlen
    ensures DecryptsRight(e, cipher, iv, adata, tlen)
  {
    hide Encrypted, Decrypted, Flat, Canonical;
    forall data | Canonical(data)
      ensures Decrypted(e, cipher, iv, adata, tlen) == Done(data) <==> Flat(cipher) == Encrypted(e, data, iv, adata, tlen)
    {
      DecryptsTo(e, cipher, iv, adata, tlen, data);
    }
  }

  lemma DecryptsTo(e: Cipher, cipher: seq<Entry>, iv: seq<Entry>, adata: seq<Entry>, tlen: nat, data: seq<Entry>)
    requires Canonical(cipher) && WholeBytes(iv) && Canonical(adata) && TagLength(tlen) && |Flat(iv)| >= 56
    requires |Flat(cipher)| >= tlen && Canonical(data)
    ensures Decrypted(e, cipher, iv, adata, tlen) == Done(data) <==> Flat(cipher) == Encrypted(e, data, iv, adata, tlen)
  {
    hide Flat, Packed, Canonical, Streamed, Covered, BlockBits, Tag, CounterStart, LengthBytes, Encrypted, Decrypted;
    var m := |Flat(cipher)| - tlen;
    LongDecrypted(e, cipher, iv, adata, tlen, m);
    PartsOf(e, data, iv, adata, tlen, Flat(cipher));
    FlatPacked(data);
    var l := LengthBytes(m / 8, |Flat(iv)| / 8);
    Lengths(e, CounterStart(Nonce(iv, l), l), Flat(cipher)[..m], Flat(cipher)[m..]);
  }

  method Decrypt(e: Cipher, cipher: seq<Entry>, iv: seq<Entry>, adata: seq<Entry>, tlen: nat) returns (r: Result)
    requires Canonical(cipher) && WholeBytes(iv) && Canonical(adata)
    ensures r == Decrypted(e, cipher, iv, adata, tlen)
    ensures r.Invalid? <==> |Flat(iv)| < 56 || !TagLength(tlen)
    ensures r.Done? ==> Canonical(r.bits)
    ensures !r.Invalid? && |Flat(cipher)| >= tlen ==> DecryptsRight(e, cipher, iv, adata, tlen)
  {
    hide Flat, Packed, Canonical, Streamed, Covered, BlockBits, Tag, CounterStart, LengthBytes, Clamped, Sliced, Filled;
    hide DecryptsRight;
    if |Flat(iv)| >= 56 && TagLength(tlen) && |Flat(cipher)| >= tlen {
      LongDecryptsRight(e, cipher, iv, adata, tlen);
    }
    BitLengthIs(iv);
    BitLengthIs(cipher);
    var m := BitLength(cipher) - tlen;
    ClampedBits(cipher, m);
    SlicedShort(cipher, m, tlen);
    PackedCanonical(Sliced(cipher, m));
    var c := Clamp(cipher, m);
    var i := BitSlice(cipher, m, None);
    if BitLength(iv) / 8 < 7 { return Invalid; }
    var n := FindLengthBytes(WholeBytesOf(m), BitLength(iv) / 8);
    if !TagLength(tlen) { return Invalid; }
    var u := Clamp(iv, 8 * (15 - n));
    PackedCanonical(Flat(iv)[..8 * (15 - n)]);
    var d, t := AddKeyStream(e, c, u, i, tlen, n);
    var f := Filled(Flat(i), tlen);
    Lengths(e, CounterStart(u, n), Flat(c), f);
    PackedCanonical(Streamed(e, CounterStart(u, n), Flat(c)));
    PackedCanonical(Covered(e, CounterStart(u, n), f));
    var x := Input(d, u, adata, tlen, n);
    var tag := Authenticate(e, x);
    PackedCanonical(BlockBits(Tag(e, x))[..tlen]);
    var same := Equal(t, tag);
    r := if same then Done(d) else Corrupt;
  }

  /** A ciphertext shorter than the tag is no encryption, so that decryption is right just when it
      refuses it. */
  lemma ShortRightIff(e: Cipher, cipher: seq<Entry>, iv: seq<Entry>, adata: seq<Entry>, tlen: nat)
    requires Canonical(cipher) && WholeBytes(iv) && Canonical(adata) && TagLength(tlen) && |Flat(iv)| >= 56
    requires |Flat(cipher)| < tlen
    ensures DecryptsRight(e, cipher, iv, adata, tlen) <==> Decrypted(e, cipher, iv, adata, tlen).Corrupt?
  {
    hide Encrypted, Canonical, Flat, Decrypted;
    forall data | Canonical(data) ensures Flat(cipher) != Encrypted(e, data, iv, adata, tlen) {
      EncryptedLength(e, data, iv, adata, tlen);
    }
    DecryptedCanonical(e, cipher, iv, adata, tlen);
  }

  lemma DecryptedCanonical(e: Cipher, cipher: seq<Entry>, iv: seq<Entry>, adata: seq<Entry>, tlen: nat)
    requires Canonical(cipher) && WholeBytes(iv) && Canonical(adata) && TagLength(tlen) && |Flat(iv)| >= 56
    ensures var r := Decrypted(e, cipher, iv, adata, tlen);
      r.Corrupt? || (r.Done? && Canonical(r.bits))
  {
    hide Flat, Packed, Canonical, Streamed, Covered, BlockBits, Tag, CounterStart, LengthBytes, Clamped, Sliced, Filled;
    var m := |Flat(cipher)| - tlen;
    var l := LengthBytes(WholeBytesOf(m), |Flat(iv)| / 8);
    PackedCanonical(Flat(iv)[..8 * (15 - l)]);
    ClampedBits(cipher, m);
    PackedCanonical(Streamed(e, CounterStart(Nonce(iv, l), l), Flat(Clamped(cipher, m))));
  }

  /** Decryption is right for all block functions and all ciphertexts of n bits if and only if n is not
      below the length of the tag. */
  lemma DecryptsRightIff(iv: seq<Entry>, adata: seq<Entry>, tlen: nat, n: nat)
    requires WholeBytes(iv) && Canonical(adata) && TagLength(tlen) && |Flat(iv)| >= 56
    ensures (forall e: Cipher, cipher: seq<Entry> :: Canonical(cipher) && |Flat(cipher)| == n ==>
              DecryptsRight(e, cipher, iv, adata, tlen))
       <==> n >= tlen
  {
    hide DecryptsRight, Decrypted, Canonical, Flat;
    if n >= tlen {
      forall e: Cipher, cipher: seq<Entry> | Canonical(cipher) && |Flat(cipher)| == n
        ensures DecryptsRight(e, cipher, iv, adata, tlen)
      {
        LongDecryptsRight(e, cipher, iv, adata, tlen);
      }
    } else {
      var cipher := ZerosAccepted(iv, adata, tlen, n);
      ShortRightIff(ZeroCipher, cipher, iv, adata, tlen);
    }
  }

  function ZeroBlock(): Block {
    [ZERO, ZERO, ZERO, ZERO]
  }

  /** The block function that is zero everywhere. */
  function ZeroCipher(b: Block): Block {
    ZeroBlock()
  }

  /** With it, any number of zeros below the length of the tag is taken for the encryption of a message. */
  lemma ZerosAccepted(iv: seq<Entry>, adata: seq<Entry>, tlen: nat, n: nat) returns (cipher: seq<Entry>)
    requires WholeBytes(iv) && Canonical(adata) && TagLength(tlen) && |Flat(iv)| >= 56 && n < tlen
    ensures Canonical(cipher) && Flat(cipher) == Zeros(n)
    ensures Decrypted(ZeroCipher, cipher, iv, adata, tlen).Done?
  {
    hide Flat, Packed, Canonical, Streamed, Covered, BlockBits, Tag, CounterStart, LengthBytes, Clamped, Filled;
    cipher := Packed(Zeros(n));
    PackedCanonical(Zeros(n));
    var m := n - tlen;
    var l := LengthBytes(WholeBytesOf(m), |Flat(iv)| / 8);
    var nonce := Nonce(iv, l);
    var u := CounterStart(nonce, l);
    PackedCanonical(Flat(iv)[..8 * (15 - l)]);
    ClampedBits(cipher, m);
    SlicedShort(cipher, m, tlen);
    PackedCanonical(Streamed(ZeroCipher, u, Flat(Clamped(cipher, m))));
    assert AllZero(Sliced(cipher, m));
    var data := Packed(Streamed(ZeroCipher, u, Flat(Clamped(cipher, m))));
    ZeroTag(Input(data, nonce, adata, tlen, l));
    ZeroCover(u, Sliced(cipher, m), tlen);
  }

  lemma {:induction false} ZeroChain(m: seq<Entry>, k: nat)
    ensures Chained(ZeroCipher, ZeroBlock(), m, k) == ZeroBlock()
    decreases |m| - k
  {
    if k < |m| {
      ZeroChain(m, k + 4);
    }
  }

  lemma ZeroTag(x: Input)
    requires x.Valid()
    ensures Tag(ZeroCipher, x) == ZeroBlock() && BlockBits(Tag(ZeroCipher, x))[..x.tlen] == Zeros(x.tlen)
  {
    hide Chained;
    ZeroChain(Authenticated(x), 0);
    ZeroChain(x.data, 0);
  }

  lemma ZeroCover(u: Block, b: Bits, n: nat)
    requires AllZero(b) && |b| <= n <= 128
    ensures Covered(ZeroCipher, u, Filled(b, n)) == Zeros(n)
  {
    var f := Filled(b, n);
    forall i | 0 <= i < n ensures Covered(ZeroCipher, u, f)[i] == Zeros(n)[i] {
      var k := i / 32;
      assert k == 0 || k == 1 || k == 2 || k == 3;
      assert ZeroCipher(u)[k] == ZERO && !f[i] && !ZERO[i % 32];
    }
  }

  /** So what was encrypted is decrypted to itself. */
  method EncryptThenDecrypt(e: Cipher, data: seq<Entry>, iv: seq<Entry>, adata: seq<Entry>, tlen: nat)
    returns (r: Result)
    requires Canonical(data) && WholeBytes(iv) && Canonical(adata) && |Flat(iv)| >= 56 && TagLength(tlen)
    ensures r == Done(data)
  {
    hide Flat, Canonical, Packed, Encrypted, Decrypted;
    r := Encrypt(e, data, iv, adata, tlen);
    EncryptedLength(e, data, iv, adata, tlen);
    PackedCanonical(Encrypted(e, data, iv, adata, tlen));
    LongDecryptsRight(e, r.bits, iv, adata, tlen);
    r := Decrypt(e, r.bits, iv, adata, tlen);
  }
}
