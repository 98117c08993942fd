/** sjcl's SHA-256 object around any compression function: what it holds after any updates depends on
    the bits alone, and its result is that of the padded message (section 5.1.1 of FIPS 180-4). */
module Sha256 {
  import opened BitArray
  import opened BitNumbers

  type Block = b: seq<Word> | |b| == 16 witness seq(16, _ => ZERO)

  /** The words of some bits, 32 at a time. */
  function WordsOf(b: Bits): seq<Word> {
    if |b| < 32 then [] else [b[..32]] + WordsOf(b[32..])
  }

  lemma {:induction false} WordsCount(b: Bits)
    ensures |WordsOf(b)| == |b| / 32
    ensures forall i :: 0 <= i < |WordsOf(b)| ==> WordsOf(b)[i] == b[32 * i..32 * i + 32]
  {
    if |b| >= 32 {
      var t := WordsOf(b[32..]);
      WordsCount(b[32..]);
      forall i | 0 < i <= |t| ensures WordsOf(b)[i] == b[32 * i..32 * i + 32] {
        assert WordsOf(b)[i] == t[i - 1] == b[32..][32 * (i - 1)..32 * (i - 1) + 32];
      }
    }
  }

  function FirstBlock(m: Bits): (r: Block)
    requires |m| >= 512
  {
    WordsCount(m[..512]);
    WordsOf(m[..512])
  }

  /** The words of the first block are its bits, 32 at a time. */
  lemma FirstBlockWord(m: Bits, i: nat)
    requires |m| >= 512 && i < 16
    ensures FirstBlock(m)[i] == m[32 * i..32 * i + 32]
  {
    WordsCount(m[..512]);
    assert m[..512][32 * i..32 * i + 32] == m[32 * i..32 * i + 32];
  }

  /** The chaining value after all whole blocks of a message. */
  function Digest<H(!new)>(z: (H, Block) -> H, h: H, m: Bits): H
    decreases |m|
  {
    if |m| < 512 then h else Digest(z, z(h, FirstBlock(m)), m[512..])
  }

  /** The bits behind the last whole block. */
  function Remainder(m: Bits): Bits {
    if |m| < 512 then m else Remainder(m[512..])
  }

  lemma {:induction false} RemainderLength(m: Bits)
    ensures |Remainder(m)| == |m| % 512
  {
    if |m| >= 512 {
      RemainderLength(m[512..]);
    }
  }

  /** Going on with more bits is going on from what is left. */
  lemma {:induction false} DigestAppend<H(!new)>(z: (H, Block) -> H, h: H, m: Bits, b: Bits)
    ensures Digest(z, h, m + b) == Digest(z, Digest(z, h, m), Remainder(m) + b)
    ensures Remainder(m + b) == Remainder(Remainder(m) + b)
    decreases |m|
  {
    if |m| >= 512 {
      assert (m + b)[..512] == m[..512];
      assert (m + b)[512..] == m[512..] + b;
      DigestAppend(z, z(h, FirstBlock(m)), m[512..], b);
    }
  }

  /** The chaining value after one block more is that block compressed into the one before. */
  lemma DigestLast<H(!new)>(z: (H, Block) -> H, h: H, m: Bits, b: Bits)
    requires |m| % 512 == 0 && |b| == 512
    ensures Digest(z, h, m + b) == z(Digest(z, h, m), FirstBlock(b)) && Digest(z, h, []) == h
  {
    RemainderLength(m);
    DigestAppend(z, h, m, b);
    var g := Digest(z, h, m);
    assert Remainder(m) + b == b;
    assert Digest(z, z(g, FirstBlock(b)), b[512..]) == z(g, FirstBlock(b));
  }

  /** The words of a list of full ones. */
  lemma {:induction false} WordsOfFull(a: seq<Entry>)
    requires AllFull(a)
    ensures WordsOf(Flat(a)) == seq(|a|, i requires 0 <= i < |a| => a[i].word)
    ensures |Flat(a)| == 32 * |a|
  {
    if a != [] {
      var t := a[1..];
      WordsOfFull(t);
      assert a[0].word[..32] == a[0].word;
      assert Flat(a)[..32] == a[0].word && Flat(a)[32..] == Flat(t);
    }
  }

  /** The words of the first sixteen entries. */
  function FrontBlock(f: seq<Entry>): Block
    requires |f| >= 16
  {
    seq(16, i requires 0 <= i < 16 => f[i].word)
  }

  /** The first sixteen entries of an array with so many bits are the first block. */
  lemma SpliceBlock(f: seq<Entry>)
    requires Canonical(f) && |Flat(f)| >= 512
    ensures |f| >= 16 && Canonical(f[16..]) && Flat(f[16..]) == Flat(f)[512..]
    ensures FrontBlock(f) == FirstBlock(Flat(f))
  {
    LengthBound(f);
    TailCanonical(f, 16);
    var front := f[..16];
    hide Flat, Canonical;
    if |f| > 16 {
      FlatTake(f, 16);
    } else {
      LastFull(f);
      assert f[16..] == [] && front == f;
      NoBits();
    }
    WordsOfFull(front);
    assert Flat(f)[..512] == Flat(front);
    assert FrontBlock(f) == FrontBlock(front);
  }

  lemma LastFull(f: seq<Entry>)
    requires Canonical(f) && |f| == 16 && |Flat(f)| >= 512
    ensures AllFull(f)
  {
    FlatPacked(f);
    LastGood(f);
    forall i | 0 <= i < 16 ensures f[i].part == 32 {
      assert GoodEntry(f[i], i == 15);
    }
  }

  function Halved(n: nat, k: nat): nat
    decreases k
  {
    if k == 0 then n else Halved(n / 2, k - 1)
  }

  lemma {:induction false} BitsSplit(n: nat, k: nat, j: nat)
    ensures NumberBits(n, k + j) == NumberBits(Halved(n, j), k) + NumberBits(n, j)
    decreases j
  {
    if j > 0 {
      BitsSplit(n / 2, k, j - 1);
    }
  }

  lemma {:induction false} HalvedTwice(n: nat, j: nat, k: nat)
    ensures Halved(n, j + k) == Halved(Halved(n, j), k)
    decreases j
  {
    if j > 0 {
      HalvedTwice(n / 2, j - 1, k);
    }
  }

  lemma HalvedWord(n: nat)
    ensures Halved(n, 32) == n / 0x1_0000_0000
  {
    forall a: nat ensures Halved(a, 2) == a / 4 {
      assert Halved(a, 2) == Halved(a / 2, 1);
    }
    forall a: nat ensures Halved(a, 4) == a / 16 {
      HalvedTwice(a, 2, 2);
    }
    forall a: nat ensures Halved(a, 8) == a / 256 {
      HalvedTwice(a, 4, 4);
    }
    forall a: nat ensures Halved(a, 16) == a / 65536 {
      HalvedTwice(a, 8, 8);
    }
    HalvedTwice(n, 16, 16);
  }

  /** How many zero bits follow the one behind a message: the fewest that leave room for the length. */
  function ZeroCount(length: nat): (k: nat)
    ensures (length + 1 + k) % 512 == 448 && k < 512
  {
    (959 - length % 512) % 512
  }

  /** The message, a one, zeros, and its length in 64 bits. */
  function Padded(m: Bits): Bits {
    m + [true] + Zeros(ZeroCount(|m|)) + NumberBits(|m|, 64)
  }

  /** What section 5.1.1 of FIPS 180-4 asks of the padding of m: behind the message a one, then as few
      zeros as leave whole blocks, and in the last 64 bits the length as a number. */
  predicate IsPadded(m: Bits, p: Bits) {
    && |m| + 65 <= |p| < |m| + 65 + 512 && |p| % 512 == 0
    && p[..|m|] == m && p[|m|]
    && (forall i :: |m| < i < |p| - 64 ==> !p[i])
    && Value(p[|p| - 64..]) == |m| % 0x1_0000_0000_0000_0000
  }

  /** The padding is that, and it is the only one. */
  lemma PaddedIff(m: Bits, p: Bits)
    ensures IsPadded(m, p) <==> p == Padded(m)
  {
    hide IsPadded, Padded;
    if IsPadded(m, p) {
      PaddedOnly(m, p);
    } else {
      PaddedIs(m);
    }
  }

  lemma PaddedIs(m: Bits)
    ensures IsPadded(m, Padded(m))
  {
    var k, n := ZeroCount(|m|), NumberBits(|m|, 64);
    LengthValue(|m|, n);
    FillsBlock(|m|, k);
    hide NumberBits, Value, Zeros, ZeroCount;
    Parts(m, Padded(m), k, n);
  }

  lemma PaddedOnly(m: Bits, p: Bits)
    requires IsPadded(m, p)
    ensures p == Padded(m)
  {
    var n := NumberBits(|m|, 64);
    LengthValue(|m|, n);
    FewestZeros(|m|, |p| - |m| - 65);
    hide NumberBits, Value, Zeros, ZeroCount;
    SameValue(p[|p| - 64..], n);
    FromParts(m, p, ZeroCount(|m|), n);
  }

  lemma FewestZeros(length: nat, k: nat)
    requires (length + 1 + k + 64) % 512 == 0 && k < 512
    ensures k == ZeroCount(length)
  {
    ZeroCountIs(length, length % 512, k);
  }

  lemma LengthValue(length: nat, n: Bits)
    requires n == NumberBits(length, 64)
    ensures Value(n) == length % 0x1_0000_0000_0000_0000
  {
    ValueOfNumber(length, 64);
    Powers();
  }

  lemma FillsBlock(length: nat, k: nat)
    requires (length + 1 + k) % 512 == 448
    ensures (length + 1 + k + 64) % 512 == 0
  {
  }

  lemma Parts(m: Bits, p: Bits, k: nat, n: Bits)
    requires |n| == 64 && p == m + [true] + Zeros(k) + n
    ensures |p| == |m| + 1 + k + 64 && p[..|m|] == m && p[|m|] && p[|p| - 64..] == n
    ensures forall i :: |m| < i < |p| - 64 ==> !p[i]
  {
  }

  lemma FromParts(m: Bits, p: Bits, k: nat, n: Bits)
    requires |n| == 64 && |p| == |m| + 1 + k + 64 && p[..|m|] == m && p[|m|] && p[|p| - 64..] == n
    requires forall i :: |m| < i < |p| - 64 ==> !p[i]
    ensures p == m + [true] + Zeros(k) + n
  {
    var e := |p| - 64;
    assert p[|m|..|m| + 1] == [true];
    assert p[|m| + 1..e] == Zeros(k);
    assert p == p[..|m|] + p[|m|..|m| + 1] + p[|m| + 1..e] + p[e..];
  }

  /** The same words, each counted in full. */
  function Filled(d: seq<Entry>): seq<Entry> {
    seq(|d|, i requires 0 <= i < |d| => Full(d[i].word))
  }

  lemma {:induction false} FilledBits(d: seq<Entry>)
    ensures AllFull(Filled(d)) && Canonical(Filled(d)) && Flat(Filled(d)) == AllBits(d)
    ensures |AllBits(d)| == 32 * |d|
  {
    var f := Filled(d);
    assert forall i :: 0 <= i < |f| ==> GoodEntry(f[i], i == |f| - 1);
    FullBits(f);
    SameWords(d, f);
  }

  lemma {:induction false} SameWords(d: seq<Entry>, f: seq<Entry>)
    requires |d| == |f| && forall i :: 0 <= i < |d| ==> d[i].word == f[i].word
    ensures AllBits(d) == AllBits(f)
  {
    if d != [] {
      SameWords(d[..|d| - 1], f[..|f| - 1]);
    }
  }

  /** Sixteen words off the front of a list are its first block. */
  lemma SpliceWords(d: seq<Entry>)
    requires |d| >= 16
    ensures |AllBits(d)| == 32 * |d|
    ensures FrontBlock(d) == FirstBlock(AllBits(d))
    ensures AllBits(d[16..]) == AllBits(d)[512..]
  {
    FilledBits(d);
    FilledBits(d[16..]);
    var f := Filled(d);
    assert f[16..] == Filled(d[16..]);
    SpliceBlock(f);
    assert FrontBlock(d) == FrontBlock(f);
  }

  lemma PushWord(d: seq<Entry>, w: Word)
    ensures AllBits(d + [Full(w)]) == AllBits(d) + w
  {
    assert (d + [Full(w)])[..|d|] == d;
  }

  lemma MoreZeros(a: Bits, k: nat)
    ensures a + Zeros(k) + ZERO == a + Zeros(k + 32)
  {
    assert Zeros(k) + ZERO == Zeros(k + 32);
    assert a + Zeros(k) + ZERO == a + (Zeros(k) + ZERO);
  }

  const ONE: Word := [true] + Zeros(31)

  /** The message's last bits and the one behind them, in words. */
  lemma WithOne(r: Bits)
    requires |r| < 512
    ensures var d := Packed(r + [true]);
      var z := 32 * |d| - (|r| + 1);
      0 <= z < 32 && AllBits(d) == r + [true] + Zeros(z)
  {
    PackedCanonical(r + [true]);
    var d := Packed(r + [true]);
    BitsOfWords(d);
    FlatPacked(d);
    hide Packed, Flat, AllBits;
    assert d != [] by { NoBits(); }
    LastGood(d);
  }

  lemma Joined64(n: nat)
    ensures NumberBits(n / 0x1_0000_0000, 32) + NumberBits(n, 32) == NumberBits(n, 64)
  {
    HalvedWord(n);
    BitsSplit(n, 32, 32);
  }

  lemma ZeroCountIs(length: nat, r: nat, k: nat)
    requires r == length % 512 && k < 512 && (r + 1 + k) % 512 == 448
    ensures k == ZeroCount(length)
  {
  }

  /** An integer as the bit operators take it. */
  function ToInt32(x: int): int {
    (x + 0x8000_0000) % 0x1_0000_0000 - 0x8000_0000
  }

  /** Where the loop of an update starts counting when d bits were given before. */
  function LoopStart(d: nat): int {
    ToInt32(512 + d) / 512 * 512
  }

  /** It is the end of the block being filled if and only if that is within 32 bits; else it lies at
      least 2^32 bits too low, and the loop goes on when there are no more words. */
  lemma LoopStartIff(d: nat)
    ensures LoopStart(d) == 512 * (d / 512 + 1) <==> d < 0x8000_0000 - 512
    ensures LoopStart(d) <= 512 * (d / 512 + 1)
    ensures LoopStart(d) < 512 * (d / 512 + 1) ==> LoopStart(d) <= 512 * (d / 512 + 1) - 0x1_0000_0000
  {
    var x := 512 + d;
    var k := (x + 0x8000_0000) / 0x1_0000_0000;
    assert ToInt32(x) == x - 0x1_0000_0000 * k;
    assert x / 512 == d / 512 + 1;
    assert (x - 0x1_0000_0000 * k) / 512 == x / 512 - 0x80_0000 * k;
  }

  class Sha256<H(!new)> {
    const compress: (H, Block) -> H
    const initial: H
    var chain: H
    var buffer: seq<Entry>
    var total: nat

    /** The object has been given exactly these bits since the start. */
    ghost predicate Holds(m: Bits)
      reads this
    {
      chain == Digest(compress, initial, m) && buffer == Packed(Remainder(m)) && total == |m|
    }

    constructor (compress: (H, Block) -> H, initial: H)
      ensures this.compress == compress && this.initial == initial && Holds([])
    {
      this.compress, this.initial := compress, initial;
      chain, buffer, total := initial, [], 0;
    }

    method Reset()
      modifies this
      ensures Holds([])
    {
      chain, buffer, total := initial, [], 0;
    }

    /** Whatever was given before, and in whatever pieces, the state is that of all the bits, as long as
        the bits given before are few enough for the start of the loop to be right. */
    method Update(e: seq<Entry>, ghost m: Bits)
      requires Canonical(e) && Holds(m) && |m| < 0x8000_0000 - 512
      modifies this
      ensures Holds(m + Flat(e))
    {
      hide Digest, Remainder, Packed, Canonical, Flat, FirstBlock, FrontBlock;
      ghost var all := m + Flat(e);
      RemainderLength(m);
      PackedCanonical(Remainder(m));
      BitLengthIs(e);
      DigestAppend(compress, initial, m, Flat(e));
      var f := Concat(buffer, e);
      PackedCanonical(Remainder(m) + Flat(e));
      var d: int := total;
      total := total + BitLength(e);
      LoopStartIff(d);
      d := LoopStart(d);
      while d <= total
        invariant Canonical(f) && total == |all| && |Flat(f)| == total - (d - 512)
        invariant Digest(compress, chain, Flat(f)) == Digest(compress, initial, all)
        invariant Remainder(Flat(f)) == Remainder(all)
      {
        SpliceBlock(f);
        NextBlock(compress, chain, Flat(f));
        chain := compress(chain, FrontBlock(f));
        f := f[16..];
        d := d + 512;
      }
      NoBlock(compress, chain, Flat(f));
      FlatPacked(f);
      buffer := f;
    }

    /** Compresses words, sixteen at a time, until none is left. */
    method Process(words: seq<Entry>) returns (r: H)
      requires |words| % 16 == 0
      modifies this
      ensures r == Digest(compress, old(chain), AllBits(words))
    {
      hide Digest, FirstBlock, AllBits, FrontBlock;
      var d := words;
      while |d| != 0
        invariant |d| % 16 == 0
        invariant Digest(compress, chain, AllBits(d)) == Digest(compress, old(chain), AllBits(words))
      {
        SpliceWords(d);
        NextBlock(compress, chain, AllBits(d));
        chain := compress(chain, FrontBlock(d));
        d := d[16..];
      }
      NoWords();
      NoBlock(compress, chain, AllBits(d));
      r := chain;
    }

    /** The result is that of the padded message, and the object starts afresh. */
    method Finalize(ghost m: Bits) returns (r: H, ghost p: Bits)
      requires Holds(m)
      modifies this
      ensures IsPadded(m, p) && r == Digest(compress, initial, p) && Holds([])
    {
      hide Digest, Remainder, Packed, Canonical, Flat, FirstBlock, AllBits, NumberBits, ZeroCount, Padded, IsPadded;
      ghost var rest := Remainder(m);
      RemainderLength(m);
      var d := PadWords(buffer, rest, total);
      PaddedTail(m);
      DigestAppend(compress, initial, m, [true] + Zeros(ZeroCount(|m|)) + NumberBits(|m|, 64));
      r := Process(d);
      p := Padded(m);
      PaddedIff(m, p);
      Reset();
    }
  }

  /** How many more words until two fill a block. */
  ghost function WordsLeft(n: nat): (k: nat)
    ensures k < 16
  {
    var r := n % 16;
    if r <= 14 then 14 - r else 15
  }

  lemma WordsLeftStep(n: nat)
    ensures WordsLeft(n) == 0 <==> (n + 2) % 16 == 0
    ensures WordsLeft(n) > 0 ==> WordsLeft(n + 1) == WordsLeft(n) - 1
  {
    var q, r := n / 16, n % 16;
    assert n == 16 * q + r;
    RemainderIs(n + 1, if r < 15 then q else q + 1, if r < 15 then r + 1 else 0);
    RemainderIs(n + 2, if r < 14 then q else q + 1, if r < 14 then r + 2 else r - 14);
  }

  lemma RemainderIs(n: nat, q: nat, r: nat)
    requires n == 16 * q + r && r < 16
    ensures n % 16 == r
  {
  }

  /** One zero word more. */
  lemma PushZero(d: seq<Entry>, r: Bits, z: nat)
    requires AllBits(d) == r + Zeros(z)
    ensures AllBits(d + [Full(ZERO)]) == r + Zeros(z + 32)
  {
    hide AllBits, Zeros;
    PushWord(d, ZERO);
    MoreZeros(r, z);
  }

  /** Zero words until there is room for two more. */
  method PushZeros(words: seq<Entry>, ghost r: Bits, ghost z0: nat) returns (d: seq<Entry>, ghost z: nat)
    requires 32 * |words| == |r| + z0 && z0 < 32 && AllBits(words) == r + Zeros(z0)
    ensures 32 * |d| == |r| + z && z < 512 && (|d| + 2) % 16 == 0 && AllBits(d) == r + Zeros(z)
  {
    hide AllBits, Zeros, WordsLeft;
    d, z := words, z0;
    WordsLeftStep(|d|);
    while (|d| + 2) % 16 != 0
      invariant WordsLeft(|d|) == 0 <==> (|d| + 2) % 16 == 0
      invariant 32 * |d| == |r| + z && z + 32 * WordsLeft(|d|) == z0 + 32 * WordsLeft(|words|)
      invariant AllBits(d) == r + Zeros(z)
      decreases WordsLeft(|d|)
    {
      PushZero(d, r, z);
      WordsLeftStep(|d|);
      WordsLeftStep(|d| + 1);
      d := d + [Full(ZERO)];
      z := z + 32;
    }
  }

  /** The last bits, the one, zeros, and the length. */
  method PadWords(buffer: seq<Entry>, ghost rest: Bits, total: nat) returns (r: seq<Entry>)
    requires |rest| == total % 512 && buffer == Packed(rest)
    ensures |r| % 16 == 0
    ensures AllBits(r) == rest + ([true] + Zeros(ZeroCount(total)) + NumberBits(total, 64))
  {
    hide Packed, Canonical, Flat, AllBits, NumberBits, ZeroCount, Zeros;
    PackedCanonical(rest);
    OneEntry();
    var d := Concat(buffer, [Entry(ONE, 1)]);
    WithOne(rest);
    ghost var z;
    d, z := PushZeros(d, rest + [true], 32 * |d| - (|rest| + 1));
    ZeroCountIs(total, |rest|, z);
    var hi, lo := NumberBits(total / 0x1_0000_0000, 32), NumberBits(total, 32);
    PushWord(d, hi);
    PushWord(d + [Full(hi)], lo);
    Joined64(total);
    PaddingIs(rest, Zeros(z), hi, lo);
    r := d + [Full(hi)] + [Full(lo)];
  }

  lemma PaddingIs(rest: Bits, z: Bits, hi: Bits, lo: Bits)
    ensures rest + [true] + z + hi + lo == rest + ([true] + z + (hi + lo))
  {
  }

  lemma PaddedTail(m: Bits)
    ensures Padded(m) == m + ([true] + Zeros(ZeroCount(|m|)) + NumberBits(|m|, 64))
  {
    hide Zeros, NumberBits, ZeroCount;
    PaddingMoved(m, Zeros(ZeroCount(|m|)), NumberBits(|m|, 64));
  }

  lemma PaddingMoved(m: Bits, z: Bits, n: Bits)
    ensures m + [true] + z + n == m + ([true] + z + n)
  {
  }

  lemma NoWords()
    ensures AllBits([]) == []
  {
  }

  lemma OneEntry()
    ensures Canonical([Entry(ONE, 1)]) && Flat([Entry(ONE, 1)]) == [true]
  {
    FlatOne(Entry(ONE, 1));
    assert ONE[..1] == [true];
  }

  lemma NextBlock<H(!new)>(z: (H, Block) -> H, h: H, m: Bits)
    requires |m| >= 512
    ensures Digest(z, h, m) == Digest(z, z(h, FirstBlock(m)), m[512..])
    ensures Remainder(m) == Remainder(m[512..])
  {
  }

  lemma NoBlock<H(!new)>(z: (H, Block) -> H, h: H, m: Bits)
    requires |m| < 512
    ensures Digest(z, h, m) == h && Remainder(m) == m
  {
  }
}
