/** The blocks that CCM gives to the block function, bit by bit (sections 2.2 and 2.3 of RFC 3610): the
    counter blocks, the first block, and the blocks of data and message behind it; and that the latter
    determine everything that is authenticated. */
module CcmBlocks {
  import opened BitArray
  import opened BitNumbers
  import opened Ccm
  import opened Options
  import opened Ring

  /** A block is determined by its bits. */
  lemma SameBlock(a: Block, b: Block)
    requires BlockBits(a) == BlockBits(b)
    ensures a == b
  {
    Words(a);
    Words(b);
  }

  lemma Words(b: Block)
    ensures b[0] == BlockBits(b)[..32] && b[1] == BlockBits(b)[32..64]
    ensures b[2] == BlockBits(b)[64..96] && b[3] == BlockBits(b)[96..]
  {
  }

  /** With another last word, the first 96 bits stay. */
  lemma LastWord(b: Block, w: Word)
    ensures BlockBits(b[3 := w]) == BlockBits(b)[..96] + w
  {
  }

  /** The first block of some bits is those, filled up with zeros. */
  lemma PackedBlock(b: Bits)
    requires |b| <= 128
    ensures BlockBits(BlockAt(Packed(b), 0)) == b + Zeros(128 - |b|)
  {
    hide Packed, BlockBits, BlockAt;
    var r, s := BlockBits(BlockAt(Packed(b), 0)), Filled(b, 128);
    assert s == b + Zeros(128 - |b|);
    hide Filled;
    forall i | 0 <= i < 128 ensures r[i] == s[i] {
      PackedBit(b, i);
    }
  }

  lemma PackedBit(b: Bits, i: nat)
    requires |b| <= 128 && i < 128
    ensures BlockBits(BlockAt(Packed(b), 0))[i] == Filled(b, 128)[i]
  {
    hide Flat, Packed, Canonical, BlockBits, BlockAt, Filled, WordAt;
    PackedCanonical(b);
    FilledBit(Packed(b), 128, i);
    FirstBit(Packed(b), i);
  }

  lemma FirstBit(a: seq<Entry>, i: nat)
    requires i < 128
    ensures BlockBits(BlockAt(a, 0))[i] == WordAt(a, i / 32)[i % 32]
  {
    BlockBit(BlockAt(a, 0), i);
    hide BlockBits, WordAt;
    var k := i / 32;
    assert k == 0 || k == 1 || k == 2 || k == 3;
  }

  // The counter blocks

  lemma IncrementIs(w: Word)
    ensures Value(Increment(w)) == (Value(w) + 1) % 0x1_0000_0000
  {
    ValueOfNumber(Value(w) + 1, 32);
    Powers();
  }

  lemma WordValue(w: Word)
    ensures Value(w) == Value(w) % 0x1_0000_0000
  {
    hide Value, TwoTo;
    NumberOfValue(w);
    Powers();
    Small(Value(w));
  }

  lemma Small(n: nat)
    requires n < 0x1_0000_0000
    ensures n % 0x1_0000_0000 == n
  {
  }

  lemma Added(n: nat, k: nat)
    ensures (n % 0x1_0000_0000 + k) % 0x1_0000_0000 == (n + k) % 0x1_0000_0000
  {
  }

  /** Counting changes the last word alone, by one each time, modulo 2^32. */
  lemma {:induction false} CounterIs(u: Block, k: nat)
    ensures Counter(u, k)[..3] == u[..3] && Value(Counter(u, k)[3]) == (Value(u[3]) + k) % 0x1_0000_0000
    decreases k
  {
    hide Value, Increment;
    if k == 0 {
      WordValue(u[3]);
    } else {
      CounterIs(u, k - 1);
      IncrementIs(Counter(u, k - 1)[3]);
      Added(Value(u[3]) + k - 1, 1);
    }
  }

  /** Flags, the nonce, and a number in the l bytes left. */
  function Numbered(flags: nat, iv: seq<Entry>, l: nat, n: nat): Bits {
    NumberBits(flags, 8) + Flat(iv) + NumberBits(n, 8 * l)
  }

  /** The nonce has the bytes that the flags and the length leave of a block. */
  predicate NonceFits(iv: seq<Entry>, l: nat) {
    1 <= l <= 8 && |Flat(iv)| == 8 * (15 - l)
  }

  /** The last word of the bits t, filled up with zeros to a block. */
  lemma StartWord(t: Bits, l: nat, w: Bits)
    requires 1 <= l <= 8 && |t| == 128 - 8 * l && w == (t + Zeros(8 * l))[96..]
    ensures w == if l <= 4 then t[96..] + Zeros(8 * l) else Zeros(32)
  {
  }

  /** A number in the last word of the bits t filled up is one in the l bytes behind them. */
  lemma NumberBehind(t: Bits, l: nat, n: nat, c: Bits)
    requires 1 <= l <= 8 && |t| == 128 - 8 * l && n < 0x1_0000_0000
    requires c == if l <= 4 then t[96..] + NumberBits(n, 8 * l) else NumberBits(n, 32)
    ensures (t + Zeros(8 * l))[..96] + c == t + NumberBits(n, 8 * l)
  {
    hide NumberBits, Zeros;
    if l <= 4 {
      assert (t + Zeros(8 * l))[..96] == t[..96];
      assert t == t[..96] + t[96..];
    } else {
      WideNumber(t, 8 * l, n);
    }
  }

  lemma WideNumber(t: Bits, j: nat, n: nat)
    requires 32 <= j && |t| + j == 128 && n < 0x1_0000_0000
    ensures (t + Zeros(j))[..96] + NumberBits(n, 32) == t + NumberBits(n, j)
  {
    Powers();
    hide NumberBits, TwoTo;
    LeadingZeros(n, j - 32, 32);
    assert (t + Zeros(j))[..96] == t + Zeros(j - 32);
  }

  /** The k-th counter block says k behind the flags, which are l - 1, and the nonce. */
  lemma CounterBits(iv: seq<Entry>, l: nat, k: nat)
    requires NonceFits(iv, l) && k < TwoTo(8 * l) && k < 0x1_0000_0000
    ensures BlockBits(Counter(CounterStart(iv, l), k)) == Numbered(l - 1, iv, l, k)
  {
    hide Flat, Packed, NumberBits, BlockAt, BlockBits, TwoTo, Value, Counter;
    var u := CounterStart(iv, l);
    var c := Counter(u, k);
    var t := NumberBits(l - 1, 8) + Flat(iv);
    PackedBlock(t);
    Words(u);
    CounterIs(u, k);
    assert c == u[3 := c[3]];
    LastWord(u, c[3]);
    StartWord(t, l, u[3]);
    if l <= 4 {
      CountedWord(t[96..], 8 * l, u[3], k, c[3]);
    } else {
      CountedZero(u[3], k, c[3]);
    }
    NumberBehind(t, l, k, c[3]);
  }

  lemma {:induction false} ZeroBits(k: nat)
    ensures NumberBits(0, k) == Zeros(k)
  {
    if k > 0 {
      ZeroBits(k - 1);
    }
  }

  /** A word of the value n modulo 2^32 is the lowest 32 bits of n. */
  lemma WordIs(w: Word, n: nat)
    requires Value(w) == n % 0x1_0000_0000
    ensures w == NumberBits(n, 32)
  {
    ValueOfNumber(n, 32);
    Powers();
    SameValue(w, NumberBits(n, 32));
  }

  lemma CountedWord(front: Bits, j: nat, w: Word, k: nat, c: Word)
    requires |front| + j == 32 && w == front + Zeros(j) && k < TwoTo(j)
    requires Value(c) == (Value(w) + k) % 0x1_0000_0000
    ensures c == front + NumberBits(k, j)
  {
    hide NumberBits, Value, Mul, Zeros, TwoTo;
    FrontBits(front, 0, j);
    FrontBits(front, k, j);
    ZeroBits(j);
    var n := Mul(Value(front), TwoTo(j));
    NumberValue(n);
    Added(n, k);
    WordIs(c, n + k);
  }

  lemma NumberValue(n: nat)
    ensures Value(NumberBits(n, 32)) == n % 0x1_0000_0000
  {
    ValueOfNumber(n, 32);
    Powers();
  }

  lemma CountedZero(w: Word, k: nat, c: Word)
    requires w == Zeros(32) && Value(c) == (Value(w) + k) % 0x1_0000_0000
    ensures c == NumberBits(k, 32)
  {
    ZeroValue(32);
    WordIs(c, k);
  }

  /** A bit of the data is covered by a bit of the counter block that says how many blocks are before
      it, counted from one. */
  lemma StreamedBit(e: Cipher, iv: seq<Entry>, l: nat, b: Bits, i: nat, a: Block)
    requires NonceFits(iv, l) && i < |b| && i / 128 + 1 < TwoTo(8 * l) && i / 128 + 1 < 0x1_0000_0000
    requires BlockBits(a) == Numbered(l - 1, iv, l, i / 128 + 1)
    ensures Streamed(e, CounterStart(iv, l), b)[i] == (b[i] != BlockBits(e(a))[i % 128])
  {
    hide TwoTo, Counter, CounterStart, Numbered, BlockBits;
    var k := i / 128 + 1;
    CounterBits(iv, l, k);
    SameBlock(a, Counter(CounterStart(iv, l), k));
    BlockBit(e(a), i % 128);
    BitPlace(i);
  }

  lemma BitPlace(i: nat)
    ensures i % 128 / 32 == i / 32 % 4 && i % 128 % 32 == i % 32
  {
    var q, r := i / 128, i % 128;
    assert i / 32 == 4 * q + r / 32;
  }

  /** A bit of the tag is covered by a bit of the counter block that says 0. */
  lemma CoveredBit(e: Cipher, iv: seq<Entry>, l: nat, b: Bits, i: nat, a: Block)
    requires NonceFits(iv, l) && i < |b| <= 128 && BlockBits(a) == Numbered(l - 1, iv, l, 0)
    ensures Covered(e, CounterStart(iv, l), b)[i] == (b[i] != BlockBits(e(a))[i])
  {
    hide TwoTo, CounterStart, Numbered, BlockBits;
    CounterBits(iv, l, 0);
    SameBlock(a, CounterStart(iv, l));
    BlockBit(e(a), i);
  }

  // The first block

  /** What the mode is made for: whole bytes, of data and associated data fewer than 2^32, of data no more
      than the length can say, and a nonce that leaves room for that. */
  predicate Proper(x: Input) {
    && x.Valid() && NonceFits(x.iv, x.l)
    && |Flat(x.data)| % 8 == 0 && |Flat(x.data)| / 8 < TwoTo(8 * x.l) && |Flat(x.data)| / 8 < 0x1_0000_0000
    && |Flat(x.adata)| % 8 == 0 && |Flat(x.adata)| / 8 < 0x1_0000_0000
  }

  /** The first block says the flags, the nonce, and the number of bytes of the data. */
  lemma FirstBlockBits(x: Input)
    requires Proper(x)
    ensures BlockBits(FirstBlock(x)) == Numbered(Flags(x), x.iv, x.l, |Flat(x.data)| / 8)
  {
    hide Flat, Packed, NumberBits, BlockAt, BlockBits, TwoTo, Canonical, Or, Flags;
    var n, l := |Flat(x.data)| / 8, x.l;
    var t := NumberBits(Flags(x), 8) + Flat(x.iv);
    NumberEntryBits(Flags(x), 8);
    var b := BlockAt(Packed(t), 0);
    PackedBlock(t);
    Words(b);
    LastWord(b, Or(b[3], NumberBits(n, 32)));
    StartWord(t, l, b[3]);
    if l <= 4 {
      LeadingZeros(n, 32 - 8 * l, 8 * l);
      OrParts(t[96..], NumberBits(n, 8 * l), b[3], NumberBits(n, 32));
    } else {
      OrParts([], NumberBits(n, 32), b[3], NumberBits(n, 32));
    }
    NumberBehind(t, l, n, Or(b[3], NumberBits(n, 32)));
  }

  lemma OrParts(a: Bits, b: Bits, v: Word, w: Word)
    requires |a| + |b| == 32 && v == a + Zeros(|b|) && w == Zeros(|a|) + b
    ensures Or(v, w) == a + b
  {
  }

  /** The length of a tag as the flags say it. */
  function TagField(tlen: nat): nat
    requires TagLength(tlen)
  {
    (tlen / 8 - 2) / 2
  }

  lemma TagBytes(tlen: nat)
    requires TagLength(tlen)
    ensures tlen == 16 * (TagField(tlen) + 1) && TagField(tlen) < 8
  {
  }

  /** The flags: one bit for the presence of associated data, three for the length of the tag and three
      for that of the length. */
  lemma FlagBits(x: Input)
    requires x.Valid()
    ensures NumberBits(Flags(x), 8)
         == [false, x.adata != []] + NumberBits(TagField(x.tlen), 3) + NumberBits(x.l - 1, 3)
  {
    var v := if x.adata != [] then 1 else 0;
    var m, l := TagField(x.tlen), x.l - 1;
    TagBytes(x.tlen);
    hide TagField;
    assert Flags(x) == 8 * (8 * v + m) + l && m < 8;
    ThreeBits(8 * v + m, l, 5);
    ThreeBits(v, m, 2);
    TwoBits(v);
    Moved(NumberBits(v, 2), NumberBits(m, 3), NumberBits(l, 3));
  }

  lemma TwoBits(v: nat)
    requires v <= 1
    ensures NumberBits(v, 2) == [false, v == 1]
  {
    assert NumberBits(0, 1) == [false];
  }

  /** The flags tell the length of the tag, that of the length, and whether there is associated data. */
  lemma SameFlags(x: Input, y: Input)
    requires x.Valid() && y.Valid() && NumberBits(Flags(x), 8) == NumberBits(Flags(y), 8)
    ensures x.tlen == y.tlen && x.l == y.l && (x.adata == [] <==> y.adata == [])
  {
    hide NumberBits, Flags, TagField, TagLength, Canonical;
    FlagBits(x);
    FlagBits(y);
    TagBytes(x.tlen);
    TagBytes(y.tlen);
    SameFields(x.adata != [], TagField(x.tlen), x.l - 1, y.adata != [], TagField(y.tlen), y.l - 1);
  }

  lemma SameFields(a: bool, m: nat, l: nat, b: bool, n: nat, k: nat)
    requires m < 8 && n < 8 && l < 8 && k < 8
    requires [false, a] + NumberBits(m, 3) + NumberBits(l, 3) == [false, b] + NumberBits(n, 3) + NumberBits(k, 3)
    ensures a == b && m == n && l == k
  {
    assert TwoTo(3) == 8;
    hide NumberBits, TwoTo;
    Parts([false, a], NumberBits(m, 3), NumberBits(l, 3), [false, b], NumberBits(n, 3), NumberBits(k, 3));
    assert [false, a][1] == [false, b][1];
    SameNumber(m, n, 3);
    SameNumber(l, k, 3);
  }

  lemma Parts(a: Bits, b: Bits, c: Bits, d: Bits, e: Bits, f: Bits)
    requires |a| == |d| && |b| == |e| && a + b + c == d + e + f
    ensures a == d && b == e && c == f
  {
    var all := a + b + c;
    var m, n := |a|, |a| + |b|;
    assert a == all[..m] && b == all[m..n] && c == all[n..];
    assert d == all[..m] && e == all[m..n] && f == all[n..];
  }

  /** First blocks tell everything but the associated data and the bits of the data. */
  lemma SameFirst(x: Input, y: Input)
    requires Proper(x) && Proper(y) && FirstBlock(x) == FirstBlock(y)
    ensures x.tlen == y.tlen && x.l == y.l && x.iv == y.iv && (x.adata == [] <==> y.adata == [])
    ensures |Flat(x.data)| == |Flat(y.data)|
  {
    hide NumberBits, Flags, TagLength, Canonical, FirstBlock, BlockBits, Flat, Packed, TwoTo;
    var n, m := |Flat(x.data)| / 8, |Flat(y.data)| / 8;
    FirstBlockBits(x);
    FirstBlockBits(y);
    FrontParts(NumberBits(Flags(x), 8), Flat(x.iv) + NumberBits(n, 8 * x.l),
               NumberBits(Flags(y), 8), Flat(y.iv) + NumberBits(m, 8 * y.l));
    Moved(NumberBits(Flags(x), 8), Flat(x.iv), NumberBits(n, 8 * x.l));
    Moved(NumberBits(Flags(y), 8), Flat(y.iv), NumberBits(m, 8 * y.l));
    SameFlags(x, y);
    FrontParts(Flat(x.iv), NumberBits(n, 8 * x.l), Flat(y.iv), NumberBits(m, 8 * y.l));
    SameNumber(n, m, 8 * x.l);
    FlatPacked(x.iv);
    FlatPacked(y.iv);
  }

  lemma FrontParts(a: Bits, b: Bits, c: Bits, d: Bits)
    requires |a| == |c|
    ensures a + b == c + d ==> a == c && b == d
  {
    if a + b == c + d {
      assert a == (a + b)[..|a|] && c == (c + d)[..|a|];
      assert b == (a + b)[|a|..] && d == (c + d)[|a|..];
    }
  }

  // The blocks behind the first

  /** The blocks of an array, the last one filled up with zeros. */
  function BlocksOf(m: seq<Entry>): seq<Block> {
    seq((|m| + 3) / 4, i requires 0 <= i < (|m| + 3) / 4 => BlockAt(m, 4 * i))
  }

  /** All that is given to the chain. */
  function Fed(x: Input): seq<Block>
    requires x.Valid()
  {
    [FirstBlock(x)] + BlocksOf(Authenticated(x)) + BlocksOf(x.data)
  }

  /** The bits of an array are those of its blocks. */
  lemma BitOfBlock(m: seq<Entry>, i: nat)
    requires Canonical(m) && i < |Flat(m)|
    ensures i / 128 < |BlocksOf(m)| && Flat(m)[i] == BlocksOf(m)[i / 128][i % 128 / 32][i % 128 % 32]
  {
    FlatBit(m, i);
    hide Flat, Canonical;
    BitPlace(i);
    InBlock(m, i / 32);
    assert i / 128 == i / 32 / 4;
  }

  lemma InBlock(m: seq<Entry>, k: nat)
    requires k < |m|
    ensures k / 4 < |BlocksOf(m)| && BlocksOf(m)[k / 4][k % 4] == m[k].word
  {
    var j, r := k / 4, k % 4;
    assert k == 4 * j + r;
    assert r == 0 || r == 1 || r == 2 || r == 3;
  }

  /** Arrays of the same blocks begin with the same bits. */
  lemma SameFront(a: seq<Entry>, b: seq<Entry>, n: nat)
    requires Canonical(a) && Canonical(b) && BlocksOf(a) == BlocksOf(b) && n <= |Flat(a)| && n <= |Flat(b)|
    ensures Flat(a)[..n] == Flat(b)[..n]
  {
    hide Flat, Canonical, BlocksOf;
    forall i | 0 <= i < n ensures Flat(a)[i] == Flat(b)[i] {
      BitOfBlock(a, i);
      BitOfBlock(b, i);
    }
  }

  /** They are the same if they have the same number of bits. */
  lemma SameArray(a: seq<Entry>, b: seq<Entry>)
    requires Canonical(a) && Canonical(b) && BlocksOf(a) == BlocksOf(b) && |Flat(a)| == |Flat(b)|
    ensures a == b
  {
    hide Flat, Canonical, BlocksOf, Packed;
    var n := |Flat(a)|;
    SameFront(a, b, n);
    assert Flat(a)[..n] == Flat(a) && Flat(b)[..n] == Flat(b);
    FlatPacked(a);
    FlatPacked(b);
  }

  /** Associated data with its length in front. */
  function Prefixed(a: seq<Entry>): seq<Entry> {
    Packed(LengthPrefix(|Flat(a)|) + Flat(a))
  }

  /** Data of whole bytes, some but fewer than 2^32. */
  predicate SomeBytes(a: seq<Entry>) {
    Canonical(a) && |Flat(a)| % 8 == 0 && 0 < |Flat(a)| / 8 < 0x1_0000_0000
  }

  /** The length is said in two bytes, or, behind two bytes that say no such length, in four. */
  lemma PrefixValue(bits: nat)
    requires bits % 8 == 0 && bits / 8 < 0x1_0000_0000
    ensures var n := bits / 8;
      var p := LengthPrefix(bits);
      && |p| >= 16 && Value(p[..16]) == (if n <= 65279 then n else 65534)
      && (n > 65279 ==> |p| == 48 && Value(p[16..]) == n)
  {
    hide NumberBits, Value, TwoTo;
    var n := bits / 8;
    assert bits == 8 * n;
    Powers();
    var a, b := NumberBits(65534, 16), NumberBits(n, 32);
    Below(65534, 16);
    Below(n, 32);
    assert (a + b)[..16] == a && (a + b)[16..] == b;
    if n <= 65279 {
      Below(n, 16);
      assert NumberBits(n, 16)[..16] == NumberBits(n, 16);
    }
  }

  lemma PrefixedBits(a: seq<Entry>)
    requires SomeBytes(a)
    ensures Canonical(Prefixed(a)) && Flat(Prefixed(a)) == LengthPrefix(|Flat(a)|) + Flat(a)
  {
    hide Flat, Packed, Canonical, LengthPrefix;
    PackedCanonical(LengthPrefix(|Flat(a)|) + Flat(a));
  }

  /** The blocks tell the length of the associated data. */
  lemma SameLength(a: seq<Entry>, b: seq<Entry>)
    requires SomeBytes(a) && SomeBytes(b) && BlocksOf(Prefixed(a)) == BlocksOf(Prefixed(b))
    ensures |Flat(a)| == |Flat(b)|
  {
    hide Flat, Packed, Canonical, LengthPrefix, BlocksOf, Prefixed, Value;
    PrefixedBits(a);
    PrefixedBits(b);
    var p, q := LengthPrefix(|Flat(a)|), LengthPrefix(|Flat(b)|);
    PrefixValue(|Flat(a)|);
    PrefixValue(|Flat(b)|);
    SameFront(Prefixed(a), Prefixed(b), 16);
    FrontOf(p, Flat(a), 16);
    FrontOf(q, Flat(b), 16);
    if |Flat(a)| / 8 > 65279 && |Flat(b)| / 8 > 65279 {
      SameFront(Prefixed(a), Prefixed(b), 48);
      FrontOf(p, Flat(a), 48);
      FrontOf(q, Flat(b), 48);
      assert p[..48] == p && q[..48] == q;
    }
  }

  lemma FrontOf(p: Bits, b: Bits, n: nat)
    requires n <= |p|
    ensures (p + b)[..n] == p[..n]
  {
  }

  /** And so all of it. */
  lemma SameAssociated(a: seq<Entry>, b: seq<Entry>)
    requires SomeBytes(a) && SomeBytes(b) && BlocksOf(Prefixed(a)) == BlocksOf(Prefixed(b))
    ensures a == b
  {
    hide Flat, Packed, Canonical, LengthPrefix, BlocksOf, Prefixed;
    SameLength(a, b);
    PrefixedBits(a);
    PrefixedBits(b);
    SameArray(Prefixed(a), Prefixed(b));
    var p := LengthPrefix(|Flat(a)|);
    FrontParts(p, Flat(a), p, Flat(b));
    FlatPacked(a);
    FlatPacked(b);
  }

  lemma SameCount(a: seq<Entry>, b: seq<Entry>)
    requires Canonical(a) && Canonical(b) && |Flat(a)| == |Flat(b)|
    ensures |BlocksOf(a)| == |BlocksOf(b)|
  {
    hide Flat, Canonical;
    LengthBound(a);
    LengthBound(b);
    assert a == [] || b == [] ==> |a| == |b| by { NoBits(); }
  }

  lemma SplitBlocks(f: Block, a: seq<Block>, b: seq<Block>, g: Block, c: seq<Block>, d: seq<Block>)
    requires |b| == |d| && [f] + a + b == [g] + c + d
    ensures f == g && a == c && b == d
  {
    var s := [f] + a + b;
    var n := |s| - |b|;
    assert s[0] == f && s[1..n] == a && s[n..] == b;
    assert s[0] == g && s[1..n] == c && s[n..] == d;
  }

  /** What is given to the chain determines everything that is authenticated. */
  lemma FedDetermines(x: Input, y: Input)
    requires Proper(x) && Proper(y) && Fed(x) == Fed(y)
    ensures x == y
  {
    hide FirstBlock, BlocksOf, Flat, Canonical, LengthPrefix, Packed, TwoTo, NonceFits, TagLength;
    assert Fed(x)[0] == FirstBlock(x) && Fed(y)[0] == FirstBlock(y);
    SameFirst(x, y);
    SameCount(x.data, y.data);
    SplitBlocks(FirstBlock(x), BlocksOf(Authenticated(x)), BlocksOf(x.data),
                FirstBlock(y), BlocksOf(Authenticated(y)), BlocksOf(y.data));
    SameArray(x.data, y.data);
    if x.adata != [] {
      HasBytes(x.adata);
      HasBytes(y.adata);
      SameAssociated(x.adata, y.adata);
    }
  }

  lemma HasBytes(a: seq<Entry>)
    requires Canonical(a) && a != [] && |Flat(a)| % 8 == 0 && |Flat(a)| / 8 < 0x1_0000_0000
    ensures SomeBytes(a)
  {
    hide Flat, Canonical;
    LengthBound(a);
  }
}
