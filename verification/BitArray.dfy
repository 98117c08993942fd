/** sjcl's packed bit arrays and that their operations are those of bit sequences.  A word is its 32
    bits, the highest first; an entry also says how many of them count. */
module BitArray {
  import opened Options

  type Bits = seq<bool>
  type Word = w: seq<bool> | |w| == 32 witness seq(32, _ => false)

  function Zeros(n: nat): (z: Bits)
    ensures |z| == n && forall i :: 0 <= i < n ==> !z[i]
  {
    seq(n, _ => false)
  }

  const ZERO: Word := Zeros(32)

  /** An entry of an array: only the last one may be partial. */
  datatype Entry = Entry(word: Word, part: nat)

  function Full(w: Word): Entry {
    Entry(w, 32)
  }

  /** The unsigned right shift. */
  function Shr(w: Word, n: nat): Word
    requires n <= 32
  {
    Zeros(n) + w[..32 - n]
  }

  function Shl(w: Word, n: nat): Word
    requires n <= 32
  {
    w[n..] + Zeros(n)
  }

  function Or(v: Word, w: Word): Word {
    seq(32, i requires 0 <= i < 32 => v[i] || w[i])
  }

  predicate ZeroFrom(w: Word, n: nat) {
    forall i :: n <= i < 32 ==> !w[i]
  }

  predicate GoodEntry(e: Entry, last: bool) {
    if last then 1 <= e.part <= 32 && ZeroFrom(e.word, e.part) else e.part == 32
  }

  /** Only the last entry is partial, and its unused bits are zero. */
  predicate Canonical(a: seq<Entry>) {
    forall i :: 0 <= i < |a| ==> GoodEntry(a[i], i == |a| - 1)
  }

  predicate AllFull(a: seq<Entry>) {
    forall i :: 0 <= i < |a| ==> a[i].part == 32
  }

  /** The bits of an array. */
  function Flat(a: seq<Entry>): Bits {
    if a == [] then [] else a[0].word[..if a[0].part <= 32 then a[0].part else 32] + Flat(a[1..])
  }

  /** The array of some bits. */
  function Packed(b: Bits): seq<Entry> {
    if b == [] then []
    else if |b| <= 32 then [Entry(b + Zeros(32 - |b|), |b|)]
    else [Full(b[..32])] + Packed(b[32..])
  }

  lemma {:induction false} PackedCanonical(b: Bits)
    ensures Canonical(Packed(b)) && Flat(Packed(b)) == b
  {
    if |b| > 32 {
      PackedCanonical(b[32..]);
      var p := Packed(b);
      assert p[1..] == Packed(b[32..]);
      forall i | 0 <= i < |p| ensures GoodEntry(p[i], i == |p| - 1) {
        if i > 0 {
          assert p[i] == p[1..][i - 1];
        } else {
          PackedSome(b[32..]);
        }
      }
      assert b == b[..32] + b[32..];
    } else if b != [] {
      var p := Packed(b);
      assert p[1..] == [];
    }
  }

  lemma PackedSome(b: Bits)
    requires b != []
    ensures Packed(b) != []
  {
  }

  /** A canonical array is determined by its bits. */
  lemma {:induction false} FlatPacked(a: seq<Entry>)
    requires Canonical(a)
    ensures Packed(Flat(a)) == a
    ensures a != [] ==> |Flat(a)| == 32 * (|a| - 1) + a[|a| - 1].part
  {
    if |a| == 1 {
      var e := a[0];
      assert a[1..] == [];
      assert Flat(a) == e.word[..e.part];
      assert e.word[..e.part] + Zeros(32 - e.part) == e.word;
    } else if a != [] {
      var t := a[1..];
      assert Canonical(t) by {
        forall i | 0 <= i < |t| ensures GoodEntry(t[i], i == |t| - 1) {
          assert GoodEntry(a[i + 1], i + 1 == |a| - 1);
        }
      }
      FlatPacked(t);
      assert GoodEntry(a[0], false);
      assert a[0].word[..32] == a[0].word;
      assert Flat(a)[..32] == a[0].word && Flat(a)[32..] == Flat(t);
      assert a == [a[0]] + t && t[|t| - 1] == a[|a| - 1];
    }
  }

  lemma {:induction false} FlatAppend(a: seq<Entry>, b: seq<Entry>)
    ensures Flat(a + b) == Flat(a) + Flat(b)
  {
    if a == [] {
      assert a + b == b;
    } else {
      assert (a + b)[1..] == a[1..] + b;
      FlatAppend(a[1..], b);
    }
  }

  lemma FlatOne(e: Entry)
    requires e.part <= 32
    ensures Flat([e]) == e.word[..e.part]
  {
    assert [e][1..] == [];
  }

  /** The length in bits. */
  function BitLength(a: seq<Entry>): (n: nat) {
    if a == [] then 0 else 32 * (|a| - 1) + a[|a| - 1].part
  }

  lemma BitLengthIs(a: seq<Entry>)
    requires Canonical(a)
    ensures BitLength(a) == |Flat(a)|
  {
    FlatPacked(a);
  }

  /** The carried bits in front of an array, when they are more than one word. */
  function Lead(j: Word, f: nat): Bits {
    if f <= 32 then j[..f] else j + Zeros(f - 32)
  }

  /** One step of the carry loop: what was carried and the front of a word, and the rest to carry. */
  lemma CarryStep(j: Word, w: Word, f: nat)
    requires 0 < f < 32 && ZeroFrom(j, f)
    ensures Or(j, Shr(w, f)) + Shl(w, 32 - f)[..f] == j[..f] + w
    ensures ZeroFrom(Shl(w, 32 - f), f)
  {
    var o := Or(j, Shr(w, f));
    forall i | 0 <= i < 32 ensures o[i] == (j[..f] + w)[i] {
    }
    assert o == (j[..f] + w)[..32];
    assert Shl(w, 32 - f)[..f] == w[32 - f..];
  }

  /** All 32 bits of every word. */
  function AllBits(g: seq<Entry>): Bits {
    if g == [] then [] else AllBits(g[..|g| - 1]) + g[|g| - 1].word
  }

  /** The part of the last entry, or a full word for an empty array. */
  function LastPart(g: seq<Entry>): nat {
    if g == [] then 32 else g[|g| - 1].part
  }

  lemma {:induction false} FullBits(i: seq<Entry>)
    requires AllFull(i)
    ensures Flat(i) == AllBits(i) && |AllBits(i)| == 32 * |i|
  {
    if i != [] {
      var n := |i| - 1;
      assert i == i[..n] + [i[n]];
      FlatAppend(i[..n], [i[n]]);
      FlatOne(i[n]);
      FullBits(i[..n]);
      assert i[n].word[..32] == i[n].word;
    }
  }

  lemma Moved(a: Bits, b: Bits, c: Bits)
    ensures a + (b + c) == a + b + c
  {
  }

  lemma LastGood(g: seq<Entry>)
    requires Canonical(g) && g != []
    ensures 1 <= LastPart(g) <= 32 && ZeroFrom(g[|g| - 1].word, LastPart(g))
    ensures AllFull(g[..|g| - 1])
  {
    hide ZeroFrom;
    assert GoodEntry(g[|g| - 1], true);
    var front := g[..|g| - 1];
    forall k | 0 <= k < |front| ensures front[k].part == 32 {
      assert GoodEntry(g[k], false);
    }
  }

  lemma SplitLast(g: seq<Entry>)
    requires g != [] && LastPart(g) <= 32
    ensures Flat(g) == Flat(g[..|g| - 1]) + g[|g| - 1].word[..LastPart(g)]
  {
    hide Flat;
    var front, e := g[..|g| - 1], g[|g| - 1];
    assert g == front + [e];
    FlatAppend(front, [e]);
    FlatOne(e);
  }

  lemma Unused(w: Word, n: nat)
    requires n <= 32 && ZeroFrom(w, n)
    ensures w == w[..n] + Zeros(32 - n)
  {
  }

  /** The bits of an array are those of its words, less the unused ones, which are zero. */
  lemma BitsOfWords(g: seq<Entry>)
    requires Canonical(g)
    ensures LastPart(g) <= 32 && |AllBits(g)| == 32 * |g|
    ensures AllBits(g) == Flat(g) + Zeros(32 - LastPart(g))
  {
    if g != [] {
      LastGood(g);
      SplitLast(g);
      hide Flat, Canonical, ZeroFrom, Zeros;
      var front, e := g[..|g| - 1], g[|g| - 1];
      FullBits(front);
      Unused(e.word, e.part);
      Moved(Flat(front), e.word[..e.part], Zeros(32 - e.part));
    } else {
      NoBits();
      assert Zeros(0) == [];
    }
  }

  /** An array is packed if all its entries but the last are full, and that one is zero where unused. */
  lemma Ending(front: seq<Entry>, e: Entry, b: Bits)
    requires AllFull(front) && 1 <= e.part <= 32 && ZeroFrom(e.word, e.part)
    requires Flat(front) + e.word[..e.part] == b
    ensures front + [e] == Packed(b)
  {
    EndCanonical(front, e);
    hide Flat, Packed, Canonical, ZeroFrom;
    FlatAppend(front, [e]);
    FlatOne(e);
    FlatPacked(front + [e]);
  }

  lemma EndCanonical(i: seq<Entry>, e: Entry)
    requires AllFull(i) && GoodEntry(e, true)
    ensures Canonical(i + [e])
  {
  }

  /** Cutting zeros off the end that reach into a word. */
  lemma Cut(a: Bits, w: Word, c: Bits, s: Bits, z: nat)
    requires a + w + c == s + Zeros(z) && |c| <= z < |c| + 32
    ensures a + w[..32 - (z - |c|)] == s && ZeroFrom(w, 32 - (z - |c|))
  {
    var n := 32 - (z - |c|);
    var all := a + w + c;
    assert |s| == |a| + n;
    assert s == all[..|s|] == (a + w)[..|s|];
    forall k | n <= k < 32 ensures !w[k] {
      assert w[k] == all[|a| + k] == (s + Zeros(z))[|a| + k] == Zeros(z)[|a| + k - |s|];
    }
  }

  /** Cutting zeros off the end that stay within the carried bits. */
  lemma CutCarried(a: Bits, j: Word, f: nat, s: Bits, z: nat)
    requires f <= 32 && a + j[..f] == s + Zeros(z) && z <= f && ZeroFrom(j, f)
    ensures a + j[..f - z] == s && ZeroFrom(j, f - z)
  {
    var all := a + j[..f];
    assert s == all[..|all| - z];
    forall k | f - z <= k < 32 ensures !j[k] {
      if k < f {
        assert j[k] == all[|a| + k] == Zeros(z)[|a| + k - |s|];
      }
    }
  }

  /** The end of the carry loop when the last bits overflow into the carried word. */
  lemma FinishOver(i: seq<Entry>, j: Word, f: nat, g: seq<Entry>, start: Bits)
    requires AllFull(i) && 0 < f < 32 && ZeroFrom(j, f) && Canonical(g)
    requires Flat(i) + j[..f] == start + AllBits(g) && f + LastPart(g) > 32
    ensures LastPart(g) <= 32 && i + [Entry(j, f + LastPart(g) - 32)] == Packed(start + Flat(g))
  {
    hide Flat, AllBits, Packed, Canonical, ZeroFrom, Zeros, AllFull;
    BitsOfWords(g);
    var z := 32 - LastPart(g);
    Moved(start, Flat(g), Zeros(z));
    CutCarried(Flat(i), j, f, start + Flat(g), z);
    Ending(i, Entry(j, f - z), start + Flat(g));
  }

  /** And when they end in the last word written, which is then partial. */
  lemma FinishWithin(i: seq<Entry>, j: Word, f: nat, g: seq<Entry>, start: Bits, r: seq<Entry>, bits: Bits)
    requires AllFull(i) && i != [] && 0 < f < 32 && Canonical(g) && g != []
    requires Flat(i) + j[..f] == start + AllBits(g) && f + LastPart(g) <= 32
    requires r == i[..|i| - 1] + [Entry(i[|i| - 1].word, f + LastPart(g))] && bits == start + Flat(g)
    ensures r == Packed(bits)
  {
    hide *;
    var front, w := i[..|i| - 1], i[|i| - 1].word;
    FrontOfFull(i);
    PartAtLeastOne(g);
    BitsOfWords(g);
    var n := f + LastPart(g);
    CutWords(Flat(i), Flat(front), w, j[..f], start, AllBits(g), Flat(g), 32 - LastPart(g), n);
    Ending(front, Entry(w, n), bits);
  }

  lemma CutWords(all: Bits, a: Bits, w: Word, c: Bits, start: Bits, words: Bits, b: Bits, z: nat, n: nat)
    requires all == a + w && all + c == start + words && words == b + Zeros(z)
    requires 0 < n <= 32 && n == 32 + |c| - z
    ensures a + w[..n] == start + b && ZeroFrom(w, n)
  {
    hide Zeros, ZeroFrom;
    Moved(start, b, Zeros(z));
    Cut(a, w, c, start + b, z);
  }

  lemma FrontOfFull(i: seq<Entry>)
    requires AllFull(i) && i != []
    ensures AllFull(i[..|i| - 1]) && Flat(i) == Flat(i[..|i| - 1]) + i[|i| - 1].word
  {
    var w := i[|i| - 1].word;
    SplitLast(i);
    assert w[..32] == w;
  }

  lemma PartAtLeastOne(g: seq<Entry>)
    requires Canonical(g) && g != []
    ensures 1 <= LastPart(g) <= 32
  {
    LastGood(g);
  }

  /** The carry loop: the words of g behind those of i and f carried bits. */
  method Shift(g: seq<Entry>, shift: nat, carry: Word, i0: seq<Entry>) returns (r: seq<Entry>)
    requires Canonical(g) && AllFull(i0) && (shift < 32 ==> ZeroFrom(carry, shift))
    ensures r == Packed(Flat(i0) + Lead(carry, shift) + Flat(g))
  {
    hide Shr, Shl, Or, Flat, AllBits, Packed;
    var f: nat, j: Word, i := shift, carry, i0;
    ghost var start := Flat(i0) + Lead(carry, shift);
    while 32 <= f
      invariant AllFull(i) && Flat(i) + Lead(j, f) == start
      invariant f < 32 ==> ZeroFrom(j, f)
    {
      FlatAppend(i, [Full(j)]);
      FlatOne(Full(j));
      LeadStep(Flat(i), j, f);
      i, j := i + [Full(j)], ZERO;
      f := f - 32;
    }
    if f == 0 {
      FlatAppend(i, g);
      assert Flat(i) == start;
      FullFront(i, g);
      FlatPacked(i + g);
      return i + g;
    }
    NoBits();
    for h := 0 to |g|
      invariant AllFull(i) && |i| >= h && ZeroFrom(j, f)
      invariant Flat(i) + j[..f] == start + AllBits(g[..h])
    {
      CarryStep(j, g[h].word, f);
      var o := Or(j, Shr(g[h].word, f));
      FlatAppend(i, [Full(o)]);
      FlatOne(Full(o));
      MoreBits(g, h);
      CarryRegroup(Flat(i), o, Shl(g[h].word, 32 - f)[..f], j[..f], g[h].word, start, AllBits(g[..h]));
      i := i + [Full(o)];
      j := Shl(g[h].word, 32 - f);
    }
    assert g[..|g|] == g;
    var part := LastPart(g);
    if 32 < f + part {
      FinishOver(i, j, f, g, start);
      r := i + [Entry(j, f + part - 32)];
    } else {
      r := i[..|i| - 1] + [Entry(i[|i| - 1].word, f + part)];
      FinishWithin(i, j, f, g, start, r, start + Flat(g));
    }
  }

  lemma LeadStep(b: Bits, j: Word, f: nat)
    requires f >= 32
    ensures b + Full(j).word[..Full(j).part] + Lead(ZERO, f - 32) == b + Lead(j, f)
  {
    if f - 32 <= 32 {
      assert ZERO[..f - 32] == Zeros(f - 32);
      assert f == 32 ==> Zeros(0) == [];
    } else {
      assert ZERO + Zeros(f - 64) == Zeros(f - 32);
    }
    assert j[..32] == j;
    assert b + j + Zeros(f - 32) == b + (j + Zeros(f - 32));
  }

  lemma FullFront(i: seq<Entry>, g: seq<Entry>)
    requires AllFull(i) && Canonical(g)
    ensures Canonical(i + g)
  {
    var r := i + g;
    forall k | 0 <= k < |r| ensures GoodEntry(r[k], k == |r| - 1) {
      if k >= |i| {
        assert GoodEntry(g[k - |i|], k - |i| == |g| - 1);
      }
    }
  }

  lemma NoBits()
    ensures AllBits([]) == [] && Flat([]) == []
  {
  }

  lemma MoreBits(g: seq<Entry>, h: nat)
    requires h < |g|
    ensures AllBits(g[..h + 1]) == AllBits(g[..h]) + g[h].word
  {
    assert g[..h + 1][..h] == g[..h];
  }

  lemma CarryRegroup(b: Bits, o: Word, rest: Bits, carried: Bits, w: Word, start: Bits, done: Bits)
    requires o + rest == carried + w && b + carried == start + done
    ensures b + Full(o).word[..Full(o).part] + rest == start + (done + w)
  {
    assert o[..32] == o;
    assert b + o + rest == b + (o + rest) == (b + carried) + w == start + (done + w);
  }

  /** Concatenation is that of the bits. */
  method Concat(f: seq<Entry>, e: seq<Entry>) returns (r: seq<Entry>)
    requires Canonical(f) && Canonical(e)
    ensures r == Packed(Flat(f) + Flat(e))
  {
    if |f| == 0 || |e| == 0 {
      hide Packed;
      NoBits();
      assert f + e == if f == [] then e else f;
      assert Flat(f + e) == Flat(f) + Flat(e);
      FlatPacked(f + e);
      return f + e;
    }
    LastGood(f);
    SplitLast(f);
    hide Flat, Packed, AllBits, ZeroFrom;
    var h := f[|f| - 1];
    if h.part == 32 {
      assert AllFull(f);
      FullFront(f, e);
      FlatAppend(f, e);
      FlatPacked(f + e);
      return f + e;
    }
    r := Shift(e, h.part, h.word, f[..|f| - 1]);
  }

  /** A word with all but its first d bits cleared. */
  function Masked(w: Word, d: nat): Word
    requires d <= 32
  {
    w[..d] + Zeros(32 - d)
  }

  lemma {:induction false} FlatTake(e: seq<Entry>, k: nat)
    requires Canonical(e) && k < |e|
    ensures AllFull(e[..k]) && |Flat(e[..k])| == 32 * k
    ensures Flat(e) == Flat(e[..k]) + Flat(e[k..])
  {
    assert e == e[..k] + e[k..];
    FlatAppend(e[..k], e[k..]);
    forall i | 0 <= i < k ensures e[..k][i].part == 32 {
      assert GoodEntry(e[i], false);
    }
    FullBits(e[..k]);
  }

  lemma TailCanonical(e: seq<Entry>, k: nat)
    requires Canonical(e) && k <= |e|
    ensures Canonical(e[k..])
  {
    var t := e[k..];
    forall i | 0 <= i < |t| ensures GoodEntry(t[i], i == |t| - 1) {
      assert GoodEntry(e[k + i], k + i == |e| - 1);
    }
  }

  /** Where the program's slice puts an index: a negative one counts from the end. */
  function SliceIndex(length: nat, k: int): (i: nat)
    ensures i <= length
  {
    if k < 0 then (if length + k > 0 then length + k else 0) else if k < length then k else length
  }

  /** A number of bits in whole words, rounded up; a negative one is thereby cut towards zero. */
  function Ceil32(bits: int): int {
    (bits + 31) / 32
  }

  /** The number of bits left when a negative number of them is asked for: from 32 up, it is counted
      back from the end of the last word. */
  function BackLength(length: nat, bits: int): nat {
    if bits <= -32 && 32 * length + bits > 0 then 32 * length + bits else 0
  }

  /** What clamping makes of an array. */
  function Clamped(e: seq<Entry>, bits: int): seq<Entry>
    requires Canonical(e)
  {
    LengthBound(e);
    if bits < 0 then Packed(Flat(e)[..BackLength(|e|, bits)])
    else if bits <= |Flat(e)| then Packed(Flat(e)[..bits])
    else if bits < 32 * |e| then Packed(Flat(e) + Zeros(bits - |Flat(e)|))
    else e
  }

  /** Clamping takes the first bits when there are so many.  A greater length within the last word is
      filled up with zeros, unless it is that of the whole word, which changes nothing. */
  method Clamp(e: seq<Entry>, bits: int) returns (r: seq<Entry>)
    requires Canonical(e)
    ensures r == Clamped(e, bits)
    ensures 0 <= bits <= |Flat(e)| ==> r == Packed(Flat(e)[..bits])
  {
    hide Packed, Flat, Canonical, Masked;
    LengthBound(e);
    if 32 * |e| < bits {
      return e;
    }
    var n := SliceIndex(|e|, Ceil32(bits));
    r := e[..n];
    var d := bits % 32;
    Rounded(bits);
    if n > 0 && d != 0 {
      assert r[..n - 1] == e[..n - 1];
      if bits > |Flat(e)| {
        ClampFilled(e, n - 1, d);
      } else {
        ClampPartial(e, n - 1, d);
      }
      r := r[..n - 1] + [Entry(Masked(r[n - 1].word, d), d)];
    } else if bits <= |Flat(e)| {
      ClampWhole(e, n);
    }
  }

  /** The last entry, made longer. */
  lemma ClampFilled(e: seq<Entry>, k: nat, d: nat)
    requires Canonical(e) && k < |e| && 0 < d < 32 && |Flat(e)| < 32 * k + d
    ensures e[..k] + [Entry(Masked(e[k].word, d), d)] == Packed(Flat(e) + Zeros(32 * k + d - |Flat(e)|))
  {
    var front, w, part := e[..k], e[k].word, e[k].part;
    FlatPacked(e);
    assert k == |e| - 1;
    FlatTake(e, k);
    assert GoodEntry(e[k], true);
    assert e[k..] == [e[k]];
    FlatOne(e[k]);
    assert |Flat(e)| == 32 * k + part;
    hide Flat, Packed, Canonical, AllFull;
    var m := Masked(w, d);
    MaskedFilled(w, d, part);
    assert Flat(front) + w[..part] + Zeros(d - part) == Flat(front) + m[..d];
    Ending(front, Entry(m, d), Flat(front) + m[..d]);
  }

  lemma MaskedFilled(w: Word, d: nat, part: nat)
    requires part <= d <= 32 && ZeroFrom(w, part)
    ensures Masked(w, d)[..d] == w[..part] + Zeros(d - part) && ZeroFrom(Masked(w, d), d)
  {
  }

  lemma LengthBound(e: seq<Entry>)
    requires Canonical(e)
    ensures |Flat(e)| <= 32 * |e| && (e != [] ==> |Flat(e)| > 32 * (|e| - 1))
  {
    FlatPacked(e);
    if e != [] {
      LastGood(e);
    }
  }

  lemma Rounded(bits: int)
    ensures var n, d := Ceil32(bits), bits % 32;
      if d == 0 then bits == 32 * n else bits == 32 * (n - 1) + d
  {
  }

  lemma ClampPartial(e: seq<Entry>, k: nat, d: nat)
    requires Canonical(e) && k < |e| && 0 < d < 32 && 32 * k + d <= |Flat(e)|
    ensures e[..k] + [Entry(Masked(e[k].word, d), d)] == Packed(Flat(e)[..32 * k + d])
  {
    var front, w := e[..k], e[k].word;
    FlatTake(e, k);
    assert GoodEntry(e[k], k == |e| - 1);
    EntryFront(e[k..]);
    LengthOf(e, k);
    var m := Masked(w, d);
    MaskedFront(w, d, e[k].part);
    FrontThen(Flat(front), w[..e[k].part], Flat(e[k + 1..]), d);
    assert e[k..][1..] == e[k + 1..];
    hide *;
    Ending(front, Entry(m, d), Flat(front) + m[..d]);
  }

  lemma FrontThen(a: Bits, b: Bits, c: Bits, d: nat)
    requires d <= |b|
    ensures (a + (b + c))[..|a| + d] == a + b[..d]
  {
  }

  lemma MaskedFront(w: Word, d: nat, part: nat)
    requires d <= part <= 32
    ensures Masked(w, d)[..d] == w[..part][..d] && ZeroFrom(Masked(w, d), d)
  {
  }

  lemma LengthOf(e: seq<Entry>, k: nat)
    requires Canonical(e) && k < |e|
    ensures |Flat(e)| <= 32 * k + e[k].part || k < |e| - 1
    ensures k < |e| - 1 ==> e[k].part == 32
  {
    FlatPacked(e);
    assert GoodEntry(e[k], k == |e| - 1);
  }

  lemma EntryFront(a: seq<Entry>)
    requires a != [] && a[0].part <= 32
    ensures Flat(a) == a[0].word[..a[0].part] + Flat(a[1..])
  {
  }

  lemma ClampWhole(e: seq<Entry>, k: nat)
    requires Canonical(e) && k <= |e| && 32 * k <= |Flat(e)|
    ensures e[..k] == Packed(Flat(e)[..32 * k])
  {
    if k < |e| {
      FlatTake(e, k);
      var front := e[..k];
      assert Flat(e)[..32 * k] == Flat(front);
      assert Canonical(front) by { FullFront(front, []); assert front + [] == front; }
      FlatPacked(front);
    } else {
      FlatPacked(e);
      if e != [] {
        LastGood(e);
      }
      assert e[..k] == e && Flat(e)[..32 * k] == Flat(e);
    }
  }

  /** Where a slice starts: before the first bit, it is counted back from the end in whole words, and
      then forward by the bits left over. */
  function SliceStart(length: nat, from: int): (i: nat) {
    if from < 0 then 32 * SliceIndex(length, Ceil32(from)) + from % 32 else from
  }

  /** The bits from a place on. */
  function Sliced(e: seq<Entry>, from: int): Bits {
    var start := SliceStart(|e|, from);
    if start <= |Flat(e)| then Flat(e)[start..] else []
  }

  /** A slice is that of the bits, up to an end which is treated as clamping treats it. */
  method BitSlice(e: seq<Entry>, from: int, to: Option<int>) returns (r: seq<Entry>)
    requires Canonical(e)
    ensures Canonical(Packed(Sliced(e, from)))
    ensures to.None? ==> r == Packed(Sliced(e, from))
    ensures to.Some? ==> r == Clamped(Packed(Sliced(e, from)), to.value - from)
    ensures to.Some? && 0 <= from <= to.value <= |Flat(e)| ==> r == Packed(Flat(e)[from..to.value])
  {
    hide Packed, Flat, Canonical, AllFull, ZeroFrom, Zeros, Clamped;
    var k := SliceIndex(|e|, if from < 0 then Ceil32(from) else from / 32);
    SliceBits(e, from, k);
    RestCanonical(e, k);
    ZeroCarry();
    var t := Shift(e[k..], 32 - from % 32, ZERO, []);
    r := t[1..];
    PackedCanonical(Sliced(e, from));
    if to.Some? {
      if 0 <= from <= to.value <= |Flat(e)| {
        SliceClamp(e, from, to.value);
      }
      r := Clamp(r, to.value - from);
    }
  }

  lemma ZeroCarry()
    ensures AllFull([]) && forall s :: 0 <= s <= 32 ==> ZeroFrom(ZERO, s)
  {
  }

  lemma RestCanonical(e: seq<Entry>, k: nat)
    requires Canonical(e) && k <= |e|
    ensures Canonical(e[k..])
  {
    TailCanonical(e, k);
  }

  lemma SliceClamp(e: seq<Entry>, from: nat, to: nat)
    requires from <= to <= |Flat(e)|
    ensures var p := Packed(Flat(e)[from..]);
      Canonical(p) && to - from <= |Flat(p)| && Flat(p)[..to - from] == Flat(e)[from..to]
  {
    PackedCanonical(Flat(e)[from..]);
  }

  lemma SliceBits(e: seq<Entry>, from: int, k: nat)
    requires Canonical(e) && k == SliceIndex(|e|, if from < 0 then Ceil32(from) else from / 32)
    ensures var t := Packed(Flat([]) + Lead(ZERO, 32 - from % 32) + Flat(e[k..]));
      t != [] && t[1..] == Packed(Sliced(e, from))
  {
    var s := 32 - from % 32;
    LengthBound(e);
    NoBits();
    hide Canonical, Flat, Packed;
    RestBits(e, from, k);
    DroppedFirst(ZERO[..s], Flat(e[k..]), s, Sliced(e, from));
    assert Flat([]) + Lead(ZERO, s) + Flat(e[k..]) == ZERO[..s] + Flat(e[k..]);
  }

  /** The slice lies that many bits into the words from k on. */
  lemma RestBits(e: seq<Entry>, from: int, k: nat)
    requires Canonical(e) && k == SliceIndex(|e|, if from < 0 then Ceil32(from) else from / 32)
    ensures Sliced(e, from) == if from % 32 <= |Flat(e[k..])| then Flat(e[k..])[from % 32..] else []
  {
    StartIs(|e|, from, k);
    LengthBound(e);
    NoBits();
    if k < |e| {
      FlatTake(e, k);
      hide Flat, Canonical, SliceStart, AllFull;
      Behind(Flat(e[..k]), Flat(e[k..]), from % 32);
    } else {
      assert e[k..] == [];
      hide Flat, Canonical, SliceStart;
    }
  }

  lemma StartIs(length: nat, from: int, k: nat)
    requires k == SliceIndex(length, if from < 0 then Ceil32(from) else from / 32)
    ensures k < length ==> SliceStart(length, from) == 32 * k + from % 32
    ensures k == length ==> SliceStart(length, from) >= 32 * length
    ensures k == length && SliceStart(length, from) == 32 * length ==> from % 32 == 0
  {
  }

  lemma Behind(a: Bits, b: Bits, s: nat)
    ensures s <= |b| ==> (a + b)[|a| + s..] == b[s..]
  {
  }

  lemma DroppedFirst(z: Bits, b: Bits, s: nat, all: Bits)
    requires |z| == s && 1 <= s <= 32
    requires all == if 32 - s <= |b| then b[32 - s..] else []
    ensures Packed(z + b) != [] && Packed(z + b)[1..] == Packed(all)
  {
    if |z + b| <= 32 {
      assert all == [];
    } else {
      assert (z + b)[32..] == all;
    }
  }

  /** Whether arrays of equal length have no bit that differs. */
  method NoDifference(f: seq<Entry>, e: seq<Entry>) returns (same: bool)
    requires |f| == |e|
    ensures same <==> forall i :: 0 <= i < |f| ==> f[i].word == e[i].word
  {
    same := true;
    for g := 0 to |f|
      invariant same <==> forall i :: 0 <= i < g ==> f[i].word == e[i].word
    {
      same := same && f[g].word == e[g].word;
    }
  }

  /** Arrays are found equal just when they have the same bits. */
  method Equal(f: seq<Entry>, e: seq<Entry>) returns (same: bool)
    requires Canonical(f) && Canonical(e)
    ensures same <==> Flat(f) == Flat(e)
  {
    FlatPacked(f);
    FlatPacked(e);
    BitLengthIs(f);
    BitLengthIs(e);
    hide *;
    if BitLength(f) != BitLength(e) { return false; }
    SameShape(f, e);
    same := NoDifference(f, e);
    if same {
      SameEntries(f, e);
    }
  }

  lemma SameEntries(f: seq<Entry>, e: seq<Entry>)
    requires |f| == |e| && forall i :: 0 <= i < |f| ==> f[i].part == e[i].part && f[i].word == e[i].word
    ensures f == e
  {
  }

  lemma SameShape(f: seq<Entry>, e: seq<Entry>)
    requires Canonical(f) && Canonical(e) && BitLength(f) == BitLength(e)
    ensures |f| == |e| && forall i :: 0 <= i < |f| ==> f[i].part == e[i].part
  {
    if f != [] { LastGood(f); }
    if e != [] { LastGood(e); }
    forall i | 0 <= i < |f| && i < |e| ensures f[i].part == e[i].part {
      assert GoodEntry(f[i], i == |f| - 1) && GoodEntry(e[i], i == |e| - 1);
    }
  }

  // A partial word as a number: its value as a signed word, and 2^40 for each bit that counts.

  function PartialNumber(d: int, part: nat): int
    requires -0x8000_0000 <= d < 0x8000_0000 && 1 <= part <= 32
  {
    if part == 32 then d else d + 0x100_0000_0000 * part
  }

  /** Rounding, with 32 for 0. */
  function GetPartial(n: int): int {
    var r := (n + 0x80_0000_0000) / 0x100_0000_0000;
    if r == 0 then 32 else r
  }

  function ToInt32(n: int): int {
    (n + 0x8000_0000) % 0x1_0000_0000 - 0x8000_0000
  }

  /** The number keeps both, and is exact in a double. */
  lemma PartialAgain(d: int, part: nat)
    requires -0x8000_0000 <= d < 0x8000_0000 && 1 <= part <= 32
    ensures GetPartial(PartialNumber(d, part)) == part
    ensures ToInt32(PartialNumber(d, part)) == d
    ensures -0x20_0000_0000_0000 < PartialNumber(d, part) < 0x20_0000_0000_0000
  {
  }
}
