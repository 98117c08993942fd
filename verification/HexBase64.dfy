/** Hexadecimal text to base 64 and back, three hexadecimal digits to two base-64 characters. */
module HexBase64 {

  /** Hexadecimal digits and base-64 characters by their values. */
  type Nibble = n: nat | n < 16
  type Sextet = n: nat | n < 64
  type Hex = seq<Nibble>
  type Six = seq<Sextet>

  /** The character of a value, in the order of the alphabet (RFC 4648, section 4). */
  function Char(v: Sextet): char {
    if v < 26 then 'A' + v as char
    else if v < 52 then 'a' + (v - 26) as char
    else if v < 62 then '0' + (v - 52) as char
    else if v == 62 then '+' else '/'
  }

  /** Where a character is in the alphabet, or -1. */
  function IndexOf(c: char): (i: int)
    ensures -1 <= i < 64
  {
    if 'A' <= c <= 'Z' then c as int - 'A' as int
    else if 'a' <= c <= 'z' then c as int - 'a' as int + 26
    else if '0' <= c <= '9' then c as int - '0' as int + 52
    else if c == '+' then 62 else if c == '/' then 63 else -1
  }

  const ALPHABET := "ABCDEFGHIJKLMNOPQRSTUVWXYZ" + "abcdefghijklmnopqrstuvwxyz" + "0123456789+/"

  lemma CharIs(v: Sextet)
    ensures |ALPHABET| == 64 && Char(v) == ALPHABET[v]
  {
    if v < 26 {
    } else if v < 52 {
    } else {
    }
  }

  lemma IndexAgain(v: Sextet)
    ensures IndexOf(Char(v)) == v && Char(v) != '='
  {
  }

  /** A character has an index if and only if it is in the alphabet, and then that is its place. */
  lemma IndexIff(c: char)
    ensures IndexOf(c) >= 0 <==> c in ALPHABET
    ensures IndexOf(c) >= 0 ==> IndexOf(c) < |ALPHABET| && ALPHABET[IndexOf(c)] == c
  {
    CharIs(0);
    if IndexOf(c) >= 0 {
      CharIs(IndexOf(c));
      hide Char;
      CharOfIndex(c);
    }
    if c in ALPHABET {
      var v :| 0 <= v < |ALPHABET| && ALPHABET[v] == c;
      CharIs(v);
      IndexAgain(v);
    }
  }

  lemma CharOfIndex(c: char)
    requires IndexOf(c) >= 0
    ensures Char(IndexOf(c)) == c
  {
  }

  /** The two characters for the twelve bits of three digits: the first takes x and half of y, the second
      the other half of y and z. */
  function Lead(x: nat, y: nat): Sextet
    requires x < 16 && y < 16
  {
    4 * x + y / 4
  }

  function Tail(y: nat, z: nat): Sextet
    requires y < 16 && z < 16
  {
    y % 4 * 16 + z
  }

  lemma LeadTail(x: nat, y: nat, z: nat)
    requires x < 16 && y < 16 && z < 16
    ensures (x * 256 + y * 16 + z) / 64 == Lead(x, y) && (x * 256 + y * 16 + z) % 64 == Tail(y, z)
    ensures (x * 16 + y) / 4 == Lead(x, y) && (x * 16 + y) % 4 * 16 == Tail(y, 0) && 4 * x == Lead(x, 0)
  {
  }

  /** The characters for some digits; one or two left over at the end are filled up with zeros. */
  function Values(h: Hex): Six {
    if |h| == 0 then []
    else if |h| == 1 then [Lead(h[0], 0)]
    else if |h| == 2 then [Lead(h[0], h[1]), Tail(h[1], 0)]
    else [Lead(h[0], h[1])] + ([Tail(h[1], h[2])] + Values(h[3..]))
  }

  function Text(s: Six): string {
    if s == [] then "" else [Char(s[0])] + Text(s[1..])
  }

  lemma {:induction false} TextAppend(s: Six, t: Six)
    ensures Text(s + t) == Text(s) + Text(t) && |Text(s)| == |s|
  {
    hide Char;
    if s == [] {
      assert s + t == t;
    } else {
      assert (s + t)[1..] == s[1..] + t;
      TextAppend(s[1..], t);
    }
  }

  lemma {:induction false} ValuesSplit(h: Hex, k: nat)
    requires k % 3 == 0 && k <= |h|
    ensures Values(h) == Values(h[..k]) + Values(h[k..])
    decreases k
  {
    hide Values, Lead, Tail;
    if k == 0 {
      assert h[..0] == [] && h[0..] == h;
      ValuesOfNone();
    } else {
      var t, u := h[3..], h[..k];
      ValuesSplit(t, k - 3);
      assert t[..k - 3] == u[3..] && t[k - 3..] == h[k..];
      ValuesOfThree(h);
      ValuesOfThree(u);
    }
  }

  lemma ValuesOfThree(h: Hex)
    requires |h| >= 3
    ensures Values(h) == [Lead(h[0], h[1])] + ([Tail(h[1], h[2])] + Values(h[3..]))
  {
  }

  lemma ValuesOfNone()
    ensures Values([]) == []
  {
  }

  /** The digit at a place, or zero behind the last. */
  function DigitAt(h: Hex, k: nat): Nibble {
    if k < |h| then h[k] else 0
  }

  /** Six bits of the digits: those from bit 6 i on. */
  function SixBits(h: Hex, i: nat): Sextet {
    var k := i / 2 * 3;
    if i % 2 == 0 then DigitAt(h, k) * 4 + DigitAt(h, k + 1) / 4 else DigitAt(h, k + 1) % 4 * 16 + DigitAt(h, k + 2)
  }

  lemma {:induction false} ValuesAre(h: Hex, i: nat)
    ensures |Values(h)| == (2 * |h| + 2) / 3
    ensures i < |Values(h)| ==> Values(h)[i] == SixBits(h, i)
    decreases |h|
  {
    hide Lead, Tail, SixBits;
    if |h| >= 3 {
      var t := h[3..];
      ValuesAre(t, if i < 2 then 0 else i - 2);
      if i >= 2 {
        LaterBits(h, i);
      } else {
        EarlyBits(h);
      }
    } else {
      EarlyBits(h);
    }
  }

  lemma LaterBits(h: Hex, i: nat)
    requires |h| >= 3 && i >= 2
    ensures SixBits(h, i) == SixBits(h[3..], i - 2)
  {
    assert i / 2 * 3 == (i - 2) / 2 * 3 + 3;
  }

  lemma EarlyBits(h: Hex)
    ensures SixBits(h, 0) == Lead(DigitAt(h, 0), DigitAt(h, 1)) && SixBits(h, 1) == Tail(DigitAt(h, 1), DigitAt(h, 2))
  {
  }

  lemma {:induction false} TextAt(s: Six, i: nat)
    requires i < |s|
    ensures |Text(s)| == |s| && Text(s)[i] == ALPHABET[s[i]]
  {
    hide Char;
    TextAppend(s, []);
    CharIs(s[0]);
    if i > 0 {
      TextAt(s[1..], i - 1);
    }
  }

  /** A text of base 64: the characters of the alphabet for six bits each, filled up to whole groups of four. */
  predicate IsBase64(h: Hex, b: string) {
    var n := (2 * |h| + 2) / 3;
    && n <= |b| < n + 4 && |b| % 4 == 0
    && (forall i :: 0 <= i < n ==> b[i] == ALPHABET[SixBits(h, i)])
    && (forall i :: n <= i < |b| ==> b[i] == '=')
  }

  lemma TextIs(h: Hex, b: string)
    requires b == Text(Values(h)) + seq(Padding(|Values(h)|), _ => '=')
    ensures IsBase64(h, b)
  {
    hide Values, Text, SixBits;
    var s := Values(h);
    ValuesAre(h, 0);
    TextAppend(s, []);
    forall i | 0 <= i < |s| ensures b[i] == ALPHABET[SixBits(h, i)] {
      ValuesAre(h, i);
      TextAt(s, i);
    }
  }

  function Padding(n: nat): (p: nat)
    ensures (n + p) % 4 == 0 && p < 4
  {
    (4 - n % 4) % 4
  }

  /** What the next digits, three or the last few, add to the text. */
  lemma NextValues(c: Hex, a: nat, n: nat)
    requires a % 3 == 0 && a + n <= |c| && n <= 3 && (n < 3 ==> a + n == |c|)
    ensures Text(Values(c[..a + n])) == Text(Values(c[..a])) +
      if n == 3 then [Char(Lead(c[a], c[a + 1])), Char(Tail(c[a + 1], c[a + 2]))]
      else if n == 2 then [Char(Lead(c[a], c[a + 1])), Char(Tail(c[a + 1], 0))]
      else if n == 1 then [Char(Lead(c[a], 0))]
      else []
  {
    hide Lead, Tail, Char;
    var t := c[..a + n];
    ValuesSplit(t, a);
    var r := t[a..];
    assert t[..a] == c[..a] && |r| == n && forall i :: 0 <= i < n ==> r[i] == c[a + i];
    TextAppend(Values(c[..a]), Values(r));
    if n == 3 {
      assert r[3..] == [];
      assert Values(r) == [Lead(c[a], c[a + 1]), Tail(c[a + 1], c[a + 2])];
    }
    TextOfTwo(Values(r));
  }

  lemma TextOfTwo(s: Six)
    requires |s| <= 2
    ensures Text(s) == if |s| == 2 then [Char(s[0]), Char(s[1])] else if |s| == 1 then [Char(s[0])] else ""
  {
    if |s| == 2 {
      assert s[1..][1..] == [];
    }
  }

  method HexToBase64(c: Hex) returns (b: string)
    ensures b == Text(Values(c)) + seq(Padding(|Values(c)|), _ => '=')
    ensures IsBase64(c, b)
  {
    hide Char, Values, Text, Lead, Tail, Combined, IsBase64;
    b := "";
    var a := 0;
    NoValues();
    assert c[..0] == [];
    while a + 3 <= |c|
      invariant a % 3 == 0 && a <= |c| && b == Text(Values(c[..a]))
    {
      NextValues(c, a, 3);
      var pair := ThreeCharacters(c[a], c[a + 1], c[a + 2]);
      b := b + pair;
      a := a + 3;
    }
    NextValues(c, a, |c| - a);
    assert c[..|c|] == c;
    var last := LastCharacters(c, a);
    b := b + last;
    TextAppend(Values(c), []);
    b := AddPads(b);
    TextIs(c, b);
  }

  method ThreeCharacters(x: nat, y: nat, z: nat) returns (r: string)
    requires x < 16 && y < 16 && z < 16
    ensures r == [Char(Lead(x, y)), Char(Tail(y, z))]
  {
    hide Char;
    var d := Combined(x, y, z);
    LeadTail(x, y, z);
    r := [Char(d / 64), Char(d % 64)];
  }

  method LastCharacters(c: Hex, a: nat) returns (r: string)
    requires a <= |c| < a + 3
    ensures r == if a + 2 == |c| then [Char(Lead(c[a], c[a + 1])), Char(Tail(c[a + 1], 0))]
      else if a + 1 == |c| then [Char(Lead(c[a], 0))] else ""
  {
    hide Char, Lead, Tail;
    r := "";
    if a + 1 == |c| {
      var d: nat := c[a];
      LeadTail(d, 0, 0);
      r := [Char(4 * d)];
    } else if a + 2 == |c| {
      var d := Combined(0, c[a], c[a + 1]);
      LeadTail(c[a], c[a + 1], 0);
      r := [Char(d / 4), Char(d % 4 * 16)];
    }
  }

  /** The number of three hexadecimal digits. */
  function Combined(x: nat, y: nat, z: nat): nat {
    x * 256 + y * 16 + z
  }

  lemma NoValues()
    ensures Text(Values([])) == ""
  {
  }

  method AddPads(text: string) returns (b: string)
    ensures b == text + seq(Padding(|text|), _ => '=')
  {
    b := text;
    while |b| % 4 > 0
      invariant |text| <= |b| <= |text| + Padding(|text|) && b == text + seq(|b| - |text|, _ => '=')
      decreases |text| + 4 - |b|
    {
      b := b + "=";
    }
  }

  /** The reader's state: how many digits of a group of three were read, and the bits left over. */
  datatype State = Fresh | Two(a: nat) | Behind(p: nat) | Four(a: nat) {
    predicate Valid() {
      match this
      case Fresh => true
      case Two(a) => a < 4
      case Behind(p) => p < 16
      case Four(a) => a < 4
    }
  }

  /** What a character adds in each state, and the next state. */
  function Take(v: nat, s: State): (r: (Hex, State))
    requires s.Valid() && v < 64
    ensures r.1.Valid()
  {
    match s
    case Fresh => ([v / 4], Two(v % 4))
    case Two(a) => ([a * 4 + v / 16], Behind(v % 16))
    case Behind(p) => ([p, v / 4], Four(v % 4))
    case Four(a) => ([a * 4 + v / 16, v % 16], Fresh)
  }

  /** The digits read from some characters. */
  function Digits(s: Six, c: State): Hex
    requires c.Valid()
  {
    if s == [] then (if c.Two? then [c.a * 4] else [])
    else Take(s[0], c).0 + Digits(s[1..], Take(s[0], c).1)
  }

  /** Characters that are not in the alphabet are passed over, and a pad ends the text. */
  function Meant(d: string): Six {
    if d == "" || d[0] == '=' then []
    else if IndexOf(d[0]) < 0 then Meant(d[1..])
    else [IndexOf(d[0])] + Meant(d[1..])
  }

  /** The value at a place, or zero behind the last. */
  function SextetAt(s: Six, k: nat): Sextet {
    if k < |s| then s[k] else 0
  }

  /** Four bits of the values: those from bit 4 i on. */
  function FourBits(s: Six, i: nat): Nibble {
    var x, y := SextetAt(s, i / 3 * 2), SextetAt(s, i / 3 * 2 + 1);
    if i % 3 == 0 then x / 4 else if i % 3 == 1 then x % 4 * 4 + y / 16 else y % 16
  }

  /** Of the bits of n characters the whole bytes come out, and for a single character in the last group
      a byte that is filled up with zeros. */
  function DigitCount(n: nat): nat {
    3 * n / 4 * 2 + if n % 4 == 1 then 2 else 0
  }

  lemma {:induction false} DigitsAre(s: Six)
    ensures |Digits(s, Fresh)| == DigitCount(|s|)
    ensures forall i :: 0 <= i < DigitCount(|s|) ==> Digits(s, Fresh)[i] == FourBits(s, i)
    decreases |s|
  {
    hide Digits, FourBits, DigitCount;
    if |s| >= 4 {
      DigitsAre(s[4..]);
      CountMore(|s|);
      FourCharacters(s);
      forall i | 0 <= i < DigitCount(|s|) ensures Digits(s, Fresh)[i] == FourBits(s, i) {
        if i >= 6 {
          LaterNibble(s, i);
        }
      }
    } else {
      FewCharacters(s);
    }
  }

  lemma CountMore(n: nat)
    requires n >= 4
    ensures DigitCount(n) == 6 + DigitCount(n - 4)
  {
    assert 3 * n / 4 == 3 + 3 * (n - 4) / 4;
  }

  lemma LaterNibble(s: Six, i: nat)
    requires |s| >= 4 && i >= 6
    ensures FourBits(s, i) == FourBits(s[4..], i - 6)
  {
    assert i / 3 == (i - 6) / 3 + 2;
  }

  lemma FourCharacters(s: Six)
    requires |s| >= 4
    ensures Digits(s, Fresh) == Nibbles(s[0], s[1], s[2], s[3]) + Digits(s[4..], Fresh)
    ensures forall i :: 0 <= i < 6 ==> FourBits(s, i) == Nibbles(s[0], s[1], s[2], s[3])[i]
  {
    hide Digits, FourBits, Nibbles;
    var t := s[4..];
    FourAnd(s);
    FourTaken(s[0], s[1], s[2], s[3], t);
    FirstNibbles(s);
  }

  lemma FourAnd(s: Six)
    requires |s| >= 4
    ensures [s[0]] + ([s[1]] + ([s[2]] + ([s[3]] + s[4..]))) == s
  {
    assert [s[3]] + s[4..] == s[3..] && [s[2]] + s[3..] == s[2..] && [s[1]] + s[2..] == s[1..];
  }

  function Nibbles(a: Sextet, b: Sextet, c: Sextet, d: Sextet): Hex {
    [a / 4, a % 4 * 4 + b / 16, b % 16, c / 4, c % 4 * 4 + d / 16, d % 16]
  }

  lemma FirstNibbles(s: Six)
    requires |s| >= 4
    ensures forall i :: 0 <= i < 6 ==> FourBits(s, i) == Nibbles(s[0], s[1], s[2], s[3])[i]
  {
  }

  lemma FourTaken(a: Sextet, b: Sextet, c: Sextet, d: Sextet, t: Six)
    ensures Digits([a] + ([b] + ([c] + ([d] + t))), Fresh) == Nibbles(a, b, c, d) + Digits(t, Fresh)
  {
    hide Digits, Take;
    TakeFour(a, b, c, d);
    DigitsStep(d, t, Four(c % 4));
    DigitsStep(c, [d] + t, Behind(b % 16));
    DigitsStep(b, [c] + ([d] + t), Two(a % 4));
    DigitsStep(a, [b] + ([c] + ([d] + t)), Fresh);
  }

  lemma TakeFour(a: Sextet, b: Sextet, c: Sextet, d: Sextet)
    ensures Take(a, Fresh) == ([a / 4], Two(a % 4))
    ensures Take(b, Two(a % 4)) == ([a % 4 * 4 + b / 16], Behind(b % 16))
    ensures Take(c, Behind(b % 16)) == ([b % 16, c / 4], Four(c % 4))
    ensures Take(d, Four(c % 4)) == ([c % 4 * 4 + d / 16, d % 16], Fresh)
  {
  }

  lemma FewCharacters(s: Six)
    requires |s| < 4
    ensures |Digits(s, Fresh)| == DigitCount(|s|)
    ensures forall i :: 0 <= i < DigitCount(|s|) ==> Digits(s, Fresh)[i] == FourBits(s, i)
  {
    hide Take, Digits;
    if s != [] {
      TakeFour(s[0], SextetAt(s, 1), SextetAt(s, 2), 0);
      DigitsStep(s[0], s[1..], Fresh);
      DigitsEnd(Two(s[0] % 4));
      assert s == [s[0]] + s[1..];
    } else {
      DigitsEnd(Fresh);
    }
    if |s| > 1 {
      DigitsStep(s[1], s[2..], Two(s[0] % 4));
      DigitsEnd(Behind(s[1] % 16));
      assert s[1..] == [s[1]] + s[2..];
    }
    if |s| > 2 {
      DigitsStep(s[2], s[3..], Behind(s[1] % 16));
      DigitsEnd(Four(s[2] % 4));
      assert s[2..] == [s[2]] + s[3..];
    }
  }

  /** A character outside the alphabet, other than a pad, makes no difference. */
  lemma {:induction false} PassedOver(s: string, c: char, t: string)
    requires c !in ALPHABET && c != '='
    ensures Meant(s + [c] + t) == Meant(s + t)
  {
    hide IndexOf;
    IndexIff(c);
    if s == "" {
      assert s + t == t && (s + [c] + t)[1..] == t;
    } else {
      PassedOver(s[1..], c, t);
      assert (s + [c] + t)[1..] == s[1..] + [c] + t && (s + t)[1..] == s[1..] + t;
    }
  }

  /** Nor does anything from the first pad on. */
  lemma {:induction false} PadEnds(s: string, t: string)
    ensures Meant(s + "=" + t) == Meant(s)
  {
    hide IndexOf;
    if s != "" {
      PadEnds(s[1..], t);
      assert (s + "=" + t)[1..] == s[1..] + "=" + t;
    }
  }

  method Base64ToHex(d: string) returns (b: Hex)
    ensures b == Digits(Meant(d), Fresh)
    ensures |b| == DigitCount(|Meant(d)|) && forall i :: 0 <= i < |b| ==> b[i] == FourBits(Meant(d), i)
  {
    hide Take, IndexOf;
    DigitsAre(Meant(d));
    b := [];
    var c, f := Fresh, 0;
    assert d[0..] == d;
    while f < |d|
      invariant f <= |d| && c.Valid()
      invariant b + Digits(Meant(d[f..]), c) == Digits(Meant(d), Fresh)
      decreases |d| - f
    {
      ghost var rest := d[f..];
      assert rest[0] == d[f] && rest[1..] == d[f + 1..];
      if d[f] == '=' {
        break;
      }
      var v := IndexOf(d[f]);
      f := f + 1;
      if v >= 0 {
        ghost var m := Meant(rest);
        assert m[0] == v && m[1..] == Meant(d[f..]);
        b, c := b + Take(v, c).0, Take(v, c).1;
      }
    }
    assert Meant(d[f..]) == [];
    if c.Two? {
      b := b + [c.a * 4];
    }
  }

  /** What comes back for some digits, depending on their number. */
  function Returned(h: Hex): Hex {
    if |h| % 2 == 0 then h
    else if |h| % 6 == 3 then h[..|h| - 1]
    else h + [0]
  }

  /** What comes back when a digit is still left over from the characters before. */
  function ReturnedBehind(p: Nibble, h: Hex): Hex {
    if |h| % 2 == 1 then [p] + h
    else if |h| % 6 == 0 then ([p] + h)[..|h|]
    else [p] + h + [0]
  }

  lemma DigitsStep(v: Sextet, s: Six, c: State)
    requires c.Valid()
    ensures Digits([v] + s, c) == Take(v, c).0 + Digits(s, Take(v, c).1)
  {
    hide Take;
    assert ([v] + s)[1..] == s;
  }

  lemma DigitsEnd(c: State)
    requires c.Valid()
    ensures Digits([], c) == if c.Two? then [c.a * 4] else []
  {
  }

  lemma StraddleLead(x: nat, y: nat, p: nat)
    requires x < 16 && y < 16 && p < 16
    ensures Take(Lead(x, y), Fresh) == ([x], Two(y / 4)) && Take(Lead(x, y), Behind(p)) == ([p, x], Four(y / 4))
  {
    assert Lead(x, y) / 4 == x && Lead(x, y) % 4 == y / 4;
  }

  lemma StraddleTail(y: nat, z: nat)
    requires y < 16 && z < 16
    ensures Take(Tail(y, z), Two(y / 4)) == ([y], Behind(z)) && Take(Tail(y, z), Four(y / 4)) == ([y, z], Fresh)
  {
    assert Tail(y, z) / 16 == y % 4 && Tail(y, z) % 16 == z;
  }

  /** Three digits from a fresh start leave the third over; behind one left over, all come out. */
  lemma ThreeDigits(x: Nibble, y: Nibble, z: Nibble, p: Nibble, s: Six)
    ensures Digits([Lead(x, y)] + ([Tail(y, z)] + s), Fresh) == [x, y] + Digits(s, Behind(z))
    ensures Digits([Lead(x, y)] + ([Tail(y, z)] + s), Behind(p)) == [p, x, y, z] + Digits(s, Fresh)
  {
    hide Digits, Take, Lead, Tail;
    StraddleLead(x, y, p);
    StraddleTail(y, z);
    var t := [Tail(y, z)] + s;
    DigitsStep(Lead(x, y), t, Fresh);
    DigitsStep(Lead(x, y), t, Behind(p));
    DigitsStep(Tail(y, z), s, Two(y / 4));
    DigitsStep(Tail(y, z), s, Four(y / 4));
  }

  lemma {:induction false} DigitsOfValues(h: Hex)
    ensures Digits(Values(h), Fresh) == Returned(h)
    decreases |h|
  {
    hide Digits, Lead, Tail;
    if |h| >= 3 {
      var t := h[3..];
      BehindValues(h[2], t);
      ThreeDigits(h[0], h[1], h[2], 0, Values(t));
      assert h == [h[0], h[1]] + ([h[2]] + t);
      Sixes(|h|);
    } else {
      FewDigits(0, h);
    }
  }

  lemma {:induction false} BehindValues(p: Nibble, h: Hex)
    ensures Digits(Values(h), Behind(p)) == ReturnedBehind(p, h)
    decreases |h|
  {
    hide Digits, Lead, Tail;
    if |h| >= 3 {
      var t := h[3..];
      DigitsOfValues(t);
      ThreeDigits(h[0], h[1], h[2], p, Values(t));
      assert [p] + h == [p, h[0], h[1], h[2]] + t;
      Sixes(|h|);
    } else {
      FewDigits(p, h);
    }
  }

  lemma Sixes(n: nat)
    requires n >= 3
    ensures (n - 3) % 6 == 0 <==> n % 6 == 3
    ensures (n - 3) % 6 == 3 <==> n % 6 == 0
    ensures (n - 3) % 2 == 0 <==> n % 2 == 1
  {
  }

  /** One or two digits left over, or none. */
  lemma FewDigits(p: Nibble, h: Hex)
    requires |h| < 3
    ensures Digits(Values(h), Fresh) == Returned(h)
    ensures Digits(Values(h), Behind(p)) == ReturnedBehind(p, h)
  {
    hide Digits, Take, Lead, Tail, Returned, ReturnedBehind, Values;
    if |h| == 1 {
      assert h == [h[0]];
      OneShape(h[0], p);
      OneDigit(h[0], p);
    } else if |h| == 2 {
      assert h == [h[0], h[1]];
      TwoShape(h[0], h[1], p);
      TwoDigits(h[0], h[1], p);
    } else {
      assert h == [];
      NoShape(p);
      DigitsEnd(Fresh);
      DigitsEnd(Behind(p));
    }
  }

  lemma NoShape(p: Nibble)
    ensures Values([]) == [] && Returned([]) == [] && ReturnedBehind(p, []) == []
  {
  }

  lemma OneShape(x: Nibble, p: Nibble)
    ensures Values([x]) == [Lead(x, 0)] && Returned([x]) == [x] + [0] && ReturnedBehind(p, [x]) == [p] + [x]
  {
    hide Lead;
  }

  lemma TwoShape(x: Nibble, y: Nibble, p: Nibble)
    ensures Values([x, y]) == [Lead(x, y), Tail(y, 0)]
    ensures Returned([x, y]) == [x, y] && ReturnedBehind(p, [x, y]) == [p] + [x, y] + [0]
  {
    hide Lead, Tail;
  }

  lemma OneDigit(x: Nibble, p: Nibble)
    ensures Digits([Lead(x, 0)], Fresh) == [x, 0] && Digits([Lead(x, 0)], Behind(p)) == [p, x]
  {
    hide Digits, Take, Lead;
    StraddleLead(x, 0, p);
    StraddleTail(0, 0);
    DigitsStep(Lead(x, 0), [], Fresh);
    DigitsStep(Lead(x, 0), [], Behind(p));
    DigitsEnd(Two(0));
    DigitsEnd(Four(0));
    assert [Lead(x, 0)] + [] == [Lead(x, 0)];
  }

  lemma TwoDigits(x: Nibble, y: Nibble, p: Nibble)
    ensures Digits([Lead(x, y), Tail(y, 0)], Fresh) == [x, y]
    ensures Digits([Lead(x, y), Tail(y, 0)], Behind(p)) == [p, x, y, 0]
  {
    hide Digits, Take, Lead, Tail;
    DigitsEnd(Behind(0));
    DigitsEnd(Fresh);
    ThreeDigits(x, y, 0, p, []);
    assert [Lead(x, y)] + ([Tail(y, 0)] + []) == [Lead(x, y), Tail(y, 0)];
  }

  lemma {:induction false} MeantText(s: Six, p: string)
    requires p == "" || p[0] == '='
    ensures Meant(Text(s) + p) == s
  {
    hide Char, IndexOf;
    var d := Text(s) + p;
    if s == [] {
      assert d == p;
    } else {
      IndexAgain(s[0]);
      MeantText(s[1..], p);
      assert d[0] == Char(s[0]) && d[1..] == Text(s[1..]) + p;
    }
  }

  /** Converting to base 64 and back gives the digits again if and only if their number is even; an odd
      number of them gets a zero behind, or loses the last one. */
  lemma BackAgainIff(h: Hex)
    ensures var text := Text(Values(h)) + seq(Padding(|Values(h)|), _ => '=');
      && Digits(Meant(text), Fresh) == Returned(h)
      && (Digits(Meant(text), Fresh) == h <==> |h| % 2 == 0)
  {
    hide Text, Values, Digits, Meant;
    MeantText(Values(h), seq(Padding(|Values(h)|), _ => '='));
    DigitsOfValues(h);
  }
}
