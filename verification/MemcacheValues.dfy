/** How values become flags and bytes, and come back: strings as they are, integers in decimal, other
    objects pickled, and long ones compressed if that makes them shorter. */
module MemcacheValues {
  import opened MemcacheHost
  import opened Options
  import opened Ring

  const PICKLE := 1
  const INTEGER := 2
  const LONG := 4
  const COMPRESSED := 8

  /** A value to store; P stands for the objects that are pickled. */
  datatype Value<P> = Text(text: string) | Int(n: int) | Long(n: int) | Object(object_: P)

  /** The library functions, taken as given. */
  datatype Codec<!P(!new)> = Codec(compress: string -> string, decompress: string -> string,
                             pickle: P -> string, unpickle: string -> Option<P>) {
    /** Decompressing and unpickling undo compressing and pickling. */
    ghost predicate Lawful() {
      && (forall s :: decompress(compress(s)) == s)
      && (forall p :: unpickle(pickle(p)) == Some(p))
    }
  }

  function Digit(d: nat): char
    requires d < 10
  {
    ['0', '1', '2', '3', '4', '5', '6', '7', '8', '9'][d]
  }

  predicate IsDigit(c: char) {
    '0' <= c <= '9'
  }

  function DigitValue(c: char): (d: nat)
    requires IsDigit(c)
    ensures d < 10
  {
    c as nat - '0' as nat
  }

  function ToDigits(n: nat): (s: string)
    ensures s != "" && forall i :: 0 <= i < |s| ==> IsDigit(s[i])
  {
    if n < 10 then [Digit(n)] else ToDigits(n / 10) + [Digit(n % 10)]
  }

  function ToDecimal(n: int): string {
    if n < 0 then "-" + ToDigits(-n) else ToDigits(n)
  }

  function FromDigits(s: string): Option<nat> {
    if s == "" then None
    else
      var c := s[|s| - 1];
      if !IsDigit(c) then None
      else if |s| == 1 then Some(DigitValue(c))
      else
        var rest := FromDigits(s[..|s| - 1]);
        if rest.None? then None else Some(10 * rest.value + DigitValue(c))
  }

  function Negative(n: nat): int {
    0 - n
  }

  function FromDecimal(s: string): Option<int> {
    if s != "" && s[0] == '-' then
      var n := FromDigits(s[1..]);
      if n.None? then None else Some(Negative(n.value))
    else FromDigits(s)
  }

  lemma DigitAgain(d: nat)
    requires d < 10
    ensures IsDigit(Digit(d)) && DigitValue(Digit(d)) == d
  {
  }

  lemma {:induction false} DigitsAgain(n: nat)
    ensures FromDigits(ToDigits(n)) == Some(n)
  {
    hide Digit, DigitValue, IsDigit;
    if n < 10 {
      DigitAgain(n);
    } else {
      DigitsAgain(n / 10);
      DigitAgain(n % 10);
      var s := ToDigits(n);
      assert s[..|s| - 1] == ToDigits(n / 10) && s[|s| - 1] == Digit(n % 10);
    }
  }

  lemma DecimalAgain(n: int)
    ensures FromDecimal(ToDecimal(n)) == Some(n)
  {
    hide ToDigits, FromDigits;
    DigitsAgain(if n < 0 then -n else n);
    if n < 0 {
      var s := ToDecimal(n);
      assert s[1..] == ToDigits(-n);
    } else {
      assert IsDigit(ToDigits(n)[0]);
    }
  }

  /** The limits of a client: when to compress, and the longest value kept (0 for none). */
  datatype Limits = Limits(minCompress: nat, supportsCompress: bool, maxLength: nat)

  function Plain<P(!new)>(k: Codec<P>, v: Value<P>): (nat, string) {
    match v
    case Text(s) => (0, s)
    case Int(n) => (INTEGER, ToDecimal(n))
    case Long(n) => (LONG, ToDecimal(n))
    case Object(p) => (PICKLE, k.pickle(p))
  }

  /** What is sent for a value, or nothing if it is too long. */
  function StoreInfo<P(!new)>(k: Codec<P>, l: Limits, v: Value<P>): Option<(nat, string)> {
    var (flags, s) := Plain(k, v);
    var min := if v.Int? || v.Long? then 0 else l.minCompress;
    var shorter := min > 0 && l.supportsCompress && |s| > min && |k.compress(s)| < |s|;
    var sent := if shorter then k.compress(s) else s;
    if l.maxLength != 0 && |sent| > l.maxLength then None
    else Some((if shorter then flags + COMPRESSED else flags, sent))
  }

  predicate Has(flags: nat, bit: nat)
    requires bit > 0
  {
    (flags / bit) % 2 == 1
  }

  /** What is made of flags and bytes. */
  function Received<P(!new)>(k: Codec<P>, flags: nat, bytes: string): Option<Value<P>> {
    var s := if Has(flags, COMPRESSED) then k.decompress(bytes) else bytes;
    if flags == 0 || flags == COMPRESSED then Some(Text(s))
    else if Has(flags, INTEGER) then
      var n := FromDecimal(s);
      if n.None? then None else Some(Int(n.value))
    else if Has(flags, LONG) then
      var n := FromDecimal(s);
      if n.None? then None else Some(Long(n.value))
    else if Has(flags, PICKLE) then
      var p := k.unpickle(s);
      if p.None? then None else Some(Object(p.value))
    else None
  }

  /** The text of a value is compressed: only if compression is there and asked for, which it never is
      for integers, if the text is longer than the least length, and if that makes it shorter. */
  predicate Compresses<P(!new)>(k: Codec<P>, l: Limits, v: Value<P>) {
    var s := Plain(k, v).1;
    l.supportsCompress && (v.Text? || v.Object?) && 0 < l.minCompress < |s| && |k.compress(s)| < |s|
  }

  /** A value is sent if and only if there is no limit or its bytes, compressed or not, keep it. */
  predicate Fits<P(!new)>(k: Codec<P>, l: Limits, v: Value<P>) {
    var s := Plain(k, v).1;
    l.maxLength == 0 || |s| <= l.maxLength || (Compresses(k, l, v) && |k.compress(s)| <= l.maxLength)
  }

  lemma SentIff<P(!new)>(k: Codec<P>, l: Limits, v: Value<P>)
    ensures StoreInfo(k, l, v).Some? <==> Fits(k, l, v)
    ensures StoreInfo(k, l, v).Some? ==>
      var (flags, bytes) := StoreInfo(k, l, v).value;
      var s := match v
        case Text(t) => t case Int(n) => ToDecimal(n) case Long(n) => ToDecimal(n) case Object(p) => k.pickle(p);
      && bytes == (if Compresses(k, l, v) then k.compress(s) else s) && |bytes| <= |s|
      && flags == (if v.Text? then 0 else if v.Int? then 2 else if v.Long? then 4 else 1)
                  + (if Compresses(k, l, v) then 8 else 0)
  {
    hide ToDecimal;
  }

  /** A value that is sent comes back equal. */
  lemma ValueAgain<P(!new)>(k: Codec<P>, l: Limits, v: Value<P>)
    requires k.Lawful() && Fits(k, l, v)
    ensures StoreInfo(k, l, v).Some?
    ensures var (flags, bytes) := StoreInfo(k, l, v).value;
      Received(k, flags, bytes) == Some(v)
  {
    hide ToDecimal, FromDecimal;
    if v.Int? || v.Long? {
      DecimalAgain(v.n);
    }
  }

  function Ten(i: nat): (r: nat)
    ensures r >= 1
  {
    if i == 0 then 1 else 10 * Ten(i - 1)
  }

  const DECIMALS := "0123456789"

  lemma DigitChar(d: nat)
    requires d < 10
    ensures Digit(d) == DECIMALS[d]
  {
  }

  /** Digit i from the end of the text of a number is that of its weight, and the first is not 0 unless
      it is the only one. */
  lemma {:induction false} DigitsAre(n: nat)
    ensures var s := ToDigits(n);
      && (forall i :: 0 <= i < |s| ==> s[|s| - 1 - i] == DECIMALS[Quo(n, Ten(i)) % 10])
      && n < Ten(|s|) && (|s| > 1 ==> n >= Ten(|s| - 1))
  {
    hide Digit, Quo, IsDigit;
    var s := ToDigits(n);
    WholeNumber(n);
    DigitChar(n % 10);
    if n >= 10 {
      DigitsAre(n / 10);
      var t := ToDigits(n / 10);
      assert s == t + [Digit(n % 10)];
      forall i | 0 <= i < |s| ensures s[|s| - 1 - i] == DECIMALS[Quo(n, Ten(i)) % 10] {
        NextDigit(n, t, s, i);
      }
    }
  }

  lemma NextDigit(n: nat, t: string, s: string, i: nat)
    requires i < |s| && s == t + [DECIMALS[n % 10]]
    requires forall k :: 0 <= k < |t| ==> t[|t| - 1 - k] == DECIMALS[Quo(n / 10, Ten(k)) % 10]
    ensures s[|s| - 1 - i] == DECIMALS[Quo(n, Ten(i)) % 10]
  {
    hide Quo, Ten;
    if i > 0 {
      assert s[|s| - 1 - i] == t[|t| - 1 - (i - 1)];
      TenthOf(n, i);
    } else {
      WholeNumber(n);
    }
  }

  lemma WholeNumber(n: nat)
    ensures Quo(n, Ten(0)) == n
  {
  }

  lemma TenthOf(n: nat, i: nat)
    requires i > 0
    ensures Quo(n / 10, Ten(i - 1)) == Quo(n, Ten(i))
  {
    var p := Ten(i - 1);
    assert n / 10 == Quo(n, 10);
    QuoQuo(n, 10, p);
    TenTimes(p);
  }

  lemma TenTimes(p: nat)
    ensures Mul(10, p) == 10 * p
  {
  }
}
