/** The text form of encrypted data, IV#CIPHERTEXT in hexadecimal, with PKCS7 padding in CBC. */
module AesEnvelope {
  import opened AesCipher
  import opened AesBlock
  import opened AesModes
  import opened AesModeOfOperation
  import opened Options

  datatype Result<T> = Ok(value: T) | Failed

  function Repeated(b: bv8, n: nat): (r: Bytes)
    ensures |r| == n && forall i :: 0 <= i < n ==> r[i] == b
  {
    seq(n, _ => b)
  }

  /** The byte with a value between 0 and 16. */
  function Small(n: nat): (b: bv8)
    requires n <= 16
  {
    n as bv8
  }

  function AppendPadding(s: Bytes): Bytes {
    var n := 16 - |s| % 16;
    s + Repeated(Small(n), n)
  }

  function Value(b: bv8): nat {
    b as nat
  }

  /** Only the last byte is looked at; a last byte of 0 takes the whole string away. */
  function StripPadding(s: Bytes): Result<Bytes> {
    if |s| % 16 != 0 || s == [] then Failed
    else
      var n := Value(s[|s| - 1]);
      if n > 16 then Failed
      else if n == 0 then Ok([])
      else Ok(s[..|s| - n])
  }

  lemma SmallValue(n: nat, b: bv8)
    requires n <= 16
    ensures Small(n) == b <==> n == Value(b)
  {
  }

  lemma StripAppend(s: Bytes)
    ensures StripPadding(AppendPadding(s)) == Ok(s)
    ensures |AppendPadding(s)| % 16 == 0
  {
    hide Small, Value;
    var n := 16 - |s| % 16;
    var p := AppendPadding(s);
    SmallValue(n, Small(n));
    assert p[|p| - 1] == Small(n);
    assert p[..|s|] == s;
  }

  /** Padding again what was stripped gives the string back just when all of the padding, not only
      its last byte, was right. */
  predicate WellPadded(s: Bytes) {
    && |s| % 16 == 0 && s != []
    && var n := s[|s| - 1];
       1 <= Value(n) <= 16 && forall i :: |s| - Value(n) <= i < |s| ==> s[i] == n
  }

  lemma PaddedAgain(s: Bytes)
    requires StripPadding(s).Ok? && AppendPadding(StripPadding(s).value) == s
    ensures WellPadded(s)
  {
    hide Small, Value;
    var t := StripPadding(s).value;
    var k := 16 - |t| % 16;
    assert s[|s| - 1] == Small(k);
    SmallValue(k, s[|s| - 1]);
  }

  lemma WellPaddedAgain(s: Bytes)
    requires WellPadded(s)
    ensures StripPadding(s).Ok? && AppendPadding(StripPadding(s).value) == s
  {
    hide Small, Value;
    var n := s[|s| - 1];
    PadCount(|s|, Value(n));
    SmallValue(Value(n), n);
    RestRepeated(s, n, Value(n));
  }

  lemma RestRepeated(s: Bytes, n: bv8, k: nat)
    requires k <= |s| && forall i :: |s| - k <= i < |s| ==> s[i] == n
    ensures s[..|s| - k] + Repeated(n, k) == s
  {
  }

  lemma AppendStrip(s: Bytes)
    requires StripPadding(s).Ok?
    ensures AppendPadding(StripPadding(s).value) == s <==> WellPadded(s)
  {
    hide AppendPadding, StripPadding;
    if AppendPadding(StripPadding(s).value) == s {
      PaddedAgain(s);
    }
    if WellPadded(s) {
      WellPaddedAgain(s);
    }
  }

  lemma PadCount(length: nat, k: nat)
    requires length % 16 == 0 && 1 <= k <= 16 && k <= length
    ensures 16 - (length - k) % 16 == k
  {
  }

  function HexDigit(n: bv8): char
    requires n < 16
  {
    if n == 0 then '0' else if n == 1 then '1' else if n == 2 then '2' else if n == 3 then '3'
    else if n == 4 then '4' else if n == 5 then '5' else if n == 6 then '6' else if n == 7 then '7'
    else if n == 8 then '8' else if n == 9 then '9' else if n == 10 then 'A' else if n == 11 then 'B'
    else if n == 12 then 'C' else if n == 13 then 'D' else if n == 14 then 'E' else 'F'
  }

  /** Reading accepts both cases. */
  function HexValue(c: char): Result<bv8> {
    match c
    case '0' => Ok(0) case '1' => Ok(1) case '2' => Ok(2) case '3' => Ok(3)
    case '4' => Ok(4) case '5' => Ok(5) case '6' => Ok(6) case '7' => Ok(7)
    case '8' => Ok(8) case '9' => Ok(9)
    case 'A' => Ok(10) case 'B' => Ok(11) case 'C' => Ok(12)
    case 'D' => Ok(13) case 'E' => Ok(14) case 'F' => Ok(15)
    case 'a' => Ok(10) case 'b' => Ok(11) case 'c' => Ok(12)
    case 'd' => Ok(13) case 'e' => Ok(14) case 'f' => Ok(15)
    case _ => Failed
  }

  function High(b: bv8): (n: bv8)
    ensures n < 16
  {
    b >> 4
  }

  function Low(b: bv8): (n: bv8)
    ensures n < 16
  {
    b & 15
  }

  function Joined(h: bv8, l: bv8): bv8 {
    (h << 4) | l
  }

  function ToHex(b: Bytes): string {
    if b == [] then "" else [HexDigit(High(b[0])), HexDigit(Low(b[0]))] + ToHex(b[1..])
  }

  function FromHex(s: string): Result<Bytes> {
    if s == "" then Ok([])
    else if |s| == 1 then Failed
    else
      var h, l, rest := HexValue(s[0]), HexValue(s[1]), FromHex(s[2..]);
      if h.Ok? && l.Ok? && rest.Ok? then Ok([Joined(h.value, l.value)] + rest.value) else Failed
  }

  lemma HexOfDigit(n: bv8)
    requires n < 16
    ensures HexValue(HexDigit(n)) == Ok(n) && HexDigit(n) != '#'
  {
  }

  lemma JoinedAgain(b: bv8)
    ensures Joined(High(b), Low(b)) == b
  {
  }

  const DIGITS := "0123456789ABCDEF"

  /** Each byte is written as its high and then its low hexadecimal digit. */
  lemma {:induction false} HexPlaces(b: Bytes, i: nat)
    requires i < |b|
    ensures |ToHex(b)| == 2 * |b|
    ensures ToHex(b)[2 * i] == DIGITS[Value(b[i]) / 16] && ToHex(b)[2 * i + 1] == DIGITS[Value(b[i]) % 16]
  {
    hide HexDigit, High, Low, Value;
    ByteParts(b[0]);
    if |b| > 1 {
      HexPlaces(b[1..], if i == 0 then 0 else i - 1);
    } else {
      assert b[1..] == [];
    }
  }

  lemma ByteParts(b: bv8)
    ensures Value(b) / 16 < 16
    ensures HexDigit(High(b)) == DIGITS[Value(b) / 16] && HexDigit(Low(b)) == DIGITS[Value(b) % 16]
  {
    HexDigitIs(High(b));
    HexDigitIs(Low(b));
    hide HexDigit;
    HighValue(b);
    LowValue(b);
  }

  lemma HexDigitIs(n: bv8)
    requires n < 16
    ensures Value(n) < 16 && HexDigit(n) == DIGITS[Value(n)]
  {
  }

  lemma HighValue(b: bv8)
    ensures Value(High(b)) == Value(b) / 16
  {
  }

  lemma LowValue(b: bv8)
    ensures Value(Low(b)) == Value(b) % 16
  {
  }

  lemma {:induction false} FromToHex(b: Bytes)
    ensures FromHex(ToHex(b)) == Ok(b)
    ensures '#' !in ToHex(b)
  {
    hide HexDigit, HexValue, High, Low, Joined;
    if b != [] {
      FromToHex(b[1..]);
      HexOfDigit(High(b[0]));
      HexOfDigit(Low(b[0]));
      JoinedAgain(b[0]);
      var s := ToHex(b);
      assert s[2..] == ToHex(b[1..]);
      assert b == [b[0]] + b[1..];
    }
  }

  /** The pieces of a string between its separators. */
  function Split(s: string): (r: seq<string>)
    ensures r != []
  {
    if s == "" then [""]
    else
      var rest := Split(s[1..]);
      if s[0] == '#' then [""] + rest else [[s[0]] + rest[0]] + rest[1..]
  }

  lemma {:induction false} SplitPlain(s: string)
    requires '#' !in s
    ensures Split(s) == [s]
  {
    if s != "" {
      SplitPlain(s[1..]);
      assert s == [s[0]] + s[1..];
    }
  }

  lemma {:induction false} SplitTwo(s: string, t: string)
    requires '#' !in s && '#' !in t
    ensures Split(s + "#" + t) == [s, t]
  {
    var u := s + "#" + t;
    if s == "" {
      assert u[1..] == t;
      SplitPlain(t);
    } else {
      assert u[1..] == s[1..] + "#" + t;
      SplitTwo(s[1..], t);
      assert s == [s[0]] + s[1..];
    }
  }

  /** The key as bytes, if it is one of the sizes supported. */
  function KeyBytes(key: string): Result<Bytes> {
    var k := FromHex(key);
    if k.Ok? && SupportedSize(|k.value|) then k else Failed
  }

  /** The text form of the data encrypted with an initial vector of 16 bytes. */
  function Sealed(key: string, data: Bytes, mode: nat, iv: Bytes): Result<string>
    requires |iv| == 16 && Known(mode)
  {
    var k := KeyBytes(key);
    if k.Failed? then Failed
    else
      var text := if mode == CBC then AppendPadding(data) else data;
      Ok(ToHex(iv) + "#" + ToHex(EncryptText(Setting(mode, k.value, |k.value| / 4, iv), text)))
  }

  /** The initial vector and the ciphertext of a text form; without a vector, it is all zeros. */
  function Parsed(data: string): Result<(Bytes, Bytes)> {
    var tokens := Split(data);
    if |tokens| == 1 then
      var c := FromHex(tokens[0]);
      if c.Ok? then Ok((Repeated(0, 16), c.value)) else Failed
    else if |tokens| == 2 then
      var iv, c := FromHex(tokens[0]), FromHex(tokens[1]);
      if iv.Ok? && c.Ok? then Ok((iv.value, c.value)) else Failed
    else Failed
  }

  /** Opening fails on text that is not hexadecimal, on a vector that is not of whole blocks, and in
      CBC on ciphertext that is not of whole blocks or ends in bad padding. */
  function Opened(key: string, data: string, mode: nat): Result<Bytes>
    requires Known(mode)
  {
    var k, p := KeyBytes(key), Parsed(data);
    if k.Failed? || p.Failed? then Failed
    else
      var (iv, cipher) := p.value;
      var x := Setting(mode, k.value, |k.value| / 4, iv);
      if |iv| % 16 != 0 then Failed
      else if cipher == [] then (if mode == CBC then Failed else Ok([]))
      else if iv == [] || !Decryptable(x, cipher) then Failed
      else
        var text := DecryptText(x, cipher, Unspecified);
        if mode == CBC then StripPadding(text) else Ok(text)
  }

  lemma ParsedSealed(iv: Bytes, cipher: Bytes)
    ensures Parsed(ToHex(iv) + "#" + ToHex(cipher)) == Ok((iv, cipher))
  {
    FromToHex(iv);
    FromToHex(cipher);
    SplitTwo(ToHex(iv), ToHex(cipher));
  }

  lemma {:induction false} ZerosToHex(n: nat)
    ensures ToHex(Repeated(0, n)) == seq(2 * n, _ => '0')
  {
    if n > 0 {
      ZerosToHex(n - 1);
      assert Repeated(0, n)[1..] == Repeated(0, n - 1);
    }
  }

  /** A text without a vector opens like the one with the vector of zeros in front. */
  lemma ZeroVector(key: string, data: string, mode: nat)
    requires Known(mode) && '#' !in data
    ensures Opened(key, data, mode) == Opened(key, "00000000000000000000000000000000" + "#" + data, mode)
  {
    hide FromHex, ToHex, Split, HexValue, HexDigit;
    var zeros := "00000000000000000000000000000000";
    ZerosToHex(16);
    assert zeros == seq(32, _ => '0');
    FromToHex(Repeated(0, 16));
    SplitPlain(data);
    SplitTwo(zeros, data);
  }

  /** Opening what was sealed gives the data back, for every supported key, vector and mode, without
      being told the size. */
  lemma OpenSealed(key: string, data: Bytes, mode: nat, iv: Bytes)
    requires |iv| == 16 && Known(mode) && KeyBytes(key).Ok?
    ensures Sealed(key, data, mode, iv).Ok?
    ensures Opened(key, Sealed(key, data, mode, iv).value, mode) == Ok(data)
  {
    hide FromHex, ToHex, EncryptText, DecryptText, AppendPadding, StripPadding, Split;
    var k := KeyBytes(key).value;
    var x := Setting(mode, k, |k| / 4, iv);
    var text := if mode == CBC then AppendPadding(data) else data;
    var cipher := EncryptText(x, text);
    ParsedSealed(iv, cipher);
    StripAppend(data);
    DecryptEncryptText(x, text);
    if mode == CBC {
      DecryptEncryptUnsized(x, text);
    }
    if cipher == [] {
      NothingSealed(x, text, data);
    }
  }

  lemma NothingSealed(x: Setting, text: Bytes, data: Bytes)
    requires x.Valid() && EncryptText(x, text) == []
    requires text == if x.mode == CBC then AppendPadding(data) else data
    ensures x.mode != CBC && data == []
  {
    hide CipherText;
    CipherLength(x, text, Count(text));
  }

  method EncryptData(key: string, data: Bytes, mode: nat, iv: array<bv8>) returns (r: Result<string>)
    requires iv.Length == 16 && Known(mode)
    ensures r == Sealed(key, data, mode, iv[..])
  {
    hide FromHex, ToHex, EncryptText, AppendPadding;
    var k := KeyBytes(key);
    if k.Failed? { return Failed; }
    var text := data;
    if mode == CBC {
      text := AppendPadding(text);
    }
    var out := EncryptMessage(text, mode, k.value, |k.value|, iv);
    if text == [] {
      NothingEncrypted(Setting(mode, k.value, |k.value| / 4, iv[..]));
    }
    return Ok(ToHex(iv[..]) + "#" + ToHex(out.value.2));
  }

  lemma NothingEncrypted(x: Setting)
    requires x.Valid()
    ensures EncryptText(x, []) == []
  {
  }

  method DecryptData(key: string, data: string, mode: nat) returns (r: Result<Bytes>)
    requires Known(mode)
    ensures r == Opened(key, data, mode)
  {
    hide FromHex, DecryptText, StripPadding, Split;
    var k := KeyBytes(key);
    if k.Failed? { return Failed; }
    var p := Parsed(data);
    if p.Failed? { return Failed; }
    var (ivBytes, cipher) := p.value;
    if cipher != [] && (ivBytes == [] || (mode == CBC && |cipher| % 16 != 0)) { return Failed; }
    var iv := new bv8[|ivBytes|](i requires 0 <= i < |ivBytes| => ivBytes[i]);
    assert iv[..] == ivBytes;
    var decr := DecryptMessage(cipher, Unspecified, mode, k.value, |k.value|, iv);
    if decr.None? { return Failed; }
    if mode == CBC {
      assert cipher == [] ==> StripPadding([]) == Failed by { NothingToStrip(); }
      return StripPadding(decr.value);
    }
    return Ok(decr.value);
  }

  lemma NothingToStrip()
    ensures StripPadding([]) == Failed
  {
  }
}
