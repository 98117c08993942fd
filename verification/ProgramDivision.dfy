/** Division and modular exponentiation with the guess that the program makes. */
module ProgramDivision {
  import opened JsNumber
  import opened Ring
  import opened Digits
  import opened SignedDigits
  import opened Division
  import opened DoubleGuess
  import opened Congruence
  import opened BigIntegers
  import opened ModPow

  /** q = b / m and r = b % m.  They are right if every step of the division is clear. */
  method DivRemTo(b: BigInteger, m: BigInteger, q: BigInteger?, r: BigInteger?)
    requires b.Valid() && m.Valid()
    requires q != null ==> q != r && q != b
    requires ClearDivision(Magnitude(b.Value()), Magnitude(m.Value()))
    modifies q, r
    ensures old(m.Value()) == 0 ==> (q != null ==> unchanged(q)) && (r != null ==> unchanged(r))
    ensures old(m.Value()) != 0 && q != null ==>
      q.Valid() && q.Value() == TruncatedQuotient(old(b.Value()), old(m.Value()))
    ensures old(m.Value()) != 0 && r != null ==>
      r.Valid() && r.Value() == TruncatedRemainder(old(b.Value()), old(m.Value()))
  {
    hide Mul, Quo, Mod, P, S, GuessesSound, ClearDivision, TruncatedQuotient, TruncatedRemainder;
    ClearSound(Magnitude(b.Value()), Magnitude(m.Value()));
    b.DivRemTo(m, q, r, ProgramGuess);
  }

  /** b^e mod m.  Montgomery's method divides once, so that only that division has to be clear; with
      a small exponent or an even modulus every guess for the modulus has to serve. */
  method ModPowInt(b: BigInteger, e: int, m: BigInteger) returns (r: BigInteger)
    requires b.Valid() && m.Valid() && m.Value() > 0
    requires e < 256 || m.Value() % 2 == 0 ==> forall l: nat, h: nat :: ShiftedSound(ProgramGuess, m.Value(), l, h)
    requires 256 <= e && m.Value() % 2 == 1 ==>
      m.t >= 0 && ClearDivision(Mul(Magnitude(b.Value()), P(m.t)), m.Value())
    ensures r.Valid()
    ensures 1 <= e <= 0xffff_ffff ==> r.Value() == Mod(Power(b.Value(), e), m.Value())
    ensures !(1 <= e <= 0xffff_ffff) ==> r.Value() == 1
  {
    hide Mul, Quo, Mod, P, S, GuessesSound, ClearDivision, ShiftedSound, Power, SoundFor;
    SoundForIff(ProgramGuess, m.Value());
    if 256 <= e && m.Value() % 2 == 1 {
      MulLe(0, Magnitude(b.Value()), P(m.t));
      Units(P(m.t));
      ClearSound(Mul(Magnitude(b.Value()), P(m.t)), m.Value());
    }
    r := ModPow.ModPowInt(b, e, m, ProgramGuess);
  }

  /** b^e mod m for a modulus of one digit: right for every base and exponent. */
  method ModPowDigit(b: BigInteger, e: int, m: BigInteger) returns (r: BigInteger)
    requires b.Valid() && m.Valid() && 0 < m.Value() < DV
    ensures r.Valid()
    ensures 1 <= e <= 0xffff_ffff ==> r.Value() == Mod(Power(b.Value(), e), m.Value())
    ensures !(1 <= e <= 0xffff_ffff) ==> r.Value() == 1
  {
    hide Mul, Quo, Mod, S, GuessesSound, Power, SoundFor;
    POne();
    Units(m.Value());
    OneDigitSound(m.Value(), 0);
    if m.t >= 0 {
      MulLe(0, Magnitude(b.Value()), P(m.t));
      Units(P(m.t));
      SoundAt(ProgramGuess, m.Value(), Mul(Magnitude(b.Value()), P(m.t)));
    }
    r := ModPow.ModPowInt(b, e, m, ProgramGuess);
  }
}
