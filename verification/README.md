# Verified models of the algorithmic parts of the repository

This Dafny project models the parts of the repository in which correctness depends on more than one line
of code, and proves what they promise.

* **Big integers and RSA arithmetic** (`scripts/unittests/adyen-cse.js`, line 8). The class
  `BigIntegers.BigInteger` has the fields of the JavaScript object: sparse digits in base 2^26, a length
  and a sign. Its methods write the digits of a target object in loops, in place where the program does.
  Proved: exact signed arithmetic with aliasing, truncating long division, Montgomery reduction, modular
  exponentiation by two reducers, and reading and writing text in the bases 2, 4, 8, 16 and 32. Every
  product and sum is shown to be an exact double. The program guesses quotient digits in floating point, and
  its guess can be one too low, so that `divRemTo` leaves a remainder equal to the divisor
  (`QuotientGuess.TooLowRemainder`). The division is first proved for any guess, `Estimator`, that is not
  below the true digit. `DoubleGuess.ProgramGuess` is the guess in IEEE 754 doubles. It is never too low
  where the remainder of the leading digits is zero or at least 2^26; a divisor of one digit always meets
  that. `DoubleGuess.SoundForIff` gives the exact condition on a divisor, `Division.StepRightIff` and
  `Division.DivisionRightIff` say exactly when a step and a whole division are right, and
  `DoubleGuess.LowDigitMadeUp` is a division in which a low digit is made up for by a digit 2^26.
* **The byte cipher** (`couchdb/AESCipher.py`). FIPS 197 as functions on 16-byte states, the program's
  loops over lists proved against them, and decryption proved to undo encryption for all keys and blocks;
  the modes OFB, CFB and CBC over messages of any length with the program's shared lists; PKCS7 padding
  and the `IV#CIPHERTEXT` text form.
* **The table-driven cipher of sjcl** (`adyen-cse.js`, line 20). The word key schedules and the rounds by
  table look-up equal the byte cipher in both directions, and the table generator is proved to end with
  complete and right tables.
* **sjcl's bit arrays, SHA-256 and CCM** (same line). Packed bit arrays refine bit sequences, including the
  shift-carry loop; SHA-256 updates do not depend on how the message is split; CCM decryption accepts
  exactly the encryptions, among ciphertexts not shorter than the tag; and for inputs that differ in anything
  a tag covers, some block function gives different tags.
* **Base 64** (line 5): converting hexadecimal text and back.
* **The migration pipeline** (`scripts/migration/id_migration.py`), a transition system of a reader, any
  number of workers, two queues and a writer that restores the order. Each turn of the writer's loop is
  one step, as everything it touches but the queue is its own.
* **Staged replacement of design documents** (`couchdb/couchdbcmd.py`), a transition system of the script's
  requests with other clients writing or deleting the live document between any two of them. The server
  accepts a write only over the revision named, or where there is no document if none is named, and gives
  each write a new revision.
* **Paging** through a database (`couchdb/bumprev.py`), and purging it (`couchdb/couchdbcmd.py`).
* **The memcached client** (`memcache/memcache.py`): reading lines and blocks from a stream cut anywhere,
  values framed by their length, fetching and storing many keys at once.

Where the code and its documentation differ, the model follows the code. What is false of the code as
written is proved to be false, with the exact condition for it to hold: low quotient guesses
(`DoubleGuess.SoundForIff`, `Division.DivisionRightIff`), odd numbers of hexadecimal digits
(`HexBase64.BackAgainIff`), ciphertexts shorter than their tag (`Ccm.DecryptsRightIff`), hashing on after 2^31
bits (`Sha256.LoopStartIff`), replies without an error field (`Migration.EndsIff`), values over the size limit
(`MemcacheMulti.CreditedIff`), CBC without the original size (`AesModes.DecryptEncryptUnsized`), indexes
changed (`ViewDiff.IndexesKeptIff`), deletions undone (`CreateViews.DeletionUndoneIff`), leftover temporary
documents and empty sets of views (`CreateViews.CompletesIff`), keys with a line feed at their end
(`MemcacheClient.KeyReadIff`) and keys with the same text (`MemcacheKeys.OwnIff`).

The comments in `couchdb/AESCipher.py` call the key size a bit length and keys and vectors hexadecimal; the code
takes sizes in bytes and lists of numbers, and so does the model.

Conventions: `Ring` names products and quotients so that proofs use one law at a time; `hide` statements in
a body say which definitions its proof does not need. Bytes of the ciphers are 8-bit vectors, characters of
the memcached protocol are `char`, and JavaScript numbers are integers with their exactness stated.

## Model

| member | source | states |
|---|---|---|
| `JsNumber.NBits` | scripts/unittests/adyen-cse.js:8 | the bit length of a 32-bit number (1 for zero): the number is below 2^r and not below 2^(r-1) |
| `Digits.SUnique` | scripts/unittests/adyen-cse.js:8 | digits below 2^26 are determined by the number they write and their count |
| `Digits.SDivMod` | scripts/unittests/adyen-cse.js:8 | the digits below and from an index on are remainder and quotient of the number by that power of 2^26 |
| `SignedDigits.SignOf` | scripts/unittests/adyen-cse.js:8 | the sign field alone tells whether the number is negative, for digits in range |
| `SignedDigits.AccumulatorBound` | scripts/unittests/adyen-cse.js:8 | every intermediate sum of the kernel am1 is an exact double below 2^53, also for the doubled 27-bit multiplier that squaring passes |
| `BigIntegers.BigInteger.CopyTo` | scripts/unittests/adyen-cse.js:8 | the copy has the same digits, length, sign and value |
| `BigIntegers.BigInteger.FromInt` | scripts/unittests/adyen-cse.js:8 | the number is the integer given, in canonical form, for one digit and a sign |
| `BigIntegers.BigInteger.Clamp` | scripts/unittests/adyen-cse.js:8 | only superfluous sign digits are dropped; the value stays and the form is canonical |
| `BigIntegers.BigInteger.CompareTo` | scripts/unittests/adyen-cse.js:8 | the result is positive just when this is greater, and 0 just when both are equal, for all signs and lengths |
| `BigIntegers.BigInteger.DlShiftTo` | scripts/unittests/adyen-cse.js:8 | the value times 2^26 to the n, in place too; n = -t, which Montgomery conversion of zero reaches, leaves no digit |
| `BigIntegers.BigInteger.DrShiftTo` | scripts/unittests/adyen-cse.js:8 | the value divided by 2^26 to the n, rounded down for negative numbers too, in place too |
| `BigIntegers.BigInteger.SubTo` | scripts/unittests/adyen-cse.js:8 | the exact difference for all signs and lengths in canonical form, also when the target is either operand or both |
| `BigIntegers.BigInteger.Negate` | scripts/unittests/adyen-cse.js:8 | a new number with the opposite value |
| `BigIntegers.BigInteger.Abs` | scripts/unittests/adyen-cse.js:8 | the absolute value; the object itself if it is not negative |
| `BigIntegers.BigInteger.Am` | scripts/unittests/adyen-cse.js:8 | one multiply-accumulate row: the window plus carry out times its weight is the old window plus x times the digits plus carry in; the carry stays at most x and nothing outside the window changes |
| `BigIntegers.BigInteger.LShiftTo` | scripts/unittests/adyen-cse.js:8 | the value times 2^n in canonical form, in place too |
| `BigIntegers.BigInteger.RShiftTo` | scripts/unittests/adyen-cse.js:8 | the value divided by 2^n, rounded down, in canonical form, in place too |
| `BigIntegers.BigInteger.MultiplyTo` | scripts/unittests/adyen-cse.js:8 | the exact product of operands of any sign and length |
| `BigIntegers.BigInteger.SquareTo` | scripts/unittests/adyen-cse.js:8 | the exact square, and so what multiplyTo gives for equal operands, although each row handles a product once and doubled |
| `BigIntegers.BigInteger.SquareRow` | scripts/unittests/adyen-cse.js:8 | one row of squaring: what is already written plus the square of the digits not yet used stays the square of the whole, and the carry out of the doubled row is put right |
| `SignedDigits.SquareOfSum` | scripts/unittests/adyen-cse.js:8 | the identity behind a squaring row: the square of a digit and a rest splits into the digit squared, twice the cross product and the rest squared |
| `Division.TruncatedDivision` | scripts/unittests/adyen-cse.js:8 | quotient and remainder recompose the dividend, the remainder is smaller than the divisor and has the sign of the dividend; and they are the only such pair |
| `Division.ScaledDivision` | scripts/unittests/adyen-cse.js:8 | shifting dividend and divisor alike keeps the quotient and shifts the remainder, which is why normalizing is harmless |
| `Division.NormalizingShift` | scripts/unittests/adyen-cse.js:8 | shifting by the leading zero bits of the top digit sets the top bit of the divisor |
| `Division.StateToBuffer` | scripts/unittests/adyen-cse.js:8 | before a step the buffer is the one in which the quotient digit 0 has been tried |
| `Division.BufferToState` | scripts/unittests/adyen-cse.js:8 | with the true quotient digit in place the buffer is the state after the step |
| `Division.TrialDigit` | scripts/unittests/adyen-cse.js:8 | after adding a multiple of the complement of the divisor, the digit that is left in place is the digit tried or one less, and tells whether the trial was too large |
| `Division.SettleIff` | scripts/unittests/adyen-cse.js:8 | the corrections end at the true quotient digit if and only if the guess was not below it; a guess below it is not corrected |
| `Division.StepRightIff` | scripts/unittests/adyen-cse.js:8 | a division step leaves the right state behind if and only if its guess was not below the true quotient digit |
| `Division.DivisionRightIff` | scripts/unittests/adyen-cse.js:8 | a whole division ends in the right state and with proper digits if and only if none of its guesses was below the true digit, whatever the guess is |
| `BigIntegers.BigInteger.DivideStep` | scripts/unittests/adyen-cse.js:8 | one quotient digit: for any guess from the true digit up to 2^26 the state moves on by one digit, and the correction loop ends |
| `BigIntegers.BigInteger.Correct` | scripts/unittests/adyen-cse.js:8 | the correction loop takes the shifted divisor off until the digit tried is the true one |
| `BigIntegers.BigInteger.DivideTop` | scripts/unittests/adyen-cse.js:8 | the first comparison takes the shifted divisor off at most once; with fewer digits than the divisor only a 1 is written |
| `BigIntegers.BigInteger.DivRemTo` | scripts/unittests/adyen-cse.js:8 | truncating division for all signs, with targets that may be operands, for every guess of the quotient digits that is not too low: quotient and remainder as above, and nothing changes for divisor zero |
| `BigIntegers.BigInteger.Normalize` | scripts/unittests/adyen-cse.js:8 | both operands are shifted by the same number of bits so that the divisor has its top bit set |
| `BigIntegers.BigInteger.Residue` | scripts/unittests/adyen-cse.js:8 | the remainder as a number from 0 to below the modulus, for negative dividends too |
| `BigIntegers.BigInteger.InvDigit` | scripts/unittests/adyen-cse.js:8 | the negated inverse of an odd lowest digit modulo 2^26 by four Newton steps, and 0 for an even one |
| `Congruence.NewtonStep` | scripts/unittests/adyen-cse.js:8 | an inverse modulo c with error e gives one modulo the square |
| `Congruence.MaskedNewton` | scripts/unittests/adyen-cse.js:8 | a Newton step on the low bits only is a Newton step |
| `Congruence.TwoBitInverse` | scripts/unittests/adyen-cse.js:8 | an odd number is its own inverse in two bits, where Newton starts |
| `Congruence.LastNewton` | scripts/unittests/adyen-cse.js:8 | the last Newton step with truncated remainders and its negation give the negated inverse modulo 2^26 |
| `Congruence.ModUnique` | scripts/unittests/adyen-cse.js:8 | two numbers from 0 to below the modulus that are congruent are equal |
| `Congruence.CancelPow2` | scripts/unittests/adyen-cse.js:8 | a power of two can be cancelled modulo an odd number |
| `QuotientGuess.ExactGuessSound` | scripts/unittests/adyen-cse.js:8 | the guess in exact arithmetic is never below the true digit and at most 2^26 |
| `QuotientGuess.ExactAlwaysSound` | scripts/unittests/adyen-cse.js:8 | so with exact guesses the condition of the division holds for all operands |
| `QuotientGuess.ComputesUnique` | scripts/unittests/adyen-cse.js:8 | the doubles of the guess formula are determined, rounding to nearest with ties to even |
| `QuotientGuess.DoubleGuessTooLow` | scripts/unittests/adyen-cse.js:8 | a concrete divisor and dividend for which the guess in doubles is one below the true digit |
| `QuotientGuess.TooLowRemainder` | scripts/unittests/adyen-cse.js:8 | in that case the step leaves the divisor itself as the remainder |
| `QuotientGuess.DoubleGuessRange` | scripts/unittests/adyen-cse.js:8 | in doubles the guess is at most one too low and never above 2^26 |
| `DoubleGuess.GuessIff` | scripts/unittests/adyen-cse.js:8 | the guess computed with five rounded operations is the only one that rounding to nearest even allows |
| `DoubleGuess.ClearGuess` | scripts/unittests/adyen-cse.js:8 | the guess in doubles is not too low, and at most 2^26, where the remainder of the leading digits is zero or at least 2^26, or the top digits agree |
| `DoubleGuess.ClearSound` | scripts/unittests/adyen-cse.js:8 | so no guess of a division is too low if each of its windows is of that kind |
| `DoubleGuess.OneDigitSound` | scripts/unittests/adyen-cse.js:8 | for a divisor of one digit, with any number of zero digits below it, no guess is ever too low, whatever is divided |
| `DoubleGuess.SoundForIff` | scripts/unittests/adyen-cse.js:8 | for any way of guessing and any divisor: no guess is too low, whatever is divided, if and only if for every two top digits it reaches the largest quotient they allow and is at most 2^26 |
| `DoubleGuess.ProgramGuessTooLow` | scripts/unittests/adyen-cse.js:8 | the guess of the program is too low for a concrete dividend and divisor |
| `DoubleGuess.LowDigitMadeUp` | scripts/unittests/adyen-cse.js:8 | a concrete division with a digit guessed too low that ends in the right state all the same: the next digit tried is 2^26, which is no proper digit |
| `ProgramDivision.DivRemTo` | scripts/unittests/adyen-cse.js:8 | truncating division with the guess of the program, for dividends and divisors of which every window is clear |
| `ProgramDivision.ModPowInt` | scripts/unittests/adyen-cse.js:8 | b^e mod m with the guess of the program: Montgomery exponentiation needs the one division that converts the base to be clear, the others the exact condition on the modulus |
| `ProgramDivision.ModPowDigit` | scripts/unittests/adyen-cse.js:8 | b^e mod m with the guess of the program for every base, every exponent and every modulus of one digit |
| `Reducers.ClearingDigitIsProduct` | scripts/unittests/adyen-cse.js:8 | the multiplier formed from 15-bit halves is the digit times the negated inverse modulo 2^26, all within exact doubles |
| `Reducers.DigitCleared` | scripts/unittests/adyen-cse.js:8 | adding that multiple of the modulus makes the lowest digit zero |
| `Reducers.ReducingStep` | scripts/unittests/adyen-cse.js:8 | a step of the reduction keeps the congruence and the bound and clears one more digit |
| `Reducers.ReducingDone` | scripts/unittests/adyen-cse.js:8 | after all digits the number divided by the power is congruent to the old one times its inverse and below twice the modulus |
| `Reducers.Montgomery.constructor` | scripts/unittests/adyen-cse.js:8 | for an odd positive modulus the tables of the reducer are set up |
| `Reducers.Montgomery.Convert` | scripts/unittests/adyen-cse.js:8 | x times 2^26 to the t modulo m, for negative x and zero too |
| `Reducers.Montgomery.ReduceDigit` | scripts/unittests/adyen-cse.js:8 | one digit is cleared and the carry stays within the 2t + 1 digits |
| `Reducers.Montgomery.Reduce` | scripts/unittests/adyen-cse.js:8 | for 0 <= x < m R the result in place is the y from 0 to below m with y R congruent to x modulo m |
| `Reducers.Montgomery.Revert` | scripts/unittests/adyen-cse.js:8 | the factor is taken out again |
| `Reducers.Classic.Convert` | scripts/unittests/adyen-cse.js:8 | a number is reduced if it is negative or not below the modulus |
| `Reducers.Classic.Reduce` | scripts/unittests/adyen-cse.js:8 | the remainder in place |
| `ModPow.ProductStands` | scripts/unittests/adyen-cse.js:8 | the product of two representatives, reduced, represents the product |
| `ModPow.RevertStands` | scripts/unittests/adyen-cse.js:8 | the number reverted from a representative is the residue of what it represents |
| `ModPow.ExponentBit` | scripts/unittests/adyen-cse.js:8 | reading one bit more of the exponent is squaring and, for a set bit, multiplying by the base |
| `ModPow.ExpBit` | scripts/unittests/adyen-cse.js:8 | squaring into the other buffer and multiplying back or swapping keeps the buffer a representative of the power of the bits read |
| `ModPow.Exp` | scripts/unittests/adyen-cse.js:8 | left-to-right exponentiation with either reducer gives the power modulo the modulus for 1 <= e < 2^32, and 1 otherwise |
| `ModPow.ModPowInt` | scripts/unittests/adyen-cse.js:8 | b^e mod m for every base, positive m and 1 <= e < 2^32, by division for small e or even m and by Montgomery reduction otherwise, for every guess that is not too low |
| `BigStrings.PushAcross` | scripts/unittests/adyen-cse.js:8 | a text digit that straddles two digits of the number is split between them without loss |
| `BigStrings.PushDigit` | scripts/unittests/adyen-cse.js:8 | a text digit is put above the bits held |
| `BigStrings.FromString` | scripts/unittests/adyen-cse.js:8 | the number that the digits write in base 2, 4, 8, 16 or 32, other characters passed over, negative if a minus sign stands before the first digit |
| `BigStrings.WithinDigit` | scripts/unittests/adyen-cse.js:8 | a text digit that lies within one digit of the number is read off by a shift and a mask |
| `BigStrings.AcrossDigits` | scripts/unittests/adyen-cse.js:8 | a text digit across two digits of the number is put together from both |
| `BigStrings.NextDigit` | scripts/unittests/adyen-cse.js:8 | the loop of toString yields the next text digit and the place of the one below |
| `BigStrings.ToString` | scripts/unittests/adyen-cse.js:8 | the text of the number without leading zeros, with a minus sign for negative ones |
| `BigStrings.ReadWrittenInteger` | scripts/unittests/adyen-cse.js:8 | reading the text of a number gives the number again, for every integer and base |
| `HexBase64.HexToBase64` | scripts/unittests/adyen-cse.js:5 | character i of the text is that of the alphabet for bits 6 i to 6 i + 5 of the digits, with zeros behind them, and the text is padded to a multiple of four |
| `HexBase64.Base64ToHex` | scripts/unittests/adyen-cse.js:5 | the four-state reader yields four bits after four of the characters meant, as many as `HexBase64.DigitsAre` says |
| `HexBase64.IndexIff` | scripts/unittests/adyen-cse.js:5 | a character is read just when it is in the alphabet, and then as its place there |
| `HexBase64.DigitsAre` | scripts/unittests/adyen-cse.js:5 | digit i read is bits 4 i to 4 i + 3 of the characters, zeros behind them, for any characters; whole bytes come out, and a single character in the last group gives one filled with zeros |
| `HexBase64.PassedOver` | scripts/unittests/adyen-cse.js:5 | a character outside the alphabet makes no difference to what is read |
| `HexBase64.PadEnds` | scripts/unittests/adyen-cse.js:5 | nor does anything from the first pad on |
| `HexBase64.DigitsOfValues` | scripts/unittests/adyen-cse.js:5 | what reading back gives for every number of digits |
| `HexBase64.BackAgainIff` | scripts/unittests/adyen-cse.js:5 | converting to base 64 and back gives the digits again if and only if their number is even; otherwise a zero is added or the last digit lost |
| `SjclTables.Entries` | scripts/unittests/adyen-cse.js:20 | the four round tables are the substituted byte times the coefficients of the mix, each table the one before turned by eight bits |
| `SjclTables.TableRound` | scripts/unittests/adyen-cse.js:20 | four table look-ups and a key word are a column of SubBytes, ShiftRows, MixColumns and AddRoundKey, in both directions |
| `SjclTables.FinalRound` | scripts/unittests/adyen-cse.js:20 | the last round by byte look-ups is a round without the mix |
| `SjclTables.InvRoundIs` | scripts/unittests/adyen-cse.js:20 | an inverse round is a table round with its key mixed beforehand (FIPS 197, section 5.3.5) |
| `SjclAes.CorePacked` | scripts/unittests/adyen-cse.js:20 | the key schedule core on words, substituting before turning, is that on bytes |
| `SjclAes.MixedKey` | scripts/unittests/adyen-cse.js:20 | decrypting tables at substituted bytes mix a key word |
| `SjclAes.RoundLies` | scripts/unittests/adyen-cse.js:20 | a table round of the four words, in either order of the columns, is a round of the state |
| `SjclAes.NextState` | scripts/unittests/adyen-cse.js:20 | each table round goes one round on in the plain cipher or its inverse |
| `SjclCipher.NextWord` | scripts/unittests/adyen-cse.js:20 | the next word of the word-based key schedule is the one of the byte-based schedule, and the round constant k moves on as a power of x |
| `SjclCipher.ExpandWords` | scripts/unittests/adyen-cse.js:20 | all 4 nk + 28 words of the schedule, for 4, 6 and 8 key words |
| `SjclCipher.ReverseWords` | scripts/unittests/adyen-cse.js:20 | the decrypting schedule: rounds in reverse, the last three words of each reversed, inner keys mixed |
| `SjclCipher.Aes.constructor` | scripts/unittests/adyen-cse.js:20 | both schedules of the cipher object are those of its key |
| `SjclCipher.NewCipher` | scripts/unittests/adyen-cse.js:20 | keys of other than 4, 6 or 8 words are refused |
| `SjclCipher.RunRounds` | scripts/unittests/adyen-cse.js:20 | all rounds over a schedule compute the plain cipher, or its inverse, on the columns of a block |
| `SjclCipher.Aes.Crypt` | scripts/unittests/adyen-cse.js:20 | table-driven encryption and decryption equal the plain byte cipher for every key size and block; other block lengths are refused |
| `SjclCipher.CryptInverts` | scripts/unittests/adyen-cse.js:20 | a block is the encryption of another just when that one is its decryption |
| `SjclCipher.CryptTwice` | scripts/unittests/adyen-cse.js:20 | one object decrypts what it encrypted to the words of the block |
| `SjclCipher.CryptBack` | scripts/unittests/adyen-cse.js:20 | and encrypts what it decrypted to them |
| `Logarithms.LogTriple` | scripts/unittests/adyen-cse.js:20 | multiplying by x + 1 adds one to the logarithm modulo 255: x + 1 generates all elements but zero |
| `SjclGenerator.ExpInverse` | scripts/unittests/adyen-cse.js:20 | the inverse read off the S-box is the power of x + 1 with the negative of the logarithm |
| `SjclGenerator.InverseStep` | scripts/unittests/adyen-cse.js:20 | multiplying an element by x + 1 divides its inverse by x + 1 |
| `SjclGenerator.Doubling` | scripts/unittests/adyen-cse.js:20 | the tables of doubles and of thirds |
| `SjclGenerator.Step` | scripts/unittests/adyen-cse.js:20 | one turn of table generation fills in one more element, and moves on to the next element and its inverse |
| `SjclGenerator.NotBack` | scripts/unittests/adyen-cse.js:20 | the walk does not stop before every element has been met |
| `SjclGenerator.Generate` | scripts/unittests/adyen-cse.js:20 | table generation ends after 256 turns with the S-box, its inverse and all eight round tables complete and right |
| `BitArray.PartialAgain` | scripts/unittests/adyen-cse.js:20 | a partial word as a number keeps its bits and its length and is an exact double |
| `BitArray.PackedCanonical` | scripts/unittests/adyen-cse.js:20 | packing bits gives a canonical array of those bits |
| `BitArray.FlatPacked` | scripts/unittests/adyen-cse.js:20 | a canonical array is determined by its bits |
| `BitArray.BitLengthIs` | scripts/unittests/adyen-cse.js:20 | bitLength is the number of bits |
| `BitArray.Shift` | scripts/unittests/adyen-cse.js:20 | the shift-carry loop K gives the bits of the front, the carried bits and those of the array, in canonical form |
| `BitArray.Concat` | scripts/unittests/adyen-cse.js:20 | concat is concatenation of the bits |
| `BitArray.Clamp` | scripts/unittests/adyen-cse.js:20 | clamp takes the first bits if there are so many; a greater length within the last word is filled up with zeros, from the end of that word on nothing changes, and a negative one counts back from it |
| `BitArray.BitSlice` | scripts/unittests/adyen-cse.js:20 | bitSlice is the slice of the bits, from negative places and places beyond the end too; its end is treated as clamp treats it |
| `BitArray.Equal` | scripts/unittests/adyen-cse.js:20 | equal finds arrays equal just when their bits are |
| `Sha256.DigestAppend` | scripts/unittests/adyen-cse.js:20 | going on with more bits is going on from the bits behind the last block |
| `Sha256.LoopStartIff` | scripts/unittests/adyen-cse.js:20 | the loop of an update starts at the end of the block being filled if and only if fewer than 2^31 - 512 bits were given before; else at least 2^32 bits too low |
| `Sha256.Sha256.Update` | scripts/unittests/adyen-cse.js:20 | after any updates the chaining value, buffer and total are those of all bits given, however they were split, as long as fewer than 2^31 - 512 bits were given before |
| `Sha256.DigestLast` | scripts/unittests/adyen-cse.js:20 | one block more is compressed into the chaining value of the blocks before it |
| `Sha256.FirstBlockWord` | scripts/unittests/adyen-cse.js:20 | the words of a block are its bits, 32 at a time |
| `Sha256.PaddedIff` | scripts/unittests/adyen-cse.js:20 | the padding is the message, a one, as few zeros as leave whole blocks, and last 64 bits whose value is the length modulo 2^64 (FIPS 180-4, section 5.1.1), and it is the only one |
| `Sha256.Sha256.Finalize` | scripts/unittests/adyen-cse.js:20 | what is compressed is exactly that padding of all bits given, in particular with last 64 bits whose value is their number modulo 2^64; the object starts afresh |
| `BitNumbers.ValueOfNumber` | scripts/unittests/adyen-cse.js:20 | the lowest k bits of a number, read highest first, have its value modulo 2^k |
| `BitNumbers.NumberOfValue` | scripts/unittests/adyen-cse.js:20 | bits are those of their value, which is below 2^k |
| `Ccm.Authenticate` | scripts/unittests/adyen-cse.js:20 | the tag is the first bits of the block chain over first block, associated data and message; what it covers is `CcmTags.TagsDiffer` |
| `Ccm.AddKeyStream` | scripts/unittests/adyen-cse.js:20 | the message bits with the counter key stream added, and the tag with its first block added |
| `Ccm.FindLengthBytes` | scripts/unittests/adyen-cse.js:20 | the number of length bytes is the least from two up that leaves no more of the 15 than the nonce has and, for lengths below 2^32, can hold the length |
| `Ccm.Encrypt` | scripts/unittests/adyen-cse.js:20 | CCM encryption; short nonces and invalid tag lengths are refused |
| `Ccm.Decrypt` | scripts/unittests/adyen-cse.js:20 | what decryption makes of every ciphertext, also one shorter than the tag; of one that is not shorter it gives a message just when the ciphertext is the encryption of that message, and finds anything else corrupt |
| `Ccm.ShortRightIff` | scripts/unittests/adyen-cse.js:20 | a ciphertext shorter than the tag is decrypted rightly if and only if it is found corrupt |
| `Ccm.DecryptsRightIff` | scripts/unittests/adyen-cse.js:20 | decryption is right for all block functions and all ciphertexts of n bits if and only if n is not below the length of the tag |
| `Ccm.ZerosAccepted` | scripts/unittests/adyen-cse.js:20 | with the block function that is zero, fewer zeros than the tag has are taken for the encryption of a message |
| `Ccm.EncryptThenDecrypt` | scripts/unittests/adyen-cse.js:20 | what was encrypted is decrypted to itself and its tag accepted |
| `CcmBlocks.CounterIs` | scripts/unittests/adyen-cse.js:20 | counting changes the last word of a counter block alone, by one each time, modulo 2^32 |
| `CcmBlocks.CounterBits` | scripts/unittests/adyen-cse.js:20 | the k-th counter block is the length of the length less one, the nonce, and k in the bytes left (RFC 3610, section 2.3) |
| `CcmBlocks.FlagBits` | scripts/unittests/adyen-cse.js:20 | the flags are a zero, one bit for the presence of associated data, three for the length of the tag and three for that of the length (RFC 3610, section 2.2) |
| `CcmBlocks.FirstBlockBits` | scripts/unittests/adyen-cse.js:20 | the first block is the flags, the nonce, and the number of bytes of the message in the bytes left |
| `CcmBlocks.PrefixValue` | scripts/unittests/adyen-cse.js:20 | the length of the associated data is said in two bytes up to 65279, and otherwise in four behind the bytes of 65534 |
| `CcmBlocks.SameAssociated` | scripts/unittests/adyen-cse.js:20 | the blocks of associated data with their length in front determine the data |
| `CcmBlocks.FedDetermines` | scripts/unittests/adyen-cse.js:20 | what is given to the block chain determines message, associated data, nonce, tag length and length bytes, for messages and associated data of whole bytes below 2^32 bytes |
| `CcmTags.TagIsMac` | scripts/unittests/adyen-cse.js:20 | the tag is the cipher block chain over first block, associated data and message |
| `CcmTags.TagsDiffer` | scripts/unittests/adyen-cse.js:20 | for inputs that differ in message, associated data, nonce, tag length or length bytes, some block function gives different tags, even in the first word |
| `CcmTags.OtherRefused` | scripts/unittests/adyen-cse.js:20 | with some block function a ciphertext made with some associated data decrypts to the message with that and is found corrupt with any other |
| `CcmTags.EncryptedBit` | scripts/unittests/adyen-cse.js:20 | every bit of a ciphertext: of the message with that of the block function at the counter block of its block, counted from one; behind it, of the chain with that at the counter block 0 |
| `Galois.MulLinear` | couchdb/AESCipher.py:205-217 | the field product distributes over addition |
| `Galois.MulRight` | couchdb/AESCipher.py:205-217 | and on the other side |
| `Galois.MulDouble` | couchdb/AESCipher.py:205-217 | multiplying by x commutes with multiplying by a short polynomial |
| `Galois.Multiply` | couchdb/AESCipher.py:205-217 | the shift-and-add loop computes the product in GF(2^8) |
| `AesTables.SBoxInverse` | couchdb/AESCipher.py:37-95 | the two substitution tables undo each other, all 256 entries |
| `AesCipher.RconTable` | couchdb/AESCipher.py:106-133 | the round constants used are the powers of x |
| `AesState.SubBytesInverse` | couchdb/AESCipher.py:223-227 | substitution is undone by the inverse substitution, both ways |
| `AesState.ShiftRowsInverse` | couchdb/AESCipher.py:230-246 | turning the rows is undone by turning them back, both ways |
| `AesState.AddRoundKeyInverse` | couchdb/AESCipher.py:188-192 | adding a key twice changes nothing |
| `AesState.DotInverse` | couchdb/AESCipher.py:262-276 | a mixed column mixed back gives every byte again, both ways |
| `AesState.MixColumnsInverse` | couchdb/AESCipher.py:249-259 | mixing the columns is undone by the inverse mix, both ways |
| `AesExamples.FirstWords` | couchdb/AESCipher.py:147-186 | the words that FIPS 197 works out in appendix A for keys of each length, among them one substituted without being turned |
| `AesCipher.BackwardMeetsForward` | couchdb/AESCipher.py:296-322 | round by round the inverse cipher unwinds the cipher |
| `AesCipher.DecryptEncrypt` | couchdb/AESCipher.py:325-404 | decryption undoes encryption for every key and block |
| `AesCipher.EncryptDecrypt` | couchdb/AESCipher.py:325-404 | encryption undoes decryption: the cipher is a permutation of the blocks |
| `AesBlock.SubstituteBytes` | couchdb/AESCipher.py:223-227 | every byte of the state is substituted in place |
| `AesBlock.ShiftRow` | couchdb/AESCipher.py:236-246 | a row turned n times by slices is turned by n places, other rows untouched |
| `AesBlock.TurnRows` | couchdb/AESCipher.py:230-233 | row r of the state is turned by r places |
| `AesBlock.MixColumn` | couchdb/AESCipher.py:262-276 | each byte of a column is the sum of four products with the bytes above it |
| `AesBlock.MixAllColumns` | couchdb/AESCipher.py:249-259 | columns taken out of the rows, mixed and put back |
| `AesBlock.AddKey` | couchdb/AESCipher.py:188-192 | the round key is added in place |
| `AesBlock.KeyCore` | couchdb/AESCipher.py:135-145 | the schedule core: turn, substitute, add the round constant |
| `AesBlock.NextTemporary` | couchdb/AESCipher.py:165-177 | the core every key length, and an extra substitution half way for long keys |
| `AesBlock.ExpandWord` | couchdb/AESCipher.py:165-184 | one turn of the expansion loop appends the next word of the schedule of FIPS 197, section 5.2 |
| `AesBlock.ExpandKey` | couchdb/AESCipher.py:147-186 | the expanded key holds the schedule word by word, for all three key sizes |
| `AesBlock.CreateRoundKey` | couchdb/AESCipher.py:194-203 | sixteen bytes of the expanded key, rows and columns exchanged |
| `AesBlock.RunForward` | couchdb/AESCipher.py:296-307 | all rounds of the cipher in place |
| `AesBlock.RunBackward` | couchdb/AESCipher.py:311-322 | all rounds of the inverse cipher in place |
| `AesBlock.EncryptBlock` | couchdb/AESCipher.py:325-365 | the cipher of a block in a new list, or nothing for an unsupported size |
| `AesBlock.DecryptBlock` | couchdb/AESCipher.py:368-404 | the inverse cipher likewise |
| `AesModes.CipherPiece` | couchdb/AESCipher.py:436-504 | block j of the ciphertext is the encrypted block j, cut to length unless in CBC |
| `AesModes.ModeEquations` | couchdb/AESCipher.py:436-504 | the equations of NIST SP 800-38A on the blocks of text and ciphertext: repeated encryption of the vector in OFB, the block of ciphertext before in CFB and CBC |
| `AesModes.SameCarried` | couchdb/AESCipher.py:436-588 | encryption and decryption carry the same values from block to block |
| `AesModes.DecryptEncryptText` | couchdb/AESCipher.py:436-588 | decryption undoes encryption in OFB, CFB and CBC for every message, the empty one and a partial last block included, key size and vector; CBC is given the original size |
| `AesModes.DecryptEncryptUnsized` | couchdb/AESCipher.py:436-588 | without the size CBC gives the text and its zero padding, and so the text if and only if it was whole blocks |
| `AesModeOfOperation.ConvertString` | couchdb/AESCipher.py:415-429 | up to 16 characters as numbers, filled with zeros in CBC |
| `AesModeOfOperation.StreamRound` | couchdb/AESCipher.py:458-495 | a block of CFB or OFB, after which the input list is another name of the ciphertext or the output |
| `AesModeOfOperation.ChainRound` | couchdb/AESCipher.py:496-506 | a block of CBC |
| `AesModeOfOperation.EncryptMessage` | couchdb/AESCipher.py:436-507 | the ciphertext of the mode, despite the shared lists; nothing for a key or vector that is not of whole units |
| `AesModeOfOperation.DecryptMessage` | couchdb/AESCipher.py:515-588 | the plaintext of the mode, cut to the original size in CBC when that is given |
| `AesEnvelope.StripAppend` | couchdb/AESCipher.py:18-31 | stripping undoes PKCS7 padding for every string |
| `AesEnvelope.AppendStrip` | couchdb/AESCipher.py:18-31 | padding again what was stripped gives the string back if and only if all of its padding was right, as only the last byte is looked at |
| `AesEnvelope.HexPlaces` | couchdb/AESCipher.py:591-634 | each byte is written as its high and then its low digit of 0123456789ABCDEF |
| `AesEnvelope.FromToHex` | couchdb/AESCipher.py:591-634 | hexadecimal text is read back to the same bytes |
| `AesEnvelope.ParsedSealed` | couchdb/AESCipher.py:607-627 | the vector and the ciphertext are found again on either side of the separator |
| `AesEnvelope.ZeroVector` | couchdb/AESCipher.py:619-627 | a text without a vector opens like the one with a vector of zeros in front |
| `AesEnvelope.OpenSealed` | couchdb/AESCipher.py:591-634 | opening what was sealed gives the data, for every supported key, vector and mode |
| `AesEnvelope.EncryptData` | couchdb/AESCipher.py:591-607 | the sealed text, or failure for a key that is no hexadecimal text of a supported size |
| `AesEnvelope.DecryptData` | couchdb/AESCipher.py:609-634 | the opened data, or failure for malformed text, vector, length or padding |
| `Migration.StepKeeps` | scripts/migration/id_migration.py:51-67 | every step of the reader, the workers and the writer keeps each user in one place and the output that of the users before the next one |
| `Migration.AnsweredOnce` | scripts/migration/id_migration.py:87-101 | the answer for a batch has each of its users once |
| `Migration.OnePlace` | scripts/migration/id_migration.py:51-120 | in every run each user is at every moment in exactly one place, once |
| `Migration.RenderedTokens` | scripts/migration/id_migration.py:111-120 | the text has five tokens for each user, four for the last: the name, a colon, the rest of its reply with the error kept just when it counts as true, a comma unless it is the last, and a new line |
| `Migration.OutputInOrder` | scripts/migration/id_migration.py:103-120 | for every interleaving the writer has written exactly that for the first users of the input, in order, each once |
| `Migration.StepWorks` | scripts/migration/id_migration.py:51-120 | each step does some of a bounded amount of work, or is a turn of the writer that finds nothing |
| `Migration.ChangesBounded` | scripts/migration/id_migration.py:51-120 | in every run the threads together take at most 5 n + 4 steps that change anything, for n users |
| `Migration.WriterEnds` | scripts/migration/id_migration.py:103-120 | once the workers have finished, the writer ends within as many turns as there are waiting answers and unwritten users |
| `Migration.SomeoneWorks` | scripts/migration/id_migration.py:51-120 | until everything is written some thread can do work: there is no deadlock |
| `Migration.StuckAt` | scripts/migration/id_migration.py:109-114 | the writer never gets past a user whose reply has no error field |
| `Migration.EndsIff` | scripts/migration/id_migration.py:51-120 | a migration of distinct users can end if and only if every reply has an error field |
| `ViewDiff.DiffView` | couchdb/couchdbcmd.py:261-275 | every name falls under create, update or delete, or is the same on both sides |
| `ViewDiff.DiffPatches` | couchdb/couchdbcmd.py:261-275 | carrying the difference out on the existing definitions gives those wanted, and it is empty just when nothing differs |
| `ViewDiff.DiffUnique` | couchdb/couchdbcmd.py:261-275 | the difference is determined |
| `ViewDiff.MakeRequest` | couchdb/couchdbcmd.py:382-408 | refused just when the flag is off and a wanted view differs from the one of its name or an existing index is not wanted; nothing just when what is wanted is there; else the request has the rest of the document, what is wanted, what is not wanted as it was, and without the flag the other views |
| `ViewDiff.PlanUnique` | couchdb/couchdbcmd.py:382-408 | that determines the answer |
| `ViewDiff.RequestKeeps` | couchdb/couchdbcmd.py:390-408 | without the flag no existing view is changed or dropped and no existing index dropped, and all wanted definitions are in the request |
| `ViewDiff.IndexesKeptIff` | couchdb/couchdbcmd.py:402-408 | without the flag every existing index keeps its definition if and only if no wanted one differs from it: nothing is refused for that |
| `ViewDiff.IndexChanges` | couchdb/couchdbcmd.py:402-408 | a request that changes an index without the flag |
| `ViewDiff.AgainNothing` | couchdb/couchdbcmd.py:390-408 | asking again changes nothing if and only if no view was kept that is not wanted |
| `CreateViews.RunKnows` | couchdb/couchdbcmd.py:382-464 | the revision the script holds stays that of the document it read, whatever others write between its requests |
| `CreateViews.PlanFromRead` | couchdb/couchdbcmd.py:382-388 | the plan of a run is that for the live document first read, or for an empty one in JavaScript |
| `CreateViews.ChangesOnlyWhatWasRead` | couchdb/couchdbcmd.py:451-457 | the live document is changed in one step only, over exactly the document first read or where there is none, and then is the whole request |
| `CreateViews.OldOrNew` | couchdb/couchdbcmd.py:410-464 | with nobody else writing, at every crash point the live document is the old or the whole new one and never missing if there was one |
| `CreateViews.Cleared` | couchdb/couchdbcmd.py:459-464 | a completed run leaves neither temporary document, except an old saved copy when there was no live one |
| `CreateViews.CompletesIff` | couchdb/couchdbcmd.py:410-464 | the script alone completes if and only if no temporary document was left in its way, the first read worked if there was a document, and the request has no empty set of views |
| `CreateViews.EmptyRequestIff` | couchdb/couchdbcmd.py:390-401 | when the request has an empty set of views: from the document read, or where none are wanted and none are there or differences are ignored |
| `CreateViews.EmptyViewsBlock` | couchdb/couchdbcmd.py:426-435 | with an empty set of views the look-up of the first one raises an exception: the live document is never replaced, the temporary ones stay, and every later run fails too |
| `CreateViews.EmptyViewsWitness` | couchdb/couchdbcmd.py:433-434 | such a run: an index added to a document whose set of views is empty |
| `CreateViews.NoViewIff` | couchdb/couchdbcmd.py:410-424 | the script goes on as if there were no document if and only if the copy request found none, or a saved copy was left and the conflict was misread |
| `CreateViews.DeletionUndoneIff` | couchdb/couchdbcmd.py:410-457 | a deletion by others before the publishing is undone if and only if the copy request, on the server as it was then, found no document or was taken to have found none |
| `CreateViews.DeletionUndone` | couchdb/couchdbcmd.py:412-457 | it does so when the document was deleted right after the first read, if and only if the request has no empty set of views |
| `Paging.NewRows` | couchdb/bumprev.py:54-65 | the new rows of a page are those right behind the cursor |
| `Paging.BumpRev` | couchdb/bumprev.py:50-72 | every document is posted once, in key order, for every number of documents and every batch size but 0, with which it stops after the first |
| `Paging.Database.Purge` | couchdb/couchdbcmd.py:515-528 | every document is deleted once, in key order, a page at a time, until none is left |
| `MemcacheHost.Host.ReadLine` | memcache/memcache.py:1167-1193 | the next line depends on the unread bytes alone, not on how they arrive; without one the connection is marked dead |
| `MemcacheHost.Host.Recv` | memcache/memcache.py:1202-1212 | a block of so many bytes likewise |
| `MemcacheHost.ReadAll` | memcache/memcache.py:1167-1212 | any mix of line and block reads gives what the stream says, however it is cut |
| `MemcacheHost.NothingLost` | memcache/memcache.py:1167-1212 | results, line ends and what is left make up the stream again |
| `MemcacheValues.DecimalAgain` | memcache/memcache.py:763-772 | an integer is read back from its decimal text |
| `MemcacheValues.DigitsAre` | memcache/memcache.py:763-772 | the decimal text has the digit of each weight in its place and no leading zero |
| `MemcacheValues.SentIff` | memcache/memcache.py:756-800 | a value is sent if and only if there is no limit or its bytes keep it; they are its text, or that compressed exactly when compression is there, asked for and not of an integer, the text is above the least length and becomes shorter; with the flags that say which |
| `MemcacheValues.ValueAgain` | memcache/memcache.py:756-1034 | every value that fits is stored as flags and bytes, compressed or not, that come back equal |
| `MemcacheClient.ValueLineRead` | memcache/memcache.py:989-999 | key, flags and length are read back from a value line, for every key that the key check accepts, less a line feed at its end |
| `MemcacheClient.KeyReadIff` | memcache/memcache.py:989-999 | the key read back is the one asked for if and only if it is a proper key: one with a line feed at its end, which the key check accepts, loses it |
| `MemcacheClient.Get` | memcache/memcache.py:852-882 | one key fetched from the answer on the connection: its value or nothing, and exactly the answer is taken, whatever the value contains |
| `MemcacheClient.GetMulti` | memcache/memcache.py:963-977 | fetching many keys from a server gives what fetching each alone does, under the caller's keys |
| `MemcacheClient.ValueBlockIs` | memcache/memcache.py:989-1001 | the block that answers for a key, written out |
| `MemcacheClient.SetCommandIs` | memcache/memcache.py:821-827 | the command that stores a value, written out |
| `MemcacheClient.ServerStores` | memcache/memcache.py:821-827 | the command is parsed by its length to exactly the flags and bytes sent |
| `MemcacheClient.SetThenGet` | memcache/memcache.py:756-1034 | every value that fits is sent, and set under a key is what a get of that key decodes; other keys keep theirs |
| `MemcacheKeys.CheckedIff` | memcache/memcache.py:1055-1062 | a key passes the check if and only if the pattern matches from its start to its end, or to a line feed before it, and its length with the prefix keeps the limit |
| `MemcacheKeys.MapAndPrefixKeys` | memcache/memcache.py:617-655 | the prefixed keys and the way back to those of the caller, or a refusal just when the prefix or a key fails the check |
| `MemcacheKeys.MappedIff` | memcache/memcache.py:641-655 | what it builds meets what fetching many keys asks for if and only if every text sent is a proper key |
| `MemcacheKeys.ProperIff` | memcache/memcache.py:1036-1062 | of keys and prefixes that pass the check, that is so if and only if neither ends in a line feed |
| `MemcacheKeys.OwnIff` | memcache/memcache.py:636-655 | every key of the caller is led back to if and only if no two different ones have the same text |
| `MemcacheKeys.GetMultiKeys` | memcache/memcache.py:938-977 | fetching many keys of the caller: each that its text leads back to gets the value held for it, and no other is in the result |
| `MemcacheMulti.SetMulti` | memcache/memcache.py:718-754 | the keys reported as not stored; one reply is taken off the connection for each command, and the connection is then given up if and only if some value was not sent |
| `MemcacheMulti.AllAnswered` | memcache/memcache.py:718-750 | a server that is sent set commands answers STORED to each |
| `MemcacheMulti.AllStored` | memcache/memcache.py:718-735 | and then holds what was sent last for each key |
| `MemcacheMulti.SetAll` | memcache/memcache.py:718-754 | when every value is sent, no key is reported |
| `MemcacheMulti.DeleteMulti` | memcache/memcache.py:398-428 | all commands being sent, exactly one reply is taken off the connection for each |
| `MemcacheMulti.CreditedIff` | memcache/memcache.py:722-754 | every reply is credited to the key it belongs to, whatever the replies, if and only if no key that is sent comes behind one that is not |
| `MemcacheMulti.Miscredited` | memcache/memcache.py:729-750 | otherwise a refused key can be reported as stored |

## Left out

- BigIntegers.BigInteger.DivRemTo: takes the guess as a parameter and asks that it be not too low, as do the residues, reducers and exponentiations built on it; with the guess of the program that is not so for all operands (`DoubleGuess.ProgramGuessTooLow`), and `ProgramDivision` says for which it is shown.
- ProgramDivision.DivRemTo: says nothing of a division with a window whose leading digits leave a remainder above 0 and below 2^26; there the rounding decides.
- ProgramDivision.ModPowInt: the same for the one division of a Montgomery exponentiation; otherwise it asks for the exact condition on the modulus, which has to be checked for all pairs of top digits.
- Reducers.Montgomery.constructor: the modulus is odd and positive, as in the only call.
- BigIntegers.BigInteger.FromInt: integers that need more than one digit, for which the method is not called.
- BigStrings.FromString: digits of a larger base than the one asked for, which the program takes in unchecked; bytes as digits with their sign bit; bases that are no powers of two.
- The numbers ZERO and ONE are shared objects of the program; here each use has a new one. The test that the division does for a zero leading digit of the divisor never succeeds and is not modelled.
- The kernels am2 and am3, selected in other browsers; even-modulus reducers, gcd, primes and bit logic of the library, which nothing here uses.
- pkcs1pad2 and the RSA key object: random padding and a few conversions around modular exponentiation.
- AesBlock.EncryptBlock: keys shorter than their size or blocks of fewer than 16 bytes raise an exception in the program and are excluded here.
- AesModeOfOperation.EncryptMessage: the same for sizes that are not supported and for empty keys and vectors, when there is a block to encrypt, and for a size of zero; the branches for outputs shorter than a block are never taken.
- AesModeOfOperation.DecryptMessage: CBC ciphertext that is not of whole blocks raises an exception in the program and is excluded.
- AesEnvelope.DecryptData: the program's exceptions, its exit and its None results are one kind of failure.
- SjclCipher.Aes.Crypt: looks its entries up by the function `Table`; that the generated tables hold these entries is `SjclGenerator.Generate`.
- BitArray.Shift: words are lists of 32 bits; only `BitArray.PartialAgain` speaks of the numbers that stand for them.
- Sha256.Sha256.Update: the compression function is any function; what becomes of an update that begins at 2^31 - 512 bits or more, and compresses words that are not there, is not modelled.
- Ccm.Encrypt: nonces of whole bytes; the limits at 2^32 words are never reached.
- CcmTags.TagsDiffer: messages and associated data of whole bytes, fewer than 2^32 of them, which is what the mode can say; that one block function tells two inputs apart is all it says, nothing of how hard tags are to forge.
- HexBase64.HexToBase64: characters that are no hexadecimal digits.
- Migration.StepKeeps: the call to the service is a reply for each user, the same for a failed call; access to the lists is atomic; users that share an id are excluded.
- The preparation of the migration's users and the dropping of an empty last one.
- CreateViews.ChangesOnlyWhatWasRead: others write to the live document only, not to the temporary ones; waiting for the index is not a request that changes anything.
- ViewDiff.DiffView: names wanted of a kind that the definition lacks raise an exception in the program and are excluded.
- Paging.Database.Purge: no document is added or changed meanwhile, and the server deletes what it is asked to.
- Paging.BumpRev: keys are ranks in the server's order, and no document is added or removed meanwhile.
- MemcacheHost.Host.ReadLine: reconnecting and the retry time of dead servers.
- MemcacheValues.ValueAgain: compression and pickling are any functions whose inverses undo them.
- MemcacheClient.GetMulti: one live server, and keys without a line feed at their end; the distribution of keys over servers and dead ones are not modelled.
- MemcacheKeys.GetMultiKeys: the same; the look-up of a key that lost its line feed raises an exception.
- MemcacheClient.ServerStores: what a server makes of a key with a line feed is not part of the protocol.
- MemcacheMulti.SetMulti: one live server, which answers each command with a line and sends nothing else.
- Network, files, clocks, threads' scheduling, randomness and user interfaces.
