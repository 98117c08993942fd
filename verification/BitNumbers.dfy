/** The bits of a number, the highest first, and the number of some bits: each is the other's inverse,
    modulo the power of two that the number of bits can say. */
module BitNumbers {
  import opened BitArray
  import opened Ring

  /** 2^k. */
  function TwoTo(k: nat): (p: nat)
    ensures p >= 1
  {
    if k == 0 then 1 else 2 * TwoTo(k - 1)
  }

  /** The lowest k bits of a number. */
  function NumberBits(n: nat, k: nat): (b: Bits)
    ensures |b| == k
  {
    if k == 0 then [] else NumberBits(n / 2, k - 1) + [n % 2 == 1]
  }

  /** The value of some bits. */
  function Value(b: Bits): nat {
    if b == [] then 0 else 2 * Value(b[..|b| - 1]) + if b[|b| - 1] then 1 else 0
  }

  lemma LowBit(n: nat, p: nat)
    requires p >= 1
    ensures 2 * (n / 2 % p) + n % 2 == n % (2 * p)
  {
    var h := n / 2;
    var q, r := Quo(h, p), Mod(h, p);
    DivMod(h, p);
    Doubled(q, p);
    hide Mul;
    DivUnique(n, 2 * p, q, 2 * r + n % 2);
  }

  lemma Doubled(v: int, p: int)
    ensures Mul(v, 2 * p) == 2 * Mul(v, p)
  {
  }

  /** The bits of a number have its value modulo the power of two. */
  lemma {:induction false} ValueOfNumber(n: nat, k: nat)
    ensures Value(NumberBits(n, k)) == n % TwoTo(k)
    decreases k
  {
    if k > 0 {
      var b := NumberBits(n, k);
      ValueOfNumber(n / 2, k - 1);
      assert b[..k - 1] == NumberBits(n / 2, k - 1);
      LowBit(n, TwoTo(k - 1));
    }
  }

  /** A value has its bits, and is below the power of two. */
  lemma {:induction false} NumberOfValue(b: Bits)
    ensures NumberBits(Value(b), |b|) == b && Value(b) < TwoTo(|b|)
  {
    if b != [] {
      var n := |b| - 1;
      NumberOfValue(b[..n]);
      assert Value(b) / 2 == Value(b[..n]);
      assert b == b[..n] + [b[n]];
    }
  }

  /** Bits are determined by their value and their number. */
  lemma SameValue(a: Bits, b: Bits)
    requires |a| == |b| && Value(a) == Value(b)
    ensures a == b
  {
    NumberOfValue(a);
    NumberOfValue(b);
  }

  lemma Below(n: nat, k: nat)
    requires n < TwoTo(k)
    ensures Value(NumberBits(n, k)) == n
  {
    ValueOfNumber(n, k);
  }

  /** A number below the power of two is determined by its bits. */
  lemma SameNumber(n: nat, m: nat, k: nat)
    requires n < TwoTo(k) && m < TwoTo(k) && NumberBits(n, k) == NumberBits(m, k)
    ensures n == m
  {
    Below(n, k);
    Below(m, k);
  }

  /** Bits in front of the lowest j count by 2^j. */
  lemma {:induction false} FrontBits(a: Bits, n: nat, j: nat)
    requires n < TwoTo(j)
    ensures Mul(Value(a), TwoTo(j)) >= 0 && NumberBits(Mul(Value(a), TwoTo(j)) + n, |a| + j) == a + NumberBits(n, j)
    decreases j
  {
    if j == 0 {
      NumberOfValue(a);
      assert a + [] == a;
    } else {
      FrontBits(a, n / 2, j - 1);
      var p := TwoTo(j - 1);
      Doubled(Value(a), p);
      hide Mul, Value;
      assert (2 * Mul(Value(a), p) + n) / 2 == Mul(Value(a), p) + n / 2;
    }
  }

  /** Three bits behind those of q. */
  lemma ThreeBits(q: nat, m: nat, j: nat)
    requires m < 8
    ensures NumberBits(8 * q + m, j + 3) == NumberBits(q, j) + NumberBits(m, 3)
  {
    var n := 8 * q + m;
    assert n / 2 == 4 * q + m / 2 && n / 2 / 2 == 2 * q + m / 4 && n / 2 / 2 / 2 == q;
    assert NumberBits(n, j + 3) == NumberBits(n / 2, j + 2) + [n % 2 == 1];
    assert NumberBits(n / 2, j + 2) == NumberBits(n / 2 / 2, j + 1) + [n / 2 % 2 == 1];
    assert NumberBits(n / 2 / 2, j + 1) == NumberBits(q, j) + [n / 2 / 2 % 2 == 1];
    assert NumberBits(m, 3) == [m / 4 % 2 == 1, m / 2 % 2 == 1, m % 2 == 1];
  }

  lemma {:induction false} ZeroValue(k: nat)
    ensures Value(Zeros(k)) == 0
  {
    if k > 0 {
      assert Zeros(k)[..k - 1] == Zeros(k - 1);
      ZeroValue(k - 1);
    }
  }

  /** A small number has zeros in front. */
  lemma LeadingZeros(n: nat, i: nat, j: nat)
    requires n < TwoTo(j)
    ensures NumberBits(n, i + j) == Zeros(i) + NumberBits(n, j)
  {
    ZeroValue(i);
    FrontBits(Zeros(i), n, j);
    assert Mul(0, TwoTo(j)) == 0;
  }

  lemma {:induction false} TwoToSum(i: nat, j: nat)
    ensures TwoTo(i + j) == TwoTo(i) * TwoTo(j)
  {
    if i > 0 {
      TwoToSum(i - 1, j);
    }
  }

  lemma Powers()
    ensures TwoTo(8) == 256 && TwoTo(16) == 0x1_0000 && TwoTo(32) == 0x1_0000_0000
    ensures TwoTo(64) == 0x1_0000_0000_0000_0000
  {
    assert TwoTo(4) == 16;
    TwoToSum(4, 4);
    TwoToSum(8, 8);
    TwoToSum(16, 16);
    TwoToSum(32, 32);
  }
}
