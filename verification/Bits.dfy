/** Binary arithmetic of tree sizes (ledger/util.py): the bit tricks of the source,
    the digit-by-digit functions they compute, and alignment to powers of two. */
module Bits {

  function Pow2(e: nat): (r: nat)
    ensures r >= 1
  {
    if e == 0 then 1 else 2 * Pow2(e - 1)
  }

  /** Number of binary digits of n; the 1-based index of its highest set bit. */
  function BitLength(n: nat): nat {
    if n == 0 then 0 else 1 + BitLength(n / 2)
  }

  /** Number of set bits of n. */
  function Popcount(n: nat): nat {
    if n == 0 then 0 else n % 2 + Popcount(n / 2)
  }

  /** 1-based index of the lowest set bit of n, 0 when n is 0. */
  function Lowest(n: nat): nat {
    if n == 0 then 0 else if n % 2 == 1 then 1 else 1 + Lowest(n / 2)
  }

  /** n is a multiple of 2^t. */
  predicate Aligned(n: nat, t: nat) {
    t == 0 || (n % 2 == 0 && Aligned(n / 2, t - 1))
  }

  /** The largest power of two that is at most n. */
  function Top(n: nat): nat
    requires n > 0
  {
    Pow2(BitLength(n) - 1)
  }

  /** Bitwise "and" with the infinite two's complement digits of y. */
  function And(x: nat, y: int): nat {
    if x == 0 then 0
    else (if x % 2 == 1 && y % 2 == 1 then 1 else 0) + 2 * And(x / 2, y / 2)
  }

  // ----- The loops of the source -----

  method CountBitsSet(i: nat) returns (count: nat)
    ensures count == Popcount(i)
  {
    var rest := i;
    count := 0;
    while rest != 0
      invariant count + Popcount(rest) == Popcount(i)
      decreases rest
    {
      AndPredecessor(rest);
      rest := And(rest, rest - 1);
      count := count + 1;
    }
  }

  method HighestBitSet(i: nat) returns (hiBit: nat)
    ensures hiBit == BitLength(i)
  {
    var hi := i;
    hiBit := 0;
    while hi != 0
      invariant hiBit + BitLength(hi) == BitLength(i)
    {
      hi := hi / 2;
      hiBit := hiBit + 1;
    }
  }

  method LowestBitSet(i: nat) returns (bit: nat)
    ensures bit == Lowest(i)
  {
    AndNegation(i);
    bit := HighestBitSet(And(i, 0 - i));
    if i > 0 {
      Pow2Digits(Lowest(i) - 1);
    }
  }

  /** i & (i - 1) clears exactly one set bit. */
  lemma {:induction false} AndPredecessor(i: nat)
    requires i > 0
    ensures And(i, i - 1) < i
    ensures Popcount(And(i, i - 1)) == Popcount(i) - 1
  {
    if i % 2 == 1 {
      assert (i - 1) / 2 == i / 2;
      AndSelf(i / 2);
    } else {
      assert (i - 1) / 2 == i / 2 - 1;
      AndPredecessor(i / 2);
    }
  }

  lemma {:induction false} AndSelf(i: nat)
    ensures And(i, i) == i
  {
    if i > 0 {
      AndSelf(i / 2);
    }
  }

  /** i & -i isolates the lowest set bit. */
  lemma {:induction false} AndNegation(i: nat)
    ensures And(i, 0 - i) == if i == 0 then 0 else Pow2(Lowest(i) - 1)
  {
    if i > 0 {
      if i % 2 == 1 {
        assert (0 - i) / 2 == 0 - i / 2 - 1;
        AndComplement(i / 2);
      } else {
        assert (0 - i) / 2 == 0 - i / 2;
        AndNegation(i / 2);
      }
    }
  }

  lemma {:induction false} AndComplement(i: nat)
    ensures And(i, 0 - i - 1) == 0
  {
    if i > 0 {
      assert (0 - i - 1) / 2 == 0 - i / 2 - 1;
      AndComplement(i / 2);
    }
  }

  // ----- Facts about digits -----

  /** Every digit function of 2 * q + b in terms of q. */
  lemma {:induction false} Digit(q: nat, b: nat)
    requires b < 2
    ensures BitLength(2 * q + b) == if q == 0 then b else 1 + BitLength(q)
    ensures Popcount(2 * q + b) == b + Popcount(q)
    ensures Lowest(2 * q + b) == if b == 1 then 1 else if q == 0 then 0 else 1 + Lowest(q)
  {
    assert (2 * q + b) / 2 == q && (2 * q + b) % 2 == b;
  }

  lemma {:induction false} Pow2Digits(t: nat)
    ensures BitLength(Pow2(t)) == t + 1
    ensures Lowest(Pow2(t)) == t + 1
    ensures Popcount(Pow2(t)) == 1
  {
    if t > 0 {
      var q := Pow2(t - 1);
      Pow2Digits(t - 1);
      Digit(q, 0);
      assert Pow2(t) == 2 * q + 0;
    }
  }

  lemma {:induction false} AllOnesDigits(t: nat)
    ensures BitLength(Pow2(t) - 1) == t
    ensures Popcount(Pow2(t) - 1) == t
  {
    if t > 0 {
      var q := Pow2(t - 1) - 1;
      AllOnesDigits(t - 1);
      Digit(q, 1);
      assert Pow2(t) - 1 == 2 * q + 1;
    }
  }

  lemma {:induction false} TopBounds(n: nat)
    requires n > 0
    ensures Top(n) <= n < 2 * Top(n)
  {
    if n > 1 {
      TopBounds(n / 2);
    }
  }

  /** n <= 2^t iff n - 1 has at most t digits. */
  lemma {:induction false} BitLengthBound(n: nat, t: nat)
    requires n > 0
    ensures n <= Pow2(t) <==> BitLength(n - 1) <= t
  {
    if n > 1 && t > 0 {
      BitLengthBound((n - 1) / 2 + 1, t - 1);
    }
  }

  lemma {:induction false} AlignedMonotone(n: nat, s: nat, t: nat)
    requires s <= t && Aligned(n, t)
    ensures Aligned(n, s)
  {
    if s > 0 {
      AlignedMonotone(n / 2, s - 1, t - 1);
    }
  }

  lemma {:induction false} AlignedSum(a: nat, b: nat, t: nat)
    requires Aligned(a, t)
    ensures Aligned(b, t) <==> Aligned(a + b, t)
  {
    if t > 0 && b % 2 == 0 {
      assert (a + b) / 2 == a / 2 + b / 2;
      AlignedSum(a / 2, b / 2, t - 1);
    }
  }

  lemma {:induction false} AlignedPow2(e: nat, t: nat)
    requires t <= e
    ensures Aligned(Pow2(e), t)
  {
    if t > 0 {
      assert Pow2(e) / 2 == Pow2(e - 1);
      AlignedPow2(e - 1, t - 1);
    }
  }

  lemma {:induction false} LowestZero(n: nat)
    ensures Lowest(n) == 0 <==> n == 0
  {
  }

  /** The lowest set bit decides alignment. */
  lemma {:induction false} LowestAligned(n: nat, t: nat)
    requires n > 0
    ensures Aligned(n, t) <==> Lowest(n) > t
  {
    if t > 0 && n % 2 == 0 {
      LowestAligned(n / 2, t - 1);
    }
  }

  /** Removing the lowest set bit. */
  lemma {:induction false} DropLowest(n: nat)
    requires n > 0
    ensures Pow2(Lowest(n) - 1) <= n
    ensures Aligned(n - Pow2(Lowest(n) - 1), Lowest(n))
    ensures Popcount(n - Pow2(Lowest(n) - 1)) == Popcount(n) - 1
  {
    if n % 2 == 0 {
      hide Popcount, Lowest;
      var q := n / 2;
      LowestZero(q);
      var low := Pow2(Lowest(q) - 1);
      DropLowest(q);
      Digit(q, 0);
      Digit(q - low, 0);
      assert Lowest(n) == 1 + Lowest(q) && Pow2(Lowest(n) - 1) == 2 * low;
      assert n - 2 * low == 2 * (q - low) + 0;
    } else {
      Digit(n / 2, 0);
      assert n - Pow2(Lowest(n) - 1) == 2 * (n / 2) + 0;
    }
  }

  /** The digits of an aligned number and of a remainder below the alignment do not meet. */
  lemma {:induction false} AlignedDigits(n: nat, r: nat, t: nat)
    requires Aligned(n, t) && r < Pow2(t)
    ensures Popcount(n + r) == Popcount(n) + Popcount(r)
    ensures r > 0 ==> Lowest(n + r) == Lowest(r)
    ensures n > 0 ==> BitLength(n + r) == BitLength(n)
  {
    if t > 0 {
      hide BitLength, Popcount, Lowest;
      var q, p, b := n / 2, r / 2, r % 2;
      assert q >= 0 && p < Pow2(t - 1) && Aligned(q, t - 1);
      hide Pow2, Aligned;
      AlignedDigits(q, p, t - 1);
      assert n == 2 * q + 0 && r == 2 * p + b && n + r == 2 * (q + p) + b;
      Digit(q, 0);
      Digit(p, b);
      Digit(q + p, b);
    }
  }

  /** Removing the highest set bit of an aligned number. */
  lemma {:induction false} AlignedTop(n: nat, t: nat)
    requires n > 0 && Aligned(n, t)
    ensures BitLength(n) > t
    ensures Top(n) <= n < 2 * Top(n)
    ensures Aligned(n - Top(n), t)
  {
    TopBounds(n);
    if t > 0 {
      var q := n / 2;
      AlignedTop(q, t - 1);
      assert n - Top(n) == 2 * (q - Top(q));
    }
  }

  lemma {:induction false} PopcountOdd(m: nat)
    requires m % 2 == 1
    ensures Popcount(m) == 1 <==> m == 1
  {
    if m > 1 { PopcountPositive(m / 2); }
  }

  lemma {:induction false} PopcountPositive(m: nat)
    requires m > 0
    ensures Popcount(m) > 0
  {
    if m % 2 == 0 { PopcountPositive(m / 2); }
  }

  /** A number with one set bit is a power of two. */
  lemma {:induction false} SingleBit(n: nat)
    requires Popcount(n) == 1
    ensures n > 0 && n == Pow2(Lowest(n) - 1)
  {
    DropLowest(n);
    var rest := n - Pow2(Lowest(n) - 1);
    if rest > 0 { PopcountPositive(rest); }
  }
}
