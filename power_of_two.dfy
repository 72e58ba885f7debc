/** `round_up_to_power_of_two`, the sizing helper that both ring buffers carry
    (include/hpc/core/ring_buffer.hpp and include/hpc/core/mpmc_ring_buffer.hpp
    hold identical copies). It decrements, smears the top bit into every lower
    position with the shifts 1, 2, 4, ..., 32, and increments, all in 64-bit
    `std::size_t` arithmetic. */
module PowerOfTwo {
  import opened Bits

  lemma Pow2Monotone(a: nat, b: nat)
    requires a <= b
    ensures Pow2(a) <= Pow2(b)
  {
    Pow2Add(a, b - a);
    MulAtLeast(Pow2(a), Pow2(b - a));
  }

  /** Bit `j` of `x | (x >> s)` is bit `j` or bit `j + s` of `x`. */
  lemma SmearBit(x: nat, s: nat, j: nat)
    ensures Bit(Or(x, Shr(x, s)), j) == (Bit(x, j) || Bit(x, j + s))
  {
    BitOfOr(x, Shr(x, s), j);
    BitOfShr(x, s, j);
  }

  /** After the shifts below `i`, the value keeps the top bit `k - 1` of the
      original, has no bit at `k` or above and has the `i` highest positions
      below `k` set. */
  ghost predicate Smeared(x: nat, k: nat, i: nat)
  {
    && (forall j: nat :: j >= k ==> !Bit(x, j))
    && (forall j: nat :: j < k && j + i >= k ==> Bit(x, j))
  }

  /** One round `x |= x >> i` doubles the run of ones below the top bit. */
  lemma SmearRound(x: nat, k: nat, i: nat)
    requires Smeared(x, k, i)
    ensures Smeared(Or(x, Shr(x, i)), k, 2 * i)
  {
    var y := Or(x, Shr(x, i));
    forall j: nat | j >= k ensures !Bit(y, j) {
      SmearBit(x, i, j);
    }
    forall j: nat | j < k && j + 2 * i >= k ensures Bit(y, j) {
      SmearBit(x, i, j);
      if j + i < k {
        assert Bit(x, j + i);
      }
    }
  }

  /** Once the run covers all k positions the value is 2^k - 1. */
  lemma SmearedOnes(x: nat, k: nat, i: nat)
    requires i >= k && Smeared(x, k, i)
    ensures x == Pow2(k) - 1
  {
    forall j: nat ensures Bit(x, j) == Bit(Pow2(k) - 1, j) {
      BitOfOnes(k, j);
    }
    BitsDetermine(x, Pow2(k) - 1);
  }

  /** 2^k for k the bit length of n - 1, taken modulo 2^64, is the least
      power of two not below n, or 0 when that power is 2^64. */
  lemma SmearedResult(n: nat, k: nat)
    requires 2 <= n < WORD && k == BitLength(n - 1)
    ensures k <= 64
    ensures 2 <= n <= WORD / 2 ==> var r := Pow2(k) % WORD; IsPowerOfTwo(r) && r >= n && r / 2 < n
    ensures n > WORD / 2 ==> Pow2(k) % WORD == 0
  {
    Pow2Word();
    BitLengthAtMost(n - 1, 64);
    BitLengthBounds(n - 1);
    if n <= WORD / 2 {
      BitLengthAtMost(n - 1, 63);
      Pow2Monotone(k, 63);
      Pow2IsPowerOfTwo(k);
      ModOfDecomposition(Pow2(k), WORD, 0, Pow2(k));
      assert Pow2(k) / 2 == Pow2(k - 1);
    } else {
      BitLengthAtLeast(n - 1, 63);
      assert k == 64;
      ModOfDecomposition(WORD, WORD, 1, 0);
    }
  }

  /** Returns 2 below 2, otherwise the least power of two that is at least
      `n`; above 2^63 that power is 2^64, which wraps to 0 in `std::size_t`. */
  method RoundUpToPowerOfTwo(n: nat) returns (r: nat)
    requires n < WORD
    ensures n < 2 ==> r == 2
    ensures 2 <= n <= WORD / 2 ==> IsPowerOfTwo(r) && r >= n && r / 2 < n
    ensures n > WORD / 2 ==> r == 0
  {
    if n < 2 {
      return 2;
    }
    var x: nat := n - 1;
    ghost var k := BitLength(x);
    BitLengthBits(x);
    var i: nat := 1;
    while i < 64
      invariant i >= 1
      invariant Smeared(x, k, i)
      decreases 64 - i
    {
      SmearRound(x, k, i);
      x, i := Or(x, Shr(x, i)), 2 * i;
    }
    SmearedResult(n, k);
    SmearedOnes(x, k, i);
    r := (x + 1) % WORD;
  }
}
