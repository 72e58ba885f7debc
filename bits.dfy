/** Unsigned machine-word arithmetic on naturals: powers of two, the bitwise
    operators `|`, `&` and `>>`, and the facts about them that the queues and
    allocators rely on (masking with a power of two minus one is a modulo,
    clearing the low bits rounds down to a multiple). */
module Bits {

  /** 2^64: the range of `std::size_t` and `std::uintptr_t`. */
  const WORD: nat := 0x1_0000_0000_0000_0000

  function Pow2(k: nat): (p: nat)
    ensures p >= 1
  {
    if k == 0 then 1 else 2 * Pow2(k - 1)
  }

  predicate IsPowerOfTwo(p: nat)
    decreases p
  {
    p == 1 || (p >= 2 && p % 2 == 0 && IsPowerOfTwo(p / 2))
  }

  /** Bit `j` of `a` (bit 0 is the least significant). */
  predicate Bit(a: nat, j: nat)
    decreases j
  {
    if j == 0 then a % 2 == 1 else Bit(a / 2, j - 1)
  }

  /** `a | b` */
  function Or(a: nat, b: nat): (r: nat)
    decreases a + b
  {
    if a == 0 then b
    else if b == 0 then a
    else 2 * Or(a / 2, b / 2) + (if a % 2 == 1 || b % 2 == 1 then 1 else 0)
  }

  /** `a & b` */
  function And(a: nat, b: nat): (r: nat)
    decreases a
  {
    if a == 0 || b == 0 then 0
    else 2 * And(a / 2, b / 2) + (if a % 2 == 1 && b % 2 == 1 then 1 else 0)
  }

  /** `a >> s` */
  function Shr(a: nat, s: nat): (r: nat)
    decreases s
  {
    if s == 0 then a else Shr(a / 2, s - 1)
  }

  /** Number of significant bits of `a` (0 for 0). */
  function BitLength(a: nat): (k: nat)
    decreases a
  {
    if a == 0 then 0 else 1 + BitLength(a / 2)
  }

  // ---------------------------------------------------------------------------
  // Bitwise characterisations

  lemma {:induction false} BitOfZero(j: nat)
    ensures !Bit(0, j)
  {
    if j > 0 { BitOfZero(j - 1); }
  }

  lemma {:induction false} BitOfOr(a: nat, b: nat, j: nat)
    ensures Bit(Or(a, b), j) == (Bit(a, j) || Bit(b, j))
    decreases j
  {
    if a == 0 {
      BitOfZero(j);
    } else if b == 0 {
      BitOfZero(j);
    } else if j > 0 {
      assert Or(a, b) / 2 == Or(a / 2, b / 2);
      BitOfOr(a / 2, b / 2, j - 1);
    }
  }

  lemma {:induction false} BitOfShr(a: nat, s: nat, j: nat)
    ensures Bit(Shr(a, s), j) == Bit(a, j + s)
    decreases s
  {
    if s > 0 {
      BitOfShr(a / 2, s - 1, j);
    }
  }

  /** The bits of 2^k - 1 are exactly the positions below k. */
  lemma {:induction false} BitOfOnes(k: nat, j: nat)
    ensures Bit(Pow2(k) - 1, j) == (j < k)
    decreases k
  {
    if k == 0 {
      BitOfZero(j);
    } else if j > 0 {
      assert (Pow2(k) - 1) / 2 == Pow2(k - 1) - 1;
      BitOfOnes(k - 1, j - 1);
    }
  }

  /** Two naturals with the same bits are equal. */
  lemma {:induction false} BitsDetermine(a: nat, b: nat)
    requires forall j: nat :: Bit(a, j) == Bit(b, j)
    ensures a == b
    decreases a + b
  {
    if a != 0 || b != 0 {
      assert Bit(a, 0) == Bit(b, 0);
      forall j: nat ensures Bit(a / 2, j) == Bit(b / 2, j) {
        assert Bit(a, j + 1) == Bit(b, j + 1);
      }
      BitsDetermine(a / 2, b / 2);
    }
  }

  /** The top bit of a positive `a` is bit BitLength(a) - 1, and no higher bit is set. */
  lemma {:induction false} BitLengthBits(a: nat)
    requires a >= 1
    ensures Bit(a, BitLength(a) - 1)
    ensures forall j: nat :: j >= BitLength(a) ==> !Bit(a, j)
    decreases a
  {
    if a == 1 {
      forall j: nat | j >= 1 ensures !Bit(a, j) { BitOfZero(j - 1); }
    } else {
      BitLengthBits(a / 2);
      forall j: nat | j >= BitLength(a) ensures !Bit(a, j) {
        assert !Bit(a / 2, j - 1);
      }
    }
  }

  lemma {:induction false} BitLengthBounds(a: nat)
    requires a >= 1
    ensures Pow2(BitLength(a) - 1) <= a < Pow2(BitLength(a))
    decreases a
  {
    if a > 1 {
      BitLengthBounds(a / 2);
    }
  }

  lemma {:induction false} BitLengthAtMost(a: nat, k: nat)
    requires a < Pow2(k)
    ensures BitLength(a) <= k
    decreases a
  {
    if a > 0 {
      BitLengthAtMost(a / 2, k - 1);
    }
  }

  lemma {:induction false} BitLengthAtLeast(a: nat, k: nat)
    requires a >= Pow2(k)
    ensures BitLength(a) >= k + 1
    decreases k
  {
    if k > 0 {
      BitLengthAtLeast(a / 2, k - 1);
    }
  }

  // ---------------------------------------------------------------------------
  // Powers of two

  lemma {:induction false} Pow2IsPowerOfTwo(k: nat)
    ensures IsPowerOfTwo(Pow2(k))
  {
    if k > 0 { Pow2IsPowerOfTwo(k - 1); }
  }

  lemma {:induction false} Pow2Add(a: nat, b: nat)
    ensures Pow2(a + b) == Pow2(a) * Pow2(b)
    decreases a
  {
    if a > 0 {
      Pow2Add(a - 1, b);
    }
  }

  lemma Pow2Word()
    ensures Pow2(64) == WORD && Pow2(63) == WORD / 2
  {
    Pow2Half();
    Pow2Add(32, 32);
    assert Pow2(64) == 2 * Pow2(63);
  }

  lemma WordIsPowerOfTwo()
    ensures IsPowerOfTwo(WORD)
  {
    Pow2Word();
    Pow2IsPowerOfTwo(64);
  }

  lemma Pow2Half()
    ensures Pow2(32) == 0x1_0000_0000
  {
    Pow2Add(1, 1);
    Pow2Add(2, 2);
    Pow2Add(4, 4);
    Pow2Add(8, 8);
    Pow2Add(16, 16);
  }

  /** A power of two that exceeds half of another is at least that other one:
      between consecutive powers of two there are no others. */
  lemma {:induction false} PowerOfTwoAbove(p: nat, q: nat)
    requires IsPowerOfTwo(p) && IsPowerOfTwo(q)
    requires p > q / 2
    ensures p >= q
    decreases q
  {
    if q >= 2 {
      assert p >= 2;
      PowerOfTwoAbove(p / 2, q / 2);
    }
  }

  /** "Power of two, at least n, and its half below n" pins the value down:
      it is THE least power of two not below n. */
  lemma LeastPowerOfTwoUnique(n: nat, r: nat, r': nat)
    requires IsPowerOfTwo(r) && r >= n && r / 2 < n
    requires IsPowerOfTwo(r') && r' >= n && r' / 2 < n
    ensures r == r'
  {
    PowerOfTwoAbove(r, r');
    PowerOfTwoAbove(r', r);
  }

  lemma {:induction false} LeastPowerOfTwo(n: nat, r: nat, p: nat)
    requires IsPowerOfTwo(r) && r / 2 < n
    requires IsPowerOfTwo(p) && p >= n
    ensures p >= r
  {
    PowerOfTwoAbove(p, r);
  }

  // ---------------------------------------------------------------------------
  // Masks

  lemma {:induction false} MulAtLeast(d: nat, m: nat)
    requires m >= 1
    ensures d * m >= d
    decreases m
  {
    if m > 1 {
      MulAtLeast(d, m - 1);
      assert d * m == d * (m - 1) + d;
    }
  }

  /** Euclidean division: the remainder is determined by any decomposition. */
  lemma ModOfDecomposition(x: nat, d: nat, q: nat, r: nat)
    requires d >= 1 && x == d * q + r && r < d
    ensures x % d == r && x / d == q
  {
    var q', r' := x / d, x % d;
    assert x == d * q' + r';
    if q > q' {
      MulAtLeast(d, q - q');
    } else if q' > q {
      MulAtLeast(d, q' - q);
    }
  }

  lemma ModDouble(x: nat, q: nat)
    requires q >= 1
    ensures x % (2 * q) == 2 * ((x / 2) % q) + x % 2
  {
    var h, b := x / 2, (x / 2) % q;
    var a := h / q;
    assert h == q * a + b;
    assert x == 2 * h + x % 2;
    assert x == (2 * q) * a + (2 * b + x % 2);
    ModOfDecomposition(x, 2 * q, a, 2 * b + x % 2);
  }

  /** `x & (p - 1)` is `x % p` for a power of two `p`. */
  lemma {:induction false} AndLowMask(x: nat, p: nat)
    requires IsPowerOfTwo(p)
    ensures And(x, p - 1) == x % p
    decreases p
  {
    if p >= 2 && x != 0 {
      var h := p / 2;
      var m := p - 1;
      assert m / 2 == h - 1 && m % 2 == 1;
      AndLowMask(x / 2, h);
      assert And(x, m) == 2 * And(x / 2, m / 2) + x % 2;
      ModDouble(x, h);
      assert p == 2 * h;
    }
  }

  /** `x & (P - a)`, where P - a has all bits from log a up to log P, rounds
      `x < P` down to a multiple of `a`. With P = 2^64 this is `x & ~(a - 1)`. */
  lemma {:induction false} AndHighMask(x: nat, big: nat, a: nat)
    requires IsPowerOfTwo(big) && IsPowerOfTwo(a) && a <= big && x < big
    ensures And(x, big - a) == x - x % a
    decreases a
  {
    if a == 1 {
      AndLowMask(x, big);
      ModOfDecomposition(x, big, 0, x);
      ModOfDecomposition(x, 1, x, 0);
    } else if big == a {
      ModOfDecomposition(x, a, 0, x);
    } else if x == 0 {
      ModOfDecomposition(0, a, 0, 0);
    } else {
      var hb, ha, hx := big / 2, a / 2, x / 2;
      assert (big - a) % 2 == 0 && (big - a) / 2 == hb - ha;
      assert And(x, big - a) == 2 * And(hx, hb - ha);
      AndHighMask(hx, hb, ha);
      ModDouble(x, ha);
      assert a == 2 * ha;
    }
  }

  /** Bits at or above `k` are clear exactly in the values below 2^k (used one way). */
  lemma {:induction false} BitsBelow(a: nat, k: nat)
    requires a < Pow2(k)
    ensures forall j: nat :: j >= k ==> !Bit(a, j)
  {
    if a == 0 {
      forall j: nat { BitOfZero(j); }
    } else {
      BitLengthBits(a);
      BitLengthAtMost(a, k);
    }
  }
}
