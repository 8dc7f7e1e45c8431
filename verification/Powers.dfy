/**
 Powers of two and four, and binary shifts, masks and remainders defined bit by bit so that every
 fact about them is a linear induction.
 */
module Powers {

  const TWO32: nat := 0x1_0000_0000
  const TWO64: nat := 0x1_0000_0000_0000_0000

  function Pow2(k: nat): (p: nat)
    ensures p > 0
  {
    if k == 0 then 1 else 2 * Pow2(k - 1)
  }

  function Pow4(k: nat): (p: nat)
    ensures p > 0
  {
    if k == 0 then 1 else 4 * Pow4(k - 1)
  }

  lemma Pow2Step(k: nat)
    ensures Pow2(k + 1) == 2 * Pow2(k)
  {
  }

  lemma {:induction false} Pow4IsSquare(k: nat)
    ensures Pow4(k) == Pow2(k) * Pow2(k)
  {
    if k > 0 {
      Pow4IsSquare(k - 1);
    }
  }

  lemma {:induction false} Pow2Add(j: nat, k: nat)
    ensures Pow2(j + k) == Pow2(j) * Pow2(k)
  {
    if j > 0 {
      Pow2Add(j - 1, k);
      assert Pow2(j + k) == 2 * Pow2(j - 1 + k);
    }
  }

  lemma {:induction false} Pow2Monotone(j: nat, k: nat)
    requires j <= k
    ensures Pow2(j) <= Pow2(k)
  {
    if j < k {
      Pow2Monotone(j, k - 1);
    }
  }

  lemma Concrete()
    ensures Pow2(8) == 256
    ensures Pow2(24) == 0x100_0000
    ensures Pow2(31) == TWO32 / 2
    ensures Pow2(32) == TWO32
    ensures Pow4(24) == 0x1_0000_0000_0000
    ensures Pow4(32) == TWO64
  {
    assert Pow2(8) == 256;
    assert Pow2(16) == 0x1_0000 by { Pow2Add(8, 8); }
    assert Pow2(24) == 0x100_0000 by { Pow2Add(16, 8); }
    assert Pow2(32) == TWO32 by { Pow2Add(24, 8); }
    Pow4IsSquare(24);
    Pow4IsSquare(32);
  }

  /** x >> j */
  function Shr(x: nat, j: nat): nat
    decreases j
  {
    if j == 0 then x else Shr(x / 2, j - 1)
  }

  /** Whether x & s is non-zero, for a mask s with one bit set. */
  predicate TestBit(x: nat, s: nat) {
    if s <= 1 then x % 2 == 1 else TestBit(x / 2, s / 2)
  }

  /** The low k bits of an integer in two's complement. */
  function LowBits(k: nat, x: int): (l: nat)
    ensures l < Pow2(k)
    decreases k
  {
    if k == 0 then 0 else x % 2 + 2 * LowBits(k - 1, x / 2)
  }

  lemma {:induction false} LowBitsSmall(k: nat, x: nat)
    requires x < Pow2(k)
    ensures LowBits(k, x) == x
  {
    if k > 0 {
      LowBitsSmall(k - 1, x / 2);
    }
  }

  /** The top of k low bits is the bit the mask 2^(k-1) tests. */
  lemma {:induction false} LowBitsTop(k: nat, x: nat)
    requires k > 0
    ensures LowBits(k, x) == LowBits(k - 1, x) + (if TestBit(x, Pow2(k - 1)) then Pow2(k - 1) else 0)
  {
    if k > 1 {
      LowBitsTop(k - 1, x / 2);
      assert TestBit(x, Pow2(k - 1)) == TestBit(x / 2, Pow2(k - 2));
    }
  }

  /** Reflecting about 2^k - 1 complements the low k bits. */
  lemma {:induction false} LowBitsReflect(k: nat, x: int)
    ensures LowBits(k, Pow2(k) - 1 - x) == Pow2(k) - 1 - LowBits(k, x)
  {
    if k > 0 {
      LowBitsReflect(k - 1, x / 2);
      assert (Pow2(k) - 1 - x) / 2 == Pow2(k - 1) - 1 - x / 2;
    }
  }

  /** Multiples of 2^m are invisible below bit m. */
  lemma {:induction false} LowBitsIgnoreHigh(k: nat, m: nat, x: int, t: int)
    requires k <= m
    ensures LowBits(k, x + t * Pow2(m)) == LowBits(k, x)
  {
    hide Pow2;
    if k > 0 {
      var h := t * Pow2(m - 1);
      Pow2Step(m - 1);
      Twice(t, Pow2(m - 1));
      LowBitsIgnoreHigh(k - 1, m - 1, x / 2, t);
      LowBitsAddEven(k, x, h);
    }
  }

  lemma Twice(t: int, p: int)
    ensures t * (2 * p) == 2 * (t * p)
  {
  }

  lemma LowBitsAddEven(k: nat, x: int, h: int)
    requires k > 0
    ensures LowBits(k, x + 2 * h) == x % 2 + 2 * LowBits(k - 1, x / 2 + h)
  {
    hide Pow2;
    assert (x + 2 * h) / 2 == x / 2 + h && (x + 2 * h) % 2 == x % 2;
  }

  /** So a 32-bit wrap keeps up to 32 low bits. */
  lemma LowBitsOfWrapped(k: nat, x: int)
    requires k <= 32
    ensures LowBits(k, x % TWO32) == LowBits(k, x)
  {
    Concrete();
    LowBitsIgnoreHigh(k, 32, x % TWO32, x / TWO32);
    assert x == x % TWO32 + (x / TWO32) * TWO32;
  }

  /** x >> j is c for exactly the 2^j numbers from c * 2^j on. */
  lemma {:induction false} ShrIs(x: nat, j: nat, c: nat)
    ensures Shr(x, j) == c <==> c * Pow2(j) <= x < c * Pow2(j) + Pow2(j)
    decreases j
  {
    if j > 0 {
      ShrIs(x / 2, j - 1, c);
      Pow2Step(j - 1);
      Twice(c, Pow2(j - 1));
    }
  }

  lemma {:induction false} ShrMonotone(x: nat, y: nat, j: nat)
    requires x <= y
    ensures Shr(x, j) <= Shr(y, j)
    decreases j
  {
    if j > 0 {
      ShrMonotone(x / 2, y / 2, j - 1);
    }
  }

  lemma {:induction false} ShrBelow(k: nat, j: nat, x: nat)
    ensures x < Pow2(k + j) <==> Shr(x, j) < Pow2(k)
    decreases j
  {
    if j > 0 {
      ShrBelow(k, j - 1, x / 2);
      assert Pow2(k + j) == 2 * Pow2(k + j - 1);
    }
  }

  lemma {:induction false} ShrSubtract(k: nat, j: nat, x: nat)
    requires Pow2(k + j) <= x
    ensures Pow2(k) <= Shr(x, j)
    ensures Shr(x - Pow2(k + j), j) == Shr(x, j) - Pow2(k)
    decreases j
  {
    if j > 0 {
      assert Pow2(k + j) == 2 * Pow2(k + j - 1);
      ShrSubtract(k, j - 1, x / 2);
      assert (x - Pow2(k + j)) / 2 == x / 2 - Pow2(k + j - 1);
    }
  }

  lemma {:induction false} ShrReflect(k: nat, j: nat, x: nat)
    requires x < Pow2(k + j)
    ensures Shr(x, j) < Pow2(k)
    ensures Shr(Pow2(k + j) - 1 - x, j) == Pow2(k) - 1 - Shr(x, j)
    decreases j
  {
    if j > 0 {
      assert Pow2(k + j) == 2 * Pow2(k + j - 1);
      ShrReflect(k, j - 1, x / 2);
      assert (Pow2(k + j) - 1 - x) / 2 == Pow2(k + j - 1) - 1 - x / 2;
    }
  }
}
