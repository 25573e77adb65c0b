/** Bitwise operators of C on two's complement integers of unbounded width.
    The sign bit of a negative number repeats for ever, so `Not(m - 1)` is the
    mask the C macros write as `~((intptr_t) (m - 1))`. */
module Bits {

  function Pow2(k: nat): (r: nat)
    ensures r > 0
  {
    if k == 0 then 1 else 2 * Pow2(k - 1)
  }

  function Not(x: int): int {
    -x - 1
  }

  function And(x: int, y: int): (r: int)
    ensures x >= 0 || y >= 0 ==> r >= 0
    decreases if x < 0 then -x else x
  {
    if x == 0 then 0
    else if x == -1 then y
    else 2 * And(x / 2, y / 2) + (if x % 2 == 1 && y % 2 == 1 then 1 else 0)
  }

  function Or(x: int, y: int): (r: int)
    ensures x >= 0 && y >= 0 ==> r >= 0
    decreases if x < 0 then -x else x
  {
    if x == 0 then y
    else if x == -1 then -1
    else 2 * Or(x / 2, y / 2) + (if x % 2 == 1 || y % 2 == 1 then 1 else 0)
  }

  /** Bit `k` of `x`, counting from the least significant. */
  predicate Bit(x: int, k: nat)
    decreases k
  {
    if k == 0 then x % 2 == 1 else Bit(x / 2, k - 1)
  }

  // ---------------------------------------------------------------- 32-bit arithmetic

  type uint32 = x: int | 0 <= x < 0x1_0000_0000

  /** The value of an expression of unsigned 32-bit type. */
  function Wrap(x: int): (r: uint32)
    ensures 0 <= x < 0x1_0000_0000 ==> r == x
    ensures 0x1_0000_0000 <= x < 0x2_0000_0000 ==> r == x - 0x1_0000_0000
    ensures -0x1_0000_0000 <= x < 0 ==> r == x + 0x1_0000_0000
  {
    x % 0x1_0000_0000
  }

  lemma ModSuccessor(m: nat, ring: nat)
    requires ring > 0
    ensures (m + 1) % ring == if m % ring == ring - 1 then 0 else m % ring + 1
  {
    var q := m / ring;
    assert m == q * ring + m % ring;
    if m % ring == ring - 1 {
      assert m + 1 == (q + 1) * ring;
      QuotientUnique(m + 1, ring, q + 1, 0);
    } else {
      QuotientUnique(m + 1, ring, q, m % ring + 1);
    }
  }

  // ---------------------------------------------------------------- single bits

  lemma {:induction false} AndBit(x: int, y: int, k: nat)
    ensures Bit(And(x, y), k) <==> Bit(x, k) && Bit(y, k)
    decreases k
  {
    if x == 0 {
      ZeroBit(k);
    } else if x == -1 {
      MinusOneBit(k);
    } else if k > 0 {
      AndBit(x / 2, y / 2, k - 1);
    }
  }

  lemma {:induction false} OrBit(x: int, y: int, k: nat)
    ensures Bit(Or(x, y), k) <==> Bit(x, k) || Bit(y, k)
    decreases k
  {
    if x == 0 {
      ZeroBit(k);
    } else if x == -1 {
      MinusOneBit(k);
    } else if k > 0 {
      OrBit(x / 2, y / 2, k - 1);
    }
  }

  lemma {:induction false} NotBit(x: int, k: nat)
    ensures Bit(Not(x), k) <==> !Bit(x, k)
    decreases k
  {
    if k > 0 {
      assert Not(x) / 2 == Not(x / 2);
      NotBit(x / 2, k - 1);
    }
  }

  lemma {:induction false} ZeroBit(k: nat)
    ensures !Bit(0, k)
  {
    if k > 0 { ZeroBit(k - 1); }
  }

  lemma {:induction false} MinusOneBit(k: nat)
    ensures Bit(-1, k)
  {
    if k > 0 { MinusOneBit(k - 1); }
  }

  lemma {:induction false} Pow2Bit(i: nat, k: nat)
    ensures Bit(Pow2(i), k) <==> i == k
  {
    if i == 0 && k > 0 {
      ZeroBit(k - 1);
    } else if i > 0 && k > 0 {
      Pow2Bit(i - 1, k - 1);
    }
  }

  /** A mask of `k` ones has exactly the bits below `k`. */
  lemma {:induction false} MaskBit(k: nat, j: nat)
    ensures Bit(Pow2(k) - 1, j) <==> j < k
  {
    if k == 0 {
      ZeroBit(j);
    } else if j > 0 {
      assert (Pow2(k) - 1) / 2 == Pow2(k - 1) - 1;
      MaskBit(k - 1, j - 1);
    }
  }

  /** Numbers below `Pow2(k)` are told apart by their first `k` bits. */
  lemma {:induction false} BitsDetermine(x: int, y: int, k: nat)
    requires 0 <= x < Pow2(k) && 0 <= y < Pow2(k)
    requires forall j: nat | j < k :: Bit(x, j) == Bit(y, j)
    ensures x == y
  {
    if k > 0 {
      assert Bit(x, 0) == Bit(y, 0);
      forall j: nat | j < k - 1 ensures Bit(x / 2, j) == Bit(y / 2, j) {
        assert Bit(x, j + 1) == Bit(y, j + 1);
      }
      BitsDetermine(x / 2, y / 2, k - 1);
    }
  }

  ghost predicate AllOnes(x: int, k: nat) {
    forall j: nat :: j < k ==> Bit(x, j)
  }

  /** A number of `k` bits is the greatest one exactly when all its bits are ones. */
  lemma FullMask(x: int, k: nat)
    requires 0 <= x < Pow2(k)
    ensures x == Pow2(k) - 1 <==> AllOnes(x, k)
  {
    hide Bit, Pow2;
    var m: int := Pow2(k) - 1;
    forall j: nat ensures Bit(m, j) <==> j < k {
      MaskBit(k, j);
    }
    if AllOnes(x, k) {
      BitsDetermine(x, m, k);
    }
  }

  /** Testing one bit with a mask, as in `x & (1 << k)`. */
  lemma {:induction false} AndPow2(x: int, k: nat)
    ensures And(x, Pow2(k)) == if Bit(x, k) then Pow2(k) else 0
    decreases k
  {
    if x == 0 {
      ZeroBit(k);
    } else if x == -1 {
      MinusOneBit(k);
    } else if k > 0 {
      AndPow2(x / 2, k - 1);
    } else {
      AndZero(x / 2);
    }
  }

  // ---------------------------------------------------------------- low-order masks

  lemma {:induction false} AndZero(x: int)
    ensures And(x, 0) == 0
    decreases if x < 0 then -x else x
  {
    if x != 0 && x != -1 { AndZero(x / 2); }
  }

  lemma {:induction false} OrZero(x: int)
    ensures Or(x, 0) == x
    decreases if x < 0 then -x else x
  {
    if x != 0 && x != -1 { OrZero(x / 2); }
  }

  lemma ModDouble(x: int, m: int)
    requires m > 0
    ensures x % (2 * m) == 2 * ((x / 2) % m) + x % 2
  {
    var q := (x / 2) / m;
    var r := 2 * ((x / 2) % m) + x % 2;
    assert x / 2 == q * m + (x / 2) % m;
    assert x == q * (2 * m) + r;
    QuotientUnique(x, 2 * m, q, r);
  }

  lemma ModHalf(x: int, k: nat)
    requires k > 0
    ensures x % Pow2(k) == 2 * ((x / 2) % Pow2(k - 1)) + x % 2
  {
    ModDouble(x, Pow2(k - 1));
  }

  lemma QuotientUnique(x: int, d: int, q: int, r: int)
    requires d > 0 && x == q * d + r && 0 <= r < d
    ensures x / d == q && x % d == r
  {
    var q', r' := x / d, x % d;
    assert x == q' * d + r' && 0 <= r' < d;
    assert (q - q') * d == q * d - q' * d == r' - r;
    if q > q' {
      MulAtLeast(q - q', d);
    } else if q < q' {
      MulAtLeast(q' - q, d);
    }
  }

  lemma MulAtLeast(n: int, d: int)
    requires n >= 1 && d > 0
    ensures n * d >= d
  {
    assert n * d == (n - 1) * d + d;
    assert (n - 1) * d >= 0;
  }

  /** One step of And, for every `x`, with a mask that is even or odd. */
  lemma AndStep(x: int, y: int)
    ensures And(x, 2 * y) == 2 * And(x / 2, y)
    ensures And(x, 2 * y + 1) == 2 * And(x / 2, y) + x % 2
  {
    assert (2 * y) / 2 == y && (2 * y) % 2 == 0 && (2 * y + 1) / 2 == y && (2 * y + 1) % 2 == 1;
  }

  /** `x & (2^k - 1)` is the remainder. */
  lemma {:induction false} AndMask(x: int, k: nat)
    ensures And(x, Pow2(k) - 1) == x % Pow2(k)
    decreases k
  {
    hide And;
    if k == 0 {
      AndZero(x);
    } else {
      ModHalf(x, k);
      AndMask(x / 2, k - 1);
      AndStep(x, Pow2(k - 1) - 1);
    }
  }

  /** `x & ~(2^k - 1)` drops the remainder. */
  lemma {:induction false} AndClear(x: int, k: nat)
    ensures And(x, Not(Pow2(k) - 1)) == x - x % Pow2(k)
    decreases k
  {
    hide And;
    if k == 0 {
      AndMinusOne(x);
    } else {
      ModHalf(x, k);
      AndClear(x / 2, k - 1);
      AndStep(x, Not(Pow2(k - 1) - 1));
    }
  }

  lemma {:induction false} AndMinusOne(x: int)
    ensures And(x, -1) == x
    decreases if x < 0 then -x else x
  {
    if x != 0 && x != -1 { AndMinusOne(x / 2); }
  }

  /** `x | y` is a sum when the two have no bit in common. */
  lemma {:induction false} OrAdd(x: int, y: int, k: nat)
    requires x % Pow2(k) == 0 && 0 <= y < Pow2(k)
    ensures Or(x, y) == x + y
    decreases k
  {
    if k == 0 {
      OrZero(x);
    } else if x != 0 && x != -1 {
      ModDouble(x, Pow2(k - 1));
      OrAdd(x / 2, y / 2, k - 1);
    } else if x == -1 {
      QuotientUnique(-1, Pow2(k), -1, Pow2(k) - 1);
    }
  }

  lemma AndAll(x: int, n: nat)
    requires 0 <= x < Pow2(n)
    ensures And(x, Pow2(n) - 1) == x
  {
    hide And, Pow2;
    AndMask(x, n);
    QuotientUnique(x, Pow2(n), 0, x);
  }

  /** A mask of ones from bit `k` up to bit `n - 1`, such as 0xC0. */
  lemma {:induction false} AndHigh(x: int, k: nat, n: nat)
    requires k <= n && 0 <= x < Pow2(n)
    ensures And(x, Pow2(n) - Pow2(k)) == x - x % Pow2(k)
    decreases k
  {
    hide And, Pow2;
    if k == 0 {
      AndAll(x, n);
      PowZero(x);
    } else {
      PowHalf(k);
      PowHalf(n);
      ModHalf(x, k);
      AndHigh(x / 2, k - 1, n - 1);
      AndStep(x, Pow2(n - 1) - Pow2(k - 1));
    }
  }

  lemma PowZero(x: int)
    ensures Pow2(0) == 1 && x % Pow2(0) == 0
  {
  }

  lemma PowHalf(k: nat)
    requires k > 0
    ensures Pow2(k) == 2 * Pow2(k - 1)
  {
  }

  lemma DivDouble(x: int, m: int)
    requires m > 0
    ensures (x / 2) / m == x / (2 * m)
  {
    var q := (x / 2) / m;
    assert x / 2 == q * m + (x / 2) % m;
    QuotientUnique(x, 2 * m, q, 2 * ((x / 2) % m) + x % 2);
  }

  lemma {:induction false} BitIsDigit(x: int, k: nat)
    ensures Bit(x, k) <==> (x / Pow2(k)) % 2 == 1
    decreases k
  {
    if k > 0 {
      DivDouble(x, Pow2(k - 1));
      BitIsDigit(x / 2, k - 1);
    }
  }

  /** Setting one bit, as in `x |= 1 << k`. */
  lemma {:induction false} OrPow2(x: int, k: nat)
    ensures Or(x, Pow2(k)) == if Bit(x, k) then x else x + Pow2(k)
    decreases k
  {
    if x == 0 {
      ZeroBit(k);
    } else if x == -1 {
      MinusOneBit(k);
    } else if k > 0 {
      OrPow2(x / 2, k - 1);
    } else {
      OrZero(x / 2);
    }
  }

  lemma {:induction false} Pow2Monotone(i: nat, j: nat)
    requires i <= j
    ensures Pow2(i) <= Pow2(j) && (i < j ==> 2 * Pow2(i) <= Pow2(j))
    decreases j
  {
    if i < j { Pow2Monotone(i, j - 1); }
  }

  lemma {:induction false} AndAtMost(x: int, y: int)
    requires x >= 0
    ensures 0 <= And(x, y) <= x
    decreases x
  {
    if x > 0 { AndAtMost(x / 2, y / 2); }
  }

  lemma AndCommutes(x: nat, y: nat)
    ensures And(x, y) == And(y, x)
    decreases x
  {
    if x > 0 && y > 0 {
      AndCommutes(x / 2, y / 2);
    } else if x == 0 {
      AndZero(y);
    } else {
      AndZero(x);
    }
  }

  lemma Pow2Constants()
    ensures Pow2(0) == 1 && Pow2(1) == 2 && Pow2(2) == 4 && Pow2(3) == 8 && Pow2(4) == 16 && Pow2(6) == 64
            && Pow2(7) == 128
    ensures Pow2(8) == 256 && Pow2(11) == 0x800 && Pow2(13) == 0x2000 && Pow2(14) == 0x4000 && Pow2(15) == 0x8000
            && Pow2(16) == 0x1_0000
    ensures Pow2(30) == 0x4000_0000 && Pow2(31) == 0x8000_0000 && Pow2(32) == 0x1_0000_0000
  {
    assert Pow2(5) == 32;
    assert Pow2(10) == 1024;
    assert Pow2(15) == 0x8000;
    assert Pow2(20) == 32 * Pow2(15);
    assert Pow2(25) == 32 * Pow2(20);
    assert Pow2(30) == 32 * Pow2(25);
  }

  /** What setting bit `k` does to the low `k + 1` bits. */
  lemma {:induction false} OrPow2Mod(x: int, k: nat)
    ensures Or(x, Pow2(k)) % Pow2(k + 1) == Pow2(k) + x % Pow2(k)
    decreases k
  {
    hide Or;
    OrPow2(x, k);
    if k > 0 {
      var h: int := Pow2(k - 1);
      var y, y' := Or(x, Pow2(k)), Or(x / 2, h);
      OrPow2(x / 2, k - 1);
      assert y / 2 == y' && y % 2 == x % 2;
      ModDouble(y, 2 * h);
      ModDouble(x, h);
      OrPow2Mod(x / 2, k - 1);
    }
  }

  lemma OrAbove(x: int, k: nat)
    requires 0 <= x < Pow2(k)
    ensures Or(x, Pow2(k)) == x + Pow2(k)
  {
    OrPow2(x, k);
    BitIsDigit(x, k);
    QuotientUnique(x, Pow2(k), 0, x);
  }

  lemma OrOne(x: int)
    requires x % 2 == 0
    ensures Or(x, 1) == x + 1
  {
    OrZero(x / 2);
  }

  lemma OrTwo(x: int)
    requires x % 4 == 0
    ensures Or(x, 2) == x + 2
  {
    if x != 0 {
      OrOne(x / 2);
    }
  }

  lemma {:induction false} OrBound(x: int, y: int, k: nat)
    requires 0 <= x < Pow2(k) && 0 <= y < Pow2(k)
    ensures 0 <= Or(x, y) < Pow2(k)
    decreases k
  {
    if k > 0 && x != 0 {
      OrBound(x / 2, y / 2, k - 1);
    }
  }

  lemma {:induction false} HighBitsZero(x: int, n: nat, k: nat)
    requires 0 <= x < Pow2(n) && n <= k
    ensures !Bit(x, k)
    decreases n
  {
    if n == 0 {
      ZeroBit(k);
    } else {
      HighBitsZero(x / 2, n - 1, k - 1);
    }
  }
}
