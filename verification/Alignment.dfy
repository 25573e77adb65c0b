/** The TYPEALIGN family (c.h). */
module Alignment {
  import opened Bits

  const ALIGNOF_SHORT := 2
  const ALIGNOF_INT := 4
  const ALIGNOF_DOUBLE := 8
  const MAXIMUM_ALIGNOF := 8

  function TypeAlign(alignval: int, len: int): int {
    And(len + (alignval - 1), Not(alignval - 1))
  }

  function TypeAlignDown(alignval: int, len: int): int {
    And(len, Not(alignval - 1))
  }

  /** For a power of two the mask yields the one multiple in [len, len + alignval):
      the least multiple at or above `len`. */
  lemma TypeAlignIsLeast(k: nat, len: int, m: int)
    ensures var a, r := Pow2(k), TypeAlign(Pow2(k), len);
            r % a == 0 && len <= r < len + a && (m % a == 0 && len <= m ==> r <= m)
  {
    hide And, Pow2;
    var a: int := Pow2(k);
    var x := len + (a - 1);
    AndClear(x, k);
    FloorIsMultiple(x, a);
    if m % a == 0 && len <= m < x - x % a {
      MultiplesApart(m, x - x % a, a);
    }
  }

  /** And rounding down yields the greatest multiple at or below `len`. */
  lemma TypeAlignDownIsGreatest(k: nat, len: int, m: int)
    ensures var a, r := Pow2(k), TypeAlignDown(Pow2(k), len);
            r % a == 0 && len - a < r <= len && (m % a == 0 && m <= len ==> m <= r)
  {
    hide And, Pow2;
    var a: int := Pow2(k);
    AndClear(len, k);
    FloorIsMultiple(len, a);
    if m % a == 0 && len - len % a < m <= len {
      MultiplesApart(len - len % a, m, a);
    }
  }

  lemma FloorIsMultiple(x: int, a: int)
    requires a > 0
    ensures (x - x % a) % a == 0
  {
    QuotientUnique(x - x % a, a, x / a, 0);
  }

  /** Two different multiples are at least one alignment apart. */
  lemma MultiplesApart(m: int, r: int, a: int)
    requires a > 0 && m % a == 0 && r % a == 0 && m < r
    ensures m + a <= r
  {
    var p, q := m / a, r / a;
    assert m == p * a && r == q * a;
    assert (q - p) * a == r - m;
    if q > p {
      MulAtLeast(q - p, a);
    } else {
      MulNotPositive(q - p, a);
    }
  }

  lemma MulNotPositive(n: int, d: int)
    requires n <= 0 && d > 0
    ensures n * d <= 0
  {
  }

  /** `r` is the least multiple of `a` at or above `len`. */
  predicate IsLeastMultiple(r: int, a: int, len: int)
    requires a > 0
  {
    r % a == 0 && len <= r < len + a
  }

  /** The restriction on TYPEALIGN is exact: the mask form is right for all lengths for the
      powers of two and for no other alignment; the length 1 gives each of those away. */
  lemma MaskNeedsPowerOfTwo(a: int)
    requires a > 0
    ensures (forall len :: IsLeastMultiple(TypeAlign(a, len), a, len)) <==> exists k: nat :: a == Pow2(k)
    ensures IsLeastMultiple(TypeAlign(a, 1), a, 1) <==> exists k: nat :: a == Pow2(k)
  {
    hide Pow2, TypeAlign;
    if k: nat :| a == Pow2(k) {
      forall len ensures IsLeastMultiple(TypeAlign(a, len), a, len) {
        TypeAlignIsLeast(k, len, 0);
      }
    }
    if IsLeastMultiple(TypeAlign(a, 1), a, 1) {
      OnlyMultipleIsSelf(TypeAlign(a, 1), a);
      assert TypeAlign(a, 1) == And(a, -a) by { MaskOfOne(a); }
      MaskKeepsPowerOnly(a);
    }
  }

  lemma MaskOfOne(a: int)
    ensures TypeAlign(a, 1) == And(a, -a)
  {
  }

  lemma OnlyMultipleIsSelf(r: int, a: int)
    requires 0 < r <= a && r % a == 0
    ensures r == a
  {
    if r < a { QuotientUnique(r, a, 0, r); }
  }

  /** Among the bits of `a`, the mask keeps the lowest one only. */
  lemma {:induction false} MaskKeepsPowerOnly(a: int)
    requires a > 0 && And(a, -a) == a
    ensures exists k: nat :: a == Pow2(k)
    decreases a
  {
    hide And;
    var h := a / 2;
    HalfOfMask(a);
    if a == 1 {
      assert a == Pow2(0);
    } else if a % 2 == 0 {
      MaskKeepsPowerOnly(h);
      var k: nat :| h == Pow2(k);
      assert a == Pow2(k + 1);
    } else {
      AndNot(h);
    }
  }

  lemma HalfOfMask(a: int)
    requires a > 0
    ensures And(a, -a) == if a % 2 == 0 then 2 * And(a / 2, -(a / 2)) else 2 * And(a / 2, Not(a / 2)) + 1
  {
    var h := a / 2;
    assert (-a) / 2 == if a % 2 == 0 then -h else Not(h);
  }

  lemma {:induction false} AndNot(b: nat)
    ensures And(b, Not(b)) == 0
    decreases b
  {
    if b > 0 { AndNot(b / 2); }
  }

  // The instances the tuple and page formats use.

  function ShortAlign(len: int): (r: int)
    ensures r % 2 == 0 && len <= r < len + 2
  {
    TypeAlignIsLeast(1, len, 0);
    Pow2Constants();
    TypeAlign(ALIGNOF_SHORT, len)
  }

  function IntAlign(len: int): (r: int)
    ensures r % 4 == 0 && len <= r < len + 4
  {
    TypeAlignIsLeast(2, len, 0);
    Pow2Constants();
    TypeAlign(ALIGNOF_INT, len)
  }

  function DoubleAlign(len: int): (r: int)
    ensures r % 8 == 0 && len <= r < len + 8
  {
    TypeAlignIsLeast(3, len, 0);
    Pow2Constants();
    TypeAlign(ALIGNOF_DOUBLE, len)
  }

  function MaxAlign(len: int): (r: int)
    ensures r % 8 == 0 && len <= r < len + 8
  {
    TypeAlignIsLeast(3, len, 0);
    Pow2Constants();
    TypeAlign(MAXIMUM_ALIGNOF, len)
  }

  function MaxAlignDown(len: int): (r: int)
    ensures r % 8 == 0 && len - 8 < r <= len
  {
    TypeAlignDownIsGreatest(3, len, 0);
    Pow2Constants();
    TypeAlignDown(MAXIMUM_ALIGNOF, len)
  }
}
