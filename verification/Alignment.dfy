/** Rounding an address up with a mask, on 64-bit machine words. */
module Alignment {

  /** One more than the largest `usize`. */
  const WORD_RANGE: nat := 0x1_0000_0000_0000_0000

  function Pow2(k: nat): (r: nat)
    ensures r > 0
  {
    if k == 0 then 1 else 2 * Pow2(k - 1)
  }

  ghost predicate IsPow2(n: nat) {
    exists k: nat :: n == Pow2(k)
  }

  /** Bitwise conjunction, bit by bit from the lowest. */
  function BitAnd(x: nat, y: nat): nat {
    if x == 0 || y == 0 then 0 else (x % 2) * (y % 2) + 2 * BitAnd(x / 2, y / 2)
  }

  /** Bitwise complement of a 64-bit word. */
  function BitNot(x: nat): nat
    requires x < WORD_RANGE
  {
    WORD_RANGE - 1 - x
  }

  /** The mask form of rounding up; the addition wraps at the machine word. */
  function AlignUp(addr: nat, align: nat): nat
    requires 0 < align <= WORD_RANGE
  {
    BitAnd((addr + align - 1) % WORD_RANGE, BitNot(align - 1))
  }

  lemma Pow2Monotone(j: nat, k: nat)
    requires j <= k
    ensures Pow2(j) <= Pow2(k)
    decreases k
  {
    if j < k {
      Pow2Monotone(j, k - 1);
    }
  }

  lemma Pow2Word()
    ensures Pow2(64) == WORD_RANGE
  {
    assert Pow2(8) == 256;
    assert Pow2(16) == 256 * Pow2(8);
    assert Pow2(24) == 256 * Pow2(16);
    assert Pow2(32) == 256 * Pow2(24);
    assert Pow2(40) == 256 * Pow2(32);
    assert Pow2(48) == 256 * Pow2(40);
    assert Pow2(56) == 256 * Pow2(48);
    assert Pow2(64) == 256 * Pow2(56);
  }

  lemma MulDifference(a: nat, b: nat, d: nat)
    requires a < b
    ensures a * d + d <= b * d
  {
    var c := b - a - 1;
    assert b * d == a * d + d + c * d;
  }

  /** Quotient and remainder are determined by their defining equation. */
  lemma DivModUnique(x: nat, d: nat, q: nat, m: nat)
    requires 0 < d && x == q * d + m && m < d
    ensures x / d == q && x % d == m
  {
    var q', m' := x / d, x % d;
    assert x == q' * d + m';
    if q' < q {
      MulDifference(q', q, d);
    } else if q < q' {
      MulDifference(q, q', d);
    }
  }

  lemma HalveMod(x: nat, p: nat)
    requires 0 < p
    ensures x % (2 * p) == 2 * ((x / 2) % p) + x % 2
  {
    var h, b := x / 2, x % 2;
    var q, m := h / p, h % p;
    assert h == q * p + m;
    assert x == q * (2 * p) + (2 * m + b);
    DivModUnique(x, 2 * p, q, 2 * m + b);
  }

  lemma HalveMask(k: nat, w: nat)
    requires 0 < k <= w
    ensures Pow2(k - 1) <= Pow2(w - 1)
    ensures Pow2(w) - Pow2(k) == 2 * (Pow2(w - 1) - Pow2(k - 1))
  {
    Pow2Monotone(k - 1, w - 1);
  }

  /** The step of the definition holds for zero words as well. */
  lemma BitAndStep(x: nat, y: nat)
    ensures BitAnd(x, y) == (x % 2) * (y % 2) + 2 * BitAnd(x / 2, y / 2)
  {
    if x == 0 || y == 0 {
      assert BitAnd(x, y) == 0 && BitAnd(x / 2, y / 2) == 0;
    }
  }

  lemma AndEvenMask(x: nat, half: nat)
    ensures BitAnd(x, 2 * half) == 2 * BitAnd(x / 2, half)
  {
    BitAndStep(x, 2 * half);
    hide BitAnd;
    assert (2 * half) % 2 == 0 && (2 * half) / 2 == half;
  }

  lemma AndOddMask(x: nat, half: nat)
    ensures BitAnd(x, 2 * half + 1) == x % 2 + 2 * BitAnd(x / 2, half)
  {
    BitAndStep(x, 2 * half + 1);
    hide BitAnd;
    assert (2 * half + 1) % 2 == 1 && (2 * half + 1) / 2 == half;
  }

  lemma {:induction false} OnesKeep(x: nat, w: nat)
    requires x < Pow2(w)
    ensures BitAnd(x, Pow2(w) - 1) == x
    decreases w
  {
    if w > 0 {
      hide BitAnd;
      OnesKeep(x / 2, w - 1);
      AndOddMask(x, Pow2(w - 1) - 1);
    }
  }

  /** The lowest k bits of a word. */
  function LowBits(x: nat, k: nat): nat {
    x % Pow2(k)
  }

  lemma HalveLowBits(x: nat, k: nat)
    requires 0 < k
    ensures LowBits(x, k) == 2 * LowBits(x / 2, k - 1) + x % 2
  {
    HalveMod(x, Pow2(k - 1));
  }

  lemma HalveBelow(x: nat, w: nat)
    requires 0 < w && x < Pow2(w)
    ensures x / 2 < Pow2(w - 1)
  {
  }

  /** A mask of ones above bit k clears exactly the lowest k bits. */
  lemma {:induction false} MaskClears(x: nat, k: nat, w: nat)
    requires k <= w && x < Pow2(w)
    ensures Pow2(k) <= Pow2(w)
    ensures BitAnd(x, Pow2(w) - Pow2(k)) == x - LowBits(x, k)
    decreases w
  {
    hide BitAnd, Pow2, LowBits;
    Pow2Monotone(k, w);
    if k == 0 {
      OnesKeepAll(x, w);
    } else {
      HalveMask(k, w);
      HalveLowBits(x, k);
      HalveBelow(x, w);
      MaskClears(x / 2, k - 1, w - 1);
      AndEvenMask(x, Pow2(w - 1) - Pow2(k - 1));
    }
  }

  lemma OnesKeepAll(x: nat, w: nat)
    requires x < Pow2(w)
    ensures Pow2(0) <= Pow2(w) && BitAnd(x, Pow2(w) - Pow2(0)) == x - LowBits(x, 0)
  {
    hide BitAnd;
    OnesKeep(x, w);
    assert Pow2(0) == 1;
  }

  lemma WordPow2(align: nat) returns (k: nat)
    requires IsPow2(align) && align <= WORD_RANGE
    ensures k <= 64 && align == Pow2(k)
  {
    k :| align == Pow2(k);
    Pow2Word();
    if k > 64 {
      Pow2Monotone(65, k);
    }
  }

  /** The mask form removes the remainder of the wrapped sum. */
  lemma MaskedSum(addr: nat, align: nat)
    requires IsPow2(align) && align <= WORD_RANGE
    ensures var sum := (addr + align - 1) % WORD_RANGE;
            AlignUp(addr, align) == sum - sum % align
  {
    var k := WordPow2(align);
    Pow2Word();
    MaskClears((addr + align - 1) % WORD_RANGE, k, 64);
  }

  /** Taking the remainder away leaves a multiple, less than d below. */
  lemma RemainderRemoved(x: nat, d: nat)
    requires 0 < d
    ensures (x - x % d) % d == 0 && x - d < x - x % d <= x
  {
    var q := x / d;
    assert x - x % d == q * d + 0;
    DivModUnique(x - x % d, d, q, 0);
  }

  /** Two multiples of d that are less than d apart in one direction are ordered in the other. */
  lemma MultiplesApart(m: nat, r: nat, d: nat)
    requires 0 < d && m % d == 0 && r % d == 0 && r < m + d
    ensures r <= m
  {
    var a, b := m / d, r / d;
    assert m == a * d && r == b * d;
    if a < b {
      MulDifference(a, b, d);
    }
  }

  /** Without wrap-around the mask form is a multiple of `align`, and less than `align` above `addr`. */
  lemma AlignUpBounds(addr: nat, align: nat)
    requires IsPow2(align)
    requires addr + align - 1 < WORD_RANGE
    ensures addr <= AlignUp(addr, align) < addr + align
    ensures AlignUp(addr, align) % align == 0
  {
    hide AlignUp, BitAnd;
    var sum := addr + align - 1;
    MaskedSum(addr, align);
    assert sum % WORD_RANGE == sum;
    RemainderRemoved(sum, align);
  }

  /** So it is the least multiple at or above `addr`. */
  lemma AlignUpIsLeast(addr: nat, align: nat)
    requires IsPow2(align)
    requires addr + align - 1 < WORD_RANGE
    ensures addr <= AlignUp(addr, align) < addr + align
    ensures AlignUp(addr, align) % align == 0
    ensures forall m: nat :: m % align == 0 && addr <= m ==> AlignUp(addr, align) <= m
    ensures addr % align == 0 ==> AlignUp(addr, align) == addr
  {
    hide AlignUp, BitAnd;
    AlignUpBounds(addr, align);
    forall m: nat | m % align == 0 && addr <= m
      ensures AlignUp(addr, align) <= m
    {
      MultiplesApart(m, AlignUp(addr, align), align);
    }
  }

  /** The result is at or above the address exactly when the addition does not wrap. */
  lemma AlignUpExact(addr: nat, align: nat)
    requires IsPow2(align) && align <= WORD_RANGE && addr < WORD_RANGE
    ensures addr <= AlignUp(addr, align) <==> addr + align - 1 < WORD_RANGE
  {
    if addr + align - 1 < WORD_RANGE {
      AlignUpIsLeast(addr, align);
    } else {
      MaskedSum(addr, align);
      assert (addr + align - 1) % WORD_RANGE == addr + align - 1 - WORD_RANGE;
    }
  }

  lemma {:induction false} Pow2Divides(j: nat, k: nat)
    requires j <= k
    ensures Pow2(k) % Pow2(j) == 0
    decreases k
  {
    if j < k {
      Pow2Divides(j, k - 1);
      var q := Pow2(k - 1) / Pow2(j);
      assert Pow2(k) == (2 * q) * Pow2(j) + 0;
      DivModUnique(Pow2(k), Pow2(j), 2 * q, 0);
    } else {
      DivModUnique(Pow2(k), Pow2(j), 1, 0);
    }
  }

  /** A multiple of a power of two is a multiple of every smaller one. */
  lemma MultipleOfSmaller(x: nat, small: nat, big: nat)
    requires IsPow2(small) && IsPow2(big) && small <= big && x % big == 0
    ensures x % small == 0
  {
    hide Pow2;
    var j: nat :| small == Pow2(j);
    var k: nat :| big == Pow2(k);
    if k < j {
      Pow2Monotone(k, j);
      Pow2Divides(j, j);
    } else {
      Pow2Divides(j, k);
    }
    MultipleOfMultiple(x, small, big);
  }

  lemma MultipleOfMultiple(x: nat, small: nat, big: nat)
    requires 0 < small && 0 < big && big % small == 0 && x % big == 0
    ensures x % small == 0
  {
    var a, b := x / big, big / small;
    assert x == a * big && big == b * small;
    assert x == (a * b) * small + 0;
    DivModUnique(x, small, a * b, 0);
  }

  /** A multiple of a power of two that is at least 8 is a multiple of 8. */
  lemma MultipleOfEight(x: nat, align: nat)
    requires IsPow2(align) && 8 <= align && x % align == 0
    ensures x % 8 == 0
  {
    assert Pow2(3) == 8;
    MultipleOfSmaller(x, 8, align);
  }
}
