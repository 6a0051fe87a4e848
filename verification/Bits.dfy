/** Bitwise operators of C on unsigned values, over unbounded naturals.
    A word is a nat below W64; a shift to the left drops what leaves the word. */
module Bits {

  const W64: nat := 0x1_0000_0000_0000_0000

  function Pow2(n: nat): (r: nat)
    ensures r > 0
  {
    if n == 0 then 1 else 2 * Pow2(n - 1)
  }

  function And(a: nat, b: nat): nat {
    if a == 0 || b == 0 then 0
    else 2 * And(a / 2, b / 2) + (if a % 2 == 1 && b % 2 == 1 then 1 else 0)
  }

  function Or(a: nat, b: nat): nat {
    if a == 0 then b
    else 2 * Or(a / 2, b / 2) + (if a % 2 == 1 || b % 2 == 1 then 1 else 0)
  }

  function Shl(a: nat, k: nat): nat {
    a * Pow2(k) % W64
  }

  /** Drops the k low bits, one at a time. */
  function Shr(a: nat, k: nat): nat
    decreases k
  {
    if k == 0 then a else Shr(a / 2, k - 1)
  }

  /** Appends k zero bits at the low end, without a word bound. */
  function Up(a: nat, k: nat): nat {
    if k == 0 then a else 2 * Up(a, k - 1)
  }

  /** Bit k of a, counted from the low end. */
  predicate Bit(a: nat, k: nat) {
    if k == 0 then a % 2 == 1 else Bit(a / 2, k - 1)
  }

  lemma {:induction false} BitOfAnd(a: nat, b: nat, k: nat)
    ensures Bit(And(a, b), k) <==> Bit(a, k) && Bit(b, k)
    decreases k
  {
    if a == 0 || b == 0 {
      BitOfZero(k);
    } else if k > 0 {
      BitOfAnd(a / 2, b / 2, k - 1);
    }
  }

  lemma {:induction false} BitOfOr(a: nat, b: nat, k: nat)
    ensures Bit(Or(a, b), k) <==> Bit(a, k) || Bit(b, k)
    decreases k
  {
    if a == 0 {
      BitOfZero(k);
    } else if k > 0 {
      BitOfOr(a / 2, b / 2, k - 1);
    }
  }

  lemma {:induction false} BitOfZero(k: nat)
    ensures !Bit(0, k)
  {
    if k > 0 { BitOfZero(k - 1); }
  }

  lemma {:induction false} BitOfPow2(j: nat, k: nat)
    ensures Bit(Pow2(j), k) <==> j == k
  {
    if j == 0 && k > 0 {
      BitOfZero(k - 1);
    } else if j > 0 && k > 0 {
      BitOfPow2(j - 1, k - 1);
    }
  }

  /** The bits of 2^n - 1 - 2^j below n are all set, except bit j. */
  lemma {:induction false} BitOfHole(n: nat, j: nat, k: nat)
    requires j < n && k < n
    ensures Pow2(n) >= 1 + Pow2(j)
    ensures Bit(Pow2(n) - 1 - Pow2(j), k) <==> j != k
  {
    Pow2Increases(j, n);
    if j == 0 && k > 0 {
      BitOfOnes(n - 1, k - 1);
    } else if j > 0 && k > 0 {
      BitOfHole(n - 1, j - 1, k - 1);
      assert (Pow2(n) - 1 - Pow2(j)) / 2 == Pow2(n - 1) - 1 - Pow2(j - 1);
    }
  }

  lemma {:induction false} BitOfOnes(n: nat, k: nat)
    requires k < n
    ensures Bit(Pow2(n) - 1, k)
  {
    if k > 0 {
      BitOfOnes(n - 1, k - 1);
      assert (Pow2(n) - 1) / 2 == Pow2(n - 1) - 1;
    }
  }

  lemma {:induction false} Pow2Increases(a: nat, b: nat)
    requires a < b
    ensures 2 * Pow2(a) <= Pow2(b)
  {
    if a + 1 < b { Pow2Increases(a, b - 1); }
  }

  /** Two values with the same bits are equal. */
  lemma {:induction false} SameBits(a: nat, b: nat, n: nat)
    requires a < Pow2(n) && b < Pow2(n)
    requires forall k | 0 <= k < n :: Bit(a, k) == Bit(b, k)
    ensures a == b
  {
    if n > 0 {
      assert Bit(a, 0) == Bit(b, 0);
      forall k | 0 <= k < n - 1 ensures Bit(a / 2, k) == Bit(b / 2, k) {
        assert Bit(a, k + 1) == Bit(b, k + 1);
      }
      SameBits(a / 2, b / 2, n - 1);
    }
  }

  /** A value below 2^n lies below 2^k when its bits k .. n-1 are clear. */
  lemma {:induction false} ClearAbove(a: nat, k: nat, n: nat)
    requires a < Pow2(n) && k <= n
    requires forall j | k <= j < n :: !Bit(a, j)
    ensures a < Pow2(k)
  {
    if k < n {
      if k == 0 {
        forall j | 0 <= j < n ensures Bit(a, j) == Bit(0, j) {
          BitOfZero(j);
        }
        SameBits(a, 0, n);
      } else {
        forall j | k - 1 <= j < n - 1 ensures !Bit(a / 2, j) {
          assert !Bit(a, j + 1);
        }
        ClearAbove(a / 2, k - 1, n - 1);
      }
    }
  }

  lemma {:induction false} SetBelow(a: nat, k: nat, j: nat)
    requires a < Pow2(k) && k <= j
    ensures !Bit(a, j)
  {
    if k == 0 {
      BitOfZero(j);
    } else {
      SetBelow(a / 2, k - 1, j - 1);
    }
  }

  lemma {:induction false} OrGrows(a: nat, b: nat)
    ensures Or(a, b) >= a && Or(a, b) >= b
  {
    if a != 0 { OrGrows(a / 2, b / 2); }
  }

  lemma {:induction false} OrStaysBelow(a: nat, b: nat, n: nat)
    requires a < Pow2(n) && b < Pow2(n)
    ensures Or(a, b) < Pow2(n)
    decreases n
  {
    if a != 0 && n > 0 { OrStaysBelow(a / 2, b / 2, n - 1); }
  }

  lemma {:induction false} AndStaysBelow(a: nat, b: nat)
    ensures And(a, b) <= a && And(a, b) <= b
  {
    if a != 0 && b != 0 { AndStaysBelow(a / 2, b / 2); }
  }

  lemma MulMono(m: nat, x: nat, y: nat)
    requires x <= y
    ensures m * x <= m * y
  {
    assert m * (y - x) >= 0;
    assert m * (y - x) == m * y - m * x;
  }

  /** Quotient and remainder are unique. */
  lemma DivModUnique(a: nat, m: nat, q: nat, r: nat)
    requires a == m * q + r && r < m
    ensures a / m == q && a % m == r
  {
    var q' := a / m;
    assert a == m * q' + a % m;
    QuotientUnique(m, q, r, q', a % m);
  }

  lemma QuotientUnique(m: nat, q: nat, r: nat, q': nat, r': nat)
    requires m * q + r == m * q' + r' && r < m && r' < m
    ensures q == q' && r == r'
  {
    MulMono(m, q + 1, if q < q' then q' else q + 1);
    MulMono(m, q' + 1, if q' < q then q else q' + 1);
    assert m * (q + 1) == m * q + m;
    assert m * (q' + 1) == m * q' + m;
  }

  lemma DivTwice(a: nat, p: nat, p2: nat)
    requires p > 0 && p2 == 2 * p
    ensures a / p2 == a / 2 / p
    ensures a % p2 == 2 * (a / 2 % p) + a % 2
  {
    var q, r := a / 2 / p, a / 2 % p;
    assert a / 2 == p * q + r;
    assert p2 * q == 2 * (p * q);
    DivModUnique(a, p2, q, 2 * r + a % 2);
  }

  /** Masking with k low ones is a remainder. */
  lemma {:induction false} AndLowMask(a: nat, k: nat)
    ensures And(a, Pow2(k) - 1) == a % Pow2(k)
    decreases k
  {
    if k == 0 {
      assert And(a, 0) == 0;
    } else {
      AndLowMask(a / 2, k - 1);
      LowMaskStep(a, Pow2(k - 1), Pow2(k));
    }
  }

  lemma LowMaskStep(a: nat, p: nat, p2: nat)
    requires p > 0 && p2 == 2 * p && And(a / 2, p - 1) == a / 2 % p
    ensures And(a, p2 - 1) == a % p2
  {
    AndOfOdd(a, p - 1);
    DivTwice(a, p, p2);
  }

  /** A mask that ends in k zeros acts on the value without its k low bits. */
  lemma {:induction false} AndHighMask(a: nat, m: nat, k: nat)
    ensures And(a, Up(m, k)) == Up(And(Shr(a, k), m), k)
    decreases k
  {
    if k > 0 {
      AndHighMask(a / 2, m, k - 1);
      AndOfEven(a, Up(m, k - 1));
    }
  }

  lemma {:induction false} ShrIsDiv(a: nat, k: nat)
    ensures Shr(a, k) == a / Pow2(k)
    decreases k
  {
    if k > 0 {
      ShrIsDiv(a / 2, k - 1);
      DivTwice(a, Pow2(k - 1), Pow2(k));
    }
  }

  lemma AndOfOdd(a: nat, b: nat)
    ensures And(a, 2 * b + 1) == 2 * And(a / 2, b) + a % 2
  {
    assert (2 * b + 1) / 2 == b && (2 * b + 1) % 2 == 1;
    if a > 0 && b == 0 {
      assert And(a / 2, b) == 0;
    }
  }

  lemma AndOfEven(a: nat, b: nat)
    ensures And(a, 2 * b) == 2 * And(a / 2, b)
  {
    if a > 0 && b > 0 {
      assert 2 * b / 2 == b && 2 * b % 2 == 0;
    } else if a == 0 {
      assert a / 2 == 0;
    }
  }

  lemma OrOfEven(a: nat, b: nat)
    ensures Or(2 * a, b) == 2 * Or(a, b / 2) + b % 2
  {
    if a > 0 {
      assert 2 * a / 2 == a && 2 * a % 2 == 0;
    }
  }

  /** Or of values with no bit in common is a sum. */
  lemma {:induction false} OrIsSum(a: nat, b: nat, k: nat)
    requires b < Pow2(k)
    ensures Or(Up(a, k), b) == Up(a, k) + b
    decreases k
  {
    if k == 0 {
      OrZero(a);
    } else {
      OrIsSum(a, b / 2, k - 1);
      OrOfEven(Up(a, k - 1), b);
    }
  }

  lemma OrDigit(a: nat, b: nat, i: nat, j: nat)
    requires i < 2 && j < 2
    ensures Or(2 * a + i, 2 * b + j) == 2 * Or(a, b) + (if i == 1 || j == 1 then 1 else 0)
  {
    if 2 * a + i == 0 {
      assert Or(a, b) == b;
    } else {
      assert (2 * a + i) / 2 == a && (2 * b + j) / 2 == b;
    }
  }

  lemma {:induction false} OrZero(a: nat)
    ensures Or(a, 0) == a
  {
    if a > 0 { OrZero(a / 2); }
  }

  lemma {:induction false} UpIsTimes(a: nat, k: nat)
    ensures Up(a, k) == a * Pow2(k)
  {
    if k > 0 {
      UpIsTimes(a, k - 1);
      assert a * Pow2(k) == 2 * (a * Pow2(k - 1));
    }
  }

  /** A mask of n ones followed by k zeros rounds down. */
  lemma AndHighOnes(a: nat, n: nat, k: nat)
    requires a / Pow2(k) < Pow2(n)
    ensures And(a, Up(Pow2(n) - 1, k)) == a / Pow2(k) * Pow2(k)
  {
    var q := a / Pow2(k);
    AndHighMask(a, Pow2(n) - 1, k);
    ShrIsDiv(a, k);
    AndLowMask(q, n);
    SmallMod(q, Pow2(n));
    UpIsTimes(q, k);
  }

  lemma SmallMod(a: nat, m: nat)
    requires a < m
    ensures a % m == a
  {
  }

  lemma OrOne(z: nat)
    ensures Or(2 * z, 1) == 2 * z + 1
  {
    OrDigit(z, 0, 0, 1);
    OrZero(z);
  }

  lemma OrTwo(z: nat)
    ensures Or(4 * z + 1, 2) == 4 * z + 3
  {
    OrDigit(2 * z, 1, 1, 0);
    OrOne(z);
  }

  lemma OrFour(z: nat)
    ensures Or(8 * z + 3, 4) == 8 * z + 7
  {
    OrDigit(4 * z + 1, 2, 1, 0);
    OrTwo(z);
  }

  lemma OrDisjoint(hi: nat, b: nat, k: nat)
    requires hi % Pow2(k) == 0 && b < Pow2(k)
    ensures Or(hi, b) == hi + b
  {
    var q := hi / Pow2(k);
    ExactDiv(hi, Pow2(k));
    UpIsTimes(q, k);
    OrIsSum(q, b, k);
  }

  lemma ExactDiv(a: nat, p: nat)
    requires p > 0 && a % p == 0
    ensures a / p * p == a
  {
  }

  /** The powers of two that occur as shifts and masks. */
  lemma Pow2Values()
    ensures Pow2(3) == 0x8 && Pow2(8) == 0x100 && Pow2(9) == 0x200 && Pow2(12) == 0x1000
    ensures Pow2(16) == 0x1_0000 && Pow2(21) == 0x20_0000 && Pow2(28) == 0x1000_0000
    ensures Pow2(30) == 0x4000_0000 && Pow2(32) == 0x1_0000_0000 && Pow2(36) == 0x10_0000_0000
    ensures Pow2(39) == 0x80_0000_0000 && Pow2(48) == 0x1_0000_0000_0000
    ensures Pow2(52) == 0x10_0000_0000_0000 && Pow2(64) == W64
  {
  }
}
