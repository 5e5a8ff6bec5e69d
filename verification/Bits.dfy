/** Bitwise arithmetic on unsigned machine words.  A word is a natural number below
    a power of two; Shl and Shr are `<<` and `>>`. */
module Bits {

  type u16 = x: int | 0 <= x < 0x1_0000
  type u32 = x: int | 0 <= x < 0x1_0000_0000
  type u64 = x: int | 0 <= x < 0x1_0000_0000_0000_0000

  function Pow2(k: nat): (r: nat)
    ensures r >= 1
  {
    if k == 0 then 1 else 2 * Pow2(k - 1)
  }

  function Shl(x: nat, k: nat): nat {
    if k == 0 then x else 2 * Shl(x, k - 1)
  }

  function Shr(x: nat, k: nat): nat {
    if k == 0 then x else Shr(x / 2, k - 1)
  }

  lemma {:induction false} ShlIsMultiply(x: nat, k: nat)
    ensures Shl(x, k) == x * Pow2(k)
  {
    if k > 0 {
      ShlIsMultiply(x, k - 1);
      MulTwice(x, Pow2(k - 1));
    }
  }

  lemma {:induction false} ShrIsDivide(x: nat, k: nat)
    ensures Shr(x, k) == x / Pow2(k)
  {
    if k > 0 {
      ShrIsDivide(x / 2, k - 1);
      DivDiv(x, Pow2(k - 1));
    }
  }

  lemma {:induction false} ShrShl(x: nat, k: nat)
    ensures Shr(Shl(x, k), k) == x
  {
    if k > 0 { ShrShl(x, k - 1); }
  }

  lemma MulTwice(m: nat, p: nat)
    ensures m * (2 * p) == 2 * (m * p)
  {
  }

  function And(a: nat, b: nat): (r: nat)
    ensures r <= a && r <= b
  {
    if a == 0 || b == 0 then 0
    else (if a % 2 == 1 && b % 2 == 1 then 1 else 0) + 2 * And(a / 2, b / 2)
  }

  function Or(a: nat, b: nat): (r: nat)
    ensures r >= a && r >= b
  {
    if a == 0 then b
    else if b == 0 then a
    else (if a % 2 == 1 || b % 2 == 1 then 1 else 0) + 2 * Or(a / 2, b / 2)
  }

  /** Bit k of a, counted from the least significant one. */
  predicate Bit(a: nat, k: nat) {
    if k == 0 then a % 2 == 1 else Bit(a / 2, k - 1)
  }

  lemma {:induction false} ZeroHasNoBits(k: nat)
    ensures !Bit(0, k)
  {
    if k > 0 { ZeroHasNoBits(k - 1); }
  }

  lemma {:induction false} BitOfOr(a: nat, b: nat, k: nat)
    ensures Bit(Or(a, b), k) <==> Bit(a, k) || Bit(b, k)
  {
    ZeroHasNoBits(k);
    if a != 0 && b != 0 && k > 0 {
      assert Or(a, b) / 2 == Or(a / 2, b / 2);
      BitOfOr(a / 2, b / 2, k - 1);
    }
  }

  lemma {:induction false} BitOfAnd(a: nat, b: nat, k: nat)
    ensures Bit(And(a, b), k) <==> Bit(a, k) && Bit(b, k)
  {
    ZeroHasNoBits(k);
    if a != 0 && b != 0 && k > 0 {
      assert And(a, b) / 2 == And(a / 2, b / 2);
      BitOfAnd(a / 2, b / 2, k - 1);
    }
  }

  lemma {:induction false} BitOfPow2(j: nat, k: nat)
    ensures Bit(Pow2(j), k) <==> j == k
  {
    if k > 0 {
      if j > 0 {
        assert Pow2(j) / 2 == Pow2(j - 1);
        BitOfPow2(j - 1, k - 1);
      } else {
        ZeroHasNoBits(k - 1);
      }
    }
  }

  /** The complement in n bits. */
  function Not(a: nat, n: nat): (r: nat)
    requires a < Pow2(n)
    ensures r < Pow2(n)
  {
    Pow2(n) - 1 - a
  }

  lemma HalfOfNot(a: nat, n: nat)
    requires n > 0 && a < Pow2(n)
    ensures a / 2 < Pow2(n - 1) && Not(a, n) / 2 == Not(a / 2, n - 1) && Not(a, n) % 2 == 1 - a % 2
  {
    var h, p := a / 2, Pow2(n - 1);
    assert Pow2(n) == 2 * p;
    assert a == 2 * h + a % 2;
  }

  lemma {:induction false} BitOfNot(a: nat, n: nat, k: nat)
    requires a < Pow2(n)
    ensures Bit(Not(a, n), k) <==> k < n && !Bit(a, k)
  {
    if n == 0 {
      ZeroHasNoBits(k);
    } else if k > 0 {
      HalfOfNot(a, n);
      BitOfNot(a / 2, n - 1, k - 1);
    } else {
      HalfOfNot(a, n);
    }
  }

  lemma {:induction false} OrBound(a: nat, b: nat, n: nat)
    requires a < Pow2(n) && b < Pow2(n)
    ensures Or(a, b) < Pow2(n)
  {
    if a != 0 && b != 0 {
      OrBound(a / 2, b / 2, n - 1);
    }
  }

  /** Two n-bit words that agree on every bit are the same word. */
  lemma {:induction false} SameBitsSameWord(a: nat, b: nat, n: nat)
    requires a < Pow2(n) && b < Pow2(n)
    requires forall k: nat :: k < n ==> Bit(a, k) == Bit(b, k)
    ensures a == b
  {
    if n > 0 {
      assert Bit(a, 0) == Bit(b, 0);
      forall k: nat | k < n - 1 ensures Bit(a / 2, k) == Bit(b / 2, k) {
        assert Bit(a, k + 1) == Bit(b, k + 1);
      }
      SameBitsSameWord(a / 2, b / 2, n - 1);
    }
  }

  /** `(a >> k) & 1` reads bit k. */
  lemma {:induction false} ShiftedBit(a: nat, k: nat)
    ensures And(Shr(a, k), 1) == if Bit(a, k) then 1 else 0
  {
    if k == 0 {
      assert And(a / 2, 0) == 0;
    } else {
      ShiftedBit(a / 2, k - 1);
    }
  }

  lemma DivDiv(a: nat, d: nat)
    requires d > 0
    ensures a / 2 / d == a / (2 * d)
  {
    var q := a / 2 / d;
    var r := a / 2 - q * d;
    assert a / 2 == q * d + r && 0 <= r < d;
    assert a == q * (2 * d) + (2 * r + a % 2);
    assert 0 <= 2 * r + a % 2 < 2 * d;
    QuotientIs(a, 2 * d, q, 2 * r + a % 2);
  }

  lemma MulAtLeast(k: int, d: int)
    requires k >= 1 && d > 0
    ensures k * d >= d
  {
  }

  lemma NotNegative(x: nat, y: nat)
    ensures x * y >= 0
  {
  }

  lemma MulLess(c: nat, cols: nat, cw: nat)
    requires c < cols
    ensures c * cw + cw <= cols * cw
  {
    NotNegative(cols - (c + 1), cw);
    assert cols * cw == (c + 1) * cw + (cols - (c + 1)) * cw;
  }

  lemma QuotientIs(a: int, d: int, q: int, r: int)
    requires d > 0 && a == q * d + r && 0 <= r < d
    ensures a / d == q && a % d == r
  {
    var q2, r2 := a / d, a % d;
    assert a == q2 * d + r2 && 0 <= r2 < d;
    if q > q2 {
      MulAtLeast(q - q2, d);
    } else if q < q2 {
      MulAtLeast(q2 - q, d);
    }
  }

  /** `x & (2^n - 1)` is the remainder modulo 2^n. */
  lemma {:induction false} LowMask(x: nat, n: nat)
    ensures And(x, Pow2(n) - 1) == x % Pow2(n)
  {
    hide And;
    AndWithZero(x);
    AndWithZero(Pow2(n) - 1);
    if n > 0 && x > 0 {
      var p := Pow2(n - 1);
      LowMask(x / 2, n - 1);
      AndWithOdd(x, p - 1);
      ModDouble(x, p);
    } else if x == 0 {
      QuotientIs(0, Pow2(n), 0, 0);
    }
  }

  lemma AndWithZero(x: nat)
    ensures And(x, 0) == 0 && And(0, x) == 0
  {
  }

  lemma AndWithOdd(x: nat, m: nat)
    requires x > 0
    ensures And(x, 2 * m + 1) == x % 2 + 2 * And(x / 2, m)
  {
    assert (2 * m + 1) / 2 == m && (2 * m + 1) % 2 == 1;
  }

  lemma ModDouble(x: nat, p: nat)
    requires p > 0
    ensures x % (2 * p) == 2 * (x / 2 % p) + x % 2
  {
    var q, r := x / 2 / p, x / 2 % p;
    assert x / 2 == q * p + r;
    assert q * (2 * p) == 2 * (q * p);
    QuotientIs(x, 2 * p, q, 2 * r + x % 2);
  }

  /** A mask shifted left by k selects from the bits above k. */
  lemma {:induction false} ShiftedMask(x: nat, m: nat, k: nat)
    ensures And(x, Shl(m, k)) == Shl(And(Shr(x, k), m), k)
  {
    if k > 0 {
      ShiftedMask(x / 2, m, k - 1);
      AndDouble(x, Shl(m, k - 1));
    }
  }

  lemma AndDouble(x: nat, h: nat)
    ensures And(x, 2 * h) == 2 * And(x / 2, h)
  {
    if x != 0 && h != 0 {
      assert 2 * h / 2 == h && 2 * h % 2 == 0;
    }
  }

  /** Flags below 2^k are packed beside a multiple of 2^k by plain addition. */
  lemma {:induction false} OrPacks(x: nat, f: nat, k: nat)
    requires f < Pow2(k)
    ensures Or(Shl(x, k), f) == Shl(x, k) + f
  {
    if k > 0 && f > 0 && Shl(x, k) > 0 {
      OrPacks(x, f / 2, k - 1);
    }
  }

  lemma Pow2Values()
    ensures Pow2(1) == 2 && Pow2(9) == 0x200 && Pow2(12) == 0x1000 && Pow2(21) == 0x20_0000 && Pow2(30) == 0x4000_0000
    ensures Pow2(32) == 0x1_0000_0000 && Pow2(39) == 0x80_0000_0000
    ensures Pow2(52) == 0x10_0000_0000_0000 && Pow2(64) == 0x1_0000_0000_0000_0000
  {
    assert Pow2(9) == 0x200;
    assert Pow2(16) == 0x1_0000;
    assert Pow2(23) == 0x80_0000;
    assert Pow2(30) == 0x4000_0000;
    assert Pow2(37) == 0x20_0000_0000;
    assert Pow2(44) == 0x1000_0000_0000;
    assert Pow2(52) == 0x10_0000_0000_0000;
    assert Pow2(58) == 0x400_0000_0000_0000;
  }

  /** The 9-bit table index that `(v & (0x1ff << k)) >> k` extracts. */
  lemma FieldIs(v: nat, k: nat)
    ensures Shr(And(v, Shl(0x1ff, k)), k) == v / Pow2(k) % 512
  {
    Pow2Values();
    ShiftedMask(v, 0x1ff, k);
    ShrShl(And(Shr(v, k), 0x1ff), k);
    LowMask(Shr(v, k), 9);
    ShrIsDivide(v, k);
  }

  /** Flags fit below a page address. */
  lemma PageFlags(page: nat, flags: nat)
    requires flags < 4096
    ensures Or(page * 4096, flags) == page * 4096 + flags
  {
    hide Pow2, Or, Shl;
    Pow2Values();
    ShlIsMultiply(page, 12);
    OrPacks(page, flags, 12);
  }

  /** A table link `page address | 0b111` is present, and masking its low 12 bits recovers the address. */
  lemma LinkRoundTrip(page: nat)
    requires page < Pow2(52)
    ensures Or(page * 4096, 7) == page * 4096 + 7
    ensures And(page * 4096 + 7, 1) == 1
    ensures And(page * 4096 + 7, ADDRESS_MASK) == page * 4096
  {
    hide Pow2, And, Or, Shl;
    Pow2Values();
    PageFlags(page, 7);
    LowMask(page * 4096 + 7, 1);
    AddressMask(page * 4096 + 7);
  }

  /** `~((uint64_t)0xfff)`. */
  const ADDRESS_MASK: nat := 0xffff_ffff_ffff_f000

  /** `e & ~0xfff` rounds a 64-bit word down to a page boundary. */
  lemma AddressMask(e: u64)
    ensures And(e, ADDRESS_MASK) == e / 4096 * 4096
  {
    hide Pow2, And, Shl, Shr;
    Pow2Values();
    var m := Pow2(52) - 1;
    ShlIsMultiply(m, 12);
    ShiftedMask(e, m, 12);
    ShrIsDivide(e, 12);
    LowMask(e / 4096, 52);
    ShlIsMultiply(e / 4096, 12);
  }
}
