/** Integer bit-field primitives of the ETC1 decoder.

    The decoder works on Python integers, which are unbounded; every value
    it shifts, masks or ors is non-negative. So `>>`, `<<`, `&` and `|` are
    modelled here on `nat`: `>>` by repeated halving, `<<` by repeated
    doubling (`ShlIsMul` shows it multiplies by a power of two), `&` and
    `|` bit by bit from the least significant bit up. The
    helpers of the ETC block (`mask_bits`, `clamp_bits`, `expand_to_byte`,
    `get_signed_val`, `get_bit`) are defined on top of them, with contracts
    that say what each computes in ordinary arithmetic. */
module Bits {

  /** One byte of input. */
  type Byte = x: int | 0 <= x < 256

  function Pow2(n: nat): (r: nat)
    ensures r >= 1
  {
    if n == 0 then 1 else 2 * Pow2(n - 1)
  }

  /** `x >> k` */
  function Shr(x: nat, k: nat): nat
  {
    if k == 0 then x else Shr(x / 2, k - 1)
  }

  /** `x << k` */
  function Shl(x: nat, k: nat): nat
    decreases k
  {
    if k == 0 then x else Shl(2 * x, k - 1)
  }

  /** `a & b` */
  function BitAnd(a: nat, b: nat): nat
    decreases a
  {
    if a == 0 || b == 0 then 0
    else 2 * BitAnd(a / 2, b / 2) + (if a % 2 == 1 && b % 2 == 1 then 1 else 0)
  }

  /** `a | b` */
  function BitOr(a: nat, b: nat): nat
    decreases a + b
  {
    if a == 0 then b
    else if b == 0 then a
    else 2 * BitOr(a / 2, b / 2) + (if a % 2 == 1 || b % 2 == 1 then 1 else 0)
  }

  /** The low n bits of x, collected one at a time. */
  function LowBits(x: nat, n: nat): nat
  {
    if n == 0 then 0 else 2 * LowBits(x / 2, n - 1) + x % 2
  }

  // ---------------------------------------------------------------------
  // Division and remainder by a divisor the solver cannot see

  /** The defining equation of `/` and `%`. */
  lemma DivMod(x: int, d: int)
    requires d > 0
    ensures x == (x / d) * d + x % d && 0 <= x % d < d
  {
  }

  /** Multiplying by a non-negative number keeps an order. */
  lemma MulMonotone(a: int, b: int, c: int)
    requires b <= a && 0 <= c
    ensures b * c <= a * c
  {
    assert a * c - b * c == (a - b) * c;
  }

  lemma MulCancelLess(a: int, b: int, c: int)
    requires 0 <= c && a * c < b * c
    ensures a < b
  {
    if a >= b {
      MulMonotone(a, b, c);
    }
  }

  /** A positive product with a non-negative factor has a positive other factor. */
  lemma PositiveFactor(a: int, b: int)
    requires 0 <= a && a * b > 0
    ensures b > 0
  {
    if b <= 0 {
      MulMonotone(0, b, a);
    }
  }

  /** Quotient and remainder are the only ones the defining equation admits. */
  lemma DivModUnique(x: int, d: int, q: int, r: int)
    requires d > 0 && 0 <= r < d && x == q * d + r
    ensures x / d == q && x % d == r
  {
    var k := q - x / d;
    assert k * d == x % d - r;
    if k >= 1 {
      MulMonotone(k, 1, d);
    } else if k <= -1 {
      MulMonotone(-k, 1, d);
    }
  }

  /** Halving first: `x / 2p` and `x mod 2p` through `x / 2`. */
  lemma HalveDivMod(x: nat, p: nat)
    requires p > 0
    ensures x / (2 * p) == (x / 2) / p
    ensures x % (2 * p) == 2 * ((x / 2) % p) + x % 2
  {
    var h := x / 2;
    var q, s := h / p, h % p;
    DivMod(h, p);
    assert x == q * (2 * p) + (2 * s + x % 2) by {
      assert q * (2 * p) == 2 * (q * p);
    }
    DivModUnique(x, 2 * p, q, 2 * s + x % 2);
  }

  // ---------------------------------------------------------------------
  // What `>>`, `&` and `|` compute

  /** `x >> k` is `x` divided by `2^k`. */
  lemma {:induction false} ShrIsDiv(x: nat, k: nat)
    ensures Shr(x, k) == x / Pow2(k)
  {
    if k > 0 {
      ShrIsDiv(x / 2, k - 1);
      HalveDivMod(x, Pow2(k - 1));
    }
  }

  /** Shifting by a + b is shifting by a and then by b. */
  lemma {:induction false} ShrShr(x: nat, a: nat, b: nat)
    ensures Shr(x, a + b) == Shr(Shr(x, a), b)
  {
    if a > 0 {
      ShrShr(x / 2, a - 1, b);
    }
  }

  /** `x << k` is `x` times `2^k`. */
  lemma {:induction false} ShlIsMul(x: nat, k: nat)
    ensures Shl(x, k) == x * Pow2(k)
    decreases k
  {
    if k > 0 {
      ShlIsMul(2 * x, k - 1);
      assert (2 * x) * Pow2(k - 1) == x * (2 * Pow2(k - 1));
    }
  }

  /** Doubling before or after a left shift is the same. */
  lemma {:induction false} ShlTwice(x: nat, k: nat)
    ensures Shl(2 * x, k) == 2 * Shl(x, k)
    decreases k
  {
    if k > 0 {
      ShlTwice(2 * x, k - 1);
    }
  }

  /** Shifting `(hi << k) + lo` right by at most k bits shifts the two parts
      separately. */
  lemma {:induction false} ShrSplit(hi: nat, k: nat, lo: nat, j: nat)
    requires j <= k
    ensures Shr(Shl(hi, k) + lo, j) == Shl(hi, k - j) + Shr(lo, j)
  {
    if j > 0 {
      ShlTwice(hi, k - 1);
      assert (2 * Shl(hi, k - 1) + lo) / 2 == Shl(hi, k - 1) + lo / 2;
      ShrSplit(hi, k - 1, lo / 2, j - 1);
    }
  }

  /** A value below `2^k` shifts to zero. */
  lemma {:induction false} ShrSmall(x: nat, k: nat)
    requires x < Pow2(k)
    ensures Shr(x, k) == 0
  {
    if k > 0 {
      ShrSmall(x / 2, k - 1);
    }
  }

  /** `x & (2^n - 1)` collects the low n bits. */
  lemma {:induction false} AndLowBits(x: nat, n: nat)
    ensures BitAnd(x, Pow2(n) - 1) == LowBits(x, n)
  {
    if n > 0 && x > 0 {
      var p := Pow2(n - 1);
      AndLowBits(x / 2, n - 1);
      assert (2 * p - 1) / 2 == p - 1;
    } else if n > 0 {
      AndLowBits(0, n - 1);
    }
  }

  /** The low n bits of x are `x mod 2^n`. */
  lemma {:induction false} LowBitsMod(x: nat, n: nat)
    ensures LowBits(x, n) == x % Pow2(n)
  {
    if n > 0 {
      LowBitsMod(x / 2, n - 1);
      HalveDivMod(x, Pow2(n - 1));
    }
  }

  /** `x & 2^k` is non-zero exactly when bit k of x is set. */
  lemma {:induction false} AndSingleBit(x: nat, k: nat)
    ensures BitAnd(x, Pow2(k)) > 0 <==> Shr(x, k) % 2 == 1
  {
    if k > 0 && x > 0 {
      var p := Pow2(k - 1);
      assert (2 * p) / 2 == p && (2 * p) % 2 == 0;
      AndSingleBit(x / 2, k - 1);
    } else if k > 0 {
      ShrSmall(0, k);
    }
  }

  /** `lo | (m << k)` is `lo + (m << k)` when lo has no bit from bit k up:
      the two operands have no set bit in common. */
  lemma {:induction false} OrDisjoint(lo: nat, m: nat, k: nat)
    requires lo < Pow2(k)
    ensures BitOr(lo, Shl(m, k)) == lo + Shl(m, k)
  {
    if k > 0 && lo > 0 && m > 0 {
      ShlTwice(m, k - 1);
      OrDisjoint(lo / 2, m, k - 1);
    } else if k > 0 && lo > 0 {
      ShlZero(k);
    }
  }

  lemma {:induction false} ShlZero(k: nat)
    ensures Shl(0, k) == 0
  {
    if k > 0 {
      ShlZero(k - 1);
    }
  }

  // ---------------------------------------------------------------------
  // The block helpers

  /** `mask_bits`: the low n bits of x. */
  function MaskBits(x: nat, n: nat): (r: nat)
    ensures r < Pow2(n)
  {
    AndBelow(x, n);
    BitAnd(x, Pow2(n) - 1)
  }

  lemma AndBelow(x: nat, n: nat)
    ensures BitAnd(x, Pow2(n) - 1) < Pow2(n)
  {
    MaskBitsMod(x, n);
  }

  /** `mask_bits(x, n)` is x modulo `2^n`. */
  lemma MaskBitsMod(x: nat, n: nat)
    ensures BitAnd(x, Pow2(n) - 1) == x % Pow2(n) && x % Pow2(n) < Pow2(n)
  {
    AndLowBits(x, n);
    LowBitsMod(x, n);
  }

  /** `mask_bits(x, n)` for a width whose power d is known. */
  lemma MaskBy(x: nat, n: nat, d: nat)
    requires d == Pow2(n)
    ensures MaskBits(x, n) == x % d
  {
    MaskBitsMod(x, n);
  }

  /** A remainder by a larger divisor is the value itself. */
  lemma ModSmall(v: nat, d: nat)
    requires v < d
    ensures v % d == v
  {
  }

  /** Masking a value that already fits leaves it unchanged. */
  lemma MaskSmall(x: nat, n: nat)
    requires x < Pow2(n)
    ensures MaskBits(x, n) == x
  {
    MaskBitsMod(x, n);
    DivModUnique(x, Pow2(n), 0, x);
  }

  /** `clamp_bits`: x saturated into the unsigned n-bit range. */
  function ClampBits(x: int, n: nat): (r: int)
    ensures 0 <= r < Pow2(n)
    ensures 0 <= x < Pow2(n) ==> r == x
    ensures x < 0 ==> r == 0
    ensures x >= Pow2(n) ==> r == Pow2(n) - 1
  {
    if x < 0 then 0
    else if x > Pow2(n) - 1 then Pow2(n) - 1
    else x
  }

  /** `get_bit`: bit `index` of `data`, that is, the parity of
      `data >> index`. */
  function GetBit(data: nat, index: nat): (r: nat)
    ensures r < 2 && r == Shr(data, index) % 2
  {
    AndLowBits(Shr(data, index), 1);
    BitAnd(Shr(data, index), 1)
  }

  /** Bit `index` of `data` in ordinary arithmetic. */
  lemma GetBitIsDiv(data: nat, index: nat)
    ensures GetBit(data, index) == (data / Pow2(index)) % 2
  {
    ShrIsDiv(data, index);
  }

  /** `get_signed_val`: the low n bits of b read as an n-bit two's-complement
      number, which lies in the signed n-bit range. */
  function GetSignedVal(b: nat, n: nat): (r: int)
    requires n >= 1
    ensures -(Pow2(n - 1) as int) <= r < Pow2(n - 1)
  {
    if BitAnd(b, Pow2(n - 1)) > 0 then MaskBits(b, n - 1) - Pow2(n - 1)
    else MaskBits(b, n - 1)
  }

  /** `get_signed_val(b, n)` is b modulo `2^n`, less `2^n` when bit n - 1
      (the sign bit) is set. */
  lemma GetSignedValTwos(b: nat, n: nat)
    requires n >= 1
    ensures GetSignedVal(b, n) == if b % Pow2(n) >= Pow2(n - 1) then b % Pow2(n) - Pow2(n) else b % Pow2(n)
  {
    var k := n - 1;
    assert Pow2(n) == Pow2(k + 1);
    SignBitFacts(b, k);
    MaskBitsMod(b, k);
  }

  /** Bit k of b decides whether `b mod 2^(k+1)` reaches `2^k`, and removing
      that bit leaves `b mod 2^k`. */
  lemma SignBitFacts(b: nat, k: nat)
    ensures Pow2(k + 1) == 2 * Pow2(k)
    ensures BitAnd(b, Pow2(k)) > 0 <==> b % Pow2(k + 1) >= Pow2(k)
    ensures b % Pow2(k) == if b % Pow2(k + 1) >= Pow2(k) then b % Pow2(k + 1) - Pow2(k) else b % Pow2(k + 1)
  {
    AndSingleBit(b, k);
    ModSplit(b, k);
  }

  /** `x mod 2^(k+1)` is `x mod 2^k`, plus `2^k` when bit k of x is set. */
  lemma ModSplit(x: nat, k: nat)
    ensures Pow2(k + 1) == 2 * Pow2(k) && x % Pow2(k) < Pow2(k)
    ensures x % Pow2(k + 1) == (if Shr(x, k) % 2 == 1 then Pow2(k) else 0) + x % Pow2(k)
  {
    LowBitsMod(x, k);
    LowBitsMod(x, k + 1);
    LowBitsTop(x, k);
    LowBitsBound(x, k);
  }

  lemma {:induction false} LowBitsBound(x: nat, k: nat)
    ensures LowBits(x, k) < Pow2(k)
  {
    if k > 0 {
      LowBitsBound(x / 2, k - 1);
    }
  }

  /** The low k+1 bits are the low k bits plus bit k in its place. */
  lemma {:induction false} LowBitsTop(x: nat, k: nat)
    ensures LowBits(x, k + 1) == LowBits(x, k) + (if Shr(x, k) % 2 == 1 then Pow2(k) else 0)
  {
    if k > 0 {
      LowBitsTop(x / 2, k - 1);
    }
  }

  /** `expand_to_byte`: the low n bits m of v widened to 8 bits, with m in
      the top n bits and the top `8 - n` bits of m copied below it; the or
      of the two shifted copies is their sum. The shift counts `2n - 8` and
      `8 - n` are negative outside 4..8, where Python raises instead. */
  function ExpandToByte(v: nat, n: nat): (r: nat)
    requires 4 <= n <= 8
    ensures r < 256
  {
    var m := MaskBits(v, n);
    Pow2Byte();
    MaskBits(BitOr(Shr(m, 2 * n - 8), Shl(m, 8 - n)), 8)
  }

  lemma Pow2Byte()
    ensures Pow2(8) == 256
  {
  }

  /** The result of `expand_to_byte` is the sum of the two shifted copies:
      they do not overlap and already fit in a byte. */
  lemma ExpandToByteSum(v: nat, n: nat)
    requires 4 <= n <= 8
    ensures ExpandToByte(v, n) == Shl(MaskBits(v, n), 8 - n) + Shr(MaskBits(v, n), 2 * n - 8)
  {
    var m := MaskBits(v, n);
    ExpandFacts(m, n);
    MaskSmall(BitOr(Shr(m, 2 * n - 8), Shl(m, 8 - n)), 8);
  }

  /** The two halves `expand_to_byte` ors together do not overlap, so the
      or is a sum, and that sum already fits in a byte. */
  lemma ExpandFacts(m: nat, n: nat)
    requires 4 <= n <= 8 && m < Pow2(n)
    ensures var w := BitOr(Shr(m, 2 * n - 8), Shl(m, 8 - n));
      w == Shl(m, 8 - n) + Shr(m, 2 * n - 8) && w < Pow2(8)
  {
    ExpandBound(m, n);
    OrDisjoint(Shr(m, 2 * n - 8), m, 8 - n);
  }

  /** For each width from 4 to 8, the top bits of m fit below m shifted up,
      and the two together fit in a byte. */
  lemma ExpandBound(m: nat, n: nat)
    requires 4 <= n <= 8 && m < Pow2(n)
    ensures Shr(m, 2 * n - 8) < Pow2(8 - n)
    ensures Shl(m, 8 - n) + Shr(m, 2 * n - 8) < Pow2(8)
  {
    var j, k := 2 * n - 8, 8 - n;
    assert Pow2(8) == 256;
    if n == 4 {
      assert j == 0 && k == 4 && Pow2(4) == 16;
      ShrBy(m, 0, 1);
      ShlBy(m, 4, 16);
    } else if n == 5 {
      assert j == 2 && k == 3 && Pow2(5) == 32;
      ShrBy(m, 2, 4);
      ShlBy(m, 3, 8);
    } else if n == 6 {
      assert j == 4 && k == 2 && Pow2(6) == 64;
      ShrBy(m, 4, 16);
      ShlBy(m, 2, 4);
    } else if n == 7 {
      assert j == 6 && k == 1 && Pow2(7) == 128;
      ShrBy(m, 6, 64);
      ShlBy(m, 1, 2);
    } else {
      assert j == 8 && k == 0;
      ShrBy(m, 8, 256);
      ShlBy(m, 0, 1);
    }
  }

  /** `x >> k` and `x << k` for a shift count whose power d is known. */
  lemma ShrBy(x: nat, k: nat, d: nat)
    requires d == Pow2(k)
    ensures Shr(x, k) == x / d
  {
    ShrIsDiv(x, k);
  }

  lemma ShlBy(x: nat, k: nat, d: nat)
    requires d == Pow2(k)
    ensures Shl(x, k) == x * d
  {
    ShlIsMul(x, k);
  }

  /** For the two widths the decoder uses, `expand_to_byte` is the usual
      bit-replication formula of ETC1: a nibble is repeated twice, and a
      5-bit value is followed by its own top three bits. */
  lemma ExpandFour(v: nat)
    ensures ExpandToByte(v, 4) == (v % 16) * 17
  {
    ExpandToByteSum(v, 4);
    MaskBy(v, 4, 16);
    ShlBy(v % 16, 4, 16);
    ShrBy(v % 16, 0, 1);
  }

  lemma ExpandFive(v: nat)
    ensures ExpandToByte(v, 5) == (v % 32) * 8 + (v % 32) / 4
  {
    ExpandToByteSum(v, 5);
    MaskBy(v, 5, 32);
    ShlBy(v % 32, 3, 8);
    ShrBy(v % 32, 2, 4);
  }
}
