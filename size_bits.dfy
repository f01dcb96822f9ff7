/**
  The `size_t` bit tricks of the OpenCL host (`lbmcl.hpp`): the power-of-two
  test, the integer base-2 logarithm and the rounding down to a power of two,
  together with the shift and mask the kernels use in place of division by
  the stride.

  A `size_t` is a natural number below 2^64.  `&`, `|` and `>>` are defined
  bit by bit on naturals, so that their meaning is the machine's; the one
  place where the source relies on wrap-around (`x + 1` in
  `previous_power_of_two`) reduces modulo 2^64 explicitly.
*/
module SizeBits {

  /** 2^64: `size_t` arithmetic is taken modulo this. */
  const WORD: nat := 0x1_0000_0000_0000_0000

  function Pow2(k: nat): (r: nat)
    ensures r >= 1
  {
    if k == 0 then 1 else 2 * Pow2(k - 1)
  }

  /** Bit i of x; bit 0 is the least significant. */
  function Bit(x: nat, i: nat): (r: nat)
    ensures r < 2
  {
    if i == 0 then x % 2 else Bit(x / 2, i - 1)
  }

  /** `a & b`. */
  function And(a: nat, b: nat): nat
  {
    if a == 0 || b == 0 then 0
    else 2 * And(a / 2, b / 2) + (if a % 2 == 1 && b % 2 == 1 then 1 else 0)
  }

  /** `a | b`. */
  function Or(a: nat, b: nat): nat
    decreases a + b
  {
    if a == 0 && b == 0 then 0
    else 2 * Or(a / 2, b / 2) + (if a % 2 == 1 || b % 2 == 1 then 1 else 0)
  }

  /** `a >> s`: s times, drop the lowest bit. */
  function Shr(a: nat, s: nat): nat
  {
    if s == 0 then a else Shr(a / 2, s - 1)
  }

  /** `is_power_of_two`: `x && !(x & (x - 1))`. */
  predicate IsPowerOfTwo(x: nat)
  {
    x != 0 && And(x, x - 1) == 0
  }

  /** The value `log2i` computes: how many halvings bring x down to 1. */
  function Log2(x: nat): nat
  {
    if x > 1 then 1 + Log2(x / 2) else 0
  }

  /** `log2i`: shift x right until it is at most 1, counting the shifts. */
  method Log2i(x: nat) returns (n: nat)
    ensures n == Log2(x)
    ensures x >= 1 ==> Pow2(n) <= x < Pow2(n + 1)
    ensures x <= 1 ==> n == 0
  {
    var v := x;
    n := 0;
    while v > 1
      invariant n + Log2(v) == Log2(x)
      decreases v
    {
      assert Shr(v, 1) == v / 2;
      v := Shr(v, 1);
      n := n + 1;
    }
    if x >= 1 {
      Log2Bounds(x);
    }
  }

  /** `log2i` is the floor of the base-2 logarithm: 2^n <= x < 2^(n+1). */
  lemma {:induction false} Log2Bounds(x: nat)
    requires x >= 1
    ensures Pow2(Log2(x)) <= x < Pow2(Log2(x) + 1)
  {
    if x > 1 {
      Log2Bounds(x / 2);
    }
  }

  /** The floor logarithm is the only exponent that brackets x. */
  lemma Log2Unique(x: nat, k: nat)
    requires Pow2(k) <= x < Pow2(k + 1)
    ensures Log2(x) == k
  {
    Log2Bounds(x);
    if Log2(x) < k {
      Pow2Monotone(Log2(x) + 1, k);
    } else if Log2(x) > k {
      Pow2Monotone(k + 1, Log2(x));
    }
  }

  lemma {:induction false} Pow2Monotone(j: nat, k: nat)
    requires j <= k
    ensures Pow2(j) <= Pow2(k)
  {
    if j < k {
      Pow2Monotone(j, k - 1);
    }
  }

  lemma {:induction false} Pow2Add(a: nat, b: nat)
    ensures Pow2(a + b) == Pow2(a) * Pow2(b)
  {
    if a > 0 {
      Pow2Add(a - 1, b);
    }
  }

  lemma Pow2Of16()
    ensures Pow2(16) == 0x1_0000
  {
    assert Pow2(8) == 256;
    Pow2Add(8, 8);
  }

  lemma Pow2Of32()
    ensures Pow2(32) == 0x1_0000_0000
  {
    Pow2Of16();
    Pow2Add(16, 16);
  }

  /** 2^64 is the size of the `size_t` range, 2^63 its upper half. */
  lemma Pow2OfWord()
    ensures Pow2(64) == WORD && Pow2(63) == 0x8000_0000_0000_0000
  {
    Pow2Of32();
    Pow2Add(32, 32);
    assert Pow2(64) == 2 * Pow2(63);
  }

  lemma {:induction false} Log2OfPow2(k: nat)
    ensures Log2(Pow2(k)) == k
  {
    if k > 0 {
      Log2OfPow2(k - 1);
      assert Pow2(k) / 2 == Pow2(k - 1);
    }
  }

  // ---------------------------------------------------------------------------
  // Powers of two

  lemma {:induction false} AndSelf(y: nat)
    ensures And(y, y) == y
  {
    if y != 0 {
      AndSelf(y / 2);
    }
  }

  /** Every 2^k passes `is_power_of_two`. */
  lemma {:induction false} Pow2IsPowerOfTwo(k: nat)
    ensures IsPowerOfTwo(Pow2(k))
  {
    if k > 0 {
      Pow2IsPowerOfTwo(k - 1);
      var p := Pow2(k - 1);
      if p > 1 {
        assert (2 * p) / 2 == p && (2 * p - 1) / 2 == p - 1 && (2 * p) % 2 == 0;
      }
    }
  }

  /** A value that passes `is_power_of_two` is 2 to the power of its
      logarithm. */
  lemma {:induction false} PowerOfTwoIsPow2(x: nat)
    requires IsPowerOfTwo(x)
    ensures Pow2(Log2(x)) == x
  {
    if x > 1 {
      var y := x / 2;
      if x % 2 == 1 {
        AndSelf(y);
        assert false;
      }
      assert And(x, x - 1) == 2 * And(y, y - 1);
      PowerOfTwoIsPow2(y);
    }
  }

  /** `is_power_of_two(x)` holds exactly when x is 2^k for some k. */
  lemma PowerOfTwoIff(x: nat)
    ensures IsPowerOfTwo(x) <==> exists k: nat :: Pow2(k) == x
  {
    if IsPowerOfTwo(x) {
      PowerOfTwoIsPow2(x);
    }
    if exists k: nat :: Pow2(k) == x {
      var k: nat :| Pow2(k) == x;
      Pow2IsPowerOfTwo(k);
    }
  }

  // ---------------------------------------------------------------------------
  // Shift and mask against division by a power of two

  /** Division with remainder has one answer. */
  lemma DivModUnique(a: int, b: int, q: int, r: int)
    requires b > 0 && 0 <= r < b && a == q * b + r
    ensures a / b == q && a % b == r
  {
    var q0, r0 := a / b, a % b;
    assert a == q0 * b + r0;
    if q0 > q {
      assert q0 * b >= (q + 1) * b by { MulMonotone(q + 1, q0, b); }
    } else if q0 < q {
      assert q * b >= (q0 + 1) * b by { MulMonotone(q0 + 1, q, b); }
    }
  }

  lemma MulMonotone(x: int, y: int, b: int)
    requires x <= y && b > 0
    ensures x * b <= y * b
  {
  }

  /** Dividing by 2p is halving and then dividing by p. */
  lemma HalveDivMod(a: nat, p: nat)
    requires p >= 1
    ensures a / (2 * p) == (a / 2) / p
    ensures a % (2 * p) == 2 * ((a / 2) % p) + a % 2
  {
    var h := a / 2;
    DivModUnique(a, 2 * p, h / p, 2 * (h % p) + a % 2);
  }

  /** `a >> s` is a / 2^s. */
  lemma {:induction false} ShrIsDiv(a: nat, s: nat)
    ensures Shr(a, s) == a / Pow2(s)
  {
    if s > 0 {
      ShrIsDiv(a / 2, s - 1);
      HalveDivMod(a, Pow2(s - 1));
    }
  }

  /** `a & (2^k - 1)` is a % 2^k. */
  lemma {:induction false} MaskIsMod(a: nat, k: nat)
    ensures And(a, Pow2(k) - 1) == a % Pow2(k)
  {
    if k > 0 {
      var p := Pow2(k - 1);
      MaskIsMod(a / 2, k - 1);
      HalveDivMod(a, p);
      AndLowMask(a, p);
    }
  }

  /** Masking with 2p - 1 keeps the lowest bit and masks the rest with
      p - 1. */
  lemma AndLowMask(a: nat, p: nat)
    requires p >= 1
    ensures And(a, 2 * p - 1) == 2 * And(a / 2, p - 1) + a % 2
  {
    var m := 2 * p - 1;
    assert m / 2 == p - 1 && m % 2 == 1;
    if a == 0 {
      assert And(a / 2, p - 1) == 0;
    }
  }

  /** With a power-of-two stride, the kernel's `id >> log2i(stride)` and
      `id & (stride - 1)` are the quotient and remainder of the division by
      the stride. */
  lemma StrideShiftAndMask(id: nat, stride: nat)
    requires IsPowerOfTwo(stride)
    ensures Shr(id, Log2(stride)) == id / stride
    ensures And(id, stride - 1) == id % stride
  {
    var k := Log2(stride);
    PowerOfTwoIsPow2(stride);
    assert Pow2(k) == stride;
    ShrIsDiv(id, k);
    MaskIsMod(id, k);
  }

  // ---------------------------------------------------------------------------
  // Bits

  lemma {:induction false} BitOfZero(i: nat)
    ensures Bit(0, i) == 0
  {
    if i > 0 {
      BitOfZero(i - 1);
    }
  }

  /** `|` is bitwise. */
  lemma {:induction false} OrBit(a: nat, b: nat, i: nat)
    ensures Bit(Or(a, b), i) == if Bit(a, i) == 1 || Bit(b, i) == 1 then 1 else 0
    decreases i
  {
    if a == 0 && b == 0 {
      BitOfZero(i);
    } else if i > 0 {
      OrBit(a / 2, b / 2, i - 1);
    }
  }

  /** `>>` moves bit i + s down to bit i. */
  lemma {:induction false} ShrBit(a: nat, s: nat, i: nat)
    ensures Bit(Shr(a, s), i) == Bit(a, i + s)
  {
    if s > 0 {
      ShrBit(a / 2, s - 1, i);
    }
  }

  /** Two numbers with the same bits are equal. */
  lemma {:induction false} SameBits(a: nat, b: nat)
    requires forall i: nat :: Bit(a, i) == Bit(b, i)
    ensures a == b
    decreases a + b
  {
    if a != 0 || b != 0 {
      assert Bit(a, 0) == Bit(b, 0);
      forall i: nat
        ensures Bit(a / 2, i) == Bit(b / 2, i)
      {
        assert Bit(a, i + 1) == Bit(b, i + 1);
      }
      SameBits(a / 2, b / 2);
    }
  }

  /** 2^m - 1 has exactly the bits 0 .. m-1 set. */
  lemma {:induction false} LowOnesBit(m: nat, i: nat)
    ensures Bit(Pow2(m) - 1, i) == if i < m then 1 else 0
  {
    if m == 0 {
      BitOfZero(i);
    } else if i > 0 {
      LowOnesBit(m - 1, i - 1);
      assert (Pow2(m) - 1) / 2 == Pow2(m - 1) - 1;
    }
  }

  /** The highest set bit of x >= 1 is bit Log2(x). */
  lemma {:induction false} TopBit(x: nat)
    requires x >= 1
    ensures Bit(x, Log2(x)) == 1
  {
    if x > 1 {
      TopBit(x / 2);
    }
  }

  lemma {:induction false} AboveTopBit(x: nat, i: nat)
    requires i > Log2(x)
    ensures Bit(x, i) == 0
  {
    if x <= 1 {
      BitOfZero(i - 1);
    } else {
      AboveTopBit(x / 2, i - 1);
    }
  }

  /** Some bit among bits lo .. lo+len-1 of x is set. */
  predicate AnyBit(x: nat, lo: nat, len: nat)
    decreases len
  {
    len > 0 && (Bit(x, lo) == 1 || AnyBit(x, lo + 1, len - 1))
  }

  lemma {:induction false} AnyBitSplit(x: nat, lo: nat, a: nat, b: nat)
    ensures AnyBit(x, lo, a + b) <==> AnyBit(x, lo, a) || AnyBit(x, lo + a, b)
    decreases a
  {
    if a > 0 {
      AnyBitSplit(x, lo + 1, a - 1, b);
    }
  }

  lemma {:induction false} AnyBitAt(x: nat, lo: nat, len: nat, j: nat)
    requires lo <= j < lo + len && Bit(x, j) == 1
    ensures AnyBit(x, lo, len)
    decreases len
  {
    if j > lo {
      AnyBitAt(x, lo + 1, len - 1, j);
    }
  }

  lemma {:induction false} NoBitAbove(x: nat, lo: nat, len: nat)
    requires x == 0 || lo > Log2(x)
    ensures !AnyBit(x, lo, len)
    decreases len
  {
    if len > 0 {
      if x == 0 {
        BitOfZero(lo);
      } else {
        AboveTopBit(x, lo);
      }
      NoBitAbove(x, lo + 1, len - 1);
    }
  }

  // ---------------------------------------------------------------------------
  // previous_power_of_two

  /** `previous_power_of_two` runs six rounds, shifting by 1, 2, 4, 8, 16
      and 32. */
  const ROUNDS: nat := 6

  /** t rounds of `x |= x >> 2^(r-1)`, r = 1 .. t. */
  function Smear(x: nat, t: nat): nat
  {
    if t == 0 then x else Or(Smear(x, t - 1), Shr(Smear(x, t - 1), Pow2(t - 1)))
  }

  /** After t rounds, bit i is set iff one of the 2^t bits from i up was set
      in x. */
  lemma {:induction false} SmearBit(x: nat, t: nat, i: nat)
    ensures Bit(Smear(x, t), i) == if AnyBit(x, i, Pow2(t)) then 1 else 0
  {
    if t == 0 {
    } else {
      var y, s := Smear(x, t - 1), Pow2(t - 1);
      OrBit(y, Shr(y, s), i);
      ShrBit(y, s, i);
      SmearBit(x, t - 1, i);
      SmearBit(x, t - 1, i + s);
      AnyBitSplit(x, i, s, s);
    }
  }

  /** `previous_power_of_two`: copy the top bit into every lower bit, add one
      (modulo 2^64) and shift right once. */
  function PreviousPowerOfTwo(x: nat): nat
    requires x < WORD
  {
    var x1 := Or(x, Shr(x, 1));
    var x2 := Or(x1, Shr(x1, 2));
    var x3 := Or(x2, Shr(x2, 4));
    var x4 := Or(x3, Shr(x3, 8));
    var x5 := Or(x4, Shr(x4, 16));
    var x6 := Or(x5, Shr(x5, 32));
    Shr((x6 + 1) % WORD, 1)
  }

  lemma SixRounds(x: nat)
    requires x < WORD
    ensures PreviousPowerOfTwo(x) == Shr((Smear(x, ROUNDS) + 1) % WORD, 1)
  {
    assert Smear(x, 1) == Or(x, Shr(x, 1));
    assert Smear(x, 2) == Or(Smear(x, 1), Shr(Smear(x, 1), 2));
    assert Smear(x, 3) == Or(Smear(x, 2), Shr(Smear(x, 2), 4));
    assert Smear(x, 4) == Or(Smear(x, 3), Shr(Smear(x, 3), 8));
    assert Smear(x, 5) == Or(Smear(x, 4), Shr(Smear(x, 4), 16));
    assert Smear(x, 6) == Or(Smear(x, 5), Shr(Smear(x, 5), 32));
  }

  /** Six rounds fill every bit below the top one of a 64-bit value. */
  lemma SmearFills(x: nat)
    requires 1 <= x < WORD
    ensures Smear(x, ROUNDS) == Pow2(Log2(x) + 1) - 1
  {
    Log2Bounds(x);
    Pow2OfWord();
    if Log2(x) >= 64 {
      Pow2Monotone(64, Log2(x));
    }
    forall i: nat
      ensures Bit(Smear(x, ROUNDS), i) == Bit(Pow2(Log2(x) + 1) - 1, i)
    {
      SmearFillsBit(x, i);
    }
    SameBits(Smear(x, ROUNDS), Pow2(Log2(x) + 1) - 1);
  }

  lemma SmearFillsBit(x: nat, i: nat)
    requires 1 <= x && Log2(x) < 64
    ensures Bit(Smear(x, ROUNDS), i) == Bit(Pow2(Log2(x) + 1) - 1, i)
  {
    var top := Log2(x);
    SmearBit(x, ROUNDS, i);
    LowOnesBit(top + 1, i);
    assert Pow2(ROUNDS) == 64;
    if i <= top {
      TopBit(x);
      AnyBitAt(x, i, 64, top);
    } else {
      NoBitAbove(x, i, 64);
    }
  }

  /** The last two steps, once one has been added: reduce modulo 2^64, then
      shift right once. */
  lemma AddOneShift(s: nat)
    requires 1 <= s <= WORD
    ensures Shr(s % WORD, 1) == if s == WORD then 0 else s / 2
  {
    var v := s % WORD;
    assert v == if s == WORD then 0 else s;
    assert Shr(v, 1) == Shr(v / 2, 0);
  }

  lemma {:induction false} SmearOfZero(x: nat, t: nat)
    requires x == 0
    ensures Smear(x, t) == 0
  {
    if t > 0 {
      SmearOfZero(x, t - 1);
      ShrIsDiv(0, Pow2(t - 1));
    }
  }

  /** A 64-bit value has its top bit at position 63 at most; 2^(top+1)
      reaches 2^64 only when the top bit is bit 63. */
  lemma TopBelowWord(x: nat)
    requires 1 <= x < WORD
    ensures Log2(x) <= 63
    ensures Pow2(Log2(x) + 1) <= WORD
    ensures Pow2(Log2(x) + 1) == WORD <==> Log2(x) == 63
  {
    var top := Log2(x);
    Log2Bounds(x);
    Pow2OfWord();
    if top >= 64 {
      Pow2Monotone(64, top);
    }
    if top < 63 {
      Pow2Monotone(top + 1, 63);
    }
  }

  /** What the six rounds, the wrapping `+ 1` and the final shift leave:
      2^Log2(x), or 0 when x is 0 or its top bit is bit 63. */
  lemma RoundUp(x: nat)
    requires x < WORD
    ensures Shr((Smear(x, ROUNDS) + 1) % WORD, 1) ==
      if x == 0 || Log2(x) >= 63 then 0 else Pow2(Log2(x))
  {
    if x == 0 {
      SmearOfZero(x, ROUNDS);
    } else {
      SmearFills(x);
      TopBelowWord(x);
      assert Pow2(Log2(x) + 1) / 2 == Pow2(Log2(x));
    }
    AddOneShift(Smear(x, ROUNDS) + 1);
  }

  lemma PreviousValue(x: nat)
    requires x < WORD
    ensures PreviousPowerOfTwo(x) == if x == 0 || Log2(x) >= 63 then 0 else Pow2(Log2(x))
  {
    SixRounds(x);
    RoundUp(x);
  }

  /** `previous_power_of_two(x)` is the largest power of two not above x for
      1 <= x < 2^63, leaves powers of two unchanged, and yields 0 for x = 0
      and, through the wrap of `x + 1`, for every x >= 2^63. */
  lemma PreviousPowerOfTwoSpec(x: nat)
    requires x < WORD
    ensures x == 0 ==> PreviousPowerOfTwo(x) == 0
    ensures 1 <= x < Pow2(63) ==>
      var r := PreviousPowerOfTwo(x); IsPowerOfTwo(r) && r <= x < 2 * r
    ensures IsPowerOfTwo(x) && x < Pow2(63) ==> PreviousPowerOfTwo(x) == x
    ensures Pow2(63) <= x ==> PreviousPowerOfTwo(x) == 0
  {
    PreviousValue(x);
    if x != 0 {
      var top := Log2(x);
      Log2Bounds(x);
      TopBelowWord(x);
      if x < Pow2(63) {
        if top == 63 {
          assert false;
        }
        Pow2IsPowerOfTwo(top);
        if IsPowerOfTwo(x) {
          PowerOfTwoIsPow2(x);
        }
      } else if top < 63 {
        Pow2Monotone(top + 1, 63);
      }
    }
  }
}
