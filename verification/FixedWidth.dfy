/** The integer types of the C++ code. An operation that would leave the range does not verify. */
module FixedWidth {
  const TWO_TO_THE_32 := 0x1_0000_0000
  const TWO_TO_THE_64 := 0x1_0000_0000_0000_0000

  newtype uint32 = x: int | 0 <= x < TWO_TO_THE_32
  newtype uint64 = x: int | 0 <= x < TWO_TO_THE_64
  newtype int64 = x: int | -0x8000_0000_0000_0000 <= x < 0x8000_0000_0000_0000

  const UINT32_MAX: uint32 := 0xFFFF_FFFF
  const UINT64_MAX: uint64 := 0xFFFF_FFFF_FFFF_FFFF
  const INT64_MAX: int64 := 0x7FFF_FFFF_FFFF_FFFF

  function PowerOfTwo(k: nat): (p: nat)
    ensures p > 0
  {
    if k == 0 then 1 else 2 * PowerOfTwo(k - 1)
  }

  lemma Doubled(a: int, b: int)
    ensures 2 * a * b == 2 * (a * b) && a * (2 * b) == 2 * (a * b)
  {}

  lemma {:induction false} PowersMultiply(k: nat, l: nat)
    ensures PowerOfTwo(k + l) == PowerOfTwo(k) * PowerOfTwo(l)
    decreases k
  {
    if k > 0 {
      PowersMultiply(k - 1, l);
      Doubled(PowerOfTwo(k - 1), PowerOfTwo(l));
    }
  }

  lemma Widths()
    ensures PowerOfTwo(32) == TWO_TO_THE_32 && PowerOfTwo(64) == TWO_TO_THE_64
  {
    assert PowerOfTwo(4) == 16 && PowerOfTwo(8) == 256;
    PowersMultiply(8, 8);
    PowersMultiply(16, 16);
    PowersMultiply(32, 32);
  }

  /** The bitwise or, bit by bit from the lowest one. */
  function BitOr(a: nat, b: nat): nat {
    if a == 0 && b == 0 then 0
    else 2 * BitOr(a / 2, b / 2) + if a % 2 == 1 || b % 2 == 1 then 1 else 0
  }

  function Bit(n: nat, k: nat): nat {
    if k == 0 then n % 2 else Bit(n / 2, k - 1)
  }

  /** A bit of the result is set exactly if it is set in one of the words. */
  lemma {:induction false} OrOfBits(a: nat, b: nat, k: nat)
    ensures Bit(BitOr(a, b), k) == 1 <==> Bit(a, k) == 1 || Bit(b, k) == 1
    decreases k
  {
    if a == 0 && b == 0 {
      NoBits(k);
    } else if k > 0 {
      OrOfBits(a / 2, b / 2, k - 1);
    }
  }

  lemma {:induction false} NoBits(k: nat)
    ensures Bit(0, k) == 0
    decreases k
  {
    if k > 0 {
      NoBits(k - 1);
    }
  }

  lemma {:induction false} OrFits(a: nat, b: nat, k: nat)
    requires a < PowerOfTwo(k) && b < PowerOfTwo(k)
    ensures BitOr(a, b) < PowerOfTwo(k)
    decreases k
  {
    if k > 0 {
      OrFits(a / 2, b / 2, k - 1);
    }
  }

  lemma {:induction false} OrWithZero(a: nat)
    ensures BitOr(a, 0) == a
  {
    if a > 0 {
      OrWithZero(a / 2);
    }
  }

  lemma OrDoubles(a: nat, b: nat)
    ensures BitOr(2 * a, b) == 2 * BitOr(a, b / 2) + b % 2
  {}

  /** Words that share no bit are added by putting them together: `low` has at most `k` bits, and `high` none
      of these. */
  lemma {:induction false} OrIsPlus(high: nat, low: nat, k: nat)
    requires low < PowerOfTwo(k)
    ensures BitOr(high * PowerOfTwo(k), low) == high * PowerOfTwo(k) + low
    decreases k
  {
    if k == 0 {
      OrWithZero(high);
    } else {
      var shifted := high * PowerOfTwo(k - 1);
      OrIsPlus(high, low / 2, k - 1);
      Doubled(high, PowerOfTwo(k - 1));
      OrDoubles(shifted, low);
    }
  }

  /** The operator `|` on 64 bits. */
  function Or(a: uint64, b: uint64): uint64 {
    Widths();
    OrFits(a as nat, b as nat, 64);
    BitOr(a as nat, b as nat) as uint64
  }
}
