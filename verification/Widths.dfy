/** Integer widths: powers of two, the table of largest values, and 64-bit wrap-around. */
module Widths {

  function Pow2(n: nat): (p: nat)
    ensures p >= 1
  {
    if n == 0 then 1 else 2 * Pow2(n - 1)
  }

  const TWO_64: nat := 0x1_0000_0000_0000_0000
  const MAX_UINT64: nat := 0xFFFF_FFFF_FFFF_FFFF

  /** What a uint64_t holds after a computation whose exact result is `x`. */
  function Wrap64(x: int): (w: nat)
    ensures w < TWO_64 && (0 <= x < TWO_64 ==> w == x)
  {
    x % TWO_64
  }

  /** The int64_t with the same 64 bits as the uint64_t `x`. */
  function AsInt64(x: nat): int {
    if x >= 0x8000_0000_0000_0000 then x - TWO_64 else x
  }

  /** Two's complement negation of an int64_t. */
  function NegateInt64(x: int): int {
    AsInt64(Wrap64(-x))
  }

  /** The switch over the bit size, constant by constant; 64 is the last case. */
  function MaxValue(bits: nat): nat
    requires 1 <= bits <= 64
  {
    match bits
    case 1 => 1
    case 2 => 3
    case 3 => 7
    case 4 => 15
    case 5 => 31
    case 6 => 63
    case 7 => 127
    case 8 => 255
    case 9 => 511
    case 10 => 1023
    case 11 => 2047
    case 12 => 4095
    case 13 => 8191
    case 14 => 16383
    case 15 => 32767
    case 16 => 65535
    case 17 => 131071
    case 18 => 262143
    case 19 => 524287
    case 20 => 1048575
    case 21 => 2097151
    case 22 => 4194303
    case 23 => 8388607
    case 24 => 16777215
    case 25 => 33554431
    case 26 => 67108863
    case 27 => 134217727
    case 28 => 268435455
    case 29 => 536870911
    case 30 => 1073741823
    case 31 => 2147483647
    case 32 => 4294967295
    case 33 => 8589934591
    case 34 => 17179869183
    case 35 => 34359738367
    case 36 => 68719476735
    case 37 => 137438953471
    case 38 => 274877906943
    case 39 => 549755813887
    case 40 => 1099511627775
    case 41 => 2199023255551
    case 42 => 4398046511103
    case 43 => 8796093022207
    case 44 => 17592186044415
    case 45 => 35184372088831
    case 46 => 70368744177663
    case 47 => 140737488355327
    case 48 => 281474976710655
    case 49 => 562949953421311
    case 50 => 1125899906842623
    case 51 => 2251799813685247
    case 52 => 4503599627370495
    case 53 => 9007199254740991
    case 54 => 18014398509481983
    case 55 => 36028797018963967
    case 56 => 72057594037927935
    case 57 => 144115188075855871
    case 58 => 288230376151711743
    case 59 => 576460752303423487
    case 60 => 1152921504606846975
    case 61 => 2305843009213693951
    case 62 => 4611686018427387903
    case 63 => 9223372036854775807
    case _ => 18446744073709551615
  }

  lemma MaxValueDoubles(bits: nat)
    requires 1 <= bits < 64
    ensures MaxValue(bits + 1) == 2 * MaxValue(bits) + 1
  {}

  lemma MaxValueOfOne()
    ensures MaxValue(1) == 1 && Pow2(1) == 2
  {
    assert Pow2(0) == 1;
  }

  /** Every constant of the switch is two to the bit size, less one. */
  lemma {:induction false} MaxValueIsExact(bits: nat)
    requires 1 <= bits <= 64
    ensures MaxValue(bits) == Pow2(bits) - 1
  {
    hide MaxValue;
    if bits > 1 {
      MaxValueDoubles(bits - 1);
      MaxValueIsExact(bits - 1);
    } else {
      MaxValueOfOne();
    }
  }

  lemma {:induction false} Pow2Monotone(a: nat, b: nat)
    requires a <= b
    ensures Pow2(a) <= Pow2(b)
  {
    if a < b {
      Pow2Monotone(a, b - 1);
    }
  }

  lemma Pow2Of64()
    ensures Pow2(63) == 0x8000_0000_0000_0000 && Pow2(64) == TWO_64
  {
    MaxValueIsExact(63);
    MaxValueIsExact(64);
  }
}
