/** ppp_c_flags_parse_int64: sign, unsigned parse, and the range test on the result. */
module ParseInt {
  import opened Widths
  import opened ParseUint
  import Underscore

  predicate Negative(s: string) {
    s != "" && s[0] == '-'
  }

  function Lowest(bits: int): int
    requires 0 <= bits <= 64
  {
    0 - Pow2(Width(bits) - 1)
  }

  function Highest(bits: int): int
    requires 0 <= bits <= 64
  {
    Pow2(Width(bits) - 1) - 1
  }

  /** The signed number with magnitude `u`, or the bound on its side of the range. */
  function Signed(u: Parsed, neg: bool, bits: int): Parsed
    requires !u.Malformed? ==> 0 <= bits <= 64
  {
    match u
    case Malformed => Malformed
    case OutOfRange(_) => OutOfRange(if neg then Lowest(bits) else Highest(bits))
    case Ok(m) =>
      var v := if neg then 0 - m else m;
      if v < Lowest(bits) then OutOfRange(Lowest(bits))
      else if v > Highest(bits) then OutOfRange(Highest(bits))
      else Ok(v)
  }

  /** The magnitude the text denotes, as the unsigned parser sees it. */
  ghost function MagnitudeSpec(s: string, base: int, bits: int): (r: Parsed)
    ensures r.Ok? ==> 0 <= bits <= 64 && 0 <= r.value <= Pow2(Width(bits)) - 1
    ensures r.OutOfRange? ==> 0 <= bits <= 64 && r.nearest == Pow2(Width(bits)) - 1
  {
    ValueInRange(Underscore.Unsigned(s), base, bits);
    ParseUintSpec(Underscore.Unsigned(s), base, bits)
  }

  ghost function ParseIntSpec(s: string, base: int, bits: int): Parsed {
    Signed(MagnitudeSpec(s, base, bits), Negative(s), bits)
  }

  /** The one case the range test misses: with a single bit, the saturated magnitude 1 is
  itself a legal magnitude for a negative number. */
  ghost predicate OneBitUnderflow(s: string, base: int, bits: int) {
    bits == 1 && Negative(s) && MagnitudeSpec(s, base, bits).OutOfRange?
  }

  /** What parse_int64 returns. */
  ghost function ParseIntResult(s: string, base: int, bits: int): Parsed {
    if OneBitUnderflow(s, base, bits) then Ok(-1) else ParseIntSpec(s, base, bits)
  }

  lemma ResultIsExactUnlessOneBitUnderflow(s: string, base: int, bits: int)
    ensures ParseIntResult(s, base, bits) == ParseIntSpec(s, base, bits) <==> !OneBitUnderflow(s, base, bits)
  {}

  lemma OneBitCounterexample()
    ensures ParseIntSpec("-2", 10, 1) == OutOfRange(-1)
    ensures ParseIntResult("-2", 10, 1) == Ok(-1)
  {
    var t := "2";
    assert Underscore.Unsigned("-2") == t;
    assert t[..0] == "";
    assert Value(t, 10, false) == Value(t[..0], 10, false) * 10 + 2;
    assert AllAllowed(t[..1], 10, false) && t[..1] == t;
    assert Overflows(t, 10, false, 1);
  }

  /** Negating a magnitude up to 2^63 is exact, even where the cast to int64_t is not. */
  lemma NegationIsExact(x: nat)
    requires x <= 0x8000_0000_0000_0000
    ensures NegateInt64(AsInt64(x)) == 0 - x
    ensures x < 0x8000_0000_0000_0000 ==> AsInt64(x) == x
  {}

  /** A magnitude, cast to int64_t and negated. */
  method NegatedWord(x: nat) returns (v: int)
    requires x <= 0x8000_0000_0000_0000
    ensures v == 0 - x
  {
    NegationIsExact(x);
    v := NegateInt64(AsInt64(x));
  }

  method Word(x: nat) returns (v: int)
    requires x < 0x8000_0000_0000_0000
    ensures v == x
  {
    v := AsInt64(x);
  }

  lemma CutoffBound(shift: nat)
    requires shift <= 63
    ensures 1 <= Pow2(shift) <= 0x8000_0000_0000_0000 && Pow2(shift + 1) == 2 * Pow2(shift)
  {
    Pow2Monotone(shift, 63);
    Pow2Of64();
  }

  lemma ValueInRange(s: string, base: int, bits: int)
    ensures var r := ParseUintSpec(s, base, bits);
      && (r.Ok? ==> 0 <= r.value <= Pow2(Width(bits)) - 1)
      && (r.OutOfRange? ==> r.nearest == Pow2(Width(bits)) - 1)
      && (!r.Malformed? ==> 0 <= bits <= 64)
  {
    if s != "" && LegalBase(base) && 0 <= bits <= 64 {
      var b, body := BaseOf(s, base), BodyOf(s, base);
      if AllAllowed(body, b, base == 0) {
        OverflowsIffTooLarge(body, b, base == 0, Pow2(Width(bits)) - 1);
      }
    }
  }

  lemma RangeBounds(bits: nat, shift: nat)
    requires bits <= 64 && shift == if bits == 0 then 63 else bits - 1
    ensures var cutoff := Pow2(shift);
      && Lowest(bits) + cutoff == 0 && Highest(bits) == cutoff - 1 && Pow2(Width(bits)) == 2 * cutoff
      && 1 <= cutoff <= 0x8000_0000_0000_0000 && (cutoff == 1 <==> bits == 1)
  {
    CutoffBound(shift);
  }

  lemma RangeTestIsExact(u: Parsed, un: nat, neg: bool, bits: nat, cutoff: nat)
    requires bits <= 64 && (u == Ok(un) || (u == OutOfRange(un) && un == 2 * cutoff - 1)) && un <= 2 * cutoff - 1
    requires Lowest(bits) == 0 - cutoff && Highest(bits) == cutoff - 1 && (cutoff == 1 <==> bits == 1)
    ensures (if bits == 1 && neg && u.OutOfRange? then Ok(-1) else Signed(u, neg, bits)) ==
            if neg then (if un > cutoff then OutOfRange(0 - cutoff) else Ok(0 - un))
            else if un >= cutoff then OutOfRange(cutoff - 1)
            else Ok(un)
  {
    hide Lowest, Highest;
  }

  /** The range test, on the saturated magnitude `un`. */
  method CheckRange(ghost u: Parsed, un: nat, neg: bool, bitSize: nat) returns (r: Parsed)
    requires bitSize <= 64 && (u == Ok(un) || u == OutOfRange(un))
    requires un <= Pow2(Width(bitSize)) - 1 && (u.OutOfRange? ==> un == Pow2(Width(bitSize)) - 1)
    ensures r == if bitSize == 1 && neg && u.OutOfRange? then Ok(-1) else Signed(u, neg, bitSize)
  {
    var shift := if bitSize == 0 then 63 else bitSize - 1;
    var cutoff := Pow2(shift);
    RangeBounds(bitSize, shift);
    RangeTestIsExact(u, un, neg, bitSize, cutoff);
    if neg {
      var v := NegatedWord(if un > cutoff then cutoff else un);
      return if un > cutoff then OutOfRange(v) else Ok(v);
    }
    if un >= cutoff {
      return OutOfRange(cutoff - 1);
    }
    var v := Word(un);
    return Ok(v);
  }

  lemma MalformedMagnitude(s: string, base: int, bits: int)
    ensures s == "" ==> MagnitudeSpec(s, base, bits).Malformed?
    ensures MagnitudeSpec(s, base, bits).Malformed? ==> ParseIntResult(s, base, bits).Malformed?
  {}

  method ParseInt64(s: string, base: int, bitSize: int) returns (r: Parsed)
    ensures r == ParseIntResult(s, base, bitSize)
  {
    hide ParseUintSpec, Signed, Pow2;
    MalformedMagnitude(s, base, bitSize);
    if s == "" {
      return Malformed;
    }
    var neg, t := false, s;
    if s[0] == '-' {
      neg := true;
      t := s[1..];
    } else if s[0] == '+' {
      t := s[1..];
    }
    var u := ParseUint64(t, base, bitSize);
    assert neg == Negative(s) && u == MagnitudeSpec(s, base, bitSize);
    if u.Malformed? {
      return Malformed;
    }
    r := CheckRange(u, if u.Ok? then u.value else u.nearest, neg, bitSize);
  }

  /** A result that is no error lies in the range asked for, even where the range test errs. */
  lemma OkIsInRange(s: string, base: int, bits: int)
    ensures var r := ParseIntResult(s, base, bits);
      r.Ok? ==> 0 <= bits <= 64 && Lowest(bits) <= r.value <= Highest(bits)
  {
    if bits == 1 {
      assert Lowest(1) == -1 && Highest(1) == 0;
    }
  }
}
