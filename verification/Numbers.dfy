/** What the number parsers promise their callers: exactness, round trips through every
notation, and underscores that change nothing. */
module Numbers {
  import opened Text
  import opened Widths
  import opened ParseUint
  import opened ParseInt
  import opened Underscore

  // ----- exactness ------------------------------------------------------------------------

  /** Digits of the base only, and underscores only where the rule allows them. */
  ghost predicate WellFormed(s: string, base: int) {
    && s != "" && LegalBase(base)
    && AllAllowed(BodyOf(s, base), BaseOf(s, base), base == 0)
    && (base == 0 && '_' in BodyOf(s, base) ==> Placed(Unsigned(s)))
  }

  ghost function NumberOf(s: string, base: int): nat
    requires WellFormed(s, base)
  {
    Value(BodyOf(s, base), BaseOf(s, base), base == 0)
  }

  lemma ParseUintIsExact(s: string, base: int, bits: int)
    requires 0 <= bits <= 64 && WellFormed(s, base)
    ensures var max := Pow2(Width(bits)) - 1;
      ParseUintSpec(s, base, bits) == if NumberOf(s, base) <= max then Ok(NumberOf(s, base)) else OutOfRange(max)
  {
    OverflowsIffTooLarge(BodyOf(s, base), BaseOf(s, base), base == 0, Pow2(Width(bits)) - 1);
  }

  ghost function SignedNumberOf(s: string, base: int): int
    requires WellFormed(Unsigned(s), base)
  {
    if Negative(s) then 0 - NumberOf(Unsigned(s), base) else NumberOf(Unsigned(s), base)
  }

  /** parse_int64 saturates at the bound on the number's side, except below -1 in one bit. */
  lemma ParseIntIsExact(s: string, base: int, bits: int)
    requires 0 <= bits <= 64 && WellFormed(Unsigned(s), base)
    ensures var v := SignedNumberOf(s, base);
      ParseIntResult(s, base, bits) ==
        if bits == 1 && v < -1 then Ok(-1)
        else if v < Lowest(bits) then OutOfRange(Lowest(bits))
        else if v > Highest(bits) then OutOfRange(Highest(bits))
        else Ok(v)
  {
    ParseUintIsExact(Unsigned(s), base, bits);
    assert Pow2(Width(bits)) == 2 * Pow2(Width(bits) - 1);
    assert MagnitudeSpec(s, base, bits) == ParseUintSpec(Unsigned(s), base, bits);
  }

  /** In particular, the result is the specified one, but for numbers below -1 in one bit. */
  lemma OneBitIff(s: string, base: int, bits: int)
    requires 0 <= bits <= 64 && WellFormed(Unsigned(s), base)
    ensures ParseIntResult(s, base, bits) == ParseIntSpec(s, base, bits) <==>
            !(bits == 1 && SignedNumberOf(s, base) < -1)
  {
    ParseUintIsExact(Unsigned(s), base, bits);
    ResultIsExactUnlessOneBitUnderflow(s, base, bits);
  }

  /** A bad character, with everything before it still a number in range. */
  ghost predicate BadCharacterFirst(s: string, base: int, bits: int)
    requires LegalBase(base) && 0 <= bits <= 64
  {
    var b, body := BaseOf(s, base), BodyOf(s, base);
    exists i :: && 0 <= i < |body| && !Allowed(body[i], b, base == 0)
                && AllAllowed(body[..i], b, base == 0) && Value(body[..i], b, base == 0) <= Pow2(Width(bits)) - 1
  }

  ghost predicate MisplacedUnderscoreInRange(s: string, base: int, bits: int)
    requires LegalBase(base) && 0 <= bits <= 64
  {
    var b, body := BaseOf(s, base), BodyOf(s, base);
    && base == 0 && AllAllowed(body, b, true) && Value(body, b, true) <= Pow2(Width(bits)) - 1
    && '_' in body && !Placed(Unsigned(s))
  }

  /** The exact causes of a syntax error. */
  lemma MalformedIff(s: string, base: int, bits: int)
    requires s != "" && LegalBase(base) && 0 <= bits <= 64
    ensures ParseUintSpec(s, base, bits) == Malformed <==>
      BadCharacterFirst(s, base, bits) || MisplacedUnderscoreInRange(s, base, bits)
  {
    var b, body, max := BaseOf(s, base), BodyOf(s, base), Pow2(Width(bits)) - 1;
    if AllAllowed(body, b, base == 0) {
      OverflowsIffTooLarge(body, b, base == 0, max);
    } else {
      FirstBadCharacter(body, b, base == 0, max);
    }
  }

  lemma FirstBadCharacter(t: string, base: int, skip: bool, max: nat)
    requires 2 <= base && !AllAllowed(t, base, skip)
    ensures Overflows(t, base, skip, max) <==>
      !exists i :: && 0 <= i < |t| && !Allowed(t[i], base, skip)
                   && AllAllowed(t[..i], base, skip) && Value(t[..i], base, skip) <= max
  {
    var i := LeastBad(t, base, skip);
    if Value(t[..i], base, skip) <= max {
      BadCharacterStops(t, i, base, skip, max);
    } else {
      forall j | 0 <= j < |t| && !Allowed(t[j], base, skip) && AllAllowed(t[..j], base, skip)
        ensures j == i
      {
        if j > i {
          AllowedInside(t, i, j, base, skip);
          assert false;
        }
      }
    }
  }

  lemma {:induction false} LeastBad(t: string, base: int, skip: bool) returns (i: nat)
    requires !AllAllowed(t, base, skip)
    ensures i < |t| && !Allowed(t[i], base, skip) && AllAllowed(t[..i], base, skip)
  {
    i := 0;
    while Allowed(t[i], base, skip)
      invariant i < |t| && AllAllowed(t[..i], base, skip)
      decreases |t| - i
    {
      i := i + 1;
    }
  }

  // ----- printing and parsing back -----------------------------------------------------------

  function DigitChar(d: nat): (c: char)
    requires d < 36
    ensures DigitOf(c) == d && c != '_'
  {
    if d < 10 then ('0' as int + d) as char else ('a' as int + (d - 10)) as char
  }

  function Digits(n: nat, base: nat): string
    requires 2 <= base <= 36
  {
    if n < base then [DigitChar(n)]
    else DivShrinks(n, base); Digits(n / base, base) + [DigitChar(n % base)]
  }

  lemma TwiceAtMost(q: nat, base: nat)
    requires 2 <= base
    ensures q * 2 <= q * base
  {}

  lemma DivShrinks(n: nat, base: nat)
    requires 2 <= base <= n
    ensures n / base < n
  {
    TwiceAtMost(n / base, base);
  }

  lemma {:induction false} DigitsDenote(n: nat, base: nat, skip: bool)
    requires 2 <= base <= 36
    ensures AllAllowed(Digits(n, base), base, skip) && Value(Digits(n, base), base, skip) == n
    ensures Digits(n, base) != "" && '_' !in Digits(n, base)
    ensures n > 0 ==> Digits(n, base)[0] != '0'
  {
    var t := Digits(n, base);
    if n < base {
      assert t[..0] == "";
    } else {
      DivShrinks(n, base);
      DigitsDenote(n / base, base, skip);
      DivPositive(n, base);
      assert t[..|t| - 1] == Digits(n / base, base);
    }
  }

  lemma DivPositive(n: nat, base: nat)
    requires 2 <= base <= n
    ensures n / base > 0 && n / base * base + n % base == n
  {}

  /** The ways to write a number for a parser: an explicit base, or base 0 with a prefix. */
  datatype Notation = Plain(base: nat) | Decimal | LeadingZero | Prefixed(letter: char)

  function PrefixBase(letter: char): nat {
    if letter == 'x' || letter == 'X' then 16 else if letter == 'o' || letter == 'O' then 8 else 2
  }

  predicate Legal(n: Notation) {
    match n
    case Plain(base) => 2 <= base <= 36
    case Prefixed(letter) =>
      letter == 'x' || letter == 'X' || letter == 'o' || letter == 'O' || letter == 'b' || letter == 'B'
    case _ => true
  }

  function BaseArgument(n: Notation): int {
    if n.Plain? then n.base else 0
  }

  function Write(v: nat, n: Notation): string
    requires Legal(n)
  {
    match n
    case Plain(base) => Digits(v, base)
    case Decimal => Digits(v, 10)
    case LeadingZero => "0" + Digits(v, 8)
    case Prefixed(letter) => ['0', letter] + Digits(v, PrefixBase(letter))
  }

  lemma WriteDenotes(v: nat, n: Notation)
    requires Legal(n)
    ensures WellFormed(Write(v, n), BaseArgument(n)) && NumberOf(Write(v, n), BaseArgument(n)) == v
  {
    match n {
      case Plain(base) => PlainDenotes(v, base);
      case Decimal => DecimalDenotes(v);
      case LeadingZero => LeadingZeroDenotes(v);
      case Prefixed(letter) => PrefixedDenotes(v, letter);
    }
  }

  lemma PlainDenotes(v: nat, base: nat)
    requires 2 <= base <= 36
    ensures WellFormed(Write(v, Plain(base)), base) && NumberOf(Write(v, Plain(base)), base) == v
  {
    DigitsDenote(v, base, false);
  }

  lemma PrefixedDenotes(v: nat, letter: char)
    requires Legal(Prefixed(letter))
    ensures WellFormed(Write(v, Prefixed(letter)), 0) && NumberOf(Write(v, Prefixed(letter)), 0) == v
  {
    var s, digits := Write(v, Prefixed(letter)), Digits(v, PrefixBase(letter));
    DigitsDenote(v, PrefixBase(letter), true);
    assert s[0] == '0' && s[1] == letter && s[2..] == digits && |s| >= 3;
    assert BaseOf(s, 0) == PrefixBase(letter) && BodyOf(s, 0) == digits;
  }

  lemma DecimalDenotes(v: nat)
    ensures WellFormed(Write(v, Decimal), 0) && NumberOf(Write(v, Decimal), 0) == v
  {
    DigitsDenote(v, 10, true);
    if v == 0 {
      assert Digits(0, 10) == "0" && BodyOf("0", 0) == "";
    }
  }

  lemma LeadingZeroDenotes(v: nat)
    ensures WellFormed(Write(v, LeadingZero), 0) && NumberOf(Write(v, LeadingZero), 0) == v
  {
    DigitsDenote(v, 8, true);
    var s := Write(v, LeadingZero);
    assert s[1..] == Digits(v, 8);
    assert Allowed(s[1], 8, true) by {
      assert Allowed(Digits(v, 8)[0], 8, true);
    }
  }

  lemma UintRoundTrip(v: nat, n: Notation, bits: int)
    requires Legal(n) && 0 <= bits <= 64 && v <= Pow2(Width(bits)) - 1
    ensures ParseUintSpec(Write(v, n), BaseArgument(n), bits) == Ok(v)
  {
    WriteDenotes(v, n);
    ParseUintIsExact(Write(v, n), BaseArgument(n), bits);
  }

  function Sign(v: int, plus: bool): string {
    if v < 0 then "-" else if plus then "+" else ""
  }

  function Magnitude(v: int): nat {
    if v < 0 then -v else v
  }

  function WriteSigned(v: int, plus: bool, n: Notation): string
    requires Legal(n)
  {
    Sign(v, plus) + Write(Magnitude(v), n)
  }

  lemma SignIsReadBack(v: int, plus: bool, n: Notation)
    requires Legal(n)
    ensures var s := WriteSigned(v, plus, n);
      s != "" && Negative(s) == (v < 0) && Unsigned(s) == Write(Magnitude(v), n)
  {
    var t := Write(Magnitude(v), n);
    StartsWithDigit(Magnitude(v), n);
    if v < 0 || plus {
      assert WriteSigned(v, plus, n)[1..] == t;
    } else {
      assert WriteSigned(v, plus, n) == t;
    }
  }

  lemma MagnitudeFits(v: int, bits: int)
    requires 0 <= bits <= 64 && Lowest(bits) <= v <= Highest(bits)
    ensures Magnitude(v) <= Pow2(Width(bits)) - 1
  {
    assert Pow2(Width(bits)) == 2 * Pow2(Width(bits) - 1);
  }

  lemma IntRoundTrip(v: int, plus: bool, n: Notation, bits: int)
    requires Legal(n) && 0 <= bits <= 64 && Lowest(bits) <= v <= Highest(bits)
    ensures ParseIntResult(WriteSigned(v, plus, n), BaseArgument(n), bits) == Ok(v)
  {
    assert MagnitudeSpec(WriteSigned(v, plus, n), BaseArgument(n), bits) == Ok(Magnitude(v)) by {
      SignIsReadBack(v, plus, n);
      MagnitudeFits(v, bits);
      UintRoundTrip(Magnitude(v), n, bits);
    }
    assert Negative(WriteSigned(v, plus, n)) == (v < 0) by {
      SignIsReadBack(v, plus, n);
    }
    SignedAgain(v, bits);
  }

  lemma SignedAgain(v: int, bits: int)
    requires 0 <= bits <= 64 && Lowest(bits) <= v <= Highest(bits)
    ensures Signed(Ok(Magnitude(v)), v < 0, bits) == Ok(v)
  {}

  lemma StartsWithDigit(v: nat, n: Notation)
    requires Legal(n)
    ensures Write(v, n) != "" && DigitOf(Write(v, n)[0]) >= 0
  {
    if n.Plain? {
      DigitsDenote(v, n.base, false);
      assert Allowed(Digits(v, n.base)[0], n.base, false);
    } else if n.Decimal? {
      DigitsDenote(v, 10, false);
      assert Allowed(Digits(v, 10)[0], 10, false);
    }
  }
}
