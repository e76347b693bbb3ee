/** ppp_c_flags_parse_uint64: the digit loop over wrapping 64-bit words, against the
unbounded value of the text. */
module ParseUint {
  import opened Text
  import opened Widths
  import Underscore

  /** Return code and output together: 0 with the value, 1 with the nearest bound, -1. */
  datatype Parsed = Ok(value: int) | OutOfRange(nearest: int) | Malformed

  // ----- what the text means, without any bound ---------------------------------------

  /** Base 0 takes the base from the prefix; the body is what follows the prefix. */
  function BaseOf(s: string, base: int): int {
    if base != 0 then base
    else if s == "" || s[0] != '0' then 10
    else if |s| >= 3 && Lower(s[1]) == 'b' as int then 2
    else if |s| >= 3 && Lower(s[1]) == 'x' as int then 16
    else 8
  }

  function BodyOf(s: string, base: int): string {
    if base != 0 || s == "" || s[0] != '0' then s
    else if |s| >= 3 && Underscore.HasPrefix(s) then s[2..]
    else s[1..]
  }

  predicate LegalBase(base: int) {
    base == 0 || 2 <= base <= 36
  }

  function Width(bits: int): int {
    if bits == 0 then 64 else bits
  }

  predicate Skipped(c: char, skip: bool) {
    skip && c == '_'
  }

  /** `c` may appear in a number of this base; `skip` says that underscores may too. */
  predicate Allowed(c: char, base: int, skip: bool) {
    Skipped(c, skip) || 0 <= DigitOf(c) < base
  }

  predicate AllAllowed(t: string, base: int, skip: bool) {
    forall k :: 0 <= k < |t| ==> Allowed(t[k], base, skip)
  }

  /** The unbounded value of a digit string, most significant digit first. */
  function Value(t: string, base: int, skip: bool): (v: nat)
    requires 2 <= base && AllAllowed(t, base, skip)
  {
    if t == "" then 0
    else
      var init, last := t[..|t| - 1], t[|t| - 1];
      assert Allowed(last, base, skip);
      if Skipped(last, skip) then Value(init, base, skip)
      else Value(init, base, skip) * base + DigitOf(last)
  }

  /** Some leading part is a number that is already too large. */
  ghost predicate Overflows(t: string, base: int, skip: bool, max: nat)
    requires 2 <= base
  {
    exists k :: 0 <= k <= |t| && AllAllowed(t[..k], base, skip) && Value(t[..k], base, skip) > max
  }

  /** The digits `t` of the text `s`. Overflow is reported where it happens: before a later bad
  character, and before the underscores are looked at. */
  ghost function DigitLoopSpec(s: string, t: string, base: nat, base0: bool, max: nat): Parsed
    requires 2 <= base
  {
    if Overflows(t, base, base0, max) then OutOfRange(max)
    else if !AllAllowed(t, base, base0) then Malformed
    else if base0 && '_' in t && !Underscore.Placed(Underscore.Unsigned(s)) then Malformed
    else Ok(Value(t, base, base0))
  }

  ghost function ParseUintSpec(s: string, base: int, bits: int): Parsed {
    if s == "" || !LegalBase(base) || !(0 <= bits <= 64) then Malformed
    else DigitLoopSpec(s, BodyOf(s, base), BaseOf(s, base), base == 0, Pow2(Width(bits)) - 1)
  }

  // ----- facts about values ------------------------------------------------------------

  lemma Grows(v: nat, base: nat)
    requires base >= 1
    ensures v <= v * base
  {}

  lemma {:induction false} ValueGrows(t: string, k: nat, base: int, skip: bool)
    requires 2 <= base && k <= |t| && AllAllowed(t, base, skip)
    ensures AllAllowed(t[..k], base, skip) && Value(t[..k], base, skip) <= Value(t, base, skip)
    decreases |t|
  {
    if k == |t| {
      assert t[..k] == t;
    } else {
      var init, last := t[..|t| - 1], t[|t| - 1];
      assert init[..k] == t[..k];
      ValueGrows(init, k, base, skip);
      Grows(Value(init, base, skip), base);
      assert Allowed(last, base, skip);
    }
  }

  lemma ValueStep(t: string, i: nat, base: int, skip: bool)
    requires 2 <= base && i < |t| && AllAllowed(t[..i], base, skip) && Allowed(t[i], base, skip)
    ensures AllAllowed(t[..i + 1], base, skip)
    ensures Value(t[..i + 1], base, skip) == if Skipped(t[i], skip) then Value(t[..i], base, skip)
                                             else Value(t[..i], base, skip) * base + DigitOf(t[i])
  {
    assert t[..i + 1][..i] == t[..i];
  }

  /** For a text without bad characters, overflow is simply a value above the maximum. */
  lemma OverflowsIffTooLarge(t: string, base: int, skip: bool, max: nat)
    requires 2 <= base && AllAllowed(t, base, skip)
    ensures Overflows(t, base, skip, max) <==> Value(t, base, skip) > max
  {
    if Overflows(t, base, skip, max) {
      var k :| 0 <= k <= |t| && AllAllowed(t[..k], base, skip) && Value(t[..k], base, skip) > max;
      ValueGrows(t, k, base, skip);
    } else {
      assert t[..|t|] == t;
    }
  }

  // ----- the loop ------------------------------------------------------------------------

  lemma AllowedInside(t: string, i: nat, k: nat, base: int, skip: bool)
    requires i < k <= |t| && AllAllowed(t[..k], base, skip)
    ensures Allowed(t[i], base, skip)
  {
    assert t[..k][i] == t[i];
  }

  /** No leading part of `t` that reaches beyond `i` is a number: `t[i]` is bad. */
  lemma BadCharacterStops(t: string, i: nat, base: int, skip: bool, max: nat)
    requires 2 <= base && i < |t| && !Allowed(t[i], base, skip)
    requires AllAllowed(t[..i], base, skip) && Value(t[..i], base, skip) <= max
    ensures !AllAllowed(t, base, skip) && !Overflows(t, base, skip, max)
  {
    forall k | 0 <= k <= |t| && AllAllowed(t[..k], base, skip)
      ensures Value(t[..k], base, skip) <= max
    {
      assert k <= i by {
        if k > i {
          AllowedInside(t, i, k, base, skip);
          assert false;
        }
      }
      assert t[..i][..k] == t[..k];
      ValueGrows(t[..i], k, base, skip);
    }
  }

  lemma Divides(m: nat, base: nat, n: nat)
    requires base >= 2
    ensures n > m / base ==> n * base > m
    ensures n <= m / base ==> n * base <= m
  {
    var q := m / base;
    assert q * base <= m < q * base + base;
    if n > q {
      assert n * base >= (q + 1) * base;
    } else {
      assert n * base <= q * base;
    }
  }

  /** The smallest number whose product with `base` does not fit 64 bits. */
  function Cutoff(base: nat): nat
    requires 2 <= base
  {
    MAX_UINT64 / base + 1
  }

  lemma CutoffIsExact(n: nat, base: nat)
    requires 2 <= base
    ensures n >= Cutoff(base) <==> n * base > MAX_UINT64
  {
    Divides(MAX_UINT64, base, n);
  }

  lemma WrappedSum(x: nat, d: nat, max: nat)
    requires x < TWO_64 && d < 36 && max <= MAX_UINT64
    ensures var sum := Wrap64(x + d);
      && (sum < x || sum > max <==> x + d > max)
      && (x + d <= max ==> sum == x + d)
  {}

  /** One more digit, in 64-bit words: the cutoff test and the wrap test together decide
  overflow exactly, neither missing nor inventing one. */
  method AddDigit(n: nat, d: nat, base: nat, cutoff: nat, maxVal: nat) returns (overflow: bool, n1: nat)
    requires 2 <= base <= 36 && d < base && n <= maxVal <= MAX_UINT64 && cutoff == Cutoff(base)
    ensures overflow <==> n * base + d > maxVal
    ensures !overflow ==> n1 == n * base + d
  {
    CutoffIsExact(n, base);
    if n >= cutoff {
      return true, 0;
    }
    var shifted := Wrap64(n * base);
    WrappedSum(shifted, d, maxVal);
    n1 := Wrap64(shifted + d);
    overflow := n1 < shifted || n1 > maxVal;
  }

  lemma OverflowsHere(t: string, i: nat, base: nat, skip: bool, max: nat)
    requires 2 <= base && i < |t| && AllAllowed(t[..i], base, skip) && Allowed(t[i], base, skip) && !Skipped(t[i], skip)
    requires Value(t[..i], base, skip) * base + DigitOf(t[i]) > max
    ensures Overflows(t, base, skip, max)
  {
    ValueStep(t, i, base, skip);
  }

  method DigitLoop(s: string, t: string, base: nat, base0: bool, cutoff: nat, maxVal: nat) returns (r: Parsed)
    requires 2 <= base <= 36 && cutoff == Cutoff(base) && maxVal <= MAX_UINT64
    ensures r == DigitLoopSpec(s, t, base, base0, maxVal)
  {
    var underscores := false;
    var n: nat := 0;
    var i := 0;
    while i < |t|
      invariant 0 <= i <= |t| && AllAllowed(t[..i], base, base0)
      invariant n == Value(t[..i], base, base0) && n <= maxVal
      invariant underscores ==> base0 && '_' in t
      invariant base0 && !underscores ==> forall k :: 0 <= k < i ==> t[k] != '_'
    {
      var c := t[i];
      if c == '_' && base0 {
        underscores := true;
        ValueStep(t, i, base, base0);
      } else {
        var d := DigitOf(c);
        if d < 0 || d >= base {
          BadCharacterStops(t, i, base, base0, maxVal);
          return Malformed;
        }
        var overflow, n1 := AddDigit(n, d, base, cutoff, maxVal);
        if overflow {
          OverflowsHere(t, i, base, base0, maxVal);
          return OutOfRange(maxVal);
        }
        ValueStep(t, i, base, base0);
        n := n1;
      }
      i := i + 1;
    }
    assert t[..i] == t;
    OverflowsIffTooLarge(t, base, base0, maxVal);
    if underscores {
      var ok := Underscore.UnderscoreOk(s);
      if !ok {
        return Malformed;
      }
    }
    return Ok(n);
  }

  method ParseUint64(s: string, base: int, bitSize: int) returns (r: Parsed)
    ensures r == ParseUintSpec(s, base, bitSize)
  {
    if s == "" {
      return Malformed;
    }
    var base0 := base == 0;
    var b, t := base, s;
    if 2 <= base <= 36 {
    } else if base == 0 {
      b := 10;
      if s[0] == '0' {
        if |s| >= 3 {
          var c := Lower(s[1]);
          if c == 'b' as int {
            b, t := 2, s[2..];
          } else if c == 'o' as int {
            b, t := 8, s[2..];
          } else if c == 'x' as int {
            b, t := 16, s[2..];
          } else {
            b, t := 8, s[1..];
          }
        } else {
          b, t := 8, s[1..];
        }
      }
    } else {
      return Malformed;
    }
    assert b == BaseOf(s, base) && t == BodyOf(s, base);
    var bits := bitSize;
    if bits == 0 {
      bits := 64;
    } else if bits < 0 || bits > 64 {
      return Malformed;
    }
    MaxValueIsExact(bits);
    Pow2Monotone(bits, 64);
    Pow2Of64();
    r := DigitLoop(s, t, b, base0, Cutoff(b), MaxValue(bits));
  }
}
