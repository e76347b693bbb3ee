/** Which texts are numbers, said in terms of characters and positions alone. */
module Literals {
  import opened Division
  import opened Text
  import opened Widths
  import opened ParseUint
  import opened ParseInt
  import opened Underscore
  import opened Numbers
  import opened UnderscoreLaws

  // ----- characters -----------------------------------------------------------------------------------

  lemma DigitOfIs(c: char)
    ensures DigitOf(c) == if '0' <= c <= '9' then c as int - '0' as int
                          else if 'a' <= c <= 'z' then c as int - 'a' as int + 10
                          else if 'A' <= c <= 'Z' then c as int - 'A' as int + 10
                          else -1
  {}

  lemma IsDigitIff(c: char, hex: bool)
    ensures IsDigit(c, hex) <==> 0 <= DigitOf(c) < if hex then 16 else 10
  {}

  /** Bit size 0 is 64 bits, for both parsers. */
  lemma ZeroBitsAre64(s: string, base: int)
    ensures ParseUintSpec(s, base, 0) == ParseUintSpec(s, base, 64)
    ensures ParseIntResult(s, base, 0) == ParseIntResult(s, base, 64)
  {
    assert MagnitudeSpec(s, base, 0) == MagnitudeSpec(s, base, 64);
  }

  // ----- texts without underscores ----------------------------------------------------------------------

  function Zeros(z: nat): string {
    seq(z, _ => '0')
  }

  /** The digits of `v` without leading zeros; none for zero. */
  function Significant(v: nat, base: nat): string
    requires 2 <= base <= 36
  {
    if v == 0 then "" else Digits(v, base)
  }

  /** The same digits, in upper or lower case. */
  predicate SameDigits(a: string, b: string) {
    |a| == |b| && forall k :: 0 <= k < |a| ==> DigitOf(a[k]) == DigitOf(b[k])
  }

  lemma {:induction false} SameValue(a: string, b: string, base: nat)
    requires 2 <= base && SameDigits(a, b) && AllAllowed(b, base, false)
    ensures AllAllowed(a, base, false) && Value(a, base, false) == Value(b, base, false)
    decreases |a|
  {
    assert AllAllowed(a, base, false) by {
      forall k | 0 <= k < |a| ensures Allowed(a[k], base, false) {
        assert Allowed(b[k], base, false);
      }
    }
    if a != "" {
      SameValue(a[..|a| - 1], b[..|b| - 1], base);
    }
  }

  lemma OneMoreDigit(t: string, d: nat, base: nat)
    requires 2 <= base <= 36 && d < base && AllAllowed(t, base, false) && '_' !in t
    ensures var u := t + [DigitChar(d)];
      AllAllowed(u, base, false) && '_' !in u && Value(u, base, false) == Value(t, base, false) * base + d
  {
    var u := t + [DigitChar(d)];
    assert u[..|u| - 1] == t;
  }

  lemma {:induction false} LeadingZerosAreFree(z: nat, v: nat, base: nat)
    requires 2 <= base <= 36
    ensures var t := Zeros(z) + Significant(v, base);
      AllAllowed(t, base, false) && Value(t, base, false) == v && '_' !in t
    decreases z + v
  {
    hide AllAllowed, Value, Digits, Significant;
    var t := Zeros(z) + Significant(v, base);
    LastDigit(z, v, base);
    if v > 0 {
      LeadingZerosAreFree(z, v / base, base);
      OneMoreDigit(Zeros(z) + Significant(v / base, base), v % base, base);
    } else if z > 0 {
      LeadingZerosAreFree(z - 1, 0, base);
      OneMoreDigit(Zeros(z - 1) + Significant(0, base), 0, base);
    } else {
      NoDigits(t, base);
    }
  }

  lemma NoDigits(t: string, base: nat)
    requires t == "" && 2 <= base
    ensures AllAllowed(t, base, false) && Value(t, base, false) == 0
  {}

  lemma LastDigit(z: nat, v: nat, base: nat)
    requires 2 <= base <= 36
    ensures var t := Zeros(z) + Significant(v, base);
      if v > 0 then
        && t == Zeros(z) + Significant(v / base, base) + [DigitChar(v % base)]
        && v / base < v && v / base * base + v % base == v && v % base < base
      else if z > 0 then t == Zeros(z - 1) + Significant(0, base) + [DigitChar(0)]
      else t == ""
  {
    if v > 0 {
      LeadingDigits(v, base);
    }
  }

  lemma LeadingDigits(v: nat, base: nat)
    requires 2 <= base <= 36 && v > 0
    ensures Significant(v, base) == Significant(v / base, base) + [DigitChar(v % base)]
    ensures v / base < v && v / base * base + v % base == v && v % base < base
  {
    if v >= base {
      DivPositive(v, base);
      DivShrinks(v, base);
    } else {
      assert v / base == 0;
    }
  }

  /** Any text of digits is its value, written with leading zeros. */
  lemma {:induction false} DigitsAreWritten(t: string, base: nat) returns (z: nat)
    requires 2 <= base <= 36 && AllAllowed(t, base, false)
    ensures SameDigits(t, Zeros(z) + Significant(Value(t, base, false), base))
  {
    hide Digits, DigitChar;
    if t == "" {
      z := 0;
    } else {
      var init, d := t[..|t| - 1], DigitOf(t[|t| - 1]);
      assert Allowed(t[|t| - 1], base, false);
      z := DigitsAreWritten(init, base);
      var v0 := Value(init, base, false);
      var v := v0 * base + d;
      if v == 0 {
        ProductIsZero(v0, base);
        z := z + 1;
        assert SameDigits(init, Zeros(z - 1) + "");
      } else {
        DivModUnique(v, base, v0, d);
        LeadingDigits(v, base);
        assert Zeros(z) + Significant(v, base) == Zeros(z) + Significant(v0, base) + [DigitChar(d)];
      }
    }
  }

  lemma ProductIsZero(a: nat, b: nat)
    requires b > 0 && a * b == 0
    ensures a == 0
  {}

  /** What stands before the digits of a notation for base 0. */
  function Prefix(n: Notation): string {
    match n
    case LeadingZero => "0"
    case Prefixed(letter) => ['0', letter]
    case _ => ""
  }

  function DigitBase(n: Notation): nat {
    match n
    case Plain(base) => base
    case Decimal => 10
    case LeadingZero => 8
    case Prefixed(letter) => PrefixBase(letter)
  }

  /** The text `s` is `v` in this notation, with `z` leading zeros and letters in either case. A
  decimal number does not start with a zero, and a prefix does not stand alone. */
  ghost predicate Denotes(s: string, n: Notation, z: nat, v: nat)
    requires Legal(n)
  {
    && |Prefix(n)| <= |s| && s[..|Prefix(n)|] == Prefix(n)
    && SameDigits(s[|Prefix(n)|..], Zeros(z) + Significant(v, DigitBase(n)))
    && (n.Decimal? ==> z == 0 && v > 0)
    && (n.Prefixed? || n.Plain? ==> z > 0 || v > 0)
  }

  /** Every text that denotes a number in range is accepted, with that number. */
  lemma DenotedIsAccepted(s: string, n: Notation, z: nat, v: nat, bits: int)
    requires Legal(n) && Denotes(s, n, z, v) && 0 <= bits <= 64 && v <= Pow2(Width(bits)) - 1
    ensures ParseUintSpec(s, BaseArgument(n), bits) == Ok(v)
  {
    var t := s[|Prefix(n)|..];
    LeadingZerosAreFree(z, v, DigitBase(n));
    SameValue(t, Zeros(z) + Significant(v, DigitBase(n)), DigitBase(n));
    DenotedSplit(s, n, z, v);
    NoUnderscores(t, DigitBase(n));
    ParseUintIsExact(s, BaseArgument(n), bits);
  }

  lemma DenotedSplit(s: string, n: Notation, z: nat, v: nat)
    requires Legal(n) && Denotes(s, n, z, v) && AllAllowed(s[|Prefix(n)|..], DigitBase(n), false)
    ensures s != "" && BaseOf(s, BaseArgument(n)) == DigitBase(n) && BodyOf(s, BaseArgument(n)) == s[|Prefix(n)|..]
  {
    var t := Zeros(z) + Significant(v, DigitBase(n));
    if v > 0 {
      DigitsDenote(v, DigitBase(n), false);
    }
    match n {
      case Decimal => assert DigitOf(s[0]) == DigitOf(t[0]) && t[0] != '0'; FirstDigit(v);
      case LeadingZero =>
        assert s[0] == '0';
        if |s| > 1 {
          assert Allowed(s[1..][0], 8, false);
        }
      case Prefixed(letter) => assert s[0] == '0' && s[1] == letter && |t| > 0;
      case _ =>
    }
  }

  lemma FirstDigit(v: nat)
    requires v > 0
    ensures Digits(v, 10) != "" && DigitOf(Digits(v, 10)[0]) > 0
  {
    DigitsDenote(v, 10, false);
    assert Allowed(Digits(v, 10)[0], 10, false);
  }

  lemma {:induction false} NoUnderscores(t: string, base: nat)
    requires 2 <= base && AllAllowed(t, base, false)
    ensures '_' !in t && AllAllowed(t, base, true) && Value(t, base, true) == Value(t, base, false)
  {
    forall k | 0 <= k < |t| ensures t[k] != '_' && Allowed(t[k], base, true) {
      assert Allowed(t[k], base, false);
    }
    if t != "" {
      assert Allowed(t[|t| - 1], base, false);
      NoUnderscores(t[..|t| - 1], base);
    }
  }

  /** And nothing else is accepted with an explicit base. */
  lemma AcceptedIsDenoted(s: string, base: nat, bits: int, v: nat) returns (z: nat)
    requires base != 0 && ParseUintSpec(s, base, bits) == Ok(v)
    ensures Legal(Plain(base)) && Denotes(s, Plain(base), z, v)
  {
    z := DigitsAreWritten(s, base);
    assert s[0..] == s;
  }

  /** Nor with base 0, once the underscores are deleted. */
  lemma StrippedIsDenoted(s: string, bits: int, v: nat) returns (n: Notation, z: nat)
    requires ParseUintSpec(s, 0, bits) == Ok(v)
    ensures Legal(n) && !n.Plain? && Denotes(Strip(s), n, z, v)
  {
    var u := Strip(s);
    DeletingUnderscoresKeepsTheNumber(s, bits, v);
    StripFacts(BodyOf(s, 0), BaseOf(s, 0));
    StripKeepsSplit(s);
    var t, base := BodyOf(u, 0), BaseOf(u, 0);
    WithoutUnderscores(t, base);
    z := DigitsAreWritten(t, base);
    n := NotationOf(u, z, v);
  }

  lemma NotationOf(u: string, z: nat, v: nat) returns (n: Notation)
    requires u != "" && AllAllowed(BodyOf(u, 0), BaseOf(u, 0), false)
    requires SameDigits(BodyOf(u, 0), Zeros(z) + Significant(v, BaseOf(u, 0)))
    ensures Legal(n) && !n.Plain? && Denotes(u, n, z, v)
  {
    if u[0] != '0' {
      n := Decimal;
      assert u[0..] == u && Allowed(u[0], 10, false);
      DecimalHasNoZeros(u, z, v);
    } else if |u| >= 3 && HasPrefix(u) {
      n := Prefixed(u[1]);
      assert u[..2] == ['0', u[1]];
    } else {
      n := LeadingZero;
      assert u[..1] == "0";
    }
  }

  lemma DecimalHasNoZeros(u: string, z: nat, v: nat)
    requires u != "" && DigitOf(u[0]) > 0 && SameDigits(u, Zeros(z) + Significant(v, 10))
    ensures z == 0 && v > 0
  {
    var t := Zeros(z) + Significant(v, 10);
    assert DigitOf(u[0]) == DigitOf(t[0]);
  }

  lemma WithoutUnderscores(t: string, base: nat)
    requires 2 <= base && AllAllowed(t, base, true) && '_' !in t
    ensures AllAllowed(t, base, false) && Value(t, base, false) == Value(t, base, true)
  {
    forall k | 0 <= k < |t| ensures Allowed(t[k], base, false) {
      assert Allowed(t[k], base, true) && t[k] in t;
    }
    NoUnderscores(t, base);
  }

  // ----- underscores ----------------------------------------------------------------------------------------

  /** An underscore may be put before any digit of a written number but the first one, and before
  the first one after a prefix with a letter. */
  lemma UnderscoreInWritten(v: nat, n: Notation, k: nat, bits: int)
    requires Legal(n) && !n.Plain? && 0 <= bits <= 64 && v <= Pow2(Width(bits)) - 1
    requires (if n.Prefixed? then 2 else 1) <= k < |Write(v, n)|
    ensures ParseUintSpec(InsertAt(Write(v, n), k), 0, bits) == Ok(v)
  {
    UintRoundTrip(v, n, bits);
    WrittenHasGap(v, n, k);
    InsertingAnUnderscoreKeepsTheNumber(Write(v, n), k, bits, v);
  }

  lemma WrittenHasGap(v: nat, n: Notation, k: nat)
    requires Legal(n) && !n.Plain? && (if n.Prefixed? then 2 else 1) <= k < |Write(v, n)|
    ensures Gap(Write(v, n), k)
  {
    hide Digits, IsHex, HasPrefix;
    WrittenPrefix(v, n);
    WrittenDigit(v, n, k);
    if k > |Prefix(n)| {
      WrittenDigit(v, n, k - 1);
    } else if n.LeadingZero? {
      assert Write(v, n)[0] == '0';
    }
  }

  lemma WrittenDigit(v: nat, n: Notation, k: nat)
    requires Legal(n) && !n.Plain? && |Prefix(n)| <= k < |Write(v, n)|
    ensures IsDigit(Write(v, n)[k], IsHex(Write(v, n)))
  {
    hide Digits, IsHex, HasPrefix;
    var digits := Digits(v, DigitBase(n));
    WrittenPrefix(v, n);
    DigitsDenote(v, DigitBase(n), false);
    assert Write(v, n)[k] == digits[k - |Prefix(n)|] && Allowed(digits[k - |Prefix(n)|], DigitBase(n), false);
    IsDigitIff(Write(v, n)[k], IsHex(Write(v, n)));
  }

  lemma WrittenPrefix(v: nat, n: Notation)
    requires Legal(n) && !n.Plain?
    ensures var s := Write(v, n);
      && s == Prefix(n) + Digits(v, DigitBase(n)) && PrefixLength(s) == (if n.Prefixed? then 2 else 0)
      && (IsHex(s) <==> DigitBase(n) == 16) && DigitBase(n) <= 16
  {
    hide Digits, HasPrefix, IsHex;
    match n {
      case Prefixed(letter) => LetterPrefix(['0', letter] + Digits(v, PrefixBase(letter)));
      case LeadingZero =>
        NoLetter(v, 8);
        NoPrefix("0" + Digits(v, 8));
      case Decimal =>
        NoLetter(v, 10);
        NoPrefix(Digits(v, 10));
    }
  }

  lemma LetterPrefix(s: string)
    requires |s| >= 2 && s[0] == '0' && Legal(Prefixed(s[1]))
    ensures HasPrefix(s) && (IsHex(s) <==> PrefixBase(s[1]) == 16)
  {}

  lemma NoPrefix(s: string)
    requires |s| > 1 ==> 0 <= DigitOf(s[1]) < 10
    ensures !HasPrefix(s) && !IsHex(s)
  {}

  lemma NoLetter(v: nat, base: nat)
    requires 2 <= base <= 10
    ensures var t := Digits(v, base);
      t != "" && 0 <= DigitOf(t[0]) < 10 && (|t| > 1 ==> 0 <= DigitOf(t[1]) < 10)
  {
    var t := Digits(v, base);
    DigitsDenote(v, base, false);
    assert Allowed(t[0], base, false) && (|t| > 1 ==> Allowed(t[1], base, false));
  }

  /** The letter of a base prefix, just before position `k`. */
  predicate EndsPrefix(s: string, k: nat)
    requires k <= |s|
  {
    && k == 2 && s[0] == '0'
    && (s[1] == 'x' || s[1] == 'X' || s[1] == 'o' || s[1] == 'O' || s[1] == 'b' || s[1] == 'B')
  }

  /** Every underscore of an accepted text stands before a digit, and after a digit or a prefix;
  with an explicit base there is none. */
  lemma AcceptedUnderscore(s: string, base: int, bits: int, k: nat)
    requires ParseUintSpec(s, base, bits).Ok? && k < |s| && s[k] == '_'
    ensures base == 0 && 0 < k < |s| - 1 && 0 <= DigitOf(s[k + 1]) < 16
    ensures 0 <= DigitOf(s[k - 1]) < 16 || EndsPrefix(s, k)
  {
    if base != 0 {
      NoUnderscores(s, base);
      assert false;
    }
    AcceptedShape(s);
    UnderscoreInBody(s);
    assert k >= PrefixLength(s) by {
      if HasPrefix(s) {
        PrefixLetter(s);
      }
    }
    assert FollowsDigit(s, k) && PrecedesDigit(s, k);
    IsDigitIff(s[k + 1], IsHex(s));
    if k > PrefixLength(s) {
      IsDigitIff(s[k - 1], IsHex(s));
    }
  }
}
