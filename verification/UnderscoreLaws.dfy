/** In base 0, underscores between digits change neither acceptance nor value. */
module UnderscoreLaws {
  import opened Text
  import opened ParseInt
  import opened ParseUint
  import opened Underscore
  import opened Numbers

  // ----- deleting all underscores ------------------------------------------------------------

  function Strip(t: string): string {
    if t == "" then ""
    else if t[|t| - 1] == '_' then Strip(t[..|t| - 1])
    else Strip(t[..|t| - 1]) + [t[|t| - 1]]
  }

  lemma {:induction false} StripFacts(t: string, base: int)
    requires 2 <= base && AllAllowed(t, base, true)
    ensures '_' !in Strip(t) && AllAllowed(Strip(t), base, true)
    ensures Value(Strip(t), base, true) == Value(t, base, true)
    ensures t != "" && t[|t| - 1] != '_' ==> Strip(t) != ""
  {
    if t != "" {
      var init, last := t[..|t| - 1], t[|t| - 1];
      StripFacts(init, base);
      assert Allowed(last, base, true);
      if last != '_' {
        assert Strip(t)[..|Strip(t)| - 1] == Strip(init);
      }
    }
  }

  lemma {:induction false} StripAfterFirst(t: string)
    requires t != "" && t[0] != '_'
    ensures Strip(t) == [t[0]] + Strip(t[1..])
  {
    var init := t[..|t| - 1];
    if |t| > 1 {
      StripAfterFirst(init);
      assert init[1..] == t[1..][..|t| - 2];
      assert t[1..][|t| - 2] == t[|t| - 1];
    } else {
      assert init == "" && t[1..] == "";
    }
  }

  lemma LastIsNoUnderscore(t: string)
    requires Placed(t) && PrefixLength(t) < |t|
    ensures t[|t| - 1] != '_'
  {
    assert !PrecedesDigit(t, |t| - 1);
  }

  /** A number the parser accepts in base 0 and that has an underscore starts and ends
  with a digit or a prefix. */
  lemma AcceptedShape(s: string)
    requires WellFormed(s, 0)
    ensures s[0] != '_' && DigitOf(s[0]) >= 0 && Unsigned(s) == s
    ensures var body := BodyOf(s, 0); body != "" ==> s[|s| - 1] == body[|body| - 1] && body[|body| - 1] != '_'
    ensures |s| >= 3 && HasPrefix(s) ==> BodyOf(s, 0) == s[2..]
  {
    var body, b := BodyOf(s, 0), BaseOf(s, 0);
    if s[0] != '0' {
      assert Allowed(body[0], b, true);
      assert !HasSign(s);
      assert s[0] == '_' ==> !FollowsDigit(s, 0);
    }
    if body != "" && '_' in body {
      LastIsNoUnderscore(s);
    }
  }

  lemma StripAfterTwo(a: char, b: char, t: string)
    requires a != '_' && b != '_'
    ensures Strip([a, b] + t) == [a, b] + Strip(t)
  {
    var s := [a, b] + t;
    assert s[1..] == [b] + t && ([b] + t)[1..] == t;
    StripAfterFirst(s);
    StripAfterFirst([b] + t);
  }

  lemma StripKeepsPrefix(s: string)
    requires WellFormed(s, 0) && |s| >= 3 && HasPrefix(s)
    ensures Strip(s) == ['0', s[1]] + Strip(BodyOf(s, 0)) && Strip(BodyOf(s, 0)) != ""
  {
    var body := s[2..];
    assert body == BodyOf(s, 0) && Strip(body) != "" by {
      AcceptedShape(s);
      StripFacts(body, BaseOf(s, 0));
    }
    PrefixLetter(s);
    assert s == ['0', s[1]] + body;
    StripAfterTwo('0', s[1], body);
  }

  lemma PrefixLetter(s: string)
    requires HasPrefix(s)
    ensures s[0] == '0' && s[1] != '_'
  {}

  lemma StripKeepsZero(s: string)
    requires WellFormed(s, 0) && s[0] == '0' && !(|s| >= 3 && HasPrefix(s))
    ensures Strip(s) == "0" + Strip(BodyOf(s, 0))
    ensures var t := Strip(BodyOf(s, 0)); t != "" ==> 0 <= DigitOf(t[0]) < 8
  {
    StripAfterFirst(s);
    var t := Strip(BodyOf(s, 0));
    StripFacts(BodyOf(s, 0), 8);
    if t != "" {
      assert Allowed(t[0], 8, true);
    }
  }

  lemma StripKeepsSplit(s: string)
    requires WellFormed(s, 0)
    ensures Strip(s) != "" && BaseOf(Strip(s), 0) == BaseOf(s, 0)
    ensures BodyOf(Strip(s), 0) == Strip(BodyOf(s, 0))
  {
    var u := Strip(s);
    if s[0] != '0' {
      AcceptedShape(s);
      StripAfterFirst(s);
    } else if |s| >= 3 && HasPrefix(s) {
      StripKeepsPrefix(s);
      assert u[2..] == Strip(BodyOf(s, 0));
    } else {
      StripKeepsZero(s);
      assert u[1..] == Strip(BodyOf(s, 0));
    }
  }

  lemma DeletingUnderscoresKeepsTheNumber(s: string, bits: int, v: nat)
    requires ParseUintSpec(s, 0, bits) == Ok(v)
    ensures ParseUintSpec(Strip(s), 0, bits) == Ok(v)
  {
    StripKeepsSplit(s);
    StripFacts(BodyOf(s, 0), BaseOf(s, 0));
    ParseUintIsExact(s, 0, bits);
    ParseUintIsExact(Strip(s), 0, bits);
  }

  // ----- inserting one underscore ---------------------------------------------------------------

  function InsertAt(s: string, k: nat): string
    requires k <= |s|
  {
    s[..k] + "_" + s[k..]
  }

  lemma {:induction false} InsertKeepsValue(t: string, k: nat, base: int)
    requires 2 <= base && k <= |t| && AllAllowed(t, base, true)
    ensures AllAllowed(InsertAt(t, k), base, true)
    ensures Value(InsertAt(t, k), base, true) == Value(t, base, true)
    decreases |t|
  {
    var u := InsertAt(t, k);
    forall i | 0 <= i < |u| ensures Allowed(u[i], base, true) {
      assert u[i] == if i < k then t[i] else if i == k then '_' else t[i - 1];
    }
    if k == |t| {
      assert u[..|t|] == t;
    } else {
      var init := t[..|t| - 1];
      InsertKeepsValue(init, k, base);
      assert u[..|t|] == InsertAt(init, k);
      assert u[|t|] == t[|t| - 1];
    }
  }

  /** A place where the rule lets an underscore in: after a digit or prefix, before a digit. */
  predicate Gap(s: string, k: nat) {
    PrefixLength(s) <= k < |s| && FollowsDigit(s, k) && IsDigit(s[k], IsHex(s))
  }

  lemma InsertKeepsPrefix(s: string, k: nat)
    requires WellFormed(s, 0) && Gap(s, k)
    ensures var u := InsertAt(s, k);
      k >= 1 && u[0] == s[0] && HasPrefix(u) == HasPrefix(s) && IsHex(u) == IsHex(s) && (HasPrefix(s) ==> |s| >= 3)
  {
    var u := InsertAt(s, k);
    AcceptedShape(s);
    assert k >= 1 && u[0] == s[0];
    if HasPrefix(s) {
      assert u[1] == s[1];
    } else {
      assert u[1] == if k == 1 then '_' else s[1];
    }
  }

  lemma InsertKeepsSplit(s: string, k: nat)
    requires WellFormed(s, 0) && Gap(s, k)
    ensures var u := InsertAt(s, k); var p := |s| - |BodyOf(s, 0)|;
      && PrefixLength(u) == PrefixLength(s) && IsHex(u) == IsHex(s)
      && BaseOf(u, 0) == BaseOf(s, 0) && p <= k && BodyOf(u, 0) == InsertAt(BodyOf(s, 0), k - p)
  {
    var u := InsertAt(s, k);
    InsertKeepsPrefix(s, k);
    if HasPrefix(s) {
      assert u[1] == s[1];
      assert u[2..] == InsertAt(s[2..], k - 2);
    } else {
      assert u[1..] == InsertAt(s[1..], k - 1);
    }
  }

  lemma InsertKeepsPlacement(s: string, k: nat)
    requires Placed(s) && Gap(s, k)
    requires PrefixLength(InsertAt(s, k)) == PrefixLength(s) && IsHex(InsertAt(s, k)) == IsHex(s)
    ensures Placed(InsertAt(s, k))
  {
    var u, p := InsertAt(s, k), PrefixLength(s);
    forall j | p <= j < |u| && u[j] == '_'
      ensures FollowsDigit(u, j) && PrecedesDigit(u, j)
    {
      if j < k {
        assert s[j] == '_' && u[j + 1] == if j + 1 == k then '_' else s[j + 1];
        assert j > p ==> u[j - 1] == s[j - 1];
      } else if j > k {
        assert s[j - 1] == '_' && u[j - 1] == if j - 1 == k then '_' else s[j - 2];
      }
    }
  }

  lemma InsertingAnUnderscoreKeepsTheNumber(s: string, k: nat, bits: int, v: nat)
    requires ParseUintSpec(s, 0, bits) == Ok(v) && Gap(s, k)
    ensures ParseUintSpec(InsertAt(s, k), 0, bits) == Ok(v)
  {
    var u := InsertAt(s, k);
    AcceptedShape(s);
    InsertKeepsSplit(s, k);
    InsertKeepsValue(BodyOf(s, 0), k - (|s| - |BodyOf(s, 0)|), BaseOf(s, 0));
    if '_' in s {
      UnderscoreInBody(s);
    }
    InsertKeepsPlacement(s, k);
    assert Unsigned(u) == u;
    ParseUintIsExact(s, 0, bits);
    ParseUintIsExact(u, 0, bits);
  }

  lemma UnderscoreInBody(s: string)
    requires WellFormed(s, 0) && '_' in s
    ensures '_' in BodyOf(s, 0)
  {
    AcceptedShape(s);
    var j :| 0 <= j < |s| && s[j] == '_';
    var p := |s| - |BodyOf(s, 0)|;
    assert BodyOf(s, 0)[j - p] == '_';
  }

  // ----- the same for signed numbers ----------------------------------------------------------

  /** Two texts with the same sign, and magnitudes that are parsed alike. */
  lemma SameMagnitude(s: string, u: string, bits: int, m: nat)
    requires Negative(s) == Negative(u)
    requires ParseUintSpec(Unsigned(s), 0, bits) == Ok(m) == ParseUintSpec(Unsigned(u), 0, bits)
    ensures ParseIntResult(u, 0, bits) == ParseIntResult(s, 0, bits)
  {
    assert MagnitudeSpec(s, 0, bits) == Ok(m) == MagnitudeSpec(u, 0, bits);
  }

  lemma MagnitudeIsOk(s: string, bits: int) returns (m: nat)
    requires ParseIntResult(s, 0, bits).Ok? && !OneBitUnderflow(s, 0, bits)
    ensures ParseUintSpec(Unsigned(s), 0, bits) == Ok(m)
  {
    m := MagnitudeSpec(s, 0, bits).value;
  }

  lemma StripKeepsSign(s: string)
    requires WellFormed(Unsigned(s), 0)
    ensures Unsigned(Strip(s)) == Strip(Unsigned(s)) && Negative(Strip(s)) == Negative(s)
  {
    var t := Unsigned(s);
    AcceptedShape(t);
    StripAfterFirst(s);
    StripAfterFirst(t);
    if HasSign(s) {
      assert Strip(s)[1..] == Strip(t);
    }
  }

  lemma DeletingUnderscoresKeepsTheSignedNumber(s: string, bits: int, v: int)
    requires ParseIntResult(s, 0, bits) == Ok(v) && !OneBitUnderflow(s, 0, bits)
    ensures ParseIntResult(Strip(s), 0, bits) == Ok(v)
  {
    var m := MagnitudeIsOk(s, bits);
    DeletingUnderscoresKeepsTheNumber(Unsigned(s), bits, m);
    StripKeepsSign(s);
    SameMagnitude(s, Strip(s), bits, m);
  }

  function SignLength(s: string): nat {
    if HasSign(s) then 1 else 0
  }

  lemma InsertKeepsSign(s: string, k: nat)
    requires WellFormed(Unsigned(s), 0) && Gap(Unsigned(s), k)
    ensures var u := InsertAt(s, SignLength(s) + k);
      Unsigned(u) == InsertAt(Unsigned(s), k) && Negative(u) == Negative(s)
  {
    var t, u := Unsigned(s), InsertAt(s, SignLength(s) + k);
    InsertKeepsPrefix(t, k);
    assert u[0] == s[0];
    if HasSign(s) {
      assert u[1..] == InsertAt(t, k);
    }
  }

  lemma InsertingAnUnderscoreKeepsTheSignedNumber(s: string, k: nat, bits: int, v: int)
    requires ParseIntResult(s, 0, bits) == Ok(v) && !OneBitUnderflow(s, 0, bits) && Gap(Unsigned(s), k)
    ensures ParseIntResult(InsertAt(s, SignLength(s) + k), 0, bits) == Ok(v)
  {
    var m := MagnitudeIsOk(s, bits);
    InsertingAnUnderscoreKeepsTheNumber(Unsigned(s), k, bits, m);
    InsertKeepsSign(s, k);
    SameMagnitude(s, InsertAt(s, SignLength(s) + k), bits, m);
  }
}
