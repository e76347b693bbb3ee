/** Where underscores may stand in a number: the one-pass automaton of
ppp_c_flags_underscore_ok against the rule it is documented to implement. */
module Underscore {
  import opened Text

  predicate HasSign(s: string) {
    s != "" && (s[0] == '-' || s[0] == '+')
  }

  function Unsigned(s: string): string {
    if HasSign(s) then s[1..] else s
  }

  predicate HasPrefix(t: string) {
    |t| >= 2 && t[0] == '0' && (Lower(t[1]) == 'x' as int || Lower(t[1]) == 'b' as int || Lower(t[1]) == 'o' as int)
  }

  predicate IsHex(t: string) {
    |t| >= 2 && t[0] == '0' && Lower(t[1]) == 'x' as int
  }

  function PrefixLength(t: string): (p: nat)
    ensures p <= |t|
  {
    if HasPrefix(t) then 2 else 0
  }

  predicate IsDigit(c: char, hex: bool) {
    '0' <= c <= '9' || (hex && 'a' as int <= Lower(c) <= 'f' as int)
  }

  /** What stands just before position `k` is a digit or the end of the base prefix. */
  predicate FollowsDigit(t: string, k: nat)
    requires k <= |t|
  {
    var p := PrefixLength(t);
    if k == p then p == 2 else k > p && IsDigit(t[k - 1], IsHex(t))
  }

  predicate PrecedesDigit(t: string, k: nat)
    requires k < |t|
  {
    k + 1 < |t| && IsDigit(t[k + 1], IsHex(t))
  }

  /** Every underscore after the prefix is between digits, or between prefix and digit. */
  ghost predicate Placed(t: string) {
    forall k {:trigger t[k]} :: PrefixLength(t) <= k < |t| && t[k] == '_' ==> FollowsDigit(t, k) && PrecedesDigit(t, k)
  }

  method UnderscoreOk(s: string) returns (ok: bool)
    ensures ok <==> Placed(Unsigned(s))
  {
    var saw := '^';
    var i := 0;
    var t := s;
    if |t| >= 1 && (t[0] == '-' || t[0] == '+') {
      t := t[1..];
    }
    var hex := false;
    if |t| >= 2 && t[0] == '0' {
      var c := Lower(t[1]);
      if c == 'x' as int || c == 'b' as int || c == 'o' as int {
        hex := c == 'x' as int;
        i := 2;
        saw := '0';
      }
    }
    while i < |t|
      invariant PrefixLength(t) <= i <= |t| && hex == IsHex(t) && t == Unsigned(s)
      invariant saw == '0' <==> FollowsDigit(t, i)
      invariant saw == '_' <==> i > PrefixLength(t) && t[i - 1] == '_'
      invariant forall k {:trigger t[k]} :: PrefixLength(t) <= k < i && t[k] == '_' ==>
        FollowsDigit(t, k) && (k + 1 < i ==> PrecedesDigit(t, k))
    {
      if IsDigit(t[i], hex) {
        saw := '0';
      } else if t[i] == '_' {
        if saw != '0' {
          return false;
        }
        saw := '_';
      } else {
        if saw == '_' {
          assert !PrecedesDigit(t, i - 1);
          return false;
        }
        saw := '!';
      }
      i := i + 1;
    }
    assert saw == '_' ==> !PrecedesDigit(t, |t| - 1);
    return saw != '_';
  }
}
