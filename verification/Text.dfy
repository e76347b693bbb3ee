/** Characters, as the number parsers look at them.

A C string is modelled as a Dafny `string`; the bytes are the characters with a code
below 256, and every theorem holds for all characters. */
module Text {

  /** The `c | 0x20` of the lower-casing macro: bit 5 is set unless it already is. */
  function Lower(c: char): int {
    var code := c as int;
    if code % 64 < 32 then code + 32 else code
  }

  /** The value of a digit or letter in the largest base, 36, or -1. */
  function DigitOf(c: char): (d: int)
    ensures -1 <= d < 36
  {
    if '0' <= c <= '9' then c as int - '0' as int
    else if 'a' as int <= Lower(c) <= 'z' as int then Lower(c) - 'a' as int + 10
    else -1
  }

  /** ppp_c_flags_parse_bool: 1, 0, or -1 for anything else. */
  function ParseBool(s: string): int {
    match |s|
    case 1 =>
      if s[0] == '1' || s[0] == 't' || s[0] == 'T' then 1
      else if s[0] == '0' || s[0] == 'f' || s[0] == 'F' then 0
      else -1
    case 4 => if s == "true" || s == "TRUE" || s == "True" then 1 else -1
    case 5 => if s == "false" || s == "FALSE" || s == "False" then 0 else -1
    case _ => -1
  }
}
