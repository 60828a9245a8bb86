/** Conversions between a decimal digit character and its value. */
module CharExtensions {
  import opened Results

  /** `c.ToDigit()`: the value of a decimal digit character, `None` for any other character. */
  function ToDigit(c: char): (r: Option<int>)
    ensures r.Some? <==> '0' <= c <= '9'
    ensures r.Some? ==> 0 <= r.value <= 9
    ensures r.Some? ==> DigitToChar(r.value) == Some(c)
  {
    if '0' <= c <= '9' then Some(c as int - '0' as int) else None
  }

  /** `d.DigitToChar()`: the character of a digit value, `None` outside 0..9. */
  function DigitToChar(d: int): (r: Option<char>)
    ensures r.Some? <==> 0 <= d <= 9
    ensures r.Some? ==> '0' <= r.value <= '9'
  {
    if 0 <= d <= 9 then Some((d + '0' as int) as char) else None
  }

  /** Converting a digit value to its character and back gives the value. */
  lemma DigitRoundTrip(d: int)
    requires 0 <= d <= 9
    ensures DigitToChar(d).Some? && ToDigit(DigitToChar(d).value) == Some(d)
  {
  }

  /** Converting a digit character to its value and back gives the character. */
  lemma CharRoundTrip(c: char)
    requires '0' <= c <= '9'
    ensures ToDigit(c).Some? && DigitToChar(ToDigit(c).value) == Some(c)
  {
  }
}
