/** The digit codec: one character of the alphabet 0-9, A-Z (either case on
    input) and its value 0..35. Only ASCII is modelled. */
module DigitCodec {

  /** str.upper() on one ASCII character */
  function Upper(c: char): char
  {
    if 'a' <= c <= 'z' then (c as int - 32) as char else c
  }

  /** A character of the class [\dA-Z] that the parser accepts after upper-casing */
  predicate IsDigitChar(c: char)
  {
    '0' <= c <= '9' || 'A' <= c <= 'Z'
  }

  /** str.isdecimal() on one ASCII character */
  predicate IsDecimalChar(c: char)
  {
    '0' <= c <= '9'
  }

  /** The value of a digit character: a decimal character is read as itself,
      anything else as its distance from 'A' plus ten after upper-casing. For a
      character outside the alphabet this gives whatever that arithmetic gives
      (negative for '!', 9 for '@'), as the source does. */
  function LetterToNumber(c: char): (v: int)
    ensures IsDigitChar(Upper(c)) ==> 0 <= v < 36 && (v < 10 <==> IsDecimalChar(c))
    ensures IsDecimalChar(c) ==> v == c as int - '0' as int
  {
    var u := Upper(c);
    if IsDecimalChar(u) then u as int - '0' as int else u as int - 'A' as int + 10
  }

  /** The upper-case digit character of a value 0..35; the codec's inverse */
  function NumberToLetter(v: int): (c: char)
    requires 0 <= v <= 35
    ensures IsDigitChar(c)
    ensures LetterToNumber(c) == v
  {
    if v > 9 then ('A' as int + (v - 10)) as char else ('0' as int + v) as char
  }

  /** Decoding then encoding a digit character yields its upper-case form. */
  lemma LetterRoundTrip(c: char)
    requires IsDigitChar(Upper(c))
    ensures NumberToLetter(LetterToNumber(c)) == Upper(c)
  {
  }

  /** Lower- and upper-case letters have the same value. */
  lemma CaseInsensitive(c: char)
    requires 'a' <= c <= 'z'
    ensures LetterToNumber(c) == LetterToNumber(Upper(c)) == c as int - 'a' as int + 10
  {
  }

  /** Some character of s has a value that is not below base b: the condition
      on which every digit-checking loop of the engine raises. */
  predicate SomeDigitAtLeast(s: string, b: int)
  {
    exists k :: 0 <= k < |s| && LetterToNumber(s[k]) >= b
  }
}
