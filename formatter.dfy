/** The formatter (_make_num): sign, integer part and fraction joined into the
    result text. Whether trailing fraction zeros are stripped is a parameter. */
module Formatter {
  import opened Common
  import opened DigitCodec
  import opened Parser

  /** str.rstrip('0') */
  function StripTrailingZeros(s: string): (r: string)
    ensures |r| <= |s| && r == s[..|r|]
    ensures forall i :: |r| <= i < |s| ==> s[i] == '0'
    ensures r == [] || r[|r| - 1] != '0'
  {
    if s != [] && s[|s| - 1] == '0' then StripTrailingZeros(s[..|s| - 1]) else s
  }

  /** The fraction text as the formatter emits it: the "0." prefix dropped
      when present, then trailing zeros stripped when asked. */
  function FractionText(b: string, stripZeros: bool): (f: string)
    ensures var digits := if |b| >= 2 && b[..2] == "0." then b[2..] else b;
            (stripZeros ==> |f| <= |digits| && f == digits[..|f|] && (f == [] || f[|f| - 1] != '0')
                            && forall i :: |f| <= i < |digits| ==> digits[i] == '0')
            && (!stripZeros ==> f == digits)
  {
    var digits := if |b| >= 2 && b[..2] == "0." then b[2..] else b;
    if stripZeros then StripTrailingZeros(digits) else digits
  }

  /** The integer text: an empty integer part is written '0'. */
  function IntegerText(a: string): (w: string)
    ensures w != [] && (a != [] ==> w == a)
    ensures a == "" ==> w == "0"
  {
    if a == "" then "0" else a
  }

  function SignText(negative: bool): string
  {
    if negative then "-" else ""
  }

  /** What follows the integer text: a dot and the fraction text, or
      nothing when the fraction text is empty */
  function DotTail(f: string): string
  {
    if f == "" then "" else "." + f
  }

  /** _make_num with the strip_zeros setting passed in: the sign, the
      integer text, and the fraction text behind a dot unless it is empty. */
  function MakeNum(a: string, b: string, negative: bool, stripZeros: bool): (r: string)
    ensures |r| > 0
    ensures (a == [] || a[0] != '-') ==> (r[0] == '-' <==> negative)
    ensures stripZeros && FractionText(b, stripZeros) != "" ==> r[|r| - 1] != '0'
    ensures FractionText(b, stripZeros) == "" && '.' !in a ==> '.' !in r
  {
    var result := IntegerText(a) + DotTail(FractionText(b, stripZeros));
    SignText(negative) + result
  }

  /** The formatter's output is a number the parser reads back into the same
      parts: the integer text, the fraction text ("0" when it is empty) and
      the sign, whenever the parts are digit runs. */
  lemma MakeNumParses(a: string, b: string, negative: bool, stripZeros: bool)
    requires a == "" || IsDigitRun(a)
    requires FractionText(b, stripZeros) == "" || IsDigitRun(FractionText(b, stripZeros))
    ensures var f := FractionText(b, stripZeros);
            ParseNum(MakeNum(a, b, negative, stripZeros))
            == Some(Parsed(IntegerText(a), "0." + (if f == "" then "0" else f), negative))
  {
    var f := FractionText(b, stripZeros);
    var g := Groups(SignText(negative), IntegerText(a), if f == "" then None else Some(f));
    assert MakeNum(a, b, negative, stripZeros) == Render(g);
    RenderUpper(g);
    ParseAccepts(Render(g), g);
  }

  /** The integer digits of a formatted number: the text after a leading '-'
      and before the first dot */
  function IntegerPart(text: string): (w: string)
    ensures |w| <= |text|
  {
    var body := if |text| > 0 && text[0] == '-' then text[1..] else text;
    body[..FirstDot(body)]
  }

  /** The integer text survives formatting: it is what stands between the sign
      and the dot, and the sign shows exactly when the number is negative. */
  lemma MakeNumIntegerPart(a: string, b: string, negative: bool, stripZeros: bool)
    requires '.' !in a && (a == [] || a[0] != '-')
    ensures IntegerPart(MakeNum(a, b, negative, stripZeros)) == IntegerText(a)
    ensures MakeNum(a, b, negative, stripZeros)[0] == '-' <==> negative
  {
    var w := IntegerText(a);
    var tail := DotTail(FractionText(b, stripZeros));
    FirstDotAfter(w, tail);
    assert (w + tail)[..|w|] == w;
    var text := MakeNum(a, b, negative, stripZeros);
    if negative {
      assert text[1..] == w + tail;
    } else {
      assert text == w + tail && text[0] == w[0];
    }
  }
}
