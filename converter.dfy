/** The entry point `convert`: the range checks on the bases, the check of the
    number text, and the dispatch to the three conversion paths (into base 10,
    out of base 10, and through base 10). */
module Converter {
  import opened Common
  import opened DigitCodec
  import opened Parser
  import opened IntegerConverter
  import opened Formatter
  import opened FractionConverter

  const FromBaseMessage: string := "`from_base` must be in [2; 36]"
  const ToBaseMessage: string := "`to_base` must be in [2; 36]"
  const InvalidNumberMessage: string := "Invalid number"

  predicate InRange(base: int)
  {
    2 <= base <= 36
  }

  /** The two range checks of convert as they are written: both test toBase,
      and the first one carries the message about fromBase. */
  function CheckBases(fromBase: int, toBase: int): (e: Option<Error>)
  {
    if !InRange(toBase) then Some(ValueError(FromBaseMessage))
    else if !InRange(toBase) then Some(ValueError(ToBaseMessage))
    else None
  }

  /** As written, the range checks fail exactly when toBase is out of range,
      always with the fromBase message; fromBase is never looked at. */
  lemma CheckBasesAsWritten(fromBase: int, toBase: int)
    ensures CheckBases(fromBase, toBase).Some? <==> !InRange(toBase)
    ensures CheckBases(fromBase, toBase).Some? ==>
              CheckBases(fromBase, toBase) == Some(ValueError(FromBaseMessage))
    ensures CheckBases(fromBase, toBase) == CheckBases(37, toBase)
  {
  }

  /** The range checks as their messages say they were meant: fromBase first,
      then toBase. */
  function CheckBasesIntended(fromBase: int, toBase: int): (e: Option<Error>)
    ensures e.None? <==> InRange(fromBase) && InRange(toBase)
    ensures !InRange(fromBase) ==> e == Some(ValueError(FromBaseMessage))
    ensures InRange(fromBase) && !InRange(toBase) ==> e == Some(ValueError(ToBaseMessage))
  {
    if !InRange(fromBase) then Some(ValueError(FromBaseMessage))
    else if !InRange(toBase) then Some(ValueError(ToBaseMessage))
    else None
  }

  /** The shape of every triple the parser returns */
  predicate FromParser(p: Parsed)
  {
    IsDigitRun(p.whole) && |p.fraction| > 2 && p.fraction[..2] == "0." && IsDigitRun(p.fraction[2..])
  }

  /** A parsed integer text whose digits all lie below base b denotes a
      non-negative number, and b is at least 1. */
  lemma ValueOfValid(s: string, b: int)
    requires IsDigitRun(s) && !SomeDigitAtLeast(s, b)
    ensures b >= 1 && ValueOf(s, b) >= 0
  {
    assert LetterToNumber(s[0]) < b;
    ValueOfNonnegative(s, b);
  }

  /** The path for toBase == 10: the integer digits are checked and summed
      first, then the fraction digits; the sum is written in decimal. */
  function IntoDecimal(fromBase: int, p: Parsed, accuracy: int, stripZeros: bool, ops: FloatOps)
    : Result<string>
    requires FromParser(p)
  {
    var digits := p.fraction[2..];
    if SomeDigitAtLeast(p.whole, fromBase) then Err(InvalidConversion(fromBase, 10, p.whole))
    else if SomeDigitAtLeast(digits, fromBase) then Err(InvalidConversion(fromBase, 10, p.fraction))
    else
      ValueOfValid(p.whole, fromBase);
      Ok(MakeNum(DecimalString(ValueOf(p.whole, fromBase)), ops.sumDigits(fromBase, digits, accuracy),
                 p.negative, stripZeros))
  }

  /** The path for fromBase == 10: the integer text must be a decimal
      numeral; the fraction is expanded in toBase and rounded. */
  function OutOfDecimal(toBase: int, p: Parsed, accuracy: int, stripZeros: bool, ops: FloatOps)
    : Result<string>
    requires InRange(toBase)
  {
    if !IsDecimal(p.whole) then Err(InvalidConversion(10, toBase, p.whole))
    else match ops.expand(toBase, p.fraction, accuracy)
      case None => Err(InvalidConversion(10, toBase, p.fraction))
      case Some(r) =>
        ValueOfNonnegative(p.whole, 10);
        Ok(MakeNum(Digits(ValueOf(p.whole, 10), toBase), Spell(RoundedDigits(toBase, r, accuracy)),
                   p.negative, stripZeros))
  }

  /** The path for neither base 10: into base 10 and out of it again, the
      fraction through its decimal text. */
  function ThroughDecimal(fromBase: int, toBase: int, p: Parsed, accuracy: int, stripZeros: bool,
                          ops: FloatOps): Result<string>
    requires InRange(toBase) && FromParser(p)
  {
    var digits := p.fraction[2..];
    if SomeDigitAtLeast(p.whole, fromBase) then Err(InvalidConversion(fromBase, 10, p.whole))
    else if SomeDigitAtLeast(digits, fromBase) then Err(InvalidConversion(fromBase, 10, p.fraction))
    else
      var f := ops.sumDigits(fromBase, digits, accuracy);
      match ops.expand(toBase, f, accuracy)
      case None => Err(InvalidConversion(10, toBase, f))
      case Some(r) =>
        ValueOfValid(p.whole, fromBase);
        Ok(MakeNum(Digits(ValueOf(p.whole, fromBase), toBase), Spell(RoundedDigits(toBase, r, accuracy)),
                   p.negative, stripZeros))
  }

  /** Everything after the range checks: the number check, then the path
      the bases select. */
  function Dispatch(fromBase: int, toBase: int, n: string, accuracy: int, stripZeros: bool,
                    ops: FloatOps): Result<string>
    requires InRange(toBase)
  {
    match ParseNum(n)
    case None => Err(ValueError(InvalidNumberMessage))
    case Some(p) =>
      if toBase == 10 then IntoDecimal(fromBase, p, accuracy, stripZeros, ops)
      else if fromBase == 10 then OutOfDecimal(toBase, p, accuracy, stripZeros, ops)
      else ThroughDecimal(fromBase, toBase, p, accuracy, stripZeros, ops)
  }

  /** What convert returns or raises, for a string n, as written */
  function ConvertSpec(fromBase: int, toBase: int, n: string, accuracy: int, stripZeros: bool,
                       ops: FloatOps): Result<string>
  {
    match CheckBases(fromBase, toBase)
    case Some(e) => Err(e)
    case None => Dispatch(fromBase, toBase, n, accuracy, stripZeros, ops)
  }

  /** What convert would return or raise with both bases checked */
  function ConvertIntendedSpec(fromBase: int, toBase: int, n: string, accuracy: int, stripZeros: bool,
                               ops: FloatOps): Result<string>
  {
    match CheckBasesIntended(fromBase, toBase)
    case Some(e) => Err(e)
    case None => Dispatch(fromBase, toBase, n, accuracy, stripZeros, ops)
  }

  /** The number check and the dispatch, calling the converters in the order
      the source evaluates them. */
  method Run(fromBase: int, toBase: int, n: string, accuracy: int, stripZeros: bool, ops: FloatOps)
    returns (r: Result<string>)
    requires InRange(toBase)
    ensures r == Dispatch(fromBase, toBase, n, accuracy, stripZeros, ops)
  {
    if !CheckStr(n) {
      return Err(ValueError(InvalidNumberMessage));
    }
    var p := ParseNum(n).value;
    FractionReparse(n);
    if toBase == 10 {
      var a := IntToBase10(fromBase, p.whole);
      if a.Err? {
        return Err(a.error);
      }
      var b := FloatToBase10(fromBase, p.fraction, accuracy, ops);
      if b.Err? {
        return Err(b.error);
      }
      ValueOfValid(p.whole, fromBase);
      return Ok(MakeNum(DecimalString(a.value), b.value, p.negative, stripZeros));
    } else if fromBase == 10 {
      var a := IntFromBase10Str(toBase, p.whole);
      if a.Err? {
        return Err(a.error);
      }
      var b := FloatFromBase10(toBase, p.fraction, accuracy, ops);
      if b.Err? {
        return Err(b.error);
      }
      return Ok(MakeNum(a.value, b.value, p.negative, stripZeros));
    } else {
      var v := IntToBase10(fromBase, p.whole);
      if v.Err? {
        return Err(v.error);
      }
      ValueOfValid(p.whole, fromBase);
      var a := IntFromBase10(toBase, v.value);
      var f := FloatToBase10(fromBase, p.fraction, accuracy, ops);
      if f.Err? {
        return Err(f.error);
      }
      var b := FloatFromBase10(toBase, f.value, accuracy, ops);
      if b.Err? {
        return Err(b.error);
      }
      return Ok(MakeNum(a, b.value, p.negative, stripZeros));
    }
  }

  /** convert on a string n, with the strip_zeros setting and the
      floating-point parts passed in */
  method Convert(fromBase: int, toBase: int, n: string, accuracy: int, stripZeros: bool, ops: FloatOps)
    returns (r: Result<string>)
    ensures r == ConvertSpec(fromBase, toBase, n, accuracy, stripZeros, ops)
  {
    var bad := CheckBases(fromBase, toBase);
    if bad.Some? {
      return Err(bad.value);
    }
    r := Run(fromBase, toBase, n, accuracy, stripZeros, ops);
  }

  /** convert with both bases checked */
  method ConvertIntended(fromBase: int, toBase: int, n: string, accuracy: int, stripZeros: bool,
                         ops: FloatOps) returns (r: Result<string>)
    ensures r == ConvertIntendedSpec(fromBase, toBase, n, accuracy, stripZeros, ops)
  {
    var bad := CheckBasesIntended(fromBase, toBase);
    if bad.Some? {
      return Err(bad.value);
    }
    r := Run(fromBase, toBase, n, accuracy, stripZeros, ops);
  }

  /** The range checks and the number check are the only sources of
      ValueError: every other failure is an InvalidConversionError. */
  lemma ConvertValueError(fromBase: int, toBase: int, n: string, accuracy: int, stripZeros: bool,
                          ops: FloatOps)
    ensures var r := ConvertSpec(fromBase, toBase, n, accuracy, stripZeros, ops);
            (r.Err? && r.error.ValueError?) <==> (!InRange(toBase) || ParseNum(n).None?)
    ensures !InRange(toBase) ==>
              ConvertSpec(fromBase, toBase, n, accuracy, stripZeros, ops) == Err(ValueError(FromBaseMessage))
    ensures InRange(toBase) && ParseNum(n).None? ==>
              ConvertSpec(fromBase, toBase, n, accuracy, stripZeros, ops) == Err(ValueError(InvalidNumberMessage))
  {
  }

  /** With both bases checked, a ValueError names the first base out of
      range; for an in-range fromBase the corrected entry point behaves as
      the written one when both bases are in range. */
  lemma ConvertIntendedValueError(fromBase: int, toBase: int, n: string, accuracy: int, stripZeros: bool,
                                  ops: FloatOps)
    ensures var r := ConvertIntendedSpec(fromBase, toBase, n, accuracy, stripZeros, ops);
            (r.Err? && r.error.ValueError?)
            <==> (!InRange(fromBase) || !InRange(toBase) || ParseNum(n).None?)
    ensures !InRange(fromBase) ==>
              ConvertIntendedSpec(fromBase, toBase, n, accuracy, stripZeros, ops)
              == Err(ValueError(FromBaseMessage))
    ensures InRange(fromBase) && !InRange(toBase) ==>
              ConvertIntendedSpec(fromBase, toBase, n, accuracy, stripZeros, ops)
              == Err(ValueError(ToBaseMessage))
    ensures InRange(fromBase) && InRange(toBase) ==>
              ConvertIntendedSpec(fromBase, toBase, n, accuracy, stripZeros, ops)
              == ConvertSpec(fromBase, toBase, n, accuracy, stripZeros, ops)
  {
  }

  /** The integer text the formatter receives from Digits: no dot, no sign,
      valid in the base, no leading zero unless it is "0", and its value. */
  lemma IntegerTextOfDigits(v: nat, b: int)
    requires InRange(b)
    ensures '.' !in Digits(v, b) && (Digits(v, b) == [] || Digits(v, b)[0] != '-')
    ensures var w := IntegerText(Digits(v, b));
            ValidIn(w, b) && (|w| > 1 ==> w[0] != '0') && ValueOf(w, b) == v
  {
    DigitsCanonical(v, b);
    DigitsRoundTrip(v, b);
    var s := Digits(v, b);
    assert forall i :: 0 <= i < |s| ==> IsDigitChar(s[i]);
    if v == 0 {
      assert IntegerText(s) == "0";
      assert ValueOf("0", b) == 0;
    }
  }

  /** The same for the decimal text str() gives a non-negative integer */
  lemma IntegerTextOfDecimal(v: nat)
    ensures '.' !in DecimalString(v) && DecimalString(v)[0] != '-'
    ensures var w := IntegerText(DecimalString(v));
            ValidIn(w, 10) && (|w| > 1 ==> w[0] != '0') && ValueOf(w, 10) == v
  {
    var s := DecimalString(v);
    assert forall i :: 0 <= i < |s| ==> IsDecimalChar(s[i]);
  }

  /** What a successful conversion keeps: the sign of the input, and the
      value of its integer digits, spelled in toBase with valid digits and no
      leading zero. */
  predicate KeepsInteger(fromBase: int, toBase: int, p: Parsed, text: string)
  {
    var w := IntegerPart(text);
    |text| > 0 && (text[0] == '-' <==> p.negative)
    && ValidIn(w, toBase) && (|w| > 1 ==> w[0] != '0')
    && ValueOf(w, toBase) == ValueOf(p.whole, fromBase)
  }

  lemma IntoDecimalKeepsInteger(fromBase: int, p: Parsed, accuracy: int, stripZeros: bool, ops: FloatOps)
    requires FromParser(p) && IntoDecimal(fromBase, p, accuracy, stripZeros, ops).Ok?
    ensures KeepsInteger(fromBase, 10, p, IntoDecimal(fromBase, p, accuracy, stripZeros, ops).value)
  {
    ValueOfValid(p.whole, fromBase);
    var v: nat := ValueOf(p.whole, fromBase);
    IntegerTextOfDecimal(v);
    MakeNumIntegerPart(DecimalString(v), ops.sumDigits(fromBase, p.fraction[2..], accuracy),
                       p.negative, stripZeros);
  }

  lemma OutOfDecimalKeepsInteger(toBase: int, p: Parsed, accuracy: int, stripZeros: bool, ops: FloatOps)
    requires InRange(toBase) && OutOfDecimal(toBase, p, accuracy, stripZeros, ops).Ok?
    ensures KeepsInteger(10, toBase, p, OutOfDecimal(toBase, p, accuracy, stripZeros, ops).value)
  {
    var r := ops.expand(toBase, p.fraction, accuracy).value;
    ValueOfNonnegative(p.whole, 10);
    var v: nat := ValueOf(p.whole, 10);
    IntegerTextOfDigits(v, toBase);
    MakeNumIntegerPart(Digits(v, toBase), Spell(RoundedDigits(toBase, r, accuracy)), p.negative, stripZeros);
  }

  lemma ThroughDecimalKeepsInteger(fromBase: int, toBase: int, p: Parsed, accuracy: int, stripZeros: bool,
                                   ops: FloatOps)
    requires InRange(toBase) && FromParser(p)
    requires ThroughDecimal(fromBase, toBase, p, accuracy, stripZeros, ops).Ok?
    ensures KeepsInteger(fromBase, toBase, p, ThroughDecimal(fromBase, toBase, p, accuracy, stripZeros, ops).value)
  {
    var f := ops.sumDigits(fromBase, p.fraction[2..], accuracy);
    var r := ops.expand(toBase, f, accuracy).value;
    ValueOfValid(p.whole, fromBase);
    var v: nat := ValueOf(p.whole, fromBase);
    IntegerTextOfDigits(v, toBase);
    MakeNumIntegerPart(Digits(v, toBase), Spell(RoundedDigits(toBase, r, accuracy)), p.negative, stripZeros);
  }

  /** Whatever path it takes, a successful conversion keeps the sign of the
      input and the value of its integer digits: the integer part of the
      result, read in toBase, is the integer part of n read in fromBase, and
      it is spelled with valid digits and no leading zero. */
  lemma ConvertKeepsInteger(fromBase: int, toBase: int, n: string, accuracy: int, stripZeros: bool,
                            ops: FloatOps)
    requires ConvertSpec(fromBase, toBase, n, accuracy, stripZeros, ops).Ok?
    ensures ParseNum(n).Some?
    ensures var text := ConvertSpec(fromBase, toBase, n, accuracy, stripZeros, ops).value;
            var w := IntegerPart(text);
            |text| > 0 && (text[0] == '-' <==> n[0] == '-')
            && ValidIn(w, toBase) && (|w| > 1 ==> w[0] != '0')
            && ValueOf(w, toBase) == ValueOf(ParseNum(n).value.whole, fromBase)
  {
    var p := ParseNum(n).value;
    var text := ConvertSpec(fromBase, toBase, n, accuracy, stripZeros, ops).value;
    if toBase == 10 {
      assert text == IntoDecimal(fromBase, p, accuracy, stripZeros, ops).value;
      IntoDecimalKeepsInteger(fromBase, p, accuracy, stripZeros, ops);
    } else if fromBase == 10 {
      assert text == OutOfDecimal(toBase, p, accuracy, stripZeros, ops).value;
      OutOfDecimalKeepsInteger(toBase, p, accuracy, stripZeros, ops);
    } else {
      assert text == ThroughDecimal(fromBase, toBase, p, accuracy, stripZeros, ops).value;
      ThroughDecimalKeepsInteger(fromBase, toBase, p, accuracy, stripZeros, ops);
    }
    assert KeepsInteger(fromBase, toBase, p, text);
  }

  /** Into base 10, a number fails exactly when one of its digit characters
      is not below fromBase, and the error names fromBase and 10. Through
      base 10 the same digits are rejected the same way. */
  lemma DigitsCheckedAgainstFromBase(fromBase: int, toBase: int, n: string, accuracy: int,
                                     stripZeros: bool, ops: FloatOps)
    requires ParseNum(n).Some? && InRange(toBase) && (toBase == 10 || fromBase != 10)
    ensures var r := ConvertSpec(fromBase, toBase, n, accuracy, stripZeros, ops);
            var bad := exists k :: 0 <= k < |n| && IsDigitChar(Upper(n[k])) && LetterToNumber(n[k]) >= fromBase;
            (bad ==> r.Err? && r.error.InvalidConversion? && r.error.fromBase == fromBase && r.error.toBase == 10)
            && (toBase == 10 ==> (r.Err? <==> bad))
  {
    ParsedDigits(n, fromBase);
  }

  lemma ParsesZ()
    ensures ParseNum("Z") == Some(Parsed("Z", "0.0", false))
  {
    ParseAccepts("Z", Groups("", "Z", None));
  }

  lemma ThirtyFive()
    ensures DecimalString(35) == "35"
  {
    DivModUnique(3, 5, 10);
    DivModUnique(0, 3, 10);
  }

  /** Into base 10, base 37 reads "Z" as 35. */
  lemma IntoDecimalZ(accuracy: int, stripZeros: bool, ops: FloatOps)
    ensures IntoDecimal(37, Parsed("Z", "0.0", false), accuracy, stripZeros, ops)
            == Ok(MakeNum("35", ops.sumDigits(37, "0", accuracy), false, stripZeros))
  {
    assert !SomeDigitAtLeast("Z", 37);
    assert "0.0"[2..] == "0" && !SomeDigitAtLeast("0", 37);
    assert ValueOf("Z", 37) == 35;
    ThirtyFive();
  }

  /** The fromBase check that never runs, shown on base 37: it is accepted
      and "Z" reads as 35, where the intended check raises ValueError. */
  lemma Base37Accepted(accuracy: int, stripZeros: bool, ops: FloatOps)
    ensures ConvertSpec(37, 10, "Z", accuracy, stripZeros, ops).Ok?
    ensures IntegerPart(ConvertSpec(37, 10, "Z", accuracy, stripZeros, ops).value) == "35"
    ensures ConvertIntendedSpec(37, 10, "Z", accuracy, stripZeros, ops) == Err(ValueError(FromBaseMessage))
  {
    ParsesZ();
    IntoDecimalZ(accuracy, stripZeros, ops);
    assert Dispatch(37, 10, "Z", accuracy, stripZeros, ops)
           == IntoDecimal(37, Parsed("Z", "0.0", false), accuracy, stripZeros, ops);
    MakeNumIntegerPart("35", ops.sumDigits(37, "0", accuracy), false, stripZeros);
  }

  /** The same check shown on base 1: "5" gets an InvalidConversionError
      where the intended check raises ValueError. */
  lemma Base1Misreported(accuracy: int, stripZeros: bool, ops: FloatOps)
    ensures ConvertSpec(1, 10, "5", accuracy, stripZeros, ops) == Err(InvalidConversion(1, 10, "5"))
    ensures ConvertIntendedSpec(1, 10, "5", accuracy, stripZeros, ops) == Err(ValueError(FromBaseMessage))
  {
    ParseAccepts("5", Groups("", "5", None));
    var p := Parsed("5", "0.0", false);
    assert LetterToNumber("5"[0]) >= 1;
    assert Dispatch(1, 10, "5", accuracy, stripZeros, ops) == IntoDecimal(1, p, accuracy, stripZeros, ops);
  }
}
