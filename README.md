# Base converter core, modelled in Dafny

This project models the conversion engine of a small number-base converter,
`core.py`. The engine converts a number written as text in one base (2 to 36,
digits `0-9` then `A-Z`, either case on input, an optional sign, an optional
fraction after a dot) into another base. The model covers:

- the digit codec (`_letter_to_number` and `_number_to_letter`);
- the parser (`_parse_num` and `_check_str`), whose regular expression is
  spelled out as a full-match function over the upper-cased text;
- the integer converters: `_int_to_base10`, a loop over the digits from the
  last one, and `_int_from_base10`, a divmod loop whose output is reversed.
  Both loops are methods, proved against the functions `ValueOf` (the value a
  digit string denotes) and `Digits` (the canonical spelling of a number);
- the digit check of `_float_to_base10`, and the rounding and carry tail of
  `_float_from_base10`. The tail is a method proved against a carry fold
  (`Propagate`). The fold is shown to add the carry to the value of the
  digits, and the carry out of the first fraction digit is lost: converting
  into base 2, the digit list 1, 1, 1 rounded to two places gives the fraction
  digits `00`, and the integer part is not incremented;
- `_make_num`, the formatter, with the `strip_zeros` setting as a parameter.
  Its output is shown to parse back into its parts;
- `convert`: the two base range checks as they are written, the number check,
  and the three conversion paths (into base 10, out of base 10, and through
  base 10). A pure function `ConvertSpec` states what `convert` returns or
  raises. The method `Convert` calls the converters in the source's
  evaluation order and is proved to agree with `ConvertSpec`.

The floating-point arithmetic is not interpreted. `FloatOps` carries two
functions, and `convert` takes them as a parameter:

- `sumDigits` is the rounded and formatted float sum of `_float_to_base10`;
- `expand` is `float()` of the fraction followed by the digit-generation loop
  of `_float_from_base10`. It yields the digit list `r`, or nothing when
  `float()` rejects the text. An exception raised inside the loop itself is
  not represented (see "Left out").

Everything around them is modelled exactly: the digit checks, the
`ValueError` and `InvalidConversionError` raises and their order, rounding and
carry, and formatting. Exceptions that Python's float arithmetic and its
int/str conversions raise on their own (a division by zero, an overflow, the
length limit on decimal text) are not represented; "Left out" lists them. Exceptions are values of
`Result`. `InvalidConversion(from, to, n)` stands for `InvalidConversionError`
and keeps its fields rather than its message. `ValueError(message)` stands for
Python's `ValueError` and keeps the message text.

Modules: `Common` (option, result, error, reversal), `DigitCodec`, `Parser`,
`IntegerConverter`, `FractionConverter`, `Formatter`, `Converter`.

## Model

| member | source | states |
|---|---|---|
| DigitCodec.LetterToNumber | core.py:52-57 | a digit character of either case has a value in 0..35, below 10 exactly for decimal characters, and a decimal character is its own number |
| DigitCodec.NumberToLetter | core.py:60-63 | a value 0..35 becomes an upper-case digit character that decodes back to the value |
| DigitCodec.LetterRoundTrip | core.py:52-63 | decoding a digit character and encoding the value gives its upper-case form |
| DigitCodec.CaseInsensitive | core.py:52-57 | a lower-case letter has the value of its upper-case form, its distance from 'a' plus ten |
| Parser.FullMatch | core.py:31 | a match yields well-formed groups (sign, digit run, optional digit run) that render back to exactly the matched text |
| Parser.FullMatchComplete | core.py:31 | every well-formed triple of groups is matched, and matched to itself, so the match is unique |
| Parser.ParseNum | core.py:29-34 | accepts exactly what the full match accepts; the integer part is a digit run; the fraction is "0." plus a digit run, "0.0" when the input has no dot; negative exactly when the input starts with '-'; the parts rebuild the upper-cased input |
| Parser.ParseAccepts | core.py:29-34 | any input whose upper-cased form is a sign, a digit run and an optional dot and digit run parses into those very parts |
| Parser.AcceptsExactly | core.py:29-34 | the parser accepts an input exactly when some well-formed triple renders its upper-cased form |
| Parser.ParsedSign | core.py:33 | the sign group is the input's own leading sign, and the fraction group is present exactly when the input holds a dot |
| Parser.ParsedDigits | core.py:29-34 | some digit of the parsed integer or fraction parts is not below a base exactly when some digit character of the input is not |
| Parser.FractionReparse | core.py:92 | the fraction text the parser returns parses again into the same fraction, as the fractional converters require |
| Parser.FractionParses | core.py:33 | "0." followed by a digit run parses with integer part "0" and that fraction |
| Parser.CheckStr | core.py:25-26 | true exactly when the upper-cased input is an optional sign, a digit run and an optional dot followed by a digit run |
| IntegerConverter.IntToBase10 | core.py:66-75 | raises exactly when some digit is not below the base, with the error naming the base, 10 and the text; otherwise returns the positional value of the digits |
| IntegerConverter.ValueOfAppend | core.py:73-74 | appending a digit multiplies the value by the base and adds the digit |
| IntegerConverter.Shift | core.py:84-85 | n is the quotient times the base plus the last digit, and the quotient of a positive n is smaller |
| IntegerConverter.Digits | core.py:83-86 | the spelling of a number is empty exactly for 0 |
| IntegerConverter.DigitsCanonical | core.py:83-86 | every digit of the output is a valid digit below the base, and the first is not '0' |
| IntegerConverter.DigitsRoundTrip | core.py:66-86 | reading the output back in the base gives the number |
| IntegerConverter.DigitsOfValue | core.py:66-86 | a canonical digit string is the spelling of its own value, so the canonical spelling is unique |
| IntegerConverter.IntFromBase10 | core.py:78-86 | the divmod loop returns the canonical spelling of n in the base, which reads back as n, and "" exactly for 0 |
| IntegerConverter.IntFromBase10Str | core.py:78-86 | a string argument raises exactly when it is not a decimal numeral, naming 10, the base and the text; otherwise it is read in base 10 and spelled in the base |
| IntegerConverter.DecimalString | core.py:38 | str() of a non-negative integer is a decimal numeral whose value is the integer, "0" or without a leading zero |
| Formatter.StripTrailingZeros | core.py:43-44 | the result is the longest prefix that does not end in '0': everything removed is '0' |
| Formatter.FractionText | core.py:41-44 | the "0." prefix is dropped; when stripping, the text is a prefix of the digits with only zeros removed and no trailing '0', otherwise it is the digits themselves |
| Formatter.IntegerText | core.py:39-40 | an empty integer part is written "0", and a non-empty one is kept as it is |
| Formatter.MakeNum | core.py:37-49 | the output is not empty; it starts with '-' exactly when negative; it has no trailing '0' when stripping leaves a fraction; it has no dot when there is no fraction text |
| Formatter.MakeNumParses | core.py:37-49 | the output parses back into the integer text, the fraction text ("0" when empty) and the sign |
| Formatter.MakeNumIntegerPart | core.py:37-49 | the integer part of the output is the integer text, and the sign shows exactly when negative |
| FractionConverter.FloatToBase10 | core.py:89-101 | raises an InvalidConversionError exactly when some fraction digit is not below the base, naming the base, 10 and the text; otherwise returns the float sum of those digits (the float exceptions of core.py:91 and :97 are left out) |
| FractionConverter.DigitsBelow | core.py:92-95 | the check loop succeeds exactly when every digit is below the base |
| FractionConverter.PropagateShape | core.py:123-133 | the fold keeps the number of digits, every digit it emits is below the base, and the carry it passes on stays 0 or 1 |
| FractionConverter.RoundedDigits | core.py:121-135 | one digit per kept digit (all but an overrun rounding digit), each below the base |
| FractionConverter.StepValue | core.py:129-133 | adding the carry to a digit gives the new digit plus the new carry times the base |
| FractionConverter.PropagateValue | core.py:123-133 | the emitted digits plus the lost carry at the top position equal the input digits plus the incoming carry, as numbers |
| FractionConverter.PropagateIdentity | core.py:123-133 | with no carry, digits below the base come through unchanged |
| FractionConverter.PropagateOverflow | core.py:123-133 | a carry into digits that are all base-1 turns them all to 0 and comes out again |
| FractionConverter.RoundedWhenExact | core.py:121-135 | a digit list within the precision is emitted unchanged and loses no carry |
| FractionConverter.RoundedValue | core.py:121-135 | an overrun list drops its last digit and rounds the rest up by one unit exactly when that digit is at least half the base, the overflow being the lost carry |
| FractionConverter.RoundedLength | core.py:114-135 | the at most accuracy+1 generated digits give at most accuracy emitted digits |
| FractionConverter.RoundedOverflowLost | core.py:121-135 | rounding up digits that are all base-1 gives all zeros, and the carry never reaches the integer part |
| FractionConverter.Spell | core.py:134 | the text has one character per digit value, each an upper-case digit character that reads back as that value, so a non-empty text is a digit run the parser accepts |
| FractionConverter.RoundAndCarry | core.py:121-135 | the loop's text is the rounded digits spelled most significant first |
| FractionConverter.FloatFromBase10 | core.py:104-135 | a rejected fraction raises naming 10, the base and the text; otherwise the digit list is rounded and spelled |
| Converter.CheckBasesAsWritten | core.py:151-154 | as written, the range checks fail exactly when to_base is out of range, always with the from_base message, and never depend on from_base |
| Converter.CheckBasesIntended | core.py:151-154 | the corrected checks pass exactly when both bases are in 2..36 and otherwise name the first base out of range |
| Converter.Run | core.py:155-168 | the number check and dispatch, calling the converters in evaluation order, agree with the dispatch function |
| Converter.Convert | core.py:138-168 | convert on a string agrees with ConvertSpec |
| Converter.ConvertIntended | core.py:138-168 | convert with the corrected range checks agrees with ConvertIntendedSpec |
| Converter.ConvertValueError | core.py:151-156 | among the failures the model represents, a ValueError comes exactly from an out-of-range to_base (with the from_base message) or an unparsable number ("Invalid number"); every other failure the model represents is an InvalidConversionError |
| Converter.ConvertIntendedValueError | core.py:151-156 | with both bases checked, a ValueError names the first base out of range, and for valid bases the result is that of the written convert |
| Converter.IntoDecimalKeepsInteger | core.py:159-161 | into base 10: the result keeps the sign, and its integer part is the decimal spelling of the input's integer value |
| Converter.OutOfDecimalKeepsInteger | core.py:162-164 | out of base 10: the result keeps the sign, and its integer part spells the decimal integer in to_base |
| Converter.ThroughDecimalKeepsInteger | core.py:165-168 | through base 10: the result keeps the sign, and its integer part spells the input's integer value in to_base |
| Converter.ConvertKeepsInteger | core.py:158-168 | a successful conversion keeps the input's sign, and its integer part read in to_base equals the input's integer part read in from_base, spelled with valid digits and no leading zero |
| Converter.DigitsCheckedAgainstFromBase | core.py:159-167 | a digit of the input not below from_base raises an InvalidConversionError naming from_base and 10; into base 10 this is the only failure the model represents (see "Left out" for the float and text-length exceptions) |
| Converter.Base37Accepted | core.py:151-152 | as written, from_base 37 is accepted and "Z" converts to a number whose integer part is "35"; the corrected convert raises ValueError |
| Converter.Base1Misreported | core.py:151-152 | as written, from_base 1 with "5" raises InvalidConversionError; the corrected convert raises ValueError |

## Left out

- Floating-point arithmetic: `sumDigits` and `expand` of `FloatOps` are uninterpreted. This covers the float sum, `round` and `format` of `_float_to_base10` (core.py:90-101, apart from the digit check) and `float()` plus the digit-generation loop of `_float_from_base10` (core.py:105-120). Their results are whatever these functions return.
- Converter.Convert: only a string `n` is modelled. An `int` or `float` argument (the `str()` conversions, the `n -= trunc(n)` branch of `_float_from_base10`) is left out, because it needs float semantics.
- The `isinstance` checks that raise `TypeError` (core.py:144-149) are left out, since all arguments are typed here.
- `strip_zeros` is read from the configuration file in the source. Here it is a parameter; `config.py`, `ui.py` and `main()` are not part of this model.
- Only ASCII is modelled. Python's `\d`, `str.upper()` and `str.isdecimal()` also act on other Unicode digits and letters.
- IntegerConverter.IntFromBase10: the number is a `nat`. On a negative `int` the source loop never ends. A string path never passes one, because the parser strips the sign.
- IntegerConverter.IntFromBase10: to_base must be in 2..36. `convert` checks this before any call.
- FractionConverter.FloatToBase10: the text must be one the parser accepts. On other text the source fails when it subscripts `None` (a `TypeError`), but `convert` only passes the parser's own fraction text.
- DigitCodec.NumberToLetter: only defined for 0..35, the values its callers pass (a remainder modulo a base of at most 36).
- Converter.ConvertValueError: exceptions raised inside the digit-generation loop of `_float_from_base10` are not represented, because `expand` only returns a digit list or nothing. From base 10 the parser accepts `E` as a fraction digit, and `float()` reads it as an exponent: `float("0.1E400")` is infinite, so `trunc` at core.py:116 raises OverflowError, which is neither a ValueError nor an InvalidConversionError. Likewise a fraction such as `0.1E1` is not rejected as an invalid digit but read as the float 1.0. A negative accuracy makes `format` raise a ValueError in `_float_to_base10`; that lies inside the uninterpreted `sumDigits`, so the model does not raise it either. The ValueError of the 4300-digit limit (see the `IntegerConverter.IntFromBase10Str` line) and the OverflowError of a huge from_base (see the `FractionConverter.FloatToBase10` line) are not represented either, so "exactly" holds only for the failures the model represents.
- FractionConverter.FloatToBase10: the exceptions of the float sum are not represented. A from_base of 0 makes `1 / from_base` at core.py:91 raise ZeroDivisionError before the digit check; the model instead reports an invalid digit. A from_base too large for a float (such as 10**400, which `convert` lets through because it never range-checks from_base) makes `i /= from_base` at core.py:97 raise OverflowError; the model returns a result.
- IntegerConverter.IntFromBase10Str: integers are unbounded here. On CPython 3.11 and later, `int(n)` at core.py:82 raises ValueError on decimal text longer than 4300 digits, and so does `str(a)` at core.py:38 on an integer of more than 4300 decimal digits. The model converts such numbers.
- The default `accuracy=6` of `convert` (core.py:142) is not modelled: accuracy is always an explicit parameter.
- Error messages are kept as fields (bases and text), not as the formatted message string. `NumberNotSupportedError` is never raised by the core and is not modelled.

## Findings

| source | as written | input that shows it | evidently intended | confidence | as-written member | corrected member |
|---|---|---|---|---|---|---|
| core.py:151-152 | the first range check tests to_base although its message is about from_base, so from_base is never checked | convert(37, 10, "Z") returns a number with integer part "35"; convert(1, 10, "5") raises InvalidConversionError; convert(10**400, 10, "5") reaches core.py:97 and raises OverflowError (not modelled, see "Left out") | from_base outside 2..36 raises ValueError with the from_base message | high; not executed | Converter.CheckBasesAsWritten, Converter.Base37Accepted, Converter.Base1Misreported | Converter.CheckBasesIntended, Converter.ConvertIntendedValueError |
