/** The integer converter: a digit string in any base to an integer
    (_int_to_base10) and a non-negative integer to a digit string in a base
    2..36 (_int_from_base10). */
module IntegerConverter {
  import opened Common
  import opened DigitCodec

  function Pow(b: int, e: nat): int
  {
    if e == 0 then 1 else b * Pow(b, e - 1)
  }

  /** The number the digit string s denotes in base b: the sum of each
      digit's value times b raised to the count of digits after it. */
  function ValueOf(s: string, b: int): int
  {
    if s == [] then 0 else LetterToNumber(s[0]) * Pow(b, |s| - 1) + ValueOf(s[1..], b)
  }

  /** Every character is a digit of the alphabet whose value is below b */
  predicate ValidIn(s: string, b: int)
  {
    forall k :: 0 <= k < |s| ==> IsDigitChar(s[k]) && LetterToNumber(s[k]) < b
  }

  /** The canonical spelling of a number: valid digits, no leading zero */
  predicate Canonical(s: string, b: int)
  {
    ValidIn(s, b) && (s != [] ==> s[0] != '0')
  }

  /** str.isdecimal(): non-empty and made of decimal characters only */
  predicate IsDecimal(s: string)
  {
    |s| > 0 && forall k :: 0 <= k < |s| ==> IsDecimalChar(s[k])
  }

  lemma {:induction false} PowPositive(b: int, e: nat)
    requires b >= 1
    ensures Pow(b, e) >= 1
  {
    if e > 0 {
      PowPositive(b, e - 1);
      assert b * Pow(b, e - 1) >= Pow(b, e - 1);
    }
  }

  /** Digits of non-negative value in a positive base denote a non-negative number. */
  lemma {:induction false} ValueOfNonnegative(s: string, b: int)
    requires b >= 1
    requires forall k :: 0 <= k < |s| ==> LetterToNumber(s[k]) >= 0
    ensures ValueOf(s, b) >= 0
  {
    if s != [] {
      PowPositive(b, |s| - 1);
      ValueOfNonnegative(s[1..], b);
      assert LetterToNumber(s[0]) * Pow(b, |s| - 1) >= 0;
    }
  }

  lemma Regroup(d: int, p: int, v: int, b: int)
    ensures d * (b * p) + v * b == (d * p + v) * b
  {
  }

  /** Horner's rule: appending a digit multiplies by the base and adds it. */
  lemma {:induction false} ValueOfAppend(s: string, c: char, b: int)
    ensures ValueOf(s + [c], b) == ValueOf(s, b) * b + LetterToNumber(c)
  {
    if s != [] {
      var t := s + [c];
      assert t[1..] == s[1..] + [c];
      ValueOfAppend(s[1..], c, b);
      var d, p, v := LetterToNumber(s[0]), Pow(b, |s| - 1), ValueOf(s[1..], b);
      assert Pow(b, |t| - 1) == b * p;
      assert ValueOf(t, b) == d * (b * p) + (v * b + LetterToNumber(c));
      Regroup(d, p, v, b);
    }
  }

  /** _int_to_base10: the value of n in base fromBase, or an error when some
      digit is not below the base. The base itself is not range-checked. */
  method IntToBase10(fromBase: int, n: string) returns (r: Result<int>)
    ensures r.Err? <==> SomeDigitAtLeast(n, fromBase)
    ensures r.Err? ==> r.error == InvalidConversion(fromBase, 10, n)
    ensures r.Ok? ==> r.value == ValueOf(n, fromBase)
  {
    var s := 0;
    var i := 1;
    var j := |n|;
    while j > 0
      invariant 0 <= j <= |n|
      invariant s == ValueOf(n[j..], fromBase)
      invariant i == Pow(fromBase, |n| - j)
      invariant forall k :: j <= k < |n| ==> LetterToNumber(n[k]) < fromBase
    {
      j := j - 1;
      var t := LetterToNumber(n[j]);
      if t >= fromBase {
        return Err(InvalidConversion(fromBase, 10, n));
      }
      assert n[j..][1..] == n[j + 1..];
      s := s + t * i;
      i := i * fromBase;
    }
    assert n[0..] == n;
    return Ok(s);
  }

  /** The last digit of n in base b: the remainder n % b */
  function LowDigit(n: nat, b: int): (d: nat)
    requires 2 <= b <= 36
    ensures d < b
  {
    n % b
  }

  /** Dropping a digit makes a positive number smaller. */
  lemma QuotientSmaller(n: nat, q: nat, d: nat, b: int)
    requires 2 <= b && n == q * b + d
    ensures n != 0 ==> q < n
  {
    if q != 0 {
      assert q * b >= q * 2;
    }
  }

  /** n with its last digit in base b removed: the quotient n / b */
  function Shift(n: nat, b: int): (q: nat)
    requires 2 <= b <= 36
    ensures n == q * b + LowDigit(n, b)
    ensures n != 0 ==> q < n
  {
    var q := n / b;
    assert n == q * b + n % b;
    QuotientSmaller(n, q, n % b, b);
    q
  }

  /** The digits of n in base b, most significant first; 0 has no digits. */
  function Digits(n: nat, b: int): (s: string)
    requires 2 <= b <= 36
    ensures s == [] <==> n == 0
    decreases n
  {
    if n == 0 then [] else Digits(Shift(n, b), b) + [NumberToLetter(LowDigit(n, b))]
  }

  /** The digits are valid in the base and have no leading zero. */
  lemma {:induction false} DigitsCanonical(n: nat, b: int)
    requires 2 <= b <= 36
    ensures Canonical(Digits(n, b), b)
  {
    if n != 0 {
      DigitsCanonical(Shift(n, b), b);
    }
  }

  /** Reading back the digits gives the number. */
  lemma {:induction false} DigitsRoundTrip(n: nat, b: int)
    requires 2 <= b <= 36
    ensures ValueOf(Digits(n, b), b) == n
  {
    if n != 0 {
      var q, d := Shift(n, b), LowDigit(n, b);
      DigitsRoundTrip(q, b);
      ValueOfAppend(Digits(q, b), NumberToLetter(d), b);
    }
  }

  lemma MulAtLeast(k: int, b: int)
    requires k >= 1 && b > 0
    ensures k * b >= b
  {
  }

  /** Quotient and remainder are unique: q * b + d with 0 <= d < b shifts
      to q and has last digit d. */
  lemma DivModUnique(q: nat, d: nat, b: int)
    requires 2 <= b <= 36 && d < b
    ensures Shift(q * b + d, b) == q && LowDigit(q * b + d, b) == d
  {
    var n := q * b + d;
    var q', d' := Shift(n, b), LowDigit(n, b);
    var k := q' - q;
    assert k * b == d - d' by {
      assert k * b == q' * b - q * b;
    }
    if k >= 1 { MulAtLeast(k, b); }
    if -k >= 1 { MulAtLeast(-k, b); }
  }

  /** A canonical spelling with at least one digit denotes a positive number. */
  lemma CanonicalPositive(s: string, b: int)
    requires 2 <= b <= 36 && Canonical(s, b) && s != []
    ensures ValueOf(s, b) >= 1
  {
    PowPositive(b, |s| - 1);
    ValueOfNonnegative(s[1..], b);
    MulAtLeast(Pow(b, |s| - 1), LetterToNumber(s[0]));
  }

  /** A canonical digit string is the one Digits produces for its value: the
      canonical spelling in a base is unique. */
  lemma {:induction false} DigitsOfValue(s: string, b: int)
    requires 2 <= b <= 36 && Canonical(s, b)
    ensures ValueOf(s, b) >= 0 && Digits(ValueOf(s, b), b) == s
  {
    ValueOfNonnegative(s, b);
    if s != [] {
      var p, c := s[..|s| - 1], s[|s| - 1];
      assert s == p + [c];
      ValueOfAppend(p, c, b);
      ValueOfNonnegative(p, b);
      CanonicalPositive(s, b);
      DivModUnique(ValueOf(p, b), LetterToNumber(c), b);
      DigitsOfValue(p, b);
      LetterRoundTrip(c);
    }
  }

  /** One round of the divmod loop keeps the digits found so far, reversed,
      behind the digits of what is left. */
  lemma DigitsStep(done: string, m: nat, b: int, res: string)
    requires 2 <= b <= 36 && m != 0
    requires done == Digits(m, b) + Reverse(res)
    ensures done == Digits(Shift(m, b), b) + Reverse(res + [NumberToLetter(LowDigit(m, b))])
  {
    ReverseAppend(res, NumberToLetter(LowDigit(m, b)));
  }

  /** The loop of _int_from_base10 on an integer: repeated divmod by toBase,
      remainders collected least significant first and then reversed. A
      negative n would make the source loop forever and never reaches here. */
  method IntFromBase10(toBase: int, n: nat) returns (res: string)
    requires 2 <= toBase <= 36
    ensures res == Digits(n, toBase)
    ensures Canonical(res, toBase) && ValueOf(res, toBase) == n
    ensures res == "" <==> n == 0
  {
    ghost var done := Digits(n, toBase);
    var m: nat := n;
    res := "";
    while m != 0
      invariant done == Digits(m, toBase) + Reverse(res)
      decreases m
    {
      DigitsStep(done, m, toBase, res);
      res := res + [NumberToLetter(m % toBase)];
      m := m / toBase;
    }
    res := Reverse(res);
    DigitsRoundTrip(n, toBase);
    DigitsCanonical(n, toBase);
  }

  /** _int_from_base10 on a string: it must be a decimal numeral, which is
      then read in base 10 and converted. */
  method IntFromBase10Str(toBase: int, n: string) returns (r: Result<string>)
    requires 2 <= toBase <= 36
    ensures r.Err? <==> !IsDecimal(n)
    ensures r.Err? ==> r.error == InvalidConversion(10, toBase, n)
    ensures r.Ok? ==> ValueOf(n, 10) >= 0 && r.value == Digits(ValueOf(n, 10), toBase)
  {
    if !IsDecimal(n) {
      return Err(InvalidConversion(10, toBase, n));
    }
    ValueOfNonnegative(n, 10);
    var s := IntFromBase10(toBase, ValueOf(n, 10));
    return Ok(s);
  }

  /** str() of a non-negative integer */
  function DecimalString(n: nat): (s: string)
    ensures IsDecimal(s) && ValueOf(s, 10) == n
    ensures s == "0" || Canonical(s, 10)
  {
    if n == 0 then "0" else DigitsRoundTrip(n, 10); DigitsCanonical(n, 10); Digits(n, 10)
  }
}
