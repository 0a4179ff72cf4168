/** The parser: full match of `([-+]?)([\dA-Z]+)(?:\.([\dA-Z]+))?` on the
    upper-cased input, and the triple the converter takes from its groups. */
module Parser {
  import opened Common
  import opened DigitCodec

  /** str.upper() on a whole ASCII string */
  function UpperString(s: string): string
  {
    seq(|s|, i requires 0 <= i < |s| => Upper(s[i]))
  }

  /** A non-empty run of [\dA-Z] */
  predicate IsDigitRun(s: string)
  {
    |s| > 0 && forall i :: 0 <= i < |s| ==> IsDigitChar(s[i])
  }

  /** The three capture groups of the pattern: sign, integer digits, and the
      fraction digits when the optional `.` group took part in the match. */
  datatype Groups = Groups(sign: string, whole: string, fraction: Option<string>)

  predicate WellFormed(g: Groups)
  {
    (g.sign == "" || g.sign == "+" || g.sign == "-")
    && IsDigitRun(g.whole)
    && (g.fraction.Some? ==> IsDigitRun(g.fraction.value))
  }

  /** The text a match with groups g spans */
  function Render(g: Groups): string
  {
    g.sign + g.whole + (if g.fraction.Some? then "." + g.fraction.value else "")
  }

  /** Index of the first '.', or |s| when there is none */
  function FirstDot(s: string): (k: nat)
    ensures k <= |s|
    ensures k < |s| ==> s[k] == '.'
    ensures forall i :: 0 <= i < k ==> s[i] != '.'
  {
    if s == [] || s[0] == '.' then 0 else 1 + FirstDot(s[1..])
  }

  lemma SplitAt(s: string, k: int)
    requires 0 <= k < |s|
    ensures s == s[..k] + [s[k]] + s[k + 1..]
  {
  }

  /** re.fullmatch of the number pattern on an already upper-cased string.
      The digit class excludes '.', so the integer group ends at the first dot. */
  function FullMatch(u: string): (r: Option<Groups>)
    ensures r.Some? ==> WellFormed(r.value) && Render(r.value) == u
  {
    var signLen := if |u| > 0 && (u[0] == '+' || u[0] == '-') then 1 else 0;
    var body := u[signLen..];
    assert u == u[..signLen] + body;
    var k := FirstDot(body);
    if k == |body| then
      if IsDigitRun(body) then Some(Groups(u[..signLen], body, None)) else None
    else if IsDigitRun(body[..k]) && IsDigitRun(body[k + 1..]) then
      SplitAt(body, k);
      Some(Groups(u[..signLen], body[..k], Some(body[k + 1..])))
    else
      None
  }

  /** The first dot of w + t is where t starts, when w has no dot and t is
      empty or starts with one. */
  lemma {:induction false} FirstDotAfter(w: string, t: string)
    requires forall i :: 0 <= i < |w| ==> w[i] != '.'
    requires t == [] || t[0] == '.'
    ensures FirstDot(w + t) == |w|
  {
    if w != [] {
      assert (w + t)[1..] == w[1..] + t;
      FirstDotAfter(w[1..], t);
    }
  }

  /** The sign the matcher splits off a rendered triple is the triple's own. */
  lemma RenderedSign(g: Groups)
    requires WellFormed(g)
    ensures var u := Render(g);
            var signLen := if |u| > 0 && (u[0] == '+' || u[0] == '-') then 1 else 0;
            signLen == |g.sign| && u[..signLen] == g.sign
            && u[signLen..] == g.whole + (if g.fraction.Some? then "." + g.fraction.value else "")
  {
    var u := Render(g);
    var tail := if g.fraction.Some? then "." + g.fraction.value else "";
    assert u == g.sign + (g.whole + tail);
    if g.sign == "" {
      assert u[0] == g.whole[0] && IsDigitChar(u[0]);
    }
  }

  /** Every well-formed group triple is matched, and matched to itself: the
      pattern accepts exactly the strings Render can produce, in one way. */
  lemma FullMatchComplete(g: Groups)
    requires WellFormed(g)
    ensures FullMatch(Render(g)) == Some(g)
  {
    var u := Render(g);
    var tail := if g.fraction.Some? then "." + g.fraction.value else "";
    RenderedSign(g);
    var signLen := |g.sign|;
    var body := u[signLen..];
    assert body == g.whole + tail;
    FirstDotAfter(g.whole, tail);
    if g.fraction.Some? {
      assert body[..|g.whole|] == g.whole;
      assert body[|g.whole| + 1..] == g.fraction.value;
      assert FullMatch(u) == Some(Groups(g.sign, g.whole, g.fraction));
    } else {
      assert body == g.whole;
      assert FullMatch(u) == Some(Groups(g.sign, g.whole, None));
    }
  }

  /** What _parse_num returns: the integer digits, the fraction as "0."
      followed by its digits, and whether the sign was '-'. */
  datatype Parsed = Parsed(whole: string, fraction: string, negative: bool)

  function SignOf(s: string): string
  {
    if |s| > 0 && (s[0] == '+' || s[0] == '-') then s[..1] else ""
  }

  /** _parse_num: None when the upper-cased input does not fully match the
      pattern; otherwise the integer digits, "0." + fraction digits ("0.0"
      when there is no fraction) and the negative flag. */
  function ParseNum(s: string): (r: Option<Parsed>)
    ensures r.Some? <==> FullMatch(UpperString(s)).Some?
    ensures r.Some? ==> IsDigitRun(r.value.whole)
    ensures r.Some? ==> |r.value.fraction| > 2 && r.value.fraction[..2] == "0."
                        && IsDigitRun(r.value.fraction[2..])
    ensures r.Some? ==> (r.value.negative <==> s[0] == '-')
    ensures r.Some? && '.' !in s ==>
              r.value.fraction == "0.0" && UpperString(s) == SignOf(s) + r.value.whole
    ensures r.Some? && '.' in s ==>
              UpperString(s) == SignOf(s) + r.value.whole + "." + r.value.fraction[2..]
  {
    match FullMatch(UpperString(s))
    case None => None
    case Some(g) =>
      ParsedSign(s, g);
      Some(Parsed(if g.whole == "" then "0" else g.whole,
                  "0." + (if g.fraction.Some? then g.fraction.value else "0"),
                  g.sign == "-"))
  }

  /** The sign group is the input's own leading sign character, and the
      fraction group is present exactly when the input holds a dot. */
  lemma ParsedSign(s: string, g: Groups)
    requires FullMatch(UpperString(s)) == Some(g)
    ensures g.sign == SignOf(s)
    ensures g.fraction.Some? <==> '.' in s
  {
    RenderedSignOf(s, g);
    RenderedDot(s, g);
  }

  lemma RenderedSignOf(s: string, g: Groups)
    requires WellFormed(g) && UpperString(s) == Render(g)
    ensures g.sign == SignOf(s)
  {
    var u := UpperString(s);
    var tail := if g.fraction.Some? then "." + g.fraction.value else "";
    assert u == g.sign + g.whole + tail;
    if g.sign == "" {
      assert u[0] == g.whole[0];
    } else {
      assert u[0] == g.sign[0];
    }
    assert Upper(s[0]) == u[0];
  }

  lemma RenderedDot(s: string, g: Groups)
    requires WellFormed(g) && UpperString(s) == Render(g)
    ensures g.fraction.Some? <==> '.' in s
  {
    var u := UpperString(s);
    if g.fraction.Some? {
      var j := |g.sign| + |g.whole|;
      assert u[j] == '.' && Upper(s[j]) == '.';
    } else {
      assert u == g.sign + g.whole;
      forall j | 0 <= j < |s|
        ensures s[j] != '.'
      {
        if j < |g.sign| {
          assert u[j] == g.sign[j];
        } else {
          assert u[j] == g.whole[j - |g.sign|];
        }
      }
    }
  }

  /** Completeness of the parser: any input whose upper-cased form is an
      optional sign, a digit run and an optional dot and digit run parses,
      into those very parts. */
  lemma ParseAccepts(s: string, g: Groups)
    requires WellFormed(g) && UpperString(s) == Render(g)
    ensures ParseNum(s) == Some(Parsed(g.whole,
                                       "0." + (if g.fraction.Some? then g.fraction.value else "0"),
                                       g.sign == "-"))
  {
    FullMatchComplete(g);
  }

  /** The parser accepts exactly the inputs whose upper-cased form an
      optional sign, a digit run and an optional dot and digit run render. */
  lemma AcceptsExactly(s: string)
    ensures ParseNum(s).Some? <==> exists g :: WellFormed(g) && Render(g) == UpperString(s)
  {
    if g :| WellFormed(g) && Render(g) == UpperString(s) {
      FullMatchComplete(g);
    }
  }

  /** Upper-casing leaves a string without lower-case letters as it is. */
  lemma UpperIdentity(s: string)
    requires forall i :: 0 <= i < |s| ==> !('a' <= s[i] <= 'z')
    ensures UpperString(s) == s
  {
  }

  /** A rendered triple has no lower-case letters, so upper-casing keeps it. */
  lemma RenderUpper(g: Groups)
    requires WellFormed(g)
    ensures UpperString(Render(g)) == Render(g)
  {
    var u := Render(g);
    var tail := if g.fraction.Some? then "." + g.fraction.value else "";
    assert u == g.sign + g.whole + tail;
    forall i | 0 <= i < |u|
      ensures !('a' <= u[i] <= 'z')
    {
      if |g.sign| <= i < |g.sign| + |g.whole| {
        assert u[i] == g.whole[i - |g.sign|];
      } else if |g.sign| + |g.whole| < i {
        assert u[i] == g.fraction.value[i - |g.sign| - |g.whole| - 1];
      }
    }
    UpperIdentity(u);
  }

  /** The fraction text the parser produces ("0." and digits) is itself a
      number the parser accepts, with the same fraction: the fractional
      converters may parse it again. */
  lemma FractionReparse(n: string)
    requires ParseNum(n).Some?
    ensures var f := ParseNum(n).value.fraction;
            ParseNum(f).Some? && ParseNum(f).value.fraction == f
  {
    var f := ParseNum(n).value.fraction;
    FractionParses(f[2..]);
    assert "0." + f[2..] == f;
  }

  /** "0." followed by a digit run parses with that very fraction. */
  lemma FractionParses(ds: string)
    requires IsDigitRun(ds)
    ensures ParseNum("0." + ds) == Some(Parsed("0", "0." + ds, false))
  {
    var f := "0." + ds;
    var g := Groups("", "0", Some(ds));
    assert Render(g) == f;
    assert forall i :: 0 <= i < |f| ==> !('a' <= f[i] <= 'z') by {
      forall i | 0 <= i < |f|
        ensures !('a' <= f[i] <= 'z')
      {
        if i >= 2 {
          assert f[i] == ds[i - 2];
        }
      }
    }
    UpperIdentity(f);
    ParseAccepts(f, g);
  }

  /** Upper-casing does not change a character's digit value. */
  lemma UpperValue(c: char)
    ensures LetterToNumber(Upper(c)) == LetterToNumber(c)
  {
    assert Upper(Upper(c)) == Upper(c);
  }

  /** A digit of the parsed parts at position j of their concatenation u is a
      digit of the input n at the same position. */
  lemma DigitAt(n: string, u: string, j: int, d: char, b: int)
    requires u == UpperString(n) && 0 <= j < |u| && u[j] == d && IsDigitChar(d) && LetterToNumber(d) >= b
    ensures IsDigitChar(Upper(n[j])) && LetterToNumber(n[j]) >= b
  {
    UpperValue(n[j]);
  }

  /** Digits of the parts are digits of the input they were cut from. */
  lemma PartDigitsInInput(n: string, sign: string, w: string, ds: string, dot: bool, b: int)
    requires UpperString(n) == sign + w + (if dot then "." + ds else "")
    requires IsDigitRun(w) && (dot ==> IsDigitRun(ds)) && (!dot ==> ds == "0")
    requires SomeDigitAtLeast(w, b) || SomeDigitAtLeast(ds, b)
    ensures exists k :: 0 <= k < |n| && IsDigitChar(Upper(n[k])) && LetterToNumber(n[k]) >= b
  {
    var u := UpperString(n);
    if b <= 0 {
      assert u[|sign|] == w[0];
      DigitAt(n, u, |sign|, w[0], b);
    } else if SomeDigitAtLeast(w, b) {
      var k :| 0 <= k < |w| && LetterToNumber(w[k]) >= b;
      assert u[|sign| + k] == w[k];
      DigitAt(n, u, |sign| + k, w[k], b);
    } else {
      var k :| 0 <= k < |ds| && LetterToNumber(ds[k]) >= b;
      assert u[|sign| + |w| + 1 + k] == ds[k];
      DigitAt(n, u, |sign| + |w| + 1 + k, ds[k], b);
    }
  }

  /** Digits of the input are digits of the parts: the sign and the dot are
      not digit characters. */
  lemma InputDigitsInParts(n: string, sign: string, w: string, ds: string, dot: bool, k: int, b: int)
    requires UpperString(n) == sign + w + (if dot then "." + ds else "")
    requires sign == "" || sign == "+" || sign == "-"
    requires 0 <= k < |n| && IsDigitChar(Upper(n[k])) && LetterToNumber(n[k]) >= b
    ensures SomeDigitAtLeast(w, b) || SomeDigitAtLeast(ds, b)
  {
    var u := UpperString(n);
    UpperValue(n[k]);
    assert u[k] == Upper(n[k]);
    if |sign| <= k < |sign| + |w| {
      assert u[k] == w[k - |sign|];
    } else if k >= |sign| + |w| {
      var off := |sign| + |w| + 1;
      assert dot && u[|sign| + |w|] == '.' && k >= off;
      assert u[k] == ds[k - off];
    }
  }

  /** Some digit of the parsed integer or fraction digits is not below b
      exactly when some digit character of the input itself is not: the
      parser drops only the sign and the dot. */
  lemma ParsedDigits(n: string, b: int)
    requires ParseNum(n).Some?
    ensures var p := ParseNum(n).value;
            (SomeDigitAtLeast(p.whole, b) || SomeDigitAtLeast(p.fraction[2..], b))
            <==> exists k :: 0 <= k < |n| && IsDigitChar(Upper(n[k])) && LetterToNumber(n[k]) >= b
  {
    var p := ParseNum(n).value;
    var g := FullMatch(UpperString(n)).value;
    ParsedSign(n, g);
    var sign, w, ds, dot := SignOf(n), p.whole, p.fraction[2..], '.' in n;
    assert UpperString(n) == sign + w + (if dot then "." + ds else "");
    assert !dot ==> ds == "0";
    if SomeDigitAtLeast(w, b) || SomeDigitAtLeast(ds, b) {
      PartDigitsInInput(n, sign, w, ds, dot, b);
    }
    if k :| 0 <= k < |n| && IsDigitChar(Upper(n[k])) && LetterToNumber(n[k]) >= b {
      InputDigitsInParts(n, sign, w, ds, dot, k, b);
    }
  }

  /** _check_str: the input is a number the parser accepts */
  function CheckStr(s: string): (ok: bool)
    ensures ok <==> exists g :: WellFormed(g) && Render(g) == UpperString(s)
  {
    AcceptsExactly(s);
    ParseNum(s) != None
  }
}
