/** The fractional converters. Their floating-point arithmetic is not
    interpreted: it enters as the two functions of FloatOps. What is modelled
    exactly is the digit check of _float_to_base10 and the rounding and carry
    tail of _float_from_base10, an integer fold over the digit list. */
module FractionConverter {
  import opened Common
  import opened DigitCodec
  import opened Parser
  import opened IntegerConverter

  /** The floating-point parts, as uninterpreted functions:
      sumDigits(fromBase, digits, accuracy) is the float sum of the fraction
      digits, rounded and formatted with `accuracy` places (the result of
      _float_to_base10 once its digit check passed); expand(toBase, text,
      accuracy) is float() of the parsed fraction followed by the
      digit-generation loop of _float_from_base10, giving the digit list r,
      or None when float() rejects the text. */
  datatype FloatOps = FloatOps(
    sumDigits: (int, string, int) -> string,
    expand: (int, string, int) -> Option<seq<nat>>)

  /** _float_to_base10: every fraction digit of n (a "0."-prefixed fraction
      that the parser accepts) must be below fromBase; the value itself is
      the uninterpreted float sum. */
  method FloatToBase10(fromBase: int, n: string, accuracy: int, ops: FloatOps)
    returns (r: Result<string>)
    requires ParseNum(n).Some?
    ensures var digits := ParseNum(n).value.fraction[2..];
            (r.Err? <==> SomeDigitAtLeast(digits, fromBase))
            && (r.Err? ==> r.error == InvalidConversion(fromBase, 10, n))
            && (r.Ok? ==> r.value == ops.sumDigits(fromBase, digits, accuracy))
  {
    var digits := ParseNum(n).value.fraction[2..];
    var ok := DigitsBelow(fromBase, digits);
    if !ok {
      return Err(InvalidConversion(fromBase, 10, n));
    }
    return Ok(ops.sumDigits(fromBase, digits, accuracy));
  }

  /** The digit check of the _float_to_base10 loop: every digit is below
      fromBase; the loop stops at the first one that is not. */
  method DigitsBelow(fromBase: int, digits: string) returns (ok: bool)
    ensures ok <==> !SomeDigitAtLeast(digits, fromBase)
  {
    var j := 0;
    while j < |digits|
      invariant 0 <= j <= |digits|
      invariant forall k :: 0 <= k < j ==> LetterToNumber(digits[k]) < fromBase
    {
      var t := LetterToNumber(digits[j]);
      if t >= fromBase {
        return false;
      }
      j := j + 1;
    }
    return true;
  }

  /** Every digit value is below the base */
  predicate AllBelow(ds: seq<nat>, b: int)
  {
    forall i :: 0 <= i < |ds| ==> ds[i] < b
  }

  /** One position of the carry fold: add the incoming carry; a sum that
      reaches the base is reduced modulo the base and carries one. */
  function Step(d: nat, carry: nat, b: int): (nat, nat)
    requires 2 <= b <= 36
  {
    if d + carry >= b then (LowDigit(d + carry, b), 1) else (d + carry, 0)
  }

  /** The carry rippled through ds from the least significant (last) digit to
      the most significant one: the new digits and the carry left over. */
  function Propagate(ds: seq<nat>, carry: nat, b: int): (r: (seq<nat>, nat))
    requires 2 <= b <= 36
    decreases |ds|
  {
    if ds == [] then ([], carry)
    else
      var (d, c) := Step(ds[|ds| - 1], carry, b);
      var (hi, out) := Propagate(ds[..|ds| - 1], c, b);
      (hi + [d], out)
  }

  lemma {:induction false} PropagateShape(ds: seq<nat>, carry: nat, b: int)
    requires 2 <= b <= 36
    ensures var r := Propagate(ds, carry, b);
            |r.0| == |ds| && (forall i :: 0 <= i < |ds| ==> r.0[i] < b) && (carry <= 1 ==> r.1 <= 1)
  {
    if ds != [] {
      var (d, c) := Step(ds[|ds| - 1], carry, b);
      PropagateShape(ds[..|ds| - 1], c, b);
    }
  }

  /** Whether the digit list overran the precision: then its last digit is
      only a rounding digit. */
  predicate Overran(r: seq<nat>, accuracy: int)
  {
    |r| > accuracy && |r| > 0
  }

  /** The digits that are emitted: all but the rounding digit */
  function Kept(r: seq<nat>, accuracy: int): seq<nat>
  {
    if Overran(r, accuracy) then r[..|r| - 1] else r
  }

  /** The carry the rounding digit starts: one when it is at least half the base */
  function RoundingCarry(b: int, r: seq<nat>, accuracy: int): nat
  {
    if Overran(r, accuracy) && 2 * r[|r| - 1] >= b then 1 else 0
  }

  /** The emitted digits after rounding; the carry out of the most
      significant digit is dropped. */
  function RoundedDigits(b: int, r: seq<nat>, accuracy: int): (out: seq<nat>)
    requires 2 <= b <= 36
    ensures |out| == |Kept(r, accuracy)|
    ensures forall i :: 0 <= i < |out| ==> out[i] < b
  {
    PropagateShape(Kept(r, accuracy), RoundingCarry(b, r, accuracy), b);
    Propagate(Kept(r, accuracy), RoundingCarry(b, r, accuracy), b).0
  }

  /** The carry that falls off the most significant digit and is lost */
  function LostCarry(b: int, r: seq<nat>, accuracy: int): nat
    requires 2 <= b <= 36
  {
    Propagate(Kept(r, accuracy), RoundingCarry(b, r, accuracy), b).1
  }

  /** The number a digit list denotes in base b, most significant first */
  function DigitValue(ds: seq<nat>, b: int): int
  {
    if ds == [] then 0 else DigitValue(ds[..|ds| - 1], b) * b + ds[|ds| - 1]
  }

  /** A digit below the base plus a carry of at most one is the new digit
      plus the new carry times the base. */
  lemma StepValue(x: nat, carry: nat, b: int)
    requires 2 <= b <= 36 && x < b && carry <= 1
    ensures var (d, c) := Step(x, carry, b);
            x + carry == d + c * b && d < b && c <= 1
  {
    if x + carry >= b {
      DivModUnique(1, x + carry - b, b);
    }
  }

  lemma Distribute(h: int, o: int, p: int, b: int, d: int)
    ensures (h + o * p) * b + d == h * b + d + o * (b * p)
  {
  }

  lemma DistributeCarry(v: int, c: int, b: int, d: int)
    ensures (v + c) * b + d == v * b + (d + c * b)
  {
  }

  /** The fold adds the carry to the number the digits denote; whatever does
      not fit in |ds| digits comes out as the final carry. */
  lemma {:induction false} PropagateValue(ds: seq<nat>, carry: nat, b: int)
    requires 2 <= b <= 36 && AllBelow(ds, b) && carry <= 1
    ensures var (out, c) := Propagate(ds, carry, b);
            DigitValue(out, b) + c * Pow(b, |ds|) == DigitValue(ds, b) + carry
  {
    if ds != [] {
      var p, x := ds[..|ds| - 1], ds[|ds| - 1];
      var step := Step(x, carry, b);
      var d, c1 := step.0, step.1;
      StepValue(x, carry, b);
      PropagateValue(p, c1, b);
      var rest := Propagate(p, c1, b);
      var hi, out := rest.0, rest.1;
      var h, pw, v := DigitValue(hi, b), Pow(b, |p|), DigitValue(p, b);
      assert h + out * pw == v + c1;
      assert Propagate(ds, carry, b) == (hi + [d], out);
      assert (hi + [d])[..|hi|] == hi;
      assert DigitValue(hi + [d], b) == h * b + d;
      assert Pow(b, |ds|) == b * pw;
      assert DigitValue(ds, b) == v * b + x;
      Distribute(h, out, pw, b, d);
      DistributeCarry(v, c1, b, d);
    }
  }

  /** With no carry, digits below the base come through unchanged. */
  lemma {:induction false} PropagateIdentity(ds: seq<nat>, b: int)
    requires 2 <= b <= 36 && AllBelow(ds, b)
    ensures Propagate(ds, 0, b) == (ds, 0)
  {
    if ds != [] {
      PropagateIdentity(ds[..|ds| - 1], b);
      assert ds[..|ds| - 1] + [ds[|ds| - 1]] == ds;
    }
  }

  /** A carry into digits that are all b - 1 turns them all to 0 and comes
      out again. */
  lemma {:induction false} PropagateOverflow(ds: seq<nat>, b: int)
    requires 2 <= b <= 36
    requires forall i :: 0 <= i < |ds| ==> ds[i] == b - 1
    ensures var (out, c) := Propagate(ds, 1, b);
            c == 1 && |out| == |ds| && forall i :: 0 <= i < |out| ==> out[i] == 0
  {
    if ds != [] {
      DivModUnique(1, 0, b);
      assert Step(ds[|ds| - 1], 1, b) == (0, 1);
      PropagateOverflow(ds[..|ds| - 1], b);
    }
  }

  /** A digit list within the precision is emitted as it is. */
  lemma RoundedWhenExact(b: int, r: seq<nat>, accuracy: int)
    requires 2 <= b <= 36 && AllBelow(r, b) && |r| <= accuracy
    ensures RoundedDigits(b, r, accuracy) == r
    ensures LostCarry(b, r, accuracy) == 0
  {
    PropagateIdentity(r, b);
  }

  /** An overrun list loses its last digit, which rounds the rest half up:
      the emitted digits plus the lost carry are the kept digits plus one
      exactly when the rounding digit is at least half the base. */
  lemma RoundedValue(b: int, r: seq<nat>, accuracy: int)
    requires 2 <= b <= 36 && AllBelow(r, b) && Overran(r, accuracy)
    ensures |RoundedDigits(b, r, accuracy)| == |r| - 1
    ensures DigitValue(RoundedDigits(b, r, accuracy), b) + LostCarry(b, r, accuracy) * Pow(b, |r| - 1)
            == DigitValue(r[..|r| - 1], b) + (if 2 * r[|r| - 1] >= b then 1 else 0)
  {
    PropagateValue(r[..|r| - 1], RoundingCarry(b, r, accuracy), b);
  }

  /** The source generates at most accuracy + 1 digits, so at most accuracy
      are emitted. */
  lemma RoundedLength(b: int, r: seq<nat>, accuracy: int)
    requires 2 <= b <= 36 && 0 <= accuracy && |r| <= accuracy + 1
    ensures |RoundedDigits(b, r, accuracy)| <= accuracy
    ensures |r| <= accuracy ==> |RoundedDigits(b, r, accuracy)| == |r|
  {
  }

  /** Rounding up kept digits that are all b - 1 gives all zeros, and the
      carry out of the first digit is lost: it never reaches the integer part. */
  lemma RoundedOverflowLost(b: int, r: seq<nat>, accuracy: int)
    requires 2 <= b <= 36 && Overran(r, accuracy) && 2 * r[|r| - 1] >= b
    requires forall i :: 0 <= i < |r| - 1 ==> r[i] == b - 1
    ensures forall i :: 0 <= i < |RoundedDigits(b, r, accuracy)| ==> RoundedDigits(b, r, accuracy)[i] == 0
    ensures LostCarry(b, r, accuracy) == 1
  {
    PropagateOverflow(r[..|r| - 1], b);
  }

  /** Digit values written as upper-case digit characters: the text reads
      back, digit by digit, as the values, and upper-casing leaves it as it is. */
  function Spell(ds: seq<nat>): (s: string)
    requires forall i :: 0 <= i < |ds| ==> ds[i] <= 35
    ensures |s| == |ds|
    ensures forall i :: 0 <= i < |ds| ==> s[i] == NumberToLetter(ds[i])
    ensures forall i :: 0 <= i < |s| ==> IsDigitChar(s[i]) && LetterToNumber(s[i]) == ds[i]
    ensures UpperString(s) == s
    ensures ds != [] ==> IsDigitRun(s)
  {
    seq(|ds|, i requires 0 <= i < |ds| => NumberToLetter(ds[i]))
  }

  /** Where the tail's fold starts: the whole list with no carry, or all but
      the overrun digit with the carry that digit decides. */
  lemma FoldStart(b: int, r: seq<nat>, accuracy: int)
    requires 2 <= b <= 36
    ensures |r| <= accuracy ==> RoundedDigits(b, r, accuracy) == Propagate(r[..|r|], 0, b).0
    ensures |r| > accuracy && r != [] ==>
              RoundedDigits(b, r, accuracy)
              == Propagate(r[..|r| - 1], if 2 * r[|r| - 1] >= b then 1 else 0, b).0
  {
    assert r[..|r|] == r;
  }

  /** One round of the tail loop past the rounding digit: the digit still to
      do that is nearest the end goes through Step, in front of the digits
      already done, and its character onto the reversed text. */
  lemma CarryStep(b: int, r: seq<nat>, i: nat, m: nat, done: seq<nat>, lo: seq<nat>, ans: string)
    requires 2 <= b <= 36 && i < |r| && m <= 1
    requires done == Propagate(r[..|r| - i], m, b).0 + lo
    requires AllBelow(lo, b)
    requires Reverse(ans) == Spell(lo)
    ensures var (d, c) := Step(r[|r| - 1 - i], m, b);
            AllBelow([d] + lo, b) && c <= 1
            && done == Propagate(r[..|r| - (i + 1)], c, b).0 + ([d] + lo)
            && Reverse(ans + [NumberToLetter(d)]) == Spell([d] + lo)
  {
    var pre := r[..|r| - i];
    assert pre[..|pre| - 1] == r[..|r| - (i + 1)];
    var (d, c) := Step(r[|r| - 1 - i], m, b);
    ReverseAppend(ans, NumberToLetter(d));
  }

  /** The tail of _float_from_base10 (from `round_ = len(r) > accuracy`):
      walk r from its last digit, let an overrun last digit only set the
      carry, add the carry to each digit in turn, and spell the result most
      significant first. */
  method RoundAndCarry(toBase: int, r: seq<nat>, accuracy: int) returns (text: string)
    requires 2 <= toBase <= 36
    ensures text == Spell(RoundedDigits(toBase, r, accuracy))
  {
    ghost var done := RoundedDigits(toBase, r, accuracy);
    FoldStart(toBase, r, accuracy);
    ghost var lo: seq<nat> := [];
    var round := |r| > accuracy;
    var m: nat := 0;
    var ans := "";
    var i := 0;
    while i < |r|
      invariant 0 <= i <= |r|
      invariant round <==> |r| > accuracy && i == 0
      invariant round ==> m == 0 && lo == [] && ans == ""
      invariant m <= 1
      invariant !round ==> done == Propagate(r[..|r| - i], m, toBase).0 + lo
      invariant AllBelow(lo, toBase)
      invariant Reverse(ans) == Spell(lo)
    {
      var n: nat := r[|r| - 1 - i];
      if round {
        if 2 * r[|r| - 1] >= toBase {
          m := 1;
        }
        round := false;
      } else {
        CarryStep(toBase, r, i, m, done, lo, ans);
        ghost var step := Step(n, m, toBase);
        n := n + m;
        m := 0;
        if n >= toBase {
          m := 1;
          n := LowDigit(n, toBase);
        }
        assert n == step.0 && m == step.1;
        ans := ans + [NumberToLetter(n)];
        lo := [n] + lo;
      }
      i := i + 1;
    }
    text := Reverse(ans);
  }

  /** _float_from_base10 on a string: the uninterpreted float part yields the
      digit list (or fails as float() does), and the tail rounds it. */
  method FloatFromBase10(toBase: int, n: string, accuracy: int, ops: FloatOps)
    returns (r: Result<string>)
    requires 2 <= toBase <= 36
    ensures ops.expand(toBase, n, accuracy).None? ==> r == Err(InvalidConversion(10, toBase, n))
    ensures ops.expand(toBase, n, accuracy).Some? ==>
              r == Ok(Spell(RoundedDigits(toBase, ops.expand(toBase, n, accuracy).value, accuracy)))
  {
    var digits := ops.expand(toBase, n, accuracy);
    if digits.None? {
      return Err(InvalidConversion(10, toBase, n));
    }
    var text := RoundAndCarry(toBase, digits.value, accuracy);
    return Ok(text);
  }
}
