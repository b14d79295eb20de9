/**
 How a finite number is printed. A number is its sign, its shortest decimal
 digits and the position of the decimal point: the value is
 0.d1d2...dk times ten to the power `point`. Which digits a binary double has is not
 modelled; how they are laid out, and that the layout can be read back, is.
 */
module NumberText {
  import opened Text

  datatype Number =
    | Zero(negative: bool)
    | Nonzero(negative: bool, digits: Text, point: int)

  const POINT: Unit := 46
  const EXPONENT: Unit := 101
  const PLUS: Unit := 43
  const ZERO: Unit := 48

  /** The digits are nonempty and have no zero at either end. */
  predicate Canonical(x: Number) {
    x.Nonzero? ==>
      && |x.digits| > 0
      && (forall u <- x.digits :: IsDigit(u))
      && x.digits[0] != ZERO
      && x.digits[|x.digits| - 1] != ZERO
  }

  predicate IsNumberUnit(u: Unit) {
    IsDigit(u) || u == POINT || u == EXPONENT || u == PLUS || u == MINUS
  }

  function Zeros(n: nat): (t: Text)
    ensures |t| == n
    ensures forall u <- t :: u == ZERO
  {
    seq(n, _ => ZERO)
  }

  /** An exponent with its sign always written. */
  function SignedText(i: int): (t: Text)
    ensures |t| > 1
    ensures forall u <- t[1..] :: IsDigit(u)
    ensures t[0] == MINUS || t[0] == PLUS
  {
    if i < 0 then [MINUS] + Decimal(-i) else [PLUS] + Decimal(i)
  }

  /** The four layouts of Number::toString (section 6.1.6.1.20 of ECMA-262). */
  function Magnitude(digits: Text, point: int): Text
    requires |digits| > 0
  {
    if |digits| <= point <= 21 then digits + Zeros(point - |digits|)
    else if 0 < point <= 21 then digits[..point] + [POINT] + digits[point..]
    else if -6 < point <= 0 then [ZERO, POINT] + (Zeros(-point) + digits)
    else if |digits| == 1 then digits + [EXPONENT] + SignedText(point - 1)
    else digits[..1] + [POINT] + digits[1..] + [EXPONENT] + SignedText(point - 1)
  }

  function Print(x: Number): Text
    requires Canonical(x)
  {
    match x
    case Zero(negative) => if negative then [MINUS, ZERO] else [ZERO]
    case Nonzero(negative, digits, point) =>
      (if negative then [MINUS] else []) + Magnitude(digits, point)
  }

  // ---------------------------------------------------------------- reading

  function IndexOf(t: Text, u: Unit): (n: nat)
    ensures n <= |t|
  {
    if |t| == 0 || t[0] == u then 0 else 1 + IndexOf(t[1..], u)
  }

  function SignedValue(t: Text): int
    requires |t| > 0
  {
    if t[0] == MINUS then -DigitsValue(t[1..]) else DigitsValue(t[1..])
  }

  /** Drops zeros at both ends, moving the point with the leading ones. */
  function Normalise(digits: Text, point: int): (Text, int)
    decreases |digits|
  {
    if |digits| == 0 then (digits, point)
    else if digits[0] == ZERO then Normalise(digits[1..], point - 1)
    else if digits[|digits| - 1] == ZERO then Normalise(digits[..|digits| - 1], point)
    else (digits, point)
  }

  function Mantissa(t: Text): Text {
    t[..IndexOf(t, EXPONENT)]
  }

  function ExponentOf(t: Text): int {
    var e := IndexOf(t, EXPONENT);
    if e + 1 < |t| then SignedValue(t[e + 1..]) else 0
  }

  /** The digits of `whole.fraction` and where its point stands. */
  function Parts(mantissa: Text): (Text, nat) {
    var d := IndexOf(mantissa, POINT);
    (mantissa[..d] + (if d < |mantissa| then mantissa[d + 1..] else []), d)
  }

  /** Reads plain or scientific notation. */
  function ReadMagnitude(t: Text): (Text, int) {
    var parts := Parts(Mantissa(t));
    Normalise(parts.0, parts.1 + ExponentOf(t))
  }

  function Read(t: Text): Number {
    if t == [ZERO] then Zero(false)
    else if t == [MINUS, ZERO] then Zero(true)
    else if |t| > 0 && t[0] == MINUS then
      var r := ReadMagnitude(t[1..]); Nonzero(true, r.0, r.1)
    else
      var r := ReadMagnitude(t); Nonzero(false, r.0, r.1)
  }

  // ---------------------------------------------------------------- proofs

  lemma {:induction false} IndexOfAbsent(t: Text, u: Unit)
    requires u !in t
    ensures IndexOf(t, u) == |t|
  {
    if |t| > 0 {
      IndexOfAbsent(t[1..], u);
    }
  }

  lemma {:induction false} IndexOfFirst(a: Text, u: Unit, b: Text)
    requires u !in a
    ensures IndexOf(a + [u] + b, u) == |a|
  {
    var t := a + [u] + b;
    if |a| > 0 {
      IndexOfFirst(a[1..], u, b);
      assert t[1..] == a[1..] + [u] + b;
      assert t[0] == a[0];
    } else {
      assert t[0] == u;
    }
  }

  lemma SignedTextValue(i: int)
    ensures SignedValue(SignedText(i)) == i
  {
    DecimalValue(if i < 0 then -i else i);
    assert SignedText(i)[1..] == Decimal(if i < 0 then -i else i);
  }

  /** Padding canonical digits with zeros does not change what they normalise to. */
  lemma {:induction false} NormalisePadded(before: nat, digits: Text, after: nat, point: int)
    requires Canonical(Nonzero(false, digits, point))
    ensures Normalise(Zeros(before) + digits + Zeros(after), point) == (digits, point - before)
    decreases before + after
  {
    var t := Zeros(before) + digits + Zeros(after);
    if before > 0 {
      NormalisePadded(before - 1, digits, after, point - 1);
      assert t[1..] == Zeros(before - 1) + digits + Zeros(after);
      assert t[0] == ZERO;
    } else if after > 0 {
      NormalisePadded(before, digits, after - 1, point);
      assert t[..|t| - 1] == Zeros(before) + digits + Zeros(after - 1);
      assert t[0] == digits[0];
    } else {
      assert t == digits;
    }
  }

  lemma SplitDigits(digits: Text, at: nat)
    requires at <= |digits| && forall u <- digits :: IsDigit(u)
    ensures POINT !in digits[..at]
    ensures EXPONENT !in digits[..at] + [POINT] + digits[at..]
  {
    forall u | u in digits[..at] || u in digits[at..]
      ensures IsDigit(u)
    {
      assert u in digits;
    }
  }

  lemma PlainMantissa(m: Text)
    requires EXPONENT !in m
    ensures Mantissa(m) == m && ExponentOf(m) == 0
  {
    IndexOfAbsent(m, EXPONENT);
  }

  lemma ScientificMantissa(m: Text, exponent: int)
    requires EXPONENT !in m
    ensures Mantissa(m + [EXPONENT] + SignedText(exponent)) == m
    ensures ExponentOf(m + [EXPONENT] + SignedText(exponent)) == exponent
  {
    var t := m + [EXPONENT] + SignedText(exponent);
    IndexOfFirst(m, EXPONENT, SignedText(exponent));
    assert t[|m| + 1..] == SignedText(exponent);
    assert t[..|m|] == m;
    SignedTextValue(exponent);
  }

  lemma WholeParts(whole: Text)
    requires POINT !in whole
    ensures Parts(whole) == (whole, |whole|)
  {
    IndexOfAbsent(whole, POINT);
    assert whole[..|whole|] + [] == whole;
  }

  lemma FractionParts(whole: Text, fraction: Text)
    requires POINT !in whole
    ensures Parts(whole + [POINT] + fraction) == (whole + fraction, |whole|)
  {
    var t := whole + [POINT] + fraction;
    IndexOfFirst(whole, POINT, fraction);
    assert t[..|whole|] == whole;
    assert t[|whole| + 1..] == fraction;
  }

  lemma ReadInteger(digits: Text, point: int)
    requires Canonical(Nonzero(false, digits, point)) && |digits| <= point
    ensures ReadMagnitude(digits + Zeros(point - |digits|)) == (digits, point)
  {
    var t := digits + Zeros(point - |digits|);
    assert forall u <- t :: IsDigit(u);
    PlainMantissa(t);
    WholeParts(t);
    NormalisePadded(0, digits, point - |digits|, point);
    assert t == Zeros(0) + digits + Zeros(point - |digits|);
  }

  lemma ReadMixed(digits: Text, point: int)
    requires Canonical(Nonzero(false, digits, point)) && 0 < point < |digits|
    ensures ReadMagnitude(digits[..point] + [POINT] + digits[point..]) == (digits, point)
  {
    var whole, fraction := digits[..point], digits[point..];
    SplitDigits(digits, point);
    PlainMantissa(whole + [POINT] + fraction);
    FractionParts(whole, fraction);
    assert whole + fraction == digits;
  }

  lemma ReadFraction(digits: Text, point: int)
    requires Canonical(Nonzero(false, digits, point)) && point <= 0
    ensures ReadMagnitude([ZERO, POINT] + (Zeros(-point) + digits)) == (digits, point)
  {
    var fraction := Zeros(-point) + digits;
    var t := [ZERO] + [POINT] + fraction;
    assert [ZERO, POINT] + fraction == t;
    assert forall u <- fraction :: IsDigit(u);
    PlainMantissa(t);
    FractionParts([ZERO], fraction);
    NormalisePadded(1 - point, digits, 0, 1);
    assert [ZERO] + fraction == Zeros(1 - point) + digits + Zeros(0);
  }

  lemma ReadScientific(digits: Text, point: int, mantissa: Text)
    requires Canonical(Nonzero(false, digits, point))
    requires mantissa == if |digits| == 1 then digits else digits[..1] + [POINT] + digits[1..]
    ensures ReadMagnitude(mantissa + [EXPONENT] + SignedText(point - 1)) == (digits, point)
  {
    SplitDigits(digits, 1);
    ScientificMantissa(mantissa, point - 1);
    if |digits| == 1 {
      WholeParts(digits);
    } else {
      FractionParts(digits[..1], digits[1..]);
      assert digits[..1] + digits[1..] == digits;
    }
  }

  lemma ReadPrintedMagnitude(digits: Text, point: int)
    requires Canonical(Nonzero(false, digits, point))
    ensures ReadMagnitude(Magnitude(digits, point)) == (digits, point)
  {
    if |digits| <= point <= 21 {
      ReadInteger(digits, point);
    } else if 0 < point <= 21 {
      ReadMixed(digits, point);
    } else if -6 < point <= 0 {
      ReadFraction(digits, point);
    } else {
      ReadScientific(digits, point, if |digits| == 1 then digits else digits[..1] + [POINT] + digits[1..]);
    }
  }

  lemma MagnitudeUnits(digits: Text, point: int)
    requires Canonical(Nonzero(false, digits, point))
    ensures forall u <- Magnitude(digits, point) :: IsNumberUnit(u)
    ensures |Magnitude(digits, point)| > 0 && IsDigit(Magnitude(digits, point)[0])
    ensures Magnitude(digits, point) != [ZERO]
  {
    var s := SignedText(point - 1);
    assert s == [s[0]] + s[1..];
  }

  /** Printed numbers stay inside the number alphabet, so a separator ends them. */
  lemma PrintUnits(x: Number)
    requires Canonical(x)
    ensures |Print(x)| > 0
    ensures forall u <- Print(x) :: IsNumberUnit(u)
  {
    if x.Nonzero? {
      MagnitudeUnits(x.digits, x.point);
    }
  }

  /** Printing loses nothing: the text determines sign, digits and point. */
  lemma ReadPrint(x: Number)
    requires Canonical(x)
    ensures Read(Print(x)) == x
  {
    if x.Nonzero? {
      var m := Magnitude(x.digits, x.point);
      MagnitudeUnits(x.digits, x.point);
      ReadPrintedMagnitude(x.digits, x.point);
      if x.negative {
        assert Print(x)[1..] == m;
        assert Print(x)[0] == MINUS;
        assert Print(x) != [ZERO];
        assert [MINUS, ZERO][1..] == [ZERO];
      } else {
        assert Print(x) == m;
        assert m[0] != MINUS;
      }
    }
  }
}
