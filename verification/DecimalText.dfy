/**
 When the text of a decimal is the same on every engine: the conversion that switches to scientific notation
 against plain fixed point.
 */
module DecimalText {
  import opened Common

  const MAX_PORTABLE_DECIMAL_SCALE := 6

  /** `_decimal_text_is_portable`, for a decimal type of this scale. */
  predicate ScaleIsPortable(scale: int) {
    0 <= scale <= MAX_PORTABLE_DECIMAL_SCALE
  }

  function Zeros(n: nat): string {
    if n == 0 then "" else Zeros(n - 1) + "0"
  }

  function Abs(c: int): nat {
    if c < 0 then -c else c
  }

  function Sign(c: int): string {
    if c < 0 then "-" else ""
  }

  function SignedText(e: int): string {
    (if e < 0 then "-" else "+") + NatText(Abs(e))
  }

  // ----- the "to-scientific-string" conversion of the General Decimal Arithmetic specification -----

  /** A coefficient with `scale` digits after the point; the exponent is -scale. */
  function ToScientific(coefficient: int, scale: int): string {
    Sign(coefficient) + Unsigned(NatText(Abs(coefficient)), -scale)
  }

  function Unsigned(digits: string, exponent: int): string
    requires digits != []
  {
    var adjusted := exponent + |digits| - 1;
    if exponent <= 0 && adjusted >= -6 then
      if exponent == 0 then digits
      else if |digits| > -exponent then digits[..|digits| + exponent] + "." + digits[|digits| + exponent..]
      else "0." + Zeros(-exponent - |digits|) + digits
    else
      (if |digits| == 1 then digits else digits[..1] + "." + digits[1..]) + "E" + SignedText(adjusted)
  }

  // ----- fixed point by division and remainder -----

  function Div(c: nat, m: nat): nat
    requires m > 0
  {
    c / m
  }

  function Mod(c: nat, m: nat): nat
    requires m > 0
  {
    c % m
  }

  /** divmod(c, 10 ** s). */
  function Quotient(c: nat, s: nat): nat {
    Div(c, Pow10(s))
  }

  function Remainder(c: nat, s: nat): nat {
    Mod(c, Pow10(s))
  }

  /** The last `width` digits of n. */
  function Padded(n: nat, width: nat): (s: string)
    ensures |s| == width
  {
    if width == 0 then "" else Padded(n / 10, width - 1) + [Digit(n % 10)]
  }

  function Scaled(c: nat, zeros: nat): nat {
    if zeros == 0 then c else 10 * Scaled(c, zeros - 1)
  }

  function ToFixed(coefficient: int, scale: int): string {
    var c := Abs(coefficient);
    Sign(coefficient)
    + if scale <= 0 then NatText(Scaled(c, -scale))
      else NatText(Quotient(c, scale)) + "." + Padded(Remainder(c, scale), scale)
  }

  // ----- dividing by ten drops the last digit -----

  lemma DivTen(c: nat, s: nat)
    requires s > 0
    ensures Quotient(c, s) == Quotient(c / 10, s - 1)
    ensures Remainder(c, s) / 10 == Remainder(c / 10, s - 1)
    ensures Remainder(c, s) % 10 == c % 10
  {
    var p := Pow10(s - 1);
    var q, r := (c / 10) / p, (c / 10) % p;
    assert c / 10 == q * p + r;
    var d := c % 10;
    assert c == 10 * (q * p + r) + d;
    assert c == q * (10 * p) + (10 * r + d) by {
      assert 10 * (q * p) == q * (10 * p);
    }
    QuotientIs(c, 10 * p, q, 10 * r + d);
    assert (10 * r + d) / 10 == r && (10 * r + d) % 10 == d;
  }

  lemma MulSteps(a: nat, b: nat, m: nat)
    requires a < b
    ensures a * m + m <= b * m
  {
    assert b * m == (b - a) * m + a * m;
    assert (b - a - 1) * m >= 0;
    assert (b - a) * m == (b - a - 1) * m + m;
  }

  lemma QuotientIs(c: nat, m: nat, q: nat, r: nat)
    requires m > 0 && c == q * m + r && r < m
    ensures c / m == q && c % m == r
  {
    var x, y := c / m, c % m;
    assert c == x * m + y;
    if x < q {
      MulSteps(x, q, m);
    } else if x > q {
      MulSteps(q, x, m);
    }
  }

  /** A number of at least ten is written as a tenth of it followed by its last digit. */
  lemma {:induction false} LastDigit(c: nat)
    requires c >= 10
    ensures NatText(c) == NatText(c / 10) + [Digit(c % 10)]
  {
  }

  lemma NoDigitsOff(c: nat)
    ensures Quotient(c, 0) == c && Padded(Remainder(c, 0), 0) == ""
  {
    assert Pow10(0) == 1;
  }

  /** More digits than the scale: the quotient is the front of the digits, the padded remainder the back. */
  lemma {:induction false} DigitsSplit(c: nat, s: nat)
    requires |NatText(c)| > s
    ensures var d := NatText(c);
            NatText(Quotient(c, s)) == d[..|d| - s] && Padded(Remainder(c, s), s) == d[|d| - s..]
    decreases s
  {
    var d := NatText(c);
    if s == 0 {
      NoDigitsOff(c);
      assert d[..|d|] == d && d[|d|..] == "";
    } else {
      DivTen(c, s);
      LastDigit(c);
      var tenth, digit := c / 10, Digit(c % 10);
      DigitsSplit(tenth, s - 1);
      var front := NatText(tenth);
      PaddedStep(Remainder(c, s), s);
      assert d[..|d| - s] == front[..|front| - (s - 1)];
      assert d[|d| - s..] == front[|front| - (s - 1)..] + [digit];
    }
  }

  lemma PaddedStep(n: nat, width: nat)
    requires width > 0
    ensures Padded(n, width) == Padded(n / 10, width - 1) + [Digit(n % 10)]
  {
  }

  /** No more digits than the scale: the quotient is zero and the remainder is the digits after leading zeros. */
  lemma {:induction false} DigitsPadded(c: nat, s: nat)
    requires |NatText(c)| <= s
    ensures Quotient(c, s) == 0 && Remainder(c, s) == c
    ensures Padded(c, s) == Zeros(s - |NatText(c)|) + NatText(c)
    decreases s
  {
    PaddedStep(c, s);
    if c < 10 {
      PowAtLeastTen(s);
      PaddedZero(s - 1);
      QuotientIs(c, Pow10(s), 0, c);
      assert NatText(c) == [Digit(c)];
    } else {
      LastDigit(c);
      var tenth := c / 10;
      DigitsPadded(tenth, s - 1);
      DivTen(c, s);
      RemainderOfSmall(c, Pow10(s));
      var zeros := Zeros(s - |NatText(c)|);
      assert zeros + (NatText(tenth) + [Digit(c % 10)]) == zeros + NatText(tenth) + [Digit(c % 10)];
    }
  }

  lemma RemainderOfSmall(c: nat, m: nat)
    requires m > 0 && c / m == 0
    ensures c % m == c
  {
  }

  lemma {:induction false} PowAtLeastTen(s: nat)
    requires s > 0
    ensures Pow10(s) >= 10
  {
  }

  lemma {:induction false} PaddedZero(s: nat)
    ensures Padded(0, s) == Zeros(s)
  {
    if s > 0 {
      PaddedZero(s - 1);
    }
  }

  // ----- where the two agree -----

  /** While the adjusted exponent is at least -6, the two renderings are the same digit for digit. */
  lemma PlainIsFixed(coefficient: int, scale: nat)
    requires scale == 0 || |NatText(Abs(coefficient))| - 1 - scale >= -6
    ensures ToScientific(coefficient, scale) == ToFixed(coefficient, scale)
  {
    var c := Abs(coefficient);
    var d := NatText(c);
    if scale == 0 {
    } else if |d| > scale {
      DigitsSplit(c, scale);
      assert ToFixed(coefficient, scale) == Sign(coefficient) + (d[..|d| - scale] + "." + d[|d| - scale..]);
    } else {
      DigitsPadded(c, scale);
      assert NatText(0) == "0";
      assert "0" + "." == "0.";
      assert ToFixed(coefficient, scale) == Sign(coefficient) + ("0" + "." + (Zeros(scale - |d|) + d));
      assert "0" + "." + (Zeros(scale - |d|) + d) == "0." + Zeros(scale - |d|) + d;
    }
  }

  /** Below that, the scientific form carries an `E`, which no fixed form does. */
  lemma ScientificHasExponent(coefficient: int, scale: int)
    requires scale < 0 || (scale > 0 && |NatText(Abs(coefficient))| - 1 - scale < -6)
    ensures 'E' in ToScientific(coefficient, scale)
  {
    var d := NatText(Abs(coefficient));
    var adjusted := -scale + |d| - 1;
    var front := if |d| == 1 then d else d[..1] + "." + d[1..];
    var text := Sign(coefficient) + (front + "E" + SignedText(adjusted));
    assert ToScientific(coefficient, scale) == text;
    assert text[|Sign(coefficient)| + |front|] == 'E';
  }

  lemma {:induction false} PaddedIsDigits(n: nat, width: nat)
    ensures forall i :: 0 <= i < width ==> IsDigit(Padded(n, width)[i])
  {
    if width > 0 {
      PaddedIsDigits(n / 10, width - 1);
    }
  }

  lemma FixedHasNoExponent(coefficient: int, scale: int)
    ensures 'E' !in ToFixed(coefficient, scale)
  {
    var c := Abs(coefficient);
    if scale > 0 {
      PaddedIsDigits(Remainder(c, scale), scale);
    }
    assert forall n: nat, i :: 0 <= i < |NatText(n)| ==> NatText(n)[i] != 'E' by {
      forall n: nat, i | 0 <= i < |NatText(n)|
        ensures NatText(n)[i] != 'E'
      {
        assert IsDigit(NatText(n)[i]);
      }
    }
  }

  /** For one coefficient and one scale: the exact condition under which the two texts are equal. */
  lemma TextsAgreeExactly(coefficient: int, scale: int)
    ensures ToScientific(coefficient, scale) == ToFixed(coefficient, scale) <==>
            scale == 0 || (scale > 0 && |NatText(Abs(coefficient))| - 1 - scale >= -6)
  {
    if scale == 0 || (scale > 0 && |NatText(Abs(coefficient))| - 1 - scale >= -6) {
      PlainIsFixed(coefficient, scale);
    } else {
      ScientificHasExponent(coefficient, scale);
      FixedHasNoExponent(coefficient, scale);
    }
  }

  /**
   The bound is exact: a scale is declared portable if and only if, for every coefficient of that scale, the
   two renderings are the same text. Coefficient zero is the first to break it, at scale 7.
   */
  lemma PortableExactly(scale: int)
    ensures ScaleIsPortable(scale) <==>
            forall coefficient: int :: ToScientific(coefficient, scale) == ToFixed(coefficient, scale)
  {
    forall coefficient: int | ScaleIsPortable(scale)
      ensures ToScientific(coefficient, scale) == ToFixed(coefficient, scale)
    {
      TextsAgreeExactly(coefficient, scale);
    }
    if !ScaleIsPortable(scale) {
      TextsAgreeExactly(0, scale);
      assert |NatText(0)| == 1;
    }
  }

  lemma SixZeros()
    ensures Zeros(6) + "0" == "0000000"
  {
    assert Zeros(1) == "0" && Zeros(2) == "00" && Zeros(3) == "000" && Zeros(4) == "0000";
    assert Zeros(5) == "00000" && Zeros(6) == "000000";
  }

  lemma ZeroAtScaleSeven()
    ensures ToScientific(0, 7) == "0E-7" && ToFixed(0, 7) == "0.0000000"
  {
    assert NatText(0) == "0" && NatText(7) == "7";
    assert Unsigned("0", -7) == "0E-7";
    DigitsPadded(0, 7);
    SixZeros();
    assert "" + "0E-7" == "0E-7";
    assert "" + ("0" + "." + "0000000") == "0.0000000";
  }

  // ----- both texts spell the number -----

  /** Digits before and after the point, and an exponent if one is written. */
  datatype Spelling = Spelling(whole: string, part: string, exponent: Option<int>)

  function Written(negative: bool, sp: Spelling): string {
    (if negative then "-" else "") + sp.whole + (if sp.part == "" then "" else "." + sp.part)
    + match sp.exponent
      case None => ""
      case Some(e) => if e >= 0 then "E+" + NatText(e) else "E-" + NatText(-e)
  }

  predicate AllDigits(s: string) {
    forall i :: 0 <= i < |s| ==> IsDigit(s[i])
  }

  /**
   The spelling is of |coefficient| with `scale` digits after the point: its digits, read with as many places as it has
   behind the point less the exponent, are the coefficient with that many more zeros.
   */
  predicate Spells(coefficient: int, scale: int, sp: Spelling) {
    && sp.whole != "" && AllDigits(sp.whole + sp.part)
    && var places := |sp.part| - (if sp.exponent.Some? then sp.exponent.value else 0);
       && places >= scale
       && ParseNat(sp.whole + sp.part)
          == (if coefficient >= 0 then coefficient else -coefficient) * Pow10(places - scale)
  }

  lemma {:induction false} ZerosCountNothing(n: nat, s: string)
    requires AllDigits(s)
    ensures AllDigits(Zeros(n) + s) && ParseNat(Zeros(n) + s) == ParseNat(s)
  {
    if s != "" {
      var front := s[..|s| - 1];
      ZerosCountNothing(n, front);
      assert (Zeros(n) + s)[..|Zeros(n) + s| - 1] == Zeros(n) + front;
    } else {
      assert Zeros(n) + "" == Zeros(n);
      ZerosAreNothing(n);
    }
  }

  lemma {:induction false} ZerosAreNothing(n: nat)
    ensures AllDigits(Zeros(n)) && ParseNat(Zeros(n)) == 0
  {
    if n > 0 {
      ZerosAreNothing(n - 1);
      assert Zeros(n)[..|Zeros(n)| - 1] == Zeros(n - 1);
    }
  }

  /** The digits of a fixed text, before and behind its point, are those of the number. */
  lemma {:induction false} FixedDigits(c: nat, scale: nat)
    requires scale > 0
    ensures var all := NatText(Quotient(c, scale)) + Padded(Remainder(c, scale), scale);
            AllDigits(all) && ParseNat(all) == c
  {
    var d := NatText(c);
    var whole, part := NatText(Quotient(c, scale)), Padded(Remainder(c, scale), scale);
    ParseNatText(c);
    if |d| > scale {
      DigitsSplit(c, scale);
      assert whole + part == d;
    } else {
      DigitsPadded(c, scale);
      hide Padded, Quotient, Remainder;
      assert whole == "0" == Zeros(1) by {
        assert NatText(0) == "0" && Zeros(1) == "0";
      }
      hide NatText, Zeros;
      ZerosCountNothing(scale - |d|, d);
      ZerosCountNothing(1, Zeros(scale - |d|) + d);
    }
  }

  lemma Pointed(sign: string, whole: string, part: string)
    ensures sign + (whole + "." + part) == sign + whole + ("." + part) + ""
  {
  }

  lemma Unpointed(sign: string, whole: string)
    ensures sign + whole == sign + whole + "" + ""
  {
  }

  lemma {:induction false} WholeSpells(coefficient: int, scale: int)
    requires scale <= 0
    ensures Spells(coefficient, scale, Spelling(NatText(Scaled(Abs(coefficient), -scale)), "", None))
  {
    hide NatText, Pow10, Scaled, ParseNat;
    var c := Abs(coefficient);
    var whole := NatText(Scaled(c, -scale));
    ScaledIs(c, -scale);
    ParseNatText(Scaled(c, -scale));
    assert whole + "" == whole;
  }

  /** The fixed text has exactly `scale` digits behind the point, none if that is not above zero, and no exponent. */
  lemma {:induction false} FixedSpells(coefficient: int, scale: int) returns (sp: Spelling)
    ensures ToFixed(coefficient, scale) == Written(coefficient < 0, sp) && Spells(coefficient, scale, sp)
    ensures sp.exponent == None && |sp.part| == if scale > 0 then scale else 0
  {
    var c := Abs(coefficient);
    assert Pow10(0) == 1;
    hide NatText, Padded, Quotient, Remainder, Pow10, Scaled, ParseNat;
    if scale <= 0 {
      sp := Spelling(NatText(Scaled(c, -scale)), "", None);
      WholeSpells(coefficient, scale);
      Unpointed(Sign(coefficient), sp.whole);
    } else {
      sp := Spelling(NatText(Quotient(c, scale)), Padded(Remainder(c, scale), scale), None);
      FixedDigits(c, scale);
      Pointed(Sign(coefficient), sp.whole, sp.part);
    }
  }

  lemma {:induction false} ScaledIs(c: nat, zeros: nat)
    ensures Scaled(c, zeros) == c * Pow10(zeros)
  {
    if zeros > 0 {
      ScaledIs(c, zeros - 1);
      assert 10 * (c * Pow10(zeros - 1)) == c * (10 * Pow10(zeros - 1));
    }
  }

  /** The scientific text spells the same, with an exponent exactly where the point would be too far off. */
  lemma {:induction false} ScientificSpells(coefficient: int, scale: int) returns (sp: Spelling)
    ensures ToScientific(coefficient, scale) == Written(coefficient < 0, sp) && Spells(coefficient, scale, sp)
    ensures sp.exponent.None? <==> scale >= 0 && |sp.part| == scale
    ensures sp.exponent.Some? ==> |sp.whole| == 1 && sp.exponent.value == |sp.part| - scale
  {
    var c := Abs(coefficient);
    var d := NatText(c);
    if scale == 0 || (scale > 0 && |d| - 1 - scale >= -6) {
      sp := FixedSpells(coefficient, scale);
      PlainIsFixed(coefficient, scale);
    } else {
      ParseNatText(c);
      var e := |d| - 1 - scale;
      sp := Spelling(d[..1], d[1..], Some(e));
      assert sp.whole + sp.part == d && Pow10(0) == 1;
      ExponentWritten(coefficient, scale, sp, e);
    }
  }

  lemma Exponential(sign: string, whole: string, part: string, tail: string)
    ensures sign + ((whole + "." + part) + "E" + tail) == sign + whole + ("." + part) + ("E" + tail)
    ensures sign + (whole + "E" + tail) == sign + whole + "" + ("E" + tail)
  {
  }

  lemma {:induction false} ExponentWritten(coefficient: int, scale: int, sp: Spelling, e: int)
    requires scale != 0 && (scale > 0 ==> e < -6)
    requires var d := NatText(Abs(coefficient));
             e == |d| - 1 - scale && sp == Spelling(d[..1], d[1..], Some(e))
    ensures ToScientific(coefficient, scale) == Written(coefficient < 0, sp)
  {
    hide NatText;
    var d := NatText(Abs(coefficient));
    assert "E" + SignedText(e) == if e >= 0 then "E+" + NatText(e) else "E-" + NatText(-e);
    Exponential(Sign(coefficient), d[..1], d[1..], SignedText(e));
    assert |d| == 1 ==> d == d[..1];
  }
}
