/** What the scanner makes of a decimal number that is written out. */
module RealTexts {
  import opened Numerals
  import opened FormatText
  import opened ReadBack
  import S = ScanFormat

  /** Sign, digits, point, digits, and an exponent; any part but the digits may be missing. */
  datatype RealText = RealText(sign: string, whole: string, point: bool, fraction: string,
                               exponent: bool, letter: char, expSign: string, expDigits: string)

  function MantissaText(r: RealText): string {
    r.whole + if r.point then "." + r.fraction else ""
  }

  function ExponentText(r: RealText): string {
    if r.exponent then [r.letter] + (r.expSign + r.expDigits) else ""
  }

  function TextOf(r: RealText): string {
    r.sign + (MantissaText(r) + ExponentText(r))
  }

  /** The parts have the right characters; digits may be missing everywhere. */
  predicate Shaped(r: RealText) {
    IsSignText(r.sign) && AllDigits(r.whole, 10) && AllDigits(r.fraction, 10) && (!r.point ==> r.fraction == "")
    && (r.letter == 'e' || r.letter == 'E') && IsSignText(r.expSign) && AllDigits(r.expDigits, 10)
  }

  /** A number: a digit in the mantissa, and one in the exponent if there is one. */
  predicate IsReal(r: RealText) {
    Shaped(r) && r.whole + r.fraction != "" && (r.exponent ==> r.expDigits != "")
  }

  /** What stands behind the text does not go on with it. */
  predicate RealStops(r: RealText, s: string, e: nat) {
    e < |s| ==>
      !IsDigit(s[e] as int)
      && (!r.exponent ==> s[e] != 'e' && s[e] != 'E' && (!r.point ==> s[e] != '.'))
      && (r.exponent && r.expSign == "" && r.expDigits == "" ==> !S.IsSign(s[e]))
  }

  /** The text fills the field, or stops inside it. */
  predicate RealFits(r: RealText, s: string, i: nat, field: int) {
    HasAt(s, i, TextOf(r)) && |TextOf(r)| <= field && (|TextOf(r)| < field ==> RealStops(r, s, i + |TextOf(r)|))
  }

  /** The exponent as written: exact below 10010, and 10000 from there on. */
  function ExponentOf(r: RealText): int
    requires AllDigits(r.expDigits, 10)
  {
    var n := Horner(r.expDigits, 10);
    var e: int := if n < 10010 then n else 10000;
    if !r.exponent then 0 else if r.expSign == "-" then -e else e
  }

  lemma AllDigitsJoin(a: string, b: string)
    requires AllDigits(a, 10) && AllDigits(b, 10)
    ensures AllDigits(a + b, 10)
  {
  }

  function NumberOf(r: RealText): S.Decimal
    requires Shaped(r)
  {
    AllDigitsJoin(r.whole, r.fraction);
    S.Decimal(r.sign == "-", Horner(r.whole + r.fraction, 10), ExponentOf(r) - |r.fraction|)
  }

  // ---------------------------------------------------------------- the mantissa

  lemma DecimalDigit(c: char)
    ensures 0 <= Digit(c as int, 10) <==> IsDigit(c as int)
    ensures IsDigit(c as int) ==> c != '.' && c != 'e' && c != 'E' && !S.IsSign(c) && !IsSpace(c as int)
  {
  }

  lemma {:induction false} MantissaTakesDigits(s: string, i: nat, digits: string, field: int, dot: bool)
    requires HasAt(s, i, digits) && AllDigits(digits, 10) && |digits| <= field
    ensures i + |digits| <= |s| && S.MantissaEnd(s, i, field, dot) == S.MantissaEnd(s, i + |digits|, field - |digits|, dot)
    decreases |digits|
  {
    hide Digit;
    if digits == "" {
    } else {
      assert digits == [digits[0]] + digits[1..];
      HasAtParts(s, i, [digits[0]], digits[1..]);
      HasAtChar(s, i, digits, 0);
      DecimalDigit(digits[0]);
      assert 0 <= Digit(digits[0] as int, 10);
      assert forall k :: 0 <= k < |digits| - 1 ==> digits[1..][k] == digits[k + 1];
      MantissaTakesDigits(s, i + 1, digits[1..], field - 1, dot);
    }
  }

  lemma MantissaStops(s: string, m: nat, field: int, dot: bool)
    requires m <= |s|
    requires 0 < field && m < |s| ==> !IsDigit(s[m] as int) && (!dot ==> s[m] != '.')
    ensures S.MantissaEnd(s, m, field, dot) == m
  {
  }

  lemma MantissaTakesPoint(s: string, k: nat, field: int)
    requires k < |s| && s[k] == '.' && 0 < field
    ensures S.MantissaEnd(s, k, field, false) == S.MantissaEnd(s, k + 1, field - 1, true)
  {
  }

  /** Where the digits and the point of a mantissa are. */
  lemma MantissaParts(s: string, j: nat, r: RealText)
    requires HasAt(s, j, MantissaText(r))
    ensures j + |MantissaText(r)| <= |s| && HasAt(s, j, r.whole)
    ensures var k := j + |r.whole|;
      if r.point then
        k < |s| && s[k] == '.' && HasAt(s, k + 1, r.fraction) && |MantissaText(r)| == |r.whole| + 1 + |r.fraction|
      else MantissaText(r) == r.whole
  {
    hide HasAt;
    var k, rest := j + |r.whole|, if r.point then "." + r.fraction else "";
    HasAtInside(s, j, MantissaText(r));
    HasAtParts(s, j, r.whole, rest);
    if r.point {
      HasAtParts(s, k, ".", r.fraction);
      HasAtInside(s, k, ".");
      HasAtChar(s, k, ".", 0);
    }
  }

  /** The mantissa ends where the text of it does. */
  lemma MantissaIsRead(s: string, j: nat, r: RealText, field: int)
    requires Shaped(r) && HasAt(s, j, MantissaText(r)) && |MantissaText(r)| <= field
    requires var m := j + |MantissaText(r)|;
      |MantissaText(r)| < field && m < |s| ==> !IsDigit(s[m] as int) && (!r.point ==> s[m] != '.')
    ensures j <= |s| && S.MantissaEnd(s, j, field, false) == j + |MantissaText(r)|
  {
    hide AllDigits, IsDigit, HasAt, MantissaText, S.MantissaEnd;
    MantissaParts(s, j, r);
    MantissaTakesDigits(s, j, r.whole, field, false);
    if r.point {
      var k := j + |r.whole|;
      MantissaTakesPoint(s, k, field - |r.whole|);
      MantissaTakesDigits(s, k + 1, r.fraction, field - |r.whole| - 1, true);
    }
    MantissaStops(s, j + |MantissaText(r)|, field - |MantissaText(r)|, r.point);
  }
  lemma {:induction false} DigitsOfDigits(t: string)
    requires AllDigits(t, 10)
    ensures S.DigitsOf(t) == t && '.' !in t
  {
    if t == "" {
    } else {
      var c := t[|t| - 1];
      DigitsOfDigits(t[..|t| - 1]);
      DecimalDigit(c);
      assert 0 <= Digit(c as int, 10);
      assert t == t[..|t| - 1] + [c];
    }
  }

  lemma PointEnds(a: string)
    ensures S.FractionDigits(a + ['.']) == 0
  {
  }

  /** The digits of a mantissa, and how many of them are behind the point. */
  lemma {:induction false} DigitsOfMantissa(a: string, b: string)
    requires AllDigits(a, 10) && AllDigits(b, 10)
    ensures S.DigitsOf(a + ("." + b)) == a + b && S.FractionDigits(a + ("." + b)) == |b|
    ensures '.' in a + ("." + b)
    decreases |b|
  {
    hide S.DigitsOf, S.FractionDigits;
    if b == "" {
      DigitsOfDigits(a);
      S.DigitsSnoc(a, '.');
      PointEnds(a);
      assert a + ("." + b) == a + ['.'] && a + b == a;
    } else {
      var front, c := b[..|b| - 1], b[|b| - 1];
      DigitsOfMantissa(a, front);
      DecimalDigit(c);
      assert 0 <= Digit(c as int, 10);
      assert a + ("." + b) == a + ("." + front) + [c] && a + b == a + front + [c];
      S.DigitsSnoc(a + ("." + front), c);
      S.FractionSnoc(a + ("." + front), c);
    }
  }

  lemma MantissaMeans(r: RealText)
    requires Shaped(r)
    ensures S.DigitsOf(MantissaText(r)) == r.whole + r.fraction
    ensures S.FractionDigits(MantissaText(r)) == |r.fraction|
  {
    hide S.DigitsOf, AllDigits;
    if r.point {
      DigitsOfMantissa(r.whole, r.fraction);
    } else {
      DigitsOfDigits(r.whole);
      assert MantissaText(r) == r.whole && r.whole + r.fraction == r.whole;
    }
  }

  // ---------------------------------------------------------------- the exponent

  /** The exponent in terms of where its parts are. */
  lemma ExponentFrom(s: string, m: nat, field: int, k: nat, digits: string)
    requires m + 1 <= k <= m + 2 && m < |s| && (s[m] == 'e' || s[m] == 'E') && 0 < field
    requires k == m + 2 <==> m + 1 < |s| && S.IsSign(s[m + 1])
    requires AllDigits(digits, 10) && HasAt(s, k, digits) && S.RunEnd(s, k, 10, field - (k - m)) == k + |digits|
    ensures var n := Horner(digits, 10);
      var e: int := if n < 10010 then n else 10000;
      S.ExponentAt(s, m, field, true)
        == S.ExponentField(k + |digits|, digits != "", if k == m + 2 && s[m + 1] == '-' then -e else e)
  {
    hide Horner, Digit;
    S.RunEndIsMaximal(s, k, 10, field - (k - m));
  }

  lemma DigitsAreDigits(t: string, k: nat)
    requires AllDigits(t, 10) && k < |t|
    ensures 0 <= Digit(t[k] as int, 10)
  {
  }

  /** Where the sign and the digits of an exponent are. */
  lemma ExponentParts(s: string, m: nat, r: RealText)
    requires Shaped(r) && r.exponent && HasAt(s, m, ExponentText(r))
    requires r.expDigits != "" || r.expSign != "" || m + 1 == |s| || !S.IsSign(s[m + 1])
    ensures m < |s| && s[m] == r.letter && |ExponentText(r)| == 1 + |r.expSign| + |r.expDigits|
    ensures HasAt(s, m + 1 + |r.expSign|, r.expDigits) && |r.expSign| <= 1
    ensures r.expSign != "" <==> m + 1 < |s| && S.IsSign(s[m + 1])
    ensures r.expSign != "" ==> (s[m + 1] == '-' <==> r.expSign == "-")
  {
    hide AllDigits, Digit, IsDigit;
    HasAtInside(s, m, ExponentText(r));
    HasAtParts(s, m, [r.letter], r.expSign + r.expDigits);
    HasAtChar(s, m, [r.letter], 0);
    HasAtParts(s, m + 1, r.expSign, r.expDigits);
    if r.expSign != "" {
      HasAtChar(s, m + 1, r.expSign, 0);
    } else if r.expDigits != "" {
      HasAtChar(s, m + 1, r.expDigits, 0);
      DigitsAreDigits(r.expDigits, 0);
      DecimalDigit(r.expDigits[0]);
    }
  }

  lemma LengthOfExponent(r: RealText)
    ensures r.exponent ==> |ExponentText(r)| == 1 + |r.expSign| + |r.expDigits|
  {
  }

  lemma ExponentIsRead(s: string, m: nat, r: RealText, field: int)
    requires Shaped(r) && r.exponent && HasAt(s, m, ExponentText(r)) && |ExponentText(r)| <= field
    requires |ExponentText(r)| < field ==> RealStops(r, s, m + |ExponentText(r)|)
    requires r.expDigits != "" || r.expSign != "" || |ExponentText(r)| < field || m + 1 == |s| || !S.IsSign(s[m + 1])
    ensures m <= |s|
    ensures S.ExponentAt(s, m, field, true)
      == S.ExponentField(m + |ExponentText(r)|, r.expDigits != "", ExponentOf(r))
  {
    hide AllDigits, Digit, Horner, IsDigit, HasAt, S.ExponentAt, ExponentText, S.IsSign;
    LengthOfExponent(r);
    HasAtInside(s, m, ExponentText(r));
    ExponentParts(s, m, r);
    var k := m + 1 + |r.expSign|;
    HasAtInside(s, k, r.expDigits);
    if k + |r.expDigits| < |s| {
      DecimalDigit(s[k + |r.expDigits|]);
    }
    RunIsRead(s, k, r.expDigits, 10, field - (k - m));
    ExponentFrom(s, m, field, k, r.expDigits);
  }

  lemma NoExponentRead(s: string, m: nat, field: int)
    requires m <= |s| && (0 < field && m < |s| ==> s[m] != 'e' && s[m] != 'E')
    ensures S.ExponentAt(s, m, field, true) == S.ExponentField(m, true, 0)
  {
  }

  // ---------------------------------------------------------------- the number

  lemma TextThere(s: string, j: nat, t: string)
    requires HasAt(s, j, t)
    ensures j + |t| <= |s| && s[j..j + |t|] == t
  {
  }

  lemma UnsignedIsRead(s: string, j: nat, r: RealText, field: int)
    requires Shaped(r) && r.whole + r.fraction != "" && HasAt(s, j, MantissaText(r) + ExponentText(r))
    requires var n := |MantissaText(r) + ExponentText(r)|;
      n <= field && (n < field ==> RealStops(r, s, j + n))
      && (r.exponent && r.expDigits == "" && r.expSign == "" && n == field && j + n < |s| ==> !S.IsSign(s[j + n]))
    ensures j <= |s|
    ensures S.UnsignedReal(s, j, field)
      == S.RealField(j + |MantissaText(r) + ExponentText(r)|, r.exponent ==> r.expDigits != "",
                     NumberOf(r).(negative := false))
  {
    hide MantissaText, S.MantissaEnd, S.ExponentAt, S.DigitsOf, S.FractionDigits, Horner, HasAt, AllDigits;
    var m := j + |MantissaText(r)|;
    HasAtInside(s, j, MantissaText(r) + ExponentText(r));
    HasAtParts(s, j, MantissaText(r), ExponentText(r));
    if r.exponent {
      HasAtChar(s, m, ExponentText(r), 0);
      DecimalDigit(r.letter);
    }
    MantissaIsRead(s, j, r, field);
    MantissaMeans(r);
    TextThere(s, j, MantissaText(r));
    if r.exponent {
      ExponentIsRead(s, m, r, field - |MantissaText(r)|);
    } else {
      NoExponentRead(s, m, field - |MantissaText(r)|);
    }
  }

  lemma SignIsRead(s: string, i: nat, sign: string, rest: string)
    requires IsSignText(sign) && HasAt(s, i, sign + rest)
    requires rest != "" && !S.IsSign(rest[0])
    ensures i < |s| && HasAt(s, i + |sign|, rest)
    ensures S.IsSign(s[i]) <==> sign != ""
    ensures s[i] == '-' <==> sign == "-"
  {
    HasAtParts(s, i, sign, rest);
    HasAtChar(s, i + |sign|, rest, 0);
    if sign != "" {
      HasAtChar(s, i, sign, 0);
    }
  }

  lemma NumberStarts(r: RealText)
    requires Shaped(r) && r.whole + r.fraction != ""
    ensures MantissaText(r) != ""
    ensures var c := (MantissaText(r) + ExponentText(r))[0];
      !S.IsSign(c) && !IsSpace(c as int)
  {
    hide Digit, IsDigit;
    if r.whole != "" {
      DigitsAreDigits(r.whole, 0);
      DecimalDigit(r.whole[0]);
    }
  }

  lemma SignIsInk(sign: string)
    requires IsSignText(sign)
    ensures sign != "" ==> !IsSpace(sign[0] as int)
  {
  }

  lemma SignedIsRead(s: string, i: nat, r: RealText, field: int)
    requires Shaped(r) && r.whole + r.fraction != "" && RealFits(r, s, i, field)
    requires r.exponent && r.expDigits == "" && r.expSign == "" && |TextOf(r)| == field && i + field < |s|
      ==> !S.IsSign(s[i + field])
    ensures i < |s| && !IsSpace(s[i] as int)
    ensures S.RealFieldAt(s, i, field)
      == S.RealField(i + |TextOf(r)|, r.exponent ==> r.expDigits != "", NumberOf(r))
  {
    hide MantissaText, ExponentText, S.UnsignedReal, Horner, HasAt, AllDigits, IsSpace;
    NumberStarts(r);
    var rest := MantissaText(r) + ExponentText(r);
    SignIsRead(s, i, r.sign, rest);
    HasAtChar(s, i, TextOf(r), 0);
    SignIsInk(r.sign);
    UnsignedIsRead(s, i + |r.sign|, r, field - |r.sign|);
  }

  /**
   * A real conversion that comes to a written number reads all of it, and stores its sign, the
   * number that all its digits denote, and the written exponent, saturated, less the number of
   * digits behind the point; minus stands exactly for a written minus.
   */
  lemma RealIsStored(s: string, p: nat, i: nat, r: RealText, nostore: bool, given: bool, field: int, len: Length, conv: char)
    requires WhiteUpTo(s, p, i) && IsReal(r) && RealFits(r, s, i, field) && conv in "eEfgG"
    ensures S.Convert(s, p, S.Conversion(nostore, given, field, len, conv))
      == S.Read(i + |TextOf(r)|, S.Matched,
                if nostore then [] else [S.Real(len == LenLong || len == LenLongDouble, NumberOf(r))])
  {
    hide TextOf, NumberOf, S.RealFieldAt, IsSpace;
    SkipsWhite(s, p, i);
    SignedIsRead(s, i, r, field);
  }

  /**
   * It fails, and stores nothing, where a mantissa is followed by the letter of an exponent but
   * by no digit of it; the letter and a sign behind it are consumed.
   */
  lemma ExponentWithoutDigits(s: string, p: nat, i: nat, r: RealText, nostore: bool, given: bool, field: int, len: Length, conv: char)
    requires WhiteUpTo(s, p, i) && Shaped(r) && r.whole + r.fraction != "" && r.exponent && r.expDigits == ""
    requires RealFits(r, s, i, field) && conv in "eEfgG"
    requires r.expSign == "" && i + |TextOf(r)| < |s| ==> !S.IsSign(s[i + |TextOf(r)|])
    ensures S.Convert(s, p, S.Conversion(nostore, given, field, len, conv)) == S.Read(i + |TextOf(r)|, S.Failed, [])
  {
    hide TextOf, NumberOf, S.RealFieldAt, IsSpace;
    SkipsWhite(s, p, i);
    SignedIsRead(s, i, r, field);
  }

  lemma NothingShaped(r: RealText)
    requires r == RealText("", "", r.point, "", false, 'e', "", "")
    ensures Shaped(r)
  {
  }

  /** Where no digit follows a point, or nothing at all, there is no number. */
  lemma NoMantissa(s: string, j: nat, point: bool, field: int)
    requires HasAt(s, j, if point then "." else "")
    requires var n := if point then 1 else 0;
      n <= field && (n < field && j + n < |s| ==> !IsDigit(s[j + n] as int) && (!point ==> s[j + n] != '.'))
    ensures j <= |s|
    ensures var u := S.UnsignedReal(s, j, field);
      u.end == j + (if point then 1 else 0) && !u.valid
  {
    hide HasAt, S.MantissaEnd, S.DigitsOf, IsDigit, Horner, AllDigits;
    var r := RealText("", "", point, "", false, 'e', "", "");
    var rest := if point then "." else "";
    NothingShaped(r);
    HasAtInside(s, j, rest);
    assert MantissaText(r) == rest;
    MantissaIsRead(s, j, r, field);
    MantissaMeans(r);
    TextThere(s, j, rest);
  }

  lemma NoSignedReal(s: string, i: nat, sign: string, point: bool, field: int)
    requires i < |s| && IsSignText(sign) && HasAt(s, i, sign + if point then "." else "")
    requires var n := |sign| + if point then 1 else 0;
      n <= field && (n < field && i + n < |s| ==> !IsDigit(s[i + n] as int) && (!point ==> s[i + n] != '.'))
    requires sign == "" && !point && 0 < field ==> !S.IsSign(s[i])
    ensures var f := S.RealFieldAt(s, i, field);
      f.end == i + |sign| + (if point then 1 else 0) && !f.valid
  {
    hide HasAt, S.UnsignedReal, IsDigit;
    var rest := if point then "." else "";
    HasAtParts(s, i, sign, rest);
    if sign != "" {
      HasAtChar(s, i, sign, 0);
    } else if point {
      HasAtChar(s, i, rest, 0);
    }
    NoMantissa(s, i + |sign|, point, field - |sign|);
  }

  /** It fails where no digit follows the sign and the point. */
  lemma NothingLikeReal(s: string, p: nat, i: nat, sign: string, point: bool, nostore: bool, given: bool, field: int,
                        len: Length, conv: char)
    requires WhiteUpTo(s, p, i) && i < |s| && IsSignText(sign) && HasAt(s, i, sign + if point then "." else "")
    requires var n := |sign| + if point then 1 else 0;
      n <= field && (n < field && i + n < |s| ==> !IsDigit(s[i + n] as int) && (!point ==> s[i + n] != '.'))
    requires sign == "" && !point && 0 < field ==> !S.IsSign(s[i])
    requires conv in "eEfgG"
    ensures S.Convert(s, p, S.Conversion(nostore, given, field, len, conv))
      == S.Read(i + |sign| + (if point then 1 else 0), S.Failed, [])
  {
    hide HasAt, IsSpace, IsDigit, S.RealFieldAt;
    SkipsWhite(s, p, i);
    NoSignedReal(s, i, sign, point, field);
  }
}
