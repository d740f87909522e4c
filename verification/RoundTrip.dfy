/**
 * Scanning undoes printing: which integer texts are read back as the value that was
 * printed, by the same conversion and by the one that lets the text choose the radix.
 */
module RoundTrip {
  import opened Numerals
  import opened Grouping
  import opened FormatText
  import opened ReadBack
  import opened Pieces
  import opened LowerRadix
  import P = PrintfFormat
  import S = ScanFormat

  // ---------------------------------------------------------------- the reads

  /** The scanner's conversion with the same character and length, and no field width. */
  function ReadAs(d: P.Directive, s: string, p: nat): S.Read
    requires p <= |s|
  {
    S.Convert(s, p, S.Conversion(false, false, INT_MAX, d.length, d.conv))
  }

  /** The scanner's %i with the same length; a pointer is read into an int. */
  function ReadOpen(d: P.Directive, s: string, p: nat): S.Read
    requires p <= |s|
  {
    S.Convert(s, p, S.Conversion(false, false, INT_MAX, if d.conv == 'p' then LenInt else d.length, 'i'))
  }

  /** What both come to: an integer read into the target of d; radix zero leaves the radix open. */
  function ReadIn(d: P.Directive, radix0: nat, s: string, p: nat): S.Read
    requires p <= |s|
  {
    S.ReadInteger(s, p, false, Target(d), radix0 == 0 || d.conv != 'p', radix0, INT_MAX)
  }

  lemma ReadsAreIntegers(d: P.Directive, s: string, p: nat)
    requires P.IsInteger(d.conv) && p <= |s|
    ensures ReadAs(d, s, p) == ReadIn(d, S.RequestedRadix(d.conv), s, p)
    ensures ReadOpen(d, s, p) == ReadIn(d, 0, s, p)
  {
  }

  /** The radix that is requested is that of the digits, or it is left open. */
  predicate RadixFits(d: P.Directive, radix0: nat)
    requires P.IsInteger(d.conv)
  {
    radix0 == 0 || radix0 == P.Radix(d.conv)
  }

  // ---------------------------------------------------------------- which texts

  /**
   * Without a prefix that names the base, an open read takes a text that starts with a zero
   * for octal and any other one for decimal. That is right for octal digits behind a zero, for
   * decimal digits without one, and for a number that is a single digit in the radix taken. It
   * is also right where the decimal reading of octal digits overflows to the number itself.
   */
  predicate OpenlyRead(d: P.Directive, v: P.Value)
    requires P.IsInteger(d.conv)
  {
    if LeadingZeros(d, v) > 0 then d.conv == 'o' || v.magnitude < 8
    else
      P.IsDecimal(d.conv)
      || (P.IsHex(d.conv) && v.magnitude < 10)
      || (d.conv == 'o' && Excess(v.magnitude) % Pow2(Target(d)) == 0)
  }

  /** No comma, no hash, digits unless an octal prefix stands for them, and the radix is the right one. */
  predicate Legible(d: P.Directive, v: P.Value, radix0: nat)
    requires P.IsInteger(d.conv)
  {
    !HasComma(d, v) && v.prefix != "#"
    && (v.magnitude == 0 && P.LeastDigits(d) <= 0 ==> v.prefix == "0")
    && (radix0 == 0 && Undecorated(v.prefix) ==> OpenlyRead(d, v))
  }

  /** A legible text in which nothing separates the prefix from the digits. */
  predicate Clean(d: P.Directive, v: P.Value, radix0: nat)
    requires P.IsInteger(d.conv)
  {
    Legible(d, v, radix0) && GapAllowed(v.prefix, Gap(d, v))
  }

  /** The texts that are read back: blanks behind a prefix only where that is an octal zero already. */
  predicate Recoverable(d: P.Directive, v: P.Value, radix0: nat)
    requires P.IsInteger(d.conv)
  {
    Legible(d, v, radix0) && (GapAllowed(v.prefix, Gap(d, v)) || (v.prefix == "0" && v.magnitude == 0))
  }

  // ---------------------------------------------------------------- clean texts are read

  /** Octal digits without a zero in front of them, taken for decimal. */
  lemma BareOctal(d: P.Directive, v: P.Value)
    requires d.conv == 'o' && LeadingZeros(d, v) == 0
    ensures AllDigits(DigitText(d, v), 10)
    ensures Horner(DigitText(d, v), 10) == DecimalReading(v.magnitude)
  {
    ReadsInDecimal(v.magnitude);
    assert DigitText(d, v) == Numeral(v.magnitude, 8, false);
  }

  lemma BodyStarts(d: P.Directive, n: nat)
    requires P.IsInteger(d.conv)
    ensures P.Body(d, n) != "" ==> P.Body(d, n)[0] != '0'
  {
    NumeralLeads(n, P.Radix(d.conv), d.conv == 'X');
    NumeralLeads(n, 10, false);
    var all := Numeral(n, 10, false);
    if |all| > 3 {
      var k := GroupedStarts(all);
      assert Grouped(all)[..k][0] == all[..k][0];
    }
  }

  /** The digits start with a zero exactly if zeros were put in front of them. */
  lemma FirstIsZero(d: P.Directive, v: P.Value)
    requires P.IsInteger(d.conv) && DigitText(d, v) != ""
    ensures DigitText(d, v)[0] == '0' <==> LeadingZeros(d, v) > 0
  {
    var body := P.Body(d, v.magnitude);
    BodyStarts(d, v.magnitude);
    hide P.Body;
    assert LeadingZeros(d, v) == 0 ==> DigitText(d, v) == body;
  }

  /** An open read of the digits of a legible text comes to the magnitude, modulo the target. */
  lemma OpenDigits(d: P.Directive, v: P.Value)
    requires P.IsInteger(d.conv) && Legible(d, v, 0) && Undecorated(v.prefix) && DigitText(d, v) != ""
    ensures var digits := DigitText(d, v);
      var radix := FieldRadix(0, digits);
      AllDigits(digits, radix)
      && (Horner(digits, radix) == v.magnitude
          || (d.conv == 'o' && Horner(digits, radix) % Pow2(Target(d)) == v.magnitude % Pow2(Target(d))))
  {
    hide P.Body, P.LeastDigits, P.ZeroFills, Pow2, DecimalReading, Horner, AllDigits;
    DigitTextValue(d, v);
    FirstIsZero(d, v);
    var digits, base := DigitText(d, v), P.Radix(d.conv);
    var radix := FieldRadix(0, digits);
    if radix < base {
      FrontDenotes(digits, radix, base);
    } else if radix > base {
      BareOctal(d, v);
      CongruentExactly(DecimalReading(v.magnitude), v.magnitude, Pow2(Target(d)));
    }
  }

  /** What is known of a clean piece before it is read. */
  lemma PieceReady(d: P.Directive, v: P.Value, s: string, p: nat)
    requires P.IsInteger(d.conv) && PrefixFits(d.conv, v.prefix) && !HasComma(d, v)
    requires HasAt(s, p, P.IntegerPiece(d, v)) && Delimits(s, p + |P.IntegerPiece(d, v)|)
    ensures p <= |s| && PartsAt(s, p, v.prefix, Gap(d, v), DigitText(d, v), 16)
    ensures AllDigits(DigitText(d, v), P.Radix(d.conv))
    ensures Horner(DigitText(d, v), P.Radix(d.conv)) == v.magnitude
    ensures |P.IntegerPiece(d, v)| >= |v.prefix| + |DigitText(d, v)|
  {
    hide HasAt, P.IntegerPiece, DigitText, Horner, AllDigits, Gap, PrefixFits, HasComma, Trail;
    PieceAt(d, v, s, p);
    DigitTextValue(d, v);
    HasAtInside(s, p, P.IntegerPiece(d, v));
  }

  lemma EndsInAll(s: string, e: nat, radix: nat)
    requires Ends(s, e, 16) && radix <= 16
    ensures Ends(s, e, radix)
  {
    DelimiterEnds(s, e, radix);
  }

  lemma NegatedToo(a: int, b: int, p: nat)
    requires 0 < p && a % p == b % p
    ensures (0 - a) % p == (0 - b) % p
  {
    NegateModulo(a, p);
    NegateModulo(b, p);
  }

  /** An undecorated clean piece. */
  lemma ReadBarePiece(d: P.Directive, v: P.Value, s: string, p: nat, radix0: nat)
    requires P.IsInteger(d.conv) && PrefixFits(d.conv, v.prefix) && Clean(d, v, radix0) && RadixFits(d, radix0)
    requires HasAt(s, p, P.IntegerPiece(d, v)) && Delimits(s, p + |P.IntegerPiece(d, v)|)
    requires |P.IntegerPiece(d, v)| <= INT_MAX && Undecorated(v.prefix)
    ensures p <= |s| && ReadIn(d, radix0, s, p) == Number(DigitsEnd(d, v, p), Target(d), Printed(v))
  {
    hide S.ReadInteger, P.IntegerPiece, DigitText, Gap, HasAt, Horner, AllDigits, Ends, Pow2, P.LeastDigits, OpenlyRead, HasComma;
    PieceReady(d, v, s, p);
    DigitTextEmpty(d, v);
    var digits, gap := DigitText(d, v), Gap(d, v);
    var radix := FieldRadix(radix0, digits);
    EndsInAll(s, p + |v.prefix| + gap + |digits|, radix);
    if radix0 == 0 {
      OpenDigits(d, v);
      NegatedToo(Horner(digits, radix), v.magnitude, Pow2(Target(d)));
    }
    ReadUndecorated(s, p, v.prefix, gap, digits, radix0, radix0 == 0 || d.conv != 'p', Target(d));
  }

  /** A clean piece is read up to its trailing blanks as the number it stands for. */
  lemma ReadPiece(d: P.Directive, v: P.Value, s: string, p: nat, radix0: nat)
    requires P.IsInteger(d.conv) && PrefixFits(d.conv, v.prefix) && Clean(d, v, radix0) && RadixFits(d, radix0)
    requires HasAt(s, p, P.IntegerPiece(d, v)) && Delimits(s, p + |P.IntegerPiece(d, v)|)
    requires |P.IntegerPiece(d, v)| <= INT_MAX
    ensures p <= |s| && ReadIn(d, radix0, s, p) == Number(DigitsEnd(d, v, p), Target(d), Printed(v))
  {
    hide S.ReadInteger, P.IntegerPiece, DigitText, Gap, HasAt, Horner, AllDigits, Ends, Pow2, P.LeastDigits, OpenlyRead, HasComma;
    if Undecorated(v.prefix) {
      ReadBarePiece(d, v, s, p, radix0);
    } else {
      PieceReady(d, v, s, p);
      DigitTextEmpty(d, v);
      if v.prefix == "0" {
        EndsInAll(s, p + 1 + |DigitText(d, v)|, 8);
        ReadOctalParts(s, p, DigitText(d, v), radix0, Target(d));
      } else {
        ReadHexParts(s, p, v.prefix, DigitText(d, v), radix0, Target(d));
      }
    }
  }

  lemma PieceIsInteger(d: P.Directive, arg: P.Arg, charSigned: bool)
    requires P.IsInteger(d.conv)
    ensures P.Piece(d, arg, charSigned) == P.IntegerPiece(d, P.ValueOf(d, arg, charSigned))
  {
  }

  lemma NumberModulo(e: nat, bits: nat, m: int, n: int)
    requires m % Pow2(bits) == n % Pow2(bits)
    ensures Number(e, bits, m) == Number(e, bits, n)
  {
  }

  lemma ReadsArgument(d: P.Directive, arg: P.Arg, charSigned: bool, s: string, p: nat, radix0: nat)
    requires P.IsInteger(d.conv) && RadixFits(d, radix0) && Clean(d, P.ValueOf(d, arg, charSigned), radix0)
    requires HasAt(s, p, P.Piece(d, arg, charSigned)) && Delimits(s, p + |P.Piece(d, arg, charSigned)|)
    requires |P.Piece(d, arg, charSigned)| <= INT_MAX
    ensures p <= |s|
    ensures ReadIn(d, radix0, s, p) == Number(DigitsEnd(d, P.ValueOf(d, arg, charSigned), p), Target(d), arg.bits)
  {
    hide P.IntegerPiece, P.ValueOf, P.Piece, HasAt, Delimits, DigitsEnd, Clean, Pow2, Number, ReadIn;
    var v := P.ValueOf(d, arg, charSigned);
    PieceIsInteger(d, arg, charSigned);
    ValuePrefixFits(d, arg, charSigned);
    ValueIsStored(d, arg, charSigned);
    ReadPiece(d, v, s, p, radix0);
    NumberModulo(DigitsEnd(d, v, p), Target(d), Printed(v), arg.bits);
  }

  /**
   * Round trip: a clean text of any argument, followed by something that cannot belong to
   * the number, is read back as the argument, as far as the target keeps it.
   */
  lemma ReadsBackArgument(d: P.Directive, arg: P.Arg, charSigned: bool, s: string, p: nat)
    requires P.IsInteger(d.conv) && Clean(d, P.ValueOf(d, arg, charSigned), S.RequestedRadix(d.conv))
    requires HasAt(s, p, P.Piece(d, arg, charSigned)) && Delimits(s, p + |P.Piece(d, arg, charSigned)|)
    requires |P.Piece(d, arg, charSigned)| <= INT_MAX
    ensures p <= |s|
    ensures ReadAs(d, s, p) == Number(DigitsEnd(d, P.ValueOf(d, arg, charSigned), p), Target(d), arg.bits)
  {
    hide P.ValueOf, P.Piece, HasAt, Delimits, DigitsEnd, Clean, Number, ReadIn, ReadAs;
    ReadsArgument(d, arg, charSigned, s, p, S.RequestedRadix(d.conv));
    ReadsAreIntegers(d, s, p);
  }

  /** The same for %i, which recovers the radix from the text. */
  lemma ReadsDescribedArgument(d: P.Directive, arg: P.Arg, charSigned: bool, s: string, p: nat)
    requires P.IsInteger(d.conv) && Clean(d, P.ValueOf(d, arg, charSigned), 0)
    requires HasAt(s, p, P.Piece(d, arg, charSigned)) && Delimits(s, p + |P.Piece(d, arg, charSigned)|)
    requires |P.Piece(d, arg, charSigned)| <= INT_MAX
    ensures p <= |s|
    ensures ReadOpen(d, s, p) == Number(DigitsEnd(d, P.ValueOf(d, arg, charSigned), p), Target(d), arg.bits)
  {
    hide P.ValueOf, P.Piece, HasAt, Delimits, DigitsEnd, Clean, Number, ReadIn, ReadOpen;
    ReadsArgument(d, arg, charSigned, s, p, 0);
    ReadsAreIntegers(d, s, p);
  }

  // ---------------------------------------------------------------- the other texts are not

  /** The scanner makes of the piece, and of nothing else, the number it stands for. */
  predicate ReadsBack(d: P.Directive, v: P.Value, radix0: nat)
    requires P.IsInteger(d.conv)
  {
    var r := ReadIn(d, radix0, P.IntegerPiece(d, v), 0);
    r.status == S.Matched && r.dests == [S.Integer(Target(d), Printed(v) % Pow2(Target(d)))]
  }

  lemma CleanIsReadBack(d: P.Directive, v: P.Value, radix0: nat)
    requires P.IsInteger(d.conv) && PrefixFits(d.conv, v.prefix) && Clean(d, v, radix0) && RadixFits(d, radix0)
    requires |P.IntegerPiece(d, v)| <= INT_MAX
    ensures ReadsBack(d, v, radix0)
  {
    hide P.IntegerPiece, Clean, DigitsEnd, ReadIn, Pow2, HasAt, Delimits;
    WholeText(P.IntegerPiece(d, v));
    ReadPiece(d, v, P.IntegerPiece(d, v), 0, radix0);
  }

  lemma PrefixWithoutDigits(d: P.Directive, v: P.Value, radix0: nat)
    requires P.IsInteger(d.conv) && PrefixFits(d.conv, v.prefix) && RadixFits(d, radix0)
    requires v.prefix == "#"
      || ((Gap(d, v) > 0 || DigitText(d, v) == "") && v.prefix != "" && v.prefix != " " && v.prefix != "0")
    ensures !ReadsBack(d, v, radix0)
  {
    hide P.IntegerPiece, AfterPrefix, S.ReadInteger, DigitText, Gap, Pow2;
    AfterPrefixShape(d, v);
    if v.prefix == "#" {
      HashFails(AfterPrefix(d, v), radix0, radix0 == 0, Target(d));
    } else {
      NoDigitsFail(P.IntegerPiece(d, v), v.prefix, AfterPrefix(d, v), radix0, true, Target(d));
    }
  }

  lemma BlankWithoutDigits(d: P.Directive, v: P.Value, radix0: nat)
    requires P.IsInteger(d.conv) && DigitText(d, v) == "" && (v.prefix == "" || v.prefix == " ")
    ensures !ReadsBack(d, v, radix0)
  {
    hide P.IntegerPiece, AfterPrefix, DigitText, Gap, S.SkipSpace, S.IntegerField, Pow2;
    AfterPrefixShape(d, v);
    var s := P.IntegerPiece(d, v);
    assert forall k :: 0 <= k < |s| ==> s[k] == ' ';
    AllBlank(s, 0);
  }

  /** An octal prefix with blanks behind it is read as zero. */
  lemma OctalPrefixAlone(d: P.Directive, v: P.Value, radix0: nat)
    requires d.conv == 'o' && v.prefix == "0" && Gap(d, v) > 0 && v.magnitude < Pow2(Target(d)) && RadixFits(d, radix0)
    ensures ReadsBack(d, v, radix0) <==> v.magnitude == 0
  {
    hide P.IntegerPiece, AfterPrefix, DigitText, Gap, S.ReadInteger, Pow2;
    AfterPrefixShape(d, v);
    var s := P.IntegerPiece(d, v);
    assert s[1] == ' ';
    assert PartsAt(s, 0, "0", 0, "", 8);
    ReadOctalParts(s, 0, "", radix0, Target(d));
    if v.magnitude != 0 && 0 % Pow2(Target(d)) == Printed(v) % Pow2(Target(d)) {
      CongruentEqual(0, Printed(v), Pow2(Target(d)));
    }
  }

  lemma SmallerIsDifferent(h: nat, n: nat, m: nat)
    requires h < n < m
    ensures h % m != n % m && (0 - h) % m != (0 - n) % m
  {
    if h % m == n % m {
      CongruentEqual(h, n, m);
    }
    if (0 - h) % m == (0 - n) % m {
      CongruentEqual(0 - h, 0 - n, m);
    }
  }

  /** A number that is read for the piece but denotes less than it. */
  lemma ReadsLess(d: P.Directive, v: P.Value, t: string, radix0: nat)
    requires P.IsInteger(d.conv) && PrefixFits(d.conv, v.prefix) && RadixFits(d, radix0)
    requires Undecorated(v.prefix) && GapAllowed(v.prefix, Gap(d, v)) && v.magnitude < Pow2(Target(d))
    requires t != "" && |v.prefix| + |t| <= INT_MAX
    requires var radix := FieldRadix(radix0, t);
      AllDigits(t, radix) && PartsAt(P.IntegerPiece(d, v), 0, v.prefix, Gap(d, v), t, radix)
      && Horner(t, radix) < v.magnitude
    ensures !ReadsBack(d, v, radix0)
  {
    hide P.IntegerPiece, S.ReadInteger, PartsAt, Horner, AllDigits, Gap, Pow2, FieldRadix;
    ReadUndecorated(P.IntegerPiece(d, v), 0, v.prefix, Gap(d, v), t, radix0, radix0 == 0 || d.conv != 'p', Target(d));
    SmallerIsDifferent(Horner(t, FieldRadix(radix0, t)), v.magnitude, Pow2(Target(d)));
  }

  lemma FirstPart(s: string, i: nat, digits: string, k: nat)
    requires HasAt(s, i, digits) && k <= |digits|
    ensures HasAt(s, i, digits[..k])
    ensures k < |digits| ==> i + k < |s| && s[i + k] == digits[k]
  {
    assert digits == digits[..k] + digits[k..];
    HasAtParts(s, i, digits[..k], digits[k..]);
    if k < |digits| {
      HasAtChar(s, i, digits, k);
    }
  }

  /** The digits up to a comma or to the end, where the piece stands alone. */
  lemma LeadingDigitsAt(d: P.Directive, v: P.Value, k: nat)
    requires P.IsInteger(d.conv) && k <= |DigitText(d, v)|
    requires k < |DigitText(d, v)| ==> Digit(DigitText(d, v)[k] as int, 16) < 0 && DigitText(d, v)[k] == ','
    ensures PartsAt(P.IntegerPiece(d, v), 0, v.prefix, Gap(d, v), DigitText(d, v)[..k], 16)
    ensures |v.prefix| + k <= |P.IntegerPiece(d, v)|
  {
    hide P.IntegerPiece, DigitText, Gap, Trail, Digit, HasAt;
    var s := P.IntegerPiece(d, v);
    WholeText(s);
    PieceAt(d, v, s, 0);
    var i, digits := |v.prefix| + Gap(d, v), DigitText(d, v);
    FirstPart(s, i, digits, k);
    HasAtInside(s, i, digits);
  }

  /** Part of the digits stands there too, and ends where the next character is no digit. */
  lemma FewerDigitsAt(s: string, p: nat, prefix: string, gap: nat, digits: string, k: nat, radix: nat)
    requires PartsAt(s, p, prefix, gap, digits, 16) && k <= |digits| && radix <= 16
    requires AllDigits(digits, 16)
    requires k < |digits| ==> Digit(digits[k] as int, radix) < 0
    ensures PartsAt(s, p, prefix, gap, digits[..k], radix)
  {
    var i := p + |prefix| + gap;
    assert digits == digits[..k] + digits[k..];
    HasAtParts(s, i, digits[..k], digits[k..]);
    if k < |digits| {
      HasAtChar(s, i, digits, k);
      assert 0 <= Digit(digits[k] as int, 16);
    } else {
      assert digits[..k] == digits;
      DelimiterEnds(s, i + |digits|, radix);
    }
  }

  lemma AllHex(t: string, radix: nat)
    requires radix <= 16 && AllDigits(t, radix)
    ensures AllDigits(t, 16)
  {
    forall k | 0 <= k < |t|
      ensures 0 <= Digit(t[k] as int, 16)
    {
      assert 0 <= Digit(t[k] as int, radix);
      RadixMonotone(t[k] as int, radix, 16);
    }
  }

  lemma FrontIsPrefix(t: string, radix: nat)
    ensures |Front(t, radix)| <= |t| && Front(t, radix) == t[..|Front(t, radix)|]
    ensures t != "" && t[0] == '0' && 1 <= radix ==> Front(t, radix) != ""
    ensures Front(t, radix) != "" ==> t != "" && Front(t, radix)[0] == t[0]
  {
    assert 1 <= radix ==> Digit('0' as int, radix) == 0;
  }

  lemma LetterAlone(d: P.Directive, v: P.Value, t: string)
    requires P.IsInteger(d.conv) && PrefixFits(d.conv, v.prefix) && Undecorated(v.prefix)
    requires t != "" && AllDigits(t, 16) && PartsAt(P.IntegerPiece(d, v), 0, v.prefix, Gap(d, v), t, 16)
    requires AllDigits(t, P.Radix(d.conv)) && Digit(t[0] as int, FieldRadix(0, t)) < 0
    ensures !ReadsBack(d, v, 0)
  {
    hide P.IntegerPiece, S.ReadInteger, PartsAt, Gap, Pow2;
    assert Digit('0' as int, 8) == 0;
    assert 0 <= Digit(t[0] as int, P.Radix(d.conv));
    LetterFails(P.IntegerPiece(d, v), 0, v.prefix, Gap(d, v), t, Target(d));
  }

  /** Digits that an open read takes in too small a radix. */
  lemma TakenInSmallerRadix(d: P.Directive, v: P.Value, t: string)
    requires P.IsInteger(d.conv) && PrefixFits(d.conv, v.prefix)
    requires Undecorated(v.prefix) && GapAllowed(v.prefix, Gap(d, v)) && v.magnitude < Pow2(Target(d))
    requires t != "" && |v.prefix| + |t| <= INT_MAX && AllDigits(t, P.Radix(d.conv))
    requires PartsAt(P.IntegerPiece(d, v), 0, v.prefix, Gap(d, v), t, 16)
    requires FieldRadix(0, t) < P.Radix(d.conv)
    requires Horner(t, P.Radix(d.conv)) <= v.magnitude && FieldRadix(0, t) <= v.magnitude
    ensures !ReadsBack(d, v, 0)
  {
    hide P.IntegerPiece, S.ReadInteger, PartsAt, Horner, AllDigits, Gap, Pow2, Front, Digit;
    var radix, base := FieldRadix(0, t), P.Radix(d.conv);
    AllHex(t, base);
    FrontDenotes(t, radix, base);
    var front := Front(t, radix);
    FrontIsPrefix(t, radix);
    FewerDigitsAt(P.IntegerPiece(d, v), 0, v.prefix, Gap(d, v), t, |front|, radix);
    if front != "" {
      ReadsLess(d, v, front, 0);
    } else {
      LetterAlone(d, v, t);
    }
  }

  lemma CommaEnds()
    ensures Digit(',' as int, 16) < 0
  {
  }

  lemma PartsInDecimal(s: string, prefix: string, gap: nat, t: string)
    requires PartsAt(s, 0, prefix, gap, t, 16)
    ensures PartsAt(s, 0, prefix, gap, t, 10)
  {
    DelimiterEnds(s, 0 + |prefix| + gap + |t|, 10);
  }

  /** A grouped number is read only up to its first comma, so never as itself. */
  lemma CommaIsNotReadBack(d: P.Directive, v: P.Value, radix0: nat)
    requires P.IsInteger(d.conv) && HasComma(d, v) && PrefixFits(d.conv, v.prefix) && RadixFits(d, radix0)
    requires GapAllowed(v.prefix, Gap(d, v))
    requires v.magnitude < Pow2(Target(d)) && |P.IntegerPiece(d, v)| <= INT_MAX
    ensures !ReadsBack(d, v, radix0)
  {
    hide P.IntegerPiece, DigitText, Gap, PartsAt, Horner, AllDigits, Pow2, ReadsBack, Digit;
    var k := CommaStops(d, v);
    CommaEnds();
    LeadingDigitsAt(d, v, k);
    var t := DigitText(d, v)[..k];
    if FieldRadix(radix0, t) == 10 {
      PartsInDecimal(P.IntegerPiece(d, v), v.prefix, Gap(d, v), t);
      ReadsLess(d, v, t, radix0);
    } else {
      TakenInSmallerRadix(d, v, t);
    }
  }

  /** Bare octal digits read in decimal, where that does not overflow to the number itself. */
  lemma OverflowsElsewhere(d: P.Directive, v: P.Value)
    requires d.conv == 'o' && LeadingZeros(d, v) == 0 && v.prefix == "" && DigitText(d, v) != ""
    requires PartsAt(P.IntegerPiece(d, v), 0, v.prefix, Gap(d, v), DigitText(d, v), 16)
    requires Excess(v.magnitude) % Pow2(Target(d)) != 0
    requires FieldRadix(0, DigitText(d, v)) == 10 && |DigitText(d, v)| <= INT_MAX
    ensures !ReadsBack(d, v, 0)
  {
    hide P.IntegerPiece, DigitText, Gap, PartsAt, Horner, AllDigits, Pow2, S.ReadInteger, LeadingZeros, DecimalReading;
    BareOctal(d, v);
    PartsInDecimal(P.IntegerPiece(d, v), v.prefix, Gap(d, v), DigitText(d, v));
    ReadUndecorated(P.IntegerPiece(d, v), 0, v.prefix, Gap(d, v), DigitText(d, v), 0, true, Target(d));
    CongruentExactly(DecimalReading(v.magnitude), v.magnitude, Pow2(Target(d)));
  }

  /** Digits without a comma that an open read takes in the wrong radix. */
  lemma WrongRadix(d: P.Directive, v: P.Value)
    requires P.IsInteger(d.conv) && !HasComma(d, v) && PrefixFits(d.conv, v.prefix) && DigitText(d, v) != ""
    requires Undecorated(v.prefix) && GapAllowed(v.prefix, Gap(d, v)) && !OpenlyRead(d, v)
    requires v.magnitude < Pow2(Target(d)) && |P.IntegerPiece(d, v)| <= INT_MAX
    ensures !ReadsBack(d, v, 0)
  {
    hide P.IntegerPiece, DigitText, Gap, PartsAt, Horner, AllDigits, Pow2, ReadsBack, LeadingZeros, Excess;
    var s, t := P.IntegerPiece(d, v), DigitText(d, v);
    WholeText(s);
    PieceReady(d, v, s, 0);
    FirstIsZero(d, v);
    if FieldRadix(0, t) < P.Radix(d.conv) {
      TakenInSmallerRadix(d, v, t);
    } else {
      OverflowsElsewhere(d, v);
    }
  }

  // ---------------------------------------------------------------- exactly when

  lemma OctalHasNoComma(d: P.Directive, v: P.Value)
    requires PrefixFits(d.conv, v.prefix) && v.prefix == "0"
    ensures d.conv == 'o' && !HasComma(d, v)
  {
  }

  /** A piece is read back as the number it stands for exactly when it is recoverable. */
  lemma ReadsBackExactly(d: P.Directive, v: P.Value, radix0: nat)
    requires P.IsInteger(d.conv) && PrefixFits(d.conv, v.prefix) && RadixFits(d, radix0)
    requires v.magnitude < Pow2(Target(d)) && |P.IntegerPiece(d, v)| <= INT_MAX
    ensures ReadsBack(d, v, radix0) <==> Recoverable(d, v, radix0)
  {
    hide P.IntegerPiece, DigitText, Gap, Pow2, ReadsBack, HasComma, P.LeastDigits, OpenlyRead;
    DigitTextEmpty(d, v);
    if Clean(d, v, radix0) {
      CleanIsReadBack(d, v, radix0);
    } else if v.prefix == "#"
        || ((Gap(d, v) > 0 || DigitText(d, v) == "") && v.prefix != "" && v.prefix != " " && v.prefix != "0") {
      PrefixWithoutDigits(d, v, radix0);
    } else if v.prefix == "0" {
      OctalHasNoComma(d, v);
      OctalPrefixAlone(d, v, radix0);
    } else if DigitText(d, v) == "" {
      BlankWithoutDigits(d, v, radix0);
    } else if HasComma(d, v) {
      CommaIsNotReadBack(d, v, radix0);
    } else {
      WrongRadix(d, v);
    }
  }

  /** The target receives the argument. */
  predicate Returns(r: S.Read, d: P.Directive, arg: P.Arg) {
    r.status == S.Matched && r.dests == [S.Integer(Target(d), arg.bits % Pow2(Target(d)))]
  }

  lemma RoundTripIn(d: P.Directive, arg: P.Arg, charSigned: bool, radix0: nat)
    requires P.IsInteger(d.conv) && |P.Piece(d, arg, charSigned)| <= INT_MAX && RadixFits(d, radix0)
    ensures Returns(ReadIn(d, radix0, P.Piece(d, arg, charSigned), 0), d, arg)
      <==> Recoverable(d, P.ValueOf(d, arg, charSigned), radix0)
  {
    hide P.IntegerPiece, P.ValueOf, P.Piece, Pow2, Recoverable, ReadIn;
    var v := P.ValueOf(d, arg, charSigned);
    PieceIsInteger(d, arg, charSigned);
    ValuePrefixFits(d, arg, charSigned);
    ValueIsStored(d, arg, charSigned);
    ReadsBackExactly(d, v, radix0);
  }

  /**
   * For every integer directive and every argument: scanning the printed text with the same
   * conversion stores the argument, truncated to the target, exactly when the text is
   * recoverable in the radix that this conversion requests; that of %i is left open.
   */
  lemma RoundTripExactly(d: P.Directive, arg: P.Arg, charSigned: bool)
    requires P.IsInteger(d.conv) && |P.Piece(d, arg, charSigned)| <= INT_MAX
    ensures Returns(ReadAs(d, P.Piece(d, arg, charSigned), 0), d, arg)
      <==> Recoverable(d, P.ValueOf(d, arg, charSigned), S.RequestedRadix(d.conv))
  {
    hide P.ValueOf, P.Piece, Recoverable, ReadIn, ReadAs, Returns;
    ReadsAreIntegers(d, P.Piece(d, arg, charSigned), 0);
    RoundTripIn(d, arg, charSigned, S.RequestedRadix(d.conv));
  }

  /** The same for reading the text of any integer directive with %i. */
  lemma OpenRoundTripExactly(d: P.Directive, arg: P.Arg, charSigned: bool)
    requires P.IsInteger(d.conv) && |P.Piece(d, arg, charSigned)| <= INT_MAX
    ensures Returns(ReadOpen(d, P.Piece(d, arg, charSigned), 0), d, arg)
      <==> Recoverable(d, P.ValueOf(d, arg, charSigned), 0)
  {
    hide P.ValueOf, P.Piece, Recoverable, ReadIn, ReadOpen, Returns;
    ReadsAreIntegers(d, P.Piece(d, arg, charSigned), 0);
    RoundTripIn(d, arg, charSigned, 0);
  }

  lemma TargetWidths(d: P.Directive)
    ensures Target(d) in {8, 16, 32, 64}
  {
  }

  lemma BodyEmpty(d: P.Directive)
    requires P.IsInteger(d.conv)
    ensures P.Body(d, 0) == ""
  {
  }

  lemma NothingForZero(d: P.Directive, v: P.Value)
    requires P.IsInteger(d.conv) && LeadingZeros(d, v) == 0
    ensures v.magnitude == 0 ==> P.LeastDigits(d) <= 0
  {
    DigitTextEmpty(d, v);
    NumeralLeads(v.magnitude, P.Radix(d.conv), d.conv == 'X');
    BodyEmpty(d);
  }

  lemma SingleDigit(m: nat)
    ensures m < 8 ==> Excess(m) == 0
  {
    ExcessStep(m);
  }

  /** Bare octal digits survive an open read in the narrower targets only as single digits. */
  lemma BareOctalIsLost(d: P.Directive, v: P.Value)
    requires d.conv == 'o' && v.prefix == "" && LeadingZeros(d, v) == 0
    requires Target(d) < 64 && v.magnitude < Pow2(Target(d))
    ensures Recoverable(d, v, 0) <==> 0 < v.magnitude < 8
  {
    hide Pow2, Excess, LeadingZeros, DigitText, P.LeastDigits;
    TargetWidths(d);
    NothingForZero(d, v);
    SingleDigit(v.magnitude);
    if 8 <= v.magnitude {
      NoNarrowCoincidence(v.magnitude, Target(d));
    }
  }

  const WIDE_OCTAL := P.Directive(P.NO_FLAGS, 0, 0, LenLongLong, 'o')

  /** In the widest target a longer text can survive: the decimal reading overflows back to the number. */
  lemma BareOctalComesBack()
    ensures Recoverable(WIDE_OCTAL, P.Value("", 16454510724414655648), 0)
  {
    hide Excess, Pow2, Numeral;
    WideCoincidence();
    PowersOfTwo();
    NumeralLeads(16454510724414655648, 8, false);
    ModUnique(Excess(16454510724414655648), TWO_TO_64, 87, 0);
  }

  // ---------------------------------------------------------------- texts that are lost

  const WIDE_DECIMAL := P.Directive(P.NO_FLAGS, 6, 0, LenInt, 'd')

  lemma DigitsOf42()
    ensures Numeral(42, 10, false) == "42"
  {
    assert Numeral(4, 10, false) == Numeral(0, 10, false) + [DigitChar(4, false)];
    assert Numeral(42, 10, false) == Numeral(4, 10, false) + [DigitChar(2, false)];
  }

  lemma Minus42(charSigned: bool)
    ensures P.ValueOf(WIDE_DECIMAL, P.Arg(0xffff_ffd6, P.Null), charSigned) == P.Value("-", 42)
  {
    PowersOfTwo();
    hide Pow2;
  }

  lemma WideMinus42()
    ensures P.IntegerPiece(WIDE_DECIMAL, P.Value("-", 42)) == "-   42"
  {
    hide Numeral;
    DigitsOf42();
    assert P.Body(WIDE_DECIMAL, 42) == "42";
    assert Repeat(' ', 3) == "   " && Repeat('0', 0) == "";
  }

  /** %6d of -42 leaves blanks between sign and digits, and %d fails on it. */
  lemma PaddedSignIsLost(charSigned: bool)
    ensures var text := P.Piece(WIDE_DECIMAL, P.Arg(0xffff_ffd6, P.Null), charSigned);
      text == "-   42" && ReadAs(WIDE_DECIMAL, text, 0).status == S.Failed
  {
    hide P.IntegerPiece, P.ValueOf, S.ReadInteger, Pow2;
    Minus42(charSigned);
    WideMinus42();
    NoDigitsFail("-   42", "-", "   42", 10, true, 32);
  }

  const FILLED := P.Directive(P.NO_FLAGS.(zero := true), 5, 0, LenInt, 'i')

  lemma Filled42(charSigned: bool)
    ensures P.ValueOf(FILLED, P.Arg(42, P.Null), charSigned) == P.Value("", 42)
    ensures 34 % Pow2(32) == 34
  {
    PowersOfTwo();
    hide Pow2;
  }

  lemma FilledPiece()
    ensures P.IntegerPiece(FILLED, P.Value("", 42)) == "00042"
  {
    hide Numeral;
    DigitsOf42();
    assert P.Body(FILLED, 42) == "42";
    assert Repeat('0', 3) == "000" && Repeat('0', 0) == "";
  }

  lemma OctalOf34()
    ensures AllDigits("00042", 8) && Horner("00042", 8) == 34
  {
    HornerSnoc("", '4', 8);
    HornerSnoc("4", '2', 8);
    HornerLeadingZeros(3, "42", 8);
    assert "00042" == Repeat('0', 3) + "42" && "" + ['4'] == "4" && "4" + ['2'] == "42";
    assert Horner("", 8) == 0;
  }

  /** %05i of 42 is filled with zeros, and %i takes it for octal. */
  lemma FilledDecimalIsOctal(charSigned: bool)
    ensures var text := P.Piece(FILLED, P.Arg(42, P.Null), charSigned);
      text == "00042" && ReadAs(FILLED, text, 0) == S.Read(5, S.Matched, [S.Integer(32, 34)])
  {
    hide P.IntegerPiece, P.ValueOf, S.ReadInteger, Pow2, Horner, AllDigits;
    Filled42(charSigned);
    FilledPiece();
    OctalOf34();
    assert PartsAt("00042", 0, "", 0, "00042", 8);
    ReadUndecorated("00042", 0, "", 0, "00042", 0, true, 32);
  }

  // ---------------------------------------------------------------- two families of texts

  /** Default precision, no grouping, and no blanks in front of the digits; no zeros in front for %i. */
  predicate Plain(d: P.Directive) {
    P.IsInteger(d.conv) && !d.flags.precise && !d.flags.tick && !(d.conv == 'p' && d.flags.alternative)
    && (d.width == 0 || d.flags.left || (d.flags.zero && d.conv != 'i'))
  }

  /** Zeros in front of decimal digits appear only for filling, or to show a zero. */
  lemma PlainHasFewZeros(d: P.Directive, v: P.Value)
    requires Plain(d) && P.IsDecimal(d.conv) && (d.width == 0 || d.flags.left)
    ensures LeadingZeros(d, v) == 0 || v.magnitude == 0
  {
    NumeralLeads(v.magnitude, 10, false);
    assert Pad(d, v) <= 0 || d.flags.left;
  }

  /** Such a directive gives a clean text for every argument, the most negative number and zero included. */
  lemma PlainIsClean(d: P.Directive, arg: P.Arg, charSigned: bool)
    requires Plain(d)
    ensures Clean(d, P.ValueOf(d, arg, charSigned), S.RequestedRadix(d.conv))
  {
    hide P.SignedArg, P.UnsignedArg, P.Body, Excess, Pow2;
    ValuePrefixFits(d, arg, charSigned);
    if d.conv == 'i' {
      PlainHasFewZeros(d, P.ValueOf(d, arg, charSigned));
    }
  }

  /** %#x and %#o, and decimal conversions without zero filling, are clean for an open read as well. */
  lemma PlainIsSelfDescribing(d: P.Directive, arg: P.Arg, charSigned: bool)
    requires Plain(d)
    requires (d.conv in ['x', 'X', 'o'] && d.flags.alternative) || (P.IsDecimal(d.conv) && (d.width == 0 || d.flags.left))
    ensures Clean(d, P.ValueOf(d, arg, charSigned), 0)
  {
    PlainIsClean(d, arg, charSigned);
    var v := P.ValueOf(d, arg, charSigned);
    if P.IsDecimal(d.conv) {
      PlainHasFewZeros(d, v);
    }
  }
}
