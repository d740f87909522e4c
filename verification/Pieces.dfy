/** The parts of a printed integer, and how a reader comes upon them in a text. */
module Pieces {
  import opened Numerals
  import opened Grouping
  import opened DigitBuffer
  import opened FormatText
  import opened ReadBack
  import P = PrintfFormat
  import S = ScanFormat

  // ---------------------------------------------------------------- the shape of a piece

  function Precision0s(d: P.Directive, v: P.Value): nat
    requires P.IsInteger(d.conv)
  {
    Max(0, P.LeastDigits(d) - |P.Body(d, v.magnitude)|)
  }

  function Pad(d: P.Directive, v: P.Value): int
    requires P.IsInteger(d.conv)
  {
    d.width - Precision0s(d, v) - |P.Body(d, v.magnitude)| - |v.prefix|
  }

  /** The blanks between the prefix and the digits. */
  function Gap(d: P.Directive, v: P.Value): nat
    requires P.IsInteger(d.conv)
  {
    if d.flags.left || P.ZeroFills(d) then 0 else Max(0, Pad(d, v))
  }

  function LeadingZeros(d: P.Directive, v: P.Value): nat
    requires P.IsInteger(d.conv)
  {
    Precision0s(d, v) + if !d.flags.left && P.ZeroFills(d) then Max(0, Pad(d, v)) else 0
  }

  function DigitText(d: P.Directive, v: P.Value): string
    requires P.IsInteger(d.conv)
  {
    Repeat('0', LeadingZeros(d, v)) + P.Body(d, v.magnitude)
  }

  function Trail(d: P.Directive, v: P.Value): string
    requires P.IsInteger(d.conv)
  {
    P.Trailing(d, Pad(d, v))
  }

  lemma ZerosJoin(m: nat, n: nat, s: string)
    ensures Repeat('0', m) + (Repeat('0', n) + s) == Repeat('0', n + m) + s
  {
  }

  lemma Associates(a: string, b: string, c: string, d: string, e: string)
    ensures a + b + c + d + e == a + (b + (c + d)) + e
    ensures a + b + c + d + e == a + b + (c + d) + e
    ensures a + "" + b == a + b
  {
  }

  function Lead(d: P.Directive, v: P.Value): string
    requires P.IsInteger(d.conv)
  {
    P.Leading(d, P.ZeroFills(d), Pad(d, v))
  }

  lemma PieceParts(d: P.Directive, v: P.Value)
    requires P.IsInteger(d.conv)
    ensures P.IntegerPiece(d, v)
      == v.prefix + Lead(d, v) + Repeat('0', Precision0s(d, v)) + P.Body(d, v.magnitude) + Trail(d, v)
  {
    hide P.Body, P.Leading, P.Trailing, P.ZeroFills, P.LeastDigits, Repeat;
  }

  /** The padding in front consists of blanks, or of zeros that join the digits. */
  lemma LeadShape(d: P.Directive, v: P.Value)
    requires P.IsInteger(d.conv)
    ensures Gap(d, v) > 0 ==> Trail(d, v) == ""
    ensures !d.flags.left && P.ZeroFills(d) ==>
      Gap(d, v) == 0 && Lead(d, v) == Repeat('0', Max(0, Pad(d, v)))
      && LeadingZeros(d, v) == Precision0s(d, v) + Max(0, Pad(d, v))
    ensures !(!d.flags.left && P.ZeroFills(d)) ==>
      Lead(d, v) == Repeat(' ', Gap(d, v)) && LeadingZeros(d, v) == Precision0s(d, v)
  {
    hide P.Body, P.LeastDigits, P.ZeroFills, Pad, Precision0s;
  }

  lemma JoinZeros(prefix: string, m: nat, n: nat, body: string, trail: string)
    ensures prefix + Repeat('0', m) + Repeat('0', n) + body + trail
      == prefix + Repeat(' ', 0) + (Repeat('0', n + m) + body) + trail
  {
    ZerosJoin(m, n, body);
    Associates(prefix, Repeat('0', m), Repeat('0', n), body, trail);
    Associates(prefix, Repeat('0', n + m) + body, "", "", "");
  }

  /** Prefix, blanks, digits, trailing blanks. */
  lemma PieceShape(d: P.Directive, v: P.Value)
    requires P.IsInteger(d.conv)
    ensures P.IntegerPiece(d, v) == v.prefix + Repeat(' ', Gap(d, v)) + DigitText(d, v) + Trail(d, v)
    ensures Gap(d, v) > 0 ==> Trail(d, v) == ""
  {
    PieceParts(d, v);
    LeadShape(d, v);
    var z, body := Precision0s(d, v), P.Body(d, v.magnitude);
    assert DigitText(d, v) == Repeat('0', LeadingZeros(d, v)) + body;
    hide P.IntegerPiece, P.Body, P.ZeroFills, Pad, Precision0s, Lead, Gap, Trail, LeadingZeros, DigitText, Repeat;
    if !d.flags.left && P.ZeroFills(d) {
      JoinZeros(v.prefix, Max(0, Pad(d, v)), z, body, Trail(d, v));
    } else {
      Associates(v.prefix, Lead(d, v), Repeat('0', z), body, Trail(d, v));
    }
  }

  /** The digits of a grouped number of four digits and more contain a comma. */
  predicate HasComma(d: P.Directive, v: P.Value) {
    P.IsDecimal(d.conv) && d.flags.tick && v.magnitude >= 1000
  }

  /** Without a comma the digit text denotes the magnitude. */
  lemma DigitTextValue(d: P.Directive, v: P.Value)
    requires P.IsInteger(d.conv) && !HasComma(d, v)
    ensures AllDigits(DigitText(d, v), P.Radix(d.conv))
    ensures Horner(DigitText(d, v), P.Radix(d.conv)) == v.magnitude
  {
    var radix, capitals := P.Radix(d.conv), d.conv == 'X';
    var body := Numeral(v.magnitude, radix, capitals);
    if P.IsDecimal(d.conv) && d.flags.tick {
      NumeralLength(v.magnitude, 10, false, 3);
      assert Pow(10, 3) == 1000;
    }
    assert P.Body(d, v.magnitude) == body;
    HornerOfNumeral(v.magnitude, radix, capitals);
    HornerLeadingZeros(LeadingZeros(d, v), body, radix);
  }

  /** There is no digit at all for a zero with precision zero, and only then. */
  lemma DigitTextEmpty(d: P.Directive, v: P.Value)
    requires P.IsInteger(d.conv)
    ensures DigitText(d, v) == "" <==> v.magnitude == 0 && P.LeastDigits(d) <= 0
  {
    NumeralLeads(v.magnitude, P.Radix(d.conv), d.conv == 'X');
    NumeralLeads(v.magnitude, 10, false);
    NumeralCommaFree(v.magnitude, 10, false);
    GroupedShape(Numeral(v.magnitude, 10, false));
    assert (P.Body(d, v.magnitude) == "") == (v.magnitude == 0);
  }

  // ---------------------------------------------------------------- what a piece stands for

  predicate Negative(v: P.Value) { v.prefix == "-" }

  /** The number a piece stands for. */
  function Printed(v: P.Value): int {
    if Negative(v) then 0 - v.magnitude else v.magnitude
  }

  /** The width of the target that the scanner writes. */
  function Target(d: P.Directive): nat { S.TargetBits(d.conv, d.length) }

  /** The prefixes that go with a conversion. */
  predicate PrefixFits(conv: char, prefix: string) {
    prefix == ""
    || (P.IsSigned(conv) && (prefix == "-" || prefix == "+" || prefix == " "))
    || ((conv == 'x' || conv == 'X') && (prefix == "0x" || prefix == "0X"))
    || (conv == 'o' && prefix == "0")
    || (conv == 'p' && prefix == "#")
  }

  lemma ValuePrefixFits(d: P.Directive, arg: P.Arg, charSigned: bool)
    requires P.IsInteger(d.conv)
    ensures PrefixFits(d.conv, P.ValueOf(d, arg, charSigned).prefix)
  {
  }

  /** What printing keeps of an argument is what reading stores. */
  lemma ValueIsStored(d: P.Directive, arg: P.Arg, charSigned: bool)
    requires P.IsInteger(d.conv)
    ensures Printed(P.ValueOf(d, arg, charSigned)) % Pow2(Target(d)) == arg.bits % Pow2(Target(d))
    ensures P.ValueOf(d, arg, charSigned).magnitude < Pow2(Target(d))
  {
    var bits := Target(d);
    SignedCongruent(arg.bits, bits);
    ModShift(arg.bits, Pow2(bits));
  }

  /** The leading group of a grouped number. */
  lemma LeadingGroup(n: nat) returns (k: nat)
    requires n >= 1000
    ensures var all := Numeral(n, 10, false);
      0 < k < |all| && k < |Grouped(all)| && Grouped(all)[..k] == all[..k] && Grouped(all)[k] == ','
      && AllDigits(all[..k], 10) && Horner(all[..k], 10) < n
  {
    var all := Numeral(n, 10, false);
    NumeralLength(n, 10, false, 3);
    assert Pow(10, 3) == 1000;
    HornerOfNumeral(n, 10, false);
    NumeralLeads(n, 10, false);
    hide Numeral, Pow, Horner;
    k := GroupedStarts(all);
    assert Digit(all[0] as int, 10) > 0 by { assert 0 <= Digit(all[0] as int, 10); }
    HornerPrefixLess(all, k, 10);
  }

  lemma GroupedText(d: P.Directive, v: P.Value)
    requires P.IsInteger(d.conv) && HasComma(d, v)
    ensures v.magnitude >= 1000
    ensures DigitText(d, v) == Repeat('0', LeadingZeros(d, v)) + Grouped(Numeral(v.magnitude, 10, false))
  {
  }

  lemma PrefixOfSum(a: string, b: string, n: nat)
    requires n < |b|
    ensures (a + b)[..|a| + n] == a + b[..n] && (a + b)[|a| + n] == b[n]
  {
  }

  /** A comma ends the digits after the leading group, which denotes less than the whole. */
  lemma CommaStops(d: P.Directive, v: P.Value) returns (k: nat)
    requires P.IsInteger(d.conv) && HasComma(d, v)
    ensures k < |DigitText(d, v)| && DigitText(d, v)[k] == ',' && k > 0
    ensures AllDigits(DigitText(d, v)[..k], 10) && Horner(DigitText(d, v)[..k], 10) < v.magnitude
  {
    hide *;
    var zeros, all := LeadingZeros(d, v), Numeral(v.magnitude, 10, false);
    GroupedText(d, v);
    var n := LeadingGroup(v.magnitude);
    HornerLeadingZeros(zeros, all[..n], 10);
    RepeatLength('0', zeros);
    PrefixOfSum(Repeat('0', zeros), Grouped(all), n);
    k := zeros + n;
  }

  /** What stands behind the prefix. */
  function AfterPrefix(d: P.Directive, v: P.Value): string
    requires P.IsInteger(d.conv)
  {
    Repeat(' ', Gap(d, v)) + DigitText(d, v) + Trail(d, v)
  }

  lemma TrailIsBlank(d: P.Directive, v: P.Value)
    requires P.IsInteger(d.conv)
    ensures forall k :: 0 <= k < |Trail(d, v)| ==> Trail(d, v)[k] == ' '
  {
  }

  lemma AfterPrefixShape(d: P.Directive, v: P.Value)
    requires P.IsInteger(d.conv)
    ensures P.IntegerPiece(d, v) == v.prefix + AfterPrefix(d, v)
    ensures Gap(d, v) > 0 ==> AfterPrefix(d, v) != ""
    ensures Gap(d, v) > 0 || DigitText(d, v) == "" ==> AfterPrefix(d, v) == "" || AfterPrefix(d, v)[0] == ' '
    ensures DigitText(d, v) == "" ==> forall k :: 0 <= k < |AfterPrefix(d, v)| ==> AfterPrefix(d, v)[k] == ' '
  {
    PieceShape(d, v);
    TrailIsBlank(d, v);
    hide P.IntegerPiece, Gap, DigitText, Trail;
  }

  // ---------------------------------------------------------------- a piece in a text

  /** Where the digits of a piece at index p end. */
  function DigitsEnd(d: P.Directive, v: P.Value, p: nat): nat
    requires P.IsInteger(d.conv)
  {
    p + |v.prefix| + Gap(d, v) + |DigitText(d, v)|
  }

  lemma BlankDelimits(s: string, e: nat, trail: string)
    requires HasAt(s, e, trail) && Delimits(s, e + |trail|)
    requires forall k :: 0 <= k < |trail| ==> trail[k] == ' '
    ensures Delimits(s, e)
  {
    if trail != "" {
      HasAtChar(s, e, trail, 0);
    }
  }

  lemma PieceAt(d: P.Directive, v: P.Value, s: string, p: nat)
    requires P.IsInteger(d.conv) && HasAt(s, p, P.IntegerPiece(d, v))
    requires Delimits(s, p + |P.IntegerPiece(d, v)|)
    ensures HasAt(s, p, v.prefix) && HasAt(s, p + |v.prefix|, Repeat(' ', Gap(d, v)))
    ensures HasAt(s, p + |v.prefix| + Gap(d, v), DigitText(d, v))
    ensures Delimits(s, DigitsEnd(d, v, p))
    ensures HasAt(s, DigitsEnd(d, v, p), Trail(d, v))
    ensures DigitsEnd(d, v, p) + |Trail(d, v)| == p + |P.IntegerPiece(d, v)|
  {
    hide P.IntegerPiece, DigitText, Trail, Gap, HasAt, Repeat, Delimits;
    PieceShape(d, v);
    var a, b, c, e := v.prefix, Repeat(' ', Gap(d, v)), DigitText(d, v), Trail(d, v);
    TrailIsBlank(d, v);
    HasAtParts(s, p, a + b + c, e);
    HasAtParts(s, p, a + b, c);
    HasAtParts(s, p, a, b);
    BlankDelimits(s, DigitsEnd(d, v, p), e);
  }

  // ---------------------------------------------------------------- prefix, blanks and digits in a text

  /** Prefix, blanks and digits stand at index p, and the digits end there in the radix. */
  predicate PartsAt(s: string, p: nat, prefix: string, gap: nat, digits: string, radix: nat) {
    HasAt(s, p, prefix) && HasAt(s, p + |prefix|, Repeat(' ', gap)) && HasAt(s, p + |prefix| + gap, digits)
    && Ends(s, p + |prefix| + gap + |digits|, radix)
  }

  lemma PrefixJoins(s: string, p: nat, a: string, b: string)
    requires HasAt(s, p, a) && HasAt(s, p + |a|, b)
    ensures HasAt(s, p, a + b)
  {
    assert s[p..p + |a + b|] == s[p..p + |a|] + s[p + |a|..p + |a| + |b|];
  }

  lemma BlankJoins(s: string, p: nat, n: nat)
    requires HasAt(s, p, " ") && HasAt(s, p + 1, Repeat(' ', n))
    ensures HasAt(s, p, Repeat(' ', 1 + n))
  {
    assert Repeat(' ', 1 + n) == " " + Repeat(' ', n);
    PrefixJoins(s, p, " ", Repeat(' ', n));
  }

  lemma ZeroJoins(s: string, p: nat, digits: string)
    requires AllDigits(digits, 8) && HasAt(s, p, "0" + digits)
    ensures AllDigits("0" + digits, 8) && Horner("0" + digits, 8) == Horner(digits, 8)
    ensures HasAt(s, p, Repeat(' ', 0))
  {
    HornerLeadingZeros(1, digits, 8);
    assert Repeat('0', 1) == "0";
  }

  /** Prefixes that leave the radix to the conversion and the digits. */
  predicate Undecorated(prefix: string) {
    prefix == "" || prefix == " " || prefix == "-" || prefix == "+"
  }

  /** Blanks between prefix and digits do no harm. */
  predicate GapAllowed(prefix: string, gap: nat) {
    gap > 0 ==> prefix == "" || prefix == " "
  }

  /** Digits behind a blank or a sign, in the radix that is requested or that they select. */
  lemma ReadUndecorated(s: string, p: nat, prefix: string, gap: nat, digits: string, radix0: nat, signed: bool, bits: nat)
    requires Undecorated(prefix) && GapAllowed(prefix, gap) && (prefix == "-" || prefix == "+" ==> signed)
    requires digits != "" && |prefix| + |digits| <= INT_MAX && (radix0 == 0 || 2 <= radix0 <= 16)
    requires var radix := FieldRadix(radix0, digits);
      AllDigits(digits, radix) && PartsAt(s, p, prefix, gap, digits, radix)
    ensures var n := Horner(digits, FieldRadix(radix0, digits));
      p <= |s|
      && S.ReadInteger(s, p, false, bits, signed, radix0, INT_MAX)
         == Number(p + |prefix| + gap + |digits|, bits, if prefix == "-" then 0 - n else n)
  {
    hide S.ReadInteger, HasAt, Ends, Horner, Number, AllDigits, Repeat, FieldRadix;
    HasAtInside(s, p, prefix);
    if prefix == "-" || prefix == "+" {
      assert prefix == [prefix[0]];
      ReadsSigned(s, p, prefix[0], digits, radix0, bits, INT_MAX);
    } else {
      if prefix == " " {
        BlankJoins(s, p, gap);
      }
      ReadsUnsigned(s, p, |prefix| + gap, digits, radix0, signed, bits, INT_MAX);
    }
  }

  /** Digits behind an octal prefix, which joins them. */
  lemma ReadOctalParts(s: string, p: nat, digits: string, radix0: nat, bits: nat)
    requires PartsAt(s, p, "0", 0, digits, 8) && AllDigits(digits, 8) && 1 + |digits| <= INT_MAX
    requires radix0 == 0 || radix0 == 8
    ensures p <= |s|
    ensures S.ReadInteger(s, p, false, bits, true, radix0, INT_MAX) == Number(p + 1 + |digits|, bits, Horner(digits, 8))
  {
    hide S.ReadInteger, HasAt, Ends, Horner, Number, AllDigits, Repeat;
    HasAtInside(s, p, "0");
    PrefixJoins(s, p, "0", digits);
    ZeroJoins(s, p, digits);
    ReadsUnsigned(s, p, 0, "0" + digits, radix0, true, bits, INT_MAX);
  }

  lemma ReadHexParts(s: string, p: nat, prefix: string, digits: string, radix0: nat, bits: nat)
    requires PartsAt(s, p, prefix, 0, digits, 16) && (prefix == "0x" || prefix == "0X") && (radix0 == 0 || radix0 == 16)
    requires digits != "" && AllDigits(digits, 16) && 2 + |digits| <= INT_MAX
    ensures p <= |s|
    ensures S.ReadInteger(s, p, false, bits, true, radix0, INT_MAX)
      == Number(p + 2 + |digits|, bits, Horner(digits, 16))
  {
    hide S.ReadInteger, HasAt, Horner, Number, AllDigits, Repeat;
    HasAtInside(s, p, prefix);
    PrefixJoins(s, p, prefix, digits);
    assert prefix == ['0', prefix[1]];
    ReadsHex(s, p, prefix[1], digits, radix0, bits, INT_MAX);
  }

  // ---------------------------------------------------------------- texts without a number

  /** A sign, a base prefix or a hash with no digit behind it fails. */
  lemma NoDigitsFail(s: string, prefix: string, rest: string, radix0: nat, signed: bool, bits: nat)
    requires s == prefix + rest && (rest == "" || rest[0] == ' ') && (radix0 == 0 || 2 <= radix0 <= 16)
    requires (signed && (prefix == "-" || prefix == "+"))
      || (signed && (radix0 == 0 || radix0 == 16) && (prefix == "0x" || prefix == "0X"))
    ensures S.ReadInteger(s, 0, false, bits, signed, radix0, INT_MAX).status == S.Failed
  {
    assert s[0] == prefix[0];
    assert |prefix| > 1 ==> s[1] == prefix[1];
    assert rest != "" ==> s[|prefix|] == ' ';
    assert S.SkipSpace(s, 0) == 0;
    var f := S.IntegerField(s, 0, radix0, signed, INT_MAX);
    assert rest != "" ==> Digit(' ' as int, f.radix) < 0;
    assert f.first == f.end;
  }

  lemma HashFails(rest: string, radix0: nat, signed: bool, bits: nat)
    requires radix0 == 0 || radix0 == 16
    ensures S.ReadInteger("#" + rest, 0, false, bits, signed, radix0, INT_MAX).status == S.Failed
  {
    var s := "#" + rest;
    assert s[0] == '#' && S.SkipSpace(s, 0) == 0;
    var f := S.IntegerField(s, 0, radix0, signed, INT_MAX);
    assert Digit('#' as int, f.radix) < 0;
    assert f.first == f.end;
  }

  lemma LetterField(s: string, i: nat)
    requires i < |s| && 0 <= Digit(s[i] as int, 16) && Digit(s[i] as int, 10) < 0
    ensures !IsSpace(s[i] as int)
    ensures var f := S.IntegerField(s, i, 0, true, INT_MAX);
      f.first == f.end
  {
    assert Digit('0' as int, 10) == 0;
  }

  /** A letter fails where decimal digits are expected. */
  lemma LetterFails(s: string, p: nat, prefix: string, gap: nat, digits: string, bits: nat)
    requires PartsAt(s, p, prefix, gap, digits, 16) && (prefix == "" || prefix == " ")
    requires digits != "" && 0 <= Digit(digits[0] as int, 16) && Digit(digits[0] as int, 10) < 0
    ensures p <= |s|
    ensures S.ReadInteger(s, p, false, bits, true, 0, INT_MAX).status == S.Failed
  {
    hide Repeat, HasAt, Ends, Digit, IsSpace, S.IntegerField, S.ReadInteger;
    HasAtInside(s, p, prefix);
    if prefix == " " {
      BlankJoins(s, p, gap);
    }
    var i := p + |prefix| + gap;
    HasAtInside(s, i, digits);
    HasAtChar(s, i, digits, 0);
    LetterField(s, i);
    ReadAfterBlanks(s, p, |prefix| + gap, bits, true, 0, INT_MAX);
  }

  lemma {:induction false} AllBlank(s: string, i: nat)
    requires i <= |s| && forall k :: 0 <= k < |s| ==> s[k] == ' '
    ensures S.SkipSpace(s, i) == |s|
    decreases |s| - i
  {
    if i == |s| {
    } else {
      AllBlank(s, i + 1);
    }
  }
}
