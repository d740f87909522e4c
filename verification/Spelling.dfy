/** Writing directives down: what the parsers of both format languages make of every spelling. */
module Spelling {
  import opened Numerals
  import opened FormatText
  import opened ReadBack
  import P = PrintfFormat
  import S = ScanFormat

  // ---------------------------------------------------------------- numbers

  lemma SmallIntIsKept(n: int)
    requires 0 <= n <= INT_MAX
    ensures Signed(n, 32) == n
  {
    PowersOfTwo();
  }

  /** The digits of a number that fits an int are gathered as its value. */
  lemma {:induction false} GathersDigits(fmt: string, i: nat, digits: string)
    requires HasAt(fmt, i, digits) && AllDigits(digits, 10) && Horner(digits, 10) <= INT_MAX
    ensures GatherNumber(fmt, i, 0) == GatherNumber(fmt, i + |digits|, Horner(digits, 10))
    decreases |digits|
  {
    hide Signed;
    if digits == "" {
    } else {
      var front, c := digits[..|digits| - 1], digits[|digits| - 1];
      assert digits == front + [c];
      HasAtParts(fmt, i, front, [c]);
      HasAtChar(fmt, i, digits, |digits| - 1);
      var n := Horner(front, 10);
      assert Horner(digits, 10) == n * 10 + Digit(c as int, 10);
      GathersDigits(fmt, i, front);
      assert 0 <= Digit(c as int, 10);
      SmallIntIsKept(n * 10 + (c as int - '0' as int));
    }
  }

  /** A number ends where no digit follows. */
  lemma GathersNumber(fmt: string, i: nat, digits: string)
    requires HasAt(fmt, i, digits) && AllDigits(digits, 10) && Horner(digits, 10) <= INT_MAX
    requires !IsDigit(At(fmt, i + |digits|) as int)
    ensures GatherNumber(fmt, i, 0) == (Horner(digits, 10), i + |digits|)
  {
    hide Horner, AllDigits;
    GathersDigits(fmt, i, digits);
  }

  lemma CharAt(fmt: string, i: nat, t: string)
    requires HasAt(fmt, i, t) && t != ""
    ensures At(fmt, i) == t[0]
  {
    HasAtChar(fmt, i, t, 0);
  }

  // ---------------------------------------------------------------- printer directives

  /** A width or precision: digits, possibly none, or a star. */
  datatype Amount = Digits(text: string) | Star

  /** A directive as it is written, after the percent sign. */
  datatype Written = Written(flags: string, width: Amount, precise: bool, precision: Amount, length: string, conv: char)

  function AmountText(a: Amount): string {
    if a.Star? then "*" else a.text
  }

  function LengthOn(w: Written): string { w.length + [w.conv] }

  function PrecisionOn(w: Written): string {
    (if w.precise then "." + AmountText(w.precision) else "") + LengthOn(w)
  }

  function WidthOn(w: Written): string { AmountText(w.width) + PrecisionOn(w) }

  function WrittenText(w: Written): string {
    w.flags + WidthOn(w)
  }

  predicate IsAmount(a: Amount) {
    a.Digits? ==> AllDigits(a.text, 10) && Horner(a.text, 10) <= INT_MAX
  }

  /** Any flags in any order, a width without leading zeros, any precision and length modifier. */
  predicate Writable(w: Written) {
    (forall k :: 0 <= k < |w.flags| ==> w.flags[k] in " #'^+-0")
    && IsAmount(w.width) && IsAmount(w.precision) && (w.width.Digits? && w.width.text != "" ==> w.width.text[0] != '0')
    && w.length in ["", "t", "z", "j", "l", "ll", "h", "hh"]
    && !IsDigit(w.conv as int) && w.conv !in " #'^+-*.tzjlh"
  }

  /** The value written or passed for a width or precision. */
  function AmountOf(a: Amount, args: seq<P.Arg>, next: nat): int
    requires IsAmount(a)
  {
    if a.Star? then Signed(P.ArgAt(args, next).bits, 32) else Horner(a.text, 10)
  }

  function Stars(a: Amount): nat { if a.Star? then 1 else 0 }

  /** An L is no modifier: it is left to be the conversion, which it makes a long one. */
  function LengthOf(w: Written): Length {
    if w.length == "j" || w.length == "ll" then LenLongLong
    else if w.length == "l" || (w.length == "" && w.conv == 'L') then LenLong
    else if w.length == "hh" then LenChar
    else if w.length == "h" then LenShort
    else LenInt
  }

  predicate Has(t: string, c: char) { c in t }

  /** The flags with those of a text added. */
  function Raised(f: P.Flags, t: string): P.Flags {
    P.Flags(f.space || Has(t, ' '), f.alternative || Has(t, '#'), f.tick || Has(t, '\''), f.engineering || Has(t, '^'),
            f.plus || Has(t, '+'), f.left || Has(t, '-'), f.zero || Has(t, '0'), f.precise)
  }

  lemma FlagListed(c: char)
    ensures c in " #'^+-0" <==> P.IsFlag(c)
  {
    var t := " #'^+-0";
    assert t[0] == ' ' && t[1] == '#' && t[2] == '\'' && t[3] == '^' && t[4] == '+' && t[5] == '-' && t[6] == '0';
  }

  lemma InCons(x: char, c: char, rest: string)
    ensures Has([c] + rest, x) <==> x == c || Has(rest, x)
  {
  }

  lemma RaisedStep(f: P.Flags, c: char, rest: string)
    requires P.IsFlag(c)
    ensures Raised(P.Flagged(c, f), rest) == Raised(f, [c] + rest)
  {
    hide Has;
    InCons(' ', c, rest);
    InCons('#', c, rest);
    InCons('\'', c, rest);
    InCons('^', c, rest);
    InCons('+', c, rest);
    InCons('-', c, rest);
    InCons('0', c, rest);
  }

  lemma RaisedByNone(f: P.Flags)
    ensures Raised(f, "") == f
  {
  }

  /** Flags are gathered in any order and number. */
  lemma {:induction false} FlagsAreRead(fmt: string, i: nat, t: string, f: P.Flags)
    requires HasAt(fmt, i, t) && forall k :: 0 <= k < |t| ==> t[k] in " #'^+-0"
    requires !P.IsFlag(At(fmt, i + |t|))
    ensures P.GatherFlags(fmt, i, f) == (Raised(f, t), i + |t|)
    decreases |t|
  {
    hide Raised, P.Flagged, P.IsFlag;
    if t == "" {
      RaisedByNone(f);
    } else {
      assert t == [t[0]] + t[1..];
      HasAtParts(fmt, i, [t[0]], t[1..]);
      HasAtChar(fmt, i, t, 0);
      FlagListed(t[0]);
      RaisedStep(f, t[0], t[1..]);
      FlagsAreRead(fmt, i + 1, t[1..], P.Flagged(t[0], f));
    }
  }

  lemma DigitIsNoFlag(c: char)
    ensures IsDigit(c as int) && c != '0' ==> !P.IsFlag(c)
    ensures c == '*' ==> !P.IsFlag(c)
  {
  }

  lemma AmountStarts(a: Amount)
    requires IsAmount(a) && AmountText(a) != ""
    ensures AmountText(a)[0] == '*' <==> a.Star?
    ensures a.Digits? ==> IsDigit(AmountText(a)[0] as int)
  {
    hide Horner;
    if a.Digits? {
      assert 0 <= Digit(a.text[0] as int, 10);
    }
  }

  lemma LengthStarts(w: Written)
    requires Writable(w)
    ensures LengthOn(w) != ""
    ensures var c := LengthOn(w)[0];
      !IsDigit(c as int) && c != '*' && c != '.' && !P.IsFlag(c)
  {
    hide Horner, AllDigits;
  }

  lemma PrecisionStarts(w: Written)
    requires Writable(w)
    ensures PrecisionOn(w) != ""
    ensures var c := PrecisionOn(w)[0];
      !IsDigit(c as int) && c != '*' && (c == '.' <==> w.precise) && !P.IsFlag(c)
  {
    hide Writable;
    LengthStarts(w);
    hide LengthOn;
    assert w.precise ==> PrecisionOn(w)[0] == '.';
    assert !w.precise ==> PrecisionOn(w) == LengthOn(w);
  }

  /** What follows the flags is none, and what follows a number is no digit. */
  lemma PartsStart(w: Written)
    requires Writable(w)
    ensures WidthOn(w) != "" && !P.IsFlag(WidthOn(w)[0]) && (WidthOn(w)[0] == '*' <==> w.width.Star?)
    ensures PrecisionOn(w) != "" && !IsDigit(PrecisionOn(w)[0] as int) && (PrecisionOn(w)[0] == '.' <==> w.precise)
    ensures LengthOn(w) != "" && !IsDigit(LengthOn(w)[0] as int) && LengthOn(w)[0] != '*'
  {
    hide Horner, AllDigits, PrecisionOn, LengthOn;
    LengthStarts(w);
    PrecisionStarts(w);
    if AmountText(w.width) == "" {
      assert WidthOn(w) == PrecisionOn(w);
    } else {
      AmountStarts(w.width);
      DigitIsNoFlag(AmountText(w.width)[0]);
    }
  }

  /** A width or precision, and the text that goes on behind it. */
  lemma AmountIsRead(fmt: string, i: nat, a: Amount, rest: string, args: seq<P.Arg>, next: nat)
    requires IsAmount(a) && HasAt(fmt, i, AmountText(a) + rest)
    requires rest != "" && !IsDigit(rest[0] as int) && rest[0] != '*'
    ensures P.GatherStarOrNumber(fmt, i, args, next) == (AmountOf(a, args, next), i + |AmountText(a)|, next + Stars(a))
    ensures (At(fmt, i) == '*' <==> a.Star?) && HasAt(fmt, i + |AmountText(a)|, rest)
  {
    hide HasAt, Horner, AllDigits, Signed, GatherNumber;
    HasAtParts(fmt, i, AmountText(a), rest);
    CharAt(fmt, i, AmountText(a) + rest);
    CharAt(fmt, i + |AmountText(a)|, rest);
    if AmountText(a) != "" {
      AmountStarts(a);
    }
    if a.Digits? {
      GathersNumber(fmt, i, a.text);
    }
  }

  lemma LengthIsRead(fmt: string, i: nat, w: Written)
    requires Writable(w) && HasAt(fmt, i, LengthOn(w))
    ensures P.GatherLength(fmt, i) == (LengthOf(w), i + |w.length|)
    ensures At(fmt, i + |w.length|) == w.conv
  {
    hide Horner, AllDigits;
    var t := LengthOn(w);
    HasAtChar(fmt, i, t, 0);
    HasAtChar(fmt, i, t, |t| - 1);
    if |t| > 1 {
      HasAtChar(fmt, i, t, 1);
    }
  }

  /** The width that is in force: the magnitude; -2^31 has none in an int and gives zero. */
  function WidthOf(n: int): int {
    if n >= 0 then n else if n == -0x8000_0000 then 0 else -n
  }

  lemma NegatedWidth(n: int)
    requires -0x8000_0000 <= n < 0
    ensures Max(0, Signed(-n, 32)) == WidthOf(n)
  {
    hide Pow2;
    PowersOfTwo();
    ModUnique(-n, 0x1_0000_0000, 0, -n);
  }
  lemma NonNegativeWidth(n: int)
    ensures n >= 0 ==> WidthOf(n) == n
  {
  }

  lemma AmountInRange(a: Amount, args: seq<P.Arg>, next: nat)
    requires IsAmount(a)
    ensures -0x8000_0000 <= AmountOf(a, args, next) <= INT_MAX
    ensures a.Digits? ==> AmountOf(a, args, next) >= 0
  {
    PowersOfTwo();
    SignedCongruent(P.ArgAt(args, next).bits, 32);
  }

  lemma WidthIsRead(fmt: string, i: nat, w: Written, f: P.Flags, args: seq<P.Arg>, next: nat)
    requires Writable(w) && HasAt(fmt, i, WidthOn(w))
    ensures var n := AmountOf(w.width, args, next);
      P.ParseWidth(fmt, i, f, args, next)
        == P.Sized(f.(left := f.left || n < 0), WidthOf(n), i + |AmountText(w.width)|, next + Stars(w.width))
    ensures HasAt(fmt, i + |AmountText(w.width)|, PrecisionOn(w))
  {
    hide HasAt, AmountOf, PrecisionOn, AmountText, Horner, AllDigits, At, Signed, WidthOf, Stars, IsDigit;
    hide P.GatherStarOrNumber, P.IsFlag;
    PrecisionStarts(w);
    NonNegativeWidth(AmountOf(w.width, args, next));
    AmountIsRead(fmt, i, w.width, PrecisionOn(w), args, next);
    AmountInRange(w.width, args, next);
    var n := AmountOf(w.width, args, next);
    if n < 0 {
      NegatedWidth(n);
    }
  }

  lemma PrecisionIsRead(fmt: string, i: nat, w: Written, f: P.Flags, args: seq<P.Arg>, next: nat)
    requires Writable(w) && HasAt(fmt, i, PrecisionOn(w)) && !f.precise
    ensures var n := if w.precise then AmountOf(w.precision, args, next) else 0;
      P.ParsePrecision(fmt, i, f, args, next)
        == P.Sized(f.(precise := w.precise && 0 <= n), n, i + |PrecisionOn(w)| - |LengthOn(w)|,
                   next + if w.precise then Stars(w.precision) else 0)
    ensures HasAt(fmt, i + |PrecisionOn(w)| - |LengthOn(w)|, LengthOn(w))
  {
    hide HasAt, AmountOf, LengthOn, AmountText, Horner, AllDigits, At, IsDigit, Stars, P.GatherStarOrNumber, P.IsFlag;
    LengthStarts(w);
    PrecisionStarts(w);
    CharAt(fmt, i, PrecisionOn(w));
    if w.precise {
      assert PrecisionOn(w) == "." + (AmountText(w.precision) + LengthOn(w));
      HasAtParts(fmt, i, ".", AmountText(w.precision) + LengthOn(w));
      AmountIsRead(fmt, i + 1, w.precision, LengthOn(w), args, next);
    } else {
      assert PrecisionOn(w) == LengthOn(w);
    }
  }

  lemma WrittenLength(w: Written)
    ensures |WrittenText(w)| == |w.flags| + |AmountText(w.width)| + (|PrecisionOn(w)| - |LengthOn(w)|) + |w.length| + 1
  {
  }

  /**
   * Whatever directive is written, the printer's parser finds: the flags that occur in it, the
   * magnitude of the width, the precision if it is not negative, the length and the conversion.
   * It justifies to the left exactly if a minus is written or the starred width is negative,
   * and takes one argument for each star, in order.
   */
  lemma ParsesWritten(fmt: string, i: nat, w: Written, args: seq<P.Arg>, next: nat)
    requires Writable(w) && HasAt(fmt, i, WrittenText(w))
    ensures var width := AmountOf(w.width, args, next);
      var next1 := next + Stars(w.width);
      var precision := if w.precise then AmountOf(w.precision, args, next1) else 0;
      P.ParseDirective(fmt, i, args, next)
        == P.Parsed(
             P.Directive(
               P.Flags(' ' in w.flags, '#' in w.flags, '\'' in w.flags, '^' in w.flags, '+' in w.flags,
                       '-' in w.flags || width < 0, '0' in w.flags, w.precise && 0 <= precision),
               WidthOf(width), precision, LengthOf(w), w.conv),
             i + |WrittenText(w)|,
             next1 + if w.precise then Stars(w.precision) else 0)
  {
    hide HasAt, At, AmountOf, AmountText, PrecisionOn, LengthOn, WidthOn, Stars, WidthOf, LengthOf, Horner, AllDigits;
    hide P.GatherFlags, P.ParseWidth, P.ParsePrecision, P.GatherLength;
    assert WrittenText(w) == w.flags + WidthOn(w);
    HasAtParts(fmt, i, w.flags, WidthOn(w));
    PartsStart(w);
    WrittenLength(w);
    var i1 := i + |w.flags|;
    CharAt(fmt, i1, WidthOn(w));
    FlagsAreRead(fmt, i, w.flags, P.NO_FLAGS);
    var f := Raised(P.NO_FLAGS, w.flags);
    WidthIsRead(fmt, i1, w, f, args, next);
    var i2, next1 := i1 + |AmountText(w.width)|, next + Stars(w.width);
    PrecisionIsRead(fmt, i2, w, f.(left := f.left || AmountOf(w.width, args, next) < 0), args, next1);
    LengthIsRead(fmt, i2 + |PrecisionOn(w)| - |LengthOn(w)|, w);
  }

  // ---------------------------------------------------------------- the plainest spelling of a directive

  function LengthText(len: Length): string {
    match len
    case LenInt => ""
    case LenChar => "hh"
    case LenShort => "h"
    case LenLong => "l"
    case LenLongLong => "ll"
    case LenLongDouble => "L"
  }

  predicate IsConversion(c: char) {
    P.IsInteger(c) || c == 'c' || c == 's' || c == 'n' || c == '%'
  }

  function Opt(on: bool, c: char): string { if on then [c] else "" }

  function FlagText(f: P.Flags): string {
    Opt(f.space, ' ')
    + (Opt(f.alternative, '#')
    + (Opt(f.tick, '\'') + (Opt(f.engineering, '^') + (Opt(f.plus, '+') + (Opt(f.left, '-') + Opt(f.zero, '0'))))))
  }

  lemma InOpt(x: char, on: bool, c: char, rest: string)
    ensures x in Opt(on, c) + rest <==> (on && x == c) || x in rest
  {
  }

  lemma InFlagText(f: P.Flags, x: char)
    ensures x in FlagText(f)
      <==> (f.space && x == ' ') || (f.alternative && x == '#') || (f.tick && x == '\'') || (f.engineering && x == '^')
           || (f.plus && x == '+') || (f.left && x == '-') || (f.zero && x == '0')
  {
    hide Opt;
    var t6 := Opt(f.zero, '0');
    assert t6 + "" == t6;
    InOpt(x, f.zero, '0', "");
    var t5 := Opt(f.left, '-') + t6;
    InOpt(x, f.left, '-', t6);
    var t4 := Opt(f.plus, '+') + t5;
    InOpt(x, f.plus, '+', t5);
    var t3 := Opt(f.engineering, '^') + t4;
    InOpt(x, f.engineering, '^', t4);
    var t2 := Opt(f.tick, '\'') + t3;
    InOpt(x, f.tick, '\'', t3);
    InOpt(x, f.alternative, '#', t2);
    InOpt(x, f.space, ' ', Opt(f.alternative, '#') + t2);
  }

  function AsWritten(d: P.Directive): Written {
    Written(FlagText(d.flags), Digits(Numeral(Max(0, d.width), 10, false)), d.flags.precise,
            Digits(Numeral(Max(0, d.precision), 10, false)), LengthText(d.length), d.conv)
  }

  /** The directives that can be written without stars. */
  predicate Spellable(d: P.Directive) {
    IsConversion(d.conv) && 0 <= d.width <= INT_MAX && d.length != LenLongDouble
    && (if d.flags.precise then 0 <= d.precision <= INT_MAX else d.precision == 0)
  }

  function Spelled(d: P.Directive): string {
    WrittenText(AsWritten(d))
  }

  lemma FlagTextHolds(f: P.Flags)
    ensures forall k :: 0 <= k < |FlagText(f)| ==> FlagText(f)[k] in " #'^+-0"
    ensures Raised(P.NO_FLAGS, FlagText(f)) == f.(precise := false)
  {
    hide FlagText;
    forall k | 0 <= k < |FlagText(f)|
      ensures FlagText(f)[k] in " #'^+-0"
    {
      InFlagText(f, FlagText(f)[k]);
      FlagListed(FlagText(f)[k]);
    }
    InFlagText(f, ' ');
    InFlagText(f, '#');
    InFlagText(f, '\'');
    InFlagText(f, '^');
    InFlagText(f, '+');
    InFlagText(f, '-');
    InFlagText(f, '0');
  }

  lemma SpelledIsWritable(d: P.Directive)
    requires Spellable(d)
    ensures Writable(AsWritten(d))
    ensures Horner(Numeral(d.width, 10, false), 10) == d.width
    ensures Horner(Numeral(d.precision, 10, false), 10) == d.precision
  {
    hide FlagText, Horner, Numeral, Raised;
    FlagTextHolds(d.flags);
    HornerOfNumeral(d.width, 10, false);
    HornerOfNumeral(d.precision, 10, false);
    NumeralLeads(d.width, 10, false);
  }

  /** The printer's parser reads back every directive that is written without stars. */
  lemma ParserUndoesSpelling(fmt: string, i: nat, d: P.Directive, args: seq<P.Arg>, next: nat)
    requires Spellable(d) && HasAt(fmt, i, Spelled(d))
    ensures P.ParseDirective(fmt, i, args, next) == P.Parsed(d, i + |Spelled(d)|, next)
  {
    hide Writable, HasAt, FlagText, WrittenText, Horner, AllDigits, Numeral, P.ParseDirective;
    FlagTextHolds(d.flags);
    SpelledIsWritable(d);
    ParsesWritten(fmt, i, AsWritten(d), args, next);
  }

  // ---------------------------------------------------------------- scanner directives

  /** A conversion of the scanner as it is written, up to the conversion character. */
  datatype ScanWritten = ScanWritten(star: bool, field: string, length: string)

  function ScanText(w: ScanWritten): string {
    Opt(w.star, '*') + (w.field + w.length)
  }

  predicate ScanWritable(w: ScanWritten, conv: char) {
    AllDigits(w.field, 10) && Horner(w.field, 10) <= INT_MAX
    && w.length in ["", "l", "ll", "L", "h", "hh"] && !IsDigit(conv as int) && conv !in "*lLh"
  }

  function ScanLengthOf(w: ScanWritten): Length {
    match w.length
    case "l" => LenLong
    case "ll" => LenLongLong
    case "L" => LenLongDouble
    case "h" => LenShort
    case "hh" => LenChar
    case _ => LenInt
  }

  /** Without digits the field is as wide as an int allows. */
  function FieldOf(w: ScanWritten): int
    requires AllDigits(w.field, 10)
  {
    if w.field == "" then INT_MAX else Horner(w.field, 10)
  }

  lemma ScanLengthIsRead(fmt: string, i: nat, w: ScanWritten, conv: char)
    requires ScanWritable(w, conv) && HasAt(fmt, i, w.length + [conv])
    ensures S.ScanLength(fmt, i) == (ScanLengthOf(w), i + |w.length|)
    ensures At(fmt, i + |w.length|) == conv && !IsDigit(At(fmt, i) as int) && At(fmt, i) != '*'
  {
    hide Horner, AllDigits;
    var t := w.length + [conv];
    HasAtChar(fmt, i, t, 0);
    HasAtChar(fmt, i, t, |t| - 1);
    if |t| > 1 {
      HasAtChar(fmt, i, t, 1);
    }
  }

  lemma FieldStarts(w: ScanWritten, conv: char)
    requires ScanWritable(w, conv)
    ensures (w.field + (w.length + [conv]))[0] != '*'
  {
    hide Horner;
    if w.field != "" {
      assert 0 <= Digit(w.field[0] as int, 10);
    } else {
      assert w.field + (w.length + [conv]) == w.length + [conv];
    }
  }

  /** Where the digits and the length of a conversion are, and that a star stands only where it is written. */
  lemma ScanParts(fmt: string, i: nat, w: ScanWritten, conv: char)
    requires ScanWritable(w, conv) && HasAt(fmt, i, ScanText(w) + [conv])
    ensures var i1 := i + |Opt(w.star, '*')|;
      HasAt(fmt, i1, w.field) && HasAt(fmt, i1 + |w.field|, w.length + [conv])
      && (At(fmt, i) == '*' <==> w.star) && |ScanText(w)| == |Opt(w.star, '*')| + |w.field| + |w.length|
  {
    hide HasAt, Horner, At;
    var star, rest := Opt(w.star, '*'), w.field + (w.length + [conv]);
    assert ScanText(w) + [conv] == star + rest;
    HasAtParts(fmt, i, star, rest);
    HasAtParts(fmt, i + |star|, w.field, w.length + [conv]);
    CharAt(fmt, i, star + rest);
    if !w.star {
      assert star + rest == rest;
      FieldStarts(w, conv);
    }
  }

  lemma NothingGathered(t: string)
    ensures AllDigits(t, 10) && t == "" ==> Horner(t, 10) == 0
  {
  }

  /**
   * Whatever conversion is written, the scanner's parser finds: a star suppresses the
   * assignment, digits give the field width, and a bracket goes on with a scanset.
   */
  lemma ScansWritten(fmt: string, i: nat, w: ScanWritten, conv: char)
    requires ScanWritable(w, conv) && HasAt(fmt, i, ScanText(w) + [conv])
    ensures S.ParseConversion(fmt, i)
      == if conv == '[' then S.ParseSet(fmt, i + |ScanText(w)| + 1, w.star, FieldOf(w))
         else S.Parsed(S.Conversion(w.star, w.field != "", FieldOf(w), ScanLengthOf(w), conv), i + |ScanText(w)| + 1)
  {
    hide HasAt, At, ScanText, ScanLengthOf, S.ScanLength, GatherNumber, S.ParseSet, Horner, AllDigits, IsDigit;
    ScanParts(fmt, i, w, conv);
    var i1 := i + |Opt(w.star, '*')|;
    ScanLengthIsRead(fmt, i1 + |w.field|, w, conv);
    GathersNumber(fmt, i1, w.field);
    NothingGathered(w.field);
  }

  /** The conversion that reads what a printer directive of this length and conversion prints. */
  function ScanSpelled(len: Length, conv: char): string {
    LengthText(len) + [conv]
  }

  lemma ScannerUndoesSpelling(fmt: string, i: nat, len: Length, conv: char)
    requires IsConversion(conv) && HasAt(fmt, i, ScanSpelled(len, conv))
    ensures S.ParseConversion(fmt, i)
      == S.Parsed(S.Conversion(false, false, INT_MAX, len, conv), i + |ScanSpelled(len, conv)|)
  {
    hide HasAt, S.ParseConversion;
    var w := ScanWritten(false, "", LengthText(len));
    NothingGathered("");
    assert ScanText(w) + [conv] == ScanSpelled(len, conv);
    ScansWritten(fmt, i, w, conv);
  }
}
