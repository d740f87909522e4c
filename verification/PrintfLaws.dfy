/** What a directive prints, said of its argument and of the characters in the text. */
module PrintfLaws {
  import opened Numerals
  import opened Grouping
  import opened FormatText
  import opened ReadBack
  import opened Pieces
  import opened Spelling
  import P = PrintfFormat

  // ---------------------------------------------------------------- which number is printed

  /** The length modifiers select 8, 16, 32 or 64 bits; long is no longer than int. */
  lemma WidthsOfLengths(len: Length)
    ensures Bits(len) == if len == LenChar then 8 else if len == LenShort then 16 else if len == LenLongLong then 64 else 32
  {
  }

  lemma HalfRange(n: int, bits: nat)
    requires bits > 0
    ensures Pow2(bits) == 2 * Pow2(bits - 1)
    ensures 0 - Pow2(bits - 1) <= Signed(n, bits) < Pow2(bits - 1)
  {
    SignedCongruent(n, bits);
  }

  /**
   * A signed conversion prints the number in two's complement range that is congruent to the
   * argument, which is only one; a plain char that is unsigned gives 0 to 255 instead. A minus
   * stands in front exactly if that number is negative; otherwise the plus flag asks for a
   * plus sign, and failing that the space flag for a space.
   */
  lemma SignedNumberPrinted(d: P.Directive, arg: P.Arg, charSigned: bool)
    requires d.conv == 'd' || d.conv == 'i'
    ensures var bits := if d.length == LenChar then 8 else if d.length == LenShort then 16
                        else if d.length == LenLongLong then 64 else 32;
      var v := P.ValueOf(d, arg, charSigned);
      var n := Printed(v);
      n % Pow2(bits) == arg.bits % Pow2(bits)
      && (if d.length == LenChar && !charSigned then 0 <= n < 256 else 0 - Pow2(bits - 1) <= n < Pow2(bits - 1))
      && v.prefix == (if n < 0 then "-" else if d.flags.plus then "+" else if d.flags.space then " " else "")
  {
    hide Pow2, Signed;
    WidthsOfLengths(d.length);
    ValueIsStored(d, arg, charSigned);
    HalfRange(arg.bits, Bits(d.length));
    PowersOfTwo();
  }

  /** An unsigned conversion prints the residue of the argument, behind the prefix of its base if asked for. */
  lemma UnsignedNumberPrinted(d: P.Directive, arg: P.Arg, charSigned: bool)
    requires d.conv in "uoxXp"
    ensures var bits := if d.conv == 'p' then 32 else if d.length == LenChar then 8 else if d.length == LenShort then 16
                        else if d.length == LenLongLong then 64 else 32;
      P.ValueOf(d, arg, charSigned)
        == P.Value(if !d.flags.alternative || d.conv == 'u' then ""
                   else if d.conv == 'p' then "#" else if d.conv == 'o' then "0" else ['0', d.conv],
                   arg.bits % Pow2(bits))
  {
    hide Pow2;
    WidthsOfLengths(d.length);
  }

  // ---------------------------------------------------------------- which digits are printed

  /** Letters among the digits are capitals for X, and small ones otherwise. */
  predicate RightCase(t: string, capitals: bool) {
    forall k :: 0 <= k < |t| ==>
      IsDigit(t[k] as int) || t[k] == ',' || (if capitals then 'A' <= t[k] <= 'F' else 'a' <= t[k] <= 'f')
  }

  lemma {:induction false} NumeralCase(n: nat, radix: nat, capitals: bool)
    requires 2 <= radix <= 16
    ensures RightCase(Numeral(n, radix, capitals), capitals)
  {
    if n == 0 {
    } else {
      DivFacts(n, radix);
      NumeralCase(n / radix, radix, capitals);
    }
  }

  lemma {:induction false} GroupedCase(digits: string, capitals: bool)
    requires RightCase(digits, capitals)
    ensures RightCase(Grouped(digits), capitals)
  {
    if |digits| <= 3 {
    } else {
      GroupedCase(digits[..|digits| - 3], capitals);
    }
  }

  lemma BodyOfConversion(d: P.Directive, n: nat)
    requires P.IsInteger(d.conv)
    ensures var all := Numeral(n, P.Radix(d.conv), d.conv == 'X');
      P.Body(d, n) == if d.flags.tick && d.conv in "diu" then Grouped(all) else all
    ensures P.Radix(d.conv) == if d.conv in "diu" then 10 else if d.conv == 'o' then 8 else 16
  {
  }

  /**
   * The digits denote the number in the radix of the conversion, without leading zeros; zero
   * has none. Letters are capitals for X alone. Commas stand among the digits exactly for a
   * decimal conversion with the tick flag, in groups of three.
   */
  lemma DigitsPrinted(d: P.Directive, n: nat)
    requires P.IsInteger(d.conv)
    ensures var radix := if d.conv in "diu" then 10 else if d.conv == 'o' then 8 else 16;
      var body := P.Body(d, n);
      var digits := WithoutCommas(body);
      AllDigits(digits, radix) && Horner(digits, radix) == n
      && (digits == "" <==> n == 0) && (digits != "" ==> digits[0] != '0')
      && RightCase(body, d.conv == 'X')
      && (if d.flags.tick && d.conv in "diu" then body != "" ==> WellGrouped(body) else body == digits)
  {
    var radix, capitals := P.Radix(d.conv), d.conv == 'X';
    var all := Numeral(n, radix, capitals);
    BodyOfConversion(d, n);
    hide Numeral, Horner, AllDigits, RightCase, Grouped, WithoutCommas, WellGrouped, P.Body;
    HornerOfNumeral(n, radix, capitals);
    NumeralLeads(n, radix, capitals);
    NumeralCase(n, radix, capitals);
    NumeralCommaFree(n, radix, capitals);
    CommaFreeUnchanged(all);
    GroupedCase(all, capitals);
    GroupedWithoutCommas(all);
    GroupedShape(all);
  }

  // ---------------------------------------------------------------- how it is laid out

  lemma RepeatPositive(c: char, n: int)
    ensures Repeat(c, n) == Repeat(c, Max(0, n))
  {
  }

  /**
   * The layout of an integer: at least as many digits as the precision asks for, one by
   * default and eight for a pointer; the rest of the width goes in front of the digits as
   * zeros, between prefix and digits as blanks, or behind them. Zeros fill only under the
   * zero flag, not when left-justified, and not under a precision except for pointers.
   */
  lemma IntegerLayout(d: P.Directive, v: P.Value)
    requires P.IsInteger(d.conv)
    ensures var body := P.Body(d, v.magnitude);
      var least := if d.conv == 'p' then 8 else if d.flags.precise then d.precision else 1;
      var digits := Max(least, |body|);
      var free := Max(0, d.width - |v.prefix| - digits);
      var fill := d.flags.zero && !d.flags.left && (d.conv == 'p' || !d.flags.precise);
      P.IntegerPiece(d, v)
        == v.prefix + Repeat(' ', if d.flags.left || fill then 0 else free)
         + (Repeat('0', digits - |body| + if fill then free else 0) + body)
         + Repeat(' ', if d.flags.left then free else 0)
  {
    hide P.IntegerPiece, P.Body, Repeat;
    PieceShape(d, v);
    RepeatPositive(' ', Pad(d, v));
    RepeatPositive('0', Pad(d, v));
  }

  // ---------------------------------------------------------------- formats

  /** Text in a format prints itself. */
  lemma {:induction false} TextPrintsItself(fmt: string, i: nat, t: string, args: seq<P.Arg>, charSigned: bool, p: P.Progress)
    requires HasAt(fmt, i, t) && forall k :: 0 <= k < |t| ==> t[k] != '%' && t[k] != NUL
    ensures P.Render(fmt, i, args, charSigned, p)
      == P.Render(fmt, i + |t|, args, charSigned, P.Progress(p.out + t, p.next, p.stores))
    decreases |t|
  {
    hide HasAt, P.Render;
    if t == "" {
      assert p.out + t == p.out;
    } else {
      assert t == [t[0]] + t[1..];
      HasAtParts(fmt, i, [t[0]], t[1..]);
      HasAtChar(fmt, i, t, 0);
      HasAtInside(fmt, i, t);
      P.RenderStep(fmt, i, args, charSigned, p);
      TextPrintsItself(fmt, i + 1, t[1..], args, charSigned, P.Progress(p.out + [t[0]], p.next, p.stores));
      assert p.out + [t[0]] + t[1..] == p.out + t;
    }
  }

  /** The conversions that print or store an argument. */
  const TAKERS := "diuoxXpcsn"

  /** What is printed for an integer conversion with the tick flag does not fit from 10^17 on. */
  predicate TooLong(d: P.Directive, arg: P.Arg, charSigned: bool) {
    d.conv in "diu" && d.flags.tick && P.ValueOf(d, arg, charSigned).magnitude >= 100_000_000_000_000_000
  }

  lemma TakersTake(conv: char)
    ensures P.TakesArgument(conv) <==> conv in TAKERS
  {
  }

  /**
   * A directive extends the text by its piece and consumes one argument if its conversion
   * takes one; a percent sign prints itself, and an unknown conversion prints nothing.
   */
  lemma ConversionPrints(d: P.Directive, arg: P.Arg, charSigned: bool, p: P.Progress)
    requires d.conv != 'n'
    ensures P.Stops(d, arg, charSigned) <==> TooLong(d, arg, charSigned)
    ensures P.Convert(d, arg, charSigned, p)
      == P.Progress(p.out + (if d.conv == '%' then "%" else if d.conv in TAKERS then P.Piece(d, arg, charSigned) else ""),
                    if d.conv in TAKERS then p.next + 1 else p.next, p.stores)
  {
    hide P.ValueOf, P.IntegerPiece, P.StringPiece, P.CharPiece;
    TakersTake(d.conv);
  }

  /**
   * %n prints nothing, takes one argument, and stores through it the number of characters
   * sent out so far, as far as the target holds it: 8 bits under hh, 64 under ll and j,
   * and 32 otherwise, also under h.
   */
  lemma CountIsStored(d: P.Directive, arg: P.Arg, charSigned: bool, p: P.Progress) returns (count: int)
    requires d.conv == 'n'
    ensures !P.Stops(d, arg, charSigned)
    ensures P.Convert(d, arg, charSigned, p) == P.Progress(p.out, p.next + 1, p.stores + [P.Store(p.next, count)])
    ensures var bits := if d.length == LenChar then 8 else if d.length == LenLongLong then 64 else 32;
      count % Pow2(bits) == |p.out| % Pow2(bits) && 0 - Pow2(bits - 1) <= count < Pow2(bits - 1)
      && (|p.out| < Pow2(bits - 1) ==> count == |p.out|)
  {
    hide Pow2, Signed;
    var bits := if d.length == LenChar then 8 else if d.length == LenLongLong then 64 else 32;
    count := Signed(|p.out|, bits);
    SignedCongruent(|p.out|, bits);
    HalfRange(|p.out|, bits);
    if |p.out| < Pow2(bits - 1) {
      CongruentEqual(count, |p.out|, Pow2(bits));
    }
    assert p.out + "" == p.out;
  }

  /** A format that ends inside a directive ends the call with -1; only the arguments of stars are consumed. */
  lemma DirectiveCutOff(fmt: string, i: nat, args: seq<P.Arg>, charSigned: bool, p: P.Progress)
    requires i < |fmt| && fmt[i] == '%' && P.ParseDirective(fmt, i + 1, args, p.next).d.conv == NUL
    ensures P.Render(fmt, i, args, charSigned, p)
      == P.Done(P.Progress(p.out, P.ParseDirective(fmt, i + 1, args, p.next).next, p.stores), -1)
  {
    hide P.Render, P.ParseDirective;
    P.RenderStep(fmt, i, args, charSigned, p);
  }

  /** A format that consists of text around one directive prints the text around its piece. */
  lemma TextAroundDirective(before: string, w: Written, after: string, args: seq<P.Arg>, charSigned: bool)
    requires Writable(w) && w.conv != 'n' && w.conv != NUL
    requires forall k :: 0 <= k < |before| ==> before[k] != '%' && before[k] != NUL
    requires forall k :: 0 <= k < |after| ==> after[k] != '%' && after[k] != NUL
    ensures var fmt := before + ("%" + WrittenText(w)) + after;
      var m := P.ParseDirective(fmt, |before| + 1, args, 0);
      var arg := P.ArgAt(args, m.next);
      var piece := if w.conv == '%' then "%" else if w.conv in TAKERS then P.Piece(m.d, arg, charSigned) else "";
      var out := before + piece + after;
      P.Render(fmt, 0, args, charSigned, P.Progress("", 0, []))
        == if TooLong(m.d, arg, charSigned) then P.Overrun
           else P.Done(P.Progress(out, if w.conv in TAKERS then m.next + 1 else m.next, []), |out|)
  {
    hide P.Render, P.ParseDirective, P.Stops, P.Convert, P.Piece, TooLong, WrittenText, Writable, HasAt, AmountOf, WidthOf, LengthOf;
    var fmt, j := before + ("%" + WrittenText(w)) + after, |before|;
    WholeText(fmt);
    HasAtParts(fmt, 0, before + ("%" + WrittenText(w)), after);
    HasAtParts(fmt, 0, before, "%" + WrittenText(w));
    HasAtParts(fmt, j, "%", WrittenText(w));
    HasAtInside(fmt, j, "%");
    HasAtChar(fmt, j, "%", 0);
    CharAt(fmt, j, "%");
    WholeText(before);
    var m := P.ParseDirective(fmt, j + 1, args, 0);
    ParsesWritten(fmt, j + 1, w, args, 0);
    TextPrintsItself(fmt, 0, before, args, charSigned, P.Progress("", 0, []));
    P.RenderStep(fmt, j, args, charSigned, P.Progress(before, 0, []));
    var arg := P.ArgAt(args, m.next);
    ConversionPrints(m.d, arg, charSigned, P.Progress(before, m.next, []));
    if !P.Stops(m.d, arg, charSigned) {
      var q := P.Convert(m.d, arg, charSigned, P.Progress(before, m.next, []));
      TextPrintsItself(fmt, m.pos, after, args, charSigned, q);
      assert m.pos + |after| == |fmt|;
      P.RenderEnds(fmt, args, charSigned, P.Progress(q.out + after, q.next, q.stores));
    }
  }
}
