/** Field layout: how long every piece is, and what the returned count adds up to. */
module PrintfLayout {
  import opened Numerals
  import opened Grouping
  import opened DigitBuffer
  import opened FormatText
  import opened PrintfFormat

  /** How many digits a magnitude has; none for zero. */
  function DigitCount(n: nat, radix: nat): nat
    requires 2 <= radix
  {
    if n == 0 then 0
    else
      DivFacts(n, radix);
      1 + DigitCount(n / radix, radix)
  }

  lemma {:induction false} NumeralHasDigitCount(n: nat, radix: nat, capitals: bool)
    requires 2 <= radix <= 16
    ensures |Numeral(n, radix, capitals)| == DigitCount(n, radix)
  {
    if n == 0 {
    } else {
      DivFacts(n, radix);
      NumeralHasDigitCount(n / radix, radix, capitals);
    }
  }

  /** The width of the digits of an integer piece, commas included. */
  function BodyWidth(d: Directive, magnitude: nat): nat
    requires IsInteger(d.conv)
  {
    var n := DigitCount(magnitude, Radix(d.conv));
    if IsDecimal(d.conv) && d.flags.tick && n > 0 then n + (n - 1) / 3 else n
  }

  lemma BodyHasWidth(d: Directive, magnitude: nat)
    requires IsInteger(d.conv)
    ensures |Body(d, magnitude)| == BodyWidth(d, magnitude)
  {
    NumeralHasDigitCount(magnitude, Radix(d.conv), d.conv == 'X');
    if IsDecimal(d.conv) && d.flags.tick {
      NumeralHasDigitCount(magnitude, 10, false);
      NumeralCommaFree(magnitude, 10, false);
      GroupedShape(Numeral(magnitude, 10, false));
    }
  }

  lemma AssembleWidth(d: Directive, prefix: string, zeroFill: bool, zeros: nat, pad: int, body: string)
    ensures |Assemble(d, prefix, zeroFill, zeros, pad, body)| == |prefix| + zeros + |body| + Max(0, pad)
  {
  }

  /** An integer conversion emits max(width, prefix + max(precision, digits)) characters. */
  lemma IntegerWidth(d: Directive, v: Value)
    requires IsInteger(d.conv)
    ensures |IntegerPiece(d, v)|
      == Max(d.width, |v.prefix| + Max(LeastDigits(d), BodyWidth(d, v.magnitude)))
  {
    BodyHasWidth(d, v.magnitude);
    hide Assemble;
    var body := Body(d, v.magnitude);
    var zeros := Max(0, LeastDigits(d) - |body|);
    AssembleWidth(d, v.prefix, ZeroFills(d), zeros, d.width - zeros - |body| - |v.prefix|, body);
  }

  /** A string conversion emits max(width, truncated length) characters. */
  lemma StringWidth(d: Directive, arg: Arg)
    ensures |StringPiece(d, arg)| == Max(d.width, |StringText(d, arg)|)
  {
  }

  /** The truncated text is the longest prefix without a NUL that the precision admits. */
  lemma StringTextIsLongest(d: Directive, arg: Arg)
    ensures var s := if arg.str.Null? then "(null)" else arg.str.memory;
      var t := StringText(d, arg);
      t <= s && NUL !in t && (d.flags.precise && 0 <= d.precision ==> |t| <= d.precision)
      && (|t| < |s| && !(d.flags.precise && |t| == d.precision) ==> s[|t|] == NUL)
  {
  }

  /** A text in a wider field: at the left with blanks behind it, or at the right with fill in front. */
  predicate StandsIn(text: string, piece: string, left: bool, fill: char) {
    var n := |piece| - |text|;
    0 <= n
    && (if left then text <= piece && forall k :: |text| <= k < |piece| ==> piece[k] == ' '
        else piece[n..] == text && forall k :: 0 <= k < n ==> piece[k] == fill)
  }

  lemma PaddedStands(d: Directive, zeroFill: bool, text: string)
    ensures var pad := d.width - |text|;
      StandsIn(text, Leading(d, zeroFill, pad) + text + Trailing(d, pad), d.flags.left, if zeroFill then '0' else ' ')
  {
    var pad := d.width - |text|;
    var piece := Leading(d, zeroFill, pad) + text + Trailing(d, pad);
    if d.flags.left {
      assert piece == text + Trailing(d, pad);
    } else {
      assert piece == Leading(d, zeroFill, pad) + text;
      assert piece[|piece| - |text|..] == text;
    }
  }

  /** Strings are never filled with zeros, single characters are, on the right side only. */
  lemma TextKeepsItsSide(d: Directive, arg: Arg)
    ensures StandsIn(StringText(d, arg), StringPiece(d, arg), d.flags.left, ' ')
    ensures StandsIn([(arg.bits % 256) as char], CharPiece(d, arg), d.flags.left, if d.flags.zero then '0' else ' ')
  {
    PaddedStands(d, false, StringText(d, arg));
    PaddedStands(d, d.flags.zero, [(arg.bits % 256) as char]);
  }

  /** How many characters a directive contributes. */
  function PieceWidth(d: Directive, arg: Arg, charSigned: bool): int {
    if IsInteger(d.conv) then
      var v := ValueOf(d, arg, charSigned);
      Max(d.width, |v.prefix| + Max(LeastDigits(d), BodyWidth(d, v.magnitude)))
    else if d.conv == 's' then Max(d.width, |StringText(d, arg)|)
    else if d.conv == 'c' then Max(d.width, 1)
    else if d.conv == '%' then 1
    else 0
  }

  lemma PieceHasWidth(d: Directive, arg: Arg, charSigned: bool)
    ensures |Piece(d, arg, charSigned)| == PieceWidth(d, arg, charSigned)
  {
    hide IntegerPiece, StringPiece, ValueOf, StringText, BodyWidth;
    if IsInteger(d.conv) {
      IntegerWidth(d, ValueOf(d, arg, charSigned));
    } else if d.conv == 's' {
      StringWidth(d, arg);
    }
  }

  /** The sum over a format of the literals and of the widths of the directives' pieces. */
  function TotalWidth(fmt: string, i: nat, args: seq<Arg>, charSigned: bool, next: nat): int
    decreases |fmt| - i
  {
    if At(fmt, i) == NUL then 0
    else if fmt[i] != '%' then 1 + TotalWidth(fmt, i + 1, args, charSigned, next)
    else
      var parsed := ParseDirective(fmt, i + 1, args, next);
      var arg := ArgAt(args, parsed.next);
      if parsed.d.conv == NUL || Stops(parsed.d, arg, charSigned) then 0
      else
        PieceWidth(parsed.d, arg, charSigned)
        + TotalWidth(fmt, parsed.pos, args, charSigned,
                     if TakesArgument(parsed.d.conv) then parsed.next + 1 else parsed.next)
  }

  /** How the walk over a format ends: behind it, inside a directive, or at a buffer overrun. */
  datatype Ending = Complete | Inside | Past

  function EndingOf(fmt: string, i: nat, args: seq<Arg>, charSigned: bool, next: nat): Ending
    decreases |fmt| - i
  {
    if At(fmt, i) == NUL then Complete
    else if fmt[i] != '%' then EndingOf(fmt, i + 1, args, charSigned, next)
    else
      var parsed := ParseDirective(fmt, i + 1, args, next);
      var arg := ArgAt(args, parsed.next);
      if parsed.d.conv == NUL then Inside
      else if Stops(parsed.d, arg, charSigned) then Past
      else
        EndingOf(fmt, parsed.pos, args, charSigned,
                 if TakesArgument(parsed.d.conv) then parsed.next + 1 else parsed.next)
  }

  lemma EndingStep(fmt: string, i: nat, args: seq<Arg>, charSigned: bool, next: nat)
    ensures EndingOf(fmt, i, args, charSigned, next) ==
      if At(fmt, i) == NUL then Complete
      else if fmt[i] != '%' then EndingOf(fmt, i + 1, args, charSigned, next)
      else
        var parsed := ParseDirective(fmt, i + 1, args, next);
        var arg := ArgAt(args, parsed.next);
        if parsed.d.conv == NUL then Inside
        else if Stops(parsed.d, arg, charSigned) then Past
        else
          EndingOf(fmt, parsed.pos, args, charSigned,
                   if TakesArgument(parsed.d.conv) then parsed.next + 1 else parsed.next)
  {
  }

  lemma TotalStep(fmt: string, i: nat, args: seq<Arg>, charSigned: bool, next: nat)
    ensures TotalWidth(fmt, i, args, charSigned, next) ==
      if At(fmt, i) == NUL then 0
      else if fmt[i] != '%' then 1 + TotalWidth(fmt, i + 1, args, charSigned, next)
      else
        var parsed := ParseDirective(fmt, i + 1, args, next);
        var arg := ArgAt(args, parsed.next);
        if parsed.d.conv == NUL || Stops(parsed.d, arg, charSigned) then 0
        else
          PieceWidth(parsed.d, arg, charSigned)
          + TotalWidth(fmt, parsed.pos, args, charSigned,
                       if TakesArgument(parsed.d.conv) then parsed.next + 1 else parsed.next)
  {
  }

  lemma ArgumentsAdvance(fmt: string, i: nat, args: seq<Arg>, next: nat)
    ensures next <= ParseDirective(fmt, i, args, next).next
  {
  }

  lemma DirectiveCount(fmt: string, i: nat, args: seq<Arg>, charSigned: bool, p: Progress)
    ensures var parsed := ParseDirective(fmt, i + 1, args, p.next);
      var arg := ArgAt(args, parsed.next);
      var q := Convert(parsed.d, arg, charSigned, p.(next := parsed.next));
      p.out <= q.out && p.stores <= q.stores && p.next <= parsed.next
      && |q.out| == |p.out| + PieceWidth(parsed.d, arg, charSigned)
      && q.next == if TakesArgument(parsed.d.conv) then parsed.next + 1 else parsed.next
  {
    var parsed := ParseDirective(fmt, i + 1, args, p.next);
    PieceHasWidth(parsed.d, ArgAt(args, parsed.next), charSigned);
    ArgumentsAdvance(fmt, i + 1, args, p.next);
    hide Piece, PieceWidth, ParseDirective;
  }

  /**
   * Over a whole format, what was there before stays, and the text grows by the sum of the
   * pieces. The call returns the length of the text if the format ends outside a directive,
   * and -1 if it ends inside one; it overruns the buffer if the walk meets a grouped number
   * of 10^17 or more, and only then.
   */
  lemma {:induction false} ReturnedCount(fmt: string, i: nat, args: seq<Arg>, charSigned: bool, p: Progress)
    ensures match Render(fmt, i, args, charSigned, p)
      case Overrun => EndingOf(fmt, i, args, charSigned, p.next) == Past
      case Done(q, result) =>
        p.out <= q.out && p.stores <= q.stores && p.next <= q.next
        && |q.out| == |p.out| + TotalWidth(fmt, i, args, charSigned, p.next)
        && match EndingOf(fmt, i, args, charSigned, p.next)
           case Complete => result == |q.out|
           case Inside => result == -1
           case Past => false
    decreases |fmt| - i
  {
    hide Render, TotalWidth, EndingOf, ParseDirective, Convert, PieceWidth, Stops;
    RenderStep(fmt, i, args, charSigned, p);
    TotalStep(fmt, i, args, charSigned, p.next);
    EndingStep(fmt, i, args, charSigned, p.next);
    DirectiveCount(fmt, i, args, charSigned, p);
    if At(fmt, i) == NUL {
    } else if fmt[i] != '%' {
      ReturnedCount(fmt, i + 1, args, charSigned, p.(out := p.out + [fmt[i]]));
    } else {
      var parsed := ParseDirective(fmt, i + 1, args, p.next);
      var arg := ArgAt(args, parsed.next);
      if parsed.d.conv != NUL && !Stops(parsed.d, arg, charSigned) {
        ReturnedCount(fmt, parsed.pos, args, charSigned,
                      Convert(parsed.d, arg, charSigned, p.(next := parsed.next)));
      }
    }
  }

  /** The whole call: the result is the sum of the pieces exactly when the format ends outside a directive. */
  lemma CallReturnsSum(fmt: string, args: seq<Arg>, charSigned: bool)
    ensures var r := Render(fmt, 0, args, charSigned, Progress("", 0, []));
      var ending := EndingOf(fmt, 0, args, charSigned, 0);
      (r == Overrun <==> ending == Past)
      && (r.Done? ==>
            (r.result == |r.p.out| == TotalWidth(fmt, 0, args, charSigned, 0) <==> ending == Complete)
            && (r.result == -1 <==> ending == Inside))
  {
    ReturnedCount(fmt, 0, args, charSigned, Progress("", 0, []));
  }
}
