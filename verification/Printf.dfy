/** The printer itself: cursors, counters and loops that change step by step. */
module Printf {
  import opened Numerals
  import opened DigitBuffer
  import opened FormatText
  import opened PrintfFormat

  /** The text of a packed prefix: a first character above bit 8, a second one below it. */
  function PrefixText(prefix: nat): string {
    (if prefix >= 0x100 then [(prefix / 0x100 % 0x100) as char] else "")
    + (if prefix != 0 then [(prefix % 0x100) as char] else "")
  }

  lemma Append3(s: string, a: string, b: string, c: string)
    ensures s + a + b + c == s + (a + b + c)
  {
  }

  lemma Append5(s: string, a: string, b: string, c: string, d: string, e: string)
    ensures s + a + b + c + d + e == s + (a + b + c + d + e)
  {
    Append3(s, a, b, c);
    Append3(s, a + b + c, d, e);
  }

  lemma ArgumentRange(arg: Arg, len: Length, conv: char, charSigned: bool)
    ensures -0x8000_0000_0000_0000 <= SignedArg(arg, len, charSigned) < TWO_TO_64
    ensures UnsignedArg(arg, len, conv) < TWO_TO_64
  {
    hide Signed, Pow2;
    PowersOfTwo();
    SignedCongruent(arg.bits, Bits(len));
  }

  lemma TwosComplement(i: int)
    requires -0x8000_0000_0000_0000 <= i < TWO_TO_64
    ensures i >= 0 ==> i % TWO_TO_64 == i
    ensures i < 0 ==> (0 - i % TWO_TO_64) % TWO_TO_64 == -i
  {
  }

  class Printer {
    const fmt: string
    const args: seq<Arg>
    const charSigned: bool

    var pos: nat              // the format pointer
    var next: nat             // the argument cursor
    var out: string           // everything sent out
    var charcount: int
    var stores: seq<Store>    // what %n wrote through argument pointers

    ghost predicate Valid()
      reads this
    {
      charcount == |out|
    }

    ghost function Progressed(): Progress
      reads this
    {
      Progress(out, next, stores)
    }

    constructor (fmt: string, args: seq<Arg>, charSigned: bool)
      ensures Valid() && Progressed() == Progress("", 0, []) && pos == 0
      ensures this.fmt == fmt && this.args == args && this.charSigned == charSigned
    {
      this.fmt, this.args, this.charSigned := fmt, args, charSigned;
      pos, next, out, charcount, stores := 0, 0, "", 0, [];
    }

    method Putc(c: char)
      requires Valid()
      modifies `out, `charcount
      ensures Valid() && out == old(out) + [c]
    {
      out := out + [c];
      charcount := charcount + 1;
    }

    method PrintPadding(c: char, count: int)
      requires Valid()
      modifies `out, `charcount
      ensures Valid() && out == old(out) + Repeat(c, count)
    {
      var n := count;
      while n > 0
        invariant Valid() && out + Repeat(c, n) == old(out) + Repeat(c, count)
        decreases n
      {
        Putc(c);
        n := n - 1;
      }
    }

    method PrePadding(d: Directive, zeroFill: bool, count: int)
      requires Valid()
      modifies `out, `charcount
      ensures Valid() && out == old(out) + Leading(d, zeroFill, count)
    {
      if !d.flags.left {
        PrintPadding(if zeroFill then '0' else ' ', count);
      }
    }

    method PostPadding(d: Directive, count: int)
      requires Valid()
      modifies `out, `charcount
      ensures Valid() && out == old(out) + Trailing(d, count)
    {
      if d.flags.left {
        PrintPadding(' ', count);
      }
    }

    /** The value of a run of digits under the format pointer. */
    method ReadNumber() returns (n: int)
      modifies `pos
      ensures (n, pos) == GatherNumber(fmt, old(pos), 0)
    {
      n := 0;
      while pos < |fmt| && IsDigit(fmt[pos] as int)
        invariant GatherNumber(fmt, pos, n) == GatherNumber(fmt, old(pos), 0)
        decreases |fmt| - pos
      {
        n := Signed(n * 10 + (fmt[pos] as int - '0' as int), 32);
        pos := pos + 1;
      }
    }

    method ReadStarOrNumber() returns (n: int)
      modifies `pos, `next
      ensures (n, pos, next) == GatherStarOrNumber(fmt, old(pos), args, old(next))
    {
      if At(fmt, pos) == '*' {
        n := Signed(ArgAt(args, next).bits, 32);
        next := next + 1;
        pos := pos + 1;
      } else {
        n := ReadNumber();
      }
    }

    method ReadFlags() returns (f: Flags)
      modifies `pos
      ensures (f, pos) == GatherFlags(fmt, old(pos), NO_FLAGS)
    {
      f := NO_FLAGS;
      while pos < |fmt| && IsFlag(fmt[pos])
        invariant GatherFlags(fmt, pos, f) == GatherFlags(fmt, old(pos), NO_FLAGS)
        decreases |fmt| - pos
      {
        f := Flagged(fmt[pos], f);
        pos := pos + 1;
      }
    }

    method ReadLength() returns (len: Length)
      modifies `pos
      ensures (len, pos) == GatherLength(fmt, old(pos))
    {
      len := LenInt;
      var ch := At(fmt, pos);
      if ch == 't' || ch == 'z' {
        pos := pos + 1;
      } else if ch == 'j' {
        len := LenLongLong;
        pos := pos + 1;
      } else if ch == 'l' {
        pos := pos + 1;
        if At(fmt, pos) == 'l' {
          len := LenLongLong;
          pos := pos + 1;
        } else {
          len := LenLong;
        }
      } else if ch == 'L' {
        len := LenLong;
      } else if ch == 'h' {
        pos := pos + 1;
        if At(fmt, pos) == 'h' {
          len := LenChar;
          pos := pos + 1;
        } else {
          len := LenShort;
        }
      }
    }

    method ReadWidth(f: Flags) returns (flags: Flags, width: int)
      modifies `pos, `next
      ensures Sized(flags, width, pos, next) == ParseWidth(fmt, old(pos), f, args, old(next))
    {
      flags := f;
      var star := At(fmt, pos) == '*';
      width := ReadStarOrNumber();
      if star && width < 0 {
        width := Signed(-width, 32);
        flags := flags.(left := true);
      }
      if width < 0 {
        width := 0;
      }
    }

    method ReadPrecision(f: Flags) returns (flags: Flags, precision: int)
      modifies `pos, `next
      ensures Sized(flags, precision, pos, next) == ParsePrecision(fmt, old(pos), f, args, old(next))
    {
      flags, precision := f, 0;
      if At(fmt, pos) == '.' {
        pos := pos + 1;
        precision := ReadStarOrNumber();
        if precision >= 0 {
          flags := flags.(precise := true);
        }
      }
    }

    method ReadDirective() returns (d: Directive)
      modifies `pos, `next
      ensures Parsed(d, pos, next) == ParseDirective(fmt, old(pos), args, old(next))
    {
      var width, precision;
      var flags := ReadFlags();
      flags, width := ReadWidth(flags);
      flags, precision := ReadPrecision(flags);
      var len := ReadLength();
      d := Directive(flags, width, precision, len, At(fmt, pos));
      pos := pos + 1;
    }

    method NextArg() returns (arg: Arg)
      modifies `next
      ensures arg == ArgAt(args, old(next)) && next == old(next) + 1
    {
      arg := ArgAt(args, next);
      next := next + 1;
    }

    /** The 64-bit magnitude and the packed prefix of a signed integer. */
    method SignedValue(d: Directive, i: int) returns (u: nat, prefix: nat)
      requires -0x8000_0000_0000_0000 <= i < TWO_TO_64
      ensures u < TWO_TO_64
      ensures i < 0 ==> u == -i
      ensures i >= 0 ==> u == i
      ensures PrefixText(prefix) == SignedPrefix(d.flags, i)
    {
      TwosComplement(i);
      prefix := 0;
      u := i % TWO_TO_64;
      if i < 0 {
        u := (0 - u) % TWO_TO_64;
        prefix := '-' as int;
      } else if d.flags.plus {
        prefix := '+' as int;
      } else if d.flags.space {
        prefix := ' ' as int;
      }
    }

    /** The packed prefix of an unsigned conversion. */
    method UnsignedPrefix(d: Directive) returns (prefix: nat)
      ensures PrefixText(prefix) == BasePrefix(d.flags, d.conv)
    {
      prefix := 0;
      if d.flags.alternative {
        match d.conv {
          case 'p' => prefix := '#' as int;
          case 'x' => prefix := '0' as int * 0x100 + 'x' as int;
          case 'X' => prefix := '0' as int * 0x100 + 'X' as int;
          case 'o' => prefix := '0' as int;
          case _ =>
        }
      }
    }

    method FetchValue(d: Directive) returns (u: nat, prefix: nat)
      requires IsInteger(d.conv)
      modifies `next
      ensures u < TWO_TO_64 && next == old(next) + 1
      ensures Value(PrefixText(prefix), u) == ValueOf(d, ArgAt(args, old(next)), charSigned)
    {
      var arg := NextArg();
      ArgumentRange(arg, d.length, d.conv, charSigned);
      if d.conv == 'd' || d.conv == 'i' {
        u, prefix := SignedValue(d, SignedArg(arg, d.length, charSigned));
      } else {
        u := UnsignedArg(arg, d.length, d.conv);
        prefix := UnsignedPrefix(d);
      }
    }

    method FillBuffer(d: Directive, u: nat, buff: array<char>) returns (len: nat, overrun: bool)
      requires IsInteger(d.conv) && u < TWO_TO_64 && buff.Length == BUFF_SIZE
      modifies buff
      ensures overrun <==> IsDecimal(d.conv) && d.flags.tick && u >= 100_000_000_000_000_000
      ensures !overrun ==> len <= BUFF_SIZE && Reversed(buff[..len]) == Body(d, u)
    {
      overrun := false;
      match d.conv {
        case 'p' => len := FillHex(buff, u, false);
        case 'x' => len := FillHex(buff, u, false);
        case 'X' => len := FillHex(buff, u, true);
        case 'o' => len := FillOctal(buff, u);
        case _ => len, overrun := FillDecimal(buff, u, d.flags.tick);
      }
    }

    /** Sends the buffer out, last slot first. */
    method PutBuffer(buff: array<char>, count: nat)
      requires Valid() && count <= buff.Length
      modifies `out, `charcount
      ensures Valid() && out == old(out) + Reversed(buff[..count])
    {
      var len: nat := count;
      while len > 0
        invariant len <= buff.Length
        invariant Valid() && out + Reversed(buff[..len]) == old(out) + Reversed(buff[..count])
      {
        len := len - 1;
        PushFront(buff[..], len);
        assert buff[..][..len] == buff[..len] && buff[..][..len + 1] == buff[..len + 1];
        Putc(buff[len]);
      }
    }

    method PutText(str: string, len: nat)
      requires Valid() && len <= |str|
      modifies `out, `charcount
      ensures Valid() && out == old(out) + str[..len]
    {
      var i := 0;
      while i < len
        invariant i <= len && Valid() && out == old(out) + str[..i]
      {
        Putc(str[i]);
        i := i + 1;
      }
    }

    method PutPrefix(prefix: nat)
      requires Valid()
      modifies `out, `charcount
      ensures Valid() && out == old(out) + PrefixText(prefix)
    {
      if prefix >= 0x100 {
        Putc((prefix / 0x100 % 0x100) as char);
      }
      if prefix != 0 {
        Putc((prefix % 0x100) as char);
      }
    }

    /** Prefix, padding, zeros, digits, padding. */
    method PutPieces(d: Directive, prefix: nat, zeroFill: bool, precision: int, width: int, buff: array<char>, len: nat)
      requires Valid() && len <= buff.Length
      modifies `out, `charcount
      ensures Valid()
      ensures out == old(out) + Assemble(d, PrefixText(prefix), zeroFill, precision, width, Reversed(buff[..len]))
    {
      ghost var a, b, c := PrefixText(prefix), Leading(d, zeroFill, width), Repeat('0', precision);
      ghost var e, f := Reversed(buff[..len]), Trailing(d, width);
      PutPrefix(prefix);
      PrePadding(d, zeroFill, width);
      PrintPadding('0', precision);
      PutBuffer(buff, len);
      PostPadding(d, width);
      Append5(old(out), a, b, c, e, f);
    }

    /** What the prefix leaves of the width. */
    method PaddingWidth(fieldWidth: int, prefix: nat) returns (width: int)
      ensures width == fieldWidth - |PrefixText(prefix)|
    {
      width := fieldWidth;
      if prefix >= 0x100 {
        width := width - 1;
      }
      if prefix != 0 {
        width := width - 1;
      }
    }

    method PutInteger(d: Directive, prefix: nat, zeroFill: bool, leastDigits: int, buff: array<char>, len: nat)
      requires Valid() && len <= buff.Length
      modifies `out, `charcount
      ensures Valid()
      ensures out == old(out) + LayOut(d, PrefixText(prefix), zeroFill, leastDigits, Reversed(buff[..len]))
    {
      var precision := leastDigits - len;
      if precision < 0 {
        precision := 0;
      }
      var width := PaddingWidth(d.width - precision - len, prefix);
      PutPieces(d, prefix, zeroFill, precision, width, buff, len);
    }

    method FormatInteger(d: Directive) returns (overrun: bool)
      requires Valid() && IsInteger(d.conv)
      modifies `next, `out, `charcount
      ensures Valid() && next == old(next) + 1
      ensures overrun == Stops(d, ArgAt(args, old(next)), charSigned)
      ensures !overrun ==> out == old(out) + Piece(d, ArgAt(args, old(next)), charSigned)
    {
      var u, prefix := FetchValue(d);
      var zeroFill := d.flags.zero;
      if d.conv != 'p' && d.flags.precise {
        zeroFill := false;
      }
      var precision := if d.conv == 'p' then 8 else if d.flags.precise then d.precision else 1;
      var buff := new char[BUFF_SIZE];
      var len;
      len, overrun := FillBuffer(d, u, buff);
      if !overrun {
        PutInteger(d, prefix, zeroFill, precision, buff, len);
      }
    }

    method FormatString(d: Directive)
      requires Valid()
      modifies `next, `out, `charcount
      ensures Valid() && next == old(next) + 1
      ensures out == old(out) + StringPiece(d, ArgAt(args, old(next)))
    {
      hide Leading, Trailing, StrLen, ArgAt;
      var arg := NextArg();
      var str := if arg.str == Null then "(null)" else arg.str.memory;
      var len := StrLen(str, if d.flags.precise then d.precision else -1);
      var width := d.width - len;
      PrePadding(d, false, width);
      PutText(str, len);
      PostPadding(d, width);
      Append3(old(out), Leading(d, false, width), str[..len], Trailing(d, width));
    }

    method FormatChar(d: Directive)
      requires Valid()
      modifies `next, `out, `charcount
      ensures Valid() && next == old(next) + 1
      ensures out == old(out) + CharPiece(d, ArgAt(args, old(next)))
    {
      var arg := NextArg();
      var width := d.width - 1;
      PrePadding(d, d.flags.zero, width);
      Putc((arg.bits % 256) as char);
      PostPadding(d, width);
      Append3(old(out), Leading(d, d.flags.zero, width), [(arg.bits % 256) as char], Trailing(d, width));
    }

    /** The switch on the conversion character. */
    method Format(d: Directive) returns (overrun: bool)
      requires Valid()
      modifies `next, `out, `charcount, `stores
      ensures Valid()
      ensures overrun == Stops(d, ArgAt(args, old(next)), charSigned)
      ensures !overrun ==> Progressed() == Convert(d, ArgAt(args, old(next)), charSigned, old(Progressed()))
    {
      overrun := false;
      if d.conv == '%' {
        Putc('%');
      } else if d.conv == 'c' {
        FormatChar(d);
      } else if d.conv == 'n' {
        stores := stores + [Store(next, Signed(charcount, CountBits(d.length)))];
        next := next + 1;
      } else if d.conv == 's' {
        FormatString(d);
      } else if IsInteger(d.conv) {
        overrun := FormatInteger(d);
      }
    }

    /** The whole call: text, stores, consumed arguments and result are those of the format's meaning. */
    method Run() returns (result: int, overrun: bool)
      requires Valid() && pos == 0 && Progressed() == Progress("", 0, [])
      modifies this
      ensures Valid()
      ensures (if overrun then Overrun else Done(Progressed(), result))
        == Render(fmt, 0, args, charSigned, Progress("", 0, []))
    {
      overrun := false;
      while At(fmt, pos) != NUL
        invariant Valid()
        invariant Render(fmt, pos, args, charSigned, Progressed())
          == Render(fmt, 0, args, charSigned, Progress("", 0, []))
        decreases |fmt| - pos
      {
        var ch := fmt[pos];
        pos := pos + 1;
        if ch != '%' {
          Putc(ch);
        } else {
          var d := ReadDirective();
          if d.conv == NUL {
            return -1, false;
          }
          overrun := Format(d);
          if overrun {
            return 0, true;
          }
        }
      }
      result := charcount;
    }
  }
}
