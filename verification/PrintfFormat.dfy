/**
 * What the printer's format language means: how a directive is read, and the piece of
 * text each directive contributes.
 */
module PrintfFormat {
  import opened Numerals
  import opened Grouping
  import opened DigitBuffer
  import opened FormatText

  // ---------------------------------------------------------------- arguments

  datatype CString = Null | Chars(memory: string)

  /** One variable argument; each fetch macro looks at the part of it that it needs. */
  datatype Arg = Arg(bits: nat, str: CString)

  /** Reading past the last argument is undefined in C; it yields an empty argument here. */
  function ArgAt(args: seq<Arg>, k: nat): Arg {
    if k < |args| then args[k] else Arg(0, Null)
  }

  /** strnlen: the limit is not consulted when it is negative. */
  function StrLen(s: string, limit: int): (n: nat)
    ensures n <= |s| && (0 <= limit ==> n <= limit)
    ensures forall k :: 0 <= k < n ==> s[k] != NUL
    ensures n < |s| && n != limit ==> s[n] == NUL
    decreases |s|
  {
    if s == "" || s[0] == NUL || limit == 0 then 0 else 1 + StrLen(s[1..], limit - 1)
  }

  // ---------------------------------------------------------------- directives

  datatype Flags = Flags(space: bool, alternative: bool, tick: bool, engineering: bool,
                         plus: bool, left: bool, zero: bool, precise: bool)

  const NO_FLAGS := Flags(false, false, false, false, false, false, false, false)

  datatype Directive = Directive(flags: Flags, width: int, precision: int, length: Length, conv: char)

  function Flagged(ch: char, f: Flags): Flags {
    match ch
    case ' ' => f.(space := true)
    case '#' => f.(alternative := true)
    case '\'' => f.(tick := true)
    case '^' => f.(engineering := true)
    case '+' => f.(plus := true)
    case '-' => f.(left := true)
    case '0' => f.(zero := true)
    case _ => f
  }

  predicate IsFlag(ch: char) {
    ch == ' ' || ch == '#' || ch == '\'' || ch == '^' || ch == '+' || ch == '-' || ch == '0'
  }

  /** The flags from index i on, and the index of the first character that is none. */
  function GatherFlags(fmt: string, i: nat, f: Flags): (r: (Flags, nat))
    ensures i <= r.1 && (i <= |fmt| ==> r.1 <= |fmt|)
    decreases |fmt| - i
  {
    if i < |fmt| && IsFlag(fmt[i]) then GatherFlags(fmt, i + 1, Flagged(fmt[i], f)) else (f, i)
  }

  /** A width or precision: from an argument when a star is written. */
  function GatherStarOrNumber(fmt: string, i: nat, args: seq<Arg>, next: nat): (r: (int, nat, nat))
    ensures i <= r.1 && (i <= |fmt| ==> r.1 <= |fmt|)
  {
    if At(fmt, i) == '*' then (Signed(ArgAt(args, next).bits, 32), i + 1, next + 1)
    else
      var (n, j) := GatherNumber(fmt, i, 0);
      (n, j, next)
  }

  function GatherLength(fmt: string, i: nat): (r: (Length, nat))
    ensures i <= r.1 && (i <= |fmt| ==> r.1 <= |fmt|)
  {
    match At(fmt, i)
    case 't' => (LenInt, i + 1)
    case 'z' => (LenInt, i + 1)
    case 'j' => (LenLongLong, i + 1)
    case 'l' => if At(fmt, i + 1) == 'l' then (LenLongLong, i + 2) else (LenLong, i + 1)
    case 'L' => (LenLong, i)
    case 'h' => if At(fmt, i + 1) == 'h' then (LenChar, i + 2) else (LenShort, i + 1)
    case _ => (LenInt, i)
  }

  /** Flags, width, index and arguments consumed; a negative starred width asks for left justification. */
  datatype Sized = Sized(flags: Flags, n: int, pos: nat, next: nat)

  function ParseWidth(fmt: string, i: nat, f: Flags, args: seq<Arg>, next: nat): (r: Sized)
    ensures i <= r.pos
  {
    var (w, j, next') := GatherStarOrNumber(fmt, i, args, next);
    if At(fmt, i) == '*' && w < 0 then Sized(f.(left := true), Max(0, Signed(-w, 32)), j, next')
    else Sized(f, Max(0, w), j, next')
  }

  /** A negative precision counts as none. */
  function ParsePrecision(fmt: string, i: nat, f: Flags, args: seq<Arg>, next: nat): (r: Sized)
    ensures i <= r.pos
  {
    if At(fmt, i) == '.' then
      var (p, j, next') := GatherStarOrNumber(fmt, i + 1, args, next);
      Sized(f.(precise := f.precise || 0 <= p), p, j, next')
    else Sized(f, 0, i, next)
  }

  datatype Parsed = Parsed(d: Directive, pos: nat, next: nat)

  /** The directive whose text starts after the percent sign at index i - 1. */
  function ParseDirective(fmt: string, i: nat, args: seq<Arg>, next: nat): (p: Parsed)
    ensures i < p.pos
  {
    var (f, i1) := GatherFlags(fmt, i, NO_FLAGS);
    var w := ParseWidth(fmt, i1, f, args, next);
    var p := ParsePrecision(fmt, w.pos, w.flags, args, w.next);
    var (len, i4) := GatherLength(fmt, p.pos);
    Parsed(Directive(p.flags, w.n, p.n, len, At(fmt, i4)), i4 + 1, p.next)
  }

  predicate IsSigned(conv: char) { conv == 'd' || conv == 'i' }

  predicate IsDecimal(conv: char) { IsSigned(conv) || conv == 'u' }

  predicate IsHex(conv: char) { conv == 'p' || conv == 'x' || conv == 'X' }

  predicate IsInteger(conv: char) { IsDecimal(conv) || conv == 'o' || IsHex(conv) }

  function Radix(conv: char): (r: nat)
    ensures r in {8, 10, 16}
  {
    if IsHex(conv) then 16 else if conv == 'o' then 8 else 10
  }

  // ---------------------------------------------------------------- integer pieces

  /** A value as printed: what stands in front of it, and its magnitude. */
  datatype Value = Value(prefix: string, magnitude: nat)

  /** The integer a signed conversion prints; plain char may be signed or not. */
  function SignedArg(arg: Arg, len: Length, charSigned: bool): int {
    if len == LenChar && !charSigned then arg.bits % Pow2(8) else Signed(arg.bits, Bits(len))
  }

  function SignedPrefix(f: Flags, v: int): string {
    if v < 0 then "-" else if f.plus then "+" else if f.space then " " else ""
  }

  function BasePrefix(f: Flags, conv: char): string {
    if !f.alternative then ""
    else if conv == 'p' then "#"
    else if conv == 'x' then "0x"
    else if conv == 'X' then "0X"
    else if conv == 'o' then "0"
    else ""
  }

  function UnsignedArg(arg: Arg, len: Length, conv: char): nat {
    arg.bits % Pow2(if conv == 'p' then 32 else Bits(len))
  }

  function ValueOf(d: Directive, arg: Arg, charSigned: bool): (v: Value)
    requires IsInteger(d.conv)
  {
    if IsSigned(d.conv) then
      var v := SignedArg(arg, d.length, charSigned);
      Value(SignedPrefix(d.flags, v), if v < 0 then -v else v)
    else
      Value(BasePrefix(d.flags, d.conv), UnsignedArg(arg, d.length, d.conv))
  }

  /** The digits of a magnitude, none for zero. */
  function Body(d: Directive, magnitude: nat): string
    requires IsInteger(d.conv)
  {
    if IsDecimal(d.conv) then DecimalText(magnitude, d.flags.tick)
    else Numeral(magnitude, Radix(d.conv), d.conv == 'X')
  }

  function LeastDigits(d: Directive): int {
    if d.conv == 'p' then 8 else if d.flags.precise then d.precision else 1
  }

  /** A given precision switches zero filling off, except for pointers. */
  predicate ZeroFills(d: Directive) {
    d.flags.zero && (d.conv == 'p' || !d.flags.precise)
  }

  /** PRE_PADDING: the padding in front, none when left-justified. */
  function Leading(d: Directive, zeroFill: bool, n: int): string {
    if d.flags.left then "" else Repeat(if zeroFill then '0' else ' ', n)
  }

  function Trailing(d: Directive, n: int): string {
    if d.flags.left then Repeat(' ', n) else ""
  }

  function Assemble(d: Directive, prefix: string, zeroFill: bool, zeros: int, pad: int, body: string): string {
    prefix + Leading(d, zeroFill, pad) + Repeat('0', zeros) + body + Trailing(d, pad)
  }

  /** Note the order: the prefix stands in front of the padding, blanks included. */
  function LayOut(d: Directive, prefix: string, zeroFill: bool, least: int, body: string): string {
    var zeros := Max(0, least - |body|);
    var pad := d.width - zeros - |body| - |prefix|;
    Assemble(d, prefix, zeroFill, zeros, pad, body)
  }

  function IntegerPiece(d: Directive, v: Value): string
    requires IsInteger(d.conv)
  {
    LayOut(d, v.prefix, ZeroFills(d), LeastDigits(d), Body(d, v.magnitude))
  }

  predicate Overruns(d: Directive, v: Value) {
    IsDecimal(d.conv) && d.flags.tick && v.magnitude >= 100_000_000_000_000_000
  }

  // ---------------------------------------------------------------- other pieces

  function StringText(d: Directive, arg: Arg): string {
    var s := if arg.str.Null? then "(null)" else arg.str.memory;
    s[..StrLen(s, if d.flags.precise then d.precision else -1)]
  }

  function StringPiece(d: Directive, arg: Arg): string {
    var s := StringText(d, arg);
    Leading(d, false, d.width - |s|) + s + Trailing(d, d.width - |s|)
  }

  function CharPiece(d: Directive, arg: Arg): string {
    Leading(d, d.flags.zero, d.width - 1) + [(arg.bits % 256) as char] + Trailing(d, d.width - 1)
  }

  // ---------------------------------------------------------------- whole formats

  /** A store through an argument pointer: which argument, and the value it receives. */
  datatype Store = Store(arg: nat, value: int)

  datatype Progress = Progress(out: string, next: nat, stores: seq<Store>)

  /** A call returns a result, or stores past the digit buffer. */
  datatype Outcome = Done(p: Progress, result: int) | Overrun

  predicate TakesArgument(conv: char) { IsInteger(conv) || conv == 'c' || conv == 's' || conv == 'n' }

  /** The text of a directive that does not overrun the buffer. */
  function Piece(d: Directive, arg: Arg, charSigned: bool): string {
    if IsInteger(d.conv) then IntegerPiece(d, ValueOf(d, arg, charSigned))
    else if d.conv == 's' then StringPiece(d, arg)
    else if d.conv == 'c' then CharPiece(d, arg)
    else if d.conv == '%' then "%"
    else ""
  }

  function CountBits(len: Length): nat {
    if len == LenShort then 32 else Bits(len)
  }

  /** The effect of one directive. */
  function Convert(d: Directive, arg: Arg, charSigned: bool, p: Progress): Progress {
    Progress(p.out + Piece(d, arg, charSigned),
             if TakesArgument(d.conv) then p.next + 1 else p.next,
             if d.conv == 'n' then p.stores + [Store(p.next, Signed(|p.out|, CountBits(d.length)))] else p.stores)
  }

  predicate Stops(d: Directive, arg: Arg, charSigned: bool) {
    IsInteger(d.conv) && Overruns(d, ValueOf(d, arg, charSigned))
  }

  function Render(fmt: string, i: nat, args: seq<Arg>, charSigned: bool, p: Progress): Outcome
    decreases |fmt| - i
  {
    if At(fmt, i) == NUL then Done(p, |p.out|)
    else if fmt[i] != '%' then Render(fmt, i + 1, args, charSigned, p.(out := p.out + [fmt[i]]))
    else
      var parsed := ParseDirective(fmt, i + 1, args, p.next);
      var d, q := parsed.d, p.(next := parsed.next);
      var arg := ArgAt(args, parsed.next);
      if d.conv == NUL then Done(q, -1)
      else if Stops(d, arg, charSigned) then Overrun
      else Render(fmt, parsed.pos, args, charSigned, Convert(d, arg, charSigned, q))
  }

  /** One character of a format, or one directive. */
  lemma RenderStep(fmt: string, i: nat, args: seq<Arg>, charSigned: bool, p: Progress)
    ensures Render(fmt, i, args, charSigned, p) ==
      if At(fmt, i) == NUL then Done(p, |p.out|)
      else if fmt[i] != '%' then Render(fmt, i + 1, args, charSigned, p.(out := p.out + [fmt[i]]))
      else
        var parsed := ParseDirective(fmt, i + 1, args, p.next);
        var d, q := parsed.d, p.(next := parsed.next);
        var arg := ArgAt(args, parsed.next);
        if d.conv == NUL then Done(q, -1)
        else if Stops(d, arg, charSigned) then Overrun
        else Render(fmt, parsed.pos, args, charSigned, Convert(d, arg, charSigned, q))
  {
  }

  /** The end of a format. */
  lemma RenderEnds(fmt: string, args: seq<Arg>, charSigned: bool, p: Progress)
    ensures Render(fmt, |fmt|, args, charSigned, p) == Done(p, |p.out|)
    ensures p.out + "" == p.out
  {
  }
}
