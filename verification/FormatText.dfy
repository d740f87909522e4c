/** What the two format languages share: format text, numbers in it, and length modifiers. */
module FormatText {
  import opened Numerals

  datatype Length = LenInt | LenChar | LenShort | LenLong | LenLongLong | LenLongDouble

  /** The target width in the 32-bit Arm build, where isLONG is constantly false. */
  function Bits(len: Length): (bits: nat)
    ensures bits in {8, 16, 32, 64}
  {
    match len
    case LenChar => 8
    case LenShort => 16
    case LenLongLong => 64
    case LenInt | LenLong | LenLongDouble => 32
  }

  /** The character at an index of a NUL-terminated string. */
  function At(s: string, i: nat): char {
    if i < |s| then s[i] else '\0'
  }

  /** A 32-bit int after the digits from index i on have been shifted in. */
  function GatherNumber(fmt: string, i: nat, n: int): (r: (int, nat))
    ensures i <= r.1 && (i <= |fmt| ==> r.1 <= |fmt|)
    decreases |fmt| - i
  {
    if i < |fmt| && IsDigit(fmt[i] as int) then
      GatherNumber(fmt, i + 1, Signed(n * 10 + (fmt[i] as int - '0' as int), 32))
    else (n, i)
  }
}
