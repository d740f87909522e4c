/** The loops of the printer that fill the digit buffer, least significant digit first. */
module DigitBuffer {
  import opened Numerals
  import opened Grouping

  // (8 * sizeof(value_t) + 2) / 3 with the 64-bit value type.
  const BUFF_SIZE: nat := 22

  /** The order in which the buffer is sent out. */
  function Reversed(s: string): (r: string)
    ensures |r| == |s|
  {
    if s == "" then "" else [s[|s| - 1]] + Reversed(s[..|s| - 1])
  }

  lemma PushFront(buff: seq<char>, len: nat)
    requires len < |buff|
    ensures Reversed(buff[..len + 1]) == [buff[len]] + Reversed(buff[..len])
  {
    assert buff[..len + 1][..len] == buff[..len];
  }

  /** Every 64-bit value fits: at most 16 hexadecimal, 22 octal, 20 decimal digits. */
  lemma NumeralsFit(u: nat)
    requires u < TWO_TO_64
    ensures |Numeral(u, 16, true)| <= 16 && |Numeral(u, 16, false)| <= 16
    ensures |Numeral(u, 8, false)| <= 22
    ensures |Numeral(u, 10, false)| <= 20
  {
    assert Pow(16, 4) == 0x1_0000;
    assert Pow(16, 8) == 0x1_0000_0000;
    assert Pow(16, 12) == 0x1_0000_0000_0000;
    assert Pow(16, 16) == TWO_TO_64;
    NumeralLength(u, 16, true, 16);
    NumeralLength(u, 16, false, 16);
    assert Pow(8, 6) == 0x4_0000;
    assert Pow(8, 12) == 0x10_0000_0000;
    assert Pow(8, 18) == 0x40_0000_0000_0000;
    assert Pow(8, 22) == 4 * TWO_TO_64;
    NumeralLength(u, 8, false, 22);
    PowersOfTen();
    NumeralLength(u, 10, false, 20);
  }

  /** The octal bound is reached, so no slot of the buffer is spare. */
  lemma OctalFillsTheBuffer()
    ensures |Numeral(TWO_TO_64 - 1, 8, false)| == BUFF_SIZE
  {
    NumeralsFit(TWO_TO_64 - 1);
    assert Pow(8, 6) == 0x4_0000;
    assert Pow(8, 12) == 0x10_0000_0000;
    assert Pow(8, 18) == 0x40_0000_0000_0000;
    assert Pow(8, 21) == 0x8000_0000_0000_0000;
    NumeralLength(TWO_TO_64 - 1, 8, false, 21);
  }

  method StoreChar(buff: array<char>, len: nat, c: char)
    requires len < buff.Length
    modifies buff
    ensures buff[..len + 1] == old(buff[..len]) + [c]
  {
    buff[len] := c;
  }

  /** Stores the lowest digit of u and takes it off; goal is the numeral the finished buffer holds. */
  method StoreDigit(buff: array<char>, len: nat, u: nat, radix: nat, capitals: bool, ghost goal: string)
    returns (rest: nat)
    requires 2 <= radix <= 16 && u > 0 && len <= buff.Length == BUFF_SIZE
    requires |goal| <= BUFF_SIZE && Numeral(u, radix, capitals) + Reversed(buff[..len]) == goal
    modifies buff
    ensures len < BUFF_SIZE && rest == u / radix && rest < u
    ensures Numeral(rest, radix, capitals) + Reversed(buff[..len + 1]) == goal
  {
    DivFacts(u, radix);
    rest := u / radix;
    ghost var slots, front := buff[..len], Numeral(rest, radix, capitals);
    var c := DigitChar(u % radix, capitals);
    assert front + [c] + Reversed(slots) == front + ([c] + Reversed(slots));
    StoreChar(buff, len, c);
    PushFront(slots + [c], len);
    assert (slots + [c])[..len] == slots && (slots + [c])[..len + 1] == slots + [c];
  }

  method FillHex(buff: array<char>, value: nat, capitals: bool) returns (len: nat)
    requires buff.Length == BUFF_SIZE && value < TWO_TO_64
    modifies buff
    ensures len <= BUFF_SIZE && Reversed(buff[..len]) == Numeral(value, 16, capitals)
  {
    NumeralsFit(value);
    ghost var goal := Numeral(value, 16, capitals);
    var u := value;
    len := 0;
    while u > 0
      invariant len <= BUFF_SIZE && Numeral(u, 16, capitals) + Reversed(buff[..len]) == goal
    {
      u := StoreDigit(buff, len, u, 16, capitals, goal);
      len := len + 1;
    }
  }

  method FillOctal(buff: array<char>, value: nat) returns (len: nat)
    requires buff.Length == BUFF_SIZE && value < TWO_TO_64
    modifies buff
    ensures len <= BUFF_SIZE && Reversed(buff[..len]) == Numeral(value, 8, false)
  {
    NumeralsFit(value);
    ghost var goal := Numeral(value, 8, false);
    var u := value;
    len := 0;
    while u > 0
      invariant len <= BUFF_SIZE && Numeral(u, 8, false) + Reversed(buff[..len]) == goal
    {
      u := StoreDigit(buff, len, u, 8, false, goal);
      len := len + 1;
    }
  }

  /** The text of the decimal loop; a comma before every full group when tick is set. */
  function DecimalText(value: nat, tick: bool): string
  {
    if tick then Grouped(Numeral(value, 10, false)) else Numeral(value, 10, false)
  }

  /** What the decimal loop still has to put in front of the slots in use. */
  function DecimalFront(u: nat, len: nat, tick: bool): string
  {
    if tick then TickText(u, len) else Numeral(u, 10, false)
  }

  lemma FrontComma(u: nat, len: nat)
    requires u > 0 && len % 4 == 3
    ensures DecimalFront(u, len, true) == DecimalFront(u, len + 1, true) + [',']
  {
    DivFacts(u, 10);
  }

  lemma FrontDigit(u: nat, len: nat, tick: bool)
    requires u > 0 && (tick ==> len % 4 != 3)
    ensures DecimalFront(u, len, tick) == DecimalFront(u / 10, len + 1, tick) + [DigitChar(u % 10, false)]
  {
    DivFacts(u, 10);
  }

  /** The text when the value still to convert is u and the buffer holds these slots. */
  ghost predicate Converting(u: nat, slots: string, value: nat, tick: bool) {
    DecimalFront(u, |slots|, tick) + Reversed(slots) == DecimalText(value, tick)
  }

  lemma StoreSlot(u: nat, slots: string, c: char, u': nat, value: nat, tick: bool)
    requires Converting(u, slots, value, tick)
    requires DecimalFront(u, |slots|, tick) == DecimalFront(u', |slots| + 1, tick) + [c]
    ensures Converting(u', slots + [c], value, tick)
    ensures |slots| < |DecimalText(value, tick)|
  {
    PushFront(slots + [c], |slots|);
    assert (slots + [c])[..|slots| + 1] == slots + [c];
    assert (slots + [c])[..|slots|] == slots;
  }

  lemma DecimalStart(value: nat, tick: bool)
    requires value < TWO_TO_64
    ensures Converting(value, "", value, tick)
    ensures |DecimalText(value, tick)| > BUFF_SIZE <==> tick && value >= 100_000_000_000_000_000
  {
    NumeralsFit(value);
    TickTextIsGrouped(value);
    GroupedFits(value);
  }

  /** Stores the next character unless the buffer is full, which shows that the text does not fit. */
  method StoreNext(buff: array<char>, len: nat, c: char, ghost u: nat, ghost u': nat, ghost value: nat, ghost tick: bool)
    returns (full: bool)
    requires buff.Length == BUFF_SIZE && len <= BUFF_SIZE
    requires Converting(u, buff[..len], value, tick)
    requires DecimalFront(u, len, tick) == DecimalFront(u', len + 1, tick) + [c]
    modifies buff
    ensures full ==> |DecimalText(value, tick)| > BUFF_SIZE
    ensures !full ==> len < BUFF_SIZE && Converting(u', buff[..len + 1], value, tick)
  {
    StoreSlot(u, buff[..len], c, u', value, tick);
    full := len == BUFF_SIZE;
    if !full {
      StoreChar(buff, len, c);
    }
  }

  /** The comma in front of a digit, when one is due. */
  method StoreComma(buff: array<char>, slots: nat, ghost u: nat, ghost value: nat, tick: bool)
    returns (len: nat, full: bool)
    requires buff.Length == BUFF_SIZE && slots <= BUFF_SIZE
    requires u > 0 && Converting(u, buff[..slots], value, tick)
    modifies buff
    ensures full ==> |DecimalText(value, tick)| > BUFF_SIZE
    ensures !full ==> len <= BUFF_SIZE && Converting(u, buff[..len], value, tick)
    ensures !full ==> tick ==> len % 4 != 3
  {
    len, full := slots, false;
    if tick {
      if len % 4 == 3 {
        FrontComma(u, len);
        full := StoreNext(buff, len, ',', u, u, value, tick);
        len := len + 1;
      }
    }
  }

  lemma Finished(slots: string, value: nat, tick: bool)
    requires Converting(0, slots, value, tick)
    ensures Reversed(slots) == DecimalText(value, tick)
    ensures |DecimalText(value, tick)| == |slots|
  {
  }

  /**
   * The decimal loop. A store past the last slot is undefined in C; here the loop stops
   * and reports it, and it does so exactly for grouped values of 10^17 and more.
   */
  method FillDecimal(buff: array<char>, value: nat, tick: bool) returns (len: nat, overrun: bool)
    requires buff.Length == BUFF_SIZE && value < TWO_TO_64
    modifies buff
    ensures overrun <==> tick && value >= 100_000_000_000_000_000
    ensures !overrun ==> len <= BUFF_SIZE && Reversed(buff[..len]) == DecimalText(value, tick)
  {
    DecimalStart(value, tick);
    var u := value;
    len, overrun := 0, false;
    assert buff[..0] == "";
    while u > 0
      invariant len <= BUFF_SIZE && !overrun
      invariant Converting(u, buff[..len], value, tick)
    {
      len, overrun := StoreComma(buff, len, u, value, tick);
      if overrun {
        return;
      }
      FrontDigit(u, len, tick);
      overrun := StoreNext(buff, len, DigitChar(u % 10, false), u, u / 10, value, tick);
      if overrun {
        return;
      }
      len := len + 1;
      u := u / 10;
    }
    Finished(buff[..len], value, tick);
  }
}
