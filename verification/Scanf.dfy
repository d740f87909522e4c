/** The scanner itself: an input position with one-character pushback, and reader loops. */
module Scanf {
  import opened Numerals
  import opened FormatText
  import opened ScanFormat
  import opened ScanSet

  const CVTEOF: int := -1
  const CVTFAIL: int := -2

  /** What a reader returns: the characters consumed, or why it failed. */
  function Worked(r: Read, start: nat): int {
    match r.status
    case Matched => r.pos - start
    case Failed => CVTFAIL
    case AtEnd => CVTEOF
  }

  /** One more digit in the accumulator. */
  lemma DigitStep(text: string, first: nat, at: nat, radix: nat)
    requires first <= at < |text| && AllDigits(text[first..at], radix) && Digit(text[at] as int, radix) >= 0
    ensures AllDigits(text[first..at + 1], radix)
    ensures Horner(text[first..at + 1], radix) % TWO_TO_64
      == ((Horner(text[first..at], radix) % TWO_TO_64) * radix + Digit(text[at] as int, radix)) % TWO_TO_64
  {
    HornerSnoc(text[first..at], text[at], radix);
    HornerStepModulo(Horner(text[first..at], radix), radix, Digit(text[at] as int, radix), TWO_TO_64);
    Extend(text, first, at);
  }

  class Scanner {
    const fmt: string
    const text: string

    var fpos: nat           // the format pointer
    var pos: nat            // the input position
    var dests: seq<Dest>    // the destinations fetched so far, in argument order

    constructor (fmt: string, text: string)
      ensures this.fmt == fmt && this.text == text && fpos == 0 && pos == 0 && dests == []
    {
      this.fmt, this.text, fpos, pos, dests := fmt, text, 0, 0, [];
    }

    ghost predicate Valid()
      reads this
    {
      pos <= |text|
    }

    /** ch is the character at index k and has been read, or the input ends at k. */
    ghost predicate Ahead(ch: int, k: int)
      reads this
    {
      0 <= k <= |text| &&
      if k < |text| then ch == text[k] as int && pos == k + 1 else ch == EOF && pos == k
    }

    /** Position, destinations and outcome are those of the read r that began at index start. */
    ghost predicate Did(r: Read, start: nat, before: seq<Dest>, worked: int)
      reads this
    {
      Valid() && pos == r.pos && dests == before + r.dests && worked == Worked(r, start)
    }

    method GetC() returns (ch: int)
      requires Valid()
      modifies `pos
      ensures Ahead(ch, old(pos))
    {
      if pos < |text| {
        ch := text[pos] as int;
        pos := pos + 1;
      } else {
        ch := EOF;
      }
    }

    method UngetC(ch: int, ghost k: int)
      requires Ahead(ch, k)
      modifies `pos
      ensures Valid() && pos == k
    {
      if ch != EOF {
        pos := pos - 1;
      }
    }

    method FetchPointer(initial: Dest)
      modifies `dests
      ensures dests == old(dests) + [initial]
    {
      dests := dests + [initial];
    }

    /** Reads past white space; the count starts at minus one and takes every read. */
    method SkipBlanks() returns (ch: int, charcount: int)
      requires Valid()
      modifies `pos
      ensures Ahead(ch, SkipSpace(text, old(pos)))
      ensures charcount == SkipSpace(text, old(pos)) - old(pos)
    {
      charcount := -1;
      ch := GetC();
      charcount := charcount + 1;
      while IsSpace(ch)
        invariant 0 <= charcount && Ahead(ch, old(pos) + charcount)
        invariant SkipSpace(text, old(pos) + charcount) == SkipSpace(text, old(pos))
        decreases |text| - charcount
      {
        ch := GetC();
        charcount := charcount + 1;
      }
    }

    // -------------------------------------------------------------- integers

    /** The optional sign. */
    method TakeSign(ch0: int, count0: int, field0: int, ghost i: nat)
      returns (ch: int, charcount: int, field: int, negative: bool)
      requires Ahead(ch0, i) && i < |text|
      modifies `pos
      ensures var sign := field0 > 0 && IsSign(text[i]);
        var j := if sign then i + 1 else i;
        Ahead(ch, j) && charcount == count0 + (j - i) && field == field0 - (j - i)
        && negative == (sign && text[i] == '-')
    {
      ch, charcount, field, negative := ch0, count0, field0, false;
      if field > 0 {
        if ch == '-' as int {
          negative := true;
        }
        if ch == '-' as int || ch == '+' as int {
          ch := GetC();
          charcount := charcount + 1;
          field := field - 1;
        }
      }
    }

    /** The leading zero and the 0x prefix, which settle the radix. */
    method TakePrefix(ch0: int, count0: int, radix0: nat, field0: int, ghost j: nat)
      returns (ch: int, charcount: int, radix: nat, field: int, numok: bool, ghost k: nat)
      requires Ahead(ch0, j) && radix0 != 1
      modifies `pos
      ensures var r := IntegerField(text, j, radix0, false, field0);
        radix == r.radix && Ahead(ch, k) && charcount == count0 + (k - j)
        && InDigits(text, r, k, field) && (numok <==> r.first < k)
    {
      hide IntegerField, RunEnd, Horner, AllDigits;
      ch, charcount, radix, field, numok, k := ch0, count0, radix0, field0, false, j;
      if field > 0 && ch == '0' as int {
        numok := true;
        field := field - 1;
        ch := GetC();
        charcount := charcount + 1;
        k := k + 1;
        if field > 0 && (ch == 'x' as int || ch == 'X' as int) && (radix == 0 || radix == 16) {
          FieldAfterHexPrefix(text, j, radix0, field0);
          numok := false;
          field := field - 1;
          ch := GetC();
          charcount := charcount + 1;
          k := k + 1;
          radix := 16;
        } else {
          FieldAfterZero(text, j, radix0, field0);
          if radix == 0 {
            radix := 8;
          }
        }
      } else {
        FieldWithoutZero(text, j, radix0, field0);
      }
      if radix == 0 {
        radix := 10;
      }
    }

    /** n is the number, modulo 2^64, of the digits between two indices. */
    ghost predicate Accumulated(n: nat, first: nat, at: nat, radix: nat) {
      first <= at <= |text| && AllDigits(text[first..at], radix)
      && n == Horner(text[first..at], radix) % TWO_TO_64
    }

    /** n = n * radix + digit in 64 bits. */
    method AddDigit(n: nat, radix: nat, ch: int, ghost first: nat, ghost at: nat) returns (m: nat)
      requires Accumulated(n, first, at, radix) && at < |text|
      requires ch == text[at] as int && Digit(ch, radix) >= 0
      ensures Accumulated(m, first, at + 1, radix)
    {
      DigitStep(text, first, at, radix);
      m := (n * radix + Digit(ch, radix)) % TWO_TO_64;
    }

    /** The digits, accumulated modulo 2^64. */
    method TakeDigits(ch0: int, count0: int, radix: nat, field0: int, numok0: bool, ghost r: IntField, ghost k: nat)
      returns (ch: int, charcount: int, n: nat, numok: bool)
      requires radix == r.radix && InDigits(text, r, k, field0) && Ahead(ch0, k)
      requires numok0 <==> r.first < k
      modifies `pos
      ensures Ahead(ch, r.end) && charcount == count0 + (r.end - k) && (numok <==> r.first < r.end)
      ensures Accumulated(n, r.first, r.end, radix)
    {
      ch, charcount, n, numok := ch0, count0, 0, numok0;
      var field := field0;
      ghost var at := k;
      while field > 0 && Digit(ch, radix) >= 0
        invariant r.first <= at && Ahead(ch, at) && charcount == count0 + (at - k)
        invariant RunEnd(text, at, radix, field) == r.end
        invariant numok <==> r.first < at
        invariant Accumulated(n, r.first, at, radix)
        decreases |text| - at
      {
        numok := true;
        field := field - 1;
        n := AddDigit(n, radix, ch, r.first, at);
        ch := GetC();
        charcount := charcount + 1;
        at := at + 1;
      }
    }

    /** Sign, prefix and digits of a field that starts at index i. */
    method TakeInteger(ch0: int, count0: int, signed: bool, radix0: nat, field0: int, ghost i: nat)
      returns (charcount: int, n: nat, negative: bool, numok: bool)
      requires Ahead(ch0, i) && i < |text| && radix0 != 1
      modifies `pos
      ensures var r := IntegerField(text, i, radix0, signed, field0);
        Valid() && pos == r.end && charcount == count0 + (r.end - i)
        && negative == r.negative && (numok <==> r.first < r.end)
        && n == Horner(text[r.first..r.end], r.radix) % TWO_TO_64
    {
      var ch, field, radix;
      ch, charcount, field, negative := ch0, count0, field0, false;
      if signed {
        ch, charcount, field, negative := TakeSign(ch, charcount, field, i);
      }
      IntegerFieldAfterSign(text, i, radix0, signed, field0);
      ghost var j := i + (charcount - count0);
      ghost var r := IntegerField(text, j, radix0, false, field);
      assert IntegerField(text, i, radix0, signed, field0) == r.(negative := negative);
      ghost var k;
      ch, charcount, radix, field, numok, k := TakePrefix(ch, charcount, radix0, field, j);
      ch, charcount, n, numok := TakeDigits(ch, charcount, radix, field, numok, r, k);
      UngetC(ch, r.end);
    }

    /** Negation and truncation to the target. */
    method StoreNumber(n: nat, negative: bool, bits: nat, ghost value: nat)
      requires n == value % TWO_TO_64 && bits <= 64
      modifies `dests
      ensures dests == old(dests) + [Integer(bits, (if negative then -(value as int) else value) % Pow2(bits))]
    {
      var m := n;
      if negative {
        m := (0 - n) % TWO_TO_64;
        NegateModulo(value, TWO_TO_64);
      }
      PowersOfTwo();
      TruncateModulo(if negative then -(value as int) else value, bits, 64);
      FetchPointer(Integer(bits, m % Pow2(bits)));
    }

    /** RD_INT. */
    method RdInt(nostore: bool, bits: nat, signed: bool, radix: nat, field: int) returns (worked: int)
      requires Valid() && radix != 1 && bits <= 64
      modifies `pos, `dests
      ensures Did(ReadInteger(text, old(pos), nostore, bits, signed, radix, field), old(pos), old(dests), worked)
    {
      ghost var i := SkipSpace(text, pos);
      var ch, charcount := SkipBlanks();
      if ch == EOF {
        return CVTEOF;
      }
      ghost var r := IntegerField(text, i, radix, signed, field);
      var n, negative, numok;
      charcount, n, negative, numok := TakeInteger(ch, charcount, signed, radix, field, i);
      if !numok {
        return CVTFAIL;
      }
      if !nostore {
        StoreNumber(n, negative, bits, Horner(text[r.first..r.end], r.radix));
      }
      return charcount;
    }

    // -------------------------------------------------------------- strings

    method StartText(nostore: bool)
      modifies `dests
      ensures dests == old(dests) + Storing(nostore, Partial(""))
    {
      if !nostore {
        FetchPointer(Partial(""));
      }
    }

    /** A store through the pointer fetched last, which then moves on. */
    method WriteChar(nostore: bool, ch: int, ghost c: char, ghost before: seq<Dest>, ghost written: string)
      requires dests == before + Storing(nostore, Partial(written)) && ch == c as int
      modifies `dests
      ensures dests == before + Storing(nostore, Partial(written + [c]))
    {
      if !nostore {
        var last := |dests| - 1;
        assert dests[..last] == before;
        dests := dests[..last] + [Partial(dests[last].memory + [ch as char])];
      }
    }

    /** The conversion is complete: what was written is the assigned item. */
    method EndText(nostore: bool, ghost before: seq<Dest>, ghost written: string)
      requires dests == before + Storing(nostore, Partial(written))
      modifies `dests
      ensures dests == before + Storing(nostore, Text(written))
    {
      if !nostore {
        var last := |dests| - 1;
        assert dests[..last] == before;
        dests := dests[..last] + [Text(dests[last].memory)];
      }
    }

    /** rd_string */
    method RdString(nostore: bool, field0: int) returns (worked: int)
      requires Valid()
      modifies `pos, `dests
      ensures Did(ReadWord(text, old(pos), nostore, field0), old(pos), old(dests), worked)
    {
      ghost var i := SkipSpace(text, pos);
      var ch, charcount := SkipBlanks();
      if ch == EOF {
        return CVTEOF;
      }
      StartText(nostore);
      var field := field0;
      ghost var end, at := WordEnd(text, i, field0), i;
      assert text[i..i] == "";
      while field > 0 && ch != EOF && !IsSpace(ch)
        invariant i <= at && Ahead(ch, at) && charcount == at - old(pos)
        invariant WordEnd(text, at, field) == end
        invariant dests == old(dests) + Storing(nostore, Partial(text[i..at]))
        decreases |text| - at
      {
        field := field - 1;
        WriteChar(nostore, ch, text[at], old(dests), text[i..at]);
        Extend(text, i, at);
        ch := GetC();
        charcount := charcount + 1;
        at := at + 1;
      }
      UngetC(ch, at);
      WriteChar(nostore, 0, NUL, old(dests), text[i..at]);
      EndText(nostore, old(dests), text[i..at] + [NUL]);
      return charcount;
    }

    /** The test of the bitmap, false at the end of the input. */
    method InMap(ch: int, charmap: array<bv32>, ghost set_: CharSet, ghost c: char) returns (member: bool)
      requires Denotes(charmap[..], set_) && (ch != EOF ==> ch == c as int)
      ensures member <==> ch != EOF && Contains(set_, c)
    {
      member := 0 <= ch < CHARLIMIT && Test(charmap[..], ch);
    }

    /** Copies members of the set. */
    method TakeMembers(ch0: int, nostore: bool, field0: int, charmap: array<bv32>, ghost set_: CharSet,
                       ghost before: seq<Dest>, ghost start: nat)
      returns (ch: int, charcount: int)
      requires Ahead(ch0, start) && Denotes(charmap[..], set_)
      requires dests == before + Storing(nostore, Partial(""))
      modifies `pos, `dests
      ensures var end := MemberEnd(text, start, set_, field0);
        Ahead(ch, end) && charcount == end - start
        && dests == before + Storing(nostore, Partial(text[start..end]))
    {
      hide Denotes, Contains;
      ch, charcount := ch0, 0;
      var field := field0;
      ghost var end, at := MemberEnd(text, start, set_, field0), start;
      assert text[start..start] == "";
      var member := InMap(ch, charmap, set_, At(text, at));
      while field > 0 && member
        invariant member <==> at < |text| && Contains(set_, text[at])
        invariant start <= at && Ahead(ch, at) && charcount == at - start
        invariant MemberEnd(text, at, set_, field) == end
        invariant dests == before + Storing(nostore, Partial(text[start..at]))
        decreases |text| - at
      {
        field := field - 1;
        WriteChar(nostore, ch, text[at], before, text[start..at]);
        Extend(text, start, at);
        ch := GetC();
        charcount := charcount + 1;
        at := at + 1;
        member := InMap(ch, charmap, set_, At(text, at));
      }
    }

    /** rd_string_map */
    method RdStringMap(nostore: bool, field: int, charmap: array<bv32>, ghost set_: CharSet) returns (worked: int)
      requires Valid() && Denotes(charmap[..], set_)
      modifies `pos, `dests
      ensures Did(ReadMembers(text, old(pos), nostore, set_, field), old(pos), old(dests), worked)
    {
      StartText(nostore);
      var charcount := -1;
      var ch := GetC();
      charcount := charcount + 1;
      if ch == EOF {
        return CVTEOF;
      }
      var copied;
      ghost var start, end := old(pos), MemberEnd(text, old(pos), set_, field);
      ch, copied := TakeMembers(ch, nostore, field, charmap, set_, old(dests), start);
      charcount := charcount + copied;
      UngetC(ch, end);
      WriteChar(nostore, 0, NUL, old(dests), text[start..end]);
      EndText(nostore, old(dests), text[start..end] + [NUL]);
      return charcount;
    }

    /** The loop of the c conversion: no skipping, no terminator, and no partial success. */
    method RdChars(nostore: bool, field0: int) returns (worked: int)
      requires Valid()
      modifies `pos, `dests
      ensures Did(ReadChars(text, old(pos), nostore, field0), old(pos), old(dests), worked)
    {
      StartText(nostore);
      if field0 == 0 {
        return CVTFAIL;
      }
      var field := field0;
      ghost var start := old(pos);
      worked := 0;
      assert text[start..start] == "";
      while field > 0
        invariant Valid() && worked == pos - start && start <= pos
        invariant field == field0 - (pos - start)
        invariant if field0 > 0 then field >= 0 else pos == start
        invariant dests == old(dests) + Storing(nostore, Partial(text[start..pos]))
        decreases field
      {
        ghost var at := pos;
        var ch := GetC();
        if ch == EOF {
          assert text[start..pos] == text[start..];
          return CVTEOF;
        }
        WriteChar(nostore, ch, text[at], old(dests), text[start..at]);
        Extend(text, start, at);
        worked := worked + 1;
        field := field - 1;
      }
      EndText(nostore, old(dests), text[start..pos]);
    }

    // -------------------------------------------------------------- reals

    /** One character of a mantissa, or none when ch does not belong to it. */
    method MantissaChar(ch: int, l0: nat, x0: int, numok0: bool, dot0: bool, ghost read: string, ghost c: char)
      returns (l: nat, x: int, numok: bool, dot: bool, taken: bool)
      requires ch != EOF ==> ch == c as int
      requires Mantissa(read, l0, x0, numok0, dot0)
      ensures taken <==> ch != EOF && ((c == '.' && !dot0) || IsDigit(c as int))
      ensures taken ==> Mantissa(read + [c], l, x, numok, dot) && dot == (dot0 || c == '.')
      ensures !taken ==> l == l0 && x == x0 && numok == numok0 && dot == dot0
    {
      l, x, numok, dot, taken := l0, x0, numok0, dot0, false;
      if ch == '.' as int && !dot {
        MantissaPoint(read, l, x, numok);
        dot, taken := true, true;
      } else if IsDigit(ch) {
        MantissaDigit(read, c, l, x, numok, dot);
        numok, taken := true, true;
        l := l * 10 + (ch - '0' as int);
        if dot {
          x := x - 1;
        }
      }
    }

    /** Digits and at most one decimal point. */
    method TakeMantissa(ch0: int, count0: int, field0: int, ghost j: nat)
      returns (ch: int, charcount: int, field: int, l: nat, x: int, numok: bool)
      requires Ahead(ch0, j)
      modifies `pos
      ensures var m := MantissaEnd(text, j, field0, false);
        Ahead(ch, m) && charcount == count0 + (m - j) && field == field0 - (m - j)
        && MantissaValue(text[j..m], l, x, numok)
    {
      hide Mantissa, MantissaValue, MantissaEnd, IsDigit, Max;
      ch, charcount, field, l, x, numok := ch0, count0, field0, 0, 0, false;
      var dotSeen, taken := false, true;
      ghost var at, read := j, text[j..j];
      NothingRead(read);
      ghost var m := MantissaEnd(text, j, field0, false);
      while field > 0
        invariant j <= at && Ahead(ch, at) && charcount == count0 + (at - j) && field == field0 - (at - j)
        invariant MantissaEnd(text, at, field, dotSeen) == m
        invariant read == text[j..at] && Mantissa(read, l, x, numok, dotSeen)
        decreases field
      {
        MantissaStep(text, at, field, dotSeen);
        l, x, numok, dotSeen, taken := MantissaChar(ch, l, x, numok, dotSeen, read, At(text, at));
        if !taken {
          break;
        }
        Extend(text, j, at);
        read := read + [text[at]];
        field := field - 1;
        ch := GetC();
        charcount := charcount + 1;
        at := at + 1;
      }
      MantissaStep(text, at, field, dotSeen);
      MantissaRead(read, l, x, numok, dotSeen);
    }

    /** The digits of the exponent, in an accumulator that saturates. */
    method TakeExponentDigits(ch0: int, count0: int, field0: int, ghost k: nat)
      returns (ch: int, charcount: int, x: nat, numok: bool)
      requires Ahead(ch0, k)
      modifies `pos
      ensures var end := RunEnd(text, k, 10, field0);
        Ahead(ch, end) && charcount == count0 + (end - k) && (numok <==> k < end)
        && Exponent(text[k..end], x)
      ensures 0 <= x <= 10009
    {
      hide Exponent, RunEnd, Max;
      ch, charcount, x, numok := ch0, count0, 0, false;
      var field := field0;
      ghost var at, read := k, text[k..k];
      NothingRead(read);
      ghost var end := RunEnd(text, k, 10, field0);
      while field > 0 && IsDigit(ch)
        invariant k <= at && Ahead(ch, at) && charcount == count0 + (at - k)
        invariant RunEnd(text, at, 10, field) == end
        invariant numok <==> k < at
        invariant x <= 10009 && read == text[k..at] && Exponent(read, x)
        decreases |text| - at
      {
        RunStep(text, at, field);
        ExponentDigit(read, text[at], x);
        Extend(text, k, at);
        read := read + [text[at]];
        numok := true;
        field := field - 1;
        x := if x > 1000 then 10000 else 10 * x + (ch - '0' as int);
        ch := GetC();
        charcount := charcount + 1;
        at := at + 1;
      }
      RunStep(text, at, field);
    }

    /** The exponent after a mantissa, if the input has one there. */
    method TakeExponent(ch0: int, count0: int, field0: int, x0: int, numok0: bool, ghost m: nat)
      returns (charcount: int, x: int, numok: bool)
      requires Ahead(ch0, m)
      modifies `pos
      ensures var e := ExponentAt(text, m, field0, numok0);
        Valid() && pos == e.end && charcount == count0 + (e.end - m)
        && numok == e.valid && x == x0 + e.value
    {
      hide RunEnd, Horner, Saturated, AllDigits;
      var ch, field, negative := ch0, field0, false;
      charcount, x, numok := count0, x0, numok0;
      ghost var e := ExponentAt(text, m, field0, numok0);
      if field > 0 && (ch == 'e' as int || ch == 'E' as int) && numok {
        field := field - 1;
        ch := GetC();
        charcount := charcount + 1;
        if ch == '-' as int {
          negative := true;
        }
        if ch == '-' as int || ch == '+' as int {
          ch := GetC();
          charcount := charcount + 1;
          field := field - 1;
        }
        var x2;
        ch, charcount, x2, numok := TakeExponentDigits(ch, charcount, field, m + (charcount - count0));
        if negative {
          x := x - x2;
        } else {
          x := x + x2;
        }
      }
      UngetC(ch, e.end);
    }

    /** Mantissa and exponent. */
    method TakeUnsigned(ch0: int, count0: int, field0: int, ghost j: nat)
      returns (charcount: int, l: nat, x: int, numok: bool)
      requires Ahead(ch0, j)
      modifies `pos
      ensures var r := UnsignedReal(text, j, field0);
        Valid() && pos == r.end && charcount == count0 + (r.end - j)
        && numok == r.valid && Decimal(false, l, x) == r.value
    {
      var ch, field;
      ch, charcount, field, l, x, numok := TakeMantissa(ch0, count0, field0, j);
      charcount, x, numok := TakeExponent(ch, charcount, field, x, numok, MantissaEnd(text, j, field0, false));
    }

    /** Sign, mantissa and exponent. */
    method TakeReal(ch0: int, count0: int, field0: int, ghost i: nat)
      returns (charcount: int, number: Decimal, numok: bool)
      requires Ahead(ch0, i) && i < |text|
      modifies `pos
      ensures Valid() && RealField(pos, numok, number) == RealFieldAt(text, i, field0)
      ensures charcount == count0 + (pos - i)
    {
      var ch, field, negative, l, x;
      ch, charcount, field, negative := TakeSign(ch0, count0, field0, i);
      charcount, l, x, numok := TakeUnsigned(ch, charcount, field, i + (charcount - count0));
      number := Decimal(negative, l, x);
    }

    /** rd_real, up to the scaling of the mantissa. */
    method RdReal(nostore: bool, double: bool, field: int) returns (worked: int)
      requires Valid()
      modifies `pos, `dests
      ensures Did(ReadReal(text, old(pos), nostore, double, field), old(pos), old(dests), worked)
    {
      var ch, charcount := SkipBlanks();
      if ch == EOF {
        return CVTEOF;
      }
      var number, numok;
      charcount, number, numok := TakeReal(ch, charcount, field, SkipSpace(text, old(pos)));
      if !numok {
        return CVTFAIL;
      }
      if !nostore {
        FetchPointer(Real(double, number));
      }
      return charcount;
    }

    // -------------------------------------------------------------- directives

    /** White space in the format, taken as one directive. */
    method SkipFormatSpace()
      requires fpos <= |fmt|
      modifies `fpos
      ensures fpos == SkipSpace(fmt, old(fpos))
    {
      while fpos < |fmt| && IsSpace(fmt[fpos] as int)
        invariant fpos <= |fmt| && SkipSpace(fmt, fpos) == SkipSpace(fmt, old(fpos))
        decreases |fmt| - fpos
      {
        fpos := fpos + 1;
      }
    }

    method SkipInputSpace(charcount0: int) returns (charcount: int)
      requires Valid()
      modifies `pos
      ensures Valid() && pos == SkipSpace(text, old(pos)) && charcount == charcount0 + (pos - old(pos))
    {
      charcount := charcount0;
      var ch := GetC();
      ghost var at := old(pos);
      while IsSpace(ch)
        invariant Ahead(ch, at) && charcount == charcount0 + (at - old(pos))
        invariant SkipSpace(text, at) == SkipSpace(text, old(pos))
        decreases |text| - at
      {
        charcount := charcount + 1;
        ch := GetC();
        at := at + 1;
      }
      UngetC(ch, at);
    }

    /** One character of the input that has to be c. */
    method MatchChar(c: char) returns (worked: int)
      requires Valid()
      modifies `pos
      ensures Did(ReadLiteral(text, old(pos), c), old(pos), old(dests), worked)
    {
      var ch := GetC();
      if ch == c as int {
        return 1;
      }
      UngetC(ch, old(pos));
      return if ch == EOF then CVTEOF else CVTFAIL;
    }

    method ReadNumber() returns (n: int)
      modifies `fpos
      ensures (n, fpos) == GatherNumber(fmt, old(fpos), 0)
    {
      n := 0;
      while fpos < |fmt| && IsDigit(fmt[fpos] as int)
        invariant GatherNumber(fmt, fpos, n) == GatherNumber(fmt, old(fpos), 0)
        decreases |fmt| - fpos
      {
        n := Signed(n * 10 + (fmt[fpos] as int - '0' as int), 32);
        fpos := fpos + 1;
      }
    }

    method ReadLength() returns (len: Length)
      modifies `fpos
      ensures (len, fpos) == ScanLength(fmt, old(fpos))
    {
      len := LenInt;
      var fch := At(fmt, fpos);
      if fch == 'l' {
        fpos := fpos + 1;
        if At(fmt, fpos) == 'l' {
          len := LenLongLong;
          fpos := fpos + 1;
        } else {
          len := LenLong;
        }
      } else if fch == 'L' {
        fpos := fpos + 1;
        len := LenLongDouble;
      } else if fch == 'h' {
        fpos := fpos + 1;
        if At(fmt, fpos) == 'h' {
          len := LenChar;
          fpos := fpos + 1;
        } else {
          len := LenShort;
        }
      }
    }

    /** The members of a scanset up to the closing bracket; the first one may be a bracket. */
    method CollectMembers(charmap: array<bv32>) returns (terminated: bool)
      requires Denotes(charmap[..], CharSet("", false)) && At(fmt, fpos) != NUL
      modifies `fpos, charmap
      ensures fpos == SetEnd(fmt, old(fpos) + 1) + 1
      ensures terminated <==> At(fmt, fpos - 1) != NUL
      ensures terminated ==> fpos <= |fmt| && Denotes(charmap[..], CharSet(fmt[old(fpos)..fpos - 1], false))
    {
      hide Denotes, Contains;
      ghost var start := fpos;
      var fch := At(fmt, fpos);
      fpos := fpos + 1;
      AddMember(charmap, fch, "");
      assert fmt[start..fpos] == "" + [fch];
      fch := At(fmt, fpos);
      while fch != ']' && fch != NUL
        invariant start < fpos <= |fmt| && fch == At(fmt, fpos)
        invariant SetEnd(fmt, fpos) == SetEnd(fmt, start + 1)
        invariant Denotes(charmap[..], CharSet(fmt[start..fpos], false))
        decreases |fmt| - fpos
      {
        AddMember(charmap, fch, fmt[start..fpos]);
        Extend(fmt, start, fpos);
        fpos := fpos + 1;
        fch := At(fmt, fpos);
      }
      terminated := fch != NUL;
      fpos := fpos + 1;
    }

    /** The scanset after an opening bracket, as a bitmap. */
    method ReadSet(nostore: bool, field: int) returns (terminated: bool, charmap: array<bv32>)
      modifies `fpos
      ensures fresh(charmap)
      ensures var p := ParseSet(fmt, old(fpos), nostore, field);
        terminated == (p.d != Unterminated) && (terminated ==> fpos == p.pos && Denotes(charmap[..], p.d.set_))
    {
      charmap := ClearMap();
      var negated := false;
      if At(fmt, fpos) == '^' {
        negated := true;
        fpos := fpos + 1;
      }
      if At(fmt, fpos) == NUL {
        return false, charmap;
      }
      ghost var start := fpos;
      terminated := CollectMembers(charmap);
      if terminated && negated {
        Complement(charmap, fmt[start..fpos - 1]);
      }
    }

    /** The switch on the conversion character. */
    method ConvertField(d: Directive, charcount: int) returns (worked: int)
      requires Valid() && d.Conversion? && charcount == pos
      modifies `pos, `dests
      ensures Did(Convert(text, old(pos), d), old(pos), old(dests), worked)
    {
      hide ReadInteger, ReadReal, ReadWord, ReadChars, ReadLiteral;
      if ReadsInteger(d.conv) {
        worked := RdInt(d.nostore, TargetBits(d.conv, d.length), d.conv != 'p', RequestedRadix(d.conv), d.field);
      } else if ReadsReal(d.conv) {
        worked := RdReal(d.nostore, d.length == LenLong || d.length == LenLongDouble, d.field);
      } else if d.conv == 's' {
        worked := RdString(d.nostore, d.field);
      } else if d.conv == 'c' {
        worked := RdChars(d.nostore, if d.given then d.field else 1);
      } else if d.conv == 'n' {
        if !d.nostore {
          FetchPointer(Count(Bits(d.length), Signed(charcount, Bits(d.length))));
        }
        worked := 0;
      } else if d.conv == '%' {
        worked := MatchChar('%');
      } else {
        worked := CVTFAIL;
      }
    }

    /** Everything after a percent sign: the conversion is parsed and carried out. */
    method RunConversion(charcount: int) returns (worked: int, item: bool)
      requires Valid() && charcount == pos
      modifies `fpos, `pos, `dests
      ensures var p := ParseConversion(fmt, old(fpos));
        Did(Apply(text, old(pos), p.d), old(pos), old(dests), worked)
        && (worked >= 0 ==> fpos == p.pos && item == StoresItem(p.d))
    {
      hide GatherNumber, ScanLength, ParseSet, Convert, ReadMembers;
      var nostore := false;
      if At(fmt, fpos) == '*' {
        fpos := fpos + 1;
        nostore := true;
      }
      var start := fpos;
      var field := ReadNumber();
      var given := start < fpos;
      if !given {
        field := INT_MAX;
      }
      var len := ReadLength();
      var fch := At(fmt, fpos);
      fpos := fpos + 1;
      if fch == '[' {
        ghost var set_ := ParseSet(fmt, fpos, nostore, field).d;
        var terminated, charmap := ReadSet(nostore, field);
        if !terminated {
          return CVTFAIL, false;
        }
        worked := RdStringMap(nostore, field, charmap, set_.set_);
        item := !nostore;
      } else {
        worked := ConvertField(Conversion(nostore, given, field, len, fch), charcount);
        item := !nostore && YieldsItem(fch);
      }
    }

    method SkipWhite(charcount: int) returns (worked: int)
      requires Valid() && fpos <= |fmt|
      modifies `fpos, `pos
      ensures fpos == SkipSpace(fmt, old(fpos)) && worked >= 0
      ensures Did(Read(SkipSpace(text, old(pos)), Matched, []), old(pos), old(dests), worked)
    {
      SkipFormatSpace();
      var after := SkipInputSpace(charcount);
      worked := after - charcount;
    }

    /** One directive of the format: white space, a character to match, or a conversion. */
    method RunDirective(charcount: int) returns (worked: int, item: bool)
      requires Valid() && charcount == pos && At(fmt, fpos) != NUL
      modifies `fpos, `pos, `dests
      ensures var p := ParseDirective(fmt, old(fpos));
        Did(Apply(text, old(pos), p.d), old(pos), old(dests), worked)
        && (worked >= 0 ==> fpos == p.pos && item == StoresItem(p.d))
    {
      hide Apply, ParseConversion, ParseDirective, StoresItem, ReadLiteral, SkipSpace, IsSpace, At, Did;
      DirectiveCases(fmt, fpos);
      ApplyText(text, pos, ParseDirective(fmt, fpos).d);
      var fch := fmt[fpos];
      fpos := fpos + 1;
      if fch == '%' {
        worked, item := RunConversion(charcount);
      } else if IsSpace(fch as int) {
        worked := SkipWhite(charcount);
        item := false;
      } else {
        worked := MatchChar(fch);
        item := false;
      }
    }

    /** The whole call. */
    method Run() returns (result: int)
      requires fpos == 0 && pos == 0 && dests == []
      modifies this
      ensures Result(result, pos, dests) == Scan(fmt, 0, text, 0, [])
    {
      assert Assigned([]) == 0;
      hide Apply, ParseConversion, ParseDirective, Scan, Assigned, StoresItem;
      var cnt, charcount := 0, 0;
      while At(fmt, fpos) != NUL
        invariant Valid() && charcount == pos && cnt == Assigned(dests)
        invariant Scan(fmt, fpos, text, pos, dests) == Scan(fmt, 0, text, 0, [])
        decreases |fmt| - fpos
      {
        ScanStep(fmt, fpos, text, pos, dests);
        ItemCounted(ParseDirective(fmt, fpos).d, text, pos, dests);
        var worked, item := RunDirective(charcount);
        if worked < 0 {
          return if worked == CVTEOF && cnt == 0 then EOF else cnt;
        }
        if item {
          cnt := cnt + 1;
        }
        charcount := charcount + worked;
      }
      ScanStep(fmt, fpos, text, pos, dests);
      return cnt;
    }
  }
}
