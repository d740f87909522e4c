# Verified model of formatted I/O and of the SoftDevice handler

A Dafny model of two stateful parts of the repository, with proofs of what they are for.

**Formatted output and input.** `Source/source/__vfprintf.c` and `Source/source/__vfscanf.c` are modelled step by
step as the classes `Printf.Printer` and `Scanf.Scanner`: cursors, counters, a digit buffer filled from the wrong
end, one-character pushback, a bitmap for scansets. Each is proved against a specification on values
(`PrintfFormat.Render`, `ScanFormat.Scan`), and the laws are proved about the specifications: round trips, widths,
maximality of fields, buffer bounds, the meaning of counts and results. Both implement sections 7.19.6.1 and 7.19.6.2
of ISO/IEC 9899:1999.

**The SoftDevice handler.** `Source/nRF_SoftDevice/nrf_sdh.c` with the draining loop of
`Source/nRF_SoftDevice/nrf_sdh_soc.c` is modelled as the class `Sdh.Handler`, with a ghost history of what it did and
every operation proved equal to a step of the state machine `SdhModel`. The laws quantify over all runs of that
machine: any interleaving of requests, continues, vetoes, suspends, resumes, polls, interrupts and arriving events,
any answers of the observers, any codes of the stack.

## Files

| file | content |
|---|---|
| Numerals | characters, positional numerals, Horner's rule, arithmetic modulo 2^k |
| Grouping, DigitBuffer, PowerTable | the digit loops of the printer: grouping by threes, the 22-slot buffer, the table of powers of ten |
| FormatText | format text and length modifiers, common to both directions |
| PrintfFormat, Printf, PrintfLayout | meaning of printer formats; the printer; widths and the returned count |
| ScanFormat, ScanSet, Scanf, ScanLaws | meaning of scanner formats; the bitmap; the scanner; its laws |
| PrintfLaws, ScanTexts, RealTexts | what every directive prints, and what every directive of the scanner makes of the text it meets |
| ReadBack, Pieces, LowerRadix | reading text of known shape; the parts of a printed integer; digits read in another radix |
| RoundTrip, TextRoundTrip, Spelling, FormatRoundTrip | integers and strings printed and read; directives written and parsed; whole formats |
| SdhModel, Sdh | the handler as a state machine; the handler module |
| SdhHistory, SdhTraces, SdhEvents, SdhResumption, SdhCodes | invariant and direction of resumption; observer traces; conservation of events; number of resumptions; return codes |

## The build that is modelled

The 32-bit Arm build with long long, width and precision, and without wide characters: `int`, `long` and pointers
have 32 bits, `isLONG` is constantly false. The printer is the integer-only one, so floating conversions take the
default branch and no format extender is installed; the scanner has floating conversions and scansets. Whether plain
`char` is signed is a parameter. Helpers that the repository declares but does not contain are given the contract
their use requires: the character sink appends one character and counts it; padding emits max(0, n) copies, with the
fill character chosen by the zero flag, and none in front when left-justified; reading at the end of the input does
not advance; `__digit` gives the digit value or a negative number; `isspace` and `isdigit` are those of the C locale.

## Where the code departs from its standard or documentation

The model follows the code.

- Blank padding stands between prefix and digits, because the block that would put it in front is disabled
  (`__vfprintf.c:1219-1225`): `%6d` of -42 gives `-   42`, which `%d` cannot read. `RoundTrip.RoundTripExactly` says
  for which texts the round trip survives this.
- The printer treats `%i` as `%d`, but the scanner lets the text choose the radix (`__vfscanf.c:605-607`), so a decimal
  text with a zero in front comes back in octal: `%05i` of 42 is read by `%i` as 34.
- `#` adds a base prefix to zero as well (`__vfprintf.c:641-649`); `%#p` prints a `#` that `%p` does not accept.
- `%p` keeps zero filling in spite of its precision (`__vfprintf.c:628-636`).
- `L` is recognised but not consumed by the printer, so it becomes an unknown conversion (`__vfprintf.c:467-470`).
- The tick flag overruns the digit buffer from 10^17 on (`__vfprintf.c:1193-1204`), and the search in the table of
  powers of ten leaves the table from 10^19 on (`__vfprintf.c:1032-1033`). Both are undefined in C; the model stops
  there and reports it, and the theorems say exactly when.
- The sign of an exponent is read even when the field ends at the letter (`__vfscanf.c:388-401`), so a real field can
  be one character longer than its width.
- An empty match of a scanset is a successful conversion (`__vfscanf.c:320-335`), and a string of field width zero is
  too (`__vfscanf.c:283-300`).
- `%%` does not skip white space, and the scanner knows no `z`, `t` or `j` (`__vfscanf.c:524-566`).
- A disable that the stack refuses clears the enabled flag and leaves the continue flag set
  (`nrf_sdh.c:259-267`), so continue then starts an enable. With a stack that can always be disabled this does not
  occur; the theorems about direction, interrupt and traces are stated for arbitrary stacks as equivalences with the
  exact exception, and `HealthyStack` and `HealthyTraces` give the unconditional form.

## Model

| member | source | states |
|---|---|---|
| `RoundTrip.RoundTripExactly` | Source/source/__vfscanf.c:591-645 | for every integer directive (any flags, width, precision, length) and every argument: scanning the printed text with the same conversion (`%i` with radix 0, as the scanner does) stores the argument modulo the target's width if and only if the text is `Recoverable` in the requested radix: no comma, no `#` of `%p`, at least one digit, no blanks behind a sign or base prefix unless the value is zero in octal, and for `%i` no zero in front of a magnitude of 8 or more |
| `RoundTrip.OpenRoundTripExactly` | Source/source/__vfscanf.c:199-223 | the same for scanning the text of any integer directive with `%i`: if and only if it is `Recoverable` with the radix left open, that is, its base prefix, its leading zero or its single digit makes the radix the scanner takes the right one, or the decimal reading of bare octal digits is congruent to the value |
| `RoundTrip.PaddedSignIsLost` | Source/source/__vfprintf.c:1219-1232 | a text that is not recoverable: `%6d` prints -42 as `-   42`, on which `%d` fails |
| `RoundTrip.FilledDecimalIsOctal` | Source/source/__vfscanf.c:605-607 | another one: `%05i` prints 42 as `00042`, which `%i` reads in octal as 34 |
| `RoundTrip.ReadsBackArgument` | Source/source/__vfscanf.c:186-251 | in any surroundings: a clean text standing anywhere in the input, followed by the end or by a character that cannot belong to a number, is read by its own conversion as the argument, and the position ends exactly behind its digits |
| `RoundTrip.ReadsDescribedArgument` | Source/source/__vfscanf.c:199-223 | the same for `%i`, for every text whose radix it recovers |
| `RoundTrip.PlainIsClean` | Source/source/__vfprintf.c:628-708 | default precision without tick, and width 0, left-justified or (except for `%i`) zero-filled, is clean for every argument, so the round trip covers zero and the most negative number in `d i u o x X` and `p` without `#` |
| `RoundTrip.PlainIsSelfDescribing` | Source/source/__vfprintf.c:638-652 | `%#x`, `%#X`, `%#o` with default precision, and `%d`, `%i`, `%u` without zero filling, are clean for `%i` for every argument, zero included |
| `RoundTrip.BareOctalIsLost` | Source/source/__vfscanf.c:219-230 | octal digits without prefix and zeros are read by `%i` as themselves, in targets of up to 32 bits, only if they are a single digit |
| `RoundTrip.BareOctalComesBack` | Source/source/__vfscanf.c:224-230 | in 64 bits a longer one can be: the decimal reading of octal 1621321245137145646240 overflows back to the number |
| `RoundTrip.ReadsBackExactly` | Source/source/__vfscanf.c:198-251 | for any prefix and magnitude that go together, and either the digits' own radix or an open one: read back as the number it stands for if and only if recoverable |
| `RoundTrip.CommaIsNotReadBack` | Source/source/__vfprintf.c:1193-1204 | a grouped number of four digits and more is read only up to its first comma, so never as itself, whatever the conversion |
| `LowerRadix.FrontDenotes` | Source/source/__vfscanf.c:224-230 | what a reader in a smaller radix takes from the front of a digit string denotes less than the string, unless that is a single digit of the smaller radix |
| `LowerRadix.NoNarrowCoincidence` | Source/source/__vfscanf.c:224-230 | modulo 2^8, 2^16 and 2^32 no octal numeral of two digits and more is congruent to its own decimal reading |
| `Pieces.PieceShape` | Source/source/__vfprintf.c:1227-1240 | an integer piece is prefix, blanks, zeros and digits, trailing blanks, in this order; blanks never stand on both sides of the digits |
| `Pieces.DigitTextValue` | Source/source/__vfprintf.c:1164-1204 | zeros and digits of an ungrouped piece denote the magnitude in the conversion's radix |
| `Pieces.ValueIsStored` | Source/source/__vfprintf.c:659-704 | prefix and magnitude together are congruent to the argument modulo the target's width, and the magnitude fits it |
| `TextRoundTrip.StringRoundTripExactly` | Source/source/__vfscanf.c:264-301 | a string printed with any width, precision and justification is read back by `%s` if and only if its text is not empty and holds no white space |
| `TextRoundTrip.ReadsBackString` | Source/source/__vfscanf.c:264-301 | such a text is read back wherever it stands between white space, up to its trailing blanks |
| `FormatRoundTrip.PrintThenScan` | Source/source/__vfscanf.c:467-688 | for any list of clean integer directives and of string directives with words: printing the whole format and scanning the result with the same conversions returns the number of items, consumes all of the text, and stores every argument in order |
| `FormatRoundTrip.PrintsAll` | Source/source/__vfprintf.c:346-1249 | the printing half, from any position of a format and any progress made before |
| `FormatRoundTrip.ScansAll` | Source/source/__vfscanf.c:476-687 | the scanning half, from any position of format and input; trailing blanks of a left-justified item are consumed by the blank directive behind it |
| `Spelling.ParserUndoesSpelling` | Source/source/__vfprintf.c:358-481 | the plainest spelling of a directive without stars parses back to the directive itself |
| `Spelling.ScannerUndoesSpelling` | Source/source/__vfscanf.c:511-550 | the same for the scanner's directive parser |
| `Spelling.ParsesWritten` | Source/source/__vfprintf.c:358-481 | for every spelling of a directive (flags in any order and number, literal or starred width and precision, any length modifier, any conversion): the flags found are those written; the width is the magnitude of its value and a negative starred one justifies to the left; the precision counts exactly if it is not negative; each star takes one argument; `L` is left to be the conversion |
| `Spelling.ScansWritten` | Source/source/__vfscanf.c:511-552 | for every spelling of a conversion: a star suppresses the assignment, digits give the field width and their absence the widest one, the length modifier is found, and a bracket goes on with a scanset |
| `PrintfLaws.SignedNumberPrinted` | Source/source/__vfprintf.c:659-690 | `%d` and `%i` print the one number in the two's complement range of the length modifier that is congruent to the argument (0 to 255 for an unsigned plain char); a minus stands in front exactly if it is negative, otherwise plus or space as the flags ask |
| `PrintfLaws.UnsignedNumberPrinted` | Source/source/__vfprintf.c:628-704 | unsigned conversions print the residue of the argument, behind `0x`, `0X`, `0` or `#` exactly under the alternative flag |
| `PrintfLaws.DigitsPrinted` | Source/source/__vfprintf.c:1155-1206 | the digits denote the number in the radix of the conversion without leading zeros, letters are capitals for `X` alone, and commas group by three exactly for decimals with the tick flag |
| `PrintfLaws.IntegerLayout` | Source/source/__vfprintf.c:1150-1240 | the whole integer text in terms of flags, width and precision: at least the precision, one or (for `%p`) eight digits, the rest of the width as zeros, blanks behind the prefix, or blanks at the end; a precision switches zero filling off except for `%p` |
| `PrintfLaws.TextPrintsItself` | Source/source/__vfprintf.c:346-349 | text outside directives is sent out unchanged |
| `PrintfLaws.ConversionPrints` | Source/source/__vfprintf.c:483-708 | which conversions take an argument, that `%%` prints a percent sign and unknown ones nothing, and that exactly tick-flagged decimals of 10^17 and more overrun the buffer |
| `PrintfLaws.CountIsStored` | Source/source/__vfprintf.c:537-554 | `%n` prints nothing, takes one argument and stores the number of characters sent out, exactly if the target holds it and modulo its width otherwise; `%hn` stores an int |
| `PrintfLaws.DirectiveCutOff` | Source/source/__vfprintf.c:495-498 | a format that ends inside a directive ends the call with -1 and prints nothing more |
| `PrintfLaws.TextAroundDirective` | Source/source/__vfprintf.c:346-1249 | a whole call for any text around any written directive: the text around its piece, with the length as result |
| `Printf.Printer.Run` | Source/source/__vfprintf.c:346-1249 | the imperative printer produces exactly the text, `%n` stores, consumed arguments and result that `Render` assigns to the format; a store past the digit buffer is reported exactly when `Render` says so |
| `Printf.Printer.ReadDirective` | Source/source/__vfprintf.c:358-481 | the format cursor and the argument cursor advance as the grammar says; a negative starred width left-justifies, a negative precision counts as none, `%L` leaves the `L` to be the conversion |
| `Printf.Printer.FetchValue` | Source/source/__vfprintf.c:628-704 | one argument is consumed; packed prefix and 64-bit magnitude are the sign and absolute value of the argument as its length modifier narrows it |
| `Printf.Printer.SignedValue` | Source/source/__vfprintf.c:678-689 | the two's complement negation gives the absolute value for every 64-bit number, the most negative one included |
| `Printf.Printer.FormatInteger` | Source/source/__vfprintf.c:1148-1240 | the buffer, padding and output steps emit the piece of the directive: prefix first, then padding, precision zeros, digits, trailing padding |
| `Printf.Printer.FormatString` | Source/source/__vfprintf.c:556-621 | a string conversion emits padding and text truncated by precision or terminator; a null pointer prints `(null)` |
| `Printf.Printer.Format` | Source/source/__vfprintf.c:483-708 | each conversion consumes at most one argument, extends the text by its piece, and `%n` stores the count so far, truncated to its target |
| `PrintfLayout.IntegerWidth` | Source/source/__vfprintf.c:1208-1240 | an integer piece has exactly max(width, prefix + max(precision, digits, commas included)) characters |
| `PrintfLayout.StringWidth` | Source/source/__vfprintf.c:604-621 | a string piece has exactly max(width, truncated length) characters |
| `PrintfLayout.StringTextIsLongest` | Source/source/__vfprintf.c:604-615 | the text printed is the longest terminator-free prefix that the precision admits |
| `PrintfLayout.TextKeepsItsSide` | Source/source/__vfprintf.c:524-621 | strings and characters stand at the left of their field with blanks behind them, or at its right with fill in front; zeros never fill a string |
| `PrintfLayout.PieceHasWidth` | Source/source/__vfprintf.c:483-708 | the width law for all conversions at once |
| `PrintfLayout.ReturnedCount` | Source/source/__vfprintf.c:344-1249 | over a whole format, from any position: nothing sent out is ever changed and the text grows by the sum of literals and piece widths; the call returns its length if the format ends outside a directive, -1 if it ends inside one, and overruns the buffer exactly if the walk meets a grouped number of 10^17 or more |
| `PrintfLayout.CallReturnsSum` | Source/source/__vfprintf.c:344-1249 | for a whole call the result is the sum of the pieces if and only if the format ends outside a directive, -1 if and only if it ends inside one |
| `DigitBuffer.NumeralsFit` | Source/source/__vfprintf.c:325-326 | every 64-bit value has at most 16 hexadecimal, 22 octal, 20 decimal digits |
| `DigitBuffer.OctalFillsTheBuffer` | Source/source/__vfprintf.c:325-326 | the octal bound is attained, so the 22 slots are exactly what is needed |
| `DigitBuffer.FillHex` | Source/source/__vfprintf.c:1157-1173 | the buffer, read backwards, is the hexadecimal numeral of the value and stays within its 22 slots |
| `DigitBuffer.FillOctal` | Source/source/__vfprintf.c:1174-1185 | the same in octal |
| `DigitBuffer.FillDecimal` | Source/source/__vfprintf.c:1193-1204 | the buffer, read backwards, is the decimal numeral, grouped under the tick flag; it overruns if and only if the flag is set and the value is at least 10^17 |
| `Grouping.TickTextIsGrouped` | Source/source/__vfprintf.c:1193-1204 | the slot arithmetic (a comma at slot numbers 3 modulo 4) yields the digits grouped by threes, for every value |
| `Grouping.GroupedWithoutCommas` | Source/source/__vfprintf.c:1195-1200 | deleting the commas gives the plain digits |
| `Grouping.GroupedShape` | Source/source/__vfprintf.c:1195-1200 | every group after the first has exactly three digits, and d digits take d + (d-1)/3 slots |
| `Grouping.WellGroupedEnds` | Source/source/__vfprintf.c:1195-1200 | a grouped number neither starts nor ends with a comma |
| `Grouping.GroupedFits` | Source/source/__vfprintf.c:1193-1204 | the grouped digits fit 22 slots if and only if the value is below 10^17 |
| `Numerals.HornerOfNumeral` | Source/source/__vfprintf.c:1164-1204 | repeated division and Horner's rule are inverse in every radix from 2 to 16 |
| `Numerals.NumeralLength` | Source/source/__vfprintf.c:1164-1204 | a number has at most k digits if and only if it is below radix^k |
| `Numerals.NumeralLeads` | Source/source/__vfprintf.c:1164-1204 | a numeral has no leading zero and is empty for zero alone |
| `PowerTable.TableIsPowers` | Source/source/__vfprintf.c:216-237 | entry i of the table is 10^i |
| `PowerTable.FindLength` | Source/source/__vfprintf.c:1030-1033 | the search loop finds the least len >= 1 with u < 10^len and leaves the table if and only if u >= 10^19 |
| `PowerTable.SubtractPower` | Source/source/__vfprintf.c:1069-1072 | repeated subtraction of 10^n yields quotient digit and remainder |
| `PowerTable.LeadingDigits` | Source/source/__vfprintf.c:1030-1075 | the subtractive digit generator prints the decimal numeral of u (one digit for zero), of least length, and leaves u = 0, for every u < 10^19 |
| `PowerTable.FixedHead` | Source/source/__vfprintf.c:1067-1075 | splitting off the leading digit: the bridge between subtraction from the left and division from the right |
| `Scanf.Scanner.RdInt` | Source/source/__vfscanf.c:186-251 | position, destinations and result of the reader are those of `ReadInteger`: Horner value modulo 2^64, negated modulo 2^64, truncated to the target equals the true value modulo the target, for digit runs of any length |
| `Scanf.Scanner.TakePrefix` | Source/source/__vfscanf.c:207-223 | a leading zero counts as a digit, `0x` does not; radix 0 becomes 16, 8 or 10 |
| `Scanf.Scanner.TakeDigits` | Source/source/__vfscanf.c:224-231 | the accumulator equals the Horner value of the digits read so far modulo 2^64, and the field is consumed to its end |
| `Scanf.Scanner.StoreNumber` | Source/source/__vfscanf.c:234-249 | negation and truncation in 64 bits store the signed value modulo the target's width |
| `Scanf.DigitStep` | Source/source/__vfscanf.c:224-230 | one more digit modulo 2^64 is one more digit of the exact value modulo 2^64 |
| `ScanLaws.IntegerFieldIsMaximal` | Source/source/__vfscanf.c:198-233 | the digits start behind the optional sign and exactly behind a 0x prefix that fits, and are the longest run that fits; the read fails if and only if no digit follows there |
| `ScanLaws.PrefixDecidesRadix` | Source/source/__vfscanf.c:207-223 | with radix 0 and any field width, 0x selects 16, another leading zero 8, anything else 10, as far as the field shows them |
| `ScanFormat.RunEndIsMaximal` | Source/source/__vfscanf.c:224-230 | the run holds digits only and cannot be extended within the field |
| `Numerals.TruncateModulo` | Source/source/__vfscanf.c:239-248 | truncating after reducing to 64 bits loses nothing |
| `ScanTexts.IntegerIsStored` | Source/source/__vfscanf.c:591-645 | for every integer conversion, length modifier and field width: an optional sign (not for `%p`), a 0x prefix where the conversion takes one, and digits of any number that fill the field or end in it are consumed, and the value they denote, negated exactly for a minus, is stored modulo the target's width |
| `ScanTexts.NoIntegerThere` | Source/source/__vfscanf.c:232-233 | without a digit behind sign and prefix the conversion fails, stores nothing, and leaves the input behind them |
| `ScanTexts.WhiteSpaceCodes` | Source/source/__vfscanf.c:192-194 | white space is the space and the control characters 9 to 13 |
| `ScanTexts.NothingLeft` | Source/source/__vfscanf.c:192-196 | integers, reals and words meet the end of the input where only white space is left |
| `ScanTexts.WordIsStored` | Source/source/__vfscanf.c:264-301 | `%s` skips white space and stores, terminated, the characters up to white space or the field width |
| `ScanTexts.CharsAreStored` | Source/source/__vfscanf.c:568-589 | `%c` stores exactly as many characters as the field is wide, one by default, skipping and terminating nothing |
| `ScanTexts.CharsAreMissing` | Source/source/__vfscanf.c:575-580 | with fewer characters left it uses up the input and the item does not count; with width zero it fails |
| `ScanTexts.MembersAreStored` | Source/source/__vfscanf.c:308-336 | a scanset stores, terminated, the longest run of listed (or, negated, unlisted) characters that fits the field |
| `ScanTexts.NoMembersLeft` | Source/source/__vfscanf.c:314-319 | at the end of the input it fails although its pointer has been fetched |
| `Scanf.Scanner.RdString` | Source/source/__vfscanf.c:264-301 | white space is skipped, the longest word within the field is stored terminated, and one character is pushed back at most |
| `ScanFormat.WordEndIsMaximal` | Source/source/__vfscanf.c:283-292 | the word holds no white space and cannot be extended within the field |
| `Scanf.Scanner.RdStringMap` | Source/source/__vfscanf.c:308-336 | exactly the longest prefix of at most `field` members is consumed and stored terminated; an empty match is a success, and the pointer is fetched even when the input is exhausted |
| `ScanFormat.MemberEndIsMaximal` | Source/source/__vfscanf.c:320-331 | all characters taken are members and the run cannot be extended within the field |
| `Scanf.Scanner.RdChars` | Source/source/__vfscanf.c:568-589 | exactly `field` characters are stored without terminator, or the input ends first and the item does not count |
| `ScanSet.AddMember` | Source/source/__vfscanf.c:662-663 | setting one bit adds that character to the set the bitmap denotes, and nothing else |
| `ScanSet.Complement` | Source/source/__vfscanf.c:667-669 | inverting the words gives the complement within the 256 codes |
| `ScanSet.TestWithMember` | Source/source/__vfscanf.c:320-322 | after a bit is set, the membership test answers as before except for that code |
| `ScanSet.TestAfterOr` | Source/source/__vfscanf.c:663-663 | bit level: setting bit k changes bit k only |
| `ScanSet.TestAfterNot` | Source/source/__vfscanf.c:667-669 | bit level: inversion negates every test |
| `Scanf.Scanner.ReadSet` | Source/source/__vfscanf.c:648-670 | the bitmap built from the format denotes exactly the parsed set; an unterminated set is reported |
| `ScanLaws.SetListsItsText` | Source/source/__vfscanf.c:652-665 | the set lists the characters up to the first `]` behind its first character, which is a member whatever it is; otherwise the set is unterminated |
| `Scanf.Scanner.TakeExponentDigits` | Source/source/__vfscanf.c:402-408 | the accumulator stays in 0..10009 for every digit string, equals the exponent below 10010 and is 10000 from there on |
| `ScanFormat.SaturatedStep` | Source/source/__vfscanf.c:406-406 | one step of the accumulator agrees with the saturation of the exact value |
| `Scanf.Scanner.TakeMantissa` | Source/source/__vfscanf.c:367-385 | mantissa and scale are those of the digits and of the digits behind the point; a second point ends the field |
| `Scanf.Scanner.RdReal` | Source/source/__vfscanf.c:344-459 | position, success and decimal value (sign, mantissa, exponent before scaling) are those of `ReadReal` |
| `RealTexts.RealIsStored` | Source/source/__vfscanf.c:344-459 | for a written number (sign, digits, point, digits, exponent with sign and digits, most parts optional) that fills the field or stops in it: all of it is consumed and the stored decimal is negative exactly for a minus, has the value of all mantissa digits, and the written exponent, saturated and negated exactly for a written minus, less the number of fraction digits; the length modifier selects double or float |
| `RealTexts.ExponentWithoutDigits` | Source/source/__vfscanf.c:388-428 | an exponent letter without a digit behind it makes the conversion fail, with letter and sign consumed |
| `RealTexts.NothingLikeReal` | Source/source/__vfscanf.c:357-428 | without a digit behind sign and point the conversion fails |
| `ScanLaws.RealFieldWidth` | Source/source/__vfscanf.c:387-416 | a real field keeps to its width if and only if no exponent sign stands directly behind it; in that case it is exactly one character longer |
| `ScanLaws.FieldExceeded` | Source/source/__vfscanf.c:388-401 | such a field: three characters of `1e+5` are read with width two |
| `Scanf.Scanner.Run` | Source/source/__vfscanf.c:467-688 | the imperative scanner returns what `Scan` assigns to format and input, and leaves the same position and destinations; at every head of the loop `charcount` equals the characters consumed and `cnt` the items assigned |
| `Scanf.Scanner.RunConversion` | Source/source/__vfscanf.c:511-685 | parsing and carrying out one conversion moves format cursor, position and destinations as specified; `charcount` is exact when `%n` stores it |
| `Scanf.Scanner.UngetC` | Source/source/__vfscanf.c:163-176 | pushback restores the position before the read, and does nothing at the end of the input |
| `Scanf.Scanner.SkipBlanks` | Source/source/__vfscanf.c:192-196 | a count that starts at -1 and takes every read equals the characters consumed, also at the end of the input |
| `ScanTexts.TextMatchesItself` | Source/source/__vfscanf.c:496-508 | text in the format is matched character by character; where it does not stand in the input the call stops behind the longest common beginning, stores nothing more, and returns the items assigned so far, or EOF if there are none and the input was exhausted |
| `ScanTexts.PercentMatches` | Source/source/__vfscanf.c:558-566 | the same for `%%`, which skips no white space |
| `ScanTexts.WhiteMatchesWhite` | Source/source/__vfscanf.c:486-495 | white space in the format matches any amount of white space, also none |
| `ScanTexts.CountIsStored` | Source/source/__vfscanf.c:609-624 | `%n` consumes nothing and stores the number of characters consumed, exactly if the target holds it and modulo its width otherwise, or nothing when suppressed |
| `ScanTexts.UnknownFails` | Source/source/__vfscanf.c:554-556 | any other conversion ends the call where it stands |
| `ScanTexts.OpenSetStops` | Source/source/__vfscanf.c:658-661 | so does a scanset that is not closed |
| `ScanLaws.FetchedAtHead` | Source/source/__vfscanf.c:568-684 | at every head of the loop the destinations fetched number the items assigned plus the unsuppressed `%n` carried out |
| `ScanLaws.HeadsAreOnTheWay` | Source/source/__vfscanf.c:476-687 | those heads are the ones the whole call passes through |
| `ScanLaws.ResultExplained` | Source/source/__vfscanf.c:496-680 | EOF is returned if and only if nothing was assigned and the call stopped where the input was exhausted, and then all of it is consumed; otherwise the result is the number of items assigned |
| `ScanFormat.ItemCounted` | Source/source/__vfscanf.c:682-683 | a directive adds one to the items assigned if it matches and stores, and nothing otherwise |
| `Sdh.Handler.RequestObserverNotify` | Source/nRF_SoftDevice/nrf_sdh.c:101-129 | observers are asked in order up to the first refusal, which answers busy; later ones are not asked |
| `Sdh.Handler.StateObserverNotify` | Source/nRF_SoftDevice/nrf_sdh.c:136-154 | every state observer is told of every event, in order: all of them have seen the same trace |
| `Sdh.Handler.EnableRequestCall` | Source/nRF_SoftDevice/nrf_sdh.c:181-235 | flags, interrupt, history and code after an enable request, for vetoes, stack failure and success |
| `Sdh.Handler.DisableRequestCall` | Source/nRF_SoftDevice/nrf_sdh.c:238-277 | the same for a disable request; the enabled flag is cleared even when the stack refuses |
| `Sdh.Handler.RequestContinue` | Source/nRF_SoftDevice/nrf_sdh.c:280-295 | resumes by the enabled flag, or answers invalid state |
| `Sdh.Handler.Suspend` | Source/nRF_SoftDevice/nrf_sdh.c:304-313 | the event interrupt goes off and the flag is set, only while enabled |
| `Sdh.Handler.Resume` | Source/nRF_SoftDevice/nrf_sdh.c:316-334 | the interrupt is made pending and switched on, only while enabled and suspended |
| `Sdh.Handler.IsSuspendedCall` | Source/nRF_SoftDevice/nrf_sdh.c:337-340 | suspended means not enabled or flagged so |
| `Sdh.Handler.IrqHandler` | Source/nRF_SoftDevice/nrf_sdh.c:365-368 | the interrupt handler clears the pending bit by running and drains all sources |
| `Sdh.Handler.EvtsPoll` | Source/nRF_SoftDevice/nrf_sdh.c:343-360 | all sources are drained in order and hand their events to their observers |
| `Sdh.Handler.DrainSource` | Source/nRF_SoftDevice/nrf_sdh_soc.c:71-103 | each event goes once to each observer, in order of arrival and then of observers, until the source is empty |
| `SdhHistory.RunKeeps` | Source/nRF_SoftDevice/nrf_sdh.c:181-340 | an invariant of every run, whatever the interleaving, the observers' answers and the stack's codes: protocol phase, meaning of the continue flag, request interrupted last, interrupt state |
| `SdhHistory.ContinueResumes` | Source/nRF_SoftDevice/nrf_sdh.c:280-295 | whenever continue is accepted it repeats the request that was interrupted last, if and only if that was not a disable the stack refused; otherwise it changes nothing |
| `SdhHistory.InterruptFollowsSuspension` | Source/nRF_SoftDevice/nrf_sdh.c:304-340 | in every reachable state the event interrupt is on exactly when is_suspended is false, if and only if no stack refusal to disable stands while the module was not suspended |
| `SdhHistory.HealthyStack` | Source/nRF_SoftDevice/nrf_sdh.c:181-340 | with a stack that never refuses to be disabled: interrupt on if and only if not suspended, and continue set means the blocked request was a disable if and only if the SoftDevice is enabled |
| `SdhHistory.RefusedDisableIsResumedAsEnable` | Source/nRF_SoftDevice/nrf_sdh.c:259-267 | a run in which both fail: enable, a disable the stack refuses, continue |
| `SdhTraces.TracesAreInLanguage` | Source/nRF_SoftDevice/nrf_sdh.c:181-277 | in every run, what a state observer sees is a prefix of (ENABLE_PREPARE+ ENABLED DISABLE_PREPARE DISABLED)* if and only if no enable was announced after a disable that the stack refused |
| `SdhTraces.HealthyTraces` | Source/nRF_SoftDevice/nrf_sdh.c:181-277 | in particular always, if the stack never refuses to be disabled |
| `SdhTraces.AutomatonAcceptsLanguage` | Source/nRF_SoftDevice/nrf_sdh.c:181-277 | the five-state observer automaton accepts exactly the prefixes of that language |
| `SdhTraces.RepeatedOnlyAfterFailure` | Source/nRF_SoftDevice/nrf_sdh.c:199-222 | between two successive ENABLE_PREPARE without another event the stack enable failed |
| `SdhResumption.ExactlyAsManyContinues` | Source/nRF_SoftDevice/nrf_sdh.c:101-129 | if the observers refuse n times in all before they are ready, a request and exactly n continues reach the other state; all calls succeed, each blocked one leaves one refusal less, one further continue is an invalid state |
| `SdhResumption.PassUsesOneRefusal` | Source/nRF_SoftDevice/nrf_sdh.c:117-126 | a blocked pass uses up exactly one refusal, a granted one none, whatever the observers' pattern of answers |
| `SdhResumption.StubbornPass` | Source/nRF_SoftDevice/nrf_sdh.c:107-128 | a pass is granted if and only if no refusal is left |
| `SdhResumption.NoMoreContinuesThanRefusals` | Source/nRF_SoftDevice/nrf_sdh.c:280-295 | for arbitrary answer patterns: as long as a request is not granted, it and its continues have used exactly one refusal each, and once it is granted no continue is accepted |
| `SdhCodes.CodesTellHistory` | Source/nRF_SoftDevice/nrf_sdh.c:181-295 | the code of every enable, disable and continue call, read off the history: invalid state and no change exactly where the call is out of place, success exactly if the request was blocked or the new state reported, otherwise the code with which the stack refused; with the flags each outcome leaves |
| `SdhCodes.AskedUpToRefusal` | Source/nRF_SoftDevice/nrf_sdh.c:107-128 | exactly the observers up to the first one that refuses are asked, once each, and the pass is granted if and only if none refuses |
| `SdhCodes.SuspensionIsSeen` | Source/nRF_SoftDevice/nrf_sdh.c:304-340 | suspend and resume touch interrupt and flag alone, and is_suspended answers accordingly |
| `SdhCodes.InterruptTaken` | Source/nRF_SoftDevice/nrf_sdh.c:365-368 | an interrupt that is on and pending is cleared and empties every queue; otherwise nothing happens |
| `SdhCodes.ArrivalRecorded` | Source/nRF_SoftDevice/nrf_sdh_soc.c:77-85 | while the stack is up an event joins the end of its source's queue and no other |
| `SdhCodes.SourcesInOrder` | Source/nRF_SoftDevice/nrf_sdh.c:348-359 | a poll serves the sources in their order |
| `SdhEvents.NothingLost` | Source/nRF_SoftDevice/nrf_sdh.c:304-360 | in every run: what an observer has received in this session followed by what its source holds is what has arrived, and while the interrupt is on it is pending whenever a source holds an event |
| `SdhEvents.ResumeDelivers` | Source/nRF_SoftDevice/nrf_sdh.c:316-334 | after resume the next interrupt delivers everything that arrived during the suspension, even if the disabled interrupt latched nothing |
| `SdhEvents.ReceivedPoll` | Source/nRF_SoftDevice/nrf_sdh.c:343-360 | one poll hands each observer of a source exactly that source's queue, in order |
| `SdhEvents.DrainInOrder` | Source/nRF_SoftDevice/nrf_sdh_soc.c:77-103 | delivery number i*n + k of a drain is event i at observer k |

## Left out

- Floating point: rounding, scaling by powers of ten, infinities and NaN. The scanner's reals are an exact sign, mantissa and exponent; of the printer's float path only the leading digits are modelled, not the digits behind the point.
- Wide characters and strings, the user format extender, locale tables.
- The string buffer limit and the terminator written at the end of the printer's call: the output is an unbounded text.
- Stream errors and the two kinds of streams: input is a text, output an append-only text.
- Overflow of `int` in the printer's running widths and counts and in the scanner's character count. Numbers in a format are gathered in wrapping 32-bit arithmetic, everything else is unbounded.
- `RoundTrip.RoundTripExactly`: assumes a text of at most INT_MAX characters, because an unspecified field width is INT_MAX; so do `RoundTrip.OpenRoundTripExactly` and `TextRoundTrip.StringRoundTripExactly`.
- `RoundTrip.OpenRoundTripExactly`: for bare octal digits in 64 bits the condition is a congruence; the values that satisfy it are not enumerated.
- Arguments past the last one, undefined in C, read as an empty argument.
- Storage behind argument pointers: a destination is recorded as what was written through it, so aliasing between destinations is not captured. Partly written destinations are recorded as such.
- Shifts and masks of the digit loops are written as division and remainder by 16 and 8; only the scanset bitmap uses bit vectors.
- The large C functions are split into methods by their sections; jumps and fall-through become calls and conditions.
- `Spelling.ParsesWritten`: assumes that numbers in a format fit an int; beyond that the gathering overflows, which is undefined in C and wraps here. A starred width of -2^31 has no magnitude in an int and counts as zero.
- Observers and handlers that call back into the handler module, and events that arrive while a source is being drained.
- The dispatch models that defer or poll instead of draining in the interrupt, and critical regions: operations are atomic steps.
- `SdhEvents.NothingLost`: covers one session of the stack, because the stack is taken to drop undelivered events when it is enabled or disabled.
- SoftDevice configuration calls, clock and memory setup, logging, the interrupt controller beyond one enable and one pending bit, and the section sets beyond finite sequences of observers.
- Codes other than success of the interrupt controller calls and of the event fetch; error codes of the SoftDevice header are constants here.
- The getter of the enabled flag, which only returns it.
