# Display7Seg in Dafny

A model of `Display7Seg<numdigits, havedp, digiton, segmenton>`, the Arduino driver for
multiplexed multi-digit seven-segment LED displays. The driver keeps one byte per digit
(bit 0 = segment a … bit 6 = segment g, bit 7 = decimal point) and a cursor naming the
digit whose line is energised. Any cursor value from `numdigits` up means "blank". Each
call to `show()` lights the next digit. The model covers the whole class:

- the constructor, `begin`, `showDigit`, `show`, `setBlank` and `isBlank`;
- `operator[]`, `setSegments` and `setNumber`, with its sixteen-glyph font;
- `setValue<radix>`.

How it is modelled:

- The template parameters become a `Config` value with `1 <= numDigits <= 255`. The
  cursor is a byte and must also hold the blank sentinel `numdigits`.
- The driver state is an immutable `Display` record. Every operation is a pure function
  from one state to the next. `setValue` is a method, because it is a loop.
- Each `pinMode` and `digitalWrite` call becomes an event appended to a trace in the
  state, so the order of writes can be stated directly. `LevelOf(trace, pin)` is the
  level a line was last driven to.
- The constructor leaves the cursor and the pin tables uninitialised. `Construct` takes
  them as parameters. The same goes for the static scratch byte behind out-of-range
  indexing.
- `showDigit` stores an `unsigned` into the byte cursor, so the model keeps `t mod 256`.

Modules and files:

- `lines.dfy` (`Lines`): pin events and line levels.
- `glyphs.dfy` (`Glyphs`): the font and cell bits.
- `arith.dfy` (`Arith`): positional notation.
- `display.dfy` (`Display7Seg`): the class.
- `multiplexing.dfy` (`Multiplexing`): write order and cursor rotation.
- `access.dfy` (`Access`): buffer access.
- `format.dfy` (`Format`): `setValue`.
- `coherence.dfy` (`Coherence`): line-level safety across whole sequences of calls.

The model follows the code in these places:

- The cursor is not set by the constructor. Only `begin` sets it, through `setBlank`.
  `Coherence.BeginCoherent` holds whatever the stale cursor held.
- `isBlank` and `show` treat every cursor `>= numdigits` as blank, not only `numdigits`.
- When the display is already blank, `showDigit` loads no segments and only turns the
  new digit on. So `setBlank(false)`, or a `show` request on a blank display, lights the
  digit with every segment dark until the next `show()`
  (`Coherence.UnblankShowsNothing`).
- In `setValue`, the decimal-point choice in the suppression branch can never fire,
  because that branch runs only left of `dppos`. Suppressed cells are exactly 0
  (`Format.FormattedDarkIff`).

## Model

| member | source | states |
|---|---|---|
| `Display7Seg.Construct` | Display7Seg.h:118-125 | every cell starts dark; the cursor is whatever the byte held, and nothing has been written to any pin |
| `Display7Seg.Bind` | Display7Seg.h:135-157 | the pin-table half of `begin` stores both pin tables, leaves buffer, cursor and scratch byte alone, and makes two pin calls per line (see `ReleaseLines`) |
| `Display7Seg.ReleaseLines` | Display7Seg.h:137-157 | for each line in turn, `pinMode(OUTPUT)` comes first and then the off level; two events per line, in the table's order |
| `Display7Seg.Begin` | Display7Seg.h:130-160 | `begin` stores the pin tables, leaves the buffer alone, and ends blank exactly when asked, with the cursor at `numdigits` or 0 |
| `Coherence.BeginOrder` | Display7Seg.h:130-160 | `begin`'s first writes are, for every digit line and then every segment line, `pinMode` and the off level; after them come exactly the writes of `showDigit` for the blank sentinel or digit 0, from the state with the pins bound |
| `Display7Seg.ShiftOut` | Display7Seg.h:184-188 | the segment loop as written, driving each line from the low bit of the cell and shifting the cell right: it makes exactly one write per segment line |
| `Display7Seg.ShiftOutWrites` | Display7Seg.h:184-188 | the segment loop, which shifts the cell right one bit per line, writes line k with the on level exactly when bit k of the cell is set: one write per segment line, in line order |
| `Display7Seg.ShowDigit` | Display7Seg.h:169-199 | `showDigit(t)` changes only the cursor, to t mod 256 (t itself for every value callers pass), and appends to the pin trace; buffer and pins are untouched |
| `Multiplexing.ShowDigitAppends` | Display7Seg.h:169-199 | `showDigit(t)` keeps the earlier trace and appends its own writes after it |
| `Multiplexing.WritesCount` | Display7Seg.h:173-195 | it writes once to turn off a lit digit it leaves for another, once per segment line unless blank, and once to turn t on when t is in range |
| `Multiplexing.WritesFirstDeselect` | Display7Seg.h:173-179 | leaving lit digit c for another digit starts by turning c off |
| `Multiplexing.WritesThenSegments` | Display7Seg.h:181-188 | from a lit cursor, the next writes drive every segment line in order from cell t, least significant bit first, or all dark when t is out of range |
| `Multiplexing.WritesLastSelect` | Display7Seg.h:191-195 | when t is in range, the last write turns digit t on, from a lit cursor or from blank |
| `Multiplexing.WritesFromBlank` | Display7Seg.h:172-195 | from blank, turning t on is the only write: no digit is turned off and no segment loaded; nothing at all for an out-of-range t |
| `Coherence.ShowDigitDigitLine` | Display7Seg.h:173-195 | after `showDigit(t)`, digit line j is on if j = t, off if j is the digit being left, otherwise at its old level |
| `Coherence.ShowDigitSegmentLine` | Display7Seg.h:173-189 | after `showDigit(t)` from a lit cursor, segment line k carries bit k of cell t (dark for an out-of-range t); from blank it keeps its old level |
| `Coherence.ShowDigitNoGhosting` | Display7Seg.h:175-195 | the last write of a digit change turns t on; just before it, every other digit line is off and the segment lines already show cell t |
| `Coherence.UnblankShowsNothing` | Display7Seg.h:172-195 | lighting a digit from blank loads no segments: the digit comes on with every segment line dark |
| `Coherence.ShowDigitCoherent` | Display7Seg.h:169-199 | showing a digit or the blank sentinel keeps the invariant: only the cursor's digit line is on, and while blank every segment line is dark |
| `Display7Seg.IsBlank` | Display7Seg.h:271-274 | `isBlank()` is true exactly when the cursor is numdigits or more, not only when it equals the sentinel numdigits |
| `Display7Seg.Show` | Display7Seg.h:211-226 | `show()` does nothing while blank (cursor >= numdigits); otherwise it stays lit, moving to the next digit, or from the last digit back to 0, and changes only cursor and trace |
| `Multiplexing.ShowNext` | Display7Seg.h:214-224 | from lit digit c, `show()` lights digit (c + 1) mod numdigits |
| `Multiplexing.ShowTimesAdvance` | Display7Seg.h:211-226 | n calls of `show()` from a lit digit keep it lit and step the cursor n times round the digits, wrapping after the last |
| `Multiplexing.AdvanceMod` | Display7Seg.h:216-222 | stepping n times from digit c, wrapping after the last digit, lands on (c + n) mod numdigits |
| `Multiplexing.ShowTimesCursor` | Display7Seg.h:211-226 | n calls of `show()` from lit digit c leave digit (c + n) mod numdigits lit |
| `Multiplexing.ShowTimesBlank` | Display7Seg.h:213-214 | however many times `show()` is called on a blank display, nothing changes |
| `Multiplexing.ShowCycleReturns` | Display7Seg.h:216-224 | numdigits calls of `show()` return to the starting digit |
| `Multiplexing.FullTurn` | Display7Seg.h:216-222 | numdigits steps from any digit come back to it |
| `Multiplexing.ShowCycleCovers` | Display7Seg.h:216-224 | numdigits consecutive calls of `show()` light every digit, and only digits |
| `Multiplexing.ShowReaches` | Display7Seg.h:216-224 | every digit is lit by one of numdigits consecutive calls of `show()` from a lit digit |
| `Multiplexing.AdvanceReaches` | Display7Seg.h:216-222 | from any digit, every digit is reached within between 1 and numdigits steps |
| `Multiplexing.ShowCycleDistinct` | Display7Seg.h:216-224 | within numdigits consecutive calls of `show()`, no digit is lit twice |
| `Multiplexing.ShowTwiceDiffer` | Display7Seg.h:216-224 | two different numbers of calls, both between 1 and numdigits, end on different digits |
| `Multiplexing.AdvanceDistinct` | Display7Seg.h:216-222 | step counts less than a full turn apart land on different digits |
| `Display7Seg.SetBlank` | Display7Seg.h:261-274 | after `setBlank(on)`, `isBlank()` equals on; the cursor is numdigits when blanking and 0 when unblanking, whatever it was |
| `Multiplexing.ResumeAtLeftmost` | Display7Seg.h:261-265 | unblanking always resumes at the leftmost digit, and the next `show()` moves on to digit 1 mod numdigits |
| `Display7Seg.Put` | Display7Seg.h:243-252 | writing through `operator[]` in range replaces exactly that cell; out of range it changes no cell, only the scratch byte; pins, cursor and trace are untouched |
| `Display7Seg.Get` | Display7Seg.h:243-252 | reading through `operator[]` gives cell i in range and the shared scratch byte for every out-of-range i |
| `Access.PutThenGet` | Display7Seg.h:243-252 | a byte written through `display[i]` reads back through `display[i]`, for every i |
| `Access.PutLeavesOthers` | Display7Seg.h:243-252 | a write through `display[i]` leaves every other in-range cell as it was |
| `Access.OutOfRangeIndicesAlias` | Display7Seg.h:247-251 | every out-of-range index names the same scratch byte, so one out-of-range write is read back through any other, and the buffer is unchanged |
| `Display7Seg.SetSegments` | Display7Seg.h:284-298 | in range, cell i becomes the bitmap and no other cell changes; without `show` no pin is written and the cursor stays; with `show` digit i is lit and the display is no longer blank; out of range nothing changes |
| `Access.SetSegmentsThenGet` | Display7Seg.h:284-298 | reading `display[i]` after `setSegments(i, b)` in range gives b |
| `Access.SetSegmentsIsPut` | Display7Seg.h:284-298 | `setSegments` without `show` is an `operator[]` write in range and a no-op out of range |
| `Display7Seg.SetNumber` | Display7Seg.h:308-337 | with an in-range index and a table digit, cell i reads back as that digit, with the decimal point exactly when requested, and no other cell changes; an out-of-range index or num > 16 changes nothing |
| `Access.SetNumberThenGet` | Display7Seg.h:308-337 | the cell `setNumber(i, num, dp)` writes reads as digit num, with the point exactly when dp |
| `Access.NumberGuardAdmitsSixteen` | Display7Seg.h:314-336 | the range test accepts num = 16 for every in-range index, and 16 is past the end of the table |
| `Display7Seg.SetNumberChecked` | Display7Seg.h:308-337 | with the test `num < 16`: defined for every byte, same cell contents for table digits, no-op for every other num |
| `Access.SetNumberCheckedAgrees` | Display7Seg.h:314 | the corrected test agrees with the code on every input the code handles, and makes num = 16 a no-op |
| `Glyphs.GlyphsWellFormed` | Display7Seg.h:316-334 | the font has sixteen glyphs, none dark, none using the decimal-point bit, no two alike |
| `Glyphs.GlyphReadsBack` | Display7Seg.h:336 | a glyph ORed with the decimal-point flag reads back as its digit, shows the point exactly when the flag is set, and is never all dark |
| `Glyphs.ZeroAndAGlyphs` | Display7Seg.h:317-328 | "0" lights segments a to f but not g; "A" lights every segment but d |
| `Format.SetValue` | Display7Seg.h:343-371 | every cell gets its formatted contents (see `FormattedCell`); no pin is written and the cursor stays; the result is true exactly when value < radix^numdigits; the display reads back as value mod radix^numdigits |
| `Format.FormatPosition` | Display7Seg.h:352-367 | one pass of the loop, given cells i+1 onwards formatted and the value with numdigits-1-i positions divided off, formats cell i as well, changes nothing else, and leaves the value with one more position divided off |
| `Format.WritePosition` | Display7Seg.h:353-365 | the `setNumber`/`setSegments` branch writes into cell i the lowest digit's glyph of what remains, with the point exactly at dppos, or a dark cell when the suppression rule applies, and changes nothing else |
| `Format.FormattedFromRest` | Display7Seg.h:353-365 | the cell the branch writes from what remains is the cell's formatted contents |
| `Format.NextRest` | Display7Seg.h:367 | `value /= radix` turns what remains for position i, value / radix^(numdigits-1-i), into what remains for position i - 1, value / radix^(numdigits-i) |
| `Format.FormattedDarkIff` | Display7Seg.h:355-365 | a cell is all dark exactly when the undivided remainder is 0, no leading zeros were asked for, the position is left of dppos and it is not the rightmost; every other cell holds a glyph |
| `Format.FormattedPointIff` | Display7Seg.h:358-364 | the decimal point is lit at position dppos and nowhere else |
| `Format.FormattedCellDigit` | Display7Seg.h:350-367 | cell i reads as digit (value / radix^(numdigits-1-i)) mod radix, a dark cell reading as 0 |
| `Format.FormattedReadsBack` | Display7Seg.h:350-371 | the formatted display reads back as value mod radix^numdigits: digits that do not fit are lost, the rest shown in place |
| `Format.FormattedZeroExample` | Display7Seg.h:343-371 | on four decimal digits, 0 shows as three dark cells and then "0" |
| `Format.FormattedFullExample` | Display7Seg.h:343-371 | on four decimal digits, 1234 shows as "1", "2", "3", "4" |
| `Format.FormattedPointExample` | Display7Seg.h:343-371 | on four decimal digits, 12 with dppos 2 shows as dark, dark, "1." and "2" |
| `Arith.NumeralOfDigits` | Display7Seg.h:350-368 | the digits peeled off by repeated `% radix` and `/ radix` read back, most significant first, as the value mod radix^k |
| `Coherence.BindDark` | Display7Seg.h:137-157 | with distinct pins, the first part of `begin` leaves every digit line and every segment line at its off level |
| `Coherence.BeginCoherent` | Display7Seg.h:130-160 | with distinct pins, `begin` leaves only the leftmost digit lit, or with `blank` nothing lit and every segment dark, whatever the stale cursor held |
| `Coherence.ShowCoherent` | Display7Seg.h:211-226 | `show()` keeps the invariant that the cursor's digit line alone is on and a blank display has dark segments |
| `Coherence.BlankCoherent` | Display7Seg.h:261-265 | `setBlank` keeps that invariant |
| `Coherence.SegmentsCoherent` | Display7Seg.h:284-298 | `setSegments`, with or without `show`, keeps that invariant |
| `Coherence.NumberCoherent` | Display7Seg.h:308-337 | `setNumber`, with the corrected range test, keeps that invariant |
| `Coherence.Step` | Display7Seg.h:211-371 | no public operation changes the configuration or either pin table bound by `begin` |
| `Coherence.Run` | Display7Seg.h:211-371 | no sequence of public operations changes the configuration or either pin table |
| `Coherence.StepCoherent` | Display7Seg.h:211-371 | every public operation keeps the invariant that the cursor's digit line alone is on and a blank display has dark segments |
| `Coherence.RunCoherent` | Display7Seg.h:211-371 | any sequence of public operations keeps that invariant |
| `Coherence.NeverTwoDigitsLit` | Display7Seg.h:130-371 | after `begin` with distinct pins and any sequence of public operations, the configuration and the pin tables passed to `begin` are still bound, and the digit line `digitPins[j]` is on exactly when j is the cursor; so at most one digit is ever lit, and none while blank |

## Left out

- The Arduino `pinMode` and `digitalWrite` calls and `<Arduino.h>` are not modelled as
  hardware. Each call is an event in the trace, and a line's level is the last write to it.
- `volatile` and calls from a timer callback or interrupt are left out. The code gives no
  guarantee about concurrent use.
- Refresh timing and the 25 Hz flicker guidance are left out. They depend on how often
  the caller calls `show()`, not on the code.
- `setValue` is modelled only for an unbounded natural `value`. Other integer types `T`,
  signed values and the wrap-around of the platform's `unsigned` (16 bits on AVR, 32 on ARM)
  are not modelled.
- `Format.SetValue` requires `2 <= radix <= 16`. For a larger radix a digit above 15
  reaches `setNumber`, which reads past the table (16) or skips the position and leaves
  a stale cell (above 16). For radix 0 the code divides by zero.
- Digit indices, `dppos` and `showDigit`'s argument are naturals. The range of the
  platform's `unsigned` (16 bits on AVR, 32 on ARM) is not modelled. No caller can pass
  a value that would wrap.
- `Display7Seg.SetNumber` requires `num != 16` for an in-range index. The code reads
  `table[16]`, past the end of the table, and the model leaves that read undefined.
- `Display7Seg.Begin` requires pin arrays of the exact lengths. The code reads past
  shorter ones, and that is the caller's side of the contract.
- The `Coherence` lemmas assume distinct digit and segment pins. The code does not check
  for colliding pins.
- The static scratch byte of `operator[]` is shared by every instance with the same
  template parameters. The model gives each display its own. Only its effect of
  discarding writes to the buffer matters here.
- `Coherence.StepCoherent` covers `setNumber` through `SetNumberChecked`, the corrected
  range test. It agrees with the code on every input the code defines.

## Findings

| source | as written | input that shows it | evidently intended | confidence | as-written member | corrected member |
|---|---|---|---|---|---|---|
| Display7Seg.h:314 | the guard `num <= 16` admits 16, and line 336 then reads `table[16]` from a sixteen-entry table | `setNumber(0, 16)` on any display | `num < 16`, so 16 is rejected like every other out-of-range digit | high; not executed | `Display7Seg.SetNumber` with `Access.NumberGuardAdmitsSixteen` | `Display7Seg.SetNumberChecked` with `Access.SetNumberCheckedAgrees` |
