/** The `Display7Seg<numdigits, havedp, digiton, segmenton>` driver: a segment
    buffer with one byte per digit, a cursor naming the digit whose line is
    energised (any value from `numdigits` up means "blank"), and the pin
    writes each operation makes, in order.

    Every operation is a pure function from the driver's state to its next
    state; the pin layer is the `trace` of events the state carries. */
module Display7Seg {
  import opened Lines
  import opened Glyphs

  /** The template parameters. `numdigits` is at most 255 because the cursor is
      a byte and must also hold the blank sentinel `numdigits`. */
  datatype Config = Config(numDigits: nat, haveDp: bool, digitOn: bool, segmentOn: bool)
  {
    predicate Valid()
    {
      1 <= numDigits <= 255
    }

    /** Segment lines: a to g, plus the decimal point when the display has one. */
    function SegmentCount(): nat
    {
      if haveDp then 8 else 7
    }
  }

  datatype Display = Display(
    cfg: Config,
    digitPins: seq<Byte>,     // digit lines, leftmost first (set by Begin)
    segmentPins: seq<Byte>,   // segment lines a..g[, dp] (set by Begin)
    buffer: seq<bv8>,         // one cell per digit, leftmost first
    cursor: Byte,             // digit being shown; >= numDigits means blank
    dummy: bv8,               // scratch cell behind out-of-range indexing
    trace: seq<Event>)        // every pin call so far, oldest first

  ghost predicate Valid(s: Display)
  {
    && s.cfg.Valid()
    && |s.digitPins| == s.cfg.numDigits
    && |s.segmentPins| == s.cfg.SegmentCount()
    && |s.buffer| == s.cfg.numDigits
  }

  /** The level a segment line is driven to for segment `k` of cell `b`. */
  function SegmentLevel(b: bv8, k: nat, on: bool): bool
    requires k < 8
  {
    if Bit(b, k) then on else !on
  }

  /** The constructor: every cell dark. It initialises nothing else, so the
      cursor, the pin tables and the scratch cell hold whatever was there. */
  function Construct(cfg: Config, staleCursor: Byte, staleDigitPins: seq<Byte>,
                     staleSegmentPins: seq<Byte>, staleDummy: bv8): (s: Display)
    requires cfg.Valid()
    requires |staleDigitPins| == cfg.numDigits && |staleSegmentPins| == cfg.SegmentCount()
    ensures Valid(s)
    ensures forall i :: 0 <= i < |s.buffer| ==> s.buffer[i] == 0
    ensures s.cursor == staleCursor && s.trace == []
  {
    Display(cfg, staleDigitPins, staleSegmentPins, seq(cfg.numDigits, _ => 0),
            staleCursor, staleDummy, [])
  }

  /** The segment-line writes for cell `b`: line `k` gets the on level exactly
      when segment `k` is lit. */
  function SegmentWrites(pins: seq<Byte>, b: bv8, on: bool): (w: seq<Event>)
    requires |pins| <= 8
  {
    seq(|pins|, k requires 0 <= k < |pins| => Write(pins[k], SegmentLevel(b, k, on)))
  }

  /** The segment loop of `showDigit` as written: drive the first remaining
      line from the lowest bit of the cell, shift the cell right by one, and go
      on with the next line. */
  function ShiftOut(pins: seq<Byte>, b: bv8, on: bool): (w: seq<Event>)
    ensures |w| == |pins|
    decreases |pins|
  {
    if |pins| == 0 then []
    else [Write(pins[0], if b & 1 == 1 then on else !on)] + ShiftOut(pins[1..], b >> 1, on)
  }

  /** Shifting the cell out bit by bit writes line `k` with the on level
      exactly when segment `k` of the cell is lit, one write per line, in
      line order. */
  lemma {:induction false} ShiftOutWrites(pins: seq<Byte>, b: bv8, on: bool)
    requires |pins| <= 8
    ensures ShiftOut(pins, b, on) == SegmentWrites(pins, b, on)
    decreases |pins|
  {
    if |pins| > 0 {
      ShiftOutWrites(pins[1..], b >> 1, on);
      ShiftOutStep(pins, b, on);
    }
  }

  /** One pass of the segment loop: if the remaining lines get the remaining
      bits right, so do all the lines. */
  lemma ShiftOutStep(pins: seq<Byte>, b: bv8, on: bool)
    requires 0 < |pins| <= 8
    requires ShiftOut(pins[1..], b >> 1, on) == SegmentWrites(pins[1..], b >> 1, on)
    ensures ShiftOut(pins, b, on) == SegmentWrites(pins, b, on)
  {
    var w, rest := ShiftOut(pins, b, on), ShiftOut(pins[1..], b >> 1, on);
    BitShift(b);
    forall k | 0 <= k < |pins|
      ensures w[k] == Write(pins[k], SegmentLevel(b, k, on))
    {
      if k > 0 {
        assert w[k] == rest[k - 1];
      }
    }
  }

  /** `pinMode(p, OUTPUT)` then `digitalWrite(p, level)` for each line in turn. */
  function ReleaseLines(pins: seq<Byte>, level: bool): (w: seq<Event>)
    ensures |w| == 2 * |pins|
    ensures forall k :: 0 <= k < |pins| ==> w[2 * k] == SetOutput(pins[k])
    ensures forall k :: 0 <= k < |pins| ==> w[2 * k + 1] == Write(pins[k], level)
    decreases |pins|
  {
    if |pins| == 0 then []
    else [SetOutput(pins[0]), Write(pins[0], level)] + ReleaseLines(pins[1..], level)
  }

  /** The writes `showDigit(t)` makes, in three parts. First, turning the
      current digit off when it is lit and is not `t`: */
  function DeselectWrites(s: Display, t: nat): seq<Event>
    requires Valid(s)
  {
    if s.cursor < s.cfg.numDigits && t != s.cursor
    then [Write(s.digitPins[s.cursor], !s.cfg.digitOn)]
    else []
  }

  /** then loading the segment lines with cell `t` (all dark when `t` is out of
      range), unless the display is already blank: */
  function LoadWrites(s: Display, t: nat): seq<Event>
    requires Valid(s)
  {
    if s.cursor < s.cfg.numDigits
    then SegmentWrites(s.segmentPins, if t < s.cfg.numDigits then s.buffer[t] else 0, s.cfg.segmentOn)
    else []
  }

  /** and last, turning digit `t` on when it is in range. */
  function SelectWrites(s: Display, t: nat): seq<Event>
    requires Valid(s)
  {
    if t < s.cfg.numDigits then [Write(s.digitPins[t], s.cfg.digitOn)] else []
  }

  /** `showDigit(t)`: switch the lit digit to `t`, or blank the display when `t`
      is out of range. The cursor is a byte, so it keeps `t mod 256`. */
  function ShowDigit(s: Display, t: nat): (r: Display)
    requires Valid(s)
    ensures Valid(r)
    ensures r == s.(cursor := t % 256, trace := r.trace)
    ensures t < 256 ==> r.cursor == t
    ensures r.trace == s.trace + DeselectWrites(s, t) + LoadWrites(s, t) + SelectWrites(s, t)
  {
    s.(cursor := t % 256, trace := s.trace + DeselectWrites(s, t) + LoadWrites(s, t) + SelectWrites(s, t))
  }

  /** `isBlank()`: any cursor from `numdigits` up counts as blank. */
  predicate IsBlank(s: Display)
  {
    s.cursor >= s.cfg.numDigits
  }

  /** `show()`: light the next digit, wrapping from the rightmost to the
      leftmost; nothing at all while blank. */
  function Show(s: Display): (r: Display)
    requires Valid(s)
    ensures Valid(r)
    ensures IsBlank(s) ==> r == s
    ensures !IsBlank(s) ==> !IsBlank(r)
    ensures !IsBlank(s) && s.cursor + 1 < s.cfg.numDigits ==> r.cursor == s.cursor + 1
    ensures !IsBlank(s) && s.cursor + 1 == s.cfg.numDigits ==> r.cursor == 0
    ensures r == s.(cursor := r.cursor, trace := r.trace)
  {
    if s.cursor < s.cfg.numDigits then
      var next := s.cursor + 1;
      ShowDigit(s, if next >= s.cfg.numDigits then 0 else next)
    else s
  }

  /** `setBlank(on)`: blank the display, or light the leftmost digit whatever
      digit was lit before. */
  function SetBlank(s: Display, on: bool): (r: Display)
    requires Valid(s)
    ensures Valid(r)
    ensures IsBlank(r) == on
    ensures r.cursor == if on then s.cfg.numDigits else 0
    ensures r == s.(cursor := r.cursor, trace := r.trace)
  {
    ShowDigit(s, if on then s.cfg.numDigits else 0)
  }

  /** The first part of `begin`: record the pin tables and make every line an
      output driven to its off level, digit lines first. */
  function Bind(s: Display, digitPins: seq<Byte>, segmentPins: seq<Byte>): (r: Display)
    requires Valid(s)
    requires |digitPins| == s.cfg.numDigits && |segmentPins| == s.cfg.SegmentCount()
    ensures Valid(r)
    ensures r == s.(digitPins := digitPins, segmentPins := segmentPins, trace := r.trace)
    ensures |r.trace| == |s.trace| + 2 * (|digitPins| + |segmentPins|)
  {
    s.(digitPins := digitPins, segmentPins := segmentPins,
       trace := s.trace + ReleaseLines(digitPins, !s.cfg.digitOn) + ReleaseLines(segmentPins, !s.cfg.segmentOn))
  }

  /** `begin(digitpins, segmentpins, blank)`: record the pin tables, make every
      line an output driven to its off level (digit lines first, then segment
      lines), then apply `setBlank(blank)`. The arrays must have the lengths
      the template parameters fix; the code does not check. */
  function Begin(s: Display, digitPins: seq<Byte>, segmentPins: seq<Byte>, blank: bool): (r: Display)
    requires Valid(s)
    requires |digitPins| == s.cfg.numDigits && |segmentPins| == s.cfg.SegmentCount()
    ensures Valid(r)
    ensures r == s.(digitPins := digitPins, segmentPins := segmentPins,
                    cursor := r.cursor, trace := r.trace)
    ensures IsBlank(r) == blank
    ensures r.cursor == if blank then s.cfg.numDigits else 0
  {
    SetBlank(Bind(s, digitPins, segmentPins), blank)
  }

  /** Reading `display[i]`: the cell, or the scratch cell when `i` is out of range. */
  function Get(s: Display, i: nat): bv8
    requires Valid(s)
  {
    if i < s.cfg.numDigits then s.buffer[i] else s.dummy
  }

  /** Writing `display[i] = b`: out of range, the write lands in the scratch cell. */
  function Put(s: Display, i: nat, b: bv8): (r: Display)
    requires Valid(s)
    ensures Valid(r)
    ensures r == s.(buffer := r.buffer, dummy := r.dummy)
    ensures i < s.cfg.numDigits ==> r.buffer == s.buffer[i := b] && r.dummy == s.dummy
    ensures i >= s.cfg.numDigits ==> r.buffer == s.buffer
  {
    if i < s.cfg.numDigits then s.(buffer := s.buffer[i := b]) else s.(dummy := b)
  }

  /** `setSegments(i, b, show)`: store `b` in cell `i`, and with `show` light
      digit `i` at once (leaving blank if need be). Out of range: nothing. */
  function SetSegments(s: Display, i: nat, b: bv8, show: bool): (r: Display)
    requires Valid(s)
    ensures Valid(r)
    ensures i >= s.cfg.numDigits ==> r == s
    ensures i < s.cfg.numDigits ==>
      && |r.buffer| == |s.buffer| && r.buffer[i] == b
      && (forall j :: 0 <= j < |s.buffer| && j != i ==> r.buffer[j] == s.buffer[j])
      && r == s.(buffer := r.buffer, cursor := r.cursor, trace := r.trace)
    ensures i < s.cfg.numDigits && !show ==> r.cursor == s.cursor && r.trace == s.trace
    ensures i < s.cfg.numDigits && show ==> r.cursor == i && !IsBlank(r)
  {
    if i < s.cfg.numDigits then
      var stored := s.(buffer := s.buffer[i := b]);
      if show then ShowDigit(stored, i) else stored
    else s
  }

  /** The range test of `setNumber` as written: it admits `num == 16`. */
  predicate NumberGuard(s: Display, i: nat, num: Byte)
  {
    i < s.cfg.numDigits && num <= 16
  }

  /** `setNumber(i, num, dp, show)` as written: cell `i` gets the glyph of `num`,
      with the decimal point when `dp`. The guard lets `num == 16` index past
      the sixteen-entry table, so that input is excluded here. */
  function SetNumber(s: Display, i: nat, num: Byte, dp: bool, show: bool): (r: Display)
    requires Valid(s)
    requires NumberGuard(s, i, num) ==> num != 16
    ensures Valid(r)
    ensures !NumberGuard(s, i, num) ==> r == s
    ensures NumberGuard(s, i, num) ==>
      && r == s.(buffer := r.buffer, cursor := r.cursor, trace := r.trace)
      && r.buffer[i] == Glyph(num) | Point(dp)
      && DigitOf(r.buffer[i]) == num && HasPoint(r.buffer[i]) == dp
      && r.buffer == s.buffer[i := r.buffer[i]]
      && (show ==> r.cursor == i)
      && (!show ==> r.cursor == s.cursor && r.trace == s.trace)
  {
    if NumberGuard(s, i, num) then
      GlyphReadsBack(num, dp);
      SetSegments(s, i, Table[num] | Point(dp), show)
    else s
  }

  /** `setNumber` with the range test it evidently intends, `num < 16`:
      defined for every input, and a no-op for every `num` the table lacks. */
  function SetNumberChecked(s: Display, i: nat, num: Byte, dp: bool, show: bool): (r: Display)
    requires Valid(s)
    ensures Valid(r)
    ensures !(i < s.cfg.numDigits && num < |Table|) ==> r == s
    ensures i < s.cfg.numDigits && num < |Table| ==>
      && r == s.(buffer := r.buffer, cursor := r.cursor, trace := r.trace)
      && r.buffer[i] == Glyph(num) | Point(dp)
      && DigitOf(r.buffer[i]) == num && HasPoint(r.buffer[i]) == dp
      && r.buffer == s.buffer[i := r.buffer[i]]
      && (show ==> r.cursor == i)
      && (!show ==> r.cursor == s.cursor && r.trace == s.trace)
  {
    if i < s.cfg.numDigits && num < |Table| then
      GlyphReadsBack(num, dp);
      SetSegments(s, i, Table[num] | Point(dp), show)
    else s
  }
}
