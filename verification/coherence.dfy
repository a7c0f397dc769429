/** What the pin writes achieve on the lines themselves. With distinct pins,
    `begin` leaves the display coherent: digit line `j` is on exactly when
    `j` is the cursor, the cursor is a digit or the blank sentinel, and while
    blank every segment line is dark. Every public operation keeps it so; in
    particular no two digits are ever lit at once. Within one `showDigit`, the
    new digit is energised only after the old one is off and the segment lines
    already carry the new digit's cell, which is what prevents ghosting. */
module Coherence {
  import opened Lines
  import opened Glyphs
  import opened Display7Seg
  import Format

  /** No line is wired to two roles. The code does not check this; it is the
      caller's side of `begin`. */
  ghost predicate DistinctPins(s: Display)
  {
    && (forall i, j :: 0 <= i < j < |s.digitPins| ==> s.digitPins[i] != s.digitPins[j])
    && (forall i, j :: 0 <= i < j < |s.segmentPins| ==> s.segmentPins[i] != s.segmentPins[j])
    && (forall i, k :: 0 <= i < |s.digitPins| && 0 <= k < |s.segmentPins| ==>
          s.digitPins[i] != s.segmentPins[k])
  }

  /** The level a digit line should have when `c` is the cursor. */
  function DigitLevel(s: Display, j: nat, c: nat): bool
  {
    if j == c then s.cfg.digitOn else !s.cfg.digitOn
  }

  ghost predicate Coherent(s: Display)
  {
    && Valid(s) && DistinctPins(s)
    && s.cursor <= s.cfg.numDigits
    && (forall j :: 0 <= j < s.cfg.numDigits ==>
          LevelOf(s.trace, s.digitPins[j]) == Some(DigitLevel(s, j, s.cursor)))
    && (s.cursor == s.cfg.numDigits ==> forall k :: 0 <= k < s.cfg.SegmentCount() ==>
          LevelOf(s.trace, s.segmentPins[k]) == Some(!s.cfg.segmentOn))
  }

  /** Every line driven to its off level, whatever the cursor says. */
  ghost predicate Dark(s: Display)
  {
    && Valid(s) && DistinctPins(s)
    && (forall j :: 0 <= j < s.cfg.numDigits ==>
          LevelOf(s.trace, s.digitPins[j]) == Some(!s.cfg.digitOn))
    && (forall k :: 0 <= k < s.cfg.SegmentCount() ==>
          LevelOf(s.trace, s.segmentPins[k]) == Some(!s.cfg.segmentOn))
  }

  /** The effect of `showDigit(t)` on digit line `j`: on if it is `t`, off if it
      is the digit being left, untouched otherwise. */
  lemma ShowDigitDigitLine(s: Display, t: nat, j: nat)
    requires Valid(s) && DistinctPins(s) && j < s.cfg.numDigits
    ensures LevelOf(ShowDigit(s, t).trace, s.digitPins[j]) ==
      if t < s.cfg.numDigits && j == t then Some(s.cfg.digitOn)
      else if s.cursor < s.cfg.numDigits && t != s.cursor && j == s.cursor then Some(!s.cfg.digitOn)
      else LevelOf(s.trace, s.digitPins[j])
  {
    var off, load, on := DeselectWrites(s, t), LoadWrites(s, t), SelectWrites(s, t);
    var p := s.digitPins[j];
    assert ShowDigit(s, t).trace == s.trace + off + load + on;
    if t < s.cfg.numDigits && j == t {
      LevelLastWrite(s.trace + off + load, on, p, 0);
    } else {
      LevelUntouched(s.trace + off + load, on, p);
      LevelUntouched(s.trace + off, load, p);
      if s.cursor < s.cfg.numDigits && t != s.cursor && j == s.cursor {
        LevelLastWrite(s.trace, off, p, 0);
      } else {
        LevelUntouched(s.trace, off, p);
      }
    }
  }

  /** The effect of `showDigit(t)` on segment line `k`: from a lit cursor it
      carries bit `k` of cell `t` (dark when `t` is out of range); from blank it
      is untouched. */
  lemma ShowDigitSegmentLine(s: Display, t: nat, k: nat)
    requires Valid(s) && DistinctPins(s) && k < s.cfg.SegmentCount()
    ensures LevelOf(ShowDigit(s, t).trace, s.segmentPins[k]) ==
      if s.cursor < s.cfg.numDigits
      then Some(SegmentLevel(if t < s.cfg.numDigits then s.buffer[t] else 0, k, s.cfg.segmentOn))
      else LevelOf(s.trace, s.segmentPins[k])
  {
    var off, load, on := DeselectWrites(s, t), LoadWrites(s, t), SelectWrites(s, t);
    var p := s.segmentPins[k];
    assert ShowDigit(s, t).trace == s.trace + off + load + on;
    LevelUntouched(s.trace + off + load, on, p);
    if s.cursor < s.cfg.numDigits {
      LevelLastWrite(s.trace + off, load, p, k);
    } else {
      assert off == [] && load == [];
      assert s.trace + off + load == s.trace;
    }
  }

  /** `showDigit(t)` with `t` a digit or the blank sentinel takes a coherent
      display, or one with every line dark, to a coherent display. */
  lemma ShowDigitCoherent(s: Display, t: nat)
    requires Coherent(s) || Dark(s)
    requires t <= s.cfg.numDigits
    ensures Coherent(ShowDigit(s, t))
  {
    var r := ShowDigit(s, t);
    forall j | 0 <= j < s.cfg.numDigits
      ensures LevelOf(r.trace, r.digitPins[j]) == Some(DigitLevel(r, j, r.cursor))
    {
      ShowDigitDigitLine(s, t, j);
    }
    if t == s.cfg.numDigits {
      forall k | 0 <= k < s.cfg.SegmentCount()
        ensures LevelOf(r.trace, r.segmentPins[k]) == Some(!s.cfg.segmentOn)
      {
        ShowDigitSegmentLine(s, t, k);
        assert !Bit(0, k);
      }
    }
  }

  /** Anti-ghosting: when `showDigit(t)` moves from lit digit `c` to digit `t`,
      its last write turns `t` on, and just before that write every other
      digit line is off and the segment lines already carry cell `t`. */
  lemma ShowDigitNoGhosting(s: Display, t: nat)
    requires Coherent(s) && !IsBlank(s) && t < s.cfg.numDigits
    ensures var tr := ShowDigit(s, t).trace;
      && |tr| > 0
      && tr[|tr| - 1] == Write(s.digitPins[t], s.cfg.digitOn)
      && (forall j :: 0 <= j < s.cfg.numDigits && j != t ==>
            LevelOf(tr[..|tr| - 1], s.digitPins[j]) == Some(!s.cfg.digitOn))
      && (forall k :: 0 <= k < s.cfg.SegmentCount() ==>
            LevelOf(tr[..|tr| - 1], s.segmentPins[k]) == Some(SegmentLevel(s.buffer[t], k, s.cfg.segmentOn)))
  {
    var off, load, on := DeselectWrites(s, t), LoadWrites(s, t), SelectWrites(s, t);
    var tr := ShowDigit(s, t).trace;
    var mid := s.trace + off + load;
    assert tr == mid + on;
    assert tr[..|tr| - 1] == mid;
    forall j | 0 <= j < s.cfg.numDigits && j != t
      ensures LevelOf(mid, s.digitPins[j]) == Some(!s.cfg.digitOn)
    {
      var p := s.digitPins[j];
      LevelUntouched(s.trace + off, load, p);
      if j == s.cursor {
        LevelLastWrite(s.trace, off, p, 0);
      } else {
        LevelUntouched(s.trace, off, p);
      }
    }
    forall k | 0 <= k < s.cfg.SegmentCount()
      ensures LevelOf(mid, s.segmentPins[k]) == Some(SegmentLevel(s.buffer[t], k, s.cfg.segmentOn))
    {
      LevelLastWrite(s.trace + off, load, s.segmentPins[k], k);
    }
  }

  /** Lighting a digit from blank (by `setBlank(false)`, or a `setSegments` or
      `setNumber` with `show`) loads no segments: the digit comes on with every
      segment dark and stays dark until the next `show()`. */
  lemma UnblankShowsNothing(s: Display, t: nat)
    requires Coherent(s) && IsBlank(s) && t < s.cfg.numDigits
    ensures Coherent(ShowDigit(s, t)) && ShowDigit(s, t).cursor == t
    ensures forall k :: 0 <= k < s.cfg.SegmentCount() ==>
      LevelOf(ShowDigit(s, t).trace, s.segmentPins[k]) == Some(!s.cfg.segmentOn)
  {
    ShowDigitCoherent(s, t);
    forall k | 0 <= k < s.cfg.SegmentCount()
      ensures LevelOf(ShowDigit(s, t).trace, s.segmentPins[k]) == Some(!s.cfg.segmentOn)
    {
      ShowDigitSegmentLine(s, t, k);
    }
  }

  /** The write of `ReleaseLines` at index `k` concerns line `pins[k / 2]`. */
  lemma ReleaseLinesPin(pins: seq<Byte>, level: bool, k: nat)
    requires k < 2 * |pins|
    ensures ReleaseLines(pins, level)[k].pin == pins[k / 2]
  {
    var j := k / 2;
    if k == 2 * j {
      assert ReleaseLines(pins, level)[2 * j] == SetOutput(pins[j]);
    } else {
      assert k == 2 * j + 1;
      assert ReleaseLines(pins, level)[2 * j + 1] == Write(pins[j], level);
    }
  }

  /** The releasing writes of `begin` leave line `pins[j]` at `level`. */
  lemma ReleaseLevel(a: seq<Event>, pins: seq<Byte>, level: bool, j: nat)
    requires j < |pins|
    requires forall i, i' :: 0 <= i < i' < |pins| ==> pins[i] != pins[i']
    ensures LevelOf(a + ReleaseLines(pins, level), pins[j]) == Some(level)
  {
    var w := ReleaseLines(pins, level);
    forall k | 2 * j + 1 < k < |w|
      ensures w[k].pin != pins[j]
    {
      ReleaseLinesPin(pins, level, k);
    }
    LevelLastWrite(a, w, pins[j], 2 * j + 1);
  }

  /** Releasing `pins` never touches a line outside `pins`. */
  lemma ReleaseElsewhere(a: seq<Event>, pins: seq<Byte>, level: bool, p: Byte)
    requires forall i :: 0 <= i < |pins| ==> pins[i] != p
    ensures LevelOf(a + ReleaseLines(pins, level), p) == LevelOf(a, p)
  {
    var w := ReleaseLines(pins, level);
    forall k | 0 <= k < |w|
      ensures w[k].pin != p
    {
      ReleaseLinesPin(pins, level, k);
    }
    LevelUntouched(a, w, p);
  }

  /** The first part of `begin` drives every line to its off level. */
  lemma BindDark(s: Display, digitPins: seq<Byte>, segmentPins: seq<Byte>)
    requires Valid(s)
    requires |digitPins| == s.cfg.numDigits && |segmentPins| == s.cfg.SegmentCount()
    requires DistinctPins(s.(digitPins := digitPins, segmentPins := segmentPins))
    ensures Dark(Bind(s, digitPins, segmentPins))
  {
    var b := Bind(s, digitPins, segmentPins);
    var dOff, sOff := !s.cfg.digitOn, !s.cfg.segmentOn;
    var first := s.trace + ReleaseLines(digitPins, dOff);
    assert b.trace == first + ReleaseLines(segmentPins, sOff);
    forall j | 0 <= j < s.cfg.numDigits
      ensures LevelOf(b.trace, digitPins[j]) == Some(dOff)
    {
      ReleaseElsewhere(first, segmentPins, sOff, digitPins[j]);
      ReleaseLevel(s.trace, digitPins, dOff, j);
    }
    forall k | 0 <= k < s.cfg.SegmentCount()
      ensures LevelOf(b.trace, segmentPins[k]) == Some(sOff)
    {
      ReleaseLevel(first, segmentPins, sOff, k);
    }
  }

  /** `begin` writes, before anything else, `pinMode` and the off level for each
      digit line left to right and then for each segment line a to g[, dp];
      what follows is the writes of `showDigit` lighting the leftmost digit,
      or blanking when asked to start blank. */
  lemma BeginOrder(s: Display, digitPins: seq<Byte>, segmentPins: seq<Byte>, blank: bool)
    requires Valid(s)
    requires |digitPins| == s.cfg.numDigits && |segmentPins| == s.cfg.SegmentCount()
    ensures var tr, n := Begin(s, digitPins, segmentPins, blank).trace, |s.trace|;
      var m := n + 2 * |digitPins| + 2 * |segmentPins|;
      var b, t := Bind(s, digitPins, segmentPins), if blank then s.cfg.numDigits else 0;
      && |tr| >= m
      && tr[..m] == s.trace + ReleaseLines(digitPins, !s.cfg.digitOn)
                            + ReleaseLines(segmentPins, !s.cfg.segmentOn)
      && tr[m..] == DeselectWrites(b, t) + LoadWrites(b, t) + SelectWrites(b, t)
  {
    var b, t := Bind(s, digitPins, segmentPins), if blank then s.cfg.numDigits else 0;
    var off, load, on := DeselectWrites(b, t), LoadWrites(b, t), SelectWrites(b, t);
    assert Begin(s, digitPins, segmentPins, blank).trace == b.trace + off + load + on;
    assert |b.trace| == |s.trace| + 2 * |digitPins| + 2 * |segmentPins|;
    Split3(b.trace, off, load, on);
  }

  /** With distinct pins, `begin` leaves the display coherent: the leftmost
      digit alone lit, or, when asked to start blank, nothing lit and every
      segment line dark. This holds whatever the unset cursor held. */
  lemma BeginCoherent(s: Display, digitPins: seq<Byte>, segmentPins: seq<Byte>, blank: bool)
    requires Valid(s)
    requires |digitPins| == s.cfg.numDigits && |segmentPins| == s.cfg.SegmentCount()
    requires DistinctPins(s.(digitPins := digitPins, segmentPins := segmentPins))
    ensures Coherent(Begin(s, digitPins, segmentPins, blank))
  {
    BindDark(s, digitPins, segmentPins);
    ShowDigitCoherent(Bind(s, digitPins, segmentPins), if blank then s.cfg.numDigits else 0);
  }

  /** The public operations, as a caller issues them after `begin`. */
  datatype Op =
    | Tick                                                    // show()
    | Blank(on: bool)                                         // setBlank(on)
    | Poke(index: nat, bits: bv8)                             // display[index] = bits
    | Segments(index: nat, bits: bv8, show: bool)             // setSegments
    | Number(index: nat, num: Byte, dp: bool, show: bool)     // setNumber
    | Value(radix: nat, value: nat, leadingZero: bool, dpPos: nat)   // setValue<radix>

  predicate Admissible(op: Op)
  {
    op.Value? ==> 2 <= op.radix <= 16
  }

  /** One public operation. None of them changes the configuration or the
      pin tables `begin` bound. */
  function Step(s: Display, op: Op): (r: Display)
    requires Valid(s) && Admissible(op)
    ensures Valid(r)
    ensures r.cfg == s.cfg && r.digitPins == s.digitPins && r.segmentPins == s.segmentPins
  {
    match op
    case Tick => Show(s)
    case Blank(on) => SetBlank(s, on)
    case Poke(i, b) => Put(s, i, b)
    case Segments(i, b, show) => SetSegments(s, i, b, show)
    case Number(i, num, dp, show) => SetNumberChecked(s, i, num, dp, show)
    case Value(radix, v, lz, dp) => Format.Formatted(s, radix, v, lz, dp)
  }

  /** A sequence of public operations, first to last. */
  function Run(s: Display, ops: seq<Op>): (r: Display)
    requires Valid(s) && forall i :: 0 <= i < |ops| ==> Admissible(ops[i])
    ensures Valid(r)
    ensures r.cfg == s.cfg && r.digitPins == s.digitPins && r.segmentPins == s.segmentPins
    decreases |ops|
  {
    if |ops| == 0 then s else Run(Step(s, ops[0]), ops[1..])
  }

  /** Coherence speaks only of the pins, the cursor and the trace, so the
      operations that only rewrite cells keep it. */
  lemma CoherentFrame(s: Display, r: Display)
    requires Coherent(s) && Valid(r)
    requires r == s.(buffer := r.buffer, dummy := r.dummy)
    ensures Coherent(r)
  {
  }

  /** Every public operation keeps the display coherent. */
  lemma StepCoherent(s: Display, op: Op)
    requires Coherent(s) && Admissible(op)
    ensures Coherent(Step(s, op))
  {
    match op
    case Tick => ShowCoherent(s);
    case Blank(on) => BlankCoherent(s, on);
    case Poke(i, b) => CoherentFrame(s, Put(s, i, b));
    case Segments(i, b, show) => SegmentsCoherent(s, i, b, show);
    case Number(i, num, dp, show) => NumberCoherent(s, i, num, dp, show);
    case Value(radix, v, lz, dp) => CoherentFrame(s, Format.Formatted(s, radix, v, lz, dp));
  }

  /** `show()` keeps the display coherent. */
  lemma ShowCoherent(s: Display)
    requires Coherent(s)
    ensures Coherent(Show(s))
  {
    var n := s.cfg.numDigits;
    if s.cursor < n {
      var t := if s.cursor + 1 >= n then 0 else s.cursor + 1;
      assert Show(s) == ShowDigit(s, t);
      ShowDigitCoherent(s, t);
    }
  }

  /** `setBlank(on)` keeps the display coherent. */
  lemma BlankCoherent(s: Display, on: bool)
    requires Coherent(s)
    ensures Coherent(SetBlank(s, on))
  {
    var t := if on then s.cfg.numDigits else 0;
    assert SetBlank(s, on) == ShowDigit(s, t);
    ShowDigitCoherent(s, t);
  }

  /** `setNumber` keeps the display coherent. */
  lemma NumberCoherent(s: Display, i: nat, num: Byte, dp: bool, show: bool)
    requires Coherent(s)
    ensures Coherent(SetNumberChecked(s, i, num, dp, show))
  {
    if i < s.cfg.numDigits && num < |Table| {
      assert SetNumberChecked(s, i, num, dp, show) == SetSegments(s, i, Table[num] | Point(dp), show);
      SegmentsCoherent(s, i, Table[num] | Point(dp), show);
    }
  }

  /** `setSegments` keeps the display coherent. */
  lemma SegmentsCoherent(s: Display, i: nat, b: bv8, show: bool)
    requires Coherent(s)
    ensures Coherent(SetSegments(s, i, b, show))
  {
    if i < s.cfg.numDigits {
      var stored := s.(buffer := s.buffer[i := b]);
      CoherentFrame(s, stored);
      if show {
        ShowDigitCoherent(stored, i);
      }
    }
  }

  lemma {:induction false} RunCoherent(s: Display, ops: seq<Op>)
    requires Coherent(s) && forall i :: 0 <= i < |ops| ==> Admissible(ops[i])
    ensures Coherent(Run(s, ops))
    decreases |ops|
  {
    if |ops| > 0 {
      StepCoherent(s, ops[0]);
      RunCoherent(Step(s, ops[0]), ops[1..]);
    }
  }

  /** The driver's safety property. After `begin` with distinct pins and any
      sequence of public operations, the digit line that is on is the
      cursor's and no other; when the display is blank no digit line is on. */
  lemma NeverTwoDigitsLit(s: Display, digitPins: seq<Byte>, segmentPins: seq<Byte>, blank: bool, ops: seq<Op>)
    requires Valid(s)
    requires |digitPins| == s.cfg.numDigits && |segmentPins| == s.cfg.SegmentCount()
    requires DistinctPins(s.(digitPins := digitPins, segmentPins := segmentPins))
    requires forall i :: 0 <= i < |ops| ==> Admissible(ops[i])
    ensures var r := Run(Begin(s, digitPins, segmentPins, blank), ops);
      && r.cfg == s.cfg && r.digitPins == digitPins && r.segmentPins == segmentPins
      && forall j :: 0 <= j < s.cfg.numDigits ==>
           (LevelOf(r.trace, digitPins[j]) == Some(s.cfg.digitOn) <==> j == r.cursor)
  {
    BeginCoherent(s, digitPins, segmentPins, blank);
    RunCoherent(Begin(s, digitPins, segmentPins, blank), ops);
  }
}
