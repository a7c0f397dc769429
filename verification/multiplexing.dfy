/** The multiplexing state machine: the order in which `showDigit` drives the
    lines, and how repeated `show()` calls walk the cursor round the digits. */
module Multiplexing {
  import opened Lines
  import opened Display7Seg
  import Arith

  /** The writes `showDigit(t)` makes. */
  function Writes(s: Display, t: nat): seq<Event>
    requires Valid(s)
  {
    DeselectWrites(s, t) + LoadWrites(s, t) + SelectWrites(s, t)
  }

  /** `showDigit(t)` only appends to the pin trace. */
  lemma ShowDigitAppends(s: Display, t: nat)
    requires Valid(s)
    ensures var r := ShowDigit(s, t);
      && |r.trace| == |s.trace| + |Writes(s, t)|
      && r.trace[..|s.trace|] == s.trace
      && r.trace[|s.trace|..] == Writes(s, t)
  {
    Split3(s.trace, DeselectWrites(s, t), LoadWrites(s, t), SelectWrites(s, t));
  }

  /** From a lit cursor `c` it writes one line call for leaving `c` (when `t`
      is another digit), one per segment line, and one for lighting `t` (when
      it is in range); from blank only the last. */
  lemma WritesCount(s: Display, t: nat)
    requires Valid(s)
    ensures |Writes(s, t)| ==
      (if s.cursor < s.cfg.numDigits && t != s.cursor then 1 else 0)
      + (if s.cursor < s.cfg.numDigits then s.cfg.SegmentCount() else 0)
      + (if t < s.cfg.numDigits then 1 else 0)
  {
  }

  /** Leaving lit digit `c` for another digit starts by turning `c` off. */
  lemma WritesFirstDeselect(s: Display, t: nat)
    requires Valid(s) && s.cursor < s.cfg.numDigits && t != s.cursor
    ensures |Writes(s, t)| > 0 && Writes(s, t)[0] == Write(s.digitPins[s.cursor], !s.cfg.digitOn)
  {
  }

  /** Next, from a lit cursor, every segment line in order, loaded from cell
      `t` least significant bit first, or dark when `t` is out of range. */
  lemma WritesThenSegments(s: Display, t: nat)
    requires Valid(s) && s.cursor < s.cfg.numDigits
    ensures var off := if t != s.cursor then 1 else 0;
      && |Writes(s, t)| >= off + s.cfg.SegmentCount()
      && forall k :: 0 <= k < s.cfg.SegmentCount() ==>
           Writes(s, t)[off + k] == Write(s.segmentPins[k],
             SegmentLevel(if t < s.cfg.numDigits then s.buffer[t] else 0, k, s.cfg.segmentOn))
  {
    var off, load, on := DeselectWrites(s, t), LoadWrites(s, t), SelectWrites(s, t);
    var cell := if t < s.cfg.numDigits then s.buffer[t] else 0;
    assert load == SegmentWrites(s.segmentPins, cell, s.cfg.segmentOn);
    SegmentsInMiddle(off, load, on, s.segmentPins, cell, s.cfg.segmentOn);
    if t != s.cursor {
      assert |off| == 1;
    } else {
      assert |off| == 0;
    }
  }

  /** Segment writes placed between two other runs of events keep their order. */
  lemma SegmentsInMiddle(off: seq<Event>, load: seq<Event>, on: seq<Event>,
                         pins: seq<Byte>, cell: bv8, level: bool)
    requires |pins| <= 8 && load == SegmentWrites(pins, cell, level)
    ensures |off + load + on| >= |off| + |pins|
    ensures forall k :: 0 <= k < |pins| ==>
      (off + load + on)[|off| + k] == Write(pins[k], SegmentLevel(cell, k, level))
  {
    forall k | 0 <= k < |pins|
      ensures (off + load + on)[|off| + k] == Write(pins[k], SegmentLevel(cell, k, level))
    {
      MiddleAt(off, load, on, k);
    }
  }

  /** The last write lights digit `t`, when it is in range, lit cursor or not. */
  lemma WritesLastSelect(s: Display, t: nat)
    requires Valid(s) && t < s.cfg.numDigits
    ensures var w := Writes(s, t);
      |w| > 0 && w[|w| - 1] == Write(s.digitPins[t], s.cfg.digitOn)
  {
  }

  /** From blank nothing is written but the lighting of `t`: no digit is
      turned off and no segment loaded. */
  lemma WritesFromBlank(s: Display, t: nat)
    requires Valid(s) && s.cursor >= s.cfg.numDigits
    ensures Writes(s, t) == if t < s.cfg.numDigits then [Write(s.digitPins[t], s.cfg.digitOn)] else []
  {
    assert DeselectWrites(s, t) == [] && LoadWrites(s, t) == [];
  }

  /** `n` consecutive calls of `show()`. */
  function ShowTimes(s: Display, n: nat): (r: Display)
    requires Valid(s)
    ensures Valid(r)
    ensures r.cfg == s.cfg
    decreases n
  {
    if n == 0 then s else Show(ShowTimes(s, n - 1))
  }

  /** The digits lit by the first `n` of consecutive `show()` calls. */
  function LitDuring(s: Display, n: nat): set<int>
    requires Valid(s)
  {
    set m | 1 <= m <= n :: ShowTimes(s, m).cursor as int
  }

  /** The digit after `c` on a display of `d` digits, wrapping from the
      rightmost to the leftmost. */
  function Next(c: nat, d: nat): nat
  {
    if c + 1 >= d then 0 else c + 1
  }

  /** The digit `n` steps to the right of `c`, one step at a time. */
  function Advance(c: nat, d: nat, n: nat): nat
    decreases n
  {
    if n == 0 then c else Next(Advance(c, d, n - 1), d)
  }

  /** `n` calls of `show()` from a lit digit step the cursor `n` times. */
  lemma {:induction false} ShowTimesAdvance(s: Display, n: nat)
    requires Valid(s) && !IsBlank(s)
    ensures ShowTimes(s, n).cursor == Advance(s.cursor, s.cfg.numDigits, n)
    ensures !IsBlank(ShowTimes(s, n))
    decreases n
  {
    if n > 0 {
      ShowTimesAdvance(s, n - 1);
    }
  }

  /** Stepping `n` times round `d` digits lands on `(c + n) mod d`. */
  lemma {:induction false} AdvanceMod(c: nat, d: nat, n: nat)
    requires c < d
    ensures Advance(c, d, n) == (c + n) % d
    decreases n
  {
    if n == 0 {
      SmallMod(c, d);
    } else {
      AdvanceMod(c, d, n - 1);
      var a := (c + n - 1) % d;
      assert a < d;
      assert Next(a, d) == (a + 1) % d by {
        if a + 1 < d { SmallMod(a + 1, d); } else { ModShift(0, d); }
      }
      assert (a + 1) % d == (c + n) % d by {
        NextResidue(c + n - 1, d);
      }
    }
  }

  /** From a lit digit `c`, `n` calls of `show()` leave digit `(c + n) mod numdigits`
      lit. */
  lemma ShowTimesCursor(s: Display, n: nat)
    requires Valid(s) && !IsBlank(s)
    ensures ShowTimes(s, n).cursor == (s.cursor + n) % s.cfg.numDigits
    ensures !IsBlank(ShowTimes(s, n))
  {
    var c: nat, d := s.cursor, s.cfg.numDigits;
    var a := Advance(c, d, n);
    assert ShowTimes(s, n).cursor == a && !IsBlank(ShowTimes(s, n)) by {
      ShowTimesAdvance(s, n);
    }
    assert a == (c + n) % d by {
      AdvanceMod(c, d, n);
    }
  }

  /** From a lit digit, `show()` lights digit `(cursor + 1) mod numdigits`. */
  lemma ShowNext(s: Display)
    requires Valid(s) && !IsBlank(s)
    ensures Show(s).cursor == (s.cursor + 1) % s.cfg.numDigits
  {
    var c: nat, d := s.cursor, s.cfg.numDigits;
    if c + 1 < d {
      SmallMod(c + 1, d);
    } else {
      assert (c + 1) % d == 0 by {
        ModShift(0, d);
      }
    }
  }

  /** While blank, `show()` does nothing however often it is called. */
  lemma {:induction false} ShowTimesBlank(s: Display, n: nat)
    requires Valid(s) && IsBlank(s)
    ensures ShowTimes(s, n) == s
    decreases n
  {
    if n > 0 {
      ShowTimesBlank(Show(s), n - 1);
    }
  }

  /** `numdigits` calls of `show()` end on the digit they started from. */
  lemma ShowCycleReturns(s: Display)
    requires Valid(s) && !IsBlank(s)
    ensures ShowTimes(s, s.cfg.numDigits).cursor == s.cursor
  {
    ShowTimesAdvance(s, s.cfg.numDigits);
    FullTurn(s.cursor, s.cfg.numDigits);
  }

  /** A full turn of `d` steps ends where it began. */
  lemma FullTurn(c: nat, d: nat)
    requires c < d
    ensures Advance(c, d, d) == c
  {
    AdvanceMod(c, d, d);
    ModShift(c, d);
    SmallMod(c, d);
  }

  /** `numdigits` consecutive calls of `show()` light every digit. */
  lemma ShowCycleCovers(s: Display)
    requires Valid(s) && !IsBlank(s)
    ensures forall e :: e in LitDuring(s, s.cfg.numDigits) <==> 0 <= e < s.cfg.numDigits
  {
    var d := s.cfg.numDigits;
    forall x | x in LitDuring(s, d)
      ensures 0 <= x < d
    {
      var n :| 1 <= n <= d && x == ShowTimes(s, n).cursor as int;
      ShowTimesCursor(s, n);
    }
    forall e | 0 <= e < d
      ensures e in LitDuring(s, d)
    {
      ShowReaches(s, e);
    }
  }

  /** Digit `e` is lit after the number of calls of `show()` it takes to get
      there from the current digit, which is at most `numdigits`. */
  lemma ShowReaches(s: Display, e: nat)
    requires Valid(s) && !IsBlank(s) && e < s.cfg.numDigits
    ensures e in LitDuring(s, s.cfg.numDigits)
  {
    var n := AdvanceReaches(s.cursor, e, s.cfg.numDigits);
    ShowTimesAdvance(s, n);
    LitAfter(s, n);
  }

  /** Stepping from `c`, digit `e` is reached within one full turn. */
  lemma AdvanceReaches(c: nat, e: nat, d: nat) returns (n: nat)
    requires c < d && e < d
    ensures 1 <= n <= d && Advance(c, d, n) == e
  {
    n := StepsTo(c, e, d);
    AdvanceMod(c, d, n);
  }

  /** The digit lit after `n` calls, `1 <= n <= numdigits`, is among those lit
      during the cycle. */
  lemma LitAfter(s: Display, n: nat)
    requires Valid(s) && 1 <= n <= s.cfg.numDigits
    ensures ShowTimes(s, n).cursor as int in LitDuring(s, s.cfg.numDigits)
  {
  }

  /** The number of steps, between 1 and `d`, from digit `c` round to digit `e`. */
  lemma StepsTo(c: nat, e: nat, d: nat) returns (n: nat)
    requires c < d && e < d
    ensures 1 <= n <= d && (c + n) % d == e
  {
    SmallMod(e, d);
    if e > c {
      n := e - c;
    } else {
      ModShift(e, d);
      n := e + d - c;
    }
  }

  /** ... and no digit twice. */
  lemma ShowCycleDistinct(s: Display)
    requires Valid(s) && !IsBlank(s)
    ensures forall m, n :: 1 <= m < n <= s.cfg.numDigits ==>
      ShowTimes(s, m).cursor != ShowTimes(s, n).cursor
  {
    forall m, n | 1 <= m < n <= s.cfg.numDigits
      ensures ShowTimes(s, m).cursor != ShowTimes(s, n).cursor
    {
      ShowTwiceDiffer(s, m, n);
    }
  }

  /** Two different numbers of `show()` calls within one cycle end on
      different digits. */
  lemma ShowTwiceDiffer(s: Display, m: nat, n: nat)
    requires Valid(s) && !IsBlank(s) && 1 <= m < n <= s.cfg.numDigits
    ensures ShowTimes(s, m).cursor != ShowTimes(s, n).cursor
  {
    ShowTimesAdvance(s, m);
    ShowTimesAdvance(s, n);
    AdvanceDistinct(s.cursor, s.cfg.numDigits, m, n);
  }

  /** Stepping from `c` fewer than a full turn apart ends on different digits. */
  lemma AdvanceDistinct(c: nat, d: nat, m: nat, n: nat)
    requires c < d && m < n < m + d
    ensures Advance(c, d, m) != Advance(c, d, n)
  {
    AdvanceMod(c, d, m);
    AdvanceMod(c, d, n);
    DistinctResidues(c + m, c + n, d);
  }

  /** Two numbers less than `d` apart differ modulo `d`. */
  lemma DistinctResidues(x: nat, y: nat, d: nat)
    requires 0 < d && x < y < x + d
    ensures x % d != y % d
  {
    var qx: nat, qy: nat := x / d, y / d;
    var px, py := d * qx, d * qy;
    assert x == px + x % d && y == py + y % d;
    if qy <= qx {
      Arith.MulMono(d, qy, qx);
      assert py <= px;
    } else {
      Arith.MulGap(d, qx, qy - qx);
      assert py >= px + d;
    }
  }

  /** Taking the residue before adding one does not change the residue after. */
  lemma NextResidue(x: nat, d: nat)
    requires d > 0
    ensures (x % d + 1) % d == (x + 1) % d
  {
    var q: nat, r: nat := x / d, x % d;
    assert x + 1 == d * q + (r + 1);
    if r + 1 < d {
      Arith.DivModUnique(x + 1, d, q, r + 1);
      SmallMod(r + 1, d);
    } else {
      assert x + 1 == d * (q + 1) + 0;
      Arith.DivModUnique(x + 1, d, q + 1, 0);
      ModShift(0, d);
    }
  }

  lemma SmallMod(x: nat, d: nat)
    requires x < d
    ensures x % d == x
  {
    Arith.DivModUnique(x, d, 0, x);
  }

  /** Adding the modulus does not change the residue. */
  lemma ModShift(x: nat, d: nat)
    requires d > 0
    ensures (x + d) % d == x % d
  {
    assert x == d * (x / d) + x % d;
    assert x + d == d * (x / d + 1) + x % d;
    Arith.DivModUnique(x + d, d, x / d + 1, x % d);
  }

  /** After `setBlank(false)` the display resumes at the leftmost digit,
      whatever digit was lit before blanking, and the next `show()` moves on
      to the second. */
  lemma ResumeAtLeftmost(s: Display)
    requires Valid(s)
    ensures SetBlank(s, false).cursor == 0
    ensures Show(SetBlank(s, false)).cursor == 1 % s.cfg.numDigits
  {
    ShowNext(SetBlank(s, false));
  }
}
