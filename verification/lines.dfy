/** Output lines as the driver sees them: pin numbers, the calls it makes into
    the pin layer, and the level each line is left at by a sequence of calls.

    The driver never reads a line back; the only thing it does to the hardware
    is `pinMode(pin, OUTPUT)` and `digitalWrite(pin, level)`. Both are recorded
    as events in a trace, in the order they are made, so the order of writes
    (the point of the anti-ghosting design) can be stated directly. */
module Lines {

  /** An Arduino pin number, and the width of the digit cursor: both are `byte`. */
  type Byte = x: int | 0 <= x < 256

  datatype Option<+T> = None | Some(value: T)

  /** One call into the pin layer. */
  datatype Event =
    | SetOutput(pin: Byte)              // pinMode(pin, OUTPUT)
    | Write(pin: Byte, high: bool)      // digitalWrite(pin, high)

  /** The level line `p` was last driven to by `trace`, or None when the trace
      never writes it. */
  function LevelOf(trace: seq<Event>, p: Byte): Option<bool>
  {
    if |trace| == 0 then None
    else
      var e := trace[|trace| - 1];
      if e.Write? && e.pin == p then Some(e.high) else LevelOf(trace[..|trace| - 1], p)
  }

  /** Element `k` of the middle part of a three-part trace. */
  lemma MiddleAt(a: seq<Event>, b: seq<Event>, c: seq<Event>, k: nat)
    requires k < |b|
    ensures |a + b + c| > |a| + k && (a + b + c)[|a| + k] == b[k]
  {
  }

  /** A trace extended by three runs of events starts with the old trace and
      continues with the three runs, in order. */
  lemma Split3(a: seq<Event>, x: seq<Event>, y: seq<Event>, z: seq<Event>)
    ensures |a + x + y + z| == |a| + |x + y + z|
    ensures (a + x + y + z)[..|a|] == a
    ensures (a + x + y + z)[|a|..] == x + y + z
  {
    var t := a + x + y + z;
    assert t == a + (x + y + z) by {
      assert a + x + y == a + (x + y);
      assert a + (x + y) + z == a + (x + y + z);
    }
    assert t[..|a|] == a;
    assert t[|a|..] == x + y + z;
  }

  /** Events that never mention `p` leave its level as it was. */
  lemma {:induction false} LevelUntouched(a: seq<Event>, b: seq<Event>, p: Byte)
    requires forall k :: 0 <= k < |b| ==> b[k].pin != p
    ensures LevelOf(a + b, p) == LevelOf(a, p)
    decreases |b|
  {
    if |b| == 0 {
      assert a + b == a;
    } else {
      var b' := b[..|b| - 1];
      assert (a + b)[..|a + b| - 1] == a + b';
      assert (a + b)[|a + b| - 1] == b[|b| - 1];
      LevelUntouched(a, b', p);
    }
  }

  /** When the last event of `b` that mentions `p` is a write, that write
      decides the level of `p`, whatever came before. */
  lemma {:induction false} LevelLastWrite(a: seq<Event>, b: seq<Event>, p: Byte, i: nat)
    requires i < |b| && b[i].Write? && b[i].pin == p
    requires forall k :: i < k < |b| ==> b[k].pin != p
    ensures LevelOf(a + b, p) == Some(b[i].high)
    decreases |b|
  {
    var b' := b[..|b| - 1];
    assert (a + b)[..|a + b| - 1] == a + b';
    assert (a + b)[|a + b| - 1] == b[|b| - 1];
    if i < |b| - 1 {
      LevelLastWrite(a, b', p, i);
    }
  }
}
