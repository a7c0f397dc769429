/** Direct access to the segment buffer: `operator[]`, `setSegments` and
    `setNumber`, and what reading a cell back after writing it gives. */
module Access {
  import opened Lines
  import opened Glyphs
  import opened Display7Seg

  /** Writing `display[i] = b` and reading `display[i]` gives `b` back, in range
      or not (out of range both go to the scratch cell). */
  lemma PutThenGet(s: Display, i: nat, b: bv8)
    requires Valid(s)
    ensures Get(Put(s, i, b), i) == b
  {
  }

  /** A write to `display[i]` is invisible through any other in-range index,
      and an out-of-range write changes no cell at all. */
  lemma PutLeavesOthers(s: Display, i: nat, j: nat, b: bv8)
    requires Valid(s) && i != j && j < s.cfg.numDigits
    ensures Get(Put(s, i, b), j) == Get(s, j)
  {
  }

  /** Every out-of-range index names the same scratch cell: a write through one
      is read back through any other. */
  lemma OutOfRangeIndicesAlias(s: Display, i: nat, j: nat, b: bv8)
    requires Valid(s) && i >= s.cfg.numDigits && j >= s.cfg.numDigits
    ensures Get(Put(s, i, b), j) == b
    ensures Put(s, i, b).buffer == s.buffer
  {
  }

  /** `setSegments(i, b)` followed by reading `display[i]` gives `b` back for an
      in-range `i`, shown or not. */
  lemma SetSegmentsThenGet(s: Display, i: nat, b: bv8, show: bool)
    requires Valid(s) && i < s.cfg.numDigits
    ensures Get(SetSegments(s, i, b, show), i) == b
  {
  }

  /** `setSegments` through an in-range index is a raw write through
      `operator[]`, and through an out-of-range one it is nothing at all,
      where `operator[]` would still fill the scratch cell. */
  lemma SetSegmentsIsPut(s: Display, i: nat, b: bv8)
    requires Valid(s)
    ensures i < s.cfg.numDigits ==> SetSegments(s, i, b, false) == Put(s, i, b)
    ensures i >= s.cfg.numDigits ==> SetSegments(s, i, b, false) == s
  {
  }

  /** `setNumber(i, num, dp)` then reading `display[i]` gives a cell that reads
      as digit `num`, with the decimal point exactly when `dp`. */
  lemma SetNumberThenGet(s: Display, i: nat, num: Byte, dp: bool, show: bool)
    requires Valid(s) && i < s.cfg.numDigits && num < 16
    ensures DigitOf(Get(SetNumber(s, i, num, dp, show), i)) == num
    ensures HasPoint(Get(SetNumber(s, i, num, dp, show), i)) == dp
  {
  }

  /** The range test of `setNumber` admits `num == 16`, one past the last
      entry of the sixteen-glyph table, for every in-range index. */
  lemma NumberGuardAdmitsSixteen(s: Display, i: nat)
    requires Valid(s) && i < s.cfg.numDigits
    ensures NumberGuard(s, i, 16) && !(16 < |Table|)
  {
  }

  /** With the intended range test, `setNumber` agrees with the code as
      written on every input the code handles, and is a no-op for `num == 16`. */
  lemma SetNumberCheckedAgrees(s: Display, i: nat, num: Byte, dp: bool, show: bool)
    requires Valid(s)
    ensures NumberGuard(s, i, num) && num != 16 ==>
      SetNumberChecked(s, i, num, dp, show) == SetNumber(s, i, num, dp, show)
    ensures !NumberGuard(s, i, num) ==> SetNumberChecked(s, i, num, dp, show) == s
    ensures num == 16 ==> SetNumberChecked(s, i, num, dp, show) == s
  {
  }
}
