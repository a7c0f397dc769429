/** The seven-segment font of `setNumber` and the bit layout of a digit cell:
    bit 0 is segment "a", bit 6 is segment "g", bit 7 is the decimal point. */
module Glyphs {

  /** The sixteen hexadecimal glyphs, "0" to "F". */
  const Table: seq<bv8> := [
    0x3F, 0x06, 0x5B, 0x4F, 0x66, 0x6D, 0x7D, 0x07,
    0x7F, 0x6F, 0x77, 0x7C, 0x39, 0x5E, 0x79, 0x71
  ]

  /** The decimal-point segment. */
  const PointBit: bv8 := 0x80

  /** The cell bit of each segment, a to g and then the decimal point. */
  const SegmentMask: seq<bv8> := [0x01, 0x02, 0x04, 0x08, 0x10, 0x20, 0x40, 0x80]

  /** Segment `k` of cell `b` is lit. */
  predicate Bit(b: bv8, k: nat)
    requires k < 8
  {
    b & SegmentMask[k] != 0
  }

  /** Shifting a cell right by one moves segment `k + 1` to segment `k`. */
  lemma BitShift(b: bv8)
    ensures Bit(b, 0) == (b & 1 == 1)
    ensures forall k :: 0 < k < 8 ==> Bit(b >> 1, k - 1) == Bit(b, k)
  {
  }

  /** The glyph of hexadecimal digit `d`. */
  function Glyph(d: nat): bv8
    requires d < |Table|
  {
    Table[d]
  }

  /** The cell bits a decimal-point flag contributes. */
  function Point(dp: bool): bv8
  {
    if dp then PointBit else 0
  }

  predicate HasPoint(b: bv8)
  {
    b & PointBit != 0
  }

  /** The digit a reader sees in cell `b`, ignoring the decimal point; a cell
      that shows no glyph of the table (a blank one, say) reads as 0. */
  function DigitOf(b: bv8): nat
  {
    Lookup(b & 0x7F, 0)
  }

  /** Least `d >= from` with `Table[d] == g`, or 0 when there is none. */
  function Lookup(g: bv8, from: nat): (d: nat)
    requires from <= |Table|
    ensures d < |Table|
    ensures Table[d] == g || d == 0
    decreases |Table| - from
  {
    if from == |Table| then 0
    else if Table[from] == g then from
    else Lookup(g, from + 1)
  }

  /** Every glyph lights at least one segment, never the decimal point, and no
      two digits share a glyph. */
  lemma GlyphsWellFormed()
    ensures |Table| == 16
    ensures forall d :: 0 <= d < |Table| ==> Table[d] != 0 && Table[d] & PointBit == 0
    ensures forall d, e :: 0 <= d < e < |Table| ==> Table[d] != Table[e]
  {
  }

  /** A lookup that starts at or before the digit whose glyph it seeks finds
      that digit. */
  lemma {:induction false} LookupFinds(d: nat, from: nat)
    requires from <= d < |Table|
    ensures Lookup(Table[d], from) == d
    decreases d - from
  {
    GlyphsWellFormed();
    if from < d {
      assert Table[from] != Table[d];
      LookupFinds(d, from + 1);
    }
  }

  /** A cell written as glyph `d` plus a decimal-point flag reads back as `d`
      and shows the decimal point exactly when the flag was set. */
  lemma GlyphReadsBack(d: nat, dp: bool)
    requires d < |Table|
    ensures DigitOf(Glyph(d) | Point(dp)) == d
    ensures HasPoint(Glyph(d) | Point(dp)) == dp
    ensures Glyph(d) | Point(dp) != 0
  {
    GlyphsWellFormed();
    var g := Table[d];
    assert g & 0x80 == 0;
    assert (g | Point(dp)) & 0x7F == g by {
      assert g & 0x80 == 0;
    }
    LookupFinds(d, 0);
  }

  /** An all-dark cell reads as digit 0 with no decimal point. */
  lemma BlankReadsZero()
    ensures DigitOf(0) == 0 && !HasPoint(0)
  {
    GlyphsWellFormed();
    var d := Lookup(0, 0);
    assert Table[d] == 0 || d == 0;
  }

  /** "0" lights segments a to f and leaves g dark; "A" is "8" without d. */
  lemma ZeroAndAGlyphs()
    ensures forall k :: 0 <= k < 7 ==> (Bit(Glyph(0), k) <==> k != 6)
    ensures forall k :: 0 <= k < 7 ==> (Bit(Glyph(10), k) <==> k != 3)
  {
  }
}
