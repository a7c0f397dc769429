/** `setValue<radix>(value, leadingzero, dppos)`: spell a number across the
    whole display, most significant digit leftmost. */
module Format {
  import opened Glyphs
  import opened Arith
  import opened Display7Seg

  /** What `setValue` leaves in cell `i` of an `n`-digit display. The digit
      there is `value / radix^(n-1-i) mod radix`. The cell stays dark when
      everything from that position leftwards is zero, no leading zeros were
      asked for, the position is left of the decimal point and it is not the
      rightmost position; otherwise it holds the glyph, with the decimal point
      exactly at position `dpPos`. */
  function FormattedCell(radix: nat, n: nat, value: nat, leadingZero: bool, dpPos: nat, i: nat): bv8
    requires 2 <= radix <= 16 && i < n
  {
    var q := value / Pow(radix, n - 1 - i);
    if q == 0 && !leadingZero && i < dpPos && i != n - 1 then 0
    else Glyph(q % radix) | Point(i == dpPos)
  }

  /** The state `setValue` leaves: every cell formatted, nothing else changed. */
  function Formatted(s: Display, radix: nat, value: nat, leadingZero: bool, dpPos: nat): Display
    requires Valid(s) && 2 <= radix <= 16
  {
    var n := s.cfg.numDigits;
    s.(buffer := seq(n, i requires 0 <= i < n => FormattedCell(radix, n, value, leadingZero, dpPos, i)))
  }

  /** The number a reader sees on the display in `radix`: each cell read as
      its digit (a dark cell as 0), most significant leftmost. */
  function Reading(s: Display, radix: nat): nat
  {
    Numeral(Shown(s), radix)
  }

  /** The digit each cell reads as, leftmost first. */
  function Shown(s: Display): (ds: seq<nat>)
    ensures |ds| == |s.buffer|
    ensures forall i :: 0 <= i < |s.buffer| ==> ds[i] == DigitOf(s.buffer[i])
  {
    seq(|s.buffer|, i requires 0 <= i < |s.buffer| => DigitOf(s.buffer[i]))
  }

  /** `r` is `s` with every cell from position `i` rightwards formatted. */
  ghost predicate FilledFrom(s: Display, r: Display, radix: nat, value: nat, leadingZero: bool,
                             dpPos: nat, i: nat)
    requires Valid(s) && 2 <= radix <= 16
  {
    && Valid(r) && r == s.(buffer := r.buffer) && i <= s.cfg.numDigits
    && forall j :: i <= j < s.cfg.numDigits ==>
         r.buffer[j] == FormattedCell(radix, s.cfg.numDigits, value, leadingZero, dpPos, j)
  }

  /** `setValue`, as the loop the code runs: from the rightmost position
      leftwards, take the lowest digit of what remains, write it (or a dark
      cell), and divide it off. Reports whether nothing was left over. */
  method SetValue(s: Display, radix: nat, value: nat, leadingZero: bool, dpPos: nat)
    returns (r: Display, fits: bool)
    requires Valid(s) && 2 <= radix <= 16
    ensures r == Formatted(s, radix, value, leadingZero, dpPos)
    ensures r.cursor == s.cursor && r.trace == s.trace
    ensures fits <==> value < Pow(radix, s.cfg.numDigits)
    ensures Reading(r, radix) == value % Pow(radix, s.cfg.numDigits)
  {
    var n := s.cfg.numDigits;
    r := s;
    var rest: nat := value;
    var i: nat := n;
    while i > 0
      invariant i <= n
      invariant FilledFrom(s, r, radix, value, leadingZero, dpPos, i)
      invariant rest == value / Pow(radix, n - i)
    {
      i := i - 1;
      r, rest := FormatPosition(s, r, radix, rest, leadingZero, dpPos, i, value);
    }
    fits := rest == 0;
    assert fits <==> value < Pow(radix, n) by {
      DivIsZero(value, Pow(radix, n));
    }
    FormattedByCells(s, r, radix, value, leadingZero, dpPos);
    FormattedReadsBack(s, radix, value, leadingZero, dpPos);
  }

  /** A display whose every cell holds its formatted contents, and which
      differs from `s` in nothing else, is the formatted display. */
  lemma FormattedByCells(s: Display, r: Display, radix: nat, value: nat, leadingZero: bool, dpPos: nat)
    requires Valid(s) && 2 <= radix <= 16
    requires r == s.(buffer := r.buffer) && |r.buffer| == s.cfg.numDigits
    requires forall j :: 0 <= j < s.cfg.numDigits ==>
      r.buffer[j] == FormattedCell(radix, s.cfg.numDigits, value, leadingZero, dpPos, j)
    ensures r == Formatted(s, radix, value, leadingZero, dpPos)
  {
    assert r.buffer == Formatted(s, radix, value, leadingZero, dpPos).buffer;
  }

  lemma ZeroHasNoDigits(x: nat, radix: nat)
    requires radix > 0
    ensures x == 0 ==> x % radix == 0
  {
  }

  /** One pass of the loop body of `setValue`: write position `i` from the
      value `rest` that remains once the positions to its right are divided
      off, and divide one more digit off. It writes no pins and moves no
      cursor. */
  method FormatPosition(ghost s: Display, r: Display, radix: nat, rest: nat, leadingZero: bool,
                        dpPos: nat, i: nat, ghost value: nat) returns (r': Display, rest': nat)
    requires Valid(s) && 2 <= radix <= 16 && i < s.cfg.numDigits
    requires FilledFrom(s, r, radix, value, leadingZero, dpPos, i + 1)
    requires rest == value / Pow(radix, s.cfg.numDigits - 1 - i)
    ensures FilledFrom(s, r', radix, value, leadingZero, dpPos, i)
    ensures rest' == value / Pow(radix, s.cfg.numDigits - i)
  {
    r' := WritePosition(r, radix, rest, leadingZero, dpPos, i);
    FormattedFromRest(radix, s.cfg.numDigits, value, leadingZero, dpPos, i, rest);
    FilledFromStep(s, r, r', radix, value, leadingZero, dpPos, i);
    rest' := Quotient(rest, radix);
    NextRest(value, radix, s.cfg.numDigits, i, rest);
  }

  /** The statements of the loop body of `setValue` that write position `i`:
      `setNumber` with the lowest digit of `rest` unless the cell is to stay
      dark, and then `setSegments` with the point alone, both without showing. */
  method WritePosition(r: Display, radix: nat, rest: nat, leadingZero: bool, dpPos: nat, i: nat)
    returns (r': Display)
    requires Valid(r) && 2 <= radix <= 16 && i < r.cfg.numDigits
    ensures r' == r.(buffer := r.buffer[i := RestCell(radix, r.cfg.numDigits, rest, leadingZero, dpPos, i)])
  {
    var n := r.cfg.numDigits;
    var v: nat := rest % radix;
    ZeroHasNoDigits(rest, radix);
    if v != 0 || rest != 0 || leadingZero || i >= dpPos || i == n - 1 {
      r' := SetNumber(r, i, v, dpPos == i, false);
    } else {
      r' := SetSegments(r, i, if dpPos == i then PointBit else 0, false);
    }
  }

  /** The cell written at position `i` when `rest` remains: dark when nothing
      remains, no leading zeros were asked for, the position is left of the
      point and not the rightmost; otherwise the glyph of the lowest digit of
      `rest`, with the point exactly at `dpPos`. */
  function RestCell(radix: nat, n: nat, rest: nat, leadingZero: bool, dpPos: nat, i: nat): bv8
    requires 2 <= radix <= 16
  {
    if rest == 0 && !leadingZero && i < dpPos && i != n - 1 then 0
    else Glyph(rest % radix) | Point(i == dpPos)
  }

  /** What remains for the next position: `x / d`, as a natural number. */
  function Quotient(x: nat, d: nat): nat
    requires d > 0
  {
    x / d
  }

  /** Cell `i` is formatted from the value `rest` left once the positions to
      its right are divided off. */
  lemma FormattedFromRest(radix: nat, n: nat, value: nat, leadingZero: bool, dpPos: nat, i: nat, rest: nat)
    requires 2 <= radix <= 16 && i < n
    requires rest == value / Pow(radix, n - 1 - i)
    ensures FormattedCell(radix, n, value, leadingZero, dpPos, i) == RestCell(radix, n, rest, leadingZero, dpPos, i)
  {
  }

  /** Writing the formatted cell `i` into a display formatted from `i + 1`
      rightwards gives one formatted from `i`. */
  lemma FilledFromStep(s: Display, r: Display, r': Display, radix: nat, value: nat,
                       leadingZero: bool, dpPos: nat, i: nat)
    requires Valid(s) && 2 <= radix <= 16 && i < s.cfg.numDigits
    requires FilledFrom(s, r, radix, value, leadingZero, dpPos, i + 1)
    requires r' == r.(buffer := r.buffer[i := FormattedCell(radix, s.cfg.numDigits, value, leadingZero, dpPos, i)])
    ensures FilledFrom(s, r', radix, value, leadingZero, dpPos, i)
  {
  }

  /** Dividing one digit off what remains for position `i` leaves what remains
      for position `i - 1`. */
  lemma NextRest(value: nat, radix: nat, n: nat, i: nat, rest: nat)
    requires 2 <= radix && i < n
    requires rest == value / Pow(radix, n - 1 - i)
    ensures Quotient(rest, radix) == value / Pow(radix, n - i)
  {
    var p := Pow(radix, n - 1 - i);
    DivDiv(value, p, radix);
    assert Pow(radix, n - i) == radix * p;
    assert p * radix == radix * p;
  }

  /** A cell is dark exactly when the suppression rule applies; every other
      cell holds a glyph. */
  lemma FormattedDarkIff(radix: nat, n: nat, value: nat, leadingZero: bool, dpPos: nat, i: nat)
    requires 2 <= radix <= 16 && i < n
    ensures FormattedCell(radix, n, value, leadingZero, dpPos, i) == 0 <==>
      (value / Pow(radix, n - 1 - i) == 0 && !leadingZero && i < dpPos && i != n - 1)
  {
    var q := value / Pow(radix, n - 1 - i);
    GlyphReadsBack(q % radix, i == dpPos);
  }

  /** The decimal point is lit at position `dpPos` and nowhere else. */
  lemma FormattedPointIff(radix: nat, n: nat, value: nat, leadingZero: bool, dpPos: nat, i: nat)
    requires 2 <= radix <= 16 && i < n
    ensures HasPoint(FormattedCell(radix, n, value, leadingZero, dpPos, i)) <==> i == dpPos
  {
    var q := value / Pow(radix, n - 1 - i);
    GlyphReadsBack(q % radix, i == dpPos);
    BlankReadsZero();
  }

  /** Each cell reads as the digit of `value` at its position. */
  lemma FormattedCellDigit(radix: nat, n: nat, value: nat, leadingZero: bool, dpPos: nat, i: nat)
    requires 2 <= radix <= 16 && i < n
    ensures DigitOf(FormattedCell(radix, n, value, leadingZero, dpPos, i)) == Digits(value, radix, n)[i]
  {
    var q := value / Pow(radix, n - 1 - i);
    var d := q % radix;
    var c := FormattedCell(radix, n, value, leadingZero, dpPos, i);
    assert Digits(value, radix, n)[i] == d;
    if q == 0 && !leadingZero && i < dpPos && i != n - 1 {
      ZeroHasNoDigits(q, radix);
      assert c == 0;
      BlankReadsZero();
    } else {
      assert c == Glyph(d) | Point(i == dpPos);
      GlyphReadsBack(d, i == dpPos);
    }
  }

  /** The formatted display reads back as `value mod radix^numdigits`: the
      digits that did not fit are lost, the rest are shown in place. */
  lemma FormattedReadsBack(s: Display, radix: nat, value: nat, leadingZero: bool, dpPos: nat)
    requires Valid(s) && 2 <= radix <= 16
    ensures Reading(Formatted(s, radix, value, leadingZero, dpPos), radix)
         == value % Pow(radix, s.cfg.numDigits)
  {
    var n := s.cfg.numDigits;
    var r := Formatted(s, radix, value, leadingZero, dpPos);
    var shown := Shown(r);
    forall i | 0 <= i < n
      ensures shown[i] == Digits(value, radix, n)[i]
    {
      FormattedCellDigit(radix, n, value, leadingZero, dpPos, i);
    }
    assert shown == Digits(value, radix, n);
    NumeralOfDigits(value, radix, n);
  }

  /** On four digits in radix 10, 0 shows as three dark cells and "0". */
  lemma FormattedZeroExample()
    ensures seq(4, i requires 0 <= i < 4 => FormattedCell(10, 4, 0, false, 4, i))
         == [0, 0, 0, Glyph(0)]
  {
  }

  /** 1234 fills all four cells. */
  lemma FormattedFullExample()
    ensures seq(4, i requires 0 <= i < 4 => FormattedCell(10, 4, 1234, false, 4, i))
         == [Glyph(1), Glyph(2), Glyph(3), Glyph(4)]
  {
    assert Pow(10, 1) == 10 && Pow(10, 2) == 100 && Pow(10, 3) == 1000;
  }

  /** 12 with the point at position 2 shows two dark cells, "1." and "2". */
  lemma FormattedPointExample()
    ensures seq(4, i requires 0 <= i < 4 => FormattedCell(10, 4, 12, false, 2, i))
         == [0, 0, Glyph(1) | PointBit, Glyph(2)]
  {
    assert Pow(10, 1) == 10 && Pow(10, 2) == 100 && Pow(10, 3) == 1000;
  }
}
