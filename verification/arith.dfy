/** Positional notation: powers, the digits of a number in a radix, and the
    number a row of digits denotes. */
module Arith {

  function Pow(b: nat, e: nat): (r: nat)
    ensures b > 0 ==> r > 0
  {
    if e == 0 then 1 else b * Pow(b, e - 1)
  }

  /** Quotient and remainder are determined by the division identity. */
  lemma DivModUnique(x: nat, m: nat, q: nat, r: nat)
    requires m > 0 && r < m && x == m * q + r
    ensures x / m == q && x % m == r
  {
    var q0: nat, r0: nat := x / m, x % m;
    if q0 < q {
      MulGap(m, q0, q - q0);
    } else if q0 > q {
      MulGap(m, q, q0 - q);
    }
  }

  /** Raising a multiplier by `d >= 1` raises the product by at least `m`. */
  lemma MulGap(m: nat, a: nat, d: nat)
    requires d >= 1
    ensures m * (a + d) >= m * a + m
  {
    assert m * (a + d) == m * a + m * d;
    assert m * d >= m * 1;
  }

  /** Multiplying by `m` keeps the order of the multipliers. */
  lemma MulMono(m: nat, a: nat, b: nat)
    requires a <= b
    ensures m * a <= m * b
  {
    if a < b {
      MulGap(m, a, b - a);
    }
  }

  lemma MulDistrib(a: nat, b: nat, q: nat, r: nat)
    ensures a * (b * q + r) == (a * b) * q + a * r
  {
  }

  /** `a * r + s` stays below `a * b` when `r < b` and `s < a`. */
  lemma MulBound(a: nat, b: nat, r: nat, s: nat)
    requires r < b && s < a
    ensures a * r + s < a * b
  {
    assert a * r <= a * (b - 1);
  }

  /** Dividing twice is dividing by the product. */
  lemma DivDiv(x: nat, a: nat, b: nat)
    requires a > 0 && b > 0
    ensures x / a / b == x / (a * b)
  {
    var q1: nat, r0: nat := x / a, x % a;
    var q: nat, r: nat := q1 / b, q1 % b;
    assert x == a * q1 + r0;
    assert q1 == b * q + r;
    MulDistrib(a, b, q, r);
    MulBound(a, b, r, r0);
    DivModUnique(x, a * b, q, a * r + r0);
  }

  /** `x` has no digit at or above the one worth `m` exactly when it is below `m`. */
  lemma DivIsZero(x: nat, m: nat)
    requires m > 0
    ensures x / m == 0 <==> x < m
  {
    if x < m {
      DivModUnique(x, m, 0, x);
    }
  }

  /** The lowest `k + 1` digits of `v` are its lowest digit below the lowest
      `k` digits of `v / r`. */
  lemma ModStep(v: nat, r: nat, k: nat)
    requires r >= 2
    ensures (v / r) % Pow(r, k) * r + v % r == v % Pow(r, k + 1)
  {
    var m := Pow(r, k);
    var q1: nat, c: nat := v / r, v % r;
    var a: nat, bb: nat := q1 / m, q1 % m;
    assert v == r * q1 + c;
    assert q1 == m * a + bb;
    MulDistrib(r, m, a, bb);
    MulBound(r, m, bb, c);
    assert Pow(r, k + 1) == r * m;
    DivModUnique(v, r * m, a, r * bb + c);
    assert bb * r == r * bb;
  }

  /** The number a row of digits denotes, most significant first. */
  function Numeral(ds: seq<nat>, radix: nat): nat
  {
    if |ds| == 0 then 0 else Numeral(ds[..|ds| - 1], radix) * radix + ds[|ds| - 1]
  }

  /** The lowest `k` digits of `v` in `radix`, most significant first. */
  function Digits(v: nat, radix: nat, k: nat): seq<nat>
    requires radix >= 2
  {
    seq(k, j requires 0 <= j < k => (v / Pow(radix, k - 1 - j)) % radix)
  }

  /** Reading the lowest `k` digits of `v` back gives `v mod radix^k`. */
  lemma {:induction false} NumeralOfDigits(v: nat, radix: nat, k: nat)
    requires radix >= 2
    ensures Numeral(Digits(v, radix, k), radix) == v % Pow(radix, k)
    decreases k
  {
    var ds := Digits(v, radix, k);
    if k > 0 {
      var low := Digits(v / radix, radix, k - 1);
      forall j | 0 <= j < k - 1
        ensures ds[j] == low[j]
      {
        var p := Pow(radix, k - 2 - j);
        assert Pow(radix, k - 1 - j) == radix * p;
        DivDiv(v, radix, p);
      }
      assert ds[..k - 1] == low;
      assert Pow(radix, k - 1 - (k - 1)) == 1;
      assert ds[k - 1] == v % radix;
      NumeralOfDigits(v / radix, radix, k - 1);
      ModStep(v, radix, k - 1);
    }
  }
}
