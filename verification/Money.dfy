/** Swiss francs: unrounded amounts are `real`, rounded amounts are whole cents (`int`). */
module Money {

  function Chf(cents: int): real {
    cents as real / 100.0
  }

  function Abs(x: real): real {
    if x < 0.0 then -x else x
  }

  /** Half a cent, the largest error of one rounding. */
  const HALF_CENT: real := 0.005

  /** Rounds to whole cents; ties go away from zero (ROUND_HALF_UP). The contract
      is the defining property of that mode; `QuantiseUnique` shows nothing else has it. */
  function Quantise(x: real): (cents: int)
    ensures IsNearestCent(x, cents)
  {
    if x >= 0.0 then (x * 100.0 + 0.5).Floor else -(-x * 100.0 + 0.5).Floor
  }

  /** `cents` is within half a cent of `x`, and a tie lies on the far side from zero. */
  predicate IsNearestCent(x: real, cents: int) {
    && Abs(Chf(cents) - x) <= HALF_CENT
    && (Abs(Chf(cents) - x) == HALF_CENT ==> Abs(Chf(cents)) > Abs(x))
  }

  lemma QuantiseUnique(x: real, cents: int)
    requires IsNearestCent(x, cents)
    ensures cents == Quantise(x)
  {
    var q := Quantise(x);
    assert Chf(cents) - Chf(q) <= 0.01 && Chf(q) - Chf(cents) <= 0.01;
    assert cents <= q + 1 && q <= cents + 1;
  }

  lemma QuantiseExact(cents: int)
    ensures Quantise(Chf(cents)) == cents
  {
    QuantiseUnique(Chf(cents), cents);
  }

  lemma QuantiseMonotone(x: real, y: real)
    requires x <= y
    ensures Quantise(x) <= Quantise(y)
  {
    var cx, cy := Quantise(x), Quantise(y);
    assert Chf(cx) - Chf(cy) <= 0.01 && cx <= cy + 1;
  }

  /** What rounding does to the sign: it never makes an amount negative, and it hides
      a negative amount exactly when the amount is within half a cent of zero. */
  lemma QuantiseSign(x: real)
    ensures Quantise(x) < 0 ==> x < 0.0
    ensures x < 0.0 && Quantise(x) >= 0 <==> -HALF_CENT < x < 0.0
    ensures x >= 0.0 ==> Quantise(x) >= 0
  {
    if -HALF_CENT < x < 0.0 {
      QuantiseUnique(x, 0);
    } else if x <= -HALF_CENT {
      QuantiseUnique(-HALF_CENT, -1);
      QuantiseMonotone(x, -HALF_CENT);
    }
  }

  /** `share` parts of `whole` of an amount. */
  function Part(amount: real, share: int, whole: real): real
    requires whole != 0.0
  {
    amount * (share as real / whole)
  }

  lemma PartAdds(amount: real, j: int, k: int, whole: real)
    requires whole != 0.0
    ensures Part(amount, j + k, whole) == Part(amount, j, whole) + Part(amount, k, whole)
  {
    var a, b := j as real / whole, k as real / whole;
    assert (j + k) as real / whole == a + b;
    assert amount * (a + b) == amount * a + amount * b;
  }

  lemma PartOfNothing(amount: real, share: int, whole: real)
    requires whole != 0.0
    ensures Part(0.0, share, whole) == 0.0 && Part(amount, 0, whole) == 0.0
  {
    assert 0 as real / whole == 0.0;
  }

  /** All thousand parts are the amount, and no other number of parts is unless the amount is nil. */
  lemma PartIsWhole(amount: real, share: int)
    ensures Part(amount, share, 1000.0) == amount <==> amount == 0.0 || share == 1000
  {
    var s := share as real / 1000.0;
    assert amount != 0.0 && amount * s == amount ==> s == 1.0;
  }

  lemma PartOfItself(amount: real, share: int)
    requires share != 0
    ensures Part(amount, share, share as real) == amount
  {
    assert share as real / share as real == 1.0;
  }

  /** Taking t thousandths and then s parts of t is taking s thousandths. */
  lemma Redistribute(amount: real, t: int, s: int)
    requires t != 0
    ensures Part(Part(amount, t, 1000.0), s, t as real) == Part(amount, s, 1000.0)
  {
    var x, y := t as real, s as real;
    assert (x / 1000.0) * (y / x) == y / 1000.0;
    assert amount * (x / 1000.0) * (y / x) == amount * ((x / 1000.0) * (y / x));
  }

  lemma PartScales(amount: real, share: int, factor: real)
    ensures Part(amount, share, 1000.0) * factor == Part(amount * factor, share, 1000.0)
  {
    var k := share as real / 1000.0;
    assert amount * k * factor == amount * factor * k;
  }

  /** Cents times a pro-rating factor, unrounded. */
  function Scaled(cents: int, factor: real): real {
    Chf(cents) * factor
  }

  lemma ScaledSum(a: int, b: int, factor: real)
    ensures Scaled(a + b, factor) == Scaled(a, factor) + Scaled(b, factor)
    ensures Scaled(0, factor) == 0.0 && Scaled(a, 1.0) == Chf(a)
  {
    assert Chf(a + b) == Chf(a) + Chf(b);
  }
}
