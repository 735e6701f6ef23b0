/** The moving average of the watermark interval (st_lis2dw12_buffer.c). */
module Ewma {

  const LEVEL := 120
  const DIV := 128

  /** Division by a positive number, truncating toward zero as div_s64 does. */
  function TruncDiv(a: int, b: int): int
    requires b > 0
  {
    if a >= 0 then a / b else -(-a / b)
  }

  function Average(was: int, latest: int): int {
    was + TruncDiv((DIV - LEVEL) * (latest - was), DIV)
  }

  function Distance(a: int, b: int): nat {
    if a >= b then a - b else b - a
  }

  /** One step removes a sixteenth, rounded down, of the distance to the new value and
      never crosses it; it stops moving exactly when the distance is below 16. */
  lemma AverageStep(was: int, latest: int)
    ensures Distance(Average(was, latest), latest) == Distance(was, latest) - Distance(was, latest) / 16
    ensures was <= latest ==> was <= Average(was, latest) <= latest
    ensures latest <= was ==> latest <= Average(was, latest) <= was
    ensures Average(was, latest) == was <==> Distance(was, latest) < 16
  {
    var e := Distance(was, latest);
    assert 8 * e / 128 == e / 16;
  }

  /** n interrupts in a row at a constant gap. */
  function Settle(start: int, gap: int, n: nat): int {
    if n == 0 then start else Average(Settle(start, gap, n - 1), gap)
  }

  function Pow(b: nat, n: nat): nat {
    if n == 0 then 1 else b * Pow(b, n - 1)
  }

  /** Convergence at a constant gap: the distance above 15 shrinks geometrically by
      15/16 at each interrupt, is gone after as many interrupts as it was large, and
      from then on the average stays within 15 ns of the gap. */
  lemma {:induction false} Settles(start: int, gap: int, n: nat)
    ensures Pow(16, n) * (Distance(Settle(start, gap, n), gap) - 15) <= Pow(15, n) * (Distance(start, gap) - 15)
    ensures Distance(Settle(start, gap, n), gap) <= Distance(start, gap)
    ensures n >= Distance(start, gap) ==> Distance(Settle(start, gap, n), gap) < 16
    ensures var d := Distance(Settle(start, gap, n), gap); d < 16 || n + d <= Distance(start, gap)
  {
    if n > 0 {
      Settles(start, gap, n - 1);
      var p := Settle(start, gap, n - 1);
      AverageStep(p, gap);
      var d: int, d': int := Distance(p, gap), Distance(Average(p, gap), gap);
      assert 16 * (d' - 15) <= 15 * (d - 15);
      Contract(Pow(16, n - 1), Pow(15, n - 1), d - 15, d' - 15, Distance(start, gap) - 15);
    }
  }

  lemma Contract(a: nat, b: nat, x: int, y: int, z: int)
    requires 16 * y <= 15 * x
    ensures a * x <= b * z ==> 16 * a * y <= 15 * b * z
  {
    if a * x <= b * z {
      assert a * (16 * y) <= a * (15 * x);
      assert 16 * a * y == a * (16 * y) && a * (15 * x) == 15 * (a * x);
      assert 15 * (a * x) <= 15 * (b * z) == 15 * b * z;
    }
  }
}
