/**
 * `range(start, end?, step = 1)`: the integers from `start` towards `end`
 * (exclusive) in increments of `step`, in either direction.
 */
module Range {
  import opened Wrappers
  import MathUtils

  datatype RangeError = ZeroStep

  /** `CeilDiv` is the unique `q` with `(q - 1) * m < v <= q * m` for a positive `m`. */
  lemma CeilDivUnique(v: int, m: int, q: int)
    requires m > 0 && (q - 1) * m < v <= q * m
    ensures MathUtils.CeilDiv(v, m) == q
  {
    var c := MathUtils.CeilDiv(v, m);
    if c < q {
      MathUtils.MulMonotone(c, q - 1, m);
    } else if c > q {
      MathUtils.MulMonotone(q, c - 1, m);
    }
  }

  /** Taking one step off the distance takes one element off the count. */
  lemma CeilDivShift(v: int, m: int)
    requires m != 0
    ensures MathUtils.CeilDiv(v - m, m) == MathUtils.CeilDiv(v, m) - 1
    decreases if m > 0 then 0 else 1
  {
    if m > 0 {
      var q := MathUtils.CeilDiv(v, m);
      MulSucc(q - 2, m);
      MulSucc(q - 1, m);
      CeilDivUnique(v - m, m, q - 1);
    } else {
      CeilDivShift(-v, -m);
      assert -(v - m) == -v - -m;
    }
  }

  /** No element remains once the start has reached or passed `end`. */
  lemma CeilDivNonPositive(v: int, m: int)
    requires (m > 0 && v <= 0) || (m < 0 && v >= 0)
    ensures MathUtils.CeilDiv(v, m) <= 0
  {
    var q := MathUtils.CeilDiv(v, m);
    if q > 0 {
      if m > 0 {
        MathUtils.MulMonotone(0, q - 1, m);
      } else {
        MathUtils.MulMonotone(0, q - 1, -m);
      }
    }
  }

  /** At least one element remains while the start is short of `end`. */
  lemma CeilDivPositive(v: int, m: int)
    requires (m > 0 && v > 0) || (m < 0 && v < 0)
    ensures MathUtils.CeilDiv(v, m) >= 1
  {
    var q := MathUtils.CeilDiv(v, m);
    if q < 1 {
      if m > 0 {
        MathUtils.MulMonotone(q, 0, m);
      } else {
        MathUtils.MulMonotone(q, 0, -m);
      }
    }
  }

  lemma MulSucc(a: int, b: int)
    ensures (a + 1) * b == a * b + b
  {
  }

  /**
   * The loop of `range` once `step` is known to be non-zero: element `k` is
   * `start + k * step`, every element lies strictly before `end` in the
   * step's direction, and there are `max(0, ceil((end - start) / step))` of them.
   */
  function Progression(start: int, end: int, step: int): (r: seq<int>)
    requires step != 0
    ensures |r| == Max(0, MathUtils.CeilDiv(end - start, step))
    ensures forall k :: 0 <= k < |r| ==> r[k] == start + k * step
    ensures forall k :: 0 <= k < |r| ==> if step > 0 then r[k] < end else r[k] > end
    decreases if step > 0 then end - start else start - end
  {
    if (step > 0 && start < end) || (step < 0 && start > end) then
      var rest := Progression(start + step, end, step);
      CeilDivShift(end - start, step);
      CeilDivPositive(end - start, step);
      assert end - (start + step) == end - start - step;
      PrependStep(start, step, rest);
      [start] + rest
    else
      CeilDivNonPositive(end - start, step);
      []
  }

  /** Putting `start` in front of the progression from `start + step` gives the progression from `start`. */
  lemma PrependStep(start: int, step: int, rest: seq<int>)
    requires forall k :: 0 <= k < |rest| ==> rest[k] == start + step + k * step
    ensures forall k :: 0 <= k < |rest| + 1 ==> ([start] + rest)[k] == start + k * step
  {
    forall k | 1 <= k < |rest| + 1
      ensures ([start] + rest)[k] == start + k * step
    {
      MulSucc(k - 1, step);
    }
  }

  /** The one-argument form `range(n)` counts from 0 to `n`. */
  function Bounds(start: int, end: Option<int>): (int, int) {
    match end
    case None => (0, start)
    case Some(e) => (start, e)
  }

  /**
   * `range(start, end, step)`, with `end` absent for the one-argument form.
   * A zero step throws; the check comes after the one-argument form is
   * normalised, so `range(n)` never throws.
   */
  function Range(start: int, end: Option<int>, step: int): (r: Result<seq<int>, RangeError>)
    ensures r.Failure? <==> step == 0
    ensures r.Failure? ==> r.error == ZeroStep
    ensures r.Success? ==> var (lo, hi) := Bounds(start, end);
      && |r.value| == Max(0, MathUtils.CeilDiv(hi - lo, step))
      && (forall k :: 0 <= k < |r.value| ==> r.value[k] == lo + k * step)
      && (forall k :: 0 <= k < |r.value| ==> if step > 0 then r.value[k] < hi else r.value[k] > hi)
  {
    var (lo, hi) := Bounds(start, end);
    if step == 0 then Failure(ZeroStep) else Success(Progression(lo, hi, step))
  }

  /** `range(n)` is `range(0, n, 1)`. */
  lemma OneArgumentForm(n: int)
    ensures Range(n, None, 1) == Range(0, Some(n), 1)
  {
  }

  /**
   * The result is empty exactly when `start == end` or the step points away
   * from `end`; a non-empty result starts with `start`.
   */
  lemma EmptyIff(start: int, end: int, step: int)
    requires step != 0
    ensures |Progression(start, end, step)| == 0 <==> (step > 0 && start >= end) || (step < 0 && start <= end)
    ensures |Progression(start, end, step)| > 0 ==> Progression(start, end, step)[0] == start
  {
  }

  /** Neighbouring elements differ by exactly `step`: strictly increasing or strictly decreasing. */
  lemma Consecutive(start: int, end: int, step: int, k: nat)
    requires step != 0 && k + 1 < |Progression(start, end, step)|
    ensures Progression(start, end, step)[k + 1] == Progression(start, end, step)[k] + step
  {
    MulSucc(k, step);
  }

  /** Every element is a whole number of steps from `start` and lies between `start` and `end`. */
  lemma ElementsAreSteps(start: int, end: int, step: int, x: int)
    requires step != 0 && x in Progression(start, end, step)
    ensures if step > 0 then start <= x < end else end < x <= start
    ensures (x - start) % step == 0
  {
    var r := Progression(start, end, step);
    var k :| 0 <= k < |r| && r[k] == x;
    assert x - start == k * step;
    MathUtils.MultipleHasNoRemainder(k, step);
    if step > 0 {
      MathUtils.MulMonotone(0, k, step);
    } else {
      MathUtils.MulMonotone(0, k, -step);
    }
  }

  /** A distance `d` that is a whole number `k` of steps, short of the total, gives an index `k` in range. */
  lemma StepIndex(d: int, total: int, step: int) returns (k: int)
    requires step != 0 && d % step == 0
    requires if step > 0 then 0 <= d < total else total < d <= 0
    ensures d == k * step
    ensures 0 <= k < MathUtils.CeilDiv(total, step)
  {
    k := d / step;
    if step > 0 {
      StepIndexBounds(d, total, step, k);
    } else {
      assert -d == k * -step;
      StepIndexBounds(-d, -total, -step, k);
    }
  }

  lemma StepIndexBounds(d: int, total: int, step: int, k: int)
    requires step > 0 && 0 <= d < total && d == k * step
    ensures 0 <= k < MathUtils.CeilDiv(total, step)
  {
    var q := MathUtils.CeilDiv(total, step);
    if k < 0 {
      MathUtils.MulMonotone(k, -1, step);
    }
    if k >= q {
      MathUtils.MulMonotone(q, k, step);
    }
  }

  /** Every value between `start` and `end` a whole number of steps from `start` is an element. */
  lemma StepsAreElements(start: int, end: int, step: int, x: int)
    requires step != 0
    requires if step > 0 then start <= x < end else end < x <= start
    requires (x - start) % step == 0
    ensures x in Progression(start, end, step)
  {
    var k := StepIndex(x - start, end - start, step);
    var r := Progression(start, end, step);
    assert r[k] == x;
  }

  /**
   * The elements, as a set, are exactly the values between `start`
   * (inclusive) and `end` (exclusive) that are a whole number of steps away
   * from `start`.
   */
  lemma Membership(start: int, end: int, step: int, x: int)
    requires step != 0
    ensures x in Progression(start, end, step) <==>
      && (if step > 0 then start <= x < end else end < x <= start)
      && (x - start) % step == 0
  {
    if x in Progression(start, end, step) {
      ElementsAreSteps(start, end, step, x);
    }
    if (if step > 0 then start <= x < end else end < x <= start) && (x - start) % step == 0 {
      StepsAreElements(start, end, step, x);
    }
  }

  /** The examples of the doc comment and every integer call of the unit tests. */
  lemma Examples()
    ensures Range(5, None, 1) == Success([0, 1, 2, 3, 4])
    ensures Range(0, None, 1) == Success([])
    ensures Range(1, Some(6), 1) == Success([1, 2, 3, 4, 5])
    ensures Range(-3, Some(2), 1) == Success([-3, -2, -1, 0, 1])
    ensures Range(0, Some(10), 2) == Success([0, 2, 4, 6, 8])
    ensures Range(1, Some(10), 3) == Success([1, 4, 7])
    ensures Range(5, Some(0), -1) == Success([5, 4, 3, 2, 1])
    ensures Range(10, Some(0), -2) == Success([10, 8, 6, 4, 2])
    ensures Range(5, Some(5), 1) == Success([])
    ensures Range(0, Some(0), 1) == Success([])
    ensures Range(0, Some(10), -1) == Success([])
    ensures Range(10, Some(0), 1) == Success([])
    ensures Range(0, Some(10), 0) == Failure(ZeroStep)
    ensures Range(0, Some(1000), 100).Success?
    ensures var big := Range(0, Some(1000), 100).value;
      |big| == 10 && big[0] == 0 && big[9] == 900
  {
    Literal(0, 5, 1, [0, 1, 2, 3, 4]);
    Literal(0, 0, 1, []);
    Literal(1, 6, 1, [1, 2, 3, 4, 5]);
    Literal(-3, 2, 1, [-3, -2, -1, 0, 1]);
    Literal(0, 10, 2, [0, 2, 4, 6, 8]);
    Literal(1, 10, 3, [1, 4, 7]);
    Literal(5, 0, -1, [5, 4, 3, 2, 1]);
    Literal(10, 0, -2, [10, 8, 6, 4, 2]);
    Literal(5, 5, 1, []);
    Literal(0, 10, -1, []);
    Literal(10, 0, 1, []);
    Literal(0, 1000, 100, [0, 100, 200, 300, 400, 500, 600, 700, 800, 900]);
  }

  lemma Literal(start: int, end: int, step: int, expected: seq<int>)
    requires step != 0
    requires |expected| == Max(0, MathUtils.CeilDiv(end - start, step))
    requires forall k :: 0 <= k < |expected| ==> expected[k] == start + k * step
    ensures Progression(start, end, step) == expected
  {
  }
}
