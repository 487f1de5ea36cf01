/** Shared numeric vocabulary: the error-carrying result type, C's integer
    conversions of `double`, the linear ramp that both the fine-grid resampler
    and the energy interpolator use, and sums over sequences of reals.
    Floating point is modelled by exact `real` arithmetic throughout. */
module Numerics {

  /** Success with a value, or failure with a reason. */
  datatype Result<+T, +E> = Ok(value: T) | Err(error: E) {
    predicate IsFailure() { Err? }
    function PropagateFailure<U>(): Result<U, E>
      requires Err?
    {
      Err(error)
    }
    function Extract(): T
      requires Ok?
    {
      value
    }
  }

  datatype Option<+T> = None | Some(value: T)

  /** C's conversion of a floating value to `int`: truncation toward zero. */
  function Trunc(x: real): (k: int)
    ensures x >= 0.0 ==> 0 <= k && k as real <= x < k as real + 1.0
    ensures x < 0.0 ==> k <= 0 && k as real - 1.0 < x <= k as real
  {
    if x >= 0.0 then x.Floor else -((-x).Floor)
  }

  /** C's `round`: nearest integer, halves rounded away from zero. */
  function RoundHalfAway(x: real): (k: int)
    ensures x >= 0.0 ==> 0 <= k && x - 0.5 < k as real <= x + 0.5
    ensures x < 0.0 ==> k <= 0 && x - 0.5 <= k as real < x + 0.5
  {
    if x >= 0.0 then (x + 0.5).Floor else -((-x + 0.5).Floor)
  }

  /** The value reached after `m` of `steps` equal steps from `lo` towards `hi`
      (diff2poly.C and interpolate.C write it `lo + m * (hi - lo) / steps`). */
  function Ramp(lo: real, hi: real, m: int, steps: int): (r: real)
    requires steps > 0
    ensures m == 0 ==> r == lo
    ensures m == steps ==> r == hi
    ensures 0 <= m <= steps && lo <= hi ==> lo <= r <= hi
    ensures 0 <= m <= steps && hi <= lo ==> hi <= r <= lo
  {
    var t := m as real / steps as real;
    RampIsAffine(lo, hi, m, steps, t);
    lo + m as real * (hi - lo) / steps as real
  }

  lemma RampIsAffine(lo: real, hi: real, m: int, steps: int, t: real)
    requires steps > 0
    requires t == m as real / steps as real
    ensures lo + m as real * (hi - lo) / steps as real == lo + t * (hi - lo)
    ensures 0 <= m <= steps ==> 0.0 <= t <= 1.0
  {
    assert m as real * (hi - lo) / steps as real == (m as real / steps as real) * (hi - lo);
    if 0 <= m <= steps {
      assert m as real <= steps as real;
    }
  }

  /** Consecutive ramp values differ by the same step: the ramp is linear in `m`. */
  lemma RampStep(lo: real, hi: real, m: int, steps: int)
    requires steps > 0
    ensures Ramp(lo, hi, m + 1, steps) - Ramp(lo, hi, m, steps) == (hi - lo) / steps as real
  {
    assert (m + 1) as real * (hi - lo) == m as real * (hi - lo) + (hi - lo);
  }

  /** Sum of a sequence, first element first. */
  function Sum(s: seq<real>): real
  {
    if |s| == 0 then 0.0 else s[0] + Sum(s[1..])
  }

  lemma {:induction false} SumAppend(s: seq<real>, t: seq<real>)
    ensures Sum(s + t) == Sum(s) + Sum(t)
  {
    if |s| == 0 {
      assert s + t == t;
    } else {
      assert (s + t)[1..] == s[1..] + t;
      SumAppend(s[1..], t);
    }
  }

  lemma {:induction false} SumNonNegative(s: seq<real>)
    requires forall k :: 0 <= k < |s| ==> s[k] >= 0.0
    ensures Sum(s) >= 0.0
  {
    if |s| > 0 {
      SumNonNegative(s[1..]);
    }
  }

  // Small arithmetic facts the solver does not find on its own.

  lemma MulAtLeast(a: int, b: int)
    requires a > 0 && b >= 1
    ensures a * b >= a
  {
    if b > 1 {
      MulAtLeast(a, b - 1);
      assert a * b == a * (b - 1) + a;
    }
  }

  lemma DivModUnique(g: int, d: int, q: int, r: int)
    requires d > 0 && 0 <= r < d && g == d * q + r
    ensures g / d == q && g % d == r
  {
    var q', r' := g / d, g % d;
    assert g == d * q' + r';
    assert d * (q - q') == r' - r;
    if q > q' {
      MulAtLeast(d, q - q');
    } else if q < q' {
      MulAtLeast(d, q' - q);
    }
  }

  lemma DivBelowOne(a: real, b: real)
    requires 0.0 <= a < b
    ensures 0.0 <= a / b < 1.0
  {
    var t := a / b;
    assert t * b == a;
    if t >= 1.0 {
      MulMonotone(1.0, t, b);
    }
  }

  lemma MulMonotone(a: real, b: real, w: real)
    requires a <= b && w > 0.0
    ensures a * w <= b * w
    ensures a < b ==> a * w < b * w
  {
  }

  /** `s'` is `s` with every entry multiplied by c. */
  ghost predicate ScaledSeq(s: seq<real>, s': seq<real>, c: real)
  {
    |s'| == |s| && forall k :: 0 <= k < |s| ==> s'[k] == c * s[k]
  }

  function Scale(s: seq<real>, f: real): (r: seq<real>)
    ensures ScaledSeq(s, r, f)
  {
    seq(|s|, k requires 0 <= k < |s| => f * s[k])
  }

  lemma {:induction false} SumScale(s: seq<real>, f: real)
    ensures Sum(Scale(s, f)) == f * Sum(s)
  {
    if |s| > 0 {
      assert forall i :: 0 <= i < |s| - 1 ==> Scale(s, f)[1..][i] == f * s[1..][i];
      assert Scale(s, f)[1..] == Scale(s[1..], f);
      SumScale(s[1..], f);
      Distribute(f, s[0], Sum(s[1..]));
    }
  }

  lemma Distribute(f: real, a: real, b: real)
    ensures f * a + f * b == f * (a + b)
  {
  }

  /** Scaling every term scales the sum. */
  lemma SumOfScaled(s: seq<real>, s': seq<real>, c: real)
    requires |s'| == |s| && forall k :: 0 <= k < |s| ==> s'[k] == c * s[k]
    ensures Sum(s') == c * Sum(s)
  {
    assert s' == Scale(s, c);
    SumScale(s, c);
  }

  /** `s` is `s1 + s2` entry by entry. */
  ghost predicate AddedSeq(s1: seq<real>, s2: seq<real>, s: seq<real>)
  {
    |s1| == |s| && |s2| == |s| && forall k :: 0 <= k < |s| ==> s[k] == s1[k] + s2[k]
  }

  /** Adding entry by entry adds the sums. */
  lemma {:induction false} SumOfAdded(s1: seq<real>, s2: seq<real>, s: seq<real>)
    requires AddedSeq(s1, s2, s)
    ensures Sum(s) == Sum(s1) + Sum(s2)
  {
    if |s| > 0 {
      SumOfAdded(s1[1..], s2[1..], s[1..]);
    }
  }
}
