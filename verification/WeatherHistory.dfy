/** The bucket grid and the moving-pointer interpolation of `solar_monitor/api/weather_history.py`. */
module WeatherHistory {
  import opened Wrappers

  type Reading = Option<real>

  // ---------- The grid ----------

  /** Python's `range(start, stop, step)` for a positive step. */
  function Range(start: int, stop: int, step: int): (r: seq<int>)
    requires step > 0
    decreases stop - start
  {
    if start >= stop then [] else [start] + Range(start + step, stop, step)
  }

  /** A term of the progression that starts at `start`, below `stop`. */
  predicate IsTerm(t: int, start: int, stop: int, step: int)
    requires step > 0
  {
    start <= t < stop && (t - start) % step == 0
  }

  lemma {:induction false} RangeMembers(start: int, stop: int, step: int, t: int)
    requires step > 0
    ensures t in Range(start, stop, step) <==> IsTerm(t, start, stop, step)
    decreases stop - start
  {
    hide IsTerm;
    if start < stop {
      RangeMembers(start + step, stop, step, t);
      TermStep(start, stop, step, t);
    } else {
      NoTerm(start, stop, step, t);
    }
  }

  lemma NoTerm(start: int, stop: int, step: int, t: int)
    requires step > 0 && start >= stop
    ensures !IsTerm(t, start, stop, step)
  {
  }

  lemma TermStep(start: int, stop: int, step: int, t: int)
    requires step > 0 && start < stop
    ensures IsTerm(t, start, stop, step) <==> t == start || IsTerm(t, start + step, stop, step)
  {
    var d := t - start;
    NextMember(d, step);
    assert t - (start + step) == d - step;
  }

  lemma NextMember(d: int, step: int)
    requires step > 0
    ensures (d - step) % step == d % step
    ensures 0 < d < step ==> d % step != 0
  {
    assert d - step == step * (d / step - 1) + d % step;
    SameRemainder(d - step, d / step - 1, d % step, step);
  }

  lemma SameRemainder(n: int, q: int, r: int, step: int)
    requires step > 0 && 0 <= r < step && n == step * q + r
    ensures n % step == r
  {
    var gap := n / step - q;
    assert step * gap == r - n % step;
    AtLeastOneStep(step, gap);
  }

  lemma AtLeastOneStep(step: int, n: int)
    requires step > 0
    ensures n >= 1 ==> step * n >= step
    ensures n <= -1 ==> step * n <= -step
  {
  }

  lemma {:induction false} RangeAscends(start: int, stop: int, step: int)
    requires step > 0
    ensures forall i, j :: 0 <= i < j < |Range(start, stop, step)| ==>
      Range(start, stop, step)[i] < Range(start, stop, step)[j]
    ensures forall i :: 0 <= i < |Range(start, stop, step)| ==> start <= Range(start, stop, step)[i]
    decreases stop - start
  {
    if start < stop {
      RangeAscends(start + step, stop, step);
    }
  }

  function Grid(since: int, until: int, bucket: int): seq<int>
    requires bucket > 0
  {
    Range(since - since % bucket, until + 1, bucket)
  }

  /** The grid holds exactly the bucket boundaries from the one at or before `since` up to `until`, in order and
      without repetition. */
  lemma GridIsEveryBoundary(since: int, until: int, bucket: int, t: int)
    requires bucket > 0
    ensures t in Grid(since, until, bucket) <==> t % bucket == 0 && since - bucket < t <= until
    ensures var grid := Grid(since, until, bucket);
            forall i, j :: 0 <= i < j < |grid| ==> grid[i] < grid[j]
  {
    hide Range;
    var start := since - since % bucket;
    RangeMembers(start, until + 1, bucket, t);
    RangeAscends(start, until + 1, bucket);
    FromBoundary(since, t, bucket);
  }

  /** Counting buckets from the boundary below `since` is counting them from zero. */
  lemma FromBoundary(since: int, t: int, bucket: int)
    requires bucket > 0
    ensures var start := since - since % bucket;
            && ((t - start) % bucket == 0 <==> t % bucket == 0)
            && (t % bucket == 0 ==> (start <= t <==> since - bucket < t))
  {
    var k, m := since / bucket, t / bucket;
    var start := since - since % bucket;
    assert start == bucket * k && t == bucket * m + t % bucket;
    assert t - start == bucket * (m - k) + t % bucket;
    SameRemainder(t - start, m - k, t % bucket, bucket);
    AtLeastOneStep(bucket, k - m);
  }

  // ---------- Interpolation by definition ----------

  predicate Ascending(ts: seq<int>) {
    forall i, j :: 0 <= i < j < |ts| ==> ts[i] <= ts[j]
  }

  /** The greatest index whose sample is at or before `t`, found by scanning back from the end. */
  function LastAtOrBefore(ts: seq<int>, t: int): (k: nat)
    requires ts != [] && ts[0] <= t
    ensures k < |ts| && ts[k] <= t
    ensures forall i :: k < i < |ts| ==> ts[i] > t
  {
    var last := |ts| - 1;
    if ts[last] <= t then last else LastAtOrBefore(ts[..last], t)
  }

  function Between(t: int, t0: int, t1: int, v0: real, v1: real): real
    requires t0 < t1
  {
    v0 + (v1 - v0) * ((t - t0) as real / (t1 - t0) as real)
  }

  /** The value at `t`: none outside the samples, the reading on a sample, otherwise the line between two readings. */
  function ValueAt(ts: seq<int>, v: seq<Reading>, t: int): Reading
    requires |v| == |ts|
  {
    if ts == [] || t < ts[0] || t > ts[|ts| - 1] then None
    else
      var k := LastAtOrBefore(ts, t);
      if k + 1 == |ts| || ts[k] == t then v[k]
      else if v[k].None? || v[k + 1].None? then None
      else Some(Between(t, ts[k], ts[k + 1], v[k].value, v[k + 1].value))
  }

  /** The pointer only moves forward, at most once over the samples for the whole grid. */
  method Interp(grid: seq<int>, ts: seq<int>, v: seq<Reading>) returns (out: seq<Reading>, ghost advances: nat)
    requires |v| == |ts| && Ascending(grid) && Ascending(ts)
    ensures |out| == |grid|
    ensures forall i :: 0 <= i < |grid| ==> out[i] == ValueAt(ts, v, grid[i])
    ensures advances <= |ts|
  {
    advances := 0;
    if ts == [] {
      out := seq(|grid|, i => None);
      assert forall i :: 0 <= i < |grid| ==> out[i] == None;
      return;
    }
    out := [];
    var j := 0;
    for i := 0 to |grid|
      invariant |out| == i && advances == j < |ts|
      invariant j > 0 ==> i > 0 && ts[j] <= grid[i - 1]
      invariant forall m :: 0 <= m < i ==> out[m] == ValueAt(ts, v, grid[m])
    {
      var t := grid[i];
      while j + 1 < |ts| && ts[j + 1] <= t
        invariant advances == j < |ts|
        invariant j > 0 ==> ts[j] <= t
      {
        j, advances := j + 1, advances + 1;
      }
      var value := Pick(ts, v, t, j);
      out := out + [value];
    }
  }

  /** The reading for one grid point, from the pointer alone. */
  method Pick(ts: seq<int>, v: seq<Reading>, t: int, j: nat) returns (value: Reading)
    requires |v| == |ts| && Ascending(ts) && j < |ts|
    requires j > 0 ==> ts[j] <= t
    requires j + 1 < |ts| ==> ts[j + 1] > t
    ensures value == ValueAt(ts, v, t)
  {
    hide LastAtOrBefore, Between;
    if t < ts[0] || t > ts[|ts| - 1] {
      return None;
    }
    PointerIsLast(ts, t, j);
    if j + 1 >= |ts| {
      return v[j];
    }
    var t0, t1 := ts[j], ts[j + 1];
    var v0, v1 := v[j], v[j + 1];
    if t == t0 {
      return v0;
    }
    if v0.None? || v1.None? {
      return None;
    }
    var frac := (t - t0) as real / (t1 - t0) as real;
    var x := v0.value + (v1.value - v0.value) * frac;
    BetweenIs(t, t0, t1, v0.value, v1.value, frac, x);
    return Some(x);
  }

  lemma BetweenIs(t: int, t0: int, t1: int, v0: real, v1: real, frac: real, x: real)
    requires t0 < t1 && frac == (t - t0) as real / (t1 - t0) as real && x == v0 + (v1 - v0) * frac
    ensures Between(t, t0, t1, v0, v1) == x
  {
  }

  lemma PointerIsLast(ts: seq<int>, t: int, j: nat)
    requires Ascending(ts) && j < |ts| && ts[0] <= t
    requires j > 0 ==> ts[j] <= t
    requires j + 1 < |ts| ==> ts[j + 1] > t
    ensures LastAtOrBefore(ts, t) == j
  {
  }

  // ---------- What the values are ----------

  /** There is a value exactly on a real sample and between two real neighbours. */
  lemma ValueExactly(ts: seq<int>, v: seq<Reading>, t: int)
    requires |v| == |ts| && ts != [] && ts[0] <= t <= ts[|ts| - 1] && Ascending(ts)
    ensures var k := LastAtOrBefore(ts, t);
            && (t == ts[k] ==> ValueAt(ts, v, t) == v[k])
            && (t != ts[k] ==> k + 1 < |ts| && ts[k] < t < ts[k + 1]
                               && (ValueAt(ts, v, t).Some? <==> v[k].Some? && v[k + 1].Some?))
  {
  }

  /** There is none outside the samples. */
  lemma NothingOutside(ts: seq<int>, v: seq<Reading>, t: int)
    requires |v| == |ts|
    ensures ts == [] || t < ts[0] || ts[|ts| - 1] < t ==> ValueAt(ts, v, t) == None
  {
  }

  /** `x` at `t` lies on the line through `v0` at `t0` and `v1` at `t1`. */
  predicate Collinear(t: int, t0: int, t1: int, x: real, v0: real, v1: real) {
    (x - v0) * (t1 - t0) as real == (v1 - v0) * (t - t0) as real
  }

  /** Between two real neighbours the value lies on the line through them. */
  lemma ValueIsOnLine(ts: seq<int>, v: seq<Reading>, t: int)
    requires |v| == |ts| && ts != [] && ts[0] <= t <= ts[|ts| - 1] && Ascending(ts)
    requires ValueAt(ts, v, t).Some? && t != ts[LastAtOrBefore(ts, t)]
    ensures var k := LastAtOrBefore(ts, t);
            && k + 1 < |ts| && v[k].Some? && v[k + 1].Some?
            && Collinear(t, ts[k], ts[k + 1], ValueAt(ts, v, t).value, v[k].value, v[k + 1].value)
  {
    hide Between, Ascending, Collinear;
    var k := LastAtOrBefore(ts, t);
    ValueExactly(ts, v, t);
    OnLine(t, ts[k], ts[k + 1], v[k].value, v[k + 1].value);
  }

  lemma OnLine(t: int, t0: int, t1: int, v0: real, v1: real)
    requires t0 < t1
    ensures Collinear(t, t0, t1, Between(t, t0, t1, v0, v1), v0, v1)
  {
    hide Between;
    var a, b, d := (t - t0) as real, (t1 - t0) as real, v1 - v0;
    var f := a / b;
    QuotientTimes(a, b);
    BetweenIs(t, t0, t1, v0, v1, f, v0 + d * f);
    Slope(Between(t, t0, t1, v0, v1) - v0, d, f, b, a);
  }

  lemma Slope(x: real, d: real, f: real, b: real, a: real)
    requires x == d * f && f * b == a
    ensures x * b == d * a
  {
    assert d * f * b == d * (f * b);
  }

  lemma BetweenIsBetween(t: int, t0: int, t1: int, v0: real, v1: real)
    requires t0 < t < t1
    ensures var x := Between(t, t0, t1, v0, v1);
            (v0 <= v1 ==> v0 <= x <= v1) && (v1 <= v0 ==> v1 <= x <= v0)
  {
    hide Between;
    var a, b, d := (t - t0) as real, (t1 - t0) as real, v1 - v0;
    var f := a / b;
    QuotientTimes(a, b);
    SmallerFactor(f, b);
    Scaled(d, f);
    BetweenIs(t, t0, t1, v0, v1, f, v0 + d * f);
  }

  lemma QuotientTimes(a: real, b: real)
    requires b > 0.0
    ensures a / b * b == a
  {
  }

  lemma SmallerFactor(f: real, b: real)
    requires b > 0.0 && 0.0 < f * b < b
    ensures 0.0 < f < 1.0
  {
    ProductSign(f, b);
    ProductSign(1.0 - f, b);
    assert (1.0 - f) * b == b - f * b;
  }

  lemma ProductSign(x: real, b: real)
    requires b > 0.0
    ensures x <= 0.0 ==> x * b <= 0.0
    ensures x > 0.0 ==> x * b > 0.0
  {
  }

  /** An interpolated value lies between its two neighbours. */
  lemma ValueIsBetween(ts: seq<int>, v: seq<Reading>, t: int)
    requires |v| == |ts| && ts != [] && ts[0] <= t <= ts[|ts| - 1] && Ascending(ts)
    requires ValueAt(ts, v, t).Some? && t != ts[LastAtOrBefore(ts, t)]
    ensures var k := LastAtOrBefore(ts, t);
            var x, v0, v1 := ValueAt(ts, v, t).value, v[k].value, v[k + 1].value;
            (v0 <= v1 ==> v0 <= x <= v1) && (v1 <= v0 ==> v1 <= x <= v0)
  {
    hide Between, Ascending;
    var k := LastAtOrBefore(ts, t);
    ValueExactly(ts, v, t);
    BetweenIsBetween(t, ts[k], ts[k + 1], v[k].value, v[k + 1].value);
  }

  lemma Scaled(d: real, f: real)
    requires 0.0 < f < 1.0
    ensures d >= 0.0 ==> 0.0 <= d * f <= d
    ensures d <= 0.0 ==> d <= d * f <= 0.0
  {
  }
}
