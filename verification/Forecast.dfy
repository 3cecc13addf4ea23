/** The battery forecast of `solar_monitor/viewmodels.py`: an hourly walk that should find the moment the
    piecewise-linear stored energy first reaches zero. Times are seconds, energies watt hours, over the reals. */
module Forecast {
  import opened Wrappers

  /** Forecast PV power up to time `ts`. */
  datatype Point = Point(ts: int, pv: real)

  function Hours(from: real, to: real): real {
    (to - from) / 3600.0
  }

  /** Energy after `h` hours at `net` watts. */
  function Linear(e: real, net: real, h: real): real {
    e + net * h
  }

  /** Stored energy at time `t`: each point's power applies from the point before it (from `from`, for the first). */
  function StoredAt(from: real, e: real, load: real, future: seq<Point>, t: real): real
    decreases |future|
  {
    if future == [] then e
    else
      var p := future[0];
      if t <= p.ts as real then Linear(e, p.pv - load, Hours(from, t))
      else StoredAt(p.ts as real, Linear(e, p.pv - load, Hours(from, p.ts as real)), load, future[1..], t)
  }

  predicate Ascending(from: real, future: seq<Point>)
    decreases |future|
  {
    future == [] || (from <= future[0].ts as real && Ascending(future[0].ts as real, future[1..]))
  }

  function Horizon(from: real, future: seq<Point>): real
    decreases |future|
  {
    if future == [] then from else Horizon(future[0].ts as real, future[1..])
  }

  ghost predicate PositiveUntil(from: real, e: real, load: real, future: seq<Point>, end: real) {
    forall t: real :: from <= t < end ==> StoredAt(from, e, load, future, t) > 0.0
  }

  ghost predicate PositiveThrough(from: real, e: real, load: real, future: seq<Point>, end: real) {
    forall t: real :: from <= t <= end ==> StoredAt(from, e, load, future, t) > 0.0
  }

  /** `d` is the first moment without stored energy, `None` when there is none up to the horizon. */
  ghost predicate IsFirstZero(from: real, e: real, load: real, future: seq<Point>, d: Option<real>) {
    match d
    case None => PositiveThrough(from, e, load, future, Horizon(from, future))
    case Some(x) =>
      && from < x <= Horizon(from, future)
      && StoredAt(from, e, load, future, x) == 0.0
      && PositiveUntil(from, e, load, future, x)
  }

  /** Where a line that changes by `change` between `from` and `ts` runs out of `e`. */
  function CrossingTime(from: real, ts: real, e: real, change: real): real {
    if change < 0.0 then from + e / -change * (ts - from) else ts
  }

  function Walk(from: real, e: real, load: real, future: seq<Point>): Option<real>
    decreases |future|
  {
    if future == [] then None
    else
      var ts := future[0].ts as real;
      var next := Linear(e, future[0].pv - load, Hours(from, ts));
      if next <= 0.0 then Some(CrossingTime(from, ts, e, next - e)) else Walk(ts, next, load, future[1..])
  }

  /** The hourly walk over the future points, in ascending order. */
  method WalkForecast(now: int, usable: real, load: real, future: seq<Point>)
    returns (depletion: Option<real>, survived: bool)
    requires usable >= 0.0 && Ascending(now as real, future)
    ensures depletion == Walk(now as real, usable, load, future)
    ensures survived == depletion.None?
    ensures usable > 0.0 ==> IsFirstZero(now as real, usable, load, future, depletion)
    ensures usable > 0.0 ==>
      (survived <==> PositiveThrough(now as real, usable, load, future, Horizon(now as real, future)))
  {
    hide Walk, Linear, CrossingTime, Hours, Ascending, IsFirstZero, StoredAt, PositiveThrough, Horizon;
    var soc, prev := usable, now as real;
    depletion, survived := None, true;
    assert future[0..] == future;
    for i := 0 to |future|
      invariant survived && depletion.None?
      invariant Walk(now as real, usable, load, future) == Walk(prev, soc, load, future[i..])
    {
      var ts := future[i].ts as real;
      var hours := (ts - prev) / 3600.0;
      var net := future[i].pv - load;
      var change := net * hours;
      Spelled(prev, ts, soc, net, hours, change);
      WalkStep(prev, soc, load, future, i);
      ghost var stored := soc;
      soc := soc + change;
      if soc <= 0.0 {
        var before := soc - change;
        assert before == stored && Linear(stored, net, Hours(prev, ts)) - stored == change;
        CrossingTimeIs(prev, ts, before, change);
        if change < 0.0 {
          depletion := Some(prev + before / -change * (ts - prev));
        } else {
          depletion := Some(ts);
        }
        survived := false;
        break;
      }
      prev := ts;
    }
    WalkOfNothing(prev, soc, load, future[|future|..]);
    if usable > 0.0 {
      WalkFindsFirstZero(now as real, usable, load, future);
      NoZeroMeansPositive(now as real, usable, load, future, depletion);
    }
  }

  lemma Spelled(from: real, ts: real, e: real, net: real, hours: real, change: real)
    requires hours == (ts - from) / 3600.0 && change == net * hours
    ensures Linear(e, net, Hours(from, ts)) == e + change
  {
    assert Hours(from, ts) == hours;
  }

  lemma CrossingTimeIs(from: real, ts: real, e: real, change: real)
    ensures CrossingTime(from, ts, e, change) == if change < 0.0 then from + e / -change * (ts - from) else ts
  {
  }

  lemma WalkStep(from: real, e: real, load: real, future: seq<Point>, i: nat)
    requires i < |future|
    ensures var ts := future[i].ts as real;
            var next := Linear(e, future[i].pv - load, Hours(from, ts));
            Walk(from, e, load, future[i..]) ==
            if next <= 0.0 then Some(CrossingTime(from, ts, e, next - e)) else Walk(ts, next, load, future[i + 1..])
  {
    assert future[i..][1..] == future[i + 1..];
  }

  lemma WalkOfNothing(from: real, e: real, load: real, future: seq<Point>)
    requires future == []
    ensures Walk(from, e, load, future) == None
  {
  }

  lemma NoZeroMeansPositive(from: real, e: real, load: real, future: seq<Point>, d: Option<real>)
    requires IsFirstZero(from, e, load, future, d) && Ascending(from, future)
    ensures d.None? <==> PositiveThrough(from, e, load, future, Horizon(from, future))
  {
    hide StoredAt, Horizon;
  }

  // ---------- Lines ----------

  lemma Product(a: real, b: real)
    ensures a >= 0.0 && b >= 0.0 ==> a * b >= 0.0
    ensures a > 0.0 && b > 0.0 ==> a * b > 0.0
    ensures a <= 0.0 && b >= 0.0 ==> a * b <= 0.0
    ensures a < 0.0 && b > 0.0 ==> a * b < 0.0
    ensures b == 0.0 ==> a * b == 0.0
  {
  }

  lemma Quotient(a: real, b: real)
    requires b > 0.0
    ensures a / b * b == a
    ensures a > 0.0 ==> a / b > 0.0
    ensures a == 0.0 ==> a / b == 0.0
  {
  }

  lemma QuotientBound(a: real, b: real, q: real)
    requires b > 0.0 && a <= b * q
    ensures a / b <= q
  {
    Quotient(a, b);
    Product(a / b - q, b);
    assert (a / b - q) * b == a / b * b - q * b;
  }

  lemma LinearOrder(e: real, net: real, h: real, h': real)
    requires h <= h'
    ensures net <= 0.0 ==> Linear(e, net, h') <= Linear(e, net, h)
    ensures net >= 0.0 ==> Linear(e, net, h) <= Linear(e, net, h')
    ensures net < 0.0 && h < h' ==> Linear(e, net, h') < Linear(e, net, h)
  {
    Product(net, h' - h);
    assert net * (h' - h) == net * h' - net * h;
  }

  lemma LinearAtZero(e: real, net: real)
    ensures Linear(e, net, 0.0) == e
  {
    Product(net, 0.0);
  }

  /** A line that is positive at both ends is positive in between. */
  lemma LinearStaysPositive(e: real, net: real, h: real, span: real)
    requires 0.0 <= h <= span && e > 0.0 && Linear(e, net, span) > 0.0
    ensures Linear(e, net, h) > 0.0
  {
    hide Linear;
    LinearOrder(e, net, h, span);
    LinearOrder(e, net, 0.0, h);
    LinearAtZero(e, net);
  }

  lemma LinearCompares(e: real, e': real, net: real, net': real, h: real)
    requires e <= e' && net <= net' && h >= 0.0
    ensures Linear(e, net, h) <= Linear(e', net', h)
  {
    Product(net' - net, h);
    assert (net' - net) * h == net' * h - net * h;
  }

  lemma LinearChains(e: real, net: real, h: real, h': real)
    ensures Linear(Linear(e, net, h), net, h') == Linear(e, net, h + h')
  {
    assert net * (h + h') == net * h + net * h';
  }

  lemma HoursOrder(from: real, t: real, ts: real)
    ensures from <= t ==> Hours(from, t) >= 0.0
    ensures from < t ==> Hours(from, t) > 0.0
    ensures t <= ts ==> Hours(from, t) <= Hours(from, ts)
    ensures t < ts ==> Hours(from, t) < Hours(from, ts)
    ensures Hours(from, t) + Hours(t, ts) == Hours(from, ts)
    ensures Hours(from, from) == 0.0
  {
  }

  /** A share of the time is the same share of the change. */
  lemma Share(from: real, ts: real, e: real, net: real, share: real)
    requires e == share * -(net * Hours(from, ts))
    ensures Linear(e, net, Hours(from, from + share * (ts - from))) == 0.0
  {
    var span := ts - from;
    assert Hours(from, from + share * span) == share * Hours(from, ts);
    assert net * (share * Hours(from, ts)) == share * (net * Hours(from, ts));
  }

  lemma Crossing(from: real, ts: real, e: real, net: real)
    requires e > 0.0 && from <= ts && Linear(e, net, Hours(from, ts)) <= 0.0
    ensures net < 0.0
    ensures var x := CrossingTime(from, ts, e, Linear(e, net, Hours(from, ts)) - e);
            from < x <= ts && Linear(e, net, Hours(from, x)) == 0.0
  {
    hide Hours, Linear, CrossingTime;
    HoursOrder(from, ts, ts);
    HoursOrder(from, from, ts);
    var h := Hours(from, ts);
    var change := Linear(e, net, h) - e;
    ChangeIs(e, net, h);
    Product(net, h);
    Quotient(e, -change);
    QuotientBound(e, -change, 1.0);
    var share := e / -change;
    assert e == share * -(net * h);
    WithinSpan(share, ts - from);
    Share(from, ts, e, net, share);
    CrossingTimeIs(from, ts, e, change);
    assert CrossingTime(from, ts, e, change) == from + share * (ts - from);
  }

  lemma ChangeIs(e: real, net: real, h: real)
    ensures Linear(e, net, h) - e == net * h
  {
  }

  lemma WithinSpan(share: real, span: real)
    requires 0.0 < share <= 1.0 && span > 0.0
    ensures 0.0 < share * span <= span
  {
    Product(share, span);
    Product(1.0 - share, span);
    assert (1.0 - share) * span == span - share * span;
  }

  // ---------- The walk finds the first zero ----------

  lemma {:induction false} WalkFindsFirstZero(from: real, e: real, load: real, future: seq<Point>)
    requires e > 0.0 && Ascending(from, future)
    ensures IsFirstZero(from, e, load, future, Walk(from, e, load, future))
    decreases |future|
  {
    hide Linear, CrossingTime, Hours;
    if future != [] {
      hide IsFirstZero, StoredAt, Horizon;
      var ts := future[0].ts as real;
      var next := Linear(e, future[0].pv - load, Hours(from, ts));
      if next <= 0.0 {
        CrossesHere(from, e, load, future);
      } else {
        WalkFindsFirstZero(ts, next, load, future[1..]);
        FirstZeroIsLater(from, e, load, future, Walk(ts, next, load, future[1..]));
      }
    }
  }

  lemma {:induction false} HorizonIsLast(from: real, future: seq<Point>)
    requires Ascending(from, future)
    ensures from <= Horizon(from, future)
    decreases |future|
  {
    if future != [] {
      HorizonIsLast(future[0].ts as real, future[1..]);
    }
  }

  lemma CrossesHere(from: real, e: real, load: real, future: seq<Point>)
    requires e > 0.0 && Ascending(from, future) && future != []
    requires Linear(e, future[0].pv - load, Hours(from, future[0].ts as real)) <= 0.0
    ensures IsFirstZero(from, e, load, future, Walk(from, e, load, future))
  {
    hide Linear, CrossingTime, Hours;
    var ts, net := future[0].ts as real, future[0].pv - load;
    Crossing(from, ts, e, net);
    HorizonIsLast(ts, future[1..]);
    var x := CrossingTime(from, ts, e, Linear(e, net, Hours(from, ts)) - e);
    forall t: real | from <= t < x ensures StoredAt(from, e, load, future, t) > 0.0 {
      HoursOrder(from, t, x);
      LinearOrder(e, net, Hours(from, t), Hours(from, x));
    }
  }

  lemma FirstZeroIsLater(from: real, e: real, load: real, future: seq<Point>, d: Option<real>)
    requires e > 0.0 && Ascending(from, future) && future != []
    requires Linear(e, future[0].pv - load, Hours(from, future[0].ts as real)) > 0.0
    requires var ts := future[0].ts as real;
             IsFirstZero(ts, Linear(e, future[0].pv - load, Hours(from, ts)), load, future[1..], d)
    ensures IsFirstZero(from, e, load, future, d)
  {
    hide Linear, Hours;
    var ts, net := future[0].ts as real, future[0].pv - load;
    forall t: real | from <= t <= ts ensures StoredAt(from, e, load, future, t) > 0.0 {
      HoursOrder(from, t, ts);
      LinearStaysPositive(e, net, Hours(from, t), Hours(from, ts));
    }
    assert forall t: real :: t > ts ==>
      StoredAt(from, e, load, future, t) == StoredAt(ts, Linear(e, net, Hours(from, ts)), load, future[1..], t);
  }

  lemma ZeroNotBefore(from: real, e: real, load: real, future: seq<Point>, d: Option<real>, x: real)
    requires IsFirstZero(from, e, load, future, d)
    requires from <= x <= Horizon(from, future) && StoredAt(from, e, load, future, x) <= 0.0
    ensures d.Some? && d.value <= x
  {
    hide StoredAt, Horizon;
  }

  /** There is only one first zero, so any two computations of it agree. */
  lemma FirstZeroIsUnique(from: real, e: real, load: real, future: seq<Point>, d: Option<real>, d': Option<real>)
    requires IsFirstZero(from, e, load, future, d) && IsFirstZero(from, e, load, future, d')
    ensures d == d'
  {
    hide StoredAt, Horizon;
    if d.Some? {
      ZeroNotBefore(from, e, load, future, d', d.value);
    }
    if d'.Some? {
      ZeroNotBefore(from, e, load, future, d, d'.value);
    }
  }

  // ---------- Monotonicity ----------

  /** Point for point, `better` promises at least as much PV at the same times. */
  predicate NoWorse(future: seq<Point>, better: seq<Point>) {
    && |future| == |better|
    && forall i :: 0 <= i < |future| ==> future[i].ts == better[i].ts && future[i].pv <= better[i].pv
  }

  lemma {:induction false} StoredCompares(from: real, e: real, load: real, future: seq<Point>,
                                          e': real, load': real, better: seq<Point>, t: real)
    requires Ascending(from, future) && from <= t
    requires e <= e' && load' <= load && NoWorse(future, better)
    ensures StoredAt(from, e, load, future, t) <= StoredAt(from, e', load', better, t)
    decreases |future|
  {
    hide Linear, Hours;
    if future != [] {
      var p, q := future[0], better[0];
      var ts := p.ts as real;
      HoursOrder(from, t, ts);
      HoursOrder(from, ts, ts);
      if t <= ts {
        LinearCompares(e, e', p.pv - load, q.pv - load', Hours(from, t));
      } else {
        LinearCompares(e, e', p.pv - load, q.pv - load', Hours(from, ts));
        StoredCompares(ts, Linear(e, p.pv - load, Hours(from, ts)), load, future[1..],
                       Linear(e', q.pv - load', Hours(from, ts)), load', better[1..], t);
      }
    }
  }

  lemma {:induction false} SameHorizon(from: real, future: seq<Point>, better: seq<Point>)
    requires NoWorse(future, better)
    ensures Horizon(from, future) == Horizon(from, better)
    ensures Ascending(from, future) ==> Ascending(from, better)
    decreases |future|
  {
    if future != [] {
      SameHorizon(future[0].ts as real, future[1..], better[1..]);
    }
  }

  /** Not later, where `None` is later than everything. */
  predicate NotLater(d: Option<real>, d': Option<real>) {
    d'.Some? ==> d.Some? && d.value <= d'.value
  }

  /** More load, less PV or less usable energy never makes the depletion later. */
  lemma DepletionIsMonotone(now: real, usable: real, load: real, future: seq<Point>,
                            usable': real, load': real, better: seq<Point>)
    requires Ascending(now, future)
    requires 0.0 < usable <= usable' && load' <= load && NoWorse(future, better)
    ensures NotLater(Walk(now, usable, load, future), Walk(now, usable', load', better))
  {
    hide Walk, StoredAt, Ascending, Horizon;
    var d, d' := Walk(now, usable, load, future), Walk(now, usable', load', better);
    SameHorizon(now, future, better);
    WalkFindsFirstZero(now, usable, load, future);
    WalkFindsFirstZero(now, usable', load', better);
    if d'.Some? {
      StoredCompares(now, usable, load, future, usable', load', better, d'.value);
      ZeroNotBefore(now, usable, load, future, d, d'.value);
    }
  }

  // ---------- Against the naive estimate ----------

  lemma {:induction false} StoredAboveLoad(from: real, e: real, load: real, future: seq<Point>, t: real)
    requires Ascending(from, future) && from <= t <= Horizon(from, future)
    requires forall p <- future :: p.pv >= 0.0
    ensures StoredAt(from, e, load, future, t) >= Linear(e, -load, Hours(from, t))
    decreases |future|
  {
    hide Linear, Hours;
    HoursOrder(from, from, t);
    if future == [] {
      LinearAtZero(e, -load);
    } else {
      var p := future[0];
      var ts := p.ts as real;
      assert p in future;
      HoursOrder(from, t, ts);
      HoursOrder(from, ts, t);
      if t <= ts {
        LinearCompares(e, e, -load, p.pv - load, Hours(from, t));
      } else {
        var next := Linear(e, p.pv - load, Hours(from, ts));
        assert forall q <- future[1..] :: q in future;
        StoredAboveLoad(ts, next, load, future[1..], t);
        LinearCompares(e, e, -load, p.pv - load, Hours(from, ts));
        HoursOrder(ts, t, t);
        LinearCompares(Linear(e, -load, Hours(from, ts)), next, -load, -load, Hours(ts, t));
        LinearChains(e, -load, Hours(from, ts), Hours(ts, t));
      }
    }
  }

  /** With a load and no negative PV, the forecast never runs out before the naive `usable / load` hours. */
  lemma NeverBeforeNaive(now: real, usable: real, load: real, future: seq<Point>)
    requires Ascending(now, future) && usable > 0.0 && load > 0.0
    requires forall p <- future :: p.pv >= 0.0
    ensures var d := Walk(now, usable, load, future);
            d.Some? ==> Hours(now, d.value) >= usable / load
  {
    hide Walk, StoredAt, Ascending, Horizon, Hours;
    var d := Walk(now, usable, load, future);
    WalkFindsFirstZero(now, usable, load, future);
    if d.Some? {
      StoredAboveLoad(now, usable, load, future, d.value);
      var h := Hours(now, d.value);
      assert -load * h == -(load * h);
      QuotientBound(usable, load, h);
    }
  }

  /** A bank already at its reserve is reported empty now exactly when the first interval loses energy:
      the condition under which the walk is right for usable energy zero. */
  lemma AtTheReserve(now: real, load: real, future: seq<Point>)
    requires future != [] && now < future[0].ts as real && Ascending(now, future)
    ensures Walk(now, 0.0, load, future) == Some(now) <==> future[0].pv < load
  {
    hide Hours;
    var ts, net := future[0].ts as real, future[0].pv - load;
    HoursOrder(now, ts, ts);
    var change := net * Hours(now, ts);
    Product(net, Hours(now, ts));
    assert Linear(0.0, net, Hours(now, ts)) == change;
    if net < 0.0 {
      Quotient(0.0, -change);
      Product(ts - now, 0.0);
    } else if net > 0.0 {
      Product(Hours(now, ts), net);
      WalkFindsFirstZero(ts, change, load, future[1..]);
    } else {
      Product(Hours(now, ts), 0.0);
    }
  }
}
