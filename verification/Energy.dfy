/** Totals and the self-powered split of `solar_monitor/api/energy.py`, over the reals and before rounding. */
module Energy {
  import opened Wrappers

  type Reading = Option<real>

  /** One bucket of the shared grid; `bank` is positive while charging. */
  datatype Bucket = Bucket(solar: Reading, charger: Reading, bank: Reading)

  datatype Served = Served(solar: real, battery: real, charger: real) {
    function Total(): real {
      solar + battery + charger
    }
  }

  function Max0(x: real): (m: real)
    ensures m >= 0.0
  {
    if x > 0.0 then x else 0.0
  }

  /** Energy of `power` over one bucket, `factor` hours long. */
  function Wh(power: real, factor: real): real {
    power * factor
  }

  function OrZero(r: Reading): real {
    if r.Some? then r.value else 0.0
  }

  function SolarIn(b: Bucket): (power: real)
    ensures power >= 0.0
  {
    Max0(OrZero(b.solar))
  }

  function ChargerIn(b: Bucket): (power: real)
    ensures power >= 0.0
  {
    Max0(OrZero(b.charger))
  }

  function BankIn(b: Bucket): (power: real)
    ensures power >= 0.0
  {
    Max0(OrZero(b.bank))
  }

  function BankOut(b: Bucket): (power: real)
    ensures power >= 0.0
  {
    Max0(-OrZero(b.bank))
  }

  function NetLoad(b: Bucket): real {
    SolarIn(b) + ChargerIn(b) + BankOut(b) - BankIn(b)
  }

  function ServedLoad(b: Bucket): (power: real)
    ensures power >= 0.0
  {
    Max0(NetLoad(b))
  }

  // ---------- Totals ----------

  function SumOf(f: Bucket -> real, buckets: seq<Bucket>): real {
    if buckets == [] then 0.0 else SumOf(f, buckets[..|buckets| - 1]) + f(buckets[|buckets| - 1])
  }

  function LoadWh(buckets: seq<Bucket>, factor: real): real {
    var solarWh := Wh(SumOf(SolarIn, buckets), factor);
    var chargerWh := Wh(SumOf(ChargerIn, buckets), factor);
    var bankInWh := Wh(SumOf(BankIn, buckets), factor);
    var bankOutWh := Wh(SumOf(BankOut, buckets), factor);
    Max0(solarWh + chargerWh + bankOutWh - bankInWh)
  }

  // ---------- The split ----------

  /** The share of `load` that a source sending `x` of the `total` onto the bus is credited with. */
  function Part(x: real, total: real, load: real, factor: real): real
    requires total > 0.0
  {
    x / total * load * factor
  }

  lemma PartIs(x: real, total: real, load: real, factor: real)
    requires total > 0.0
    ensures Part(x, total, load, factor) == x / total * load * factor
  {
  }

  /** What one bucket adds. */
  function Share(b: Bucket, factor: real): Served {
    var total := SolarIn(b) + ChargerIn(b) + BankOut(b);
    if total <= 0.0 || ServedLoad(b) <= 0.0 then Served(0.0, 0.0, 0.0)
    else Served(
      Part(SolarIn(b), total, ServedLoad(b), factor),
      Part(BankOut(b), total, ServedLoad(b), factor),
      Part(ChargerIn(b), total, ServedLoad(b), factor))
  }

  function Plus(s: Served, t: Served): Served {
    Served(s.solar + t.solar, s.battery + t.battery, s.charger + t.charger)
  }

  function Split(buckets: seq<Bucket>, factor: real): Served {
    if buckets == [] then Served(0.0, 0.0, 0.0)
    else Plus(Split(buckets[..|buckets| - 1], factor), Share(buckets[|buckets| - 1], factor))
  }

  method Attribute(buckets: seq<Bucket>, factor: real) returns (served: Served)
    requires factor > 0.0
    ensures served == Split(buckets, factor)
    ensures served.Total() == Wh(SumOf(ServedLoad, buckets), factor)
    ensures served.solar >= 0.0 && served.battery >= 0.0 && served.charger >= 0.0
  {
    hide Part, Split;
    served := Served(0.0, 0.0, 0.0);
    assert buckets[..0] == [];
    SplitOfNone(factor);
    for i := 0 to |buckets|
      invariant served == Split(buckets[..i], factor)
    {
      SplitNext(buckets, i, factor);
      var s := if buckets[i].solar.Some? && buckets[i].solar.value > 0.0 then buckets[i].solar.value else 0.0;
      var c := if buckets[i].charger.Some? && buckets[i].charger.value > 0.0 then buckets[i].charger.value else 0.0;
      var bw := if buckets[i].bank.Some? then buckets[i].bank.value else 0.0;
      var bOut := if bw < 0.0 then -bw else 0.0;
      var bIn := if bw > 0.0 then bw else 0.0;
      var totalIn := s + c + bOut;
      if totalIn > 0.0 {
        var load := Max0(s + c + bOut - bIn);
        if load > 0.0 {
          PartIs(s, totalIn, load, factor);
          PartIs(bOut, totalIn, load, factor);
          PartIs(c, totalIn, load, factor);
          served := Served(
            served.solar + s / totalIn * load * factor,
            served.battery + bOut / totalIn * load * factor,
            served.charger + c / totalIn * load * factor);
        }
      }
    }
    assert buckets[..|buckets|] == buckets;
    SplitConserves(buckets, factor);
  }

  lemma SplitOfNone(factor: real)
    ensures Split([], factor) == Served(0.0, 0.0, 0.0)
  {
  }

  lemma SplitNext(buckets: seq<Bucket>, i: nat, factor: real)
    requires i < |buckets|
    ensures Split(buckets[..i + 1], factor) == Plus(Split(buckets[..i], factor), Share(buckets[i], factor))
  {
    hide Share;
    assert buckets[..i + 1][..i] == buckets[..i];
  }

  lemma Parts(a: real, b: real, c: real, t: real, load: real, factor: real)
    requires a >= 0.0 && b >= 0.0 && c >= 0.0 && t == a + b + c > 0.0 && load >= 0.0 && factor > 0.0
    ensures Part(a, t, load, factor) + Part(b, t, load, factor) + Part(c, t, load, factor) == Wh(load, factor)
    ensures Part(a, t, load, factor) >= 0.0
    ensures Part(b, t, load, factor) >= 0.0
    ensures Part(c, t, load, factor) >= 0.0
  {
    hide Part, Wh;
    var w := Wh(load, factor);
    Weighted(a, t, load, factor);
    Weighted(b, t, load, factor);
    Weighted(c, t, load, factor);
    WholeIsOne(a, b, c, t);
    assert a / t * w + b / t * w + c / t * w == (a / t + b / t + c / t) * w;
  }

  lemma Weighted(x: real, t: real, load: real, factor: real)
    requires x >= 0.0 && t > 0.0 && load >= 0.0 && factor > 0.0
    ensures Part(x, t, load, factor) == x / t * Wh(load, factor)
    ensures Part(x, t, load, factor) >= 0.0
  {
    var q := x / t;
    assert q * t == x;
    assert q >= 0.0;
    assert q * load >= 0.0;
    assert q * load * factor >= 0.0;
    assert q * load * factor == q * (load * factor);
  }

  lemma WholeIsOne(a: real, b: real, c: real, t: real)
    requires t == a + b + c > 0.0
    ensures a / t + b / t + c / t == 1.0
  {
    var x, y, z := a / t, b / t, c / t;
    assert x * t == a && y * t == b && z * t == c;
    assert (x + y + z - 1.0) * t == 0.0;
  }

  /** In every bucket the attributed energies add up to the load of the bucket. */
  lemma BucketConserves(b: Bucket, factor: real)
    requires factor > 0.0
    ensures var s := Share(b, factor);
            s.Total() == Wh(ServedLoad(b), factor) && s.solar >= 0.0 && s.battery >= 0.0 && s.charger >= 0.0
  {
    hide Part, Wh, SolarIn, BankOut, ChargerIn, BankIn;
    hide ServedLoad;
    var total := SolarIn(b) + ChargerIn(b) + BankOut(b);
    WhOfNothing(factor);
    if total > 0.0 {
      if ServedLoad(b) > 0.0 {
        Parts(SolarIn(b), BankOut(b), ChargerIn(b), total, ServedLoad(b), factor);
      }
    } else {
      NothingIn(b);
    }
  }

  lemma NothingIn(b: Bucket)
    requires SolarIn(b) + ChargerIn(b) + BankOut(b) <= 0.0
    ensures ServedLoad(b) == 0.0
  {
  }

  lemma WhOfNothing(factor: real)
    ensures Wh(0.0, factor) == 0.0
  {
  }

  lemma WhAdds(a: real, b: real, factor: real)
    ensures Wh(a + b, factor) == Wh(a, factor) + Wh(b, factor)
  {
  }

  lemma WhSign(a: real, factor: real)
    requires factor > 0.0
    ensures Wh(a, factor) > 0.0 <==> a > 0.0
    ensures Wh(a, factor) < 0.0 <==> a < 0.0
  {
  }

  /** What a bucket's readings mean: missing and negative inputs count as none; the bank charges or discharges. */
  lemma InputsSpelled(b: Bucket)
    ensures SolarIn(b) == if b.solar.Some? && b.solar.value > 0.0 then b.solar.value else 0.0
    ensures ChargerIn(b) == if b.charger.Some? && b.charger.value > 0.0 then b.charger.value else 0.0
    ensures BankIn(b) - BankOut(b) == if b.bank.Some? then b.bank.value else 0.0
    ensures BankIn(b) == 0.0 || BankOut(b) == 0.0
    ensures NetLoad(b) == SolarIn(b) + ChargerIn(b) - (BankIn(b) - BankOut(b))
    ensures ServedLoad(b) == Max0(NetLoad(b))
  {
  }

  /** In every bucket each source is credited in proportion to what it puts in. */
  lemma SharesAreProportional(b: Bucket, factor: real)
    ensures var s := Share(b, factor);
            && s.solar * ChargerIn(b) == s.charger * SolarIn(b)
            && s.solar * BankOut(b) == s.battery * SolarIn(b)
            && s.charger * BankOut(b) == s.battery * ChargerIn(b)
  {
    hide Part, SolarIn, ChargerIn, BankOut, ServedLoad;
    var t, load := SolarIn(b) + ChargerIn(b) + BankOut(b), ServedLoad(b);
    if t > 0.0 && load > 0.0 {
      PartsCross(SolarIn(b), ChargerIn(b), t, load, factor);
      PartsCross(SolarIn(b), BankOut(b), t, load, factor);
      PartsCross(ChargerIn(b), BankOut(b), t, load, factor);
    }
  }

  lemma PartsCross(x: real, y: real, t: real, load: real, factor: real)
    requires t > 0.0
    ensures Part(x, t, load, factor) * y == Part(y, t, load, factor) * x
  {
    var u, v, w := x / t, y / t, load * factor;
    assert u * t == x && v * t == y;
    PartIs(x, t, load, factor);
    PartIs(y, t, load, factor);
    hide Part;
    CrossProduct(u, v, t, w, x, y);
    assert u * load * factor == u * w && v * load * factor == v * w;
  }

  lemma CrossProduct(u: real, v: real, t: real, w: real, x: real, y: real)
    requires x == u * t && y == v * t
    ensures u * w * y == v * w * x
  {
    assert u * w * (v * t) == v * w * (u * t);
  }

  lemma {:induction false} SplitConserves(buckets: seq<Bucket>, factor: real)
    requires factor > 0.0
    ensures var s := Split(buckets, factor);
            && s.Total() == Wh(SumOf(ServedLoad, buckets), factor)
            && s.solar >= 0.0 && s.battery >= 0.0 && s.charger >= 0.0
    decreases |buckets|
  {
    hide Share, ServedLoad, Wh;
    if buckets == [] {
      WhOfNothing(factor);
    } else {
      var k := |buckets| - 1;
      SplitConserves(buckets[..k], factor);
      BucketConserves(buckets[k], factor);
      WhAdds(SumOf(ServedLoad, buckets[..k]), ServedLoad(buckets[k]), factor);
    }
  }

  // ---------- Percentages ----------

  datatype Breakdown = Breakdown(solar: real, battery: real, charger: real)

  function Percent(v: real, total: real): real
    requires total != 0.0
  {
    100.0 * v / total
  }

  /** `100 * v / (total or 1)`, before rounding. */
  function Percentages(s: Served): Breakdown {
    var total := if s.Total() == 0.0 then 1.0 else s.Total();
    Breakdown(Percent(s.solar, total), Percent(s.battery, total), Percent(s.charger, total))
  }

  /** The percentages total one hundred whenever anything was served, and zero otherwise. */
  lemma PercentagesTotal(buckets: seq<Bucket>, factor: real)
    requires factor > 0.0
    ensures var s := Split(buckets, factor);
            var p := Percentages(s);
            p.solar + p.battery + p.charger == if s.Total() > 0.0 then 100.0 else 0.0
  {
    hide Split, Percent, Wh, SumOf;
    SplitConserves(buckets, factor);
    var s := Split(buckets, factor);
    if s.Total() > 0.0 {
      PercentsOfWhole(s.solar, s.battery, s.charger, s.Total());
    } else {
      PercentOfNothing(1.0);
    }
  }

  /** Each percentage is that of its own source. */
  lemma PercentagesAreShares(s: Served)
    requires s.Total() > 0.0
    ensures var p := Percentages(s);
            && p.solar * s.Total() == 100.0 * s.solar
            && p.battery * s.Total() == 100.0 * s.battery
            && p.charger * s.Total() == 100.0 * s.charger
  {
    hide Percent;
    PercentTimes(s.solar, s.Total());
    PercentTimes(s.battery, s.Total());
    PercentTimes(s.charger, s.Total());
  }

  lemma PercentOfNothing(total: real)
    requires total > 0.0
    ensures Percent(0.0, total) == 0.0
  {
  }

  lemma PercentsOfWhole(a: real, b: real, c: real, t: real)
    requires t == a + b + c > 0.0
    ensures Percent(a, t) + Percent(b, t) + Percent(c, t) == 100.0
  {
    PercentTimes(a, t);
    PercentTimes(b, t);
    PercentTimes(c, t);
    var sum := Percent(a, t) + Percent(b, t) + Percent(c, t);
    hide Percent;
    assert (sum - 100.0) * t == 0.0;
  }

  lemma PercentTimes(a: real, t: real)
    requires t > 0.0
    ensures Percent(a, t) * t == 100.0 * a
  {
  }

  // ---------- Served energy against the total load ----------

  lemma {:induction false} SumsAgree(buckets: seq<Bucket>)
    ensures SumOf(NetLoad, buckets)
         == SumOf(SolarIn, buckets) + SumOf(ChargerIn, buckets)
            + SumOf(BankOut, buckets) - SumOf(BankIn, buckets)
    decreases |buckets|
  {
    if buckets != [] {
      SumsAgree(buckets[..|buckets| - 1]);
    }
  }

  lemma LoadIsNetSum(buckets: seq<Bucket>, factor: real)
    ensures LoadWh(buckets, factor) == Max0(Wh(SumOf(NetLoad, buckets), factor))
  {
    hide SumOf, Wh;
    SumsAgree(buckets);
    var solar, charger := SumOf(SolarIn, buckets), SumOf(ChargerIn, buckets);
    var out, into := SumOf(BankOut, buckets), SumOf(BankIn, buckets);
    WhAdds(solar, charger, factor);
    WhAdds(solar + charger, out, factor);
    WhAdds(solar + charger + out - into, into, factor);
  }

  predicate NeverDraining(buckets: seq<Bucket>) {
    forall b <- buckets :: NetLoad(b) >= 0.0
  }

  predicate NeverServing(buckets: seq<Bucket>) {
    forall b <- buckets :: NetLoad(b) <= 0.0
  }

  lemma {:induction false} PositiveParts(buckets: seq<Bucket>)
    ensures var net, pos := SumOf(NetLoad, buckets), SumOf(ServedLoad, buckets);
            && pos >= 0.0 && pos >= net
            && (pos == net <==> NeverDraining(buckets))
            && (pos == 0.0 <==> NeverServing(buckets))
    decreases |buckets|
  {
    if buckets != [] {
      var rest, last := buckets[..|buckets| - 1], buckets[|buckets| - 1];
      PositiveParts(rest);
      assert buckets == rest + [last];
      assert NeverDraining(buckets) <==> NeverDraining(rest) && NetLoad(last) >= 0.0;
      assert NeverServing(buckets) <==> NeverServing(rest) && NetLoad(last) <= 0.0;
    }
  }

  /** The energy attributed is never less than the reported load; they agree exactly when the buckets do not
      include both one that serves load and one whose bank charging exceeds its sources. */
  lemma ServedAgainstLoad(buckets: seq<Bucket>, factor: real)
    requires factor > 0.0
    ensures Split(buckets, factor).Total() >= LoadWh(buckets, factor)
    ensures Split(buckets, factor).Total() == LoadWh(buckets, factor)
       <==> NeverDraining(buckets) || NeverServing(buckets)
  {
    hide LoadWh, Split, NeverDraining, NeverServing, SumOf, Max0, Wh;
    SplitConserves(buckets, factor);
    LoadIsNetSum(buckets, factor);
    PositiveParts(buckets);
    ScaledOrder(SumOf(NetLoad, buckets), SumOf(ServedLoad, buckets), factor);
  }

  lemma ScaledOrder(net: real, pos: real, factor: real)
    requires factor > 0.0 && pos >= net && pos >= 0.0
    ensures Wh(pos, factor) >= Max0(Wh(net, factor))
    ensures Wh(pos, factor) == Max0(Wh(net, factor)) <==> pos == net || pos == 0.0
  {
    hide Wh;
    WhAdds(pos - net, net, factor);
    WhSign(pos - net, factor);
    WhSign(pos, factor);
    WhSign(net, factor);
  }
}
