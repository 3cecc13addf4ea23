/** The alert evaluator of `solar_monitor/alerts/engine.py`: cooldowns, the quiet-hours buffer, the capped
    history and hot rule reloads. The clock and the local hour are inputs. */
module AlertEngine {
  import opened Wrappers
  import opened Newest

  const HISTORY_CAP: nat := 200
  const ALARM: string := "alarm"

  datatype Rule = Rule(
    id: string, name: string, metric: string, op: string, threshold: real,
    severity: string, cooldown: int, transports: seq<string>, enabled: bool)

  datatype Event = Event(
    ruleId: string, name: string, severity: string, metric: string,
    value: real, threshold: real, op: string, ts: int)

  /** A hand-over to the transports; `deferred` ones come out of the quiet-hours buffer. */
  datatype Delivery = Delivery(event: Event, transports: seq<string>, deferred: bool)

  /** What became of an event held back when the buffer was flushed. */
  datatype Release = Release(delivery: Delivery, handed: bool)

  datatype State = State(
    rules: seq<Rule>,
    lastFired: map<string, int>,
    pending: seq<(Event, seq<string>)>,
    history: seq<Event>,
    wasQuiet: Option<bool>,
    delivered: seq<Delivery>,
    released: seq<Release>,
    fired: seq<Delivery>)

  /** The metrics that resolve to a number, by dotted path. */
  type Readings = map<string, real>

  predicate KnownOp(op: string) {
    op in {"lt", "lte", "gt", "gte", "eq", "neq"}
  }

  predicate Compare(op: string, a: real, b: real)
    requires KnownOp(op)
  {
    if op == "lt" then a < b
    else if op == "lte" then a <= b
    else if op == "gt" then a > b
    else if op == "gte" then a >= b
    else if op == "eq" then a == b
    else a != b
  }

  /** `start == end` means no window, as the constructor makes it. */
  predicate InWindow(quietHours: Option<(int, int)>, hour: int) {
    match quietHours
    case None => false
    case Some((start, end)) =>
      if start == end then false
      else if start < end then start <= hour < end
      else hour >= start || hour < end
  }

  function LastFire(lastFired: map<string, int>, id: string): int {
    if id in lastFired then lastFired[id] else 0
  }

  predicate Wants(rule: Rule, readings: Readings) {
    && rule.enabled
    && KnownOp(rule.op)
    && rule.metric in readings
    && Compare(rule.op, readings[rule.metric], rule.threshold)
  }

  predicate Fires(s: State, rule: Rule, readings: Readings, now: int) {
    Wants(rule, readings) && now - LastFire(s.lastFired, rule.id) >= rule.cooldown
  }

  function EventOf(rule: Rule, readings: Readings, now: int): Event
    requires rule.metric in readings
  {
    Event(rule.id, rule.name, rule.severity, rule.metric, readings[rule.metric], rule.threshold, rule.op, now)
  }

  predicate Deferred(rule: Rule, quiet: bool) {
    quiet && rule.severity != ALARM
  }

  function FireRule(s: State, rule: Rule, readings: Readings, now: int, quiet: bool): State
    requires rule.metric in readings
  {
    var event := EventOf(rule, readings, now);
    var handed := Delivery(event, rule.transports, Deferred(rule, quiet));
    s.(lastFired := s.lastFired[rule.id := now],
       history := LastOf(s.history + [event], HISTORY_CAP),
       fired := s.fired + [handed],
       pending := if handed.deferred then s.pending + [(event, rule.transports)] else s.pending,
       delivered := if handed.deferred then s.delivered else s.delivered + [handed])
  }

  /** One rule. While its event is handed over, the program waits, and reloads may come in. */
  function EvalRule(s: State, rule: Rule, readings: Readings, now: int, quiet: bool, reloads: seq<seq<Rule>>): State {
    if !Fires(s, rule, readings, now) then s
    else
      var t := FireRule(s, rule, readings, now, quiet);
      if Deferred(rule, quiet) then t else ReloadedAll(t, reloads)
  }

  function ReloadsAt(reloads: seq<seq<seq<Rule>>>, k: nat): seq<seq<Rule>> {
    if k < |reloads| then reloads[k] else []
  }

  /** The rules in order, as they were when the loop started; `reloads` come in at rule `k`, for each `k`. */
  function EvalRules(s: State, rules: seq<Rule>, readings: Readings, now: int, quiet: bool,
                     reloads: seq<seq<seq<Rule>>>): State
    decreases |rules|
  {
    if rules == [] then s
    else
      var k := |rules| - 1;
      EvalRule(EvalRules(s, rules[..k], readings, now, quiet, reloads), rules[k], readings, now, quiet,
               ReloadsAt(reloads, k))
  }

  lemma EvalNoRules(s: State, readings: Readings, now: int, quiet: bool, reloads: seq<seq<seq<Rule>>>)
    ensures EvalRules(s, [], readings, now, quiet, reloads) == s
  {
  }

  lemma EvalRulesNext(s: State, rules: seq<Rule>, k: nat, readings: Readings, now: int, quiet: bool,
                      reloads: seq<seq<seq<Rule>>>)
    requires k < |rules|
    ensures EvalRules(s, rules[..k + 1], readings, now, quiet, reloads)
         == EvalRule(EvalRules(s, rules[..k], readings, now, quiet, reloads), rules[k], readings, now, quiet,
                     ReloadsAt(reloads, k))
  {
    hide EvalRule, ReloadsAt;
    assert rules[..k + 1][..k] == rules[..k];
  }

  function AsDeliveries(pending: seq<(Event, seq<string>)>): (d: seq<Delivery>)
    ensures |d| == |pending|
    ensures forall i :: 0 <= i < |d| ==> d[i] == Delivery(pending[i].0, pending[i].1, true)
  {
    seq(|pending|, i requires 0 <= i < |pending| => Delivery(pending[i].0, pending[i].1, true))
  }

  function Releases(ds: seq<Delivery>, handed: nat): (r: seq<Release>)
    ensures |r| == |ds|
    ensures forall i :: 0 <= i < |r| ==> r[i] == Release(ds[i], i < handed)
  {
    seq(|ds|, i requires 0 <= i < |ds| => Release(ds[i], i < handed))
  }

  /** The buffer is emptied first; then the events in it are handed over, the first `handed` of them. */
  function Flushed(s: State, handed: nat): State {
    var all := AsDeliveries(s.pending);
    s.(delivered := s.delivered + (if handed < |all| then all[..handed] else all),
       released := s.released + Releases(all, handed),
       pending := [])
  }

  /** Where an evaluation is cancelled, if it is: in the flush, when `handed` hand-overs have begun, or after the first
      `count` rules. */
  datatype Cut = Never | InFlush(handed: nat) | AfterRules(count: nat)

  predicate Flushes(s: State, quiet: bool) {
    s.wasQuiet == Some(true) && !quiet
  }

  /** The falling edge, before the rules. */
  function Started(s: State, quiet: bool): State {
    (if Flushes(s, quiet) then Flushed(s, |s.pending|) else s).(wasQuiet := Some(quiet))
  }

  function Uncut(rules: seq<Rule>, cut: Cut): seq<Rule> {
    if cut.AfterRules? && cut.count < |rules| then rules[..cut.count] else rules
  }

  function Evaluated(s: State, readings: Readings, now: int, quiet: bool, reloads: seq<seq<seq<Rule>>>, cut: Cut): State
  {
    if cut.InFlush? && Flushes(s, quiet) then Flushed(s, cut.handed)
    else EvalRules(Started(s, quiet), Uncut(s.rules, cut), readings, now, quiet, reloads)
  }

  predicate Live(rules: seq<Rule>, id: string) {
    exists r <- rules :: r.id == id
  }

  function Reloaded(s: State, rules: seq<Rule>): State {
    s.(rules := rules, lastFired := map id | id in s.lastFired && Live(rules, id) :: s.lastFired[id])
  }

  function ReloadedAll(s: State, reloads: seq<seq<Rule>>): State
    decreases |reloads|
  {
    if reloads == [] then s else ReloadedAll(Reloaded(s, reloads[0]), reloads[1..])
  }

  function FreshState(rules: seq<Rule>): State {
    State(rules, map[], [], [], None, [], [], [])
  }

  function Events(deliveries: seq<Delivery>): (events: seq<Event>)
    ensures |events| == |deliveries|
    ensures forall i :: 0 <= i < |events| ==> events[i] == deliveries[i].event
  {
    seq(|deliveries|, i requires 0 <= i < |deliveries| => deliveries[i].event)
  }

  lemma EventsNext(ds: seq<Delivery>, d: Delivery)
    ensures Events(ds + [d]) == Events(ds) + [d.event]
  {
  }

  class Engine {
    var rules: seq<Rule>
    const quietHours: Option<(int, int)>
    var lastFired: map<string, int>
    var pending: seq<(Event, seq<string>)>
    var history: seq<Event>
    var wasQuiet: Option<bool>
    ghost var delivered: seq<Delivery>
    ghost var released: seq<Release>
    ghost var everFired: seq<Delivery>

    ghost function Now(): State
      reads this
    {
      State(rules, lastFired, pending, history, wasQuiet, delivered, released, everFired)
    }

    constructor (rules: seq<Rule>, quietHours: Option<(int, int)>)
      ensures Now() == FreshState(rules)
      ensures forall hour: int :: InWindow(this.quietHours, hour) <==> InWindow(quietHours, hour)
    {
      this.rules := rules;
      this.quietHours := if quietHours.Some? && quietHours.value.0 == quietHours.value.1 then None else quietHours;
      lastFired, pending, history, wasQuiet := map[], [], [], None;
      delivered, released, everFired := [], [], [];
    }

    /** `reloads` are the calls of `ReloadRules` that come in while an event is handed over, for each rule. */
    method Evaluate(readings: Readings, now: int, hour: int, reloads: seq<seq<seq<Rule>>>, cut: Cut)
      returns (fired: seq<Event>)
      modifies this
      ensures Now() == Evaluated(old(Now()), readings, now, InWindow(quietHours, hour), reloads, cut)
      ensures Events(everFired) == Events(old(everFired)) + fired
    {
      hide EvalRule, EvalRules, Events, InWindow, ReloadsAt, Flushed;
      var quiet := InWindow(quietHours, hour);
      if wasQuiet == Some(true) && !quiet {
        FlushPending(if cut.InFlush? then cut.handed else |pending|);
        if cut.InFlush? {
          return [];
        }
      }
      wasQuiet := Some(quiet);
      ghost var start := Now();
      var current := Uncut(rules, cut);
      fired := [];
      assert current[..0] == [];
      EvalNoRules(start, readings, now, quiet, reloads);
      for k := 0 to |current|
        invariant Now() == EvalRules(start, current[..k], readings, now, quiet, reloads)
        invariant Events(everFired) == Events(start.fired) + fired
      {
        EvalRulesNext(start, current, k, readings, now, quiet, reloads);
        var event := Consider(current[k], readings, now, quiet, ReloadsAt(reloads, k));
        ghost var before := fired;
        if event.Some? {
          fired := fired + [event.value];
        }
        assert Events(everFired) == Events(start.fired) + before + (if event.Some? then [event.value] else []);
      }
      assert current[..|current|] == current;
    }

    /** One rule of the evaluation loop. */
    method Consider(rule: Rule, readings: Readings, now: int, quiet: bool, reloads: seq<seq<Rule>>)
      returns (fired: Option<Event>)
      modifies this
      ensures Now() == EvalRule(old(Now()), rule, readings, now, quiet, reloads)
      ensures Events(everFired) == Events(old(everFired)) + (if fired.Some? then [fired.value] else [])
    {
      hide LastOf, ReloadedAll, Events;
      if !rule.enabled || !KnownOp(rule.op) || rule.metric !in readings {
        return None;
      }
      if !Compare(rule.op, readings[rule.metric], rule.threshold) {
        return None;
      }
      var last := if rule.id in lastFired then lastFired[rule.id] else 0;
      if now - last < rule.cooldown {
        return None;
      }
      var event := Fire(rule, readings, now, quiet);
      fired := Some(event);
      if !Deferred(rule, quiet) {
        ReloadsComeIn(reloads);
      }
    }

    /** A rule that fires: its event is remembered, and held back or handed over. */
    method Fire(rule: Rule, readings: Readings, now: int, quiet: bool) returns (event: Event)
      requires rule.metric in readings
      modifies this
      ensures Now() == FireRule(old(Now()), rule, readings, now, quiet)
      ensures Events(everFired) == Events(old(everFired)) + [event]
    {
      hide Events, LastOf, EventOf, Deferred;
      event := EventOf(rule, readings, now);
      var deferred := Deferred(rule, quiet);
      lastFired := lastFired[rule.id := now];
      EventsNext(everFired, Delivery(event, rule.transports, deferred));
      everFired := everFired + [Delivery(event, rule.transports, deferred)];
      Remember(event);
      if deferred {
        pending := pending + [(event, rule.transports)];
      } else {
        delivered := delivered + [Delivery(event, rule.transports, deferred)];
      }
    }

    method Remember(event: Event)
      modifies this`history
      ensures history == LastOf(old(history) + [event], HISTORY_CAP)
    {
      history := history + [event];
      if |history| > HISTORY_CAP {
        history := history[|history| - HISTORY_CAP..];
      }
    }

    method ReloadsComeIn(reloads: seq<seq<Rule>>)
      modifies this
      ensures Now() == ReloadedAll(old(Now()), reloads)
      ensures everFired == old(everFired)
    {
      hide Reloaded;
      for i := 0 to |reloads|
        invariant ReloadedAll(Now(), reloads[i..]) == ReloadedAll(old(Now()), reloads)
        invariant everFired == old(everFired)
      {
        assert reloads[i..][1..] == reloads[i + 1..];
        ReloadRules(reloads[i]);
      }
    }

    /** Cancelled after `handed` hand-overs have begun, if there are that many events. */
    method FlushPending(handed: nat)
      modifies this
      ensures Now() == Flushed(old(Now()), handed)
      ensures rules == old(rules) && everFired == old(everFired)
    {
      hide Releases;
      var flushing := pending;
      pending := [];
      ghost var before, all := delivered, AsDeliveries(flushing);
      ghost var after := released + Releases(all, handed);
      released := after;
      assert all[..0] == [] && before + [] == before;
      var i: nat := 0;
      while i < |flushing| && i < handed
        invariant i <= |flushing| && i <= handed
        invariant delivered == before + all[..i]
        invariant Now() == old(Now()).(pending := [], released := after, delivered := delivered)
      {
        delivered := delivered + [Delivery(flushing[i].0, flushing[i].1, true)];
        i := i + 1;
      }
      assert all[..|flushing|] == all;
    }

    method ReloadRules(newRules: seq<Rule>)
      modifies this
      ensures Now() == Reloaded(old(Now()), newRules)
      ensures everFired == old(everFired)
    {
      rules := newRules;
      lastFired := map id | id in lastFired && Live(newRules, id) :: lastFired[id];
    }

    method RecentEventsSince(ts: int, limit: int) returns (recent: seq<Event>)
      ensures recent == LastOf(SuffixAfter(history, ts), if limit < 1 then 1 else limit)
    {
      hide SuffixAfter;
      recent := [];
      var k := |history|;
      assert history[..k] == history;
      while k > 0
        invariant 0 <= k <= |history|
        invariant SuffixAfter(history, ts) == SuffixAfter(history[..k], ts) + recent
        invariant recent == [] || |recent| < limit
        decreases k
      {
        SuffixStep(history[..k], ts);
        assert history[..k][..k - 1] == history[..k - 1];
        if history[k - 1].ts <= ts {
          return;
        }
        recent := [history[k - 1]] + recent;
        k := k - 1;
        if |recent| >= limit {
          return;
        }
      }
      SuffixOfNothing(ts);
      assert history[..0] == [];
    }
  }

  lemma SuffixOfNothing(ts: int)
    ensures SuffixAfter([], ts) == []
  {
  }

  lemma SuffixStep(events: seq<Event>, ts: int)
    requires events != []
    ensures var last := events[|events| - 1];
            SuffixAfter(events, ts) == if last.ts <= ts then [] else SuffixAfter(events[..|events| - 1], ts) + [last]
  {
  }

  /** The longest tail of the history whose events are all later than `ts`. */
  function SuffixAfter(events: seq<Event>, ts: int): seq<Event>
    decreases |events|
  {
    if events == [] || events[|events| - 1].ts <= ts then []
    else SuffixAfter(events[..|events| - 1], ts) + [events[|events| - 1]]
  }
}
