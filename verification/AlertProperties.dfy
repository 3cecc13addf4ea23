/** What every run of the alert engine keeps: no alert is sent twice or lost, but for what a cancelled flush had not
    begun to hand over; alarms are never held back; a rule fires early exactly when its last fire was forgotten; the
    feed of recent events is complete. */
module AlertProperties {
  import opened Wrappers
  import opened Newest
  import opened AlertEngine

  // ---------- Conservation ----------

  function Deferrals(ds: seq<Delivery>): seq<Delivery> {
    if ds == [] then []
    else Deferrals(ds[..|ds| - 1]) + if ds[|ds| - 1].deferred then [ds[|ds| - 1]] else []
  }

  function Immediates(ds: seq<Delivery>): seq<Delivery> {
    if ds == [] then []
    else Immediates(ds[..|ds| - 1]) + if ds[|ds| - 1].deferred then [] else [ds[|ds| - 1]]
  }

  lemma OneMore(ds: seq<Delivery>, d: Delivery)
    ensures Deferrals(ds + [d]) == Deferrals(ds) + if d.deferred then [d] else []
    ensures Immediates(ds + [d]) == Immediates(ds) + if d.deferred then [] else [d]
  {
    assert (ds + [d])[..|ds|] == ds;
  }

  lemma {:induction false} AllDeferred(ds: seq<Delivery>, more: seq<Delivery>)
    requires forall d <- more :: d.deferred
    ensures Deferrals(ds + more) == Deferrals(ds) + more
    ensures Immediates(ds + more) == Immediates(ds)
    decreases |more|
  {
    hide Deferrals, Immediates, Events;
    if more == [] {
      assert ds + more == ds;
      assert Deferrals(ds) + more == Deferrals(ds);
    } else {
      var before, last := more[..|more| - 1], more[|more| - 1];
      assert more == before + [last];
      assert forall d <- before :: d in more;
      assert last in more;
      AllDeferred(ds, before);
      assert ds + more == (ds + before) + [last];
      OneMore(ds + before, last);
      assert Deferrals(ds) + more == Deferrals(ds) + before + [last];
    }
  }

  function All(rs: seq<Release>): (ds: seq<Delivery>)
    ensures |ds| == |rs|
    ensures forall i :: 0 <= i < |rs| ==> ds[i] == rs[i].delivery
  {
    seq(|rs|, i requires 0 <= i < |rs| => rs[i].delivery)
  }

  /** The released events that were handed over, or those that were not, in order. */
  function WithFate(rs: seq<Release>, handed: bool): seq<Delivery>
    decreases |rs|
  {
    if rs == [] then []
    else (if rs[0].handed == handed then [rs[0].delivery] else []) + WithFate(rs[1..], handed)
  }

  function Handed(rs: seq<Release>): seq<Delivery> {
    WithFate(rs, true)
  }

  function Lost(rs: seq<Release>): seq<Delivery> {
    WithFate(rs, false)
  }

  lemma {:induction false} FatesConcat(a: seq<Release>, b: seq<Release>, handed: bool)
    ensures WithFate(a + b, handed) == WithFate(a, handed) + WithFate(b, handed)
    decreases |a|
  {
    hide WithFate;
    if a == [] {
      assert a + b == b;
      NoFates(handed);
      assert [] + WithFate(b, handed) == WithFate(b, handed);
    } else {
      FatesConcat(a[1..], b, handed);
      assert (a + b)[1..] == a[1..] + b && (a + b)[0] == a[0];
      FirstFate(a, handed);
      FirstFate(a + b, handed);
      var first := if a[0].handed == handed then [a[0].delivery] else [];
      Reassociate(first, WithFate(a[1..], handed), WithFate(b, handed));
    }
  }

  lemma NoFates(handed: bool)
    ensures WithFate([], handed) == []
  {
  }

  lemma FirstFate(rs: seq<Release>, handed: bool)
    requires rs != []
    ensures WithFate(rs, handed)
         == (if rs[0].handed == handed then [rs[0].delivery] else []) + WithFate(rs[1..], handed)
  {
  }

  lemma Reassociate<T>(a: seq<T>, b: seq<T>, c: seq<T>)
    ensures a + (b + c) == (a + b) + c
  {
  }

  /** All handed over, or none. */
  lemma {:induction false} FatesUniform(rs: seq<Release>, handed: bool)
    requires forall r <- rs :: r.handed == handed
    ensures WithFate(rs, handed) == All(rs) && WithFate(rs, !handed) == []
    decreases |rs|
  {
    if rs != [] {
      assert rs[0] in rs;
      assert forall r <- rs[1..] :: r in rs;
      FatesUniform(rs[1..], handed);
      assert All(rs) == [rs[0].delivery] + All(rs[1..]);
    }
  }

  function Begun(ds: seq<Delivery>, handed: nat): nat {
    if handed < |ds| then handed else |ds|
  }

  /** A flush hands over a prefix of the buffer and loses the rest of it. */
  lemma FlushSplits(ds: seq<Delivery>, handed: nat)
    ensures Handed(Releases(ds, handed)) == ds[..Begun(ds, handed)]
    ensures Lost(Releases(ds, handed)) == ds[Begun(ds, handed)..]
    ensures All(Releases(ds, handed)) == ds
  {
    hide WithFate;
    var rs, n := Releases(ds, handed), Begun(ds, handed);
    assert rs == rs[..n] + rs[n..];
    FatesConcat(rs[..n], rs[n..], true);
    FatesConcat(rs[..n], rs[n..], false);
    FatesUniform(rs[..n], true);
    FatesUniform(rs[n..], false);
    assert All(rs[..n]) == ds[..n] && All(rs[n..]) == ds[n..];
  }

  /** Every fire that was held back was released or is held back still, in firing order; of the released ones, those
      handed over were handed over in that order; the other fires were handed over at once; no alarm is held back;
      something is held back only while the last look was in quiet hours; and the history is the last 200 fires. */
  predicate Conserved(s: State) {
    && Deferrals(s.fired) == All(s.released) + AsDeliveries(s.pending)
    && Deferrals(s.delivered) == Handed(s.released)
    && Immediates(s.fired) == Immediates(s.delivered)
    && (forall p <- s.pending :: p.0.severity != ALARM)
    && (s.pending != [] ==> s.wasQuiet == Some(true))
    && s.history == LastOf(Events(s.fired), HISTORY_CAP)
  }

  lemma FlushConserves(s: State, handed: nat)
    requires Conserved(s)
    ensures Conserved(Flushed(s, handed))
    ensures var all := AsDeliveries(s.pending);
            Lost(Flushed(s, handed).released) == Lost(s.released) + all[Begun(all, handed)..]
  {
    hide Events, LastOf, Deferrals, Immediates, WithFate, Releases;
    var all := AsDeliveries(s.pending);
    var rs, part := Releases(all, handed), all[..Begun(all, handed)];
    FlushSplits(all, handed);
    AllDeferred(s.delivered, part);
    FatesConcat(s.released, rs, true);
    FatesConcat(s.released, rs, false);
    assert All(s.released + rs) == All(s.released) + all;
    assert AsDeliveries([]) == [];
    assert all[..|all|] == all;
    assert All(s.released) + all + [] == All(s.released) + all;
  }

  lemma HistoryGrows(fired: seq<Event>, event: Event)
    ensures LastOf(LastOf(fired, HISTORY_CAP) + [event], HISTORY_CAP) == LastOf(fired + [event], HISTORY_CAP)
  {
  }

  lemma FireConserves(s: State, rule: Rule, readings: Readings, now: int, quiet: bool)
    requires Conserved(s) && s.wasQuiet == Some(quiet) && rule.metric in readings
    ensures Conserved(FireRule(s, rule, readings, now, quiet))
  {
    hide Events, LastOf, Deferrals, Immediates, WithFate, All;
    var event := EventOf(rule, readings, now);
    var d := Delivery(event, rule.transports, Deferred(rule, quiet));
    var t := FireRule(s, rule, readings, now, quiet);
    OneMore(s.fired, d);
    OneMore(s.delivered, d);
    EventsNext(s.fired, d);
    HistoryGrows(Events(s.fired), event);
    if d.deferred {
      assert AsDeliveries(t.pending) == AsDeliveries(s.pending) + [d];
      assert All(s.released) + AsDeliveries(s.pending) + [d] == All(s.released) + AsDeliveries(t.pending);
    }
  }

  /** Reloads in the middle of an evaluation touch neither events nor the quiet state. */
  lemma {:induction false} ReloadsOnlyChangeRules(s: State, reloads: seq<seq<Rule>>)
    ensures var t := ReloadedAll(s, reloads);
            t == s.(rules := t.rules, lastFired := t.lastFired)
    decreases |reloads|
  {
    if reloads != [] {
      ReloadsOnlyChangeRules(Reloaded(s, reloads[0]), reloads[1..]);
    }
  }

  lemma {:induction false} RulesConserve(s: State, rules: seq<Rule>, readings: Readings, now: int, quiet: bool,
                                         reloads: seq<seq<seq<Rule>>>)
    requires Conserved(s) && s.wasQuiet == Some(quiet)
    ensures var t := EvalRules(s, rules, readings, now, quiet, reloads);
            Conserved(t) && t.wasQuiet == s.wasQuiet && t.released == s.released
    decreases |rules|
  {
    hide Conserved, Fires, FireRule, ReloadedAll, ReloadsAt;
    if rules != [] {
      var k := |rules| - 1;
      RulesConserve(s, rules[..k], readings, now, quiet, reloads);
      var t := EvalRules(s, rules[..k], readings, now, quiet, reloads);
      RuleConserves(t, rules[k], readings, now, quiet, ReloadsAt(reloads, k));
    }
  }

  lemma RuleConserves(s: State, rule: Rule, readings: Readings, now: int, quiet: bool, reloads: seq<seq<Rule>>)
    requires Conserved(s) && s.wasQuiet == Some(quiet)
    ensures var t := EvalRule(s, rule, readings, now, quiet, reloads);
            Conserved(t) && t.wasQuiet == s.wasQuiet && t.released == s.released
  {
    hide Fires, Deferrals, Immediates, Events, LastOf, WithFate, All;
    if Fires(s, rule, readings, now) {
      FiringHasReading(s, rule, readings, now);
      FireConserves(s, rule, readings, now, quiet);
      ReloadsOnlyChangeRules(FireRule(s, rule, readings, now, quiet), reloads);
    }
  }

  lemma FiringHasReading(s: State, rule: Rule, readings: Readings, now: int)
    requires Fires(s, rule, readings, now)
    ensures rule.metric in readings
    ensures now - LastFire(s.lastFired, rule.id) >= rule.cooldown
  {
  }

  /** An evaluation, with the reloads that come in at each of its rules and possibly cancelled, or a reload. */
  datatype Step =
    | Evaluate(readings: Readings, now: int, quiet: bool, reloads: seq<seq<seq<Rule>>>, cut: Cut)
    | Reload(rules: seq<Rule>)

  function Next(s: State, step: Step): State {
    match step
    case Evaluate(readings, now, quiet, reloads, cut) => Evaluated(s, readings, now, quiet, reloads, cut)
    case Reload(rules) => Reloaded(s, rules)
  }

  /** The step is cancelled while it flushes. */
  predicate CutsFlush(s: State, step: Step) {
    step.Evaluate? && step.cut.InFlush? && Flushes(s, step.quiet)
  }

  function Run(s: State, steps: seq<Step>): State
    decreases |steps|
  {
    if steps == [] then s else Run(Next(s, steps[0]), steps[1..])
  }

  function LostBy(s: State, step: Step): seq<Delivery> {
    var all := AsDeliveries(s.pending);
    if CutsFlush(s, step) then all[Begun(all, step.cut.handed)..] else []
  }

  /** A step conserves events, and loses exactly the part of the buffer that a cancelled flush had not begun with. */
  lemma StepConserves(s: State, step: Step)
    requires Conserved(s)
    ensures Conserved(Next(s, step))
    ensures step.Evaluate? && !step.quiet ==> Next(s, step).pending == []
    ensures Lost(Next(s, step).released) == Lost(s.released) + LostBy(s, step)
  {
    hide Deferrals, Immediates, EvalRules, Events, LastOf, HISTORY_CAP, Flushed, WithFate, All;
    if step.Evaluate? {
      var all := AsDeliveries(s.pending);
      FlushConserves(s, if CutsFlush(s, step) then step.cut.handed else |s.pending|);
      assert all[|all|..] == [];
      FlushEmpties(s, if CutsFlush(s, step) then step.cut.handed else |s.pending|);
      if !CutsFlush(s, step) {
        var start := Started(s, step.quiet);
        StillConserved(if Flushes(s, step.quiet) then Flushed(s, |s.pending|) else s, step.quiet);
        RulesConserve(start, Uncut(s.rules, step.cut), step.readings, step.now, step.quiet, step.reloads);
      }
    }
  }

  lemma FlushEmpties(s: State, handed: nat)
    ensures Flushed(s, handed).pending == [] && Flushed(s, handed).wasQuiet == s.wasQuiet
  {
  }

  lemma StillConserved(s: State, quiet: bool)
    requires Conserved(s) && (s.pending != [] ==> quiet)
    ensures Conserved(s.(wasQuiet := Some(quiet)))
  {
  }

  lemma {:induction false} RunConserves(s: State, steps: seq<Step>)
    requires Conserved(s)
    ensures Conserved(Run(s, steps))
    decreases |steps|
  {
    hide Conserved, Next;
    if steps != [] {
      StepConserves(s, steps[0]);
      RunConserves(Next(s, steps[0]), steps[1..]);
    }
  }

  /** Without a cancelled flush nothing is lost. */
  lemma {:induction false} RunLosesNothing(s: State, steps: seq<Step>)
    requires Conserved(s) && forall step <- steps :: step.Evaluate? ==> !step.cut.InFlush?
    ensures Lost(Run(s, steps).released) == Lost(s.released)
    decreases |steps|
  {
    hide Conserved, Next, Lost;
    if steps != [] {
      assert steps[0] in steps;
      StepConserves(s, steps[0]);
      assert forall step <- steps[1..] :: step in steps;
      RunLosesNothing(Next(s, steps[0]), steps[1..]);
    }
  }

  lemma {:induction false} SplitByDeferral(ds: seq<Delivery>)
    ensures multiset(ds) == multiset(Deferrals(ds)) + multiset(Immediates(ds))
    decreases |ds|
  {
    hide Deferrals, Immediates;
    if ds == [] {
      NothingToSplit();
    } else {
      var before, last := ds[..|ds| - 1], ds[|ds| - 1];
      SplitByDeferral(before);
      OneMore(before, last);
      assert ds == before + [last];
    }
  }

  lemma NothingToSplit()
    ensures Deferrals([]) == [] && Immediates([]) == []
  {
  }

  lemma {:induction false} SplitByFate(rs: seq<Release>)
    ensures multiset(All(rs)) == multiset(Handed(rs)) + multiset(Lost(rs))
    decreases |rs|
  {
    if rs != [] {
      SplitByFate(rs[1..]);
      assert All(rs) == [rs[0].delivery] + All(rs[1..]);
    }
  }

  /** Over any run from the start, every fire has been handed over exactly once, is still held back, or was lost by a
      cancelled flush, and only one of these. */
  lemma EveryAlertOnce(rules: seq<Rule>, steps: seq<Step>)
    ensures var s := Run(FreshState(rules), steps);
            && multiset(s.fired)
               == multiset(s.delivered) + multiset(AsDeliveries(s.pending)) + multiset(Lost(s.released))
            && Conserved(s)
    ensures (forall step <- steps :: step.Evaluate? ==> !step.cut.InFlush?) ==>
              Lost(Run(FreshState(rules), steps).released) == []
  {
    hide Deferrals, Immediates, WithFate, All, Run;
    FreshIsConserved(rules);
    RunConserves(FreshState(rules), steps);
    var s := Run(FreshState(rules), steps);
    SplitByDeferral(s.fired);
    SplitByDeferral(s.delivered);
    SplitByFate(s.released);
    if forall step <- steps :: step.Evaluate? ==> !step.cut.InFlush? {
      RunLosesNothing(FreshState(rules), steps);
    }
  }

  lemma FreshIsConserved(rules: seq<Rule>)
    ensures Conserved(FreshState(rules)) && Lost(FreshState(rules).released) == []
  {
  }

  // ---------- Cooldowns ----------

  /** Every rule of this id waits at least `c` between fires. */
  predicate Waits(rules: seq<Rule>, id: string, c: int) {
    forall r <- rules :: r.id == id ==> r.cooldown >= c
  }

  /** From the fire numbered `from` on, fires of rule `id` are at least `c` apart, and the last one is remembered. */
  predicate Spaced(s: State, from: nat, id: string, c: int) {
    && (forall i :: from <= i < |s.fired| && s.fired[i].event.ruleId == id ==>
          id in s.lastFired && s.fired[i].event.ts <= s.lastFired[id])
    && (forall i, j :: from <= i < j < |s.fired| && s.fired[i].event.ruleId == id && s.fired[j].event.ruleId == id ==>
          s.fired[j].event.ts - s.fired[i].event.ts >= c)
  }

  lemma FireIsSpaced(s: State, from: nat, rule: Rule, readings: Readings, now: int, quiet: bool, id: string, c: int)
    requires Spaced(s, from, id, c) && c >= 0
    requires Fires(s, rule, readings, now) && (rule.id == id ==> rule.cooldown >= c)
    ensures Spaced(FireRule(s, rule, readings, now, quiet), from, id, c)
  {
    hide LastOf, Compare, KnownOp;
  }

  /** The rule stays, with a cooldown of at least `c`. */
  predicate KeepsRule(rules: seq<Rule>, id: string, c: int) {
    Live(rules, id) && Waits(rules, id, c)
  }

  /** The reloads of a step keep the rule. */
  predicate Keeps(step: Step, id: string, c: int) {
    match step
    case Evaluate(_, _, _, reloads, _) => forall at <- reloads, rules <- at :: KeepsRule(rules, id, c)
    case Reload(rules) => KeepsRule(rules, id, c)
  }

  lemma ReloadIsSpaced(s: State, from: nat, rules: seq<Rule>, id: string, c: int)
    requires Spaced(s, from, id, c) && KeepsRule(rules, id, c)
    ensures Spaced(Reloaded(s, rules), from, id, c) && Waits(Reloaded(s, rules).rules, id, c)
  {
  }

  lemma {:induction false} ReloadsAreSpaced(s: State, from: nat, reloads: seq<seq<Rule>>, id: string, c: int)
    requires Spaced(s, from, id, c) && Waits(s.rules, id, c)
    requires forall rules <- reloads :: KeepsRule(rules, id, c)
    ensures var t := ReloadedAll(s, reloads);
            Spaced(t, from, id, c) && Waits(t.rules, id, c)
    decreases |reloads|
  {
    hide Spaced, Waits, KeepsRule, Reloaded;
    if reloads != [] {
      assert reloads[0] in reloads;
      ReloadIsSpaced(s, from, reloads[0], id, c);
      assert forall later <- reloads[1..] :: later in reloads;
      ReloadsAreSpaced(Reloaded(s, reloads[0]), from, reloads[1..], id, c);
    }
  }

  lemma RuleIsSpaced(s: State, from: nat, rule: Rule, readings: Readings, now: int, quiet: bool,
                     reloads: seq<seq<Rule>>, id: string, c: int)
    requires Spaced(s, from, id, c) && Waits(s.rules, id, c) && c >= 0
    requires rule.id == id ==> rule.cooldown >= c
    requires forall rules <- reloads :: KeepsRule(rules, id, c)
    ensures var t := EvalRule(s, rule, readings, now, quiet, reloads);
            Spaced(t, from, id, c) && Waits(t.rules, id, c)
  {
    hide Spaced, Waits, KeepsRule, Fires;
    if Fires(s, rule, readings, now) {
      FiringHasReading(s, rule, readings, now);
      FireIsSpaced(s, from, rule, readings, now, quiet, id, c);
      ReloadsAreSpaced(FireRule(s, rule, readings, now, quiet), from, reloads, id, c);
    }
  }

  lemma {:induction false} RulesAreSpaced(s: State, from: nat, rules: seq<Rule>, readings: Readings, now: int,
                                          quiet: bool, reloads: seq<seq<seq<Rule>>>, id: string, c: int)
    requires Spaced(s, from, id, c) && Waits(s.rules, id, c) && c >= 0 && Waits(rules, id, c)
    requires forall at <- reloads, later <- at :: KeepsRule(later, id, c)
    ensures var t := EvalRules(s, rules, readings, now, quiet, reloads);
            Spaced(t, from, id, c) && Waits(t.rules, id, c)
    decreases |rules|
  {
    hide Spaced, EvalRule, KeepsRule;
    if rules != [] {
      var k := |rules| - 1;
      assert forall r <- rules[..k] :: r in rules;
      assert rules[k] in rules;
      RulesAreSpaced(s, from, rules[..k], readings, now, quiet, reloads, id, c);
      var t := EvalRules(s, rules[..k], readings, now, quiet, reloads);
      assert k < |reloads| ==> reloads[k] in reloads;
      RuleIsSpaced(t, from, rules[k], readings, now, quiet, ReloadsAt(reloads, k), id, c);
    }
  }

  lemma StepIsSpaced(s: State, from: nat, step: Step, id: string, c: int)
    requires Spaced(s, from, id, c) && c >= 0 && Waits(s.rules, id, c) && Keeps(step, id, c)
    ensures Spaced(Next(s, step), from, id, c) && Waits(Next(s, step).rules, id, c)
  {
    hide KeepsRule, EvalRules;
    if step.Reload? {
      ReloadIsSpaced(s, from, step.rules, id, c);
    } else if !CutsFlush(s, step) {
      var rules := Uncut(s.rules, step.cut);
      assert forall r <- rules :: r in s.rules;
      RulesAreSpaced(Started(s, step.quiet), from, rules, step.readings, step.now, step.quiet, step.reloads, id, c);
    }
  }

  lemma {:induction false} RunIsSpaced(s: State, from: nat, steps: seq<Step>, id: string, c: int)
    requires Spaced(s, from, id, c) && c >= 0 && Waits(s.rules, id, c)
    requires forall step <- steps :: Keeps(step, id, c)
    ensures Spaced(Run(s, steps), from, id, c)
    decreases |steps|
  {
    hide Next, Waits, Keeps, Spaced;
    if steps != [] {
      assert steps[0] in steps;
      StepIsSpaced(s, from, steps[0], id, c);
      assert forall later <- steps[1..] :: later in steps;
      RunIsSpaced(Next(s, steps[0]), from, steps[1..], id, c);
    }
  }

  /** Whatever the clock does and whatever happened before: while the reloads keep a rule, it never fires twice within
      its cooldown. So of two fires closer than that, the steps between them hold a reload that dropped the rule or
      lowered its cooldown; a drop before the first or after the second is not to blame. */
  lemma CooldownHolds(rules: seq<Rule>, before: seq<Step>, during: seq<Step>, id: string, c: int, i: nat, j: nat)
    requires var s := Run(FreshState(rules), before);
             && Waits(s.rules, id, c)
             && |s.fired| <= i < j < |Run(s, during).fired|
    requires c >= 1 && forall step <- during :: Keeps(step, id, c)
    ensures var fired := Run(Run(FreshState(rules), before), during).fired;
            fired[i].event.ruleId == id && fired[j].event.ruleId == id ==>
              fired[j].event.ts - fired[i].event.ts >= c && fired[i].event.ts != fired[j].event.ts
  {
    hide Run, Waits, Keeps, FreshState;
    var s := Run(FreshState(rules), before);
    RunIsSpaced(s, |s.fired|, during, id, c);
  }

  lemma NoSteps(s: State)
    ensures Run(s, []) == s
  {
  }

  lemma FirstStep(s: State, steps: seq<Step>)
    requires steps != []
    ensures Run(s, steps) == Run(Next(s, steps[0]), steps[1..])
  {
  }

  // ---------- When a rule may fire again ----------

  /** Reloads keep the last fire of a rule exactly when each of them keeps the rule. */
  lemma {:induction false} ReloadsRememberExactly(s: State, reloads: seq<seq<Rule>>, id: string)
    ensures var t := ReloadedAll(s, reloads);
            && (id in t.lastFired <==> id in s.lastFired && forall rules <- reloads :: Live(rules, id))
            && (id in t.lastFired ==> t.lastFired[id] == s.lastFired[id])
    decreases |reloads|
  {
    hide Live;
    if reloads != [] {
      ReloadsRememberExactly(Reloaded(s, reloads[0]), reloads[1..], id);
      assert reloads[0] in reloads && forall rules <- reloads :: rules == reloads[0] || rules in reloads[1..];
      assert forall rules <- reloads[1..] :: rules in reloads;
    }
  }

  /** A rule that fired at `then`, looked at again at `now` after some reloads, fires early exactly when one of them
      dropped it. */
  lemma EarlyFireExactly(s: State, rule: Rule, readings: Readings, then': int, quiet: bool,
                         reloads: seq<seq<Rule>>, again: Rule, readings': Readings, now: int)
    requires rule.metric in readings && again.id == rule.id && Wants(again, readings')
    requires now - then' < again.cooldown <= now
    ensures var t := ReloadedAll(FireRule(s, rule, readings, then', quiet), reloads);
            Fires(t, again, readings', now) <==> exists rules <- reloads :: !Live(rules, rule.id)
  {
    hide Live, Wants, LastOf;
    ReloadsRememberExactly(FireRule(s, rule, readings, then', quiet), reloads, rule.id);
  }

  /** Whether one of the reloads that come in while the rules are gone through drops the rule. */
  predicate RulesForget(s: State, rules: seq<Rule>, readings: Readings, now: int, quiet: bool,
                        reloads: seq<seq<seq<Rule>>>, id: string)
    decreases |rules|
  {
    if rules == [] then false
    else
      var k := |rules| - 1;
      var t := EvalRules(s, rules[..k], readings, now, quiet, reloads);
      || RulesForget(s, rules[..k], readings, now, quiet, reloads, id)
      || (&& Fires(t, rules[k], readings, now) && !Deferred(rules[k], quiet)
          && exists later <- ReloadsAt(reloads, k) :: !Live(later, id))
  }

  /** A reload of the step, one that does come in, drops the rule. */
  predicate Forgets(s: State, step: Step, id: string) {
    match step
    case Evaluate(readings, now, quiet, reloads, cut) =>
      && !CutsFlush(s, step)
      && RulesForget(Started(s, quiet), Uncut(s.rules, cut), readings, now, quiet, reloads, id)
    case Reload(rules) => !Live(rules, id)
  }

  predicate RunForgets(s: State, steps: seq<Step>, id: string)
    decreases |steps|
  {
    steps != [] && (Forgets(s, steps[0], id) || RunForgets(Next(s, steps[0]), steps[1..], id))
  }

  /** The fires of `t` continue those of `s`. */
  predicate Extends(s: State, t: State) {
    |s.fired| <= |t.fired| && t.fired[..|s.fired|] == s.fired
  }

  /** The rule did not fire on the way from `s` to `t`. */
  predicate Silent(s: State, t: State, id: string) {
    forall i :: |s.fired| <= i < |t.fired| ==> t.fired[i].event.ruleId != id
  }

  predicate RemembersUnless(s: State, t: State, id: string, forgets: bool) {
    && (id in t.lastFired <==> id in s.lastFired && !forgets)
    && (id in t.lastFired ==> t.lastFired[id] == s.lastFired[id])
  }

  lemma RuleRemembersExactly(s: State, rule: Rule, readings: Readings, now: int, quiet: bool,
                             reloads: seq<seq<Rule>>, id: string)
    ensures var t := EvalRule(s, rule, readings, now, quiet, reloads);
            && Extends(s, t)
            && (Silent(s, t, id) ==>
                  RemembersUnless(s, t, id, && Fires(s, rule, readings, now) && !Deferred(rule, quiet)
                                            && exists later <- reloads :: !Live(later, id)))
  {
    hide Live, Fires, LastOf;
    if Fires(s, rule, readings, now) {
      FiringHasReading(s, rule, readings, now);
      var fired := FireRule(s, rule, readings, now, quiet);
      assert fired.fired[|s.fired|].event.ruleId == rule.id;
      ReloadsOnlyChangeRules(fired, reloads);
      ReloadsRememberExactly(fired, reloads, id);
    }
  }

  lemma SilentSplits(s: State, t: State, u: State, id: string)
    requires Extends(s, t) && Extends(t, u)
    ensures Extends(s, u)
    ensures Silent(s, u, id) ==> Silent(s, t, id) && Silent(t, u, id)
  {
    assert u.fired[..|t.fired|][..|s.fired|] == u.fired[..|s.fired|];
    assert forall i :: 0 <= i < |t.fired| ==> u.fired[i] == t.fired[i];
  }

  lemma {:induction false} RulesRememberExactly(s: State, rules: seq<Rule>, readings: Readings, now: int, quiet: bool,
                                                reloads: seq<seq<seq<Rule>>>, id: string)
    ensures var t := EvalRules(s, rules, readings, now, quiet, reloads);
            && Extends(s, t)
            && (Silent(s, t, id) ==>
                  RemembersUnless(s, t, id, RulesForget(s, rules, readings, now, quiet, reloads, id)))
    decreases |rules|
  {
    hide EvalRule, Fires, Live, Silent, Deferred, ReloadsAt;
    if rules == [] {
      SilentItself(s, id);
    } else {
      var k := |rules| - 1;
      hide Extends;
      RulesRememberExactly(s, rules[..k], readings, now, quiet, reloads, id);
      var t := EvalRules(s, rules[..k], readings, now, quiet, reloads);
      RuleRemembersExactly(t, rules[k], readings, now, quiet, ReloadsAt(reloads, k), id);
      SilentSplits(s, t, EvalRules(s, rules, readings, now, quiet, reloads), id);
    }
  }

  lemma SilentItself(s: State, id: string)
    ensures Silent(s, s, id) && Extends(s, s)
  {
    assert s.fired[..|s.fired|] == s.fired;
  }

  lemma StepRemembersExactly(s: State, step: Step, id: string)
    ensures var t := Next(s, step);
            && Extends(s, t)
            && (Silent(s, t, id) ==> RemembersUnless(s, t, id, Forgets(s, step, id)))
  {
    hide EvalRules, RulesForget;
    SilentItself(s, id);
    if step.Evaluate? && !CutsFlush(s, step) {
      RulesRememberExactly(Started(s, step.quiet), Uncut(s.rules, step.cut), step.readings, step.now, step.quiet,
                           step.reloads, id);
    }
  }

  /** While a rule stays silent, its last fire is remembered exactly until a reload that comes in drops it. */
  lemma {:induction false} RunRemembersExactly(s: State, steps: seq<Step>, id: string)
    ensures var t := Run(s, steps);
            && Extends(s, t)
            && (Silent(s, t, id) ==> RemembersUnless(s, t, id, RunForgets(s, steps, id)))
    decreases |steps|
  {
    hide Next, Forgets, Silent, Extends;
    if steps == [] {
      SilentItself(s, id);
    } else {
      var t := Next(s, steps[0]);
      StepRemembersExactly(s, steps[0], id);
      RunRemembersExactly(t, steps[1..], id);
      SilentSplits(s, t, Run(t, steps[1..]), id);
    }
  }

  /** So after any run in which it stayed silent, a rule that last fired less than its cooldown ago fires again
      exactly when a reload that came in dropped it. */
  lemma EarlyAfterRunExactly(s: State, steps: seq<Step>, rule: Rule, readings: Readings, now: int)
    requires rule.id in s.lastFired && Silent(s, Run(s, steps), rule.id) && Wants(rule, readings)
    requires now - s.lastFired[rule.id] < rule.cooldown <= now
    ensures Fires(Run(s, steps), rule, readings, now) <==> RunForgets(s, steps, rule.id)
  {
    hide Run, RunForgets, Wants, Silent, Extends;
    RunRemembersExactly(s, steps, rule.id);
  }

  // ---------- What fires ----------

  /** Whether a reading lies where an operator asks for it. */
  predicate Met(op: string, value: real, threshold: real) {
    || (op == "lt" && value < threshold) || (op == "lte" && value <= threshold)
    || (op == "gt" && value > threshold) || (op == "gte" && value >= threshold)
    || (op == "eq" && value == threshold) || (op == "neq" && value != threshold)
  }

  /** A rule fires exactly when it is enabled, its reading is there and meets its threshold, and its last fire, if one
      is remembered, is its cooldown ago (else the clock itself has come that far). */
  lemma FiresExactly(s: State, rule: Rule, readings: Readings, now: int)
    ensures Fires(s, rule, readings, now) <==>
      && rule.enabled && rule.metric in readings && Met(rule.op, readings[rule.metric], rule.threshold)
      && now - (if rule.id in s.lastFired then s.lastFired[rule.id] else 0) >= rule.cooldown
  {
  }

  predicate DistinctIds(rules: seq<Rule>) {
    forall i, j :: 0 <= i < j < |rules| ==> rules[i].id != rules[j].id
  }

  /** The one new fire of rule `r` between `s` and `t`: what it says, who gets it, and whether it is held back. */
  predicate FiredOnce(s: State, t: State, r: Rule, readings: Readings, now: int, quiet: bool) {
    && r.metric in readings
    && exists i :: |s.fired| <= i < |t.fired|
         && t.fired[i] == FireOf(r, readings[r.metric], now, quiet)
         && forall j :: |s.fired| <= j < |t.fired| && j != i ==> t.fired[j].event.ruleId != r.id
  }

  function FireOf(r: Rule, value: real, now: int, quiet: bool): Delivery {
    Delivery(
      Event(r.id, r.name, r.severity, r.metric, value, r.threshold, r.op, now),
      r.transports, quiet && r.severity != "alarm")
  }

  lemma FiresLast(s: State, before: State, t: State, r: Rule, readings: Readings, now: int, quiet: bool)
    requires r.metric in readings && Extends(s, before) && Silent(s, before, r.id)
    requires t.fired == before.fired + [FireOf(r, readings[r.metric], now, quiet)]
    ensures FiredOnce(s, t, r, readings, now, quiet)
  {
    assert t.fired[|before.fired|] == FireOf(r, readings[r.metric], now, quiet);
  }

  lemma FiredOnceStays(s: State, before: State, t: State, r: Rule, readings: Readings, now: int, quiet: bool)
    requires FiredOnce(s, before, r, readings, now, quiet) && Extends(before, t) && Silent(before, t, r.id)
    ensures FiredOnce(s, t, r, readings, now, quiet)
  {
    var i :| |s.fired| <= i < |before.fired| && before.fired[i] == FireOf(r, readings[r.metric], now, quiet)
             && forall j :: |s.fired| <= j < |before.fired| && j != i ==> before.fired[j].event.ruleId != r.id;
    assert forall j :: 0 <= j < |before.fired| ==> t.fired[j] == before.fired[j];
  }

  /** A rule that fires adds its event and nothing else; another adds nothing. */
  lemma RuleFires(s: State, rule: Rule, readings: Readings, now: int, quiet: bool, reloads: seq<seq<Rule>>)
    ensures var t := EvalRule(s, rule, readings, now, quiet, reloads);
            if Fires(s, rule, readings, now) then
              rule.metric in readings && t.fired == s.fired + [FireOf(rule, readings[rule.metric], now, quiet)]
            else t == s
  {
    hide Fires, LastOf;
    if Fires(s, rule, readings, now) {
      FiringHasReading(s, rule, readings, now);
      ReloadsOnlyChangeRules(FireRule(s, rule, readings, now, quiet), reloads);
    }
  }

  /** Only the rules gone through fire. */
  lemma {:induction false} OnlyTheseFire(s: State, rules: seq<Rule>, readings: Readings, now: int, quiet: bool,
                                         reloads: seq<seq<seq<Rule>>>, id: string)
    requires forall r <- rules :: r.id != id
    ensures Silent(s, EvalRules(s, rules, readings, now, quiet, reloads), id)
    decreases |rules|
  {
    hide EvalRule, Fires;
    if rules != [] {
      var k := |rules| - 1;
      assert rules[k] in rules && forall r <- rules[..k] :: r in rules;
      OnlyTheseFire(s, rules[..k], readings, now, quiet, reloads, id);
      var t := EvalRules(s, rules[..k], readings, now, quiet, reloads);
      RulesRememberExactly(s, rules[..k], readings, now, quiet, reloads, id);
      RuleFires(t, rules[k], readings, now, quiet, ReloadsAt(reloads, k));
    }
  }

  /** When rule `k` is due: its last fire is forgotten if a reload at an earlier rule dropped it. */
  predicate Due(s: State, rules: seq<Rule>, k: nat, readings: Readings, now: int, quiet: bool,
                reloads: seq<seq<seq<Rule>>>)
    requires k < |rules|
  {
    var r := rules[k];
    var remembered := r.id in s.lastFired && !RulesForget(s, rules[..k], readings, now, quiet, reloads, r.id);
    && r.enabled && r.metric in readings && Met(r.op, readings[r.metric], r.threshold)
    && now - (if remembered then s.lastFired[r.id] else 0) >= r.cooldown
  }

  lemma {:induction false} RulesFireExactly(s: State, rules: seq<Rule>, k: nat, readings: Readings, now: int,
                                            quiet: bool, reloads: seq<seq<seq<Rule>>>)
    requires k < |rules| && DistinctIds(rules)
    ensures var t := EvalRules(s, rules, readings, now, quiet, reloads);
            && Extends(s, t)
            && (Due(s, rules, k, readings, now, quiet, reloads) ==> FiredOnce(s, t, rules[k], readings, now, quiet))
            && (!Due(s, rules, k, readings, now, quiet, reloads) ==> Silent(s, t, rules[k].id))
    decreases |rules|
  {
    hide EvalRule, Fires, RulesForget, Met, ReloadsAt, FireOf, FiredOnce;
    var n, r := |rules| - 1, rules[k];
    var before := EvalRules(s, rules[..n], readings, now, quiet, reloads);
    var t := EvalRules(s, rules, readings, now, quiet, reloads);
    RulesRememberExactly(s, rules, readings, now, quiet, reloads, r.id);
    RulesRememberExactly(s, rules[..n], readings, now, quiet, reloads, r.id);
    RuleFires(before, rules[n], readings, now, quiet, ReloadsAt(reloads, n));
    if k == n {
      OnlyTheseFire(s, rules[..n], readings, now, quiet, reloads, r.id);
      FiresExactly(before, r, readings, now);
      if Fires(before, r, readings, now) {
        FiresLast(s, before, t, r, readings, now, quiet);
      }
    } else {
      assert rules[..n][..k] == rules[..k] && rules[..n][k] == r;
      RulesFireExactly(s, rules[..n], k, readings, now, quiet, reloads);
      OnlyThisFires(before, t, rules[n], readings, now, quiet, r.id);
      SilentJoins(s, before, t, r.id);
      if Due(s, rules, k, readings, now, quiet, reloads) {
        FiredOnceStays(s, before, t, r, readings, now, quiet);
      }
    }
  }

  lemma OnlyThisFires(s: State, t: State, rule: Rule, readings: Readings, now: int, quiet: bool, id: string)
    requires || t == s
             || (&& rule.metric in readings
                 && t.fired == s.fired + [FireOf(rule, readings[rule.metric], now, quiet)])
    requires rule.id != id
    ensures Extends(s, t) && Silent(s, t, id)
  {
    SilentItself(s, id);
  }

  lemma SilentJoins(s: State, t: State, u: State, id: string)
    requires Extends(s, t) && Extends(t, u) && Silent(t, u, id)
    ensures Silent(s, t, id) ==> Silent(s, u, id)
  {
    assert forall i :: 0 <= i < |t.fired| ==> u.fired[i] == t.fired[i];
  }

  /** Exactly the rules that are due fire in an evaluation, each once. */
  lemma EvaluationFiresExactly(s: State, readings: Readings, now: int, quiet: bool, reloads: seq<seq<seq<Rule>>>,
                               k: nat)
    requires k < |s.rules| && DistinctIds(s.rules)
    ensures var t := Evaluated(s, readings, now, quiet, reloads, Never);
            if Due(Started(s, quiet), s.rules, k, readings, now, quiet, reloads) then
              FiredOnce(s, t, s.rules[k], readings, now, quiet)
            else Silent(s, t, s.rules[k].id)
  {
    hide EvalRules, Due, FireOf;
    RulesFireExactly(Started(s, quiet), s.rules, k, readings, now, quiet, reloads);
  }

  /** Without reloads on the way: exactly the rules that are enabled, whose reading is there and meets the threshold,
      and that last fired their cooldown ago or longer. */
  lemma UndisturbedEvaluationFiresExactly(s: State, readings: Readings, now: int, quiet: bool, k: nat)
    requires k < |s.rules| && DistinctIds(s.rules)
    ensures var t, r := Evaluated(s, readings, now, quiet, [], Never), s.rules[k];
            if && r.enabled && r.metric in readings && Met(r.op, readings[r.metric], r.threshold)
               && now - (if r.id in s.lastFired then s.lastFired[r.id] else 0) >= r.cooldown
            then FiredOnce(s, t, r, readings, now, quiet)
            else Silent(s, t, r.id)
  {
    hide EvalRules, FireOf, FiredOnce, Silent, Met, RulesForget;
    EvaluationFiresExactly(s, readings, now, quiet, [], k);
    NothingForgets(Started(s, quiet), s.rules[..k], readings, now, quiet, s.rules[k].id);
  }

  lemma {:induction false} NothingForgets(s: State, rules: seq<Rule>, readings: Readings, now: int, quiet: bool,
                                          id: string)
    ensures !RulesForget(s, rules, readings, now, quiet, [], id)
    decreases |rules|
  {
    hide EvalRules, Fires;
    if rules != [] {
      NothingForgets(s, rules[..|rules| - 1], readings, now, quiet, id);
    }
  }

  /** The rule must be kept: dropped by one reload and restored by the next, it can repeat a time stamp. */
  lemma DroppedRuleCanRepeat(rule: Rule, readings: Readings, now: int)
    requires rule.enabled && KnownOp(rule.op) && rule.metric in readings
    requires Compare(rule.op, readings[rule.metric], rule.threshold) && now >= rule.cooldown >= 1
    ensures var again := Evaluate(readings, now, false, [], Never);
            var fired := Run(FreshState([rule]), [again, Reload([]), Reload([rule]), again]).fired;
            |fired| == 2 && fired[0].event == fired[1].event
  {
    var again := Evaluate(readings, now, false, [], Never);
    var s0 := FreshState([rule]);
    var s1 := Next(s0, again);
    OneRule(Started(s0, false), rule, readings, now, false);
    assert |s1.fired| == 1 && s1.fired[0].event == EventOf(rule, readings, now);
    var s2 := Next(s1, Reload([]));
    assert s2.lastFired == map[];
    var s3 := Next(s2, Reload([rule]));
    var s4 := Next(s3, again);
    OneRule(Started(s3, false), rule, readings, now, false);
    assert s4.fired == s1.fired + [s4.fired[1]];
    var steps := [again, Reload([]), Reload([rule]), again];
    FirstStep(s0, steps);
    assert steps[1..] == [Reload([]), Reload([rule]), again];
    FirstStep(s1, steps[1..]);
    assert steps[1..][1..] == [Reload([rule]), again];
    FirstStep(s2, [Reload([rule]), again]);
    assert [Reload([rule]), again][1..] == [again];
    FirstStep(s3, [again]);
    NoSteps(s4);
  }

  lemma OneRule(s: State, rule: Rule, readings: Readings, now: int, quiet: bool)
    ensures EvalRules(s, [rule], readings, now, quiet, []) == EvalRule(s, rule, readings, now, quiet, [])
  {
    assert [rule][..0] == [];
  }

  // ---------- Quiet hours ----------

  /** On the clock face, an hour is quiet exactly when fewer hours lead to it from the start of the window than lead
      from its start to its end. */
  lemma WindowByHours(start: int, end: int, hour: int)
    requires 0 <= start < 24 && 0 <= end < 24 && 0 <= hour < 24
    ensures InWindow(Some((start, end)), hour) <==> (hour - start) % 24 < (end - start) % 24
    ensures !InWindow(None, hour)
  {
  }

  // ---------- The feed of recent events ----------

  function After(events: seq<Event>, ts: int): seq<Event> {
    if events == [] then []
    else After(events[..|events| - 1], ts) + if events[|events| - 1].ts > ts then [events[|events| - 1]] else []
  }

  predicate InOrder(events: seq<Event>) {
    forall i, j :: 0 <= i < j < |events| ==> events[i].ts <= events[j].ts
  }

  lemma {:induction false} NoneAfter(events: seq<Event>, ts: int)
    requires forall e <- events :: e.ts <= ts
    ensures After(events, ts) == []
    decreases |events|
  {
    if events != [] {
      assert forall e <- events[..|events| - 1] :: e in events;
      NoneAfter(events[..|events| - 1], ts);
      assert events[|events| - 1] in events;
    }
  }

  /** In a history kept in order, stopping at the first old event misses nothing. */
  lemma {:induction false} SuffixIsComplete(events: seq<Event>, ts: int)
    requires InOrder(events)
    ensures SuffixAfter(events, ts) == After(events, ts)
    decreases |events|
  {
    if events != [] {
      var k := |events| - 1;
      if events[k].ts <= ts {
        forall e | e in events ensures e.ts <= ts {
          var i :| 0 <= i < |events| && events[i] == e;
        }
        NoneAfter(events, ts);
      } else {
        SuffixIsComplete(events[..k], ts);
      }
    }
  }

  /** Every fire so far is in order and not later than `now`. */
  predicate UpTo(s: State, now: int) {
    InOrder(Events(s.fired)) && forall i :: 0 <= i < |s.fired| ==> s.fired[i].event.ts <= now
  }

  predicate ClockAdvances(steps: seq<Step>, now: int)
    decreases |steps|
  {
    if steps == [] then true
    else if steps[0].Evaluate? then now <= steps[0].now && ClockAdvances(steps[1..], steps[0].now)
    else ClockAdvances(steps[1..], now)
  }

  lemma {:induction false} RulesInOrder(s: State, rules: seq<Rule>, readings: Readings, now: int, quiet: bool,
                                        reloads: seq<seq<seq<Rule>>>)
    requires UpTo(s, now)
    ensures UpTo(EvalRules(s, rules, readings, now, quiet, reloads), now)
    decreases |rules|
  {
    hide Fires, FireRule, ReloadedAll, ReloadsAt, InOrder, Events;
    if rules != [] {
      var k := |rules| - 1;
      RulesInOrder(s, rules[..k], readings, now, quiet, reloads);
      var t := EvalRules(s, rules[..k], readings, now, quiet, reloads);
      if Fires(t, rules[k], readings, now) {
        FiringHasReading(t, rules[k], readings, now);
        FireInOrder(t, rules[k], readings, now, quiet);
        ReloadsOnlyChangeRules(FireRule(t, rules[k], readings, now, quiet), ReloadsAt(reloads, k));
      }
    }
  }

  lemma FireInOrder(s: State, rule: Rule, readings: Readings, now: int, quiet: bool)
    requires UpTo(s, now) && rule.metric in readings
    ensures UpTo(FireRule(s, rule, readings, now, quiet), now)
  {
    hide LastOf;
    var t := FireRule(s, rule, readings, now, quiet);
    assert forall i :: 0 <= i < |s.fired| ==> t.fired[i] == s.fired[i];
  }

  lemma LaterBound(s: State, now: int, later: int)
    requires UpTo(s, now) && now <= later
    ensures UpTo(s, later)
  {
  }

  lemma {:induction false} RunInOrder(s: State, steps: seq<Step>, now: int)
    requires UpTo(s, now) && ClockAdvances(steps, now)
    ensures InOrder(Events(Run(s, steps).fired))
    decreases |steps|
  {
    hide EvalRules, InOrder, Events;
    if steps != [] {
      var step := steps[0];
      if step.Evaluate? {
        LaterBound(s, now, step.now);
        if !CutsFlush(s, step) {
          RulesInOrder(Started(s, step.quiet), Uncut(s.rules, step.cut), step.readings, step.now, step.quiet,
                       step.reloads);
        }
        RunInOrder(Next(s, step), steps[1..], step.now);
      } else {
        RunInOrder(Next(s, step), steps[1..], now);
      }
    }
  }

  lemma LastInOrder(events: seq<Event>, n: nat)
    requires InOrder(events)
    ensures InOrder(LastOf(events, n))
  {
  }

  /** With a clock that never steps back, the feed is the newest `limit` of all the events of the last 200
      fires that are later than `ts`. */
  lemma FeedIsComplete(rules: seq<Rule>, steps: seq<Step>, start: int, ts: int, limit: nat)
    requires ClockAdvances(steps, start)
    ensures var s := Run(FreshState(rules), steps);
            LastOf(SuffixAfter(s.history, ts), limit) == LastOf(After(LastOf(Events(s.fired), 200), ts), limit)
  {
    hide InOrder, Events, LastOf, After, SuffixAfter;
    var s := Run(FreshState(rules), steps);
    EveryAlertOnce(rules, steps);
    assert UpTo(FreshState(rules), start) by { NothingYet(rules, start); }
    RunInOrder(FreshState(rules), steps, start);
    LastInOrder(Events(s.fired), HISTORY_CAP);
    SuffixIsComplete(s.history, ts);
  }

  lemma NothingYet(rules: seq<Rule>, now: int)
    ensures UpTo(FreshState(rules), now)
  {
  }
}
