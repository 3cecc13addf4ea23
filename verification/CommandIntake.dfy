/** The guards around dispatching a verified cloud command (`solar_monitor/cloud/commands.py`): the replay ledger,
    the per-process set of dispatched ids and the on-disk file of tried ids, over restarts of the daemon. */
module CommandIntake {
  import opened Wrappers
  import opened Newest
  import CommandLedger

  const LEDGER_CAP: nat := 1000
  const TRIED_CAP: nat := 200
  const DISPATCHED_LIMIT: nat := 500
  const DISPATCHED_CAP: nat := 250

  datatype Kind = Update | Rollback | PinImageTag | Other

  predicate Spawning(kind: Kind) {
    !kind.Other?
  }

  /** `badVersion`: a version string or image reference is unacceptable. `named`: a version to pin is given. */
  datatype Command = Command(id: int, kind: Kind, badVersion: bool, named: bool)

  /** What the surroundings decide while a command is carried out. `atTarget`: the running version is the target.
      `docker`: the kind of installation, with a configured updater (`sidecar`) or not. `helper`: the rollback helper is
      installed. `ends`: a terminal status is reported at once, after a hand-over that failed or by a short command. */
  datatype Surroundings = Surroundings(atTarget: bool, docker: bool, sidecar: bool, helper: bool, ends: bool)

  /** Each spawning kind goes its own way, and has to be refused where that way is closed. */
  predicate Ready(cmd: Command, env: Surroundings) {
    match cmd.kind
    case Update => env.docker ==> env.sidecar
    case PinImageTag => env.docker && env.sidecar && cmd.named
    case Rollback => !env.docker && env.helper
    case Other => true
  }

  /** Tasks that wait to run, tasks past the guards and ids about to be reported as done; memory and disk; then what
      has happened so far (`dispatchLog` covers this process only). */
  datatype State = State(
    waiting: seq<Command>,
    started: seq<Command>,
    settling: seq<int>,
    dispatched: set<int>,
    tried: set<int>,
    ledger: seq<int>,
    spawned: multiset<int>,
    dispatchLog: multiset<int>,
    triedEver: set<int>,
    recorded: set<int>)

  function Recorded(s: State, id: int): State {
    s.(ledger := if id in s.ledger then s.ledger else KeepNewest(Elements(s.ledger) + {id}, LEDGER_CAP),
       recorded := s.recorded + {id})
  }

  function RememberDispatch(s: State, id: int): State {
    var kept :=
      if |s.dispatched| >= DISPATCHED_LIMIT then Elements(KeepNewest(s.dispatched, DISPATCHED_CAP)) else s.dispatched;
    s.(dispatched := kept + {id}, dispatchLog := s.dispatchLog + multiset{id})
  }

  function MarkTried(s: State, id: int): State {
    s.(tried := Elements(KeepNewest(s.tried + {id}, TRIED_CAP)), triedEver := s.triedEver + {id})
  }

  /** The heartbeat: a verified command that the ledger does not refuse becomes a task. */
  function Admitted(s: State, cmd: Command): State {
    if CommandLedger.Seen(s.ledger, LEDGER_CAP, cmd.id) then s else s.(waiting := s.waiting + [cmd])
  }

  /** The guards: what a task does before it first waits. A tried command whose target runs waits for a report to be
      sent before it is recorded. */
  function Guarded(s: State, cmd: Command, atTarget: bool): State {
    if cmd.id in s.dispatched then s
    else if Spawning(cmd.kind) && cmd.badVersion then Recorded(s, cmd.id)
    else
      var t := RememberDispatch(s, cmd.id);
      if Spawning(cmd.kind) && cmd.id in t.tried then
        if atTarget then t.(settling := t.settling + [cmd.id]) else Recorded(t, cmd.id)
      else
        var u := if Spawning(cmd.kind) then MarkTried(t, cmd.id) else t;
        u.(started := u.started + [cmd])
  }

  /** The work behind the guards: the spawn, for the kinds that have one, and the terminal report, if any. */
  function Carried(s: State, cmd: Command, env: Surroundings): State {
    if cmd.kind.Update? && env.atTarget then Recorded(s, cmd.id)
    else if !Ready(cmd, env) then Recorded(s, cmd.id)
    else
      var t := if Spawning(cmd.kind) then s.(spawned := s.spawned + multiset{cmd.id}) else s;
      if env.ends then Recorded(t, cmd.id) else t
  }

  /** A restart loses memory and every task, in whatever state it is, and keeps the disk. */
  function Restarted(s: State): State {
    s.(waiting := [], started := [], settling := [], dispatched := {}, dispatchLog := multiset{})
  }

  class Daemon {
    var waiting: seq<Command>
    var started: seq<Command>
    var settling: seq<int>
    var dispatched: set<int>
    var tried: set<int>
    var ledger: seq<int>
    var spawned: multiset<int>
    ghost var dispatchLog: multiset<int>
    ghost var triedEver: set<int>
    ghost var recorded: set<int>

    ghost function Now(): State
      reads this
    {
      State(waiting, started, settling, dispatched, tried, ledger, spawned, dispatchLog, triedEver, recorded)
    }

    constructor ()
      ensures Now() == FreshState()
    {
      waiting, started, settling := [], [], [];
      dispatched, tried, ledger, spawned := {}, {}, [], multiset{};
      dispatchLog, triedEver, recorded := multiset{}, {}, {};
    }

    method RecordTerminal(id: int)
      modifies this
      ensures Now() == Recorded(old(Now()), id)
    {
      if id !in ledger {
        ledger := KeepNewest(Elements(ledger) + {id}, LEDGER_CAP);
      }
      recorded := recorded + {id};
    }

    method Admit(cmd: Command)
      modifies this
      ensures Now() == Admitted(old(Now()), cmd)
    {
      if cmd.id in ledger || (|ledger| >= LEDGER_CAP && cmd.id < ledger[0]) {
        return;
      }
      waiting := waiting + [cmd];
    }

    /** A waiting task runs up to its first suspension. */
    method PassGuards(k: nat, atTarget: bool)
      requires k < |waiting|
      modifies this
      ensures Now() == Next(old(Now()), Guard(k, atTarget))
    {
      var cmd := waiting[k];
      waiting := waiting[..k] + waiting[k + 1..];
      CheckAndStart(cmd, atTarget);
    }

    method CheckAndStart(cmd: Command, atTarget: bool)
      modifies this
      ensures Now() == Guarded(old(Now()), cmd, atTarget)
    {
      hide KeepNewest, Elements, Recorded, RememberDispatch, MarkTried;
      if cmd.id in dispatched {
        return;
      }
      if Spawning(cmd.kind) && cmd.badVersion {
        RecordTerminal(cmd.id);
        return;
      }
      Remember(cmd.id);
      if Spawning(cmd.kind) {
        if cmd.id in tried {
          if atTarget {
            settling := settling + [cmd.id];
          } else {
            RecordTerminal(cmd.id);
          }
          return;
        }
        Mark(cmd.id);
      }
      started := started + [cmd];
    }

    method Remember(id: int)
      modifies this`dispatched, this`dispatchLog
      ensures Now() == RememberDispatch(old(Now()), id)
    {
      if |dispatched| >= DISPATCHED_LIMIT {
        dispatched := Elements(KeepNewest(dispatched, DISPATCHED_CAP));
      }
      dispatched := dispatched + {id};
      dispatchLog := dispatchLog + multiset{id};
    }

    method Mark(id: int)
      modifies this`tried, this`triedEver
      ensures Now() == MarkTried(old(Now()), id)
    {
      tried := Elements(KeepNewest(tried + {id}, TRIED_CAP));
      triedEver := triedEver + {id};
    }

    /** A tried command whose target runs is recorded as done. */
    method FinishSettling(k: nat)
      requires k < |settling|
      modifies this
      ensures Now() == Next(old(Now()), Settle(k))
    {
      hide Recorded;
      var id := settling[k];
      settling := settling[..k] + settling[k + 1..];
      RecordTerminal(id);
    }

    /** A task past the guards goes on. */
    method CarryOut(k: nat, env: Surroundings)
      requires k < |started|
      modifies this
      ensures Now() == Next(old(Now()), Carry(k, env))
    {
      hide Recorded;
      var cmd := started[k];
      started := started[..k] + started[k + 1..];
      if (cmd.kind.Update? && env.atTarget) || !Ready(cmd, env) {
        RecordTerminal(cmd.id);
        return;
      }
      if Spawning(cmd.kind) {
        spawned := spawned + multiset{cmd.id};
      }
      if env.ends {
        RecordTerminal(cmd.id);
      }
    }

    method Restart()
      modifies this
      ensures Now() == Restarted(old(Now()))
    {
      waiting, started, settling := [], [], [];
      dispatched, dispatchLog := {}, multiset{};
    }
  }

  // ---------- Runs ----------

  /** The steps of the daemon, in any order: a command is presented, a waiting task runs into its first
      suspension, a task past the guards goes on, a tried command is recorded as done, a command reports its end, the
      daemon starts again. */
  datatype Event =
    | Present(cmd: Command)
    | Guard(k: nat, atTarget: bool)
    | Carry(k: nat, env: Surroundings)
    | Settle(k: nat)
    | Report(id: int)
    | Restart

  function Next(s: State, e: Event): State {
    match e
    case Present(cmd) => Admitted(s, cmd)
    case Guard(k, atTarget) =>
      if k < |s.waiting| then Guarded(s.(waiting := Removed(s.waiting, k)), s.waiting[k], atTarget) else s
    case Carry(k, env) =>
      if k < |s.started| then Carried(s.(started := Removed(s.started, k)), s.started[k], env) else s
    case Settle(k) =>
      if k < |s.settling| then Recorded(s.(settling := Removed(s.settling, k)), s.settling[k]) else s
    case Report(id) => Recorded(s, id)
    case Restart => Restarted(s)
  }

  function Run(s: State, events: seq<Event>): State
    decreases |events|
  {
    if events == [] then s else Run(Next(s, events[0]), events[1..])
  }

  // ---------- At most once ----------

  function FreshState(): State {
    State([], [], [], {}, {}, [], multiset{}, multiset{}, {}, {})
  }

  function Logged(log: multiset<int>): set<int> {
    set id | id in log
  }

  /** The ids that tasks past the guards are about to spawn. */
  function Claims(started: seq<Command>): multiset<int> {
    if started == [] then multiset{}
    else (if Spawning(started[0].kind) then multiset{started[0].id} else multiset{}) + Claims(started[1..])
  }

  lemma {:induction false} ClaimsSplit(a: seq<Command>, b: seq<Command>)
    ensures Claims(a + b) == Claims(a) + Claims(b)
    decreases |a|
  {
    hide Claims;
    if a == [] {
      assert a + b == b;
      NoClaims();
      Associate(Claims(a), Claims(b), multiset{});
    } else {
      ClaimsSplit(a[1..], b);
      ClaimsFirst(a, a[1..]);
      assert (a + b)[1..] == a[1..] + b && (a + b)[0] == a[0];
      ClaimsFirst(a + b, a[1..] + b);
      Associate(Claims([a[0]]), Claims(a[1..]), Claims(b));
    }
  }

  lemma Associate(x: multiset<int>, y: multiset<int>, z: multiset<int>)
    ensures x + (y + z) == (x + y) + z
    ensures multiset{} + y == y
  {
  }

  lemma ClaimsFirst(xs: seq<Command>, rest: seq<Command>)
    requires xs != [] && xs[1..] == rest
    ensures Claims(xs) == Claims([xs[0]]) + Claims(rest)
  {
    ClaimsOfOne(xs[0]);
  }

  lemma ClaimsOfOne(cmd: Command)
    ensures Claims([cmd]) == if Spawning(cmd.kind) then multiset{cmd.id} else multiset{}
  {
  }

  lemma ClaimsRemoved(started: seq<Command>, k: nat)
    requires k < |started|
    ensures Claims(started) == Claims(Removed(started, k)) + Claims([started[k]])
  {
    hide Claims;
    assert started == started[..k] + ([started[k]] + started[k + 1..]);
    ClaimsSplit(started[..k], [started[k]] + started[k + 1..]);
    ClaimsSplit([started[k]], started[k + 1..]);
    ClaimsSplit(started[..k], started[k + 1..]);
  }

  /** The tried file holds the newest tried ids, and only an id out of its reach was spawned or claimed twice. */
  ghost predicate SpawnsOnce(tried: set<int>, triedEver: set<int>, claimed: multiset<int>) {
    && tried == Top(triedEver, TRIED_CAP)
    && (forall id :: claimed[id] >= 1 ==> id in triedEver)
    && (forall id :: claimed[id] >= 2 ==> |Above(triedEver, id)| >= TRIED_CAP)
  }

  ghost predicate DispatchesOnce(dispatched: set<int>, log: multiset<int>) {
    && dispatched <= Logged(log)
    && (forall id :: log[id] >= 1 && id !in dispatched ==> |Above(Logged(log), id)| >= DISPATCHED_CAP)
    && (forall id :: log[id] >= 2 ==> |Above(Logged(log), id)| >= DISPATCHED_CAP)
  }

  ghost predicate Sound(s: State) {
    && SpawnsOnce(s.tried, s.triedEver, s.spawned + Claims(s.started))
    && DispatchesOnce(s.dispatched, s.dispatchLog)
    && s.ledger == KeepNewest(s.recorded, LEDGER_CAP)
  }

  lemma FreshIsSound()
    ensures Sound(FreshState())
  {
  }

  lemma RecordedIsSound(s: State, id: int)
    requires Sound(s)
    ensures Sound(Recorded(s, id))
  {
    hide KeepNewest, SpawnsOnce, DispatchesOnce, Elements, Claims;
    CommandLedger.WhateverWasRecorded(s.ledger, LEDGER_CAP, id);
  }

  lemma DispatchIsRemembered(s: State, id: int)
    requires DispatchesOnce(s.dispatched, s.dispatchLog) && id !in s.dispatched
    ensures DispatchesOnce(RememberDispatch(s, id).dispatched, RememberDispatch(s, id).dispatchLog)
  {
    hide Sorted, Above, KeepNewest;
    var t := RememberDispatch(s, id);
    var before, after := Logged(s.dispatchLog), Logged(t.dispatchLog);
    assert after == before + {id};
    KeepNewestIsTop(s.dispatched, DISPATCHED_CAP);
    TopIsWithin(s.dispatched, DISPATCHED_CAP);
    forall x | t.dispatchLog[x] >= 1 && x !in t.dispatched ensures |Above(after, x)| >= DISPATCHED_CAP {
      AboveGrows(before, after, x);
      if x in s.dispatched {
        NotOnTop(s.dispatched, DISPATCHED_CAP, x);
        AboveGrows(s.dispatched, after, x);
      }
    }
    forall x | t.dispatchLog[x] >= 2 ensures |Above(after, x)| >= DISPATCHED_CAP {
      AboveGrows(before, after, x);
      if x == id {
        assert s.dispatchLog[id] >= 1;
      }
    }
  }

  /** Nothing is forgotten below 500 dispatched ids; then the newest 250 are kept. */
  lemma ForgetsAt500(s: State, id: int)
    ensures var kept := RememberDispatch(s, id).dispatched;
            && (|s.dispatched| < 500 ==> kept == s.dispatched + {id})
            && (|s.dispatched| >= 500 ==> kept == Top(s.dispatched, 250) + {id})
  {
    hide KeepNewest, Top, Elements;
    KeepNewestIsTop(s.dispatched, 250);
  }

  lemma NotOnTop(s: set<int>, cap: nat, x: int)
    requires x in s && x !in Top(s, cap)
    ensures |Above(s, x)| >= cap
  {
  }

  /** Marking an untried id entitles to one more claim. */
  lemma TryIsSound(tried: set<int>, triedEver: set<int>, claimed: multiset<int>, id: int)
    requires SpawnsOnce(tried, triedEver, claimed) && id !in tried
    ensures SpawnsOnce(Elements(KeepNewest(tried + {id}, TRIED_CAP)), triedEver + {id}, claimed + multiset{id})
  {
    hide Sorted, Above, KeepNewest, Elements;
    var after, claimed' := triedEver + {id}, claimed + multiset{id};
    KeepNewestIsTop(tried + {id}, TRIED_CAP);
    TopAfterAdding(triedEver, id, TRIED_CAP);
    forall x | claimed'[x] >= 2 ensures |Above(after, x)| >= TRIED_CAP {
      AboveGrows(triedEver, after, x);
      if x == id && claimed[id] >= 1 {
        NotOnTop(triedEver, TRIED_CAP, id);
      }
    }
  }

  lemma FewerClaims(tried: set<int>, triedEver: set<int>, claimed: multiset<int>, fewer: multiset<int>)
    requires SpawnsOnce(tried, triedEver, claimed) && fewer <= claimed
    ensures SpawnsOnce(tried, triedEver, fewer)
  {
    hide Top, Above;
    forall id ensures fewer[id] <= claimed[id] {
    }
  }

  lemma GuardIsSound(s: State, cmd: Command, atTarget: bool)
    requires Sound(s)
    ensures Sound(Guarded(s, cmd, atTarget))
  {
    hide KeepNewest, SpawnsOnce, DispatchesOnce, Elements, Claims;
    if cmd.id in s.dispatched {
    } else if Spawning(cmd.kind) && cmd.badVersion {
      RecordedIsSound(s, cmd.id);
    } else {
      DispatchIsRemembered(s, cmd.id);
      ClaimsSplit(s.started, [cmd]);
      ClaimsOfOne(cmd);
      if Spawning(cmd.kind) {
        var t := RememberDispatch(s, cmd.id);
        if cmd.id in s.tried {
          RecordedIsSound(t, cmd.id);
        } else {
          TryIsSound(s.tried, s.triedEver, s.spawned + Claims(s.started), cmd.id);
          assert s.spawned + Claims(s.started) + multiset{cmd.id} == s.spawned + Claims(s.started + [cmd]);
        }
      } else {
        assert Claims(s.started) + multiset{} == Claims(s.started);
      }
    }
  }

  lemma CarryIsSound(s: State, k: nat, env: Surroundings)
    requires Sound(s) && k < |s.started|
    ensures Sound(Next(s, Carry(k, env)))
  {
    hide KeepNewest, SpawnsOnce, DispatchesOnce, Elements, Claims, Recorded;
    var cmd, t := s.started[k], s.(started := Removed(s.started, k));
    ClaimsRemoved(s.started, k);
    ClaimsOfOne(cmd);
    FewerClaims(s.tried, s.triedEver, s.spawned + Claims(s.started), t.spawned + Claims(t.started));
    RecordedIsSound(t, cmd.id);
    var u := if Spawning(cmd.kind) then t.(spawned := t.spawned + multiset{cmd.id}) else t;
    assert u.spawned + Claims(u.started) == s.spawned + Claims(s.started);
    RecordedIsSound(u, cmd.id);
  }

  lemma RestartIsSound(s: State)
    requires Sound(s)
    ensures Sound(Restarted(s))
  {
    hide KeepNewest, SpawnsOnce, Claims;
    FewerClaims(s.tried, s.triedEver, s.spawned + Claims(s.started), s.spawned);
    NoClaims();
    assert s.spawned + multiset{} == s.spawned;
  }

  lemma NoClaims()
    ensures Claims([]) == multiset{}
  {
  }

  lemma StepIsSound(s: State, e: Event)
    requires Sound(s)
    ensures Sound(Next(s, e))
  {
    hide KeepNewest, SpawnsOnce, DispatchesOnce, Guarded, Carried, Claims, Restarted, CommandLedger.Seen;
    match e {
      case Present(cmd) =>
      case Guard(k, atTarget) =>
        if k < |s.waiting| {
          GuardIsSound(s.(waiting := Removed(s.waiting, k)), s.waiting[k], atTarget);
        }
      case Carry(k, env) =>
        if k < |s.started| {
          CarryIsSound(s, k, env);
        }
      case Settle(k) =>
        if k < |s.settling| {
          RecordedIsSound(s.(settling := Removed(s.settling, k)), s.settling[k]);
        }
      case Report(id) => RecordedIsSound(s, id);
      case Restart => RestartIsSound(s);
    }
  }

  lemma {:induction false} RunIsSound(s: State, events: seq<Event>)
    requires Sound(s)
    ensures Sound(Run(s, events))
    decreases |events|
  {
    hide Sound, Next;
    if events != [] {
      StepIsSound(s, events[0]);
      RunIsSound(Next(s, events[0]), events[1..]);
    }
  }

  /** Over any run from a fresh install, tasks interleaved and killed anywhere: a second spawn of an id takes 200
      larger tried ids, a second dispatch in one process takes 250 larger ids dispatched by it. */
  lemma AtMostOnce(events: seq<Event>, id: int)
    ensures var s := Run(FreshState(), events);
            && (s.spawned[id] <= 1 || |Above(s.triedEver, id)| >= 200)
            && (s.dispatchLog[id] <= 1 || |Above(Logged(s.dispatchLog), id)| >= 250)
  {
    hide Next, Run, KeepNewest, Top, Above, Claims;
    FreshIsSound();
    RunIsSound(FreshState(), events);
    var s := Run(FreshState(), events);
    assert s.spawned[id] <= (s.spawned + Claims(s.started))[id];
  }

  // ---------- What is carried out ----------

  /** The way of a command: an update unless it is at its target already, under docker by the side-car; a rollback
      outside docker, by its helper; a pin under docker, by the side-car, to a version that is named. */
  predicate WayOpen(cmd: Command, env: Surroundings) {
    || cmd.kind == Other
    || (cmd.kind == Update && !env.atTarget && (!env.docker || env.sidecar))
    || (cmd.kind == Rollback && !env.docker && env.helper)
    || (cmd.kind == PinImageTag && env.docker && env.sidecar && cmd.named)
  }

  function SpawnedBy(s: State, e: Event): multiset<int> {
    if e.Carry? && e.k < |s.started| && s.started[e.k].kind != Other && WayOpen(s.started[e.k], e.env)
    then multiset{s.started[e.k].id}
    else multiset{}
  }

  /** Only going on with a started command spawns, and it does so exactly when its way is open. */
  lemma SpawnsExactly(s: State, e: Event)
    ensures Next(s, e).spawned == s.spawned + SpawnedBy(s, e)
  {
    hide KeepNewest, Elements, Guarded, CommandLedger.Seen;
    assert s.spawned + multiset{} == s.spawned;
    if e.Guard? && e.k < |s.waiting| {
      GuardLeaves(s.(waiting := Removed(s.waiting, e.k)), s.waiting[e.k], e.atTarget);
    }
  }

  /** Only the guards start a command, and they do so exactly when this process has not dispatched it and, for a kind
      that spawns, its version is acceptable and it was not tried before; it is then marked as tried first. */
  lemma GuardStartsExactly(s: State, k: nat, atTarget: bool)
    requires k < |s.waiting|
    ensures var cmd, t := s.waiting[k], Next(s, Guard(k, atTarget));
            var passes := cmd.id !in s.dispatched && (cmd.kind == Other || !cmd.badVersion);
            var starts := passes && (cmd.kind == Other || cmd.id !in s.tried);
            && t.waiting == s.waiting[..k] + s.waiting[k + 1..]
            && t.started == s.started + (if starts then [cmd] else [])
            && t.settling == s.settling + (if passes && !starts && atTarget then [cmd.id] else [])
            && t.triedEver == s.triedEver + (if starts && cmd.kind != Other then {cmd.id} else {})
            && t.dispatchLog == s.dispatchLog + (if passes then multiset{cmd.id} else multiset{})
  {
    hide KeepNewest, Elements;
    assert s.dispatchLog + multiset{} == s.dispatchLog;
  }

  /** A terminal status is recorded exactly where the way of a command ends: refused for its version, tried before and
      not at its target, its way closed, its hand-over failed, at its target, or reported. */
  function RecordedBy(s: State, e: Event): set<int> {
    match e
    case Guard(k, atTarget) =>
      if && k < |s.waiting| && s.waiting[k].id !in s.dispatched && s.waiting[k].kind != Other
         && (s.waiting[k].badVersion || (s.waiting[k].id in s.tried && !atTarget))
      then {s.waiting[k].id} else {}
    case Carry(k, env) =>
      if k < |s.started| && (!WayOpen(s.started[k], env) || env.ends) then {s.started[k].id} else {}
    case Settle(k) => if k < |s.settling| then {s.settling[k]} else {}
    case Report(id) => {id}
    case _ => {}
  }

  lemma RecordsExactly(s: State, e: Event)
    ensures Next(s, e).recorded == s.recorded + RecordedBy(s, e)
  {
    hide KeepNewest, Elements, CommandLedger.Seen;
  }

  /** From the heartbeat to the spawn: a new acceptable command whose way is open is spawned, once. */
  lemma NewCommandIsSpawned(s: State, cmd: Command, env: Surroundings)
    requires !CommandLedger.Seen(s.ledger, 1000, cmd.id) && cmd.id !in s.dispatched && cmd.id !in s.tried
    requires !cmd.badVersion
    requires match cmd.kind
             case Update => !env.atTarget && (!env.docker || env.sidecar)
             case Rollback => !env.docker && env.helper
             case PinImageTag => env.docker && env.sidecar && cmd.named
             case Other => false
    ensures var t := Next(Next(Next(s, Present(cmd)), Guard(|s.waiting|, false)), Carry(|s.started|, env));
            t.spawned == s.spawned + multiset{cmd.id}
  {
    hide CommandLedger.Seen, Guarded, Carried;
    var t1 := Next(s, Present(cmd));
    var t2 := Next(t1, Guard(|s.waiting|, false));
    assert t1 == s.(waiting := s.waiting + [cmd]);
    GuardStartsExactly(t1, |s.waiting|, false);
    SpawnsExactly(t1, Guard(|s.waiting|, false));
    SpawnsExactly(t2, Carry(|s.started|, env));
    assert s.spawned + multiset{} == s.spawned;
  }

  // ---------- Commands that come back ----------

  /** A tried command that this process has not dispatched is not spawned. It ends in the ledger at once, or, when its
      target runs, with its next step. */
  lemma RetryIsSettled(s: State, cmd: Command, atTarget: bool)
    requires Sound(s) && Spawning(cmd.kind) && cmd.id !in s.dispatched
    requires cmd.id in s.triedEver && |Above(s.triedEver, cmd.id)| < TRIED_CAP
    ensures var t := Guarded(s, cmd, atTarget);
            && t.spawned == s.spawned && t.started == s.started
            && t.settling == s.settling + (if atTarget && !cmd.badVersion then [cmd.id] else [])
            && (!atTarget || cmd.badVersion ==> CommandLedger.Seen(t.ledger, LEDGER_CAP, cmd.id))
  {
    hide KeepNewest, DispatchesOnce, Claims, CommandLedger.Seen;
    assert cmd.id in s.tried;
    GuardIsSound(s, cmd, atTarget);
    var t := Guarded(s, cmd, atTarget);
    CommandLedger.SeenExactly(t.recorded, LEDGER_CAP, cmd.id);
  }

  /** What settles ends in the ledger, unless the daemon dies first. */
  lemma SettlingSettles(s: State, k: nat)
    requires Sound(s) && k < |s.settling|
    ensures var t := Next(s, Settle(k));
            t.spawned == s.spawned && CommandLedger.Seen(t.ledger, LEDGER_CAP, s.settling[k])
  {
    hide KeepNewest, SpawnsOnce, DispatchesOnce, Claims, CommandLedger.Seen;
    StepIsSound(s, Settle(k));
    CommandLedger.SeenExactly(Next(s, Settle(k)).recorded, LEDGER_CAP, s.settling[k]);
  }

  /** So whatever became of it before, a tried command sent again after a restart is never spawned and, unless the
      daemon dies again in between, settled. */
  lemma ResendIsSettled(s: State, cmd: Command, atTarget: bool)
    requires Sound(s) && Spawning(cmd.kind)
    requires cmd.id in s.triedEver && |Above(s.triedEver, cmd.id)| < TRIED_CAP
    ensures var t := Next(Next(Restarted(s), Present(cmd)), Guard(0, atTarget));
            var u := Next(t, Settle(0));
            && t.spawned == u.spawned == s.spawned && t.started == u.started == []
            && (CommandLedger.Seen(t.ledger, LEDGER_CAP, cmd.id) || (atTarget && t.settling == [cmd.id]))
            && CommandLedger.Seen(u.ledger, LEDGER_CAP, cmd.id)
  {
    hide KeepNewest, SpawnsOnce, DispatchesOnce, Claims, Guarded, Recorded, CommandLedger.Seen;
    var r := Restarted(s);
    RestartIsSound(s);
    var presented := Next(r, Present(cmd));
    var t := Next(presented, Guard(0, atTarget));
    if !CommandLedger.Seen(r.ledger, LEDGER_CAP, cmd.id) {
      assert Removed([cmd], 0) == [];
      assert presented.(waiting := []) == r && presented.waiting == [cmd];
      RetryIsSettled(r, cmd, atTarget);
      if t.settling != [] {
        GuardIsSound(r, cmd, atTarget);
        SettlingSettles(t, 0);
        RecordedChanges(t.(settling := Removed(t.settling, 0)), cmd.id);
      }
    }
  }

  lemma RecordedChanges(s: State, id: int)
    ensures Recorded(s, id) == s.(ledger := Recorded(s, id).ledger, recorded := s.recorded + {id})
  {
  }

  /** No task of this id waits or runs. */
  predicate Idle(s: State, id: int) {
    (forall c <- s.waiting :: c.id != id) && (forall c <- s.started :: c.id != id)
  }

  /** Once the ledger refuses an id that no task is about, no later event dispatches or spawns it, whatever the
      other two layers have forgotten. */
  lemma {:induction false} SettledIsFinal(s: State, events: seq<Event>, id: int)
    requires Sound(s) && CommandLedger.Seen(s.ledger, LEDGER_CAP, id) && Idle(s, id)
    ensures Run(s, events).spawned[id] == s.spawned[id]
    ensures CommandLedger.Seen(Run(s, events).ledger, LEDGER_CAP, id) && Idle(Run(s, events), id)
    decreases |events|
  {
    hide Next, Idle, KeepNewest, SpawnsOnce, DispatchesOnce, Claims, CommandLedger.Seen;
    if events != [] {
      var e := events[0];
      var t := Next(s, e);
      StepIsSound(s, e);
      StaysIdle(s, e, id);
      CommandLedger.SeenExactly(s.recorded, LEDGER_CAP, id);
      CommandLedger.SeenExactly(t.recorded, LEDGER_CAP, id);
      CoveredStays(s.recorded, t.recorded, LEDGER_CAP, id);
      SettledIsFinal(t, events[1..], id);
    }
  }

  lemma StaysIdle(s: State, e: Event, id: int)
    requires CommandLedger.Seen(s.ledger, LEDGER_CAP, id) && Idle(s, id)
    ensures var t := Next(s, e);
            s.recorded <= t.recorded && t.spawned[id] == s.spawned[id] && Idle(t, id)
  {
    hide KeepNewest, Elements, CommandLedger.Seen, Guarded, Carried;
    match e {
      case Present(cmd) =>
      case Guard(k, atTarget) =>
        if k < |s.waiting| {
          assert s.waiting[k] in s.waiting;
          GuardLeaves(s.(waiting := Removed(s.waiting, k)), s.waiting[k], atTarget);
        }
      case Carry(k, env) =>
        if k < |s.started| {
          assert s.started[k] in s.started;
          CarryLeaves(s.(started := Removed(s.started, k)), s.started[k], env, id);
        }
      case Settle(_) =>
      case Report(_) =>
      case Restart =>
    }
  }

  lemma GuardLeaves(s: State, cmd: Command, atTarget: bool)
    ensures var t := Guarded(s, cmd, atTarget);
            && s.recorded <= t.recorded && t.spawned == s.spawned && t.waiting == s.waiting
            && (t.started == s.started || t.started == s.started + [cmd])
  {
    hide KeepNewest, Elements;
  }

  lemma CarryLeaves(s: State, cmd: Command, env: Surroundings, id: int)
    requires cmd.id != id
    ensures var t := Carried(s, cmd, env);
            && s.recorded <= t.recorded && t.spawned[id] == s.spawned[id]
            && t.waiting == s.waiting && t.started == s.started
  {
    hide KeepNewest, Elements;
  }
}
