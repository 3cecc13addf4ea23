/** The replay ledger of `solar_monitor/cloud/command_verify.py`: the newest `cap` finished command ids,
    kept on disk in a main file and the previous good copy. */
module CommandLedger {
  import opened Wrappers
  import opened Newest

  // ---------- Files ----------

  datatype File = Missing | Unreadable | Ids(list: seq<int>)

  datatype Disk = Disk(main: File, bak: File, tmp: File)

  function Load(f: File): Option<seq<int>> {
    if f.Ids? then Some(Sorted(Elements(f.list))) else None
  }

  /** What a starting daemon reads: the main file, else the copy, else nothing. */
  function Read(d: Disk, cap: nat): seq<int> {
    var main := Load(d.main);
    var ids := if main.Some? then main else Load(d.bak);
    LastOf(if ids.Some? then ids.value else [], cap)
  }

  predicate Seen(ids: seq<int>, cap: nat, id: int)
    requires cap >= 1
  {
    id in ids || (|ids| >= cap && id < ids[0])
  }

  /** How far writing a record gets: after `steps` of its three steps it fails or the machine dies. The rename
      that keeps a copy may fail by itself, which the program tolerates. */
  datatype Write = Write(steps: nat, copies: bool) {
    predicate Completes() {
      steps >= 3
    }
  }

  const Done: Write := Write(3, true)

  /** The disk after a write: the temporary file is complete (1), the main file, if it can be read, has become the
      copy (2), the temporary file has become the main file (3). */
  function Persist(d: Disk, ids: seq<int>, w: Write): Disk {
    if w.steps == 0 then d.(tmp := Unreadable)
    else
      var written := d.(tmp := Ids(ids));
      if w.steps == 1 then written
      else
        var kept := if w.copies && Load(d.main).Some? then Disk(Missing, d.main, written.tmp) else written;
        if w.steps == 2 then kept else Disk(kept.tmp, kept.bak, Missing)
  }

  class Ledger {
    const cap: nat
    var ids: seq<int>
    var disk: Disk

    constructor (cap: nat, disk: Disk)
      ensures this.cap == cap && this.disk == disk && ids == Read(disk, cap)
    {
      this.cap := cap;
      this.disk := disk;
      this.ids := Read(disk, cap);
    }

    method HasSeen(id: int) returns (seen: bool)
      requires cap >= 1
      ensures forall recorded: set<int> :: ids == KeepNewest(recorded, cap) ==> (seen <==> Covered(recorded, cap, id))
    {
      seen := id in ids || (|ids| >= cap && id < ids[0]);
      forall recorded: set<int> | ids == KeepNewest(recorded, cap) ensures seen <==> Covered(recorded, cap, id) {
        SeenExactly(recorded, cap, id);
      }
    }

    method Record(id: int, w: Write)
      requires cap >= 1
      modifies this
      ensures Node(ids, disk) == Next(old(Node(ids, disk)), cap, Event.Record(id, w))
      ensures forall recorded: set<int> ::
        old(ids) == KeepNewest(recorded, cap) ==> ids == KeepNewest(recorded + {id}, cap)
    {
      hide KeepNewest, Sorted, Elements;
      WhateverWasRecorded(ids, cap, id);
      if id in ids {
        return;
      }
      ids := KeepNewest(Elements(ids) + {id}, cap);
      disk := disk.(tmp := Unreadable);
      if w.steps == 0 {
        return;
      }
      disk := disk.(tmp := Ids(ids));
      if w.steps == 1 {
        return;
      }
      if Load(disk.main).Some? && w.copies {
        disk := disk.(bak := disk.main, main := Missing);
      }
      if w.steps == 2 {
        return;
      }
      disk := disk.(main := disk.tmp, tmp := Missing);
    }
  }

  // ---------- The exact meaning of the bounded ledger ----------

  lemma WhateverWasRecorded(ids: seq<int>, cap: nat, id: int)
    requires cap >= 1
    ensures forall recorded: set<int> :: ids == KeepNewest(recorded, cap) ==>
      KeepNewest(recorded + {id}, cap) == if id in ids then ids else KeepNewest(Elements(ids) + {id}, cap)
  {
    hide KeepNewest, Elements;
    forall recorded: set<int> | ids == KeepNewest(recorded, cap)
      ensures KeepNewest(recorded + {id}, cap) == if id in ids then ids else KeepNewest(Elements(ids) + {id}, cap)
    {
      KeepNewestAfterAdding(recorded, id, cap);
      AlreadyRecorded(recorded, cap, id);
    }
  }

  lemma AlreadyRecorded(recorded: set<int>, cap: nat, id: int)
    ensures id in KeepNewest(recorded, cap) ==> recorded + {id} == recorded
  {
    hide Top;
    KeepNewestIsTop(recorded, cap);
    TopIsWithin(recorded, cap);
  }

  /** An id is refused exactly when it was recorded or at least `cap` recorded ids exceed it. */
  lemma SeenExactly(recorded: set<int>, cap: nat, id: int)
    requires cap >= 1
    ensures Seen(KeepNewest(recorded, cap), cap, id) <==> Covered(recorded, cap, id)
  {
    hide Sorted, KeepNewest, Increasing, Above;
    var ids := KeepNewest(recorded, cap);
    var kept := Top(recorded, cap);
    KeepNewestIsTop(recorded, cap);
    TopSize(recorded, cap);
    TopOfTop(recorded, cap, id);
    TopIsWithin(recorded, cap);
    if Seen(ids, cap, id) && id !in ids {
      AllAbove(ids, kept, id);
      SubsetSize(kept, Above(recorded, id));
    }
    if |Above(recorded, id)| >= cap {
      AboveIsWithin(kept, id);
      FullSubset(Above(kept, id), kept);
      assert ids[0] in kept;
      MembersOfAbove(kept, id, ids[0]);
    }
  }

  lemma AllAbove(ids: seq<int>, kept: set<int>, id: int)
    requires Increasing(ids) && kept == Elements(ids) && |ids| > 0 && id < ids[0]
    ensures Above(kept, id) == kept
  {
    forall y | y in kept ensures y > id {
      FirstIsLeast(ids, y);
    }
  }

  lemma AboveIsWithin(s: set<int>, x: int)
    ensures Above(s, x) <= s
  {
  }

  lemma MembersOfAbove(s: set<int>, x: int, y: int)
    requires y in Above(s, x)
    ensures y > x
  {
  }

  lemma FullSubset(a: set<int>, b: set<int>)
    requires a <= b && |a| >= |b|
    ensures a == b
  {
    assert b == a + (b - a);
    assert |b - a| == 0;
  }

  // ---------- Crashes, failed writes and lost files ----------

  datatype Node = Node(ids: seq<int>, disk: Disk)

  /** `Record`: the call returns, even when its write failed. `Crash`: the machine dies during the call and the
      daemon starts again. `MainLost`: the main file becomes unreadable; the daemon runs on or starts again. */
  datatype Event =
    | Record(id: int, w: Write)
    | Crash(id: int, w: Write)
    | Restart
    | MainLost(restarts: bool)

  function Corrupted(d: Disk): Disk {
    if d.main.Missing? then d else d.(main := Unreadable)
  }

  function Recorded(n: Node, cap: nat, id: int, w: Write): Node {
    if id in n.ids then n
    else
      var ids := KeepNewest(Elements(n.ids) + {id}, cap);
      Node(ids, Persist(n.disk, ids, w))
  }

  function Restarted(n: Node, cap: nat): Node {
    Node(Read(n.disk, cap), n.disk)
  }

  function Next(n: Node, cap: nat, e: Event): Node {
    match e
    case Record(id, w) => Recorded(n, cap, id, w)
    case Crash(id, w) => Restarted(Recorded(n, cap, id, w), cap)
    case Restart => Restarted(n, cap)
    case MainLost(restarts) =>
      var lost := n.(disk := Corrupted(n.disk));
      if restarts then Restarted(lost, cap) else lost
  }

  /** `known`: the ids the running ledger answers for. `saved`: those it would answer for after a restart.
      `settled`: those it would answer for after losing the main file and a restart. */
  datatype Account = Account(known: set<int>, saved: set<int>, settled: set<int>)

  function RecordedAccount(a: Account, n: Node, id: int, w: Write): Account {
    var known := a.known + {id};
    var copied := w.copies && Load(n.disk.main).Some?;
    if id in n.ids then a
    else if w.Completes() then
      Account(known, known, if copied || Load(n.disk.main).None? then a.saved else a.settled)
    else Account(known, a.saved, if w.steps == 2 && copied then a.saved else a.settled)
  }

  function RestartedAccount(a: Account): Account {
    a.(known := a.saved)
  }

  function Accounted(a: Account, n: Node, e: Event): Account {
    match e
    case Record(id, w) => RecordedAccount(a, n, id, w)
    case Crash(id, w) => RestartedAccount(RecordedAccount(a, n, id, w))
    case Restart => RestartedAccount(a)
    case MainLost(restarts) =>
      var lost := a.(saved := a.settled);
      if restarts then RestartedAccount(lost) else lost
  }

  predicate Faithful(n: Node, cap: nat, a: Account) {
    && n.ids == KeepNewest(a.known, cap)
    && Read(n.disk, cap) == KeepNewest(a.saved, cap)
    && Read(Corrupted(n.disk), cap) == KeepNewest(a.settled, cap)
    && Nested(a)
    && (Load(n.disk.main).None? ==> a.saved == a.settled)
  }

  predicate Nested(a: Account) {
    a.settled <= a.saved <= a.known
  }

  lemma ReadsBack(known: set<int>, cap: nat, d: Disk)
    requires cap >= 1 && d.main == Ids(KeepNewest(known, cap))
    ensures Read(d, cap) == KeepNewest(known, cap)
  {
    KeepNewestIsStable(known, cap);
  }

  lemma RecordIsFaithful(n: Node, cap: nat, a: Account, id: int, w: Write)
    requires cap >= 1 && Faithful(n, cap, a)
    ensures Faithful(Recorded(n, cap, id, w), cap, RecordedAccount(a, n, id, w))
  {
    hide KeepNewest, LastOf, Elements, Sorted;
    if id !in n.ids {
      KeepNewestAfterAdding(a.known, id, cap);
      var ids := KeepNewest(a.known + {id}, cap);
      var d := Persist(n.disk, ids, w);
      if w.Completes() {
        ReadsBack(a.known + {id}, cap, d);
      }
    }
  }

  /** Every step keeps the account. */
  lemma StepIsFaithful(n: Node, cap: nat, a: Account, e: Event)
    requires cap >= 1 && Faithful(n, cap, a)
    ensures Faithful(Next(n, cap, e), cap, Accounted(a, n, e))
  {
    hide KeepNewest, LastOf, Elements, Sorted, Load, Persist, Read, Recorded, RecordedAccount;
    match e {
      case Record(id, w) => RecordIsFaithful(n, cap, a, id, w);
      case Crash(id, w) => RecordIsFaithful(n, cap, a, id, w);
      case Restart =>
      case MainLost(restarts) =>
        assert Corrupted(Corrupted(n.disk)) == Corrupted(n.disk);
    }
  }

  function Run(n: Node, cap: nat, events: seq<Event>): Node
    decreases |events|
  {
    if events == [] then n else Run(Next(n, cap, events[0]), cap, events[1..])
  }

  function AccountAfter(a: Account, n: Node, cap: nat, events: seq<Event>): Account
    decreases |events|
  {
    if events == [] then a
    else AccountAfter(Accounted(a, n, events[0]), Next(n, cap, events[0]), cap, events[1..])
  }

  lemma {:induction false} RunIsFaithful(n: Node, cap: nat, a: Account, events: seq<Event>)
    requires cap >= 1 && Faithful(n, cap, a)
    ensures Faithful(Run(n, cap, events), cap, AccountAfter(a, n, cap, events))
    decreases |events|
  {
    hide Next, Accounted, Faithful;
    if events != [] {
      StepIsFaithful(n, cap, a, events[0]);
      RunIsFaithful(Next(n, cap, events[0]), cap, Accounted(a, n, events[0]), events[1..]);
    }
  }

  // ---------- What stays seen ----------

  lemma StepKeeps(n: Node, a: Account, e: Event)
    requires Nested(a)
    ensures var a' := Accounted(a, n, e);
            && Nested(a')
            && a.settled <= a'.settled
            && (!e.MainLost? ==> a.saved <= a'.saved)
  {
  }

  /** What is settled stays settled through every run; what is saved stays saved while the main file is. */
  lemma {:induction false} RunKeeps(n: Node, cap: nat, a: Account, events: seq<Event>)
    requires Nested(a)
    ensures var a' := AccountAfter(a, n, cap, events);
            && Nested(a')
            && a.settled <= a'.settled
            && ((forall e <- events :: !e.MainLost?) ==> a.saved <= a'.saved)
    decreases |events|
  {
    hide Next, Accounted, Nested;
    if events != [] {
      var e := events[0];
      StepKeeps(n, a, e);
      RunKeeps(Next(n, cap, e), cap, Accounted(a, n, e), events[1..]);
      assert forall later <- events[1..] :: later in events;
    }
  }

  lemma KnownIsSeen(n: Node, cap: nat, a: Account, id: int)
    requires cap >= 1 && Faithful(n, cap, a) && id in a.known
    ensures Seen(n.ids, cap, id)
  {
    hide KeepNewest, Seen, Read;
    SeenExactly(a.known, cap, id);
  }

  /** A record written to the end is refused for ever after, through evictions, restarts, failing writes and
      crashes at any step, while the main file stays readable. */
  lemma CompletedRecordsStaySeen(n: Node, cap: nat, a: Account, id: int, w: Write, later: seq<Event>)
    requires cap >= 1 && Faithful(n, cap, a) && id !in n.ids && w.Completes()
    requires forall e <- later :: !e.MainLost?
    ensures Seen(Run(Next(n, cap, Record(id, w)), cap, later).ids, cap, id)
  {
    hide KeepNewest, Seen, Read, Persist, Run, AccountAfter, Elements;
    var e := Record(id, w);
    var n', a' := Next(n, cap, e), Accounted(a, n, e);
    StepIsFaithful(n, cap, a, e);
    RunIsFaithful(n', cap, a', later);
    RunKeeps(n', cap, a', later);
    KnownIsSeen(Run(n', cap, later), cap, AccountAfter(a', n', cap, later), id);
  }

  /** A write that gets at least as far as keeping the copy. */
  predicate KeepsCopy(e: Event) {
    (e.Record? || e.Crash?) && e.w.copies && e.w.steps >= 2
  }

  /** Such a write, finished or not, settles everything that was saved before it. */
  lemma CopySettles(n: Node, cap: nat, a: Account, e: Event)
    requires Faithful(n, cap, a) && KeepsCopy(e) && e.id !in n.ids
    ensures a.saved <= Accounted(a, n, e).settled
  {
    hide KeepNewest, Read;
  }

  /** Once a record written to the end is followed by another new one that gets as far as keeping the copy, it is
      refused for ever after: no crash, failing write or loss of the main file, however often, brings it back. */
  lemma SettledRecordsStaySeen(n: Node, cap: nat, a: Account, id: int, w: Write, between: seq<Event>,
                               second: Event, later: seq<Event>)
    requires cap >= 1 && Faithful(n, cap, a) && id !in n.ids && w.Completes()
    requires forall e <- between :: !e.MainLost?
    requires KeepsCopy(second) && second.id !in Run(Next(n, cap, Record(id, w)), cap, between).ids
    ensures var m := Run(Next(n, cap, Record(id, w)), cap, between);
            Seen(Run(Next(m, cap, second), cap, later).ids, cap, id)
  {
    hide KeepNewest, Seen, Read, Persist, Run, AccountAfter, Elements, Accounted, Faithful, KeepsCopy;
    var e := Record(id, w);
    var n1, a1 := Next(n, cap, e), Accounted(a, n, e);
    StepIsFaithful(n, cap, a, e);
    NewIsSaved(a, n, id, w);
    NestedIfFaithful(n1, cap, a1);
    RunIsFaithful(n1, cap, a1, between);
    RunKeeps(n1, cap, a1, between);
    var n2, a2 := Run(n1, cap, between), AccountAfter(a1, n1, cap, between);
    var n3, a3 := Next(n2, cap, second), Accounted(a2, n2, second);
    StepIsFaithful(n2, cap, a2, second);
    CopySettles(n2, cap, a2, second);
    NestedIfFaithful(n3, cap, a3);
    RunIsFaithful(n3, cap, a3, later);
    RunKeeps(n3, cap, a3, later);
    KnownIsSeen(Run(n3, cap, later), cap, AccountAfter(a3, n3, cap, later), id);
  }

  lemma NewIsSaved(a: Account, n: Node, id: int, w: Write)
    requires id !in n.ids && w.Completes()
    ensures id in Accounted(a, n, Record(id, w)).saved
  {
  }

  lemma NestedIfFaithful(n: Node, cap: nat, a: Account)
    requires Faithful(n, cap, a)
    ensures Nested(a)
  {
  }

  // ---------- What is at risk ----------

  /** No write fails without a crash, the copy is kept, and a lost main file is noticed by a restart. */
  predicate Orderly(e: Event) {
    && (e.Record? ==> e.w.Completes() && e.w.copies)
    && (e.Crash? ==> e.w.copies)
    && (e.MainLost? ==> e.restarts)
  }

  /** The last id newly recorded on disk, if any. */
  function Latest(n: Node, cap: nat, events: seq<Event>, before: Option<int>): Option<int>
    decreases |events|
  {
    if events == [] then before
    else
      var e := events[0];
      var here := if (e.Record? || e.Crash?) && e.id !in n.ids && e.w.Completes() then Some(e.id) else before;
      Latest(Next(n, cap, e), cap, events[1..], here)
  }

  predicate OnlyAtRisk(a: Account, latest: Option<int>) {
    a.known == a.saved && forall id :: id in a.known - a.settled ==> latest == Some(id)
  }

  lemma {:induction false} OnlyLatestAtRisk(n: Node, cap: nat, a: Account, events: seq<Event>, before: Option<int>)
    requires OnlyAtRisk(a, before) && forall e <- events :: Orderly(e)
    ensures OnlyAtRisk(AccountAfter(a, n, cap, events), Latest(n, cap, events, before))
    decreases |events|
  {
    hide Next;
    if events != [] {
      var e := events[0];
      assert Orderly(e);
      assert forall later <- events[1..] :: later in events;
      var here := if (e.Record? || e.Crash?) && e.id !in n.ids && e.w.Completes() then Some(e.id) else before;
      OnlyLatestAtRisk(Next(n, cap, e), cap, Accounted(a, n, e), events[1..], here);
    }
  }

  /** From a fresh start, over any orderly run: whatever the ledger holds, losing the main file now un-sees
      nothing but the latest record. */
  lemma LosingTheMainFileCostsTheLatest(cap: nat, events: seq<Event>, id: int)
    requires cap >= 1 && forall e <- events :: Orderly(e)
    ensures var n := Run(FreshNode(), cap, events);
            var reread := Next(n, cap, MainLost(true));
            id in n.ids && !Seen(reread.ids, cap, id) ==> Latest(FreshNode(), cap, events, None) == Some(id)
  {
    hide KeepNewest, Seen, Read, Elements, Run, AccountAfter, Latest;
    var a0 := Account({}, {}, {});
    var n, a := Run(FreshNode(), cap, events), AccountAfter(a0, FreshNode(), cap, events);
    FreshStartIsFaithful(cap);
    RunIsFaithful(FreshNode(), cap, a0, events);
    OnlyLatestAtRisk(FreshNode(), cap, a0, events, None);
    StepIsFaithful(n, cap, a, MainLost(true));
    if id in n.ids {
      KeptIsKnown(a.known, cap, id);
      if id in a.settled {
        KnownIsSeen(Next(n, cap, MainLost(true)), cap, Accounted(a, n, MainLost(true)), id);
      }
    }
  }

  /** In any run at all, orderly or not: an id the ledger holds is un-seen by losing the main file now exactly when
      it is not settled. */
  lemma LossCostsExactly(n: Node, cap: nat, a: Account, id: int)
    requires cap >= 1 && Faithful(n, cap, a) && id in n.ids
    ensures Seen(Next(n, cap, MainLost(true)).ids, cap, id) <==> id in a.settled
  {
    hide KeepNewest, Seen, Read, Covered;
    StepIsFaithful(n, cap, a, MainLost(true));
    HeldIsSeenExactly(a.known, a.settled, cap, id);
  }

  /** An id among the newest of `known` is refused on the strength of fewer ids exactly when it is one of them. */
  lemma HeldIsSeenExactly(known: set<int>, fewer: set<int>, cap: nat, id: int)
    requires cap >= 1 && fewer <= known && id in KeepNewest(known, cap)
    ensures Seen(KeepNewest(fewer, cap), cap, id) <==> id in fewer
  {
    hide Seen, KeepNewest, Above;
    KeepNewestIsTop(known, cap);
    SeenExactly(fewer, cap, id);
    AboveGrows(fewer, known, id);
  }

  /** After a new record, losing the main file gives back what was on disk before it. So it costs nothing but that
      record exactly when memory and disk agreed before. */
  lemma OnlyTheLatestIsLostExactly(n: Node, cap: nat, a: Account, id: int)
    requires cap >= 1 && Faithful(n, cap, a) && id !in n.ids
    ensures var reread := Next(Next(n, cap, Record(id, Done)), cap, MainLost(true)).ids;
            && reread == Read(n.disk, cap)
            && ((forall x <- n.ids :: Seen(reread, cap, x)) <==> n.ids == Read(n.disk, cap))
  {
    hide KeepNewest, Seen, Read, Persist, Covered;
    var m, a' := Next(n, cap, Record(id, Done)), Accounted(a, n, Record(id, Done));
    StepIsFaithful(n, cap, a, Record(id, Done));
    StepIsFaithful(m, cap, a', MainLost(true));
    assert a'.settled == a.saved;
    forall x | x in n.ids ensures Seen(KeepNewest(a.saved, cap), cap, x) <==> x in a.saved {
      HeldIsSeenExactly(a.known, a.saved, cap, x);
    }
    if forall x <- n.ids :: Seen(KeepNewest(a.saved, cap), cap, x) {
      SameTop(a.known, a.saved, cap);
    } else if n.ids == KeepNewest(a.saved, cap) {
      forall x | x in n.ids ensures x in a.saved {
        KeptIsKnown(a.saved, cap, x);
      }
    }
  }

  /** Ids left out below the newest do not matter. */
  lemma SameTop(known: set<int>, saved: set<int>, cap: nat)
    requires cap >= 1 && saved <= known && forall x <- KeepNewest(known, cap) :: x in saved
    ensures KeepNewest(known, cap) == KeepNewest(saved, cap)
  {
    hide KeepNewest, Above, Increasing;
    KeepNewestIsTop(known, cap);
    KeepNewestIsTop(saved, cap);
    forall x ensures x in Top(known, cap) <==> x in Top(saved, cap) {
      AboveGrows(saved, known, x);
      TopOfTop(known, cap, x);
      if x in known {
        assert Top(known, cap) <= saved;
        AboveGrows(Top(known, cap), saved, x);
      }
    }
    TopSize(known, cap);
    TopSize(saved, cap);
    IncreasingIsUnique(KeepNewest(known, cap), KeepNewest(saved, cap));
  }

  lemma KeptIsKnown(known: set<int>, cap: nat, id: int)
    requires id in KeepNewest(known, cap)
    ensures id in known
  {
    hide Top;
    KeepNewestIsTop(known, cap);
    TopIsWithin(known, cap);
  }

  function FreshNode(): Node {
    Node([], Disk(Missing, Missing, Missing))
  }

  lemma FreshStartIsFaithful(cap: nat)
    ensures Faithful(FreshNode(), cap, Account({}, {}, {}))
  {
  }

  // ---------- Why the run must be orderly ----------

  /** A daemon that runs on with its main file lost keeps a stale copy: the next loss costs two records. */
  lemma RunningOnCostsTwo(cap: nat)
    requires cap >= 1
    ensures var n := Run(FreshNode(), cap, [Record(1, Done), Record(2, Done), MainLost(false), Record(3, Done)]);
            var reread := Next(n, cap, MainLost(true));
            && Seen(n.ids, cap, 2) && Seen(n.ids, cap, 3)
            && !Seen(reread.ids, cap, 2) && !Seen(reread.ids, cap, 3)
  {
    hide KeepNewest, Seen, Faithful, Sorted, Elements, LastOf, Read;
    FreshStartIsFaithful(cap);
    var n1 := Next(FreshNode(), cap, Record(1, Done));
    StepIsFaithful(FreshNode(), cap, Account({}, {}, {}), Record(1, Done));
    var a1 := Account({1}, {1}, {});
    var n2 := Next(n1, cap, Record(2, Done));
    NewIfUnknown(n1, cap, a1, 2);
    StepIsFaithful(n1, cap, a1, Record(2, Done));
    var a2 := Account({1, 2}, {1, 2}, {1});
    assert Accounted(a1, n1, Record(2, Done)) == a2 by { assert {1} + {2} == {1, 2}; }
    var n3 := Next(n2, cap, MainLost(false));
    StepIsFaithful(n2, cap, a2, MainLost(false));
    var a3 := Account({1, 2}, {1}, {1});
    var n4 := Next(n3, cap, Record(3, Done));
    NewIfUnknown(n3, cap, a3, 3);
    StepIsFaithful(n3, cap, a3, Record(3, Done));
    var a4 := Account({1, 2, 3}, {1, 2, 3}, {1});
    assert Accounted(a3, n3, Record(3, Done)) == a4 by { assert {1, 2} + {3} == {1, 2, 3}; }
    StepIsFaithful(n4, cap, a4, MainLost(true));
    KnownIsSeen(n4, cap, a4, 2);
    KnownIsSeen(n4, cap, a4, 3);
    UnseenIfAboveAll(Next(n4, cap, MainLost(true)), cap, Account({1}, {1}, {1}), 2);
    UnseenIfAboveAll(Next(n4, cap, MainLost(true)), cap, Account({1}, {1}, {1}), 3);
    FourSteps(FreshNode(), cap, Record(1, Done), Record(2, Done), MainLost(false), Record(3, Done));
  }

  lemma NewIfUnknown(n: Node, cap: nat, a: Account, id: int)
    requires Faithful(n, cap, a) && id !in a.known
    ensures id !in n.ids
  {
    hide KeepNewest, Read;
    if id in n.ids {
      KeptIsKnown(a.known, cap, id);
    }
  }

  lemma UnseenIfAboveAll(n: Node, cap: nat, a: Account, id: int)
    requires cap >= 1 && Faithful(n, cap, a) && forall x <- a.known :: x < id
    ensures !Seen(n.ids, cap, id)
  {
    hide KeepNewest, Seen, Read;
    SeenExactly(a.known, cap, id);
    assert Above(a.known, id) == {};
  }

  lemma KeptIsSeen(ids: seq<int>, cap: nat, id: int)
    requires cap >= 1 && id in ids
    ensures Seen(ids, cap, id)
  {
  }

  lemma FourSteps(n: Node, cap: nat, e1: Event, e2: Event, e3: Event, e4: Event)
    ensures Run(n, cap, [e1, e2, e3, e4]) == Next(Next(Next(Next(n, cap, e1), cap, e2), cap, e3), cap, e4)
  {
    hide Next;
    var n1 := Next(n, cap, e1);
    var n2 := Next(n1, cap, e2);
    OneStep(n, cap, e1, [e2, e3, e4]);
    OneStep(n1, cap, e2, [e3, e4]);
    OneStep(n2, cap, e3, [e4]);
    OneStep(Next(n2, cap, e3), cap, e4, []);
    assert [e1] + [e2, e3, e4] == [e1, e2, e3, e4] && [e2] + [e3, e4] == [e2, e3, e4];
    assert [e3] + [e4] == [e3, e4] && [e4] + [] == [e4];
  }

  lemma OneStep(n: Node, cap: nat, e: Event, rest: seq<Event>)
    ensures Run(n, cap, [e] + rest) == Run(Next(n, cap, e), cap, rest)
  {
    assert ([e] + rest)[1..] == rest;
  }

  /** Recording an id again after its write failed does not write it: a restart forgets it. */
  lemma FailedWriteIsNotRepeated(n: Node, cap: nat, a: Account, id: int, w: Write)
    requires cap >= 1 && Faithful(n, cap, a) && !Seen(n.ids, cap, id) && !w.Completes()
    ensures var m := Recorded(Recorded(n, cap, id, w), cap, id, Done);
            Seen(m.ids, cap, id) && !Seen(Restarted(m, cap).ids, cap, id)
  {
    hide KeepNewest, Sorted, Elements, LastOf, Read, Persist, Seen;
    var m, a' := Recorded(n, cap, id, w), RecordedAccount(a, n, id, w);
    StepIsFaithful(n, cap, a, Record(id, w));
    SeenExactly(a.known, cap, id);
    KeepNewestIsTop(a.known + {id}, cap);
    assert Above(a.known + {id}, id) == Above(a.known, id);
    assert id in m.ids;
    KeptIsSeen(m.ids, cap, id);
    assert a'.saved == a.saved;
    assert Restarted(m, cap).ids == KeepNewest(a.saved, cap);
    SeenExactly(a.saved, cap, id);
    assert !Covered(a.saved, cap, id) by {
      if Covered(a.saved, cap, id) {
        CoveredStays(a.saved, a.known, cap, id);
      }
    }
    assert Recorded(m, cap, id, Done) == m;
    assert !Seen(Restarted(m, cap).ids, cap, id);
  }
}
