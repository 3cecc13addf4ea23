/** The store of pending logins of `solar_monitor/auth/oidc_rp.py`: capped, expiring, single-use, mirrored to disk.
    Python's dict keeps insertion order, so the store is a sequence of keyed entries. */
module OidcPending {
  import opened Wrappers

  const TTL: real := 300.0
  const MAX_PENDING: nat := 20

  datatype Login = Login(verifier: string, nonce: string, returnTo: string, createdAt: real)

  datatype Item = Item(token: string, login: Login)

  type Store = seq<Item>

  predicate Has(s: Store, token: string) {
    exists i <- s :: i.token == token
  }

  predicate Expired(i: Item, now: real) {
    now - i.login.createdAt > TTL
  }

  function Unexpired(s: Store, now: real): Store {
    if s == [] then [] else (if Expired(s[0], now) then [] else [s[0]]) + Unexpired(s[1..], now)
  }

  function Without(s: Store, token: string): Store {
    if s == [] then [] else (if s[0].token == token then [] else [s[0]]) + Without(s[1..], token)
  }

  function Find(s: Store, token: string): Option<Login> {
    if s == [] then None else if s[0].token == token then Some(s[0].login) else Find(s[1..], token)
  }

  /** Python's `min(d, key=...)`: the first of the entries created earliest. */
  function OldestIndex(s: Store): (k: nat)
    requires s != []
    ensures k < |s|
    ensures forall i :: 0 <= i < |s| ==> s[k].login.createdAt <= s[i].login.createdAt
    ensures forall i :: 0 <= i < k ==> s[k].login.createdAt < s[i].login.createdAt
  {
    if |s| == 1 then 0
    else
      var k := OldestIndex(s[1..]) + 1;
      if s[0].login.createdAt <= s[k].login.createdAt then 0 else k
  }

  function DropAt(s: Store, k: nat): Store
    requires k < |s|
  {
    s[..k] + s[k + 1..]
  }

  function Evicted(s: Store): (r: Store)
    ensures |r| < MAX_PENDING
    decreases |s|
  {
    if |s| >= MAX_PENDING then Evicted(DropAt(s, OldestIndex(s))) else s
  }

  /** `d[token] = login`: in place for a known key, at the end for a new one. */
  function Put(s: Store, token: string, login: Login): Store {
    if s == [] then [Item(token, login)]
    else if s[0].token == token then [Item(token, login)] + s[1..]
    else [s[0]] + Put(s[1..], token, login)
  }

  function Stashed(s: Store, gcNow: real, token: string, login: Login): Store {
    Put(Evicted(Unexpired(s, gcNow)), token, login)
  }

  function Redeemed(s: Store, token: string, gcNow: real, checkNow: real): Option<Login> {
    var found := Find(Unexpired(s, gcNow), token);
    if found.Some? && checkNow - found.value.createdAt <= TTL then found else None
  }

  class PendingStore {
    var pending: Store
    var disk: Store

    /** Module import: read the file, skipping what has expired. */
    constructor (disk: Store, now: real)
      ensures World(pending, this.disk) == Restarted(World([], disk), now)
    {
      this.disk := disk;
      this.pending := Unexpired(disk, now);
    }

    method StashPending(gcNow: real, now: real, token: string, verifier: string, nonce: string, returnTo: string)
      modifies this
      ensures pending == disk == Stashed(old(pending), gcNow, token, Login(verifier, nonce, returnTo, now))
    {
      hide Unexpired, Put;
      pending := Unexpired(pending, gcNow);
      ghost var start := pending;
      while |pending| >= MAX_PENDING
        invariant Evicted(pending) == Evicted(start)
        decreases |pending|
      {
        var oldest := OldestIndex(pending);
        pending := pending[..oldest] + pending[oldest + 1..];
      }
      pending := Put(pending, token, Login(verifier, nonce, returnTo, now));
      disk := pending;
    }

    method ConsumePending(token: string, gcNow: real, checkNow: real) returns (login: Option<Login>)
      modifies this
      ensures pending == disk == Without(Unexpired(old(pending), gcNow), token)
      ensures login == Redeemed(old(pending), token, gcNow, checkNow)
      ensures login.Some? ==> checkNow - login.value.createdAt <= 300.0
    {
      pending := Unexpired(pending, gcNow);
      login := Find(pending, token);
      pending := Without(pending, token);
      disk := pending;
      if login.Some? && checkNow - login.value.createdAt > TTL {
        login := None;
      }
    }
  }

  // ---------- Runs ----------

  datatype World = World(pending: Store, disk: Store)

  datatype Event =
    | Stash(gcNow: real, token: string, login: Login)
    | Consume(token: string, gcNow: real, checkNow: real)
    | Restart(now: real)

  function Restarted(w: World, now: real): World {
    w.(pending := Unexpired(w.disk, now))
  }

  function Next(w: World, e: Event): World {
    match e
    case Stash(gcNow, token, login) =>
      var s := Stashed(w.pending, gcNow, token, login);
      World(s, s)
    case Consume(token, gcNow, checkNow) =>
      var s := Without(Unexpired(w.pending, gcNow), token);
      World(s, s)
    case Restart(now) => Restarted(w, now)
  }

  function Run(w: World, events: seq<Event>): World
    decreases |events|
  {
    if events == [] then w else Run(Next(w, events[0]), events[1..])
  }

  predicate UniqueTokens(s: Store) {
    forall i, j :: 0 <= i < j < |s| ==> s[i].token != s[j].token
  }

  /** Memory is the disk, or what a restart made of the disk. */
  ghost predicate Mirrored(w: World) {
    w.pending == w.disk || exists now: real :: w.pending == Unexpired(w.disk, now)
  }

  ghost predicate Sound(w: World) {
    && |w.pending| <= MAX_PENDING && |w.disk| <= MAX_PENDING
    && UniqueTokens(w.pending) && UniqueTokens(w.disk)
    && Mirrored(w)
  }

  predicate SubStore(s: Store, t: Store) {
    |s| <= |t| && forall i <- s :: i in t
  }

  lemma {:induction false} UnexpiredIsSub(s: Store, now: real)
    ensures SubStore(Unexpired(s, now), s)
    ensures UniqueTokens(s) ==> UniqueTokens(Unexpired(s, now))
    ensures forall i <- s :: !Expired(i, now) ==> i in Unexpired(s, now)
    ensures forall i <- Unexpired(s, now) :: !Expired(i, now)
    decreases |s|
  {
    if s != [] {
      var rest := Unexpired(s[1..], now);
      UnexpiredIsSub(s[1..], now);
      assert s == [s[0]] + s[1..];
      if UniqueTokens(s) {
        forall j | 0 <= j < |rest| ensures rest[j].token != s[0].token {
          assert rest[j] in s[1..];
        }
      }
    }
  }

  lemma {:induction false} WithoutIsSub(s: Store, token: string)
    ensures SubStore(Without(s, token), s)
    ensures UniqueTokens(s) ==> UniqueTokens(Without(s, token))
    ensures !Has(Without(s, token), token)
    ensures forall i <- s :: i.token != token ==> i in Without(s, token)
    decreases |s|
  {
    hide UniqueTokens, Has;
    if s == [] {
      NoneHas(token);
    } else {
      var rest := Without(s[1..], token);
      WithoutIsSub(s[1..], token);
      assert s == [s[0]] + s[1..];
      if s[0].token == token {
        assert [] + rest == rest;
      } else {
        HasSplit([s[0]] + rest, token);
        assert ([s[0]] + rest)[1..] == rest;
      }
      if UniqueTokens(s) {
        UniqueSplit(s);
        if Has(rest, s[0].token) {
          SubHas(rest, s[1..], s[0].token);
        }
        UniqueJoin(s[0], rest);
      }
    }
  }

  lemma NoneHas(token: string)
    ensures !Has([], token)
  {
  }

  lemma {:induction false} EvictedIsSub(s: Store)
    ensures SubStore(Evicted(s), s)
    ensures UniqueTokens(s) ==> UniqueTokens(Evicted(s))
    decreases |s|
  {
    if |s| >= MAX_PENDING {
      EvictedIsSub(DropAt(s, OldestIndex(s)));
    }
  }

  lemma {:induction false} PutAdds(s: Store, token: string, login: Login)
    ensures |Put(s, token, login)| <= |s| + 1
    ensures UniqueTokens(s) ==> UniqueTokens(Put(s, token, login))
    ensures Item(token, login) in Put(s, token, login)
    ensures forall i <- Put(s, token, login) :: i in s || i == Item(token, login)
    ensures !Has(s, token) ==> Put(s, token, login) == s + [Item(token, login)]
    decreases |s|
  {
    hide UniqueTokens, Has;
    if s == [] {
      OneIsUnique(Item(token, login));
    } else {
      var rest := Put(s[1..], token, login);
      PutAdds(s[1..], token, login);
      assert s == [s[0]] + s[1..];
      HasSplit(s, token);
      if UniqueTokens(s) {
        UniqueSplit(s);
        if s[0].token == token {
          UniqueJoin(Item(token, login), s[1..]);
        } else {
          if Has(rest, s[0].token) {
            HasAfterPut(s[1..], rest, Item(token, login), s[0].token);
          }
          UniqueJoin(s[0], rest);
        }
      }
    }
  }

  lemma OneIsUnique(i: Item)
    ensures UniqueTokens([i])
  {
  }

  lemma UniqueSplit(s: Store)
    requires s != [] && UniqueTokens(s)
    ensures UniqueTokens(s[1..]) && !Has(s[1..], s[0].token)
  {
  }

  lemma UniqueJoin(i: Item, rest: Store)
    requires UniqueTokens(rest) && !Has(rest, i.token)
    ensures UniqueTokens([i] + rest)
  {
    forall j | 0 <= j < |rest| ensures rest[j].token != i.token {
      assert rest[j] in rest;
    }
  }

  lemma HasSplit(s: Store, token: string)
    requires s != []
    ensures Has(s, token) <==> s[0].token == token || Has(s[1..], token)
  {
    assert s == [s[0]] + s[1..];
    assert s[0] in s;
    assert forall i <- s[1..] :: i in s;
  }

  lemma StepIsSound(w: World, e: Event)
    requires Sound(w)
    ensures Sound(Next(w, e))
  {
    hide Unexpired, Without, Evicted, Put, UniqueTokens;
    match e {
      case Stash(gcNow, token, login) =>
        UnexpiredIsSub(w.pending, gcNow);
        EvictedIsSub(Unexpired(w.pending, gcNow));
        PutAdds(Evicted(Unexpired(w.pending, gcNow)), token, login);
      case Consume(token, gcNow, checkNow) =>
        UnexpiredIsSub(w.pending, gcNow);
        WithoutIsSub(Unexpired(w.pending, gcNow), token);
      case Restart(now) =>
        UnexpiredIsSub(w.disk, now);
    }
  }

  /** The store never exceeds its cap, in memory or on disk, and the disk holds memory plus only entries that
      had expired at the last restart. */
  lemma {:induction false} RunIsSound(w: World, events: seq<Event>)
    requires Sound(w)
    ensures Sound(Run(w, events))
    decreases |events|
  {
    hide Sound, Next;
    if events != [] {
      StepIsSound(w, events[0]);
      RunIsSound(Next(w, events[0]), events[1..]);
    }
  }

  /** From an empty store, never more than twenty entries. */
  lemma StoreIsBounded(events: seq<Event>)
    ensures var w := Run(World([], []), events);
            |w.pending| <= 20 && |w.disk| <= 20
  {
    RunIsSound(World([], []), events);
  }

  /** No step leaves an expired entry in memory, other than a login just handed out. */
  lemma ExpiredAreDropped(w: World, e: Event)
    ensures forall i <- Next(w, e).pending ::
      match e
      case Stash(gcNow, token, login) => gcNow - i.login.createdAt <= 300.0 || i == Item(token, login)
      case Consume(token, gcNow, checkNow) => gcNow - i.login.createdAt <= 300.0
      case Restart(now) => now - i.login.createdAt <= 300.0
  {
    hide Unexpired, Without, Evicted, Put, UniqueTokens;
    match e {
      case Stash(gcNow, token, login) =>
        UnexpiredIsSub(w.pending, gcNow);
        EvictedIsSub(Unexpired(w.pending, gcNow));
        PutAdds(Evicted(Unexpired(w.pending, gcNow)), token, login);
      case Consume(token, gcNow, checkNow) =>
        UnexpiredIsSub(w.pending, gcNow);
        WithoutIsSub(Unexpired(w.pending, gcNow), token);
      case Restart(now) =>
        UnexpiredIsSub(w.disk, now);
    }
  }

  // ---------- Single use ----------

  function Redemptions(w: World, events: seq<Event>, token: string): nat
    decreases |events|
  {
    if events == [] then 0
    else
      var e := events[0];
      (if e.Consume? && e.token == token && Redeemed(w.pending, token, e.gcNow, e.checkNow).Some? then 1 else 0)
      + Redemptions(Next(w, e), events[1..], token)
  }

  function Stashes(events: seq<Event>, token: string): nat
    decreases |events|
  {
    if events == [] then 0
    else (if events[0].Stash? && events[0].token == token then 1 else 0) + Stashes(events[1..], token)
  }

  lemma {:induction false} FindHas(s: Store, token: string)
    ensures Find(s, token).Some? <==> Has(s, token)
    decreases |s|
  {
    if s != [] {
      FindHas(s[1..], token);
      assert s == [s[0]] + s[1..];
      if Has(s[1..], token) {
        var i :| i in s[1..] && i.token == token;
        assert i in s;
      }
      if s[0].token == token {
        assert s[0] in s;
      }
    }
  }

  lemma SubHas(s: Store, t: Store, token: string)
    requires SubStore(s, t) && Has(s, token)
    ensures Has(t, token)
  {
    var i :| i in s && i.token == token;
    assert i in t;
  }

  ghost predicate DiskCovers(w: World) {
    SubStore(w.pending, w.disk)
  }

  lemma StepCovers(w: World, e: Event)
    requires DiskCovers(w)
    ensures DiskCovers(Next(w, e))
  {
    hide Unexpired, Without, Evicted, Put;
    if e.Restart? {
      UnexpiredIsSub(w.disk, e.now);
    }
  }

  /** Before this step the token was worth `Has` redemptions at most; the step spends one for every redemption. */
  lemma StepSpends(w: World, e: Event, token: string)
    requires DiskCovers(w)
    ensures Has(Next(w, e).disk, token) ==> Has(w.disk, token) || (e.Stash? && e.token == token)
    ensures e.Consume? && e.token == token ==> !Has(Next(w, e).disk, token)
    ensures e.Consume? && Redeemed(w.pending, token, e.gcNow, e.checkNow).Some? ==> Has(w.disk, token)
  {
    hide Unexpired, Without, Evicted, Put, Find, Has;
    match e {
      case Stash(gcNow, t, login) =>
        UnexpiredIsSub(w.pending, gcNow);
        EvictedIsSub(Unexpired(w.pending, gcNow));
        var kept := Evicted(Unexpired(w.pending, gcNow));
        PutAdds(kept, t, login);
        if Has(Put(kept, t, login), token) && t != token {
          HasAfterPut(kept, Put(kept, t, login), Item(t, login), token);
          SubHas(kept, w.disk, token);
        }
      case Consume(t, gcNow, checkNow) =>
        UnexpiredIsSub(w.pending, gcNow);
        var live := Unexpired(w.pending, gcNow);
        WithoutIsSub(live, t);
        FindHas(live, token);
        if Has(live, token) {
          SubHas(live, w.disk, token);
        }
        if Has(Without(live, t), token) {
          SubHas(Without(live, t), live, token);
        }
      case Restart(now) =>
    }
  }

  lemma HasAfterPut(s: Store, t: Store, added: Item, token: string)
    requires forall i <- t :: i in s || i == added
    requires Has(t, token) && added.token != token
    ensures Has(s, token)
  {
    var i :| i in t && i.token == token;
  }

  /** A token is redeemed at most as often as it was handed out: once, when tokens do not repeat. */
  lemma {:induction false} RedeemedAtMostOnce(w: World, events: seq<Event>, token: string)
    requires DiskCovers(w)
    ensures Redemptions(w, events, token) <= Stashes(events, token) + if Has(w.disk, token) then 1 else 0
    decreases |events|
  {
    hide Next, Redeemed, DiskCovers, Has;
    if events != [] {
      StepSpends(w, events[0], token);
      StepCovers(w, events[0]);
      RedeemedAtMostOnce(Next(w, events[0]), events[1..], token);
    }
  }

  // ---------- Redeemable in time ----------

  /** Entries are in order of creation, none later than `clock`. */
  predicate InOrder(s: Store, clock: real) {
    && (forall i, j :: 0 <= i < j < |s| ==> s[i].login.createdAt <= s[j].login.createdAt)
    && (forall i :: 0 <= i < |s| ==> s[i].login.createdAt <= clock)
  }

  /** `item` is in the store with at most `later` entries behind it. */
  predicate Within(s: Store, item: Item, later: nat) {
    exists k :: 0 <= k < |s| && s[k] == item && |s| - 1 - k <= later
  }

  lemma WithinCases(s: Store, item: Item, later: nat)
    requires Within(s, item, later)
    ensures s != [] && ((s[0] == item && |s| - 1 <= later) || Within(s[1..], item, later))
  {
    var k :| 0 <= k < |s| && s[k] == item && |s| - 1 - k <= later;
    if k > 0 {
      assert s[1..][k - 1] == item;
    }
  }

  lemma FirstIsWithin(item: Item, rest: Store, later: nat)
    requires |rest| <= later
    ensures Within([item] + rest, item, later)
  {
    assert ([item] + rest)[0] == item;
  }

  lemma WithinMore(first: Item, rest: Store, item: Item, later: nat)
    requires Within(rest, item, later)
    ensures Within([first] + rest, item, later)
  {
    var k :| 0 <= k < |rest| && rest[k] == item && |rest| - 1 - k <= later;
    assert ([first] + rest)[k + 1] == item;
  }

  lemma {:induction false} UnexpiredKeeps(s: Store, now: real, clock: real, item: Item, later: nat)
    requires InOrder(s, clock) && Within(s, item, later) && !Expired(item, now)
    ensures InOrder(Unexpired(s, now), clock) && Within(Unexpired(s, now), item, later)
    decreases |s|
  {
    hide InOrder, Within, Expired;
    UnexpiredInOrder(s, now, clock);
    WithinCases(s, item, later);
    var rest := Unexpired(s[1..], now);
    if s[0] == item && |s| - 1 <= later {
      UnexpiredIsSub(s[1..], now);
      FirstIsWithin(item, rest, later);
    } else {
      TailInOrder(s, clock);
      UnexpiredKeeps(s[1..], now, clock, item, later);
      WithinMore(s[0], rest, item, later);
      assert [] + rest == rest;
    }
  }

  lemma TailInOrder(s: Store, clock: real)
    requires InOrder(s, clock) && s != []
    ensures InOrder(s[1..], clock)
  {
  }

  lemma HeadStaysFirst(s: Store, rest: Store, clock: real)
    requires s != [] && InOrder(s, clock) && InOrder(rest, clock) && SubStore(rest, s[1..])
    ensures InOrder([s[0]] + rest, clock)
  {
    forall j | 0 <= j < |rest| ensures s[0].login.createdAt <= rest[j].login.createdAt {
      assert rest[j] in s[1..];
    }
  }

  lemma {:induction false} UnexpiredInOrder(s: Store, now: real, clock: real)
    requires InOrder(s, clock)
    ensures InOrder(Unexpired(s, now), clock)
    decreases |s|
  {
    hide InOrder, Expired;
    if s != [] {
      TailInOrder(s, clock);
      UnexpiredInOrder(s[1..], now, clock);
      UnexpiredIsSub(s[1..], now);
      HeadStaysFirst(s, Unexpired(s[1..], now), clock);
      assert [] + Unexpired(s[1..], now) == Unexpired(s[1..], now);
    }
  }

  lemma {:induction false} EvictedKeeps(s: Store, clock: real, item: Item, later: nat)
    requires InOrder(s, clock) && Within(s, item, later) && later < MAX_PENDING - 1
    ensures InOrder(Evicted(s), clock) && Within(Evicted(s), item, later)
    decreases |s|
  {
    hide InOrder, Within;
    if |s| >= MAX_PENDING {
      FirstIsOldest(s, clock);
      assert DropAt(s, 0) == s[1..];
      TailInOrder(s, clock);
      NotTheFirst(s, item, later);
      EvictedKeeps(s[1..], clock, item, later);
    }
  }

  lemma FirstIsOldest(s: Store, clock: real)
    requires InOrder(s, clock) && s != []
    ensures OldestIndex(s) == 0
  {
  }

  lemma NotTheFirst(s: Store, item: Item, later: nat)
    requires Within(s, item, later) && |s| >= MAX_PENDING && later < MAX_PENDING - 1
    ensures Within(s[1..], item, later)
  {
    var k :| 0 <= k < |s| && s[k] == item && |s| - 1 - k <= later;
    assert s[1..][k - 1] == item;
  }

  lemma {:induction false} WithoutKeeps(s: Store, token: string, clock: real, item: Item, later: nat)
    requires InOrder(s, clock) && Within(s, item, later) && item.token != token
    ensures InOrder(Without(s, token), clock) && Within(Without(s, token), item, later)
    decreases |s|
  {
    hide InOrder, Within;
    WithoutInOrder(s, token, clock);
    WithinCases(s, item, later);
    var rest := Without(s[1..], token);
    if s[0] == item && |s| - 1 <= later {
      WithoutIsSub(s[1..], token);
      FirstIsWithin(item, rest, later);
    } else {
      TailInOrder(s, clock);
      WithoutKeeps(s[1..], token, clock, item, later);
      WithinMore(s[0], rest, item, later);
      assert [] + rest == rest;
    }
  }

  lemma {:induction false} WithoutInOrder(s: Store, token: string, clock: real)
    requires InOrder(s, clock)
    ensures InOrder(Without(s, token), clock)
    decreases |s|
  {
    hide InOrder;
    if s != [] {
      TailInOrder(s, clock);
      WithoutInOrder(s[1..], token, clock);
      WithoutIsSub(s[1..], token);
      HeadStaysFirst(s, Without(s[1..], token), clock);
      assert [] + Without(s[1..], token) == Without(s[1..], token);
    }
  }

  lemma AppendKeeps(s: Store, clock: real, item: Item, later: nat, added: Item)
    requires InOrder(s, clock) && Within(s, item, later) && added.login.createdAt >= clock
    ensures InOrder(s + [added], added.login.createdAt) && Within(s + [added], item, later + 1)
  {
    var k :| 0 <= k < |s| && s[k] == item && |s| - 1 - k <= later;
    assert (s + [added])[k] == item;
  }

  lemma LaterClock(s: Store, clock: real, clock': real)
    requires InOrder(s, clock) && clock <= clock'
    ensures InOrder(s, clock')
  {
  }

  /** The clock after an event, on the path of a clock that never steps back. */
  function ClockAfter(e: Event): real {
    match e
    case Stash(gcNow, token, login) => login.createdAt
    case Consume(token, gcNow, checkNow) => checkNow
    case Restart(now) => now
  }

  /** The event happens at or after `clock`, and a token handed out is new. */
  predicate Timely(w: World, e: Event, clock: real) {
    match e
    case Stash(gcNow, token, login) => clock <= gcNow <= login.createdAt && !Has(w.disk, token)
    case Consume(token, gcNow, checkNow) => clock <= gcNow <= checkNow
    case Restart(now) => clock <= now
  }

  /** A run under a clock that never steps back. */
  predicate AllTimely(w: World, events: seq<Event>, clock: real)
    decreases |events|
  {
    events == []
    || (Timely(w, events[0], clock) && AllTimely(Next(w, events[0]), events[1..], ClockAfter(events[0])))
  }

  function ClockAfterAll(events: seq<Event>, clock: real): real
    decreases |events|
  {
    if events == [] then clock else ClockAfterAll(events[1..], ClockAfter(events[0]))
  }

  ghost predicate Tidy(w: World, clock: real) {
    Sound(w) && DiskCovers(w) && InOrder(w.pending, clock) && InOrder(w.disk, clock)
  }

  lemma StepIsTidy(w: World, e: Event, clock: real)
    requires Tidy(w, clock) && Timely(w, e, clock)
    ensures Tidy(Next(w, e), ClockAfter(e))
  {
    hide Unexpired, Without, Evicted, Put, InOrder, Has, Sound;
    StepIsSound(w, e);
    StepCovers(w, e);
    match e {
      case Stash(gcNow, token, login) =>
        var kept := Evicted(Unexpired(w.pending, gcNow));
        UnexpiredInOrder(w.pending, gcNow, clock);
        UnexpiredIsSub(w.pending, gcNow);
        EvictedInOrder(Unexpired(w.pending, gcNow), clock);
        EvictedIsSub(Unexpired(w.pending, gcNow));
        if Has(kept, token) {
          SubHas(kept, w.disk, token);
        }
        PutAdds(kept, token, login);
        AppendInOrder(kept, clock, Item(token, login));
      case Consume(token, gcNow, checkNow) =>
        UnexpiredInOrder(w.pending, gcNow, clock);
        WithoutInOrder(Unexpired(w.pending, gcNow), token, clock);
        LaterClock(Without(Unexpired(w.pending, gcNow), token), clock, checkNow);
      case Restart(now) =>
        UnexpiredInOrder(w.disk, now, clock);
        LaterClock(w.disk, clock, now);
        LaterClock(Unexpired(w.disk, now), clock, now);
    }
  }

  lemma AppendInOrder(s: Store, clock: real, added: Item)
    requires InOrder(s, clock) && added.login.createdAt >= clock
    ensures InOrder(s + [added], added.login.createdAt)
  {
  }

  /** Entries stay in order of creation, in memory and on disk. */
  lemma {:induction false} RunIsTidy(w: World, events: seq<Event>, clock: real)
    requires Tidy(w, clock) && AllTimely(w, events, clock)
    ensures Tidy(Run(w, events), ClockAfterAll(events, clock))
    decreases |events|
  {
    hide Tidy, Timely, Next, ClockAfter;
    if events != [] {
      StepIsTidy(w, events[0], clock);
      RunIsTidy(Next(w, events[0]), events[1..], ClockAfter(events[0]));
    }
  }

  lemma EmptyIsTidy(clock: real)
    ensures Tidy(World([], []), clock)
  {
  }

  /** A timely event, before `item` expires, that does not ask for `item`. */
  predicate Harmless(w: World, e: Event, clock: real, item: Item) {
    Timely(w, e, clock) && ClockAfter(e) <= item.login.createdAt + TTL && (e.Consume? ==> e.token != item.token)
  }

  predicate AllHarmless(w: World, events: seq<Event>, clock: real, item: Item)
    decreases |events|
  {
    events == []
    || (&& Harmless(w, events[0], clock, item)
        && AllHarmless(Next(w, events[0]), events[1..], ClockAfter(events[0]), item))
  }

  function StashCount(events: seq<Event>): nat
    decreases |events|
  {
    if events == [] then 0 else (if events[0].Stash? then 1 else 0) + StashCount(events[1..])
  }

  ghost predicate Safe(w: World, clock: real, item: Item, later: nat) {
    && DiskCovers(w)
    && InOrder(w.pending, clock) && Within(w.pending, item, later)
    && InOrder(w.disk, clock) && Within(w.disk, item, later)
  }

  lemma StepKeepsSafe(w: World, e: Event, clock: real, item: Item, later: nat)
    requires Safe(w, clock, item, later) && Harmless(w, e, clock, item)
    requires e.Stash? ==> later < MAX_PENDING - 1
    ensures Safe(Next(w, e), ClockAfter(e), item, if e.Stash? then later + 1 else later)
  {
    hide Unexpired, Without, Evicted, Put, InOrder, Within, Has;
    StepCovers(w, e);
    match e {
      case Stash(gcNow, token, login) =>
        UnexpiredKeeps(w.pending, gcNow, clock, item, later);
        var live := Unexpired(w.pending, gcNow);
        EvictedKeeps(live, clock, item, later);
        UnexpiredIsSub(w.pending, gcNow);
        EvictedIsSub(live);
        if Has(Evicted(live), token) {
          SubHas(Evicted(live), w.disk, token);
        }
        PutAdds(Evicted(live), token, login);
        AppendKeeps(Evicted(live), clock, item, later, Item(token, login));
      case Consume(token, gcNow, checkNow) =>
        UnexpiredKeeps(w.pending, gcNow, clock, item, later);
        WithoutKeeps(Unexpired(w.pending, gcNow), token, clock, item, later);
        LaterClock(Without(Unexpired(w.pending, gcNow), token), clock, checkNow);
      case Restart(now) =>
        UnexpiredKeeps(w.disk, now, clock, item, later);
        LaterClock(w.disk, clock, now);
        LaterClock(Unexpired(w.disk, now), clock, now);
    }
  }

  lemma {:induction false} RunKeepsSafe(w: World, events: seq<Event>, clock: real, item: Item, later: nat)
    returns (clock': real)
    requires Safe(w, clock, item, later) && AllHarmless(w, events, clock, item)
    requires later + StashCount(events) < MAX_PENDING
    ensures Safe(Run(w, events), clock', item, later + StashCount(events))
    decreases |events|
  {
    hide Safe, Harmless, Next;
    clock' := clock;
    if events != [] {
      var e := events[0];
      StepKeepsSafe(w, e, clock, item, later);
      clock' := RunKeepsSafe(Next(w, e), events[1..], ClockAfter(e), item, if e.Stash? then later + 1 else later);
    }
  }

  lemma {:induction false} FindFirst(s: Store, item: Item)
    requires UniqueTokens(s) && item in s
    ensures Find(s, item.token) == Some(item.login)
    decreases |s|
  {
    if s[0] != item {
      assert s == [s[0]] + s[1..];
      assert item in s[1..];
      var k :| 0 <= k < |s[1..]| && s[1..][k] == item;
      assert s[k + 1].token != s[0].token;
      FindFirst(s[1..], item);
    }
  }

  lemma JustStashed(w: World, gcNow: real, token: string, login: Login, clock: real)
    requires DiskCovers(w) && InOrder(w.pending, clock) && clock <= gcNow <= login.createdAt && !Has(w.disk, token)
    ensures Safe(Next(w, Stash(gcNow, token, login)), login.createdAt, Item(token, login), 0)
  {
    hide Unexpired, Evicted, Put, Has;
    UnexpiredInOrder(w.pending, gcNow, clock);
    UnexpiredIsSub(w.pending, gcNow);
    var live := Unexpired(w.pending, gcNow);
    EvictedIsSub(live);
    EvictedInOrder(live, clock);
    if Has(Evicted(live), token) {
      SubHas(Evicted(live), w.disk, token);
    }
    PutAdds(Evicted(live), token, login);
    var s := Evicted(live) + [Item(token, login)];
    assert s[|s| - 1] == Item(token, login);
  }

  lemma {:induction false} EvictedInOrder(s: Store, clock: real)
    requires InOrder(s, clock)
    ensures InOrder(Evicted(s), clock)
    decreases |s|
  {
    if |s| >= MAX_PENDING {
      EvictedInOrder(DropAt(s, OldestIndex(s)), clock);
    }
  }

  /** Over any run from an empty store under a clock that never steps back, a login handed out can be redeemed
      within its time to live, across restarts, as long as fewer than twenty others were handed out after it. */
  lemma RedeemableInTime(before: seq<Event>, start: real, gcNow: real, token: string, login: Login,
                         later: seq<Event>, gcAt: real, checkAt: real)
    requires AllTimely(World([], []), before, start)
    requires var w := Run(World([], []), before);
             var handedOut := Stash(gcNow, token, login);
             && Timely(w, handedOut, ClockAfterAll(before, start))
             && AllHarmless(Next(w, handedOut), later, login.createdAt, Item(token, login))
    requires StashCount(later) < 20
    requires gcAt <= login.createdAt + 300.0 && checkAt <= login.createdAt + 300.0
    ensures var w := Run(Next(Run(World([], []), before), Stash(gcNow, token, login)), later);
            Redeemed(w.pending, token, gcAt, checkAt) == Some(login)
  {
    hide Next, Safe, AllHarmless, AllTimely, Sound, InOrder, Unexpired, Find;
    var clock := ClockAfterAll(before, start);
    EmptyIsTidy(start);
    RunIsTidy(World([], []), before, start);
    var w, item := Run(World([], []), before), Item(token, login);
    var w1 := Next(w, Stash(gcNow, token, login));
    JustStashed(w, gcNow, token, login, clock);
    StepIsSound(w, Stash(gcNow, token, login));
    var _ := RunKeepsSafe(w1, later, login.createdAt, item, 0);
    RunIsSound(w1, later);
    var w2 := Run(w1, later);
    SafeHasItem(w2, item, StashCount(later));
    SoundIsUnique(w2);
    UnexpiredIsSub(w2.pending, gcAt);
    FindFirst(Unexpired(w2.pending, gcAt), item);
  }

  lemma SafeHasItem(w: World, item: Item, later: nat)
    requires exists clock: real :: Safe(w, clock, item, later)
    ensures item in w.pending
  {
  }

  lemma SoundIsUnique(w: World)
    requires Sound(w)
    ensures UniqueTokens(w.pending)
  {
  }
}
