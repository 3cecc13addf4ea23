/** The hash-chained audit log of `solar_monitor/signed_audit.py`: writes that may overlap, batches for upload,
    acknowledgements. The hash, the canonical form and the signature are given functions. */
module SignedAudit {
  import opened Wrappers

  /** The fields a row's signature covers. */
  datatype Header<P> = Header(
    issuerKid: string, eventType: string, payload: P, prevHash: Option<string>, occurredAt: string)

  type Canon<!P> = Header<P> -> string

  type Hash = string -> string

  type Sign = string -> string

  datatype Row<P> = Row(id: nat, header: Header<P>, signedRepr: string, signature: string, uploadedAt: Option<int>)

  /** A write between reading the tail of the log and inserting its row; `seen` is the length of the log it read. */
  datatype Draft<P> = Draft(header: Header<P>, seen: nat)

  class AuditLog<P> {
    var rows: seq<Row<P>>
    var drafts: seq<Draft<P>>
    const hash: Hash
    const canon: Canon<P>
    const sign: Sign

    constructor (hash: Hash, canon: Canon<P>, sign: Sign)
      ensures rows == [] && drafts == [] && this.hash == hash && this.canon == canon && this.sign == sign
    {
      this.rows, this.drafts := [], [];
      this.hash, this.canon, this.sign := hash, canon, sign;
    }

    /** The first half of a write: read the tail, and wait. */
    method BeginWrite(issuerKid: string, eventType: string, payload: P, occurredAt: string)
      modifies this
      ensures rows == old(rows)
      ensures drafts == old(drafts) + [Drafted(rows, hash, issuerKid, eventType, payload, occurredAt)]
    {
      var tail := if |rows| > 0 then rows[|rows| - 1].signedRepr else "";
      var prevHash := if tail != "" then Some(hash(tail)) else None;
      drafts := drafts + [Draft(Header(issuerKid, eventType, payload, prevHash, occurredAt), |rows|)];
    }

    /** The second half: insert the row. */
    method FinishWrite(k: nat) returns (id: nat)
      requires k < |drafts|
      modifies this
      ensures rows == Inserted(old(rows), canon, sign, old(drafts)[k].header)
      ensures drafts == Removed(old(drafts), k)
      ensures id == |rows|
    {
      var header := drafts[k].header;
      drafts := drafts[..k] + drafts[k + 1..];
      var repr := canon(header);
      id := |rows| + 1;
      rows := rows + [Row(id, header, repr, sign(repr), None)];
    }

    /** The oldest rows not yet uploaded, at most `limit` of them. */
    method FetchPending(limit: nat) returns (batch: seq<Row<P>>)
      ensures batch == FirstOf(Unsent(rows), limit)
    {
      hide Unsent;
      batch := [];
      var i := 0;
      assert rows[0..] == rows;
      while i < |rows| && |batch| < limit
        invariant i <= |rows| && |batch| <= limit
        invariant batch + Unsent(rows[i..]) == Unsent(rows)
      {
        UnsentStep(rows, i);
        if rows[i].uploadedAt.None? {
          batch := batch + [rows[i]];
        }
        i := i + 1;
      }
      if i == |rows| {
        NoneUnsent(rows[i..]);
      }
    }

    method MarkUploaded(ids: seq<nat>, now: int)
      modifies this
      ensures rows == Marked(old(rows), ids, now)
    {
      ghost var before := rows;
      for i := 0 to |rows|
        invariant |rows| == |before|
        invariant forall j :: 0 <= j < i ==> rows[j] == Mark(before[j], ids, now)
        invariant forall j :: i <= j < |rows| ==> rows[j] == before[j]
      {
        var row := rows[i];
        if row.id in ids && row.uploadedAt.None? {
          rows := rows[i := row.(uploadedAt := Some(now))];
        }
      }
      assert rows == Marked(before, ids, now);
    }
  }

  /** The last signed form, empty for an empty log. */
  function Tail<P>(rows: seq<Row<P>>): string {
    if rows == [] then "" else rows[|rows| - 1].signedRepr
  }

  function Link(tail: string, hash: Hash): Option<string> {
    if tail == "" then None else Some(hash(tail))
  }

  function Drafted<P>(rows: seq<Row<P>>, hash: Hash,
                      issuerKid: string, eventType: string, payload: P, occurredAt: string): Draft<P>
  {
    Draft(Header(issuerKid, eventType, payload, Link(Tail(rows), hash), occurredAt), |rows|)
  }

  function Inserted<P>(rows: seq<Row<P>>, canon: Canon<P>, sign: Sign, header: Header<P>): seq<Row<P>> {
    rows + [Row(|rows| + 1, header, canon(header), sign(canon(header)), None)]
  }

  function Unsent<P>(rows: seq<Row<P>>): seq<Row<P>> {
    if rows == [] then [] else (if rows[0].uploadedAt.None? then [rows[0]] else []) + Unsent(rows[1..])
  }

  lemma UnsentStep<P>(rows: seq<Row<P>>, i: nat)
    requires i < |rows|
    ensures Unsent(rows[i..]) == (if rows[i].uploadedAt.None? then [rows[i]] else []) + Unsent(rows[i + 1..])
  {
    assert rows[i..][1..] == rows[i + 1..];
  }

  lemma NoneUnsent<P>(rows: seq<Row<P>>)
    requires rows == []
    ensures Unsent(rows) == []
  {
  }

  function FirstOf<T>(xs: seq<T>, n: nat): seq<T> {
    if n <= |xs| then xs[..n] else xs
  }

  function Mark<P>(row: Row<P>, ids: seq<nat>, now: int): Row<P> {
    if row.id in ids && row.uploadedAt.None? then row.(uploadedAt := Some(now)) else row
  }

  function Marked<P>(rows: seq<Row<P>>, ids: seq<nat>, now: int): (r: seq<Row<P>>)
    ensures |r| == |rows|
    ensures forall i :: 0 <= i < |rows| ==> r[i] == Mark(rows[i], ids, now)
  {
    seq(|rows|, i requires 0 <= i < |rows| => Mark(rows[i], ids, now))
  }

  // ---------- The chain ----------

  ghost predicate Injective<A(!new), B(!new)>(f: A -> B) {
    forall x, y :: f(x) == f(y) ==> x == y
  }

  ghost predicate NeverEmpty<P(!new)>(canon: Canon<P>) {
    forall h :: canon(h) != ""
  }

  predicate Numbered<P>(rows: seq<Row<P>>) {
    forall i :: 0 <= i < |rows| ==> rows[i].id == i + 1
  }

  /** Row `i` carries its canonical form and the hash of its predecessor's canonical form. */
  predicate LinkedAt<P>(rows: seq<Row<P>>, hash: Hash, canon: Canon<P>, i: nat)
    requires i < |rows|
  {
    && rows[i].signedRepr == canon(rows[i].header)
    && rows[i].header.prevHash == if i == 0 then None else Some(hash(rows[i - 1].signedRepr))
  }

  predicate WellLinked<P>(rows: seq<Row<P>>, hash: Hash, canon: Canon<P>) {
    forall i: nat :: i < |rows| ==> LinkedAt(rows, hash, canon, i)
  }

  /** A row inserted on the strength of some tail links exactly when that is still the tail. */
  lemma InsertLinksExactly<P(!new)>(rows: seq<Row<P>>, hash: Hash, canon: Canon<P>, sign: Sign, header: Header<P>,
                                    tail: string)
    requires WellLinked(rows, hash, canon) && Injective(hash) && NeverEmpty(canon)
    requires header.prevHash == Link(tail, hash)
    ensures WellLinked(Inserted(rows, canon, sign, header), hash, canon) <==> tail == Tail(rows)
  {
    hide Injective;
    var after, n := Inserted(rows, canon, sign, header), |rows|;
    assert n > 0 ==> LinkedAt(rows, hash, canon, n - 1);
    Apply(hash, tail, Tail(rows));
    assert LinkedAt(after, hash, canon, n) <==> tail == Tail(rows);
    forall i: nat | i < n ensures LinkedAt(after, hash, canon, i) {
      assert LinkedAt(rows, hash, canon, i);
    }
  }

  lemma MarkingKeepsLinks<P>(rows: seq<Row<P>>, hash: Hash, canon: Canon<P>, ids: seq<nat>, now: int)
    ensures WellLinked(Marked(rows, ids, now), hash, canon) <==> WellLinked(rows, hash, canon)
  {
    var after := Marked(rows, ids, now);
    forall i: nat | i < |after| ensures LinkedAt(after, hash, canon, i) <==> LinkedAt(rows, hash, canon, i) {
      assert after[i] == Mark(rows[i], ids, now);
      if i > 0 {
        assert after[i - 1] == Mark(rows[i - 1], ids, now);
      }
    }
  }

  /** The last signed form pins the whole log: two well-linked logs that end in the same one have the same rows. */
  lemma {:induction false} TailPinsTheLog<P(!new)>(a: seq<Row<P>>, b: seq<Row<P>>, hash: Hash, canon: Canon<P>)
    requires WellLinked(a, hash, canon) && WellLinked(b, hash, canon)
    requires Injective(hash) && Injective(canon)
    requires a != [] && b != [] && a[|a| - 1].signedRepr == b[|b| - 1].signedRepr
    ensures |a| == |b|
    ensures forall i :: 0 <= i < |a| ==> SameRow(a[i], b[i])
    decreases |a|
  {
    hide Injective;
    var m, n := |a| - 1, |b| - 1;
    assert LinkedAt(a, hash, canon, m) && LinkedAt(b, hash, canon, n);
    Apply(canon, a[m].header, b[n].header);
    if m > 0 && n > 0 {
      Apply(hash, a[m - 1].signedRepr, b[n - 1].signedRepr);
      PrefixIsLinked(a, hash, canon, m);
      PrefixIsLinked(b, hash, canon, n);
      TailPinsTheLog(a[..m], b[..n], hash, canon);
      assert forall i :: 0 <= i < m ==> a[i] == a[..m][i] && b[i] == b[..n][i];
    }
  }

  predicate SameRow<P(==)>(r: Row<P>, s: Row<P>) {
    r.header == s.header && r.signedRepr == s.signedRepr
  }

  lemma Apply<A(!new), B(!new)>(f: A -> B, x: A, y: A)
    requires Injective(f)
    ensures f(x) == f(y) ==> x == y
  {
  }

  lemma PrefixIsLinked<P>(rows: seq<Row<P>>, hash: Hash, canon: Canon<P>, n: nat)
    requires WellLinked(rows, hash, canon) && n <= |rows|
    ensures WellLinked(rows[..n], hash, canon)
  {
    var head := rows[..n];
    forall i: nat | i < n ensures LinkedAt(head, hash, canon, i) {
      assert LinkedAt(rows, hash, canon, i);
    }
  }

  // ---------- Runs ----------

  /** The log, the writes that wait, and the batches sent out so far (as ids), any of which may still be
      acknowledged. */
  datatype Node<P> = Node(rows: seq<Row<P>>, drafts: seq<Draft<P>>, batches: seq<seq<nat>>)

  /** The two halves of any number of writes, in any order; a write that is given up; uploads. */
  datatype Event<P> =
    | Begin(issuerKid: string, eventType: string, payload: P, occurredAt: string)
    | Finish(draft: nat)
    | GiveUp(draft: nat)
    | Fetch(limit: nat)
    | Acknowledge(batch: nat, count: nat, now: int)

  function Ids<P>(rows: seq<Row<P>>): (ids: seq<nat>)
    ensures |ids| == |rows|
  {
    seq(|rows|, i requires 0 <= i < |rows| => rows[i].id)
  }

  /** An acknowledgement covers a whole batch or a prefix of it, however late it comes. */
  function Next<P>(n: Node<P>, hash: Hash, canon: Canon<P>, sign: Sign, e: Event<P>): Node<P> {
    match e
    case Begin(issuerKid, eventType, payload, occurredAt) =>
      n.(drafts := n.drafts + [Drafted(n.rows, hash, issuerKid, eventType, payload, occurredAt)])
    case Finish(k) =>
      if k < |n.drafts| then
        n.(rows := Inserted(n.rows, canon, sign, n.drafts[k].header), drafts := Removed(n.drafts, k))
      else n
    case GiveUp(k) => if k < |n.drafts| then n.(drafts := Removed(n.drafts, k)) else n
    case Fetch(limit) => n.(batches := n.batches + [Ids(FirstOf(Unsent(n.rows), limit))])
    case Acknowledge(batch, count, now) =>
      if batch < |n.batches| then n.(rows := Marked(n.rows, FirstOf(n.batches[batch], count), now)) else n
  }

  function EmptyNode<P>(): Node<P> {
    Node([], [], [])
  }

  function Run<P>(n: Node<P>, hash: Hash, canon: Canon<P>, sign: Sign, events: seq<Event<P>>): Node<P>
    decreases |events|
  {
    if events == [] then n else Run(Next(n, hash, canon, sign, events[0]), hash, canon, sign, events[1..])
  }

  // ---------- When the chain holds ----------

  /** Every waiting write links to the tail of the log it read. */
  predicate DraftsLink<P>(n: Node<P>, hash: Hash) {
    forall k :: 0 <= k < |n.drafts| ==> DraftLinks(n.rows, hash, n.drafts[k])
  }

  predicate DraftLinks<P>(rows: seq<Row<P>>, hash: Hash, d: Draft<P>) {
    d.seen <= |rows| && d.header.prevHash == Link(Tail(rows[..d.seen]), hash)
  }

  /** The event inserts a row although another one was inserted since it read the tail. */
  predicate Overtaken<P>(n: Node<P>, e: Event<P>) {
    e.Finish? && e.draft < |n.drafts| && n.drafts[e.draft].seen != |n.rows|
  }

  predicate NoneOvertaken<P>(n: Node<P>, hash: Hash, canon: Canon<P>, sign: Sign, events: seq<Event<P>>)
    decreases |events|
  {
    events == []
    || (&& !Overtaken(n, events[0])
        && NoneOvertaken(Next(n, hash, canon, sign, events[0]), hash, canon, sign, events[1..]))
  }

  /** In a linked log no two rows have the same signed form, so a tail tells how long the log was. */
  lemma TailTellsLength<P(!new)>(rows: seq<Row<P>>, hash: Hash, canon: Canon<P>, seen: nat)
    requires WellLinked(rows, hash, canon) && Injective(hash) && Injective(canon) && NeverEmpty(canon)
    requires seen <= |rows|
    ensures Tail(rows[..seen]) == Tail(rows) <==> seen == |rows|
  {
    hide Injective;
    if seen == |rows| {
      assert rows[..seen] == rows;
    } else {
      assert LinkedAt(rows, hash, canon, |rows| - 1);
      PrefixIsLinked(rows, hash, canon, seen);
      if seen > 0 && Tail(rows[..seen]) == Tail(rows) {
        TailPinsTheLog(rows[..seen], rows, hash, canon);
      }
    }
  }

  lemma SamePrefix<P>(before: seq<Row<P>>, after: seq<Row<P>>, seen: nat)
    requires seen <= |before| <= |after|
    requires forall i :: 0 <= i < |before| ==> after[i].signedRepr == before[i].signedRepr
    ensures Tail(after[..seen]) == Tail(before[..seen])
  {
  }

  lemma DraftsStillLink<P>(n: Node<P>, hash: Hash, canon: Canon<P>, sign: Sign, e: Event<P>)
    requires DraftsLink(n, hash)
    ensures DraftsLink(Next(n, hash, canon, sign, e), hash)
  {
    hide Tail, Unsent, FirstOf;
    var after := Next(n, hash, canon, sign, e);
    RowsOnlyGrow(n, hash, canon, sign, e);
    forall k | 0 <= k < |n.drafts| ensures DraftLinks(after.rows, hash, n.drafts[k]) {
      SamePrefix(n.rows, after.rows, n.drafts[k].seen);
    }
    if e.Begin? {
      assert after.rows[..|after.rows|] == after.rows;
    }
  }

  lemma RowsOnlyGrow<P>(n: Node<P>, hash: Hash, canon: Canon<P>, sign: Sign, e: Event<P>)
    ensures var after := Next(n, hash, canon, sign, e);
            && |n.rows| <= |after.rows|
            && forall i :: 0 <= i < |n.rows| ==> after.rows[i].signedRepr == n.rows[i].signedRepr
  {
  }

  /** One step keeps the chain exactly when it inserts no overtaken row. */
  lemma StepLinksExactly<P(!new)>(n: Node<P>, hash: Hash, canon: Canon<P>, sign: Sign, e: Event<P>)
    requires WellLinked(n.rows, hash, canon) && DraftsLink(n, hash)
    requires Injective(hash) && Injective(canon) && NeverEmpty(canon)
    ensures WellLinked(Next(n, hash, canon, sign, e).rows, hash, canon) <==> !Overtaken(n, e)
  {
    hide WellLinked, Injective, NeverEmpty, Tail, Link, Inserted;
    match e {
      case Finish(k) =>
        if k < |n.drafts| {
          var d := n.drafts[k];
          assert DraftLinks(n.rows, hash, d);
          InsertLinksExactly(n.rows, hash, canon, sign, d.header, Tail(n.rows[..d.seen]));
          TailTellsLength(n.rows, hash, canon, d.seen);
        }
      case Acknowledge(batch, count, now) =>
        if batch < |n.batches| {
          MarkingKeepsLinks(n.rows, hash, canon, FirstOf(n.batches[batch], count), now);
        }
      case _ =>
    }
  }

  /** A broken link is never mended. */
  lemma BrokenStays<P>(n: Node<P>, hash: Hash, canon: Canon<P>, sign: Sign, e: Event<P>)
    requires !WellLinked(n.rows, hash, canon)
    ensures !WellLinked(Next(n, hash, canon, sign, e).rows, hash, canon)
  {
    var after := Next(n, hash, canon, sign, e).rows;
    if e.Acknowledge? && e.batch < |n.batches| {
      MarkingKeepsLinks(n.rows, hash, canon, FirstOf(n.batches[e.batch], e.count), e.now);
    } else {
      LinksComeDown(n.rows, after, hash, canon);
    }
  }

  lemma LinksComeDown<P>(rows: seq<Row<P>>, after: seq<Row<P>>, hash: Hash, canon: Canon<P>)
    requires |rows| <= |after| && after[..|rows|] == rows
    ensures WellLinked(after, hash, canon) ==> WellLinked(rows, hash, canon)
  {
    if WellLinked(after, hash, canon) {
      PrefixIsLinked(after, hash, canon, |rows|);
    }
  }

  lemma {:induction false} BrokenForever<P>(n: Node<P>, hash: Hash, canon: Canon<P>, sign: Sign, events: seq<Event<P>>)
    requires !WellLinked(n.rows, hash, canon)
    ensures !WellLinked(Run(n, hash, canon, sign, events).rows, hash, canon)
    decreases |events|
  {
    hide WellLinked, Next;
    if events != [] {
      BrokenStays(n, hash, canon, sign, events[0]);
      BrokenForever(Next(n, hash, canon, sign, events[0]), hash, canon, sign, events[1..]);
    }
  }

  /** The log is linked exactly when no insert fell between another write's reading of the tail and its insert. */
  lemma {:induction false} RunLinksExactly<P(!new)>(n: Node<P>, hash: Hash, canon: Canon<P>, sign: Sign,
                                                    events: seq<Event<P>>)
    requires WellLinked(n.rows, hash, canon) && DraftsLink(n, hash)
    requires Injective(hash) && Injective(canon) && NeverEmpty(canon)
    ensures WellLinked(Run(n, hash, canon, sign, events).rows, hash, canon)
       <==> NoneOvertaken(n, hash, canon, sign, events)
    decreases |events|
  {
    hide WellLinked, DraftsLink, Injective, NeverEmpty, Next, Overtaken;
    if events != [] {
      var e := events[0];
      var after := Next(n, hash, canon, sign, e);
      StepLinksExactly(n, hash, canon, sign, e);
      if Overtaken(n, e) {
        BrokenForever(after, hash, canon, sign, events[1..]);
      } else {
        DraftsStillLink(n, hash, canon, sign, e);
        RunLinksExactly(after, hash, canon, sign, events[1..]);
      }
    }
  }

  /** Two overlapping writes always fork the chain: both link to the same row. */
  lemma OverlappingWritesFork<P(!new)>(n: Node<P>, hash: Hash, canon: Canon<P>, sign: Sign, first: Event<P>,
                                       second: Event<P>)
    requires WellLinked(n.rows, hash, canon) && n.drafts == [] && first.Begin? && second.Begin?
    requires Injective(hash) && Injective(canon) && NeverEmpty(canon)
    ensures !WellLinked(Run(n, hash, canon, sign, [first, second, Finish(0), Finish(0)]).rows, hash, canon)
  {
    hide WellLinked, Injective, NeverEmpty, Drafted, Inserted;
    var events := [first, second, Finish(0), Finish(0)];
    RunLinksExactly(n, hash, canon, sign, events);
    var n1 := Next(n, hash, canon, sign, first);
    var n2 := Next(n1, hash, canon, sign, second);
    var n3 := Next(n2, hash, canon, sign, Finish(0));
    assert n3.drafts == [n2.drafts[1]];
    LaterIsOvertaken(n, hash, canon, sign, first, second, n3);
    assert Overtaken(n3, Finish(0));
    assert events[1..] == [second, Finish(0), Finish(0)] && events[1..][1..] == [Finish(0), Finish(0)];
    assert events[1..][1..][1..] == [Finish(0)];
    assert !NoneOvertaken(n3, hash, canon, sign, [Finish(0)]);
    assert !NoneOvertaken(n2, hash, canon, sign, [Finish(0), Finish(0)]);
    assert !NoneOvertaken(n1, hash, canon, sign, [second, Finish(0), Finish(0)]);
  }

  lemma LaterIsOvertaken<P>(n: Node<P>, hash: Hash, canon: Canon<P>, sign: Sign, first: Event<P>, second: Event<P>,
                            n3: Node<P>)
    requires n.drafts == [] && first.Begin? && second.Begin?
    requires var n1 := Next(n, hash, canon, sign, first);
             n3 == Next(Next(n1, hash, canon, sign, second), hash, canon, sign, Finish(0))
    ensures |n3.drafts| == 1 && n3.drafts[0].seen == |n.rows| && |n3.rows| == |n.rows| + 1
  {
  }

  /** A write begins only when none waits: what a lock around both halves would give. */
  predicate OneAtATime<P>(n: Node<P>, hash: Hash, canon: Canon<P>, sign: Sign, events: seq<Event<P>>)
    decreases |events|
  {
    events == []
    || (&& (events[0].Begin? ==> n.drafts == [])
        && OneAtATime(Next(n, hash, canon, sign, events[0]), hash, canon, sign, events[1..]))
  }

  /** Writes one at a time are never overtaken, whatever else goes on. */
  lemma {:induction false} OneAtATimeIsNotOvertaken<P(!new)>(n: Node<P>, hash: Hash, canon: Canon<P>, sign: Sign,
                                                          events: seq<Event<P>>)
    requires n.drafts == [] || (|n.drafts| == 1 && n.drafts[0].seen == |n.rows|)
    requires OneAtATime(n, hash, canon, sign, events)
    ensures NoneOvertaken(n, hash, canon, sign, events)
    decreases |events|
  {
    if events != [] {
      OneAtATimeIsNotOvertaken(Next(n, hash, canon, sign, events[0]), hash, canon, sign, events[1..]);
    }
  }

  // ---------- Uploads, whatever the writes do ----------

  /** Exactly the first `k` rows are uploaded. */
  predicate UploadedPrefix<P>(rows: seq<Row<P>>, k: nat) {
    k <= |rows| && forall i :: 0 <= i < |rows| ==> (rows[i].uploadedAt.Some? <==> i < k)
  }

  /** A run of consecutive ids that starts no later than the first row not uploaded. */
  predicate NoGap(batch: seq<nat>, k: nat, total: nat) {
    batch == [] || (1 <= batch[0] <= k + 1 && batch[0] + |batch| - 1 <= total
                    && forall j :: 0 <= j < |batch| ==> batch[j] == batch[0] + j)
  }

  predicate Sound<P>(n: Node<P>, k: nat) {
    && Numbered(n.rows)
    && UploadedPrefix(n.rows, k)
    && forall batch <- n.batches :: NoGap(batch, k, |n.rows|)
  }

  lemma {:induction false} UnsentIsRest<P>(rows: seq<Row<P>>, k: nat)
    requires UploadedPrefix(rows, k)
    ensures Unsent(rows) == rows[k..]
    decreases |rows|
  {
    if rows != [] {
      var rest := rows[1..];
      assert forall i :: 0 <= i < |rest| ==> rest[i] == rows[i + 1];
      if k > 0 {
        UnsentIsRest(rest, k - 1);
      } else {
        UnsentIsRest(rest, 0);
        assert rows == [rows[0]] + rest;
      }
    }
  }

  /** Where a batch of at most `limit` rows from row `k` on ends. */
  function BatchEnd(k: nat, limit: nat, total: nat): nat {
    if k + limit <= total then k + limit else total
  }

  lemma FetchIsSlice<P>(rows: seq<Row<P>>, k: nat, limit: nat)
    requires UploadedPrefix(rows, k)
    ensures FirstOf(Unsent(rows), limit) == rows[k..BatchEnd(k, limit, |rows|)]
  {
    hide Unsent, FirstOf;
    UnsentIsRest(rows, k);
    FirstOfTail(rows, k, limit);
  }

  lemma FirstOfTail<T>(xs: seq<T>, k: nat, n: nat)
    requires k <= |xs|
    ensures FirstOf(xs[k..], n) == xs[k..BatchEnd(k, n, |xs|)]
  {
    var end := BatchEnd(k, n, |xs|);
    assert xs[k..][..end - k] == xs[k..end];
  }

  lemma SliceHasNoGap<P>(rows: seq<Row<P>>, k: nat, end: nat)
    requires Numbered(rows) && k <= end <= |rows|
    ensures NoGap(Ids(rows[k..end]), k, |rows|)
  {
    forall j: nat | j < end - k ensures Ids(rows[k..end])[j] == k + 1 + j {
      assert rows[k..end][j] == rows[k + j];
    }
  }

  lemma FetchHasNoGap<P>(rows: seq<Row<P>>, k: nat, limit: nat)
    requires Numbered(rows) && UploadedPrefix(rows, k)
    ensures NoGap(Ids(FirstOf(Unsent(rows), limit)), k, |rows|)
  {
    hide Numbered, Unsent, FirstOf, NoGap;
    FetchIsSlice(rows, k, limit);
    SliceHasNoGap(rows, k, BatchEnd(k, limit, |rows|));
  }

  lemma AcknowledgeKeepsPrefix<P>(rows: seq<Row<P>>, k: nat, batch: seq<nat>, now: int) returns (k': nat)
    requires Numbered(rows) && UploadedPrefix(rows, k) && NoGap(batch, k, |rows|)
    ensures k' >= k && UploadedPrefix(Marked(rows, batch, now), k')
  {
    k' := if batch != [] && batch[0] + |batch| - 1 > k then batch[0] + |batch| - 1 else k;
    var after := Marked(rows, batch, now);
    forall i | 0 <= i < |after| ensures after[i].uploadedAt.Some? <==> i < k' {
      assert after[i] == Mark(rows[i], batch, now);
      if batch != [] && batch[0] <= i + 1 < batch[0] + |batch| {
        assert batch[i + 1 - batch[0]] == i + 1;
      }
    }
  }

  lemma NoGapLater(batch: seq<nat>, k: nat, total: nat, k': nat, total': nat)
    requires NoGap(batch, k, total) && k <= k' && total <= total'
    ensures NoGap(batch, k', total')
  {
  }

  lemma StepIsSound<P>(n: Node<P>, hash: Hash, canon: Canon<P>, sign: Sign, e: Event<P>, k: nat) returns (k': nat)
    requires Sound(n, k)
    ensures k' >= k && Sound(Next(n, hash, canon, sign, e), k')
  {
    hide NoGap;
    var after := Next(n, hash, canon, sign, e);
    k' := k;
    match e {
      case Finish(draft) =>
        forall batch | batch in n.batches ensures NoGap(batch, k, |after.rows|) {
          NoGapLater(batch, k, |n.rows|, k, |after.rows|);
        }
      case Fetch(limit) =>
        FetchHasNoGap(n.rows, k, limit);
      case Acknowledge(batch, count, now) =>
        if batch < |n.batches| {
          var acked := FirstOf(n.batches[batch], count);
          assert n.batches[batch] in n.batches;
          PrefixHasNoGap(n.batches[batch], count, k, |n.rows|);
          k' := AcknowledgeKeepsPrefix(n.rows, k, acked, now);
          forall b | b in n.batches ensures NoGap(b, k', |after.rows|) {
            NoGapLater(b, k, |n.rows|, k', |after.rows|);
          }
        }
      case _ =>
    }
  }

  lemma PrefixHasNoGap(batch: seq<nat>, count: nat, k: nat, total: nat)
    requires NoGap(batch, k, total)
    ensures NoGap(FirstOf(batch, count), k, total)
  {
  }

  /** Over any run, with writes overlapping and acknowledgements late, repeated or partial, the uploaded rows are a
      growing prefix of the log. */
  lemma {:induction false} RunIsSound<P>(n: Node<P>, hash: Hash, canon: Canon<P>, sign: Sign,
                                         events: seq<Event<P>>, k: nat)
    returns (k': nat)
    requires Sound(n, k)
    ensures k' >= k && Sound(Run(n, hash, canon, sign, events), k')
    decreases |events|
  {
    hide Sound, Next;
    k' := k;
    if events != [] {
      k' := StepIsSound(n, hash, canon, sign, events[0], k);
      k' := RunIsSound(Next(n, hash, canon, sign, events[0]), hash, canon, sign, events[1..], k');
    }
  }

  /** So a batch never skips a row: it starts at the first row not uploaded and lists its successors. */
  lemma BatchesAreContiguous<P>(hash: Hash, canon: Canon<P>, sign: Sign, events: seq<Event<P>>, limit: nat)
    returns (k: nat)
    ensures var rows := Run(EmptyNode<P>(), hash, canon, sign, events).rows;
            && UploadedPrefix(rows, k)
            && FirstOf(Unsent(rows), limit) == rows[k..BatchEnd(k, limit, |rows|)]
  {
    k := RunIsSound(EmptyNode<P>(), hash, canon, sign, events, 0);
    FetchIsSlice(Run(EmptyNode<P>(), hash, canon, sign, events).rows, k, limit);
  }

  lemma AcknowledgedStays<P>(n: Node<P>, hash: Hash, canon: Canon<P>, sign: Sign,
                             e: Event<P>, i: nat)
    requires i < |n.rows| && n.rows[i].uploadedAt.Some?
    ensures var rows := Next(n, hash, canon, sign, e).rows;
            i < |rows| && rows[i] == n.rows[i]
  {
  }

  /** The first acknowledgement of a row stands: whatever comes later, the row never changes again. */
  lemma {:induction false} FirstAcknowledgementStands<P>(n: Node<P>, hash: Hash, canon: Canon<P>,
                                                         sign: Sign, events: seq<Event<P>>, i: nat)
    requires i < |n.rows| && n.rows[i].uploadedAt.Some?
    ensures var rows := Run(n, hash, canon, sign, events).rows;
            i < |rows| && rows[i] == n.rows[i]
    decreases |events|
  {
    hide Next;
    if events != [] {
      AcknowledgedStays(n, hash, canon, sign, events[0], i);
      FirstAcknowledgementStands(Next(n, hash, canon, sign, events[0]), hash, canon, sign, events[1..], i);
    }
  }

  // ---------- What a row says ----------

  predicate Signed<P>(rows: seq<Row<P>>, canon: Canon<P>, sign: Sign) {
    forall i :: 0 <= i < |rows| ==>
      rows[i].signedRepr == canon(rows[i].header) && rows[i].signature == sign(rows[i].signedRepr)
  }

  /** Over any run, linked or not, every row carries the canonical form of its fields and a signature of that form. */
  lemma {:induction false} RunIsSigned<P>(n: Node<P>, hash: Hash, canon: Canon<P>, sign: Sign, events: seq<Event<P>>)
    requires Signed(n.rows, canon, sign)
    ensures Signed(Run(n, hash, canon, sign, events).rows, canon, sign)
    decreases |events|
  {
    hide Next, Signed;
    if events != [] {
      StepIsSigned(n, hash, canon, sign, events[0]);
      RunIsSigned(Next(n, hash, canon, sign, events[0]), hash, canon, sign, events[1..]);
    }
  }

  lemma StepIsSigned<P>(n: Node<P>, hash: Hash, canon: Canon<P>, sign: Sign, e: Event<P>)
    requires Signed(n.rows, canon, sign)
    ensures Signed(Next(n, hash, canon, sign, e).rows, canon, sign)
  {
  }

  /** A write begun and finished adds one row, not yet uploaded, with the fields it was given. */
  lemma WrittenAsGiven<P>(n: Node<P>, hash: Hash, canon: Canon<P>, sign: Sign,
                          issuerKid: string, eventType: string, payload: P, occurredAt: string)
    ensures var begun := Next(n, hash, canon, sign, Begin(issuerKid, eventType, payload, occurredAt));
            var done := Next(begun, hash, canon, sign, Finish(|n.drafts|));
            && |done.rows| == |n.rows| + 1 && done.rows[..|n.rows|] == n.rows && done.drafts == n.drafts
            && var row := done.rows[|n.rows|];
               && row.header.issuerKid == issuerKid && row.header.eventType == eventType
               && row.header.payload == payload && row.header.occurredAt == occurredAt
               && row.id == |n.rows| + 1 && row.uploadedAt == None
  {
  }

  /** An acknowledgement stamps exactly the rows it names that had no upload time, and changes nothing else. */
  lemma StampsExactly<P>(rows: seq<Row<P>>, ids: seq<nat>, now: int, i: nat)
    requires i < |rows|
    ensures var before, after := rows[i], Marked(rows, ids, now)[i];
            && after == before.(uploadedAt := after.uploadedAt)
            && after.uploadedAt == if before.uploadedAt.None? && before.id in ids then Some(now) else before.uploadedAt
  {
  }
}
