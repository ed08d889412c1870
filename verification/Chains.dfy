/** Continuation chains: one task's tickets from a settled session to its successor, which are
    issued, consumed, started, restored and retired, and never fork. */
module Chains {
  import opened Basics

  type Native = nat   // a native session's identifier

  datatype SessionStatus = Active | HandedOff | Completed | Failed

  datatype Session = Session(status: SessionStatus, created: nat)

  /** A runnable ticket. */
  datatype Ready = Ready(ordinal: nat, source: Native, digest: nat, issued: nat)

  datatype Ticket = Ticket(ready: Ready, holder: nat, fence: nat, consumed: nat)

  datatype LinkStatus = Issued | Consumed | Started | Retired

  datatype Link = Link(ready: Ready, status: LinkStatus, holder: Option<nat>, fence: Option<nat>,
                       consumed: Option<nat>, successor: Option<Native>)

  datatype Lease = Lease(holder: nat, fence: nat, live: bool)

  /** `Ended` is any outcome its worker finished it with; `Blocked` is a queued task that was retired
      or could not be dispatched. */
  datatype TaskStatus = Queued | Running | Ended | Blocked

  /** One task's rows. `count` is its continuation count; `ready` and `consumed` its tickets. */
  datatype Chain = Chain(now: nat, status: TaskStatus, lease: Option<Lease>, count: nat, ready: Option<Ready>,
                         consumed: Option<Ticket>, links: seq<Link>, sessions: map<Native, Session>)

  datatype Step =
    | Acquire(holder: nat)
    | Expire
    | End(holder: nat, fence: nat)
    | Save(holder: nat, fence: nat, native: Native, status: SessionStatus)
    | Issue(holder: nat, fence: nat, source: Native, digest: nat, recoverExpired: bool)
    | Consume(holder: nat, fence: nat, ready: Ready)
    | Restore
    | Retire
    | Requeue(holder: nat, fence: nat, newest: Native)
    | Block

  predicate Fenced(c: Chain, holder: nat, fence: nat) {
    c.lease.Some? && c.lease.value == Lease(holder, fence, true)
  }

  predicate ExpiredFence(c: Chain, holder: nat, fence: nat) {
    c.lease.Some? && c.lease.value == Lease(holder, fence, false)
  }

  predicate IsLive(c: Chain) {
    c.lease.Some? && c.lease.value.live
  }

  /** The index of the one link with an ordinal. */
  predicate TheLink(links: seq<Link>, ordinal: nat, i: nat) {
    && i < |links| && links[i].ready.ordinal == ordinal
    && forall j | 0 <= j < |links| && links[j].ready.ordinal == ordinal :: j == i
  }

  predicate HasOrdinal(links: seq<Link>, k: nat) {
    exists i :: 0 <= i < |links| && links[i].ready.ordinal == k
  }

  /** There are `n` links, numbered 1 to n, all started. */
  predicate AllStarted(links: seq<Link>, n: nat) {
    && |links| == n && (forall k: nat | 1 <= k <= n :: HasOrdinal(links, k))
    && forall i | 0 <= i < |links| :: links[i].status == Started && 1 <= links[i].ready.ordinal <= n
  }

  /** The source is the successor of the link with the highest ordinal. */
  predicate IsHead(links: seq<Link>, source: Native) {
    forall i | 0 <= i < |links| && (forall j | 0 <= j < |links| :: links[j].ready.ordinal <= links[i].ready.ordinal) ::
      links[i].successor == Some(source)
  }

  predicate CanIssue(c: Chain, holder: nat, fence: nat, source: Native, recoverExpired: bool) {
    && (if recoverExpired then ExpiredFence(c, holder, fence) else Fenced(c, holder, fence))
    && source in c.sessions && c.sessions[source].status == HandedOff
    && AllStarted(c.links, c.count) && IsHead(c.links, source)
  }

  predicate CanConsume(c: Chain, holder: nat, fence: nat, ready: Ready, i: nat) {
    && Fenced(c, holder, fence) && c.ready == Some(ready) && TheLink(c.links, ready.ordinal, i)
    && c.links[i].status == Issued && c.links[i].ready == ready
  }

  /** A first session, one already known, or the successor the consumed ticket allows. */
  predicate CanSave(c: Chain, holder: nat, fence: nat, native: Native, i: nat) {
    && Fenced(c, holder, fence)
    && (native in c.sessions
        || (c.sessions == map[] && c.count == 0)
        || (c.sessions != map[] && CanStart(c, holder, fence, i)))
  }

  predicate CanStart(c: Chain, holder: nat, fence: nat, i: nat) {
    && c.consumed.Some? && c.consumed.value.holder == holder && c.consumed.value.fence == fence
    && |c.sessions| == c.consumed.value.ready.ordinal
    && c.consumed.value.ready.source in c.sessions && c.sessions[c.consumed.value.ready.source].status == HandedOff
    && TheLink(c.links, c.consumed.value.ready.ordinal, i) && c.links[i].status == Consumed
    && c.links[i].ready.source == c.consumed.value.ready.source && c.links[i].ready.digest == c.consumed.value.ready.digest
    && c.links[i].holder == Some(holder) && c.links[i].fence == Some(fence) && c.links[i].successor == None
  }

  predicate CanRestore(c: Chain, i: nat) {
    && c.consumed.Some? && c.ready.None? && TheLink(c.links, c.consumed.value.ready.ordinal, i)
    && c.links[i].status == Consumed && c.links[i].successor == None
    && c.links[i].ready.source == c.consumed.value.ready.source && c.links[i].ready.digest == c.consumed.value.ready.digest
    && ExpiredFence(c, c.consumed.value.holder, c.consumed.value.fence)
    && |c.sessions| == c.consumed.value.ready.ordinal
    && c.consumed.value.ready.source in c.sessions && c.sessions[c.consumed.value.ready.source].status == HandedOff
  }

  predicate CanRetire(c: Chain, i: nat) {
    && c.status == Queued && !IsLive(c)
    && (c.ready.Some? ==> TheLink(c.links, c.ready.value.ordinal, i) && c.links[i].status == Issued)
  }

  /** The newest session has neither handed off nor completed: its last boundary is decided again. */
  predicate CanRequeue(c: Chain, holder: nat, fence: nat, newest: Native) {
    && Fenced(c, holder, fence) && newest in c.sessions && c.sessions[newest].status in {Active, Failed}
    && forall s | s in c.sessions :: c.sessions[s].created <= c.sessions[newest].created
  }

  /** What a step does to the rows; each at a later instant than the one before. */
  ghost predicate Moves(c: Chain, step: Step, c': Chain) {
    c'.now > c.now &&
    match step
    case Acquire(holder) =>
      c.status in {Queued, Running} && !IsLive(c) &&
      c' == c.(now := c'.now, status := Running,
               lease := Some(Lease(holder, if c.lease.Some? then c.lease.value.fence + 1 else 1, true)))
    case Expire => c.lease.Some? && c' == c.(now := c'.now, lease := Some(c.lease.value.(live := false)))
    case End(holder, fence) =>
      Fenced(c, holder, fence) && c' == c.(now := c'.now, status := Ended, lease := Some(Lease(holder, fence, false)))
    case Save(holder, fence, native, status) =>
      exists i: nat :: CanSave(c, holder, fence, native, i) && c' == Saved(c, native, status, i, c'.now)
    case Issue(holder, fence, source, digest, recover) =>
      CanIssue(c, holder, fence, source, recover) && c' == IssuedBy(c, source, digest, c'.now)
    case Consume(holder, fence, ready) =>
      exists i: nat :: CanConsume(c, holder, fence, ready, i) && c' == ConsumedBy(c, holder, fence, i, c'.now)
    case Restore => exists i: nat :: CanRestore(c, i) && c' == Restored(c, i, c'.now)
    case Retire => exists i: nat :: CanRetire(c, i) && c' == RetiredAt(c, i, c'.now)
    case Requeue(holder, fence, newest) =>
      CanRequeue(c, holder, fence, newest)
      && c' == c.(now := c'.now, status := Queued, lease := Some(Lease(holder, fence, false)))
    case Block => c.status == Queued && c' == c.(now := c'.now, status := Blocked)
  }

  function Saved(c: Chain, native: Native, status: SessionStatus, i: nat, now: nat): Chain {
    if native in c.sessions then c.(now := now, sessions := c.sessions[native := c.sessions[native].(status := status)])
    else if c.sessions == map[] || i >= |c.links| then c.(now := now, sessions := c.sessions[native := Session(status, now)])
    else
      c.(now := now, sessions := c.sessions[native := Session(status, now)],
         links := c.links[i := c.links[i].(status := Started, successor := Some(native))])
  }

  function IssuedBy(c: Chain, source: Native, digest: nat, now: nat): Chain {
    var ready := Ready(c.count + 1, source, digest, now);
    c.(now := now, status := Queued, count := c.count + 1, ready := Some(ready),
       lease := if c.lease.Some? then Some(c.lease.value.(live := false)) else None,
       links := c.links + [Link(ready, Issued, None, None, None, None)])
  }

  function ConsumedBy(c: Chain, holder: nat, fence: nat, i: nat, now: nat): Chain
    requires i < |c.links|
  {
    c.(now := now, ready := None, consumed := Some(Ticket(c.links[i].ready, holder, fence, now)),
       links := c.links[i := c.links[i].(status := Consumed, holder := Some(holder), fence := Some(fence), consumed := Some(now))])
  }

  function Restored(c: Chain, i: nat, now: nat): Chain
    requires i < |c.links| && c.consumed.Some?
  {
    var ready := c.consumed.value.ready;
    c.(now := now, status := Queued, ready := Some(ready), consumed := None,
       lease := if c.lease.Some? then Some(c.lease.value.(live := false)) else None,
       links := c.links[i := Link(ready, Issued, None, None, None, None)])
  }

  function RetiredAt(c: Chain, i: nat, now: nat): Chain {
    c.(now := now, status := Blocked, ready := None,
       links := if c.ready.Some? && i < |c.links| then c.links[i := c.links[i].(status := Retired)] else c.links)
  }

  // ----- One chain -----

  /** The sessions in the order of the chain: the first source, then each successor. */
  function Path(links: seq<Link>): seq<Native> {
    if links == [] then []
    else
      var last := links[|links| - 1];
      (if |links| == 1 then [last.ready.source] else Path(links[..|links| - 1]))
        + if last.status == Started && last.successor.Some? then [last.successor.value] else []
  }

  /** Ordinals are 1 to n; every link but the last is started; each starts from the last one's
      successor. */
  ghost predicate Linked(links: seq<Link>) {
    && (forall i | 0 <= i < |links| :: links[i].ready.ordinal == i + 1)
    && (forall i | 0 <= i < |links| - 1 :: links[i].status == Started)
    && (forall i | 0 <= i < |links| :: links[i].status == Started <==> links[i].successor.Some?)
    && (forall i, j | 0 <= i < j < |links| && j == i + 1 && links[i].successor.Some? ::
          links[j].ready.source == links[i].successor.value)
  }

  /** Times of a chain increase along it. */
  ghost predicate Timed(links: seq<Link>, sessions: map<Native, Session>, now: nat) {
    && (forall s | s in sessions :: sessions[s].created <= now)
    && (forall i | 0 <= i < |links| ::
          var l := links[i];
          && l.ready.source in sessions && sessions[l.ready.source].created < l.ready.issued <= now
          && (l.consumed.Some? <==> l.status == Consumed || l.status == Started)
          && (l.consumed.Some? ==> l.ready.issued <= l.consumed.value <= now)
          && (l.successor.Some? && l.consumed.Some? ==>
                l.successor.value in sessions && l.consumed.value < sessions[l.successor.value].created))
  }

  function LastStatus(links: seq<Link>): Option<LinkStatus> {
    if links == [] then None else Some(links[|links| - 1].status)
  }

  ghost predicate TicketsOk(c: Chain) {
    && c.count == |c.links|
    && (c.ready.Some? <==> LastStatus(c.links) == Some(Issued))
    && (c.ready.Some? ==> c.ready.value == c.links[|c.links| - 1].ready)
    && (LastStatus(c.links) == Some(Consumed) || LastStatus(c.links) == Some(Started) ==>
          && c.consumed.Some? && c.consumed.value.ready == c.links[|c.links| - 1].ready
          && c.links[|c.links| - 1].holder == Some(c.consumed.value.holder)
          && c.links[|c.links| - 1].fence == Some(c.consumed.value.fence)
          && c.links[|c.links| - 1].consumed == Some(c.consumed.value.consumed))
    && (c.consumed.Some? ==> c.consumed.value.ready.ordinal <= |c.links|)
  }

  /** Every session of the task is on the path, once; before any ticket there is one at most. */
  ghost predicate SessionsOk(c: Chain) {
    if c.links == [] then |c.sessions| <= 1 && c.consumed.None?
    else Distinct(Path(c.links)) && forall s :: s in Path(c.links) <==> s in c.sessions
  }

  /** Fences are positive, and a consumed link names its holder and fence. */
  ghost predicate HoldersOk(c: Chain) {
    && (c.lease.Some? ==> c.lease.value.fence >= 1)
    && forall i | 0 <= i < |c.links| && c.links[i].consumed.Some? ::
         c.links[i].holder.Some? && c.links[i].fence.Some? && c.links[i].fence.value >= 1
  }

  ghost predicate Inv(c: Chain) {
    Linked(c.links) && Timed(c.links, c.sessions, c.now) && TicketsOk(c) && SessionsOk(c) && HoldersOk(c)
  }

  // ----- Every step keeps the chain -----

  /** A link that is not started is the last one. */
  lemma OpenIsLast(links: seq<Link>, i: nat)
    requires Linked(links) && i < |links| && links[i].status != Started
    ensures i == |links| - 1
  {
  }

  lemma PathIssued(links: seq<Link>, link: Link)
    requires link.status != Started
    ensures Path(links + [link]) == if links == [] then [link.ready.source] else Path(links)
  {
    assert (links + [link])[..|links|] == links;
  }

  lemma PathChanged(links: seq<Link>, link: Link)
    requires links != [] && links[|links| - 1].status != Started && link.ready.source == links[|links| - 1].ready.source
    ensures var n := |links| - 1;
            Path(links[n := link])
            == Path(links) + if link.status == Started && link.successor.Some? then [link.successor.value] else []
  {
    var n := |links| - 1;
    assert links[n := link][..n] == links[..n];
  }

  lemma {:induction false} PathHolds(links: seq<Link>, i: nat)
    requires Linked(links) && i < |links|
    ensures links[i].ready.source in Path(links)
    ensures links[i].successor.Some? ==> links[i].successor.value in Path(links)
  {
    var init := links[..|links| - 1];
    if i < |links| - 1 {
      PathHolds(init, i);
    } else if i > 0 {
      PathHolds(init, i - 1);
      assert links[i - 1].status == Started;
    }
  }

  lemma DistinctMore(s: seq<Native>, x: Native)
    requires Distinct(s) && x !in s
    ensures Distinct(s + [x])
  {
  }

  lemma {:induction false} SingleSession(sessions: map<Native, Session>, s: Native)
    requires s in sessions && |sessions| <= 1
    ensures forall x :: x in sessions <==> x == s
  {
    assert |sessions.Keys| <= 1;
    forall x | x in sessions && x != s ensures false {
      TwoMembers(sessions.Keys, s, x);
    }
  }

  lemma TwoMembers(keys: set<Native>, a: Native, b: Native)
    requires a in keys && b in keys && a != b
    ensures |keys| >= 2
  {
    assert |keys - {a} - {b}| == |keys| - 2;
  }

  lemma IssueKeeps(c: Chain, source: Native, digest: nat, now: nat)
    requires Inv(c) && now > c.now && source in c.sessions && c.ready.None? && Issuable(c, source)
    ensures Inv(IssuedBy(c, source, digest, now))
  {
    var c' := IssuedBy(c, source, digest, now);
    var link := c'.links[|c.links|];
    IssuedSessions(c, c', link);
    IssueKeepsTimes(c, c');
    IssuedLinked(c.links, c'.links, source);
    IssuedTickets(c, c', link);
  }

  lemma IssuedSessions(c: Chain, c': Chain, link: Link)
    requires SessionsOk(c) && c'.sessions == c.sessions && c'.links == c.links + [link] && link.status != Started
    requires c.links == [] ==> forall x :: x in c.sessions <==> x == link.ready.source
    ensures SessionsOk(c')
  {
    PathIssued(c.links, link);
  }

  lemma IssuedTickets(c: Chain, c': Chain, link: Link)
    requires TicketsOk(c) && HoldersOk(c) && c'.links == c.links + [link] && c'.count == c.count + 1
    requires link.status == Issued && link.consumed.None? && c'.ready == Some(link.ready) && c'.consumed == c.consumed
    requires c'.lease.Some? ==> c.lease.Some? && c'.lease.value.fence == c.lease.value.fence
    ensures TicketsOk(c') && HoldersOk(c')
  {
  }

  ghost predicate Issuable(c: Chain, source: Native) {
    if c.links == [] then forall x :: x in c.sessions <==> x == source
    else c.links[|c.links| - 1].status == Started && c.links[|c.links| - 1].successor == Some(source)
  }

  lemma IssuedLinked(links: seq<Link>, links': seq<Link>, source: Native)
    requires Linked(links) && |links'| == |links| + 1 && links' == links + [links'[|links|]]
    requires links'[|links|].ready.ordinal == |links| + 1 && links'[|links|].ready.source == source
    requires links'[|links|].status == Issued && links'[|links|].successor.None?
    requires links != [] ==> links[|links| - 1].status == Started && links[|links| - 1].successor == Some(source)
    ensures Linked(links')
  {
  }

  /** What a ticket is issued from: the only session, or the last link's successor. */
  lemma IssueSource(c: Chain, source: Native)
    requires Inv(c) && source in c.sessions && AllStarted(c.links, c.count) && IsHead(c.links, source)
    ensures c.ready.None? && Issuable(c, source)
  {
    if c.links == [] {
      SingleSession(c.sessions, source);
    }
  }

  lemma IssueKeepsTimes(c: Chain, c': Chain)
    requires Timed(c.links, c.sessions, c.now) && c'.sessions == c.sessions && c'.now > c.now
    requires |c'.links| == |c.links| + 1 && c'.links[..|c.links|] == c.links
    requires var l := c'.links[|c.links|];
             l.ready.source in c.sessions && l.ready.issued == c'.now && l.status == Issued && l.consumed.None? && l.successor.None?
    ensures Timed(c'.links, c'.sessions, c'.now)
  {
    forall i | 0 <= i < |c.links| ensures c'.links[i] == c.links[i] {
      assert c'.links[..|c.links|][i] == c.links[i];
    }
  }

  /** Replacing the last, unstarted link keeps the chain's shape. */
  lemma LastChanged(links: seq<Link>, link: Link)
    requires Linked(links) && links != [] && links[|links| - 1].status != Started
    requires link.ready == links[|links| - 1].ready && (link.status == Started <==> link.successor.Some?)
    ensures Linked(links[|links| - 1 := link])
  {
  }

  /** A step that only rewrites the last, unstarted link keeps all but the tickets. */
  lemma LastLinkKeeps(c: Chain, c': Chain, link: Link)
    requires Inv(c) && c.links != [] && c.links[|c.links| - 1].status != Started
    requires c'.links == c.links[|c.links| - 1 := link] && c'.sessions == c.sessions && c'.now > c.now
    requires link.ready == c.links[|c.links| - 1].ready && link.status != Started && link.successor.None?
    requires (link.consumed.Some? <==> link.status == Consumed) && (link.consumed.Some? ==> c.now <= link.consumed.value <= c'.now)
    requires TicketsOk(c') && HoldersOk(c')
    ensures Inv(c')
  {
    LastChanged(c.links, link);
    LastLinkSessions(c, c', link);
    LastLinkTimed(c.links, c'.links, link, c.sessions, c.now, c'.now);
  }

  lemma LastLinkSessions(c: Chain, c': Chain, link: Link)
    requires SessionsOk(c) && c.links != [] && c.links[|c.links| - 1].status != Started
    requires c'.links == c.links[|c.links| - 1 := link] && c'.sessions == c.sessions
    requires link.ready == c.links[|c.links| - 1].ready && link.status != Started
    ensures SessionsOk(c')
  {
    PathChanged(c.links, link);
  }

  lemma LastLinkTimed(links: seq<Link>, links': seq<Link>, link: Link, sessions: map<Native, Session>, before: nat, now: nat)
    requires Timed(links, sessions, before) && links != [] && now > before && links' == links[|links| - 1 := link]
    requires link.ready == links[|links| - 1].ready && link.status != Started && link.successor.None?
    requires (link.consumed.Some? <==> link.status == Consumed) && (link.consumed.Some? ==> before <= link.consumed.value <= now)
    ensures Timed(links', sessions, now)
  {
  }

  lemma ConsumeKeeps(c: Chain, holder: nat, fence: nat, ready: Ready, i: nat, now: nat)
    requires Inv(c) && CanConsume(c, holder, fence, ready, i) && now > c.now
    ensures Inv(ConsumedBy(c, holder, fence, i, now))
  {
    OpenIsLast(c.links, i);
    var c' := ConsumedBy(c, holder, fence, i, now);
    assert TicketsOk(c') && HoldersOk(c');
    LastLinkKeeps(c, c', c'.links[i]);
  }

  lemma RestoreKeeps(c: Chain, i: nat, now: nat)
    requires Inv(c) && CanRestore(c, i) && now > c.now
    ensures Inv(Restored(c, i, now))
  {
    OpenIsLast(c.links, i);
    var c' := Restored(c, i, now);
    assert TicketsOk(c') && HoldersOk(c');
    LastLinkKeeps(c, c', c'.links[i]);
  }

  /** Retiring a queued task retires its issued link, the last one, and no other. */
  lemma RetiresIssuedLink(c: Chain, i: nat, now: nat)
    requires Linked(c.links) && TicketsOk(c) && CanRetire(c, i)
    ensures var links := RetiredAt(c, i, now).links;
            && |links| == |c.links| && LastStatus(links) != Some(Issued)
            && (forall j | 0 <= j < |links| - 1 :: links[j] == c.links[j])
            && (LastStatus(c.links) != Some(Issued) ==> links == c.links)
            && (LastStatus(c.links) == Some(Issued) ==> LastStatus(links) == Some(Retired))
  {
    if c.ready.Some? {
      OpenIsLast(c.links, i);
    }
  }

  lemma RetireKeeps(c: Chain, i: nat, now: nat)
    requires Inv(c) && CanRetire(c, i) && now > c.now
    ensures Inv(RetiredAt(c, i, now))
  {
    if c.ready.Some? {
      OpenIsLast(c.links, i);
      var c' := RetiredAt(c, i, now);
      assert TicketsOk(c') && HoldersOk(c');
      LastLinkKeeps(c, c', c'.links[i]);
    }
  }

  lemma KnownSaveKeeps(c: Chain, native: Native, status: SessionStatus, now: nat)
    requires Inv(c) && native in c.sessions && now > c.now
    ensures Inv(c.(now := now, sessions := c.sessions[native := c.sessions[native].(status := status)]))
  {
    assert c.sessions[native := c.sessions[native].(status := status)].Keys == c.sessions.Keys;
  }

  lemma FirstSaveKeeps(c: Chain, native: Native, status: SessionStatus, now: nat)
    requires Inv(c) && c.sessions == map[] && now > c.now
    ensures Inv(c.(now := now, sessions := c.sessions[native := Session(status, now)]))
  {
    NoSessionsNoLinks(c);
  }

  lemma SuccessorTimed(links: seq<Link>, sessions: map<Native, Session>, before: nat, native: Native, status: SessionStatus, now: nat)
    requires Timed(links, sessions, before) && now > before && native !in sessions
    requires links != [] && links[|links| - 1].status == Consumed
    ensures var n := |links| - 1;
            Timed(links[n := links[n].(status := Started, successor := Some(native))], sessions[native := Session(status, now)], now)
  {
  }

  lemma OnePathMore(path: seq<Native>, path': seq<Native>, sessions: map<Native, Session>, native: Native, session: Session)
    requires Distinct(path) && (forall s :: s in path <==> s in sessions)
    requires native !in sessions && path' == path + [native]
    ensures Distinct(path') && forall s :: s in path' <==> s in sessions[native := session]
  {
    DistinctMore(path, native);
  }

  lemma SuccessorSaveKeeps(c: Chain, c': Chain, native: Native, status: SessionStatus)
    requires Inv(c) && c.links != [] && c.links[|c.links| - 1].status == Consumed && native !in c.sessions && c'.now > c.now
    requires var n := |c.links| - 1;
             c' == c.(now := c'.now, sessions := c.sessions[native := Session(status, c'.now)],
                      links := c.links[n := c.links[n].(status := Started, successor := Some(native))])
    ensures Inv(c')
  {
    var link := c.links[|c.links| - 1].(status := Started, successor := Some(native));
    LastChanged(c.links, link);
    SuccessorSessions(c, c', link, native, Session(status, c'.now));
    SuccessorTimed(c.links, c.sessions, c.now, native, status, c'.now);
    SuccessorTickets(c, c', link);
  }

  lemma SuccessorSessions(c: Chain, c': Chain, link: Link, native: Native, session: Session)
    requires SessionsOk(c) && c.links != [] && c.links[|c.links| - 1].status != Started && native !in c.sessions
    requires c'.links == c.links[|c.links| - 1 := link] && c'.sessions == c.sessions[native := session]
    requires link.ready == c.links[|c.links| - 1].ready && link.status == Started && link.successor == Some(native)
    ensures SessionsOk(c')
  {
    PathChanged(c.links, link);
    OnePathMore(Path(c.links), Path(c'.links), c.sessions, native, session);
  }

  lemma SuccessorTickets(c: Chain, c': Chain, link: Link)
    requires TicketsOk(c) && HoldersOk(c) && c.links != [] && c.links[|c.links| - 1].status == Consumed
    requires link.status == Started && link == c.links[|c.links| - 1].(status := Started, successor := link.successor)
    requires c'.links == c.links[|c.links| - 1 := link] && c'.count == c.count && c'.ready == c.ready
    requires c'.consumed == c.consumed && c'.lease == c.lease
    ensures TicketsOk(c') && HoldersOk(c')
  {
  }

  /** Saving a successor starts the consumed link, the last one, and no other; saving a session
      already known, or the first, touches no link. */
  lemma StartsConsumedLink(c: Chain, holder: nat, fence: nat, native: Native, status: SessionStatus, i: nat, now: nat)
    requires Linked(c.links) && CanSave(c, holder, fence, native, i)
    ensures var links := Saved(c, native, status, i, now).links;
            if native in c.sessions || c.sessions == map[] then links == c.links
            else
              && |links| == |c.links| > 0 && (forall j | 0 <= j < |links| - 1 :: links[j] == c.links[j])
              && LastStatus(c.links) == Some(Consumed)
              && links[|links| - 1] == c.links[|links| - 1].(status := Started, successor := Some(native))
  {
    if native !in c.sessions && c.sessions != map[] {
      OpenIsLast(c.links, i);
    }
  }

  lemma SaveKeeps(c: Chain, holder: nat, fence: nat, native: Native, status: SessionStatus, i: nat, now: nat)
    requires Inv(c) && CanSave(c, holder, fence, native, i) && now > c.now
    ensures Inv(Saved(c, native, status, i, now))
  {
    if native in c.sessions {
      KnownSaveKeeps(c, native, status, now);
    } else if c.sessions == map[] {
      FirstSaveKeeps(c, native, status, now);
    } else {
      OpenIsLast(c.links, i);
      SuccessorSaveKeeps(c, Saved(c, native, status, i, now), native, status);
    }
  }

  lemma NoSessionsNoLinks(c: Chain)
    requires Inv(c) && c.sessions == map[]
    ensures c.links == []
  {
    if c.links != [] {
      PathHolds(c.links, 0);
    }
  }

  lemma LeaseMoveKeeps(c: Chain, c': Chain)
    requires Inv(c) && (c'.lease.Some? ==> c'.lease.value.fence >= 1)
    requires c'.now > c.now && c' == c.(now := c'.now, status := c'.status, lease := c'.lease)
    ensures Inv(c')
  {
  }

  lemma StepKeepsInv(c: Chain, step: Step, c': Chain)
    requires Inv(c) && Moves(c, step, c')
    ensures Inv(c')
  {
    match step
    case Acquire(_) => LeaseMoveKeeps(c, c');
    case Expire => LeaseMoveKeeps(c, c');
    case End(_, _) => LeaseMoveKeeps(c, c');
    case Save(holder, fence, native, status) =>
      var i: nat :| CanSave(c, holder, fence, native, i) && c' == Saved(c, native, status, i, c'.now);
      SaveKeeps(c, holder, fence, native, status, i, c'.now);
    case Issue(holder, fence, source, digest, recover) =>
      IssueSource(c, source);
      IssueKeeps(c, source, digest, c'.now);
    case Consume(holder, fence, ready) =>
      var i: nat :| CanConsume(c, holder, fence, ready, i) && c' == ConsumedBy(c, holder, fence, i, c'.now);
      ConsumeKeeps(c, holder, fence, ready, i, c'.now);
    case Restore =>
      var i: nat :| CanRestore(c, i) && c' == Restored(c, i, c'.now);
      RestoreKeeps(c, i, c'.now);
    case Retire =>
      var i: nat :| CanRetire(c, i) && c' == RetiredAt(c, i, c'.now);
      RetireKeeps(c, i, c'.now);
    case Requeue(_, _, _) => LeaseMoveKeeps(c, c');
    case Block => LeaseMoveKeeps(c, c');
  }

  // ----- Whole runs -----

  /** A task before any session. */
  ghost predicate Fresh(c: Chain) {
    c.count == 0 && c.ready.None? && c.consumed.None? && c.links == [] && c.sessions == map[]
    && (c.lease.Some? ==> c.lease.value.fence >= 1) && LiveIsRunning(c)
  }

  /** Only a running task's lease is live. */
  predicate LiveIsRunning(c: Chain) {
    IsLive(c) ==> c.status == Running
  }

  ghost predicate IsRun(run: seq<Chain>, steps: seq<Step>) {
    && |run| == |steps| + 1 && Fresh(run[0])
    && forall i, j | 0 <= i < |steps| && j == i + 1 :: Moves(run[i], steps[i], run[j])
  }

  lemma {:induction false} RunKeepsInv(run: seq<Chain>, steps: seq<Step>, i: nat)
    requires IsRun(run, steps) && i < |run|
    ensures Inv(run[i])
  {
    if i > 0 {
      RunKeepsInv(run, steps, i - 1);
      StepKeepsInv(run[i - 1], steps[i - 1], run[i]);
    }
  }

  /** On every run the chain never forks: ordinals are 1 to n, every link but the last is started,
      each link starts from the one before's successor, no session is the source of two links, and
      every session of the task is on the one path, once. */
  lemma ChainsNeverFork(run: seq<Chain>, steps: seq<Step>, k: nat)
    requires IsRun(run, steps) && k < |run|
    ensures var c := run[k];
            && (forall i | 0 <= i < |c.links| :: c.links[i].ready.ordinal == i + 1)
            && (forall i | 0 <= i < |c.links| - 1 :: c.links[i].status == Started)
            && (forall i, j | 0 <= i < j < |c.links| && j == i + 1 :: c.links[i].successor == Some(c.links[j].ready.source))
            && (forall i, j | 0 <= i < j < |c.links| :: c.links[i].ready.source != c.links[j].ready.source)
            && (c.links != [] ==> Distinct(Path(c.links)) && forall s :: s in Path(c.links) <==> s in c.sessions)
  {
    RunKeepsInv(run, steps, k);
    var links := run[k].links;
    forall i, j | 0 <= i < j < |links| ensures links[i].ready.source != links[j].ready.source {
      SourceOnPath(links, i);
      SourceOnPath(links, j);
    }
  }

  /** The i-th source is the i-th session of the path. */
  lemma {:induction false} SourceOnPath(links: seq<Link>, i: nat)
    requires Linked(links) && i < |links|
    ensures i < |Path(links)| && Path(links)[i] == links[i].ready.source
    ensures |Path(links)| == |links| + if links[|links| - 1].status == Started then 1 else 0
    ensures links[i].successor.Some? ==> i + 1 < |Path(links)| && Path(links)[i + 1] == links[i].successor.value
  {
    var n := |links| - 1;
    var init := links[..n];
    if n > 0 {
      SourceOnPath(init, if i < n then i else n - 1);
      assert links[n - 1].status == Started && links[n].ready.source == links[n - 1].successor.value;
    }
  }

  // ----- When an ended task is queued again -----

  /** The guards of the two commands that queue a task again without asking for its status: a ticket
      consumed and never started, or a settled newest session whose lease has expired. */
  ghost predicate Revivable(c: Chain) {
    (exists i: nat :: CanRestore(c, i))
    || exists holder: nat, fence: nat, source: Native :: CanIssue(c, holder, fence, source, true)
  }

  /** Of an ended task, a step keeps the outcome exactly when it is neither a restoration nor an
      issue; either of those queues it. */
  lemma OutcomeStep(c: Chain, step: Step, c': Chain)
    requires LiveIsRunning(c) && Moves(c, step, c')
    ensures LiveIsRunning(c')
    ensures c.status == Ended ==> c'.status == if step.Restore? || step.Issue? then Queued else Ended
    ensures c.status == Ended && !Revivable(c) ==> c'.status == Ended && !Revivable(c')
  {
    if c.status == Ended {
      if step.Issue? {
        assert CanIssue(c, step.holder, step.fence, step.source, true);
      } else if !step.Restore? {
        assert step.Expire? && c' == c.(now := c'.now);
        GuardsKeep(c, c');
      }
    }
  }

  lemma GuardsKeep(c: Chain, c': Chain)
    requires c' == c.(now := c'.now, status := c'.status)
    ensures Revivable(c') ==> Revivable(c)
  {
    if i: nat :| CanRestore(c', i) {
      assert CanRestore(c, i);
    } else if holder: nat, fence: nat, source: Native :| CanIssue(c', holder, fence, source, true) {
      assert CanIssue(c, holder, fence, source, true);
    }
  }

  lemma {:induction false} LiveIsRunningAlways(run: seq<Chain>, steps: seq<Step>, i: nat)
    requires IsRun(run, steps) && i < |run|
    ensures LiveIsRunning(run[i])
  {
    if i > 0 {
      LiveIsRunningAlways(run, steps, i - 1);
      OutcomeStep(run[i - 1], steps[i - 1], run[i]);
    }
  }

  predicate Revives(step: Step) {
    step.Restore? || step.Issue?
  }

  /** On every run, an outcome stays exactly as long as no ticket is restored or issued. */
  lemma {:induction false} OutcomeIsFinalExactly(run: seq<Chain>, steps: seq<Step>, i: nat, j: nat)
    requires IsRun(run, steps) && i <= j < |run| && run[i].status == Ended
    ensures (forall k | i <= k <= j :: run[k].status == Ended) <==> forall k | i <= k < j :: !Revives(steps[k])
    decreases j
  {
    if i < j {
      OutcomeIsFinalExactly(run, steps, i, j - 1);
      LiveIsRunningAlways(run, steps, j - 1);
      if run[j - 1].status == Ended {
        OutcomeStep(run[j - 1], steps[j - 1], run[j]);
      }
    }
  }

  /** An ended task on a run can be queued again if and only if it is revivable: then one command
      does it ... */
  lemma RevivableExactly(run: seq<Chain>, steps: seq<Step>, i: nat)
    requires IsRun(run, steps) && i < |run| && run[i].status == Ended
    ensures Revivable(run[i]) <==> exists step, c' :: Moves(run[i], step, c') && c'.status != Ended
  {
    LiveIsRunningAlways(run, steps, i);
    RevivableNow(run[i]);
  }

  lemma RevivableNow(c: Chain)
    requires LiveIsRunning(c) && c.status == Ended
    ensures Revivable(c) <==> exists step, c' :: Moves(c, step, c') && c'.status != Ended
  {
    if k: nat :| CanRestore(c, k) {
      assert Moves(c, Restore, Restored(c, k, c.now + 1));
    } else if holder: nat, fence: nat, source: Native :| CanIssue(c, holder, fence, source, true) {
      assert Moves(c, Issue(holder, fence, source, 0, true), IssuedBy(c, source, 0, c.now + 1));
    }
    forall step, c' | Moves(c, step, c') && c'.status != Ended ensures Revivable(c) {
      OutcomeStep(c, step, c');
    }
  }

  /** An ended task no command queues again; folded. */
  ghost predicate Final(c: Chain) {
    forall at: nat {:trigger Unfolded(at)} :: Unfolded(at) ==> c.status == Ended && LiveIsRunning(c) && !Revivable(c)
  }

  lemma FinalStep(c: Chain, step: Step, c': Chain)
    requires Final(c) && Moves(c, step, c')
    ensures Final(c')
  {
    assert Unfolded(0);
    OutcomeStep(c, step, c');
  }

  lemma {:induction false} FinalStays(run: seq<Chain>, steps: seq<Step>, i: nat, j: nat)
    requires IsRun(run, steps) && i <= j < |run| && Final(run[i])
    ensures Final(run[j])
    decreases j
  {
    if i < j {
      FinalStays(run, steps, i, j - 1);
      FinalStep(run[j - 1], steps[j - 1], run[j]);
    }
  }

  /** ... and else no continuation of the run ever does. */
  lemma FinalWhenNotRevivable(run: seq<Chain>, steps: seq<Step>, i: nat, j: nat)
    requires IsRun(run, steps) && i <= j < |run| && run[i].status == Ended && !Revivable(run[i])
    ensures run[j].status == Ended && !Revivable(run[j])
  {
    LiveIsRunningAlways(run, steps, i);
    FinalStays(run, steps, i, j);
    assert Unfolded(0);
  }

  // ----- A blocked task is never queued again -----

  /** The path's last session: the newest, by its place on the chain. */
  function Head(links: seq<Link>): Native
    requires links != []
  {
    var last := links[|links| - 1];
    if last.status == Started && last.successor.Some? then last.successor.value else last.ready.source
  }

  /** It was created after every other one. */
  lemma {:induction false} HeadIsNewest(links: seq<Link>, sessions: map<Native, Session>, now: nat, x: Native)
    requires Linked(links) && Timed(links, sessions, now) && links != [] && x in Path(links)
    ensures x in sessions && Head(links) in sessions
    ensures x == Head(links) || sessions[x].created < sessions[Head(links)].created
  {
    var n := |links| - 1;
    var init, last := links[..n], links[n];
    if n > 0 {
      assert links[n - 1].status == Started && last.ready.source == Head(init);
      if x in Path(init) {
        HeadIsNewest(init, sessions, now, x);
      }
    }
  }

  /** When the newest session has not handed off, no ticket can be issued or restored. */
  lemma RequeuedIsUnready(c: Chain, newest: Native)
    requires Inv(c) && newest in c.sessions && c.sessions[newest].status in {Active, Failed}
    requires forall s | s in c.sessions :: c.sessions[s].created <= c.sessions[newest].created
    ensures !Revivable(c)
  {
    if c.links == [] {
      SingleSession(c.sessions, newest);
    } else {
      HeadIsNewest(c.links, c.sessions, c.now, newest);
      if Revivable(c) {
        RevivalNeedsHead(c);
      }
    }
  }

  /** Either guard asks that the newest session has handed off. */
  lemma RevivalNeedsHead(c: Chain)
    requires Linked(c.links) && c.links != [] && Revivable(c)
    ensures Head(c.links) in c.sessions && c.sessions[Head(c.links)].status == HandedOff
  {
    if i: nat :| CanRestore(c, i) {
      OpenIsLast(c.links, i);
    } else {
      var holder: nat, fence: nat, source: Native :| CanIssue(c, holder, fence, source, true);
      IssuedFromHead(c.links, c.count, source);
    }
  }

  lemma IssuedFromHead(links: seq<Link>, count: nat, source: Native)
    requires Linked(links) && links != [] && AllStarted(links, count) && IsHead(links, source)
    ensures source == Head(links)
  {
    assert links[|links| - 1].successor == Some(source);
  }

  /** Neither can be while a ticket is out, or once the last one was retired. */
  lemma OpenIsUnready(c: Chain)
    requires Inv(c) && (LastStatus(c.links) == Some(Issued) || LastStatus(c.links) == Some(Retired))
    ensures !Revivable(c)
  {
    if i: nat :| CanRestore(c, i) {
      OpenIsLast(c.links, i);
    }
  }

  /** A queued or blocked task is not revivable; folded. */
  ghost predicate AtRest(c: Chain) {
    forall at: nat {:trigger Unfolded(at)} :: Unfolded(at) ==>
      Inv(c) && LiveIsRunning(c) && (c.status == Queued || c.status == Blocked ==> !Revivable(c))
  }

  lemma StepKeepsAtRest(c: Chain, step: Step, c': Chain)
    requires AtRest(c) && Moves(c, step, c')
    ensures AtRest(c') && (c.status == Blocked ==> c'.status == Blocked)
  {
    assert Unfolded(0);
    StepKeepsInv(c, step, c');
    OutcomeStep(c, step, c');
    if c.status == Queued || c.status == Blocked {
      RestStep(c, step, c');
    } else if c'.status == Queued || c'.status == Blocked {
      QueueStep(c, step, c');
    }
  }

  lemma OnlyGuarded(c: Chain, step: Step, c': Chain)
    requires !IsLive(c) && Moves(c, step, c')
    ensures Revives(step) ==> Revivable(c)
  {
    if step.Issue? {
      assert CanIssue(c, step.holder, step.fence, step.source, true);
    }
  }

  /** From a queued or blocked task. */
  lemma RestStep(c: Chain, step: Step, c': Chain)
    requires Inv(c) && Inv(c') && LiveIsRunning(c) && c.status in {Queued, Blocked} && !Revivable(c) && Moves(c, step, c')
    ensures (c.status == Blocked ==> c'.status == Blocked) && (c'.status in {Queued, Blocked} ==> !Revivable(c'))
  {
    OnlyGuarded(c, step, c');
    if step.Retire? && c.ready.Some? {
      var i: nat :| CanRetire(c, i) && c' == RetiredAt(c, i, c'.now);
      RetiresIssuedLink(c, i, c'.now);
      OpenIsUnready(c');
    } else if step.Expire? || step.Block? || step.Retire? {
      GuardsKeep(c, c');
    }
  }

  /** Into the queue, from a running or ended task. */
  lemma QueueStep(c: Chain, step: Step, c': Chain)
    requires Inv(c) && Inv(c') && c.status in {Running, Ended} && c'.status in {Queued, Blocked} && Moves(c, step, c')
    ensures !Revivable(c')
  {
    if step.Requeue? {
      assert c'.sessions == c.sessions;
      RequeuedIsUnready(c', step.newest);
    } else {
      QueuedWithTicket(c, step, c');
      OpenIsUnready(c');
    }
  }

  lemma QueuedWithTicket(c: Chain, step: Step, c': Chain)
    requires c.status in {Running, Ended} && c'.status in {Queued, Blocked} && Moves(c, step, c') && !step.Requeue?
    ensures c'.ready.Some?
  {
  }

  lemma {:induction false} AlwaysAtRest(run: seq<Chain>, steps: seq<Step>, i: nat)
    requires IsRun(run, steps) && i < |run|
    ensures AtRest(run[i])
  {
    if i > 0 {
      AlwaysAtRest(run, steps, i - 1);
      StepKeepsAtRest(run[i - 1], steps[i - 1], run[i]);
    }
  }

  /** On every run, a queued task that was retired or blocked stays so. */
  lemma {:induction false} BlockedIsFinal(run: seq<Chain>, steps: seq<Step>, i: nat, j: nat)
    requires IsRun(run, steps) && i <= j < |run| && run[i].status == Blocked
    ensures run[j].status == Blocked
    decreases j
  {
    if i < j {
      BlockedIsFinal(run, steps, i, j - 1);
      AlwaysAtRest(run, steps, j - 1);
      StepKeepsAtRest(run[j - 1], steps[j - 1], run[j]);
    }
  }

  lemma OneMore(run: seq<Chain>, steps: seq<Step>, step: Step, c: Chain) returns (run': seq<Chain>, steps': seq<Step>)
    requires IsRun(run, steps) && Moves(run[|run| - 1], step, c)
    ensures run' == run + [c] && steps' == steps + [step] && IsRun(run', steps')
  {
    run', steps' := run + [c], steps + [step];
  }

  /** A running task whose only session has handed off. */
  function Settled(): Chain {
    Chain(2, Running, Some(Lease(1, 1, true)), 0, None, None, [], map[5 := Session(HandedOff, 2)])
  }

  lemma SettledRun() returns (run: seq<Chain>, steps: seq<Step>)
    ensures IsRun(run, steps) && |run| == 3 && run[2] == Settled()
  {
    var started := Chain(1, Running, Some(Lease(1, 1, true)), 0, None, None, [], map[]);
    run, steps := [Chain(0, Queued, None, 0, None, None, [], map[])], [];
    run, steps := OneMore(run, steps, Acquire(1), started);
    assert CanSave(started, 1, 1, 5, 0) && Settled() == Saved(started, 5, HandedOff, 0, 2);
    run, steps := OneMore(run, steps, Save(1, 1, 5, HandedOff), Settled());
  }

  /** Both guards happen. A task that ended with its only session handed off is queued again by a
      recovering issue ... */
  lemma RecoveryRevivesEndedTask() returns (run: seq<Chain>, steps: seq<Step>)
    ensures IsRun(run, steps) && |run| == 5 && steps[3] == Issue(1, 1, 5, 0, true)
    ensures run[3].status == Ended && run[4].status == Queued
  {
    run, steps := SettledRun();
    var ended := Settled().(now := 3, status := Ended, lease := Some(Lease(1, 1, false)));
    run, steps := OneMore(run, steps, End(1, 1), ended);
    run, steps := OneMore(run, steps, Issue(1, 1, 5, 0, true), IssuedBy(ended, 5, 0, 4));
  }

  /** The task whose ticket was consumed under a second lease. */
  function Taken(): Chain {
    var ready := Ready(1, 5, 0, 3);
    Chain(5, Running, Some(Lease(1, 2, true)), 1, None, Some(Ticket(ready, 1, 2, 5)),
          [Link(ready, Consumed, Some(1), Some(2), Some(5), None)], map[5 := Session(HandedOff, 2)])
  }

  lemma TakenRun() returns (run: seq<Chain>, steps: seq<Step>)
    ensures IsRun(run, steps) && |run| == 6 && run[5] == Taken()
  {
    run, steps := SettledRun();
    var issued := IssuedBy(Settled(), 5, 0, 3);
    var acquired := issued.(now := 4, status := Running, lease := Some(Lease(1, 2, true)));
    run, steps := OneMore(run, steps, Issue(1, 1, 5, 0, false), issued);
    run, steps := OneMore(run, steps, Acquire(1), acquired);
    assert CanConsume(acquired, 1, 2, Ready(1, 5, 0, 3), 0) && Taken() == ConsumedBy(acquired, 1, 2, 0, 5);
    run, steps := OneMore(run, steps, Consume(1, 2, Ready(1, 5, 0, 3)), Taken());
  }

  /** ... and one that ended between consuming its ticket and saving a successor, by a restoration. */
  lemma RestoreRevivesEndedTask() returns (run: seq<Chain>, steps: seq<Step>)
    ensures IsRun(run, steps) && |run| == 8 && steps[6] == Restore
    ensures run[6].status == Ended && run[7].status == Queued
  {
    run, steps := TakenRun();
    var ended := Taken().(now := 6, status := Ended, lease := Some(Lease(1, 2, false)));
    run, steps := OneMore(run, steps, End(1, 2), ended);
    assert CanRestore(ended, 0);
    run, steps := OneMore(run, steps, Restore, Restored(ended, 0, 7));
  }

  // ----- When each command is accepted, by the stored fields -----

  /** A ticket is issued to the holder of the lease, live or, for a recovery, over; from a session that
      handed off; and only from the newest one, with none outstanding. */
  lemma IssuedExactly(c: Chain, holder: nat, fence: nat, source: Native, recoverExpired: bool)
    requires Inv(c)
    ensures CanIssue(c, holder, fence, source, recoverExpired) <==>
            && c.lease == Some(Lease(holder, fence, !recoverExpired))
            && source in c.sessions && c.sessions[source].status == HandedOff
            && (c.links != [] ==>
                  c.links[|c.links| - 1].status == Started && c.links[|c.links| - 1].successor == Some(source))
  {
    var links := c.links;
    if links != [] && links[|links| - 1].status == Started {
      forall k: nat | 1 <= k <= |links| ensures HasOrdinal(links, k) {
        assert links[k - 1].ready.ordinal == k;
      }
    }
  }

  /** A ticket is consumed exactly when it is the ready one, under the live lease that shows it. */
  lemma ConsumedExactly(c: Chain, holder: nat, fence: nat, ready: Ready)
    requires Inv(c)
    ensures (exists i: nat :: CanConsume(c, holder, fence, ready, i))
            <==> c.lease == Some(Lease(holder, fence, true)) && c.ready == Some(ready)
    ensures forall i: nat | CanConsume(c, holder, fence, ready, i) :: i == |c.links| - 1
  {
    if c.lease == Some(Lease(holder, fence, true)) && c.ready == Some(ready) {
      assert CanConsume(c, holder, fence, ready, |c.links| - 1);
    }
  }

  /** There are as many sessions as the path is long. */
  lemma SessionsCounted(c: Chain)
    requires Inv(c) && c.links != []
    ensures |c.sessions| == |c.links| + if c.links[|c.links| - 1].status == Started then 1 else 0
  {
    DistinctCount(Path(c.links));
    SourceOnPath(c.links, 0);
    assert Members(Path(c.links)) == c.sessions.Keys;
  }

  /** A ticket is restored exactly when it is the last one, consumed and never started; its own lease is
      over; and the session it was issued from has handed off. */
  lemma RestoredExactly(c: Chain)
    requires Inv(c)
    ensures (exists i: nat :: CanRestore(c, i)) <==>
            && c.links != [] && c.links[|c.links| - 1].status == Consumed
            && var last := c.links[|c.links| - 1];
               && c.lease.Some? && !c.lease.value.live
               && last.holder == Some(c.lease.value.holder) && last.fence == Some(c.lease.value.fence)
               && c.sessions[last.ready.source].status == HandedOff
    ensures forall i: nat | CanRestore(c, i) :: i == |c.links| - 1
  {
    if i: nat :| CanRestore(c, i) {
      OpenIsLast(c.links, i);
    }
    if c.links != [] && c.links[|c.links| - 1].status == Consumed {
      SessionsCounted(c);
      var last := c.links[|c.links| - 1];
      if c.lease.Some? && !c.lease.value.live && last.holder == Some(c.lease.value.holder)
         && last.fence == Some(c.lease.value.fence) && c.sessions[last.ready.source].status == HandedOff {
        assert CanRestore(c, |c.links| - 1);
      }
    }
  }

  /** A session is saved exactly under the live lease, when it is known, is the first, or is the successor
      of the last ticket, consumed under that very lease, whose source has handed off. */
  lemma SavedExactly(c: Chain, holder: nat, fence: nat, native: Native)
    requires Inv(c)
    ensures (exists i: nat :: CanSave(c, holder, fence, native, i)) <==>
            && c.lease == Some(Lease(holder, fence, true))
            && (native in c.sessions || c.sessions == map[]
                || (c.links != [] && c.links[|c.links| - 1].status == Consumed
                    && var last := c.links[|c.links| - 1];
                       && last.holder == Some(holder) && last.fence == Some(fence)
                       && c.sessions[last.ready.source].status == HandedOff))
  {
    if i: nat :| CanSave(c, holder, fence, native, i) {
      if native !in c.sessions && c.sessions != map[] {
        OpenIsLast(c.links, i);
      }
    }
    if c.sessions == map[] {
      NoSessionsNoLinks(c);
    }
    if c.lease == Some(Lease(holder, fence, true)) {
      if native in c.sessions || c.sessions == map[] {
        assert CanSave(c, holder, fence, native, 0);
      } else if c.links != [] && c.links[|c.links| - 1].status == Consumed {
        SessionsCounted(c);
        var last := c.links[|c.links| - 1];
        if last.holder == Some(holder) && last.fence == Some(fence) && c.sessions[last.ready.source].status == HandedOff {
          assert CanSave(c, holder, fence, native, |c.links| - 1);
        }
      }
    }
  }

  /** What a saved session is: a known one keeps when it was created, a new one is created now. */
  lemma SavedSession(c: Chain, native: Native, status: SessionStatus, i: nat, now: nat)
    ensures var c' := Saved(c, native, status, i, now);
            && c' == c.(now := now, sessions := c'.sessions, links := c'.links)
            && c'.sessions.Keys == c.sessions.Keys + {native}
            && (forall s | s in c.sessions && s != native :: c'.sessions[s] == c.sessions[s])
            && c'.sessions[native] == Session(status, if native in c.sessions then c.sessions[native].created else now)
  {
  }

  /** Any queued task whose lease is not live can be retired. */
  lemma RetiredExactly(c: Chain)
    requires Inv(c)
    ensures (exists i: nat :: CanRetire(c, i)) <==> c.status == Queued && (c.lease.Some? ==> !c.lease.value.live)
  {
    if c.status == Queued && (c.lease.Some? ==> !c.lease.value.live) {
      if c.ready.Some? {
        assert CanRetire(c, |c.links| - 1);
      } else {
        assert CanRetire(c, 0);
      }
    }
  }

  /** A settled boundary is queued for another decision exactly by the live holder, while the newest session
      has neither handed off nor completed. */
  lemma RequeuedExactly(c: Chain, holder: nat, fence: nat, newest: Native)
    ensures (exists c' :: Moves(c, Requeue(holder, fence, newest), c')) <==>
            && c.lease == Some(Lease(holder, fence, true)) && newest in c.sessions
            && (c.sessions[newest].status == Active || c.sessions[newest].status == Failed)
            && forall s | s in c.sessions :: c.sessions[s].created <= c.sessions[newest].created
  {
    var c' := c.(now := c.now + 1, status := Queued, lease := Some(Lease(holder, fence, false)));
    if CanRequeue(c, holder, fence, newest) {
      assert Moves(c, Requeue(holder, fence, newest), c');
    }
  }

  // ----- Fences along a run -----

  lemma FenceStep(c: Chain, step: Step, c': Chain)
    requires Moves(c, step, c')
    ensures c.lease.Some? ==> c'.lease.Some? && c.lease.value.fence <= c'.lease.value.fence
    ensures c.lease.Some? && c.lease.value.fence == c'.lease.value.fence ==> c.lease.value.holder == c'.lease.value.holder
  {
  }

  lemma {:induction false} ChainFencesNeverFall(run: seq<Chain>, steps: seq<Step>, i: nat, j: nat)
    requires IsRun(run, steps) && i <= j < |run| && run[i].lease.Some?
    ensures run[j].lease.Some? && run[i].lease.value.fence <= run[j].lease.value.fence
    decreases j
  {
    if i < j {
      ChainFencesNeverFall(run, steps, i, j - 1);
      FenceStep(run[j - 1], steps[j - 1], run[j]);
    }
  }

  predicate Carries(step: Step) {
    step.End? || step.Save? || step.Issue? || step.Consume? || step.Requeue?
  }

  /** On every run, whatever a worker's command does it does with the newest fence the task has had, and
      its own. */
  lemma CommandsCarryTheNewestFence(run: seq<Chain>, steps: seq<Step>, i: nat, j: nat)
    requires IsRun(run, steps) && i <= j < |steps| && Carries(steps[j])
    ensures run[j].lease.Some? && run[j].lease.value.holder == steps[j].holder && run[j].lease.value.fence == steps[j].fence
    ensures run[i].lease.Some? ==> run[i].lease.value.fence <= steps[j].fence
    ensures run[j].lease.value.live == !(steps[j].Issue? && steps[j].recoverExpired)
  {
    assert Moves(run[j], steps[j], run[j + 1]);
    if run[i].lease.Some? {
      ChainFencesNeverFall(run, steps, i, j);
    }
  }

  // ----- The rows of one task -----

  /** The rows' invariant, folded. */
  ghost predicate Right(c: Chain) {
    forall at: nat {:trigger Unfolded(at)} :: Unfolded(at) ==> Inv(c)
  }

  lemma IssueKeepsRight(c: Chain, holder: nat, fence: nat, source: Native, digest: nat, recover: bool, now: nat)
    requires Right(c) && CanIssue(c, holder, fence, source, recover) && now > c.now
    ensures Right(IssuedBy(c, source, digest, now))
  {
    assert Unfolded(0);
    IssueSource(c, source);
    IssueKeeps(c, source, digest, now);
  }

  lemma ConsumeKeepsRight(c: Chain, holder: nat, fence: nat, ready: Ready, i: nat, now: nat)
    requires Right(c) && CanConsume(c, holder, fence, ready, i) && now > c.now
    ensures Right(ConsumedBy(c, holder, fence, i, now))
  {
    assert Unfolded(0);
    ConsumeKeeps(c, holder, fence, ready, i, now);
  }

  lemma RestoreKeepsRight(c: Chain, i: nat, now: nat)
    requires Right(c) && CanRestore(c, i) && now > c.now
    ensures Right(Restored(c, i, now))
  {
    assert Unfolded(0);
    RestoreKeeps(c, i, now);
  }

  lemma ConsumedNow(c: Chain, holder: nat, fence: nat, ready: Ready)
    requires Right(c)
    ensures (exists i: nat :: CanConsume(c, holder, fence, ready, i))
            <==> c.lease == Some(Lease(holder, fence, true)) && c.ready == Some(ready)
    ensures forall i: nat | CanConsume(c, holder, fence, ready, i) ::
              i == |c.links| - 1 && c.links[i] == Link(ready, Issued, c.links[i].holder, c.links[i].fence, c.links[i].consumed, None)
  {
    assert Unfolded(0);
    ConsumedExactly(c, holder, fence, ready);
  }

  lemma RestoredNow(c: Chain)
    requires Right(c)
    ensures forall i: nat | CanRestore(c, i) :: i == |c.links| - 1 && c.consumed.value.ready == c.links[i].ready
  {
    assert Unfolded(0);
    RestoredExactly(c);
  }

  /** The commands take `allowed`: whether the checks that read other tables pass, of the caller, the
      experiment, the handoff's intent, checkpoint, budget and workspace. */
  class TaskChain {
    var now: nat
    var status: TaskStatus
    var lease: Option<Lease>
    var count: nat
    var ready: Option<Ready>
    var consumed: Option<Ticket>
    var links: seq<Link>
    var sessions: map<Native, Session>

    ghost function Contents(): Chain
      reads this
    {
      Chain(now, status, lease, count, ready, consumed, links, sessions)
    }

    ghost predicate Valid()
      reads this
    {
      Right(Contents())
    }

    constructor ()
      ensures Valid() && Fresh(Contents())
    {
      now, status, lease, count, ready, consumed, links, sessions := 0, Queued, None, 0, None, None, [], map[];
    }

    /** The exact link of an ordinal, when there is just one. */
    method ContinuationLink(ordinal: nat) returns (i: Option<nat>)
      ensures i.Some? ==> TheLink(links, ordinal, i.value)
      ensures i.None? ==> forall j :: !TheLink(links, ordinal, j)
    {
      i := None;
      for k := 0 to |links|
        invariant i.None? ==> forall j | 0 <= j < k :: links[j].ready.ordinal != ordinal
        invariant i.Some? ==> i.value < k && links[i.value].ready.ordinal == ordinal
                              && forall j | 0 <= j < k && links[j].ready.ordinal == ordinal :: j == i.value
      {
        if links[k].ready.ordinal == ordinal {
          if i.Some? {
            return None;
          }
          i := Some(k);
        }
      }
    }

    /** Issue a ticket from the newest settled session. */
    method IssueContinuation(at: nat, holder: nat, fence: nat, source: Native, digest: nat, recoverExpired: bool,
                             allowed: bool) returns (issued: bool)
      requires Valid() && at > now
      modifies this
      ensures Valid() && issued == (allowed && old(CanIssue(Contents(), holder, fence, source, recoverExpired)))
      ensures Contents() == if issued then IssuedBy(old(Contents()), source, digest, at) else old(Contents())
      ensures issued ==>
                var ticket := Ready(old(count) + 1, source, digest, at);
                && old(lease) == Some(Lease(holder, fence, !recoverExpired)) && lease == Some(Lease(holder, fence, false))
                && now == at && status == Queued && count == old(count) + 1 && ready == Some(ticket)
                && links == old(links) + [Link(ticket, Issued, None, None, None, None)]
                && consumed == old(consumed) && sessions == old(sessions)
    {
      issued := MayIssue(holder, fence, source, recoverExpired);
      issued := issued && allowed;
      if !issued {
        return;
      }
      IssueKeepsRight(Contents(), holder, fence, source, digest, recoverExpired, at);
      WriteIssued(at, source, digest);
    }

    method WriteIssued(at: nat, source: Native, digest: nat)
      modifies this
      ensures Contents() == IssuedBy(old(Contents()), source, digest, at)
    {
      var ticket := Ready(count + 1, source, digest, at);
      now, status, ready, count := at, Queued, Some(ticket), count + 1;
      links := links + [Link(ticket, Issued, None, None, None, None)];
      if lease.Some? {
        lease := Some(lease.value.(live := false));
      }
    }

    method MayIssue(holder: nat, fence: nat, source: Native, recoverExpired: bool) returns (may: bool)
      ensures may == CanIssue(Contents(), holder, fence, source, recoverExpired)
    {
      if lease.None? || lease.value != Lease(holder, fence, !recoverExpired) {
        return false;
      }
      if source !in sessions || sessions[source].status != HandedOff {
        return false;
      }
      may := AllStarted(links, count) && IsHead(links, source);
    }

    /** Consume the ready ticket under the current lease. */
    method ConsumeContinuation(at: nat, holder: nat, fence: nat, ticket: Ready, allowed: bool) returns (i: Option<nat>)
      requires Valid() && at > now
      modifies this
      ensures Valid() && (i.Some? ==> allowed && CanConsume(old(Contents()), holder, fence, ticket, i.value))
      ensures i.None? ==> Contents() == old(Contents())
                          && (allowed ==> forall j: nat :: !CanConsume(old(Contents()), holder, fence, ticket, j))
      ensures i.Some? ==> Contents() == ConsumedBy(old(Contents()), holder, fence, i.value, at)
      ensures i.Some? <==> allowed && old(lease) == Some(Lease(holder, fence, true)) && old(ready) == Some(ticket)
      ensures i.Some? ==>
                var n := |old(links)| - 1;
                && now == at && ready == None && consumed == Some(Ticket(ticket, holder, fence, at))
                && n >= 0 && links == old(links)[n := Link(ticket, Consumed, Some(holder), Some(fence), Some(at), None)]
                && status == old(status) && lease == old(lease) && count == old(count) && sessions == old(sessions)
    {
      ConsumedNow(Contents(), holder, fence, ticket);
      i := MayConsume(holder, fence, ticket);
      if i.None? || !allowed {
        return None;
      }
      ConsumeKeepsRight(Contents(), holder, fence, ticket, i.value, at);
      WriteConsumed(at, holder, fence, i.value);
    }

    method WriteConsumed(at: nat, holder: nat, fence: nat, i: nat)
      requires i < |links|
      modifies this
      ensures Contents() == ConsumedBy(old(Contents()), holder, fence, i, at)
    {
      now, ready, consumed := at, None, Some(Ticket(links[i].ready, holder, fence, at));
      links := links[i := links[i].(status := Consumed, holder := Some(holder), fence := Some(fence), consumed := Some(at))];
    }

    method MayConsume(holder: nat, fence: nat, ticket: Ready) returns (i: Option<nat>)
      ensures i.Some? ==> CanConsume(Contents(), holder, fence, ticket, i.value)
      ensures i.None? ==> forall j: nat :: !CanConsume(Contents(), holder, fence, ticket, j)
    {
      if lease != Some(Lease(holder, fence, true)) || ready != Some(ticket) {
        return None;
      }
      i := ContinuationLink(ticket.ordinal);
      if i.None? || links[i.value].status != Issued || links[i.value].ready != ticket {
        return None;
      }
    }

    /** Restore a consumed ticket whose successor was never saved. */
    method RestoreUnstarted(at: nat, allowed: bool) returns (i: Option<nat>)
      requires Valid() && at > now
      modifies this
      ensures Valid() && (i.Some? ==> allowed && CanRestore(old(Contents()), i.value))
      ensures i.None? ==> Contents() == old(Contents()) && (allowed ==> forall j: nat :: !CanRestore(old(Contents()), j))
      ensures i.Some? ==> Contents() == Restored(old(Contents()), i.value, at)
      ensures i.Some? ==>
                var n := |old(links)| - 1;
                && now == at && status == Queued && consumed == None && n >= 0 && ready == Some(old(links)[n].ready)
                && links == old(links)[n := Link(old(links)[n].ready, Issued, None, None, None, None)]
                && old(lease).Some? && lease == Some(old(lease).value.(live := false))
                && count == old(count) && sessions == old(sessions)
    {
      RestoredNow(Contents());
      i := MayRestore();
      if i.None? || !allowed {
        return None;
      }
      RestoreKeepsRight(Contents(), i.value, at);
      WriteRestored(at, i.value);
    }

    method WriteRestored(at: nat, i: nat)
      requires i < |links| && consumed.Some?
      modifies this
      ensures Contents() == Restored(old(Contents()), i, at)
    {
      var ticket := consumed.value.ready;
      now, status, ready, consumed := at, Queued, Some(ticket), None;
      links := links[i := Link(ticket, Issued, None, None, None, None)];
      if lease.Some? {
        lease := Some(lease.value.(live := false));
      }
    }

    method MayRestore() returns (i: Option<nat>)
      ensures i.Some? ==> CanRestore(Contents(), i.value)
      ensures i.None? ==> forall j: nat :: !CanRestore(Contents(), j)
    {
      if consumed.None? || ready.Some? {
        return None;
      }
      var ticket := consumed.value;
      i := ContinuationLink(ticket.ready.ordinal);
      if i.None? || links[i.value].status != Consumed || links[i.value].ready.source != ticket.ready.source
         || links[i.value].ready.digest != ticket.ready.digest || links[i.value].successor.Some? {
        return None;
      }
      if lease != Some(Lease(ticket.holder, ticket.fence, false)) {
        return None;
      }
      if |sessions| != ticket.ready.ordinal || ticket.ready.source !in sessions || sessions[ticket.ready.source].status != HandedOff {
        return None;
      }
    }
  }
}
