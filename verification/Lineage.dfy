/** The independent validator of finished continuation chains, and what it makes certain. Checkpoint
    and archive contents are opaque: `Evidence` says which of them check out. */
module Lineage {
  import opened Basics
  import Chains

  datatype Outcome = Completed | Failed | HandedOff | Unsettled

  datatype SessionRow = SessionRow(id: nat, experiment: nat, task: nat, native: nat, status: Outcome, checkpoint: nat, created: int)

  /** `scoped` says that the branch, target, review and environment are the task's and the scope's. */
  datatype LinkRow = LinkRow(experiment: nat, task: nat, ordinal: int, started: bool, scoped: bool,
                             source: Option<nat>, successor: Option<nat>, sourceNative: nat, successorNative: nat,
                             sourceCheckpoint: nat, digest: nat, holder: string, fence: int, issued: int, consumed: int)

  /** The task's record of the last ticket it consumed. */
  datatype Latest = Latest(ordinal: int, sourceNative: nat, digest: nat, holder: string, fence: int, consumed: int)

  datatype TaskRow = TaskRow(id: nat, experiment: nat, settled: bool, ready: bool, count: int, protocol: bool, latest: Option<Latest>)

  datatype Evidence = Evidence(session: SessionRow -> bool, link: LinkRow -> bool)

  datatype Code =
    | TaskScopeMismatch | NonterminalSession | DuplicateRecord | DuplicateNative | SessionScopeMismatch | LinkScopeMismatch
    | MissingLinks | OrphanHandoff | CheckpointMismatch | IncompleteChain | LinkMismatch | DisconnectedChain
    | UnfinishedSuccessor | OrderMismatch | ExtraOrCyclicSession | LatestMismatch

  // ----- The rows of one task -----

  function SessionsOf(sessions: seq<SessionRow>, task: nat): (r: seq<SessionRow>)
    ensures forall s :: s in r <==> s in sessions && s.task == task
  {
    if sessions == [] then []
    else (if sessions[0].task == task then [sessions[0]] else []) + SessionsOf(sessions[1..], task)
  }

  /** A task's links, by ordinal. */
  function LinksOf(links: seq<LinkRow>, task: nat): (r: seq<LinkRow>)
    ensures forall l :: l in r <==> l in links && l.task == task
  {
    if links == [] then []
    else if links[0].task == task then Placed(links[0], LinksOf(links[1..], task))
    else LinksOf(links[1..], task)
  }

  function Placed(link: LinkRow, sorted: seq<LinkRow>): (r: seq<LinkRow>)
    ensures forall l :: l in r <==> l == link || l in sorted
  {
    if sorted == [] || link.ordinal <= sorted[0].ordinal then [link] + sorted
    else [sorted[0]] + Placed(link, sorted[1..])
  }

  function Find(sessions: seq<SessionRow>, id: Option<nat>): (r: Option<SessionRow>)
    ensures r.Some? ==> r.value in sessions && id == Some(r.value.id)
  {
    if sessions == [] || id.None? then None
    else if sessions[0].id == id.value then Some(sessions[0])
    else Find(sessions[1..], id)
  }

  // ----- The checks -----

  /** One link of the task's sorted links, with the session it starts from and the one it led to. */
  function CheckLink(task: TaskRow, links: seq<LinkRow>, sessions: seq<SessionRow>, e: Evidence, k: nat): Option<Code>
    requires k < |links|
  {
    var link := links[k];
    var source, successor := Find(sessions, link.source), Find(sessions, link.successor);
    if !link.started || !link.scoped || source.None? || successor.None?
       || source.value.task != task.id || successor.value.task != task.id || source.value.status != HandedOff
       || source.value.native != link.sourceNative || successor.value.native != link.successorNative
       || source.value.checkpoint != link.sourceCheckpoint || source.value.id == successor.value.id
       || link.holder == "" || link.fence <= 0 then Some(LinkMismatch)
    else if k > 0 && links[k - 1].successor != Some(source.value.id) then Some(DisconnectedChain)
    else if k < |links| - 1 && successor.value.status != HandedOff then Some(DisconnectedChain)
    else if k == |links| - 1 && successor.value.status !in {Completed, Failed} then Some(UnfinishedSuccessor)
    else if !(source.value.created < link.issued <= link.consumed < successor.value.created) then Some(OrderMismatch)
    else if !e.session(source.value) || !e.session(successor.value) || !e.link(link) then Some(CheckpointMismatch)
    else None
  }

  function CheckLinks(task: TaskRow, links: seq<LinkRow>, sessions: seq<SessionRow>, e: Evidence, k: nat): (r: Option<Code>)
    requires k <= |links|
    ensures r.None? <==> forall i | k <= i < |links| :: CheckLink(task, links, sessions, e, i).None?
    ensures r.Some? ==> exists i :: k <= i < |links| && r == CheckLink(task, links, sessions, e, i)
    decreases |links| - k
  {
    if k == |links| then None
    else if CheckLink(task, links, sessions, e, k).Some? then CheckLink(task, links, sessions, e, k)
    else CheckLinks(task, links, sessions, e, k + 1)
  }

  predicate Numbered(links: seq<LinkRow>) {
    forall i | 0 <= i < |links| :: links[i].ordinal == i + 1
  }

  /** The sessions named by a chain's links: each source and the last successor. */
  function ChainIds(links: seq<LinkRow>): set<Option<nat>>
    requires links != []
  {
    (set l | l in links :: l.source) + {links[|links| - 1].successor}
  }

  function IdsOf(sessions: seq<SessionRow>): set<Option<nat>> {
    set s | s in sessions :: Some(s.id)
  }

  predicate LatestAgrees(latest: Option<Latest>, last: LinkRow) {
    latest == Some(Latest(last.ordinal, last.sourceNative, last.digest, last.holder, last.fence, last.consumed))
  }

  function CheckTask(task: TaskRow, sessions: seq<SessionRow>, links: seq<LinkRow>, e: Evidence): Option<Code> {
    var own, mine := LinksOf(links, task.id), SessionsOf(sessions, task.id);
    if own == [] then
      if task.protocol || task.count != 0 then Some(MissingLinks)
      else if exists s :: s in mine && s.status == HandedOff then Some(OrphanHandoff)
      else if exists s :: s in mine && !e.session(s) then Some(CheckpointMismatch)
      else None
    else if !task.settled || task.ready || task.count != |own| || !Numbered(own) || |mine| != |own| + 1 then Some(IncompleteChain)
    else
      var links := CheckLinks(task, own, sessions, e, 0);
      if links.Some? then links
      else if ChainIds(own) != IdsOf(mine) then Some(ExtraOrCyclicSession)
      else if !LatestAgrees(task.latest, own[|own| - 1]) then Some(LatestMismatch)
      else None
  }

  function CheckTasks(tasks: seq<TaskRow>, sessions: seq<SessionRow>, links: seq<LinkRow>, e: Evidence): (r: Option<Code>)
    ensures r.None? <==> forall t | t in tasks :: CheckTask(t, sessions, links, e).None?
    ensures r.Some? ==> exists t :: t in tasks && r == CheckTask(t, sessions, links, e)
  {
    if tasks == [] then None
    else if CheckTask(tasks[0], sessions, links, e).Some? then CheckTask(tasks[0], sessions, links, e)
    else CheckTasks(tasks[1..], sessions, links, e)
  }

  predicate UniqueSessions(sessions: seq<SessionRow>) {
    forall i, j | 0 <= i < j < |sessions| :: sessions[i].id != sessions[j].id
  }

  predicate UniqueTasks(tasks: seq<TaskRow>) {
    forall i, j | 0 <= i < j < |tasks| :: tasks[i].id != tasks[j].id
  }

  predicate UniqueNatives(sessions: seq<SessionRow>) {
    forall i, j | 0 <= i < j < |sessions| :: sessions[i].native != sessions[j].native
  }

  /** The checks of all rows together. */
  function CheckRows(tasks: seq<TaskRow>, sessions: seq<SessionRow>, links: seq<LinkRow>, experiment: nat): (r: Option<Code>)
    ensures r != Some(ExtraOrCyclicSession)
  {
    if exists t :: t in tasks && t.experiment != experiment then Some(TaskScopeMismatch)
    else if exists s :: s in sessions && s.status == Unsettled then Some(NonterminalSession)
    else if !UniqueTasks(tasks) || !UniqueSessions(sessions) then Some(DuplicateRecord)
    else if !UniqueNatives(sessions) then Some(DuplicateNative)
    else if exists s :: s in sessions && (s.experiment != experiment || !Known(tasks, s.task)) then Some(SessionScopeMismatch)
    else if exists l :: l in links && (l.experiment != experiment || !Known(tasks, l.task)) then Some(LinkScopeMismatch)
    else None
  }

  /** The whole validation: None accepts. */
  function Validate(tasks: seq<TaskRow>, sessions: seq<SessionRow>, links: seq<LinkRow>, experiment: nat, e: Evidence): (r: Option<Code>)
    ensures r.None? ==> forall t | t in tasks :: CheckTask(t, sessions, links, e).None?
    ensures r == Some(ExtraOrCyclicSession) ==> exists t :: t in tasks && CheckTask(t, sessions, links, e) == r
  {
    var rows := CheckRows(tasks, sessions, links, experiment);
    if rows.Some? then rows else CheckTasks(tasks, sessions, links, e)
  }

  predicate Known(tasks: seq<TaskRow>, id: nat) {
    exists t :: t in tasks && t.id == id
  }

  // ----- What acceptance means, by the stored fields -----

  /** These are the task's links, each as often as it is stored. */
  ghost predicate AreLinksOf(links: seq<LinkRow>, task: nat, own: seq<LinkRow>) {
    forall l :: multiset(own)[l] == if l.task == task then multiset(links)[l] else 0
  }

  ghost predicate AreSessionsOf(sessions: seq<SessionRow>, task: nat, mine: seq<SessionRow>) {
    forall s :: multiset(mine)[s] == if s.task == task then multiset(sessions)[s] else 0
  }

  /** The k-th link leads from one of the task's sessions, which handed off to it with this checkpoint, to
      another one created later, which is the source of the next link or else has ended; and the evidence
      of all three passes. */
  ghost predicate LinkSound(task: TaskRow, own: seq<LinkRow>, sessions: seq<SessionRow>, e: Evidence, k: nat)
    requires k < |own|
  {
    var l := own[k];
    && l.ordinal == k + 1 && l.started && l.scoped && l.holder != "" && l.fence > 0 && e.link(l)
    && exists a, b | a in sessions && b in sessions ::
         && l.source == Some(a.id) && a.task == task.id && a.status == HandedOff && a.native == l.sourceNative
         && a.checkpoint == l.sourceCheckpoint && e.session(a)
         && l.successor == Some(b.id) && b.task == task.id && b.native == l.successorNative && e.session(b) && a.id != b.id
         && a.created < l.issued <= l.consumed < b.created
         && if k + 1 < |own| then b.status == HandedOff && own[k + 1].source == Some(b.id) else b.status in {Completed, Failed}
  }

  /** A task without links never handed off; one with links has settled, no ticket is out, each of its
      links is sound, one session is more than its links, and the ticket it consumed last is its last
      link's. */
  ghost predicate TaskSound(task: TaskRow, own: seq<LinkRow>, mine: seq<SessionRow>, sessions: seq<SessionRow>, e: Evidence) {
    if own == [] then
      !task.protocol && task.count == 0 && forall s | s in mine :: s.status != HandedOff && e.session(s)
    else
      && task.settled && !task.ready && task.count == |own| && |mine| == |own| + 1
      && (forall k | 0 <= k < |own| :: LinkSound(task, own, sessions, e, k))
      && var last := own[|own| - 1];
         && task.latest.Some? && task.latest.value.ordinal == last.ordinal && task.latest.value.sourceNative == last.sourceNative
         && task.latest.value.digest == last.digest && task.latest.value.holder == last.holder
         && task.latest.value.fence == last.fence && task.latest.value.consumed == last.consumed
  }

  lemma {:induction false} LinksAreOwn(links: seq<LinkRow>, task: nat)
    ensures AreLinksOf(links, task, LinksOf(links, task))
  {
    if links != [] {
      LinksAreOwn(links[1..], task);
      PlacedOnce(links[0], LinksOf(links[1..], task));
      assert links == [links[0]] + links[1..];
    }
  }

  lemma {:induction false} PlacedOnce(link: LinkRow, sorted: seq<LinkRow>)
    ensures multiset(Placed(link, sorted)) == multiset([link]) + multiset(sorted)
  {
    if sorted != [] && link.ordinal > sorted[0].ordinal {
      PlacedOnce(link, sorted[1..]);
      assert sorted == [sorted[0]] + sorted[1..];
    }
  }

  lemma {:induction false} SessionsAreMine(sessions: seq<SessionRow>, task: nat)
    ensures AreSessionsOf(sessions, task, SessionsOf(sessions, task))
  {
    if sessions != [] {
      SessionsAreMine(sessions[1..], task);
      assert sessions == [sessions[0]] + sessions[1..];
    }
  }

  lemma PassedLinkIsSound(task: TaskRow, own: seq<LinkRow>, sessions: seq<SessionRow>, e: Evidence, k: nat)
    requires k < |own| && Numbered(own) && CheckLink(task, own, sessions, e, k).None?
    requires k + 1 < |own| ==> CheckLink(task, own, sessions, e, k + 1).None?
    ensures LinkSound(task, own, sessions, e, k)
  {
    var a, b := Find(sessions, own[k].source).value, Find(sessions, own[k].successor).value;
    assert a in sessions && b in sessions;
    if k + 1 < |own| {
      var next := Find(sessions, own[k + 1].source).value;
      assert own[k].successor == Some(next.id);
    }
  }

  /** Every row is the experiment's own and a known task's, every session has ended, and no identifier
      repeats. */
  ghost predicate RowsSound(tasks: seq<TaskRow>, sessions: seq<SessionRow>, links: seq<LinkRow>, experiment: nat) {
    && (forall t | t in tasks :: t.experiment == experiment)
    && (forall i, j | 0 <= i < j < |tasks| :: tasks[i].id != tasks[j].id)
    && (forall i, j | 0 <= i < j < |sessions| :: sessions[i].id != sessions[j].id && sessions[i].native != sessions[j].native)
    && (forall s | s in sessions :: s.status != Unsettled && s.experiment == experiment && exists t :: t in tasks && t.id == s.task)
    && (forall l | l in links :: l.experiment == experiment && exists t :: t in tasks && t.id == l.task)
  }

  /** The rows check passes exactly when the rows are sound. */
  lemma RowsPassExactly(tasks: seq<TaskRow>, sessions: seq<SessionRow>, links: seq<LinkRow>, experiment: nat)
    ensures CheckRows(tasks, sessions, links, experiment).None? <==> RowsSound(tasks, sessions, links, experiment)
  {
  }

  ghost predicate SomeChainSound(task: TaskRow, sessions: seq<SessionRow>, links: seq<LinkRow>, e: Evidence) {
    exists own, mine :: AreLinksOf(links, task.id, own) && AreSessionsOf(sessions, task.id, mine) && TaskSound(task, own, mine, sessions, e)
  }

  /** What is accepted is sound: its rows are, and so is every task's chain. */
  lemma AcceptedIsSound(tasks: seq<TaskRow>, sessions: seq<SessionRow>, links: seq<LinkRow>, experiment: nat, e: Evidence)
    requires Validate(tasks, sessions, links, experiment, e).None?
    ensures RowsSound(tasks, sessions, links, experiment)
    ensures forall t | t in tasks :: SomeChainSound(t, sessions, links, e)
  {
    RowsPassExactly(tasks, sessions, links, experiment);
    forall t | t in tasks ensures SomeChainSound(t, sessions, links, e) {
      LinksAreOwn(links, t.id);
      SessionsAreMine(sessions, t.id);
      PassedTaskIsSound(t, sessions, links, e);
    }
  }

  /** And what is sound is accepted. */
  lemma SoundIsAccepted(tasks: seq<TaskRow>, sessions: seq<SessionRow>, links: seq<LinkRow>, experiment: nat, e: Evidence)
    requires RowsSound(tasks, sessions, links, experiment) && forall t | t in tasks :: SomeChainSound(t, sessions, links, e)
    ensures Validate(tasks, sessions, links, experiment, e).None?
  {
    RowsPassExactly(tasks, sessions, links, experiment);
    forall t | t in tasks ensures CheckTask(t, sessions, links, e).None? {
      assert SomeChainSound(t, sessions, links, e);
      var own, mine :| AreLinksOf(links, t.id, own) && AreSessionsOf(sessions, t.id, mine) && TaskSound(t, own, mine, sessions, e);
      SoundTaskPasses(t, own, mine, sessions, links, e);
    }
  }

  /** Links by non-decreasing ordinal. */
  ghost predicate Sorted(links: seq<LinkRow>) {
    forall i, j | 0 <= i < j < |links| :: links[i].ordinal <= links[j].ordinal
  }

  lemma {:induction false} PlacedSorted(link: LinkRow, sorted: seq<LinkRow>)
    requires Sorted(sorted)
    ensures Sorted(Placed(link, sorted))
  {
    if sorted != [] && link.ordinal > sorted[0].ordinal {
      var rest := Placed(link, sorted[1..]);
      PlacedSorted(link, sorted[1..]);
      forall j | 0 <= j < |rest| ensures sorted[0].ordinal <= rest[j].ordinal {
        assert rest[j] in rest;
      }
    }
  }

  lemma {:induction false} LinksSorted(links: seq<LinkRow>, task: nat)
    ensures Sorted(LinksOf(links, task))
  {
    if links != [] {
      LinksSorted(links[1..], task);
      if links[0].task == task {
        PlacedSorted(links[0], LinksOf(links[1..], task));
      }
    }
  }

  lemma WithoutLast<T>(a: seq<T>, b: seq<T>)
    requires multiset(a) == multiset(b) && |a| == |b| > 0 && a[|a| - 1] == b[|b| - 1]
    ensures multiset(a[..|a| - 1]) == multiset(b[..|b| - 1])
  {
    var n := |a| - 1;
    assert a == a[..n] + [a[n]] && b == b[..n] + [b[n]];
    assert multiset(a) == multiset(a[..n]) + multiset([a[n]]) && multiset(b) == multiset(b[..n]) + multiset([b[n]]);
    assert multiset(a[..n]) == multiset(a) - multiset([a[n]]) && multiset(b[..n]) == multiset(b) - multiset([b[n]]);
  }

  lemma SameLength<T>(a: seq<T>, b: seq<T>)
    requires multiset(a) == multiset(b)
    ensures |a| == |b|
  {
    assert |a| == |multiset(a)| && |b| == |multiset(b)|;
  }

  /** A numbered list is the one sorted order of its members. */
  lemma {:induction false} NumberedIsSorted(a: seq<LinkRow>, b: seq<LinkRow>)
    requires Sorted(a) && Numbered(b) && multiset(a) == multiset(b)
    ensures a == b
  {
    SameLength(a, b);
    if b != [] {
      LastIsSame(a, b);
      WithoutLast(a, b);
      NumberedIsSorted(a[..|a| - 1], b[..|b| - 1]);
      assert a == a[..|a| - 1] + [a[|a| - 1]] && b == b[..|b| - 1] + [b[|b| - 1]];
    } else {
      assert a == [];
    }
  }

  lemma LastIsSame(a: seq<LinkRow>, b: seq<LinkRow>)
    requires Sorted(a) && Numbered(b) && multiset(a) == multiset(b) && |a| == |b| > 0
    ensures a[|a| - 1] == b[|b| - 1]
  {
    var n := |b| - 1;
    assert b[n] in multiset(b) && a[n] in multiset(a);
    assert b[n] in a && a[n] in b;
    var i :| 0 <= i < |a| && a[i] == b[n];
    var j :| 0 <= j < |b| && b[j] == a[n];
  }

  lemma SoundLinkPasses(task: TaskRow, own: seq<LinkRow>, sessions: seq<SessionRow>, e: Evidence, k: nat)
    requires UniqueSessions(sessions) && k < |own| && LinkSound(task, own, sessions, e, k)
    requires k > 0 ==> LinkSound(task, own, sessions, e, k - 1)
    ensures CheckLink(task, own, sessions, e, k).None?
  {
    FindsItsOwn(sessions, own[k]);
    if k > 0 {
      FindsItsOwn(sessions, own[k - 1]);
    }
  }

  /** With no identifier twice, a link's sessions are the ones it names. */
  lemma FindsItsOwn(sessions: seq<SessionRow>, link: LinkRow)
    requires UniqueSessions(sessions)
    ensures forall s | s in sessions && (link.source == Some(s.id) || link.successor == Some(s.id)) :: Find(sessions, Some(s.id)) == Some(s)
  {
    forall s | s in sessions ensures Find(sessions, Some(s.id)) == Some(s) {
      var i :| 0 <= i < |sessions| && sessions[i] == s;
      FindAt(sessions, i);
    }
  }

  lemma OwnAreLinksOf(links: seq<LinkRow>, task: nat, own: seq<LinkRow>)
    requires AreLinksOf(links, task, own) && Numbered(own)
    ensures LinksOf(links, task) == own
  {
    LinksAreOwn(links, task);
    LinksSorted(links, task);
    assert multiset(LinksOf(links, task)) == multiset(own);
    NumberedIsSorted(LinksOf(links, task), own);
  }

  lemma MineAreSessionsOf(sessions: seq<SessionRow>, task: nat, mine: seq<SessionRow>)
    requires AreSessionsOf(sessions, task, mine)
    ensures |SessionsOf(sessions, task)| == |mine| && forall s | s in SessionsOf(sessions, task) :: s in mine
  {
    var all := SessionsOf(sessions, task);
    SessionsAreMine(sessions, task);
    assert multiset(all) == multiset(mine);
    SameLength(all, mine);
    forall s | s in all ensures s in mine {
      assert s in multiset(all);
    }
  }

  lemma SoundTaskPasses(task: TaskRow, own: seq<LinkRow>, mine: seq<SessionRow>, sessions: seq<SessionRow>, links: seq<LinkRow>, e: Evidence)
    requires UniqueSessions(sessions) && AreLinksOf(links, task.id, own) && AreSessionsOf(sessions, task.id, mine)
    requires TaskSound(task, own, mine, sessions, e)
    ensures CheckTask(task, sessions, links, e).None?
  {
    forall k: nat | k < |own| ensures own[k].ordinal == k + 1 {
      assert LinkSound(task, own, sessions, e, k);
    }
    OwnAreLinksOf(links, task.id, own);
    MineAreSessionsOf(sessions, task.id, mine);
    if own != [] {
      SoundLinksPass(task, own, sessions, e);
      PathIsComplete(task, own, sessions, e);
    }
  }

  lemma SoundLinksPass(task: TaskRow, own: seq<LinkRow>, sessions: seq<SessionRow>, e: Evidence)
    requires UniqueSessions(sessions) && forall k | 0 <= k < |own| :: LinkSound(task, own, sessions, e, k)
    ensures CheckLinks(task, own, sessions, e, 0).None?
  {
    forall k: nat | k < |own| ensures CheckLink(task, own, sessions, e, k).None? {
      SoundLinkPasses(task, own, sessions, e, k);
    }
  }

  lemma PassedTaskIsSound(task: TaskRow, sessions: seq<SessionRow>, links: seq<LinkRow>, e: Evidence)
    requires CheckTask(task, sessions, links, e).None?
    ensures TaskSound(task, LinksOf(links, task.id), SessionsOf(sessions, task.id), sessions, e)
  {
    var own := LinksOf(links, task.id);
    forall k: nat | k < |own| ensures LinkSound(task, own, sessions, e, k) {
      PassedLinkIsSound(task, own, sessions, e, k);
    }
  }

  // ----- What acceptance makes certain -----

  /** The sessions of a chain in order, as its links name them. */
  function PathOf(links: seq<LinkRow>): (p: seq<Option<nat>>)
    requires links != []
    ensures |p| == |links| + 1
    ensures forall k | 0 <= k < |links| :: p[k] == links[k].source
    ensures p[|links|] == links[|links| - 1].successor
  {
    seq(|links|, k requires 0 <= k < |links| => links[k].source) + [links[|links| - 1].successor]
  }

  /** The k-th session of the path is the task's, and when it was created. */
  ghost predicate OnTask(sessions: seq<SessionRow>, task: nat, p: seq<Option<nat>>, times: seq<int>) {
    && |times| == |p|
    && forall k | 0 <= k < |p| :: Find(sessions, p[k]).Some? && Find(sessions, p[k]).value.task == task
                                 && times[k] == Find(sessions, p[k]).value.created
  }

  ghost predicate Increasing(times: seq<int>) {
    forall i, j | 0 <= i < j < |times| :: times[i] < times[j]
  }

  lemma {:induction false} StepsIncrease(times: seq<int>, i: nat, j: nat)
    requires i < j < |times| && forall k, l | 0 <= k < l < |times| && l == k + 1 :: times[k] < times[l]
    ensures times[i] < times[j]
    decreases j
  {
    if i < j - 1 {
      StepsIncrease(times, i, j - 1);
    }
  }

  lemma LinkChecked(task: TaskRow, links: seq<LinkRow>, sessions: seq<SessionRow>, e: Evidence, k: nat)
    requires k < |links| && CheckLink(task, links, sessions, e, k).None?
    ensures var source, successor := Find(sessions, links[k].source), Find(sessions, links[k].successor);
            && source.Some? && successor.Some? && source.value.task == task.id && successor.value.task == task.id
            && source.value.created < successor.value.created
            && (k > 0 ==> links[k - 1].successor == links[k].source)
  {
  }

  /** A step of the path: the link's own source and successor. */
  lemma PathStep(task: TaskRow, links: seq<LinkRow>, sessions: seq<SessionRow>, e: Evidence, k: nat, p: seq<Option<nat>>)
    requires links != [] && p == PathOf(links) && CheckLinks(task, links, sessions, e, 0).None? && k < |links|
    ensures p[k + 1] == links[k].successor
    ensures Find(sessions, p[k]).Some? && Find(sessions, p[k + 1]).Some?
    ensures Find(sessions, p[k]).value.task == task.id && Find(sessions, p[k + 1]).value.task == task.id
    ensures Find(sessions, p[k]).value.created < Find(sessions, p[k + 1]).value.created
  {
    LinkChecked(task, links, sessions, e, k);
    if k + 1 < |links| {
      LinkChecked(task, links, sessions, e, k + 1);
    }
  }

  /** Links that pass give a path of the task's own sessions, each created after the one before. */
  lemma LinksGivePath(task: TaskRow, links: seq<LinkRow>, sessions: seq<SessionRow>, e: Evidence) returns (times: seq<int>)
    requires links != [] && CheckLinks(task, links, sessions, e, 0).None?
    ensures OnTask(sessions, task.id, PathOf(links), times) && Increasing(times) && Distinct(PathOf(links))
  {
    var p, n := PathOf(links), |links|;
    forall k | 0 <= k <= n ensures Find(sessions, p[k]).Some? && Find(sessions, p[k]).value.task == task.id {
      PathStep(task, links, sessions, e, if k < n then k else n - 1, p);
    }
    times := seq(n + 1, k requires 0 <= k <= n => Find(sessions, p[k]).value.created);
    forall k, l | 0 <= k < l < |times| && l == k + 1 ensures times[k] < times[l] {
      PathStep(task, links, sessions, e, k, p);
    }
    TimesIncrease(times);
    DistinctByTime(sessions, task.id, p, times);
  }

  lemma TimesIncrease(times: seq<int>)
    requires forall k, l | 0 <= k < l < |times| && l == k + 1 :: times[k] < times[l]
    ensures Increasing(times)
  {
    forall i, j | 0 <= i < j < |times| ensures times[i] < times[j] {
      StepsIncrease(times, i, j);
    }
  }

  lemma DistinctByTime(sessions: seq<SessionRow>, task: nat, p: seq<Option<nat>>, times: seq<int>)
    requires OnTask(sessions, task, p, times) && Increasing(times)
    ensures Distinct(p)
  {
    forall i, j | 0 <= i < j < |p| ensures p[i] != p[j] {
      assert times[i] < times[j];
    }
  }

  lemma {:induction false} IdsCount(sessions: seq<SessionRow>)
    ensures |IdsOf(sessions)| <= |sessions|
  {
    if sessions != [] {
      var init, last := sessions[..|sessions| - 1], sessions[|sessions| - 1];
      IdsCount(init);
      assert sessions == init + [last];
      assert IdsOf(sessions) == IdsOf(init) + {Some(last.id)};
    }
  }

  lemma ChainIdsAreNamed(links: seq<LinkRow>)
    requires links != []
    ensures ChainIds(links) == Members(PathOf(links))
  {
    var p := PathOf(links);
    forall x ensures x in ChainIds(links) <==> x in p {
      if x in p {
        var k :| 0 <= k < |p| && p[k] == x;
        if k < |links| {
          assert links[k] in links;
        }
      }
      if l :| l in links && l.source == x {
        var k :| 0 <= k < |links| && links[k] == l;
        assert p[k] == x;
      } else if x == links[|links| - 1].successor {
        assert p[|links|] == x;
      }
    }
  }

  /** Once every link has passed and the counts agree, the path is all of the task's sessions. */
  lemma PathIsComplete(task: TaskRow, own: seq<LinkRow>, sessions: seq<SessionRow>, e: Evidence)
    requires own != [] && CheckLinks(task, own, sessions, e, 0).None? && |SessionsOf(sessions, task.id)| == |own| + 1
    ensures Distinct(PathOf(own)) && ChainIds(own) == Members(PathOf(own)) == IdsOf(SessionsOf(sessions, task.id))
  {
    var p, mine := PathOf(own), SessionsOf(sessions, task.id);
    var times := LinksGivePath(task, own, sessions, e);
    forall x | x in p ensures x in IdsOf(mine) {
      var k :| 0 <= k < |p| && p[k] == x;
      var s := Find(sessions, p[k]).value;
      assert s in mine && Some(s.id) == x;
    }
    DistinctCount(p);
    IdsCount(mine);
    SameSizeSubset(Members(p), IdsOf(mine));
    ChainIdsAreNamed(own);
  }

  /** The last set check follows from the earlier ones: it never refuses anything. */
  lemma ExtraCheckNeverFires(tasks: seq<TaskRow>, sessions: seq<SessionRow>, links: seq<LinkRow>, experiment: nat, e: Evidence)
    ensures Validate(tasks, sessions, links, experiment, e) != Some(ExtraOrCyclicSession)
  {
    forall t | t in tasks ensures CheckTask(t, sessions, links, e) != Some(ExtraOrCyclicSession) {
      NeverExtra(t, sessions, links, e);
    }
  }

  lemma NeverExtra(task: TaskRow, sessions: seq<SessionRow>, links: seq<LinkRow>, e: Evidence)
    ensures CheckTask(task, sessions, links, e) != Some(ExtraOrCyclicSession)
  {
    var own := LinksOf(links, task.id);
    if own != [] {
      if |SessionsOf(sessions, task.id)| == |own| + 1 && CheckLinks(task, own, sessions, e, 0).None? {
        PathIsComplete(task, own, sessions, e);
      } else {
        LinkCodes(task, own, sessions, e);
      }
    }
  }

  lemma LinkCodes(task: TaskRow, links: seq<LinkRow>, sessions: seq<SessionRow>, e: Evidence)
    ensures CheckLinks(task, links, sessions, e, 0) != Some(ExtraOrCyclicSession)
  {
    forall i | 0 <= i < |links| ensures CheckLink(task, links, sessions, e, i) != Some(ExtraOrCyclicSession) {
    }
  }

  lemma TaskAccepted(tasks: seq<TaskRow>, sessions: seq<SessionRow>, links: seq<LinkRow>, experiment: nat, e: Evidence, task: TaskRow)
    requires Validate(tasks, sessions, links, experiment, e).None? && task in tasks && LinksOf(links, task.id) != []
    ensures CheckLinks(task, LinksOf(links, task.id), sessions, e, 0).None?
    ensures |SessionsOf(sessions, task.id)| == |LinksOf(links, task.id)| + 1
  {
    assert CheckTask(task, sessions, links, e).None?;
    TaskChecked(task, sessions, links, e);
  }

  lemma TaskChecked(task: TaskRow, sessions: seq<SessionRow>, links: seq<LinkRow>, e: Evidence)
    requires CheckTask(task, sessions, links, e).None? && LinksOf(links, task.id) != []
    ensures CheckLinks(task, LinksOf(links, task.id), sessions, e, 0).None?
    ensures |SessionsOf(sessions, task.id)| == |LinksOf(links, task.id)| + 1
  {
  }

  /** Any chain the validator accepts is a simple path through the task's sessions, strictly ordered
      in time, that visits each of them once. */
  lemma AcceptedIsOnePath(tasks: seq<TaskRow>, sessions: seq<SessionRow>, links: seq<LinkRow>, experiment: nat, e: Evidence,
                          task: TaskRow) returns (times: seq<int>)
    requires Validate(tasks, sessions, links, experiment, e).None? && task in tasks && LinksOf(links, task.id) != []
    ensures var own := LinksOf(links, task.id);
            var p := PathOf(own);
            && OnTask(sessions, task.id, p, times) && Increasing(times) && Distinct(p)
            && Members(p) == IdsOf(SessionsOf(sessions, task.id)) && |p| == |SessionsOf(sessions, task.id)|
            && forall k, l | 0 <= k < l < |own| && l == k + 1 :: own[k].successor == own[l].source
  {
    var own := LinksOf(links, task.id);
    TaskAccepted(tasks, sessions, links, experiment, e, task);
    times := LinksGivePath(task, own, sessions, e);
    PathIsComplete(task, own, sessions, e);
    forall k, l | 0 <= k < l < |own| && l == k + 1 ensures own[k].successor == own[l].source {
      assert CheckLink(task, own, sessions, e, l).None?;
    }
  }

  // ----- Chains of the protocol -----

  function OutcomeOf(s: Chains.SessionStatus): Outcome {
    match s
    case Active => Unsettled
    case HandedOff => HandedOff
    case Completed => Completed
    case Failed => Failed
  }

  function SessionRowOf(c: Chains.Chain, id: nat): SessionRow
    requires id in c.sessions
  {
    SessionRow(id, 0, 0, id, OutcomeOf(c.sessions[id].status), id, c.sessions[id].created)
  }

  function LinkRowOf(l: Chains.Link, name: nat -> string): LinkRow
    requires l.successor.Some? && l.consumed.Some? && l.holder.Some? && l.fence.Some?
  {
    LinkRow(0, 0, l.ready.ordinal, l.status == Chains.Started, true, Some(l.ready.source), Some(l.successor.value),
            l.ready.source, l.successor.value, l.ready.source, l.ready.digest, name(l.holder.value), l.fence.value,
            l.ready.issued, l.consumed.value)
  }

  /** All links started; every session but the last handed off, and the last one ended. */
  ghost predicate SettledChain(c: Chains.Chain) {
    && c.links != [] && c.links[|c.links| - 1].status == Chains.Started
    && forall s | s in c.sessions ::
         if c.links[|c.links| - 1].successor == Some(s) then c.sessions[s].status in {Chains.Completed, Chains.Failed}
         else c.sessions[s].status == Chains.HandedOff
  }

  /** The rows of a settled chain: its sessions, its links and its task. */
  ghost predicate RowsOf(c: Chains.Chain, name: nat -> string, task: TaskRow, sessions: seq<SessionRow>, links: seq<LinkRow>) {
    && |sessions| == |Chains.Path(c.links)|
    && (forall i | 0 <= i < |sessions| :: Chains.Path(c.links)[i] in c.sessions && sessions[i] == SessionRowOf(c, Chains.Path(c.links)[i]))
    && |links| == |c.links|
    && (forall i | 0 <= i < |links| ::
          var l := c.links[i];
          l.successor.Some? && l.consumed.Some? && l.holder.Some? && l.fence.Some? && links[i] == LinkRowOf(l, name))
    && task == TaskRow(0, 0, true, false, c.count, true,
                       if c.consumed.None? then None
                       else var t := c.consumed.value;
                            Some(Latest(t.ready.ordinal, t.ready.source, t.ready.digest, name(t.holder), t.fence, t.consumed)))
  }

  lemma {:induction false} AllOfTask(sessions: seq<SessionRow>, task: nat)
    requires forall i | 0 <= i < |sessions| :: sessions[i].task == task
    ensures SessionsOf(sessions, task) == sessions
  {
    if sessions != [] {
      AllOfTask(sessions[1..], task);
    }
  }

  lemma {:induction false} AlreadySorted(links: seq<LinkRow>, task: nat)
    requires forall i | 0 <= i < |links| :: links[i].task == task
    requires forall i, j | 0 <= i < j < |links| :: links[i].ordinal < links[j].ordinal
    ensures LinksOf(links, task) == links
  {
    if links != [] {
      AlreadySorted(links[1..], task);
    }
  }

  lemma {:induction false} FindAt(sessions: seq<SessionRow>, i: nat)
    requires i < |sessions| && UniqueSessions(sessions)
    ensures Find(sessions, Some(sessions[i].id)) == Some(sessions[i])
  {
    if i > 0 {
      assert sessions[0].id != sessions[i].id;
      FindAt(sessions[1..], i - 1);
    }
  }

  /** Rows of one task, all in scope: only the task's own checks are left. */
  lemma InScope(task: TaskRow, sessions: seq<SessionRow>, links: seq<LinkRow>)
    requires task.experiment == 0 && task.id == 0 && UniqueSessions(sessions)
    requires forall i | 0 <= i < |sessions| ::
               var s := sessions[i]; s.experiment == 0 && s.task == 0 && s.status != Unsettled && s.native == s.id
    requires forall i | 0 <= i < |links| :: links[i].experiment == 0 && links[i].task == 0
    ensures CheckRows([task], sessions, links, 0).None?
  {
    assert task in [task];
    assert Known([task], 0);
  }

  /** Every settled chain the protocol builds passes, whatever run built it, when its checkpoints do. */
  lemma SettledChainsAreAccepted(run: seq<Chains.Chain>, steps: seq<Chains.Step>, k: nat, name: nat -> string,
                                 task: TaskRow, sessions: seq<SessionRow>, links: seq<LinkRow>, e: Evidence)
    requires Chains.IsRun(run, steps) && k < |run| && SettledChain(run[k])
    requires RowsOf(run[k], name, task, sessions, links) && forall h :: name(h) != ""
    requires (forall s :: e.session(s)) && (forall l :: e.link(l))
    ensures Validate([task], sessions, links, 0, e) == None
  {
    var c := run[k];
    Chains.RunKeepsInv(run, steps, k);
    RowsInScope(c, name, task, sessions, links);
    InScope(task, sessions, links);
    TaskPasses(c, name, task, sessions, links, e);
  }

  lemma RowsInScope(c: Chains.Chain, name: nat -> string, task: TaskRow, sessions: seq<SessionRow>, links: seq<LinkRow>)
    requires Chains.Inv(c) && SettledChain(c) && RowsOf(c, name, task, sessions, links)
    ensures UniqueSessions(sessions)
    ensures forall i | 0 <= i < |sessions| ::
              var s := sessions[i]; s.experiment == 0 && s.task == 0 && s.status != Unsettled && s.native == s.id
    ensures forall i | 0 <= i < |links| :: links[i].experiment == 0 && links[i].task == 0 && links[i].ordinal == i + 1
  {
  }

  lemma TaskPasses(c: Chains.Chain, name: nat -> string, task: TaskRow, sessions: seq<SessionRow>, links: seq<LinkRow>, e: Evidence)
    requires Chains.Inv(c) && SettledChain(c) && RowsOf(c, name, task, sessions, links) && forall h :: name(h) != ""
    requires (forall s :: e.session(s)) && (forall l :: e.link(l))
    ensures CheckTask(task, sessions, links, e) == None
  {
    RowsInScope(c, name, task, sessions, links);
    SessionsAndLinks(c, name, task, sessions, links);
    forall i | 0 <= i < |links| ensures CheckLink(task, links, sessions, e, i).None? {
      BuiltLinkPasses(c, name, task, sessions, links, e, i);
    }
    RowsPass(task, sessions, links, e);
  }

  lemma RowsPass(task: TaskRow, sessions: seq<SessionRow>, links: seq<LinkRow>, e: Evidence)
    requires task.id == 0 && task.settled && !task.ready && task.count == |links| && links != [] && |sessions| == |links| + 1
    requires forall i | 0 <= i < |sessions| :: sessions[i].task == 0
    requires forall i | 0 <= i < |links| :: links[i].task == 0 && links[i].ordinal == i + 1
    requires CheckLinks(task, links, sessions, e, 0).None? && LatestAgrees(task.latest, links[|links| - 1])
    ensures CheckTask(task, sessions, links, e) == None
  {
    AllOfTask(sessions, 0);
    AlreadySorted(links, 0);
    PathIsComplete(task, links, sessions, e);
  }

  lemma SessionsAndLinks(c: Chains.Chain, name: nat -> string, task: TaskRow, sessions: seq<SessionRow>, links: seq<LinkRow>)
    requires Chains.Inv(c) && SettledChain(c) && RowsOf(c, name, task, sessions, links)
    ensures links != [] && |sessions| == |links| + 1 && task.id == 0 && task.settled && !task.ready && task.count == |links|
    ensures LatestAgrees(task.latest, links[|links| - 1])
  {
    Chains.SourceOnPath(c.links, 0);
  }

  /** What a link of a built chain names. */
  lemma BuiltLink(c: Chains.Chain, name: nat -> string, task: TaskRow, sessions: seq<SessionRow>, links: seq<LinkRow>, i: nat)
    requires Chains.Inv(c) && SettledChain(c) && RowsOf(c, name, task, sessions, links) && i < |links|
    ensures i + 1 < |sessions| && links[i].started && links[i].scoped && links[i].fence > 0
    ensures links[i].source == Some(sessions[i].id) && links[i].successor == Some(sessions[i + 1].id)
    ensures links[i].sourceNative == sessions[i].native && links[i].successorNative == sessions[i + 1].native
    ensures links[i].sourceCheckpoint == sessions[i].checkpoint
    ensures sessions[i].created < links[i].issued <= links[i].consumed < sessions[i + 1].created
  {
    Chains.SourceOnPath(c.links, i);
  }

  lemma BuiltStatus(c: Chains.Chain, name: nat -> string, task: TaskRow, sessions: seq<SessionRow>, links: seq<LinkRow>, i: nat)
    requires Chains.Linked(c.links) && Distinct(Chains.Path(c.links)) && SettledChain(c)
    requires RowsOf(c, name, task, sessions, links) && i <= |links|
    ensures |sessions| == |links| + 1
    ensures if i < |links| then sessions[i].status == HandedOff else sessions[i].status in {Completed, Failed}
  {
    Chains.SourceOnPath(c.links, |links| - 1);
    SessionStatus(c, Chains.Path(c.links), i);
  }

  lemma SessionStatus(c: Chains.Chain, path: seq<nat>, i: nat)
    requires SettledChain(c) && Distinct(path) && |path| == |c.links| + 1 && i <= |c.links| && path[i] in c.sessions
    requires c.links[|c.links| - 1].successor == Some(path[|c.links|])
    ensures if i < |c.links| then c.sessions[path[i]].status == Chains.HandedOff
            else c.sessions[path[i]].status in {Chains.Completed, Chains.Failed}
  {
    assert i < |c.links| ==> path[i] != path[|c.links|];
  }

  lemma BuiltLinkPasses(c: Chains.Chain, name: nat -> string, task: TaskRow, sessions: seq<SessionRow>, links: seq<LinkRow>,
                        e: Evidence, i: nat)
    requires Chains.Inv(c) && SettledChain(c) && RowsOf(c, name, task, sessions, links) && forall h :: name(h) != ""
    requires (forall s :: e.session(s)) && (forall l :: e.link(l)) && UniqueSessions(sessions) && i < |links|
    ensures CheckLink(task, links, sessions, e, i).None?
  {
    BuiltLink(c, name, task, sessions, links, i);
    BuiltStatus(c, name, task, sessions, links, i);
    BuiltStatus(c, name, task, sessions, links, i + 1);
    if i > 0 {
      BuiltLink(c, name, task, sessions, links, i - 1);
    }
    FindAt(sessions, i);
    FindAt(sessions, i + 1);
    RowsInScope(c, name, task, sessions, links);
    assert links[i].holder != "" by { assert links[i] == LinkRowOf(c.links[i], name); }
    LinkPasses(task, links, sessions, e, i, sessions[i], sessions[i + 1]);
  }

  lemma LinkPasses(task: TaskRow, links: seq<LinkRow>, sessions: seq<SessionRow>, e: Evidence, i: nat,
                   source: SessionRow, successor: SessionRow)
    requires i < |links| && links[i].started && links[i].scoped && links[i].fence > 0 && links[i].holder != ""
    requires Find(sessions, links[i].source) == Some(source) && Find(sessions, links[i].successor) == Some(successor)
    requires source.task == successor.task == task.id && source.id != successor.id && source.status == HandedOff
    requires links[i].sourceNative == source.native && links[i].successorNative == successor.native
    requires links[i].sourceCheckpoint == source.checkpoint
    requires i > 0 ==> links[i - 1].successor == Some(source.id)
    requires if i < |links| - 1 then successor.status == HandedOff else successor.status in {Completed, Failed}
    requires source.created < links[i].issued <= links[i].consumed < successor.created
    requires e.session(source) && e.session(successor) && e.link(links[i])
    ensures CheckLink(task, links, sessions, e, i).None?
  {
  }
}
