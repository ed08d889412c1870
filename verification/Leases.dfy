/** Task leases: fencing tokens, renewal, completion and joined children. */
module Leases {
  import opened Basics
  import Chains

  datatype Status = Queued | Running | Completed | Failed | Blocked

  /** A delegated task; `parent` is the task that waits for it, none when it is detached. Tasks are
      numbered in creation order. */
  datatype Task = Task(status: Status, deps: seq<nat>, parent: Option<nat>)

  datatype Lease = Lease(holder: nat, fence: nat, expires: int)

  datatype Tables = Tables(now: int, tasks: seq<Task>, leases: map<nat, Lease>)

  /** What a worker shows: its task, its name and the fence it was given. */
  datatype Token = Token(task: nat, holder: nat, fence: nat)

  /** `HandBack` is the live holder's own continuation or second try; `Requeue` a continuation restored,
      or issued from an expired lease, whatever the task's status; `Block` retires a queued task or
      gives up on dispatching it. `allowed` says whether a command passes the checks that read other tables: the experiment is
      active, the caller's branch or worker slot has the authority, the holder is named, the cleaned
      workspace and the outcome's evidence are in place, the continuation's own guard holds. */
  datatype Step =
    | Tick(seconds: nat)
    | Create(deps: seq<nat>, under: Option<Token>, detached: bool, allowed: bool)
    | Acquire(task: nat, holder: nat, ttl: int, allowed: bool)
    | Renew(token: Token, ttl: int, allowed: bool)
    | CleanupRenew(token: Token, ttl: int, allowed: bool)
    | Finish(token: Token, outcome: Status, allowed: bool)
    | HandBack(token: Token, allowed: bool)
    | Requeue(token: Token, allowed: bool)
    | Block(task: nat, allowed: bool)

  predicate IsTerminal(s: Status) {
    s == Completed || s == Failed || s == Blocked
  }

  /** The worker's token is the task's current lease, and it is live. */
  predicate Holds(s: Tables, token: Token) {
    && token.task in s.leases && s.leases[token.task].holder == token.holder
    && s.leases[token.task].fence == token.fence && s.leases[token.task].expires > s.now
  }

  /** The worker's token is the task's current lease, and it is over. */
  predicate Held(s: Tables, token: Token) {
    && token.task in s.leases && s.leases[token.task].holder == token.holder
    && s.leases[token.task].fence == token.fence && s.leases[token.task].expires <= s.now
  }

  predicate IsLive(s: Tables, t: nat) {
    t in s.leases && s.leases[t].expires > s.now
  }

  predicate DepsCompleted(tasks: seq<Task>, deps: seq<nat>) {
    forall d | d in deps :: d < |tasks| && tasks[d].status == Completed
  }

  predicate Joined(tasks: seq<Task>, child: nat, parent: nat) {
    child < |tasks| && tasks[child].parent == Some(parent)
  }

  predicate ChildrenSettled(tasks: seq<Task>, parent: nat) {
    forall c | 0 <= c < |tasks| && Joined(tasks, c, parent) :: IsTerminal(tasks[c].status)
  }

  /** Parents are created first. */
  ghost predicate ParentsFirst(tasks: seq<Task>) {
    forall i | 0 <= i < |tasks| && tasks[i].parent.Some? :: tasks[i].parent.value < i
  }

  /** `a` is the task itself or one that waits for it, however far up. */
  predicate AtOrAbove(tasks: seq<Task>, a: nat, t: nat)
    decreases t
  {
    t < |tasks| && (a == t || (tasks[t].parent.Some? && tasks[t].parent.value < t && AtOrAbove(tasks, a, tasks[t].parent.value)))
  }

  /** A task, the one that waits for it, the one that waits for that, and so on up. */
  ghost predicate IsLineage(tasks: seq<Task>, w: seq<nat>, t: nat) {
    && |w| > 0 && w[0] == t && (forall i | 0 <= i < |w| :: w[i] < |tasks|)
    && forall i, j | 0 <= i < j < |w| && j == i + 1 :: tasks[w[i]].parent == Some(w[j])
  }

  lemma {:induction false} LineageTo(tasks: seq<Task>, a: nat, t: nat) returns (w: seq<nat>)
    requires AtOrAbove(tasks, a, t)
    ensures IsLineage(tasks, w, t) && w[|w| - 1] == a
    decreases t
  {
    if a == t {
      w := [t];
    } else {
      w := LineageTo(tasks, a, tasks[t].parent.value);
      w := [t] + w;
    }
  }

  lemma {:induction false} LineageAbove(tasks: seq<Task>, w: seq<nat>, t: nat)
    requires ParentsFirst(tasks) && IsLineage(tasks, w, t)
    ensures AtOrAbove(tasks, w[|w| - 1], t)
    decreases |w|
  {
    if |w| > 1 {
      assert tasks[w[0]].parent == Some(w[1]);
      LineageAbove(tasks, w[1..], w[1]);
    }
  }

  /** None of these is a task waited for, seen step by step or by the whole line up. */
  lemma LineageIsAbove(tasks: seq<Task>, ids: seq<nat>, t: nat)
    requires ParentsFirst(tasks)
    ensures (forall d | d in ids :: !AtOrAbove(tasks, d, t)) <==> forall w | IsLineage(tasks, w, t) :: w[|w| - 1] !in ids
  {
    forall d | d in ids && AtOrAbove(tasks, d, t) ensures exists w :: IsLineage(tasks, w, t) && w[|w| - 1] == d {
      var w := LineageTo(tasks, d, t);
    }
    forall w | IsLineage(tasks, w, t) ensures AtOrAbove(tasks, w[|w| - 1], t) {
      LineageAbove(tasks, w, t);
    }
  }

  predicate CanCreate(s: Tables, deps: seq<nat>, under: Option<Token>, detached: bool) {
    && Distinct(deps) && (forall d | d in deps :: d < |s.tasks|)
    && (under.Some? ==> under.value.task < |s.tasks| && Holds(s, under.value))
    && (under.None? ==> !detached)
    && (under.Some? && !detached ==> forall d | d in deps :: !AtOrAbove(s.tasks, d, under.value.task))
  }

  predicate ValidDuration(ttl: int) {
    1 <= ttl <= 300
  }

  predicate Accepted(s: Tables, step: Step) {
    match step
    case Tick(_) => true
    case Create(deps, under, detached, allowed) => allowed && CanCreate(s, deps, under, detached)
    case Acquire(t, holder, ttl, allowed) =>
      && allowed && ValidDuration(ttl) && t < |s.tasks| && s.tasks[t].status in {Queued, Running}
      && DepsCompleted(s.tasks, s.tasks[t].deps) && !IsLive(s, t)
    case Renew(token, ttl, allowed) => allowed && ValidDuration(ttl) && token.task < |s.tasks| && Holds(s, token)
    case CleanupRenew(token, ttl, allowed) => allowed && ValidDuration(ttl) && token.task < |s.tasks| && Holds(s, token)
    case Finish(token, outcome, allowed) =>
      && allowed && IsTerminal(outcome) && token.task < |s.tasks| && Holds(s, token)
      && (outcome == Completed ==> ChildrenSettled(s.tasks, token.task))
    case HandBack(token, allowed) => allowed && token.task < |s.tasks| && Holds(s, token)
    case Requeue(token, allowed) => allowed && token.task < |s.tasks| && Held(s, token)
    case Block(t, allowed) => allowed && t < |s.tasks| && s.tasks[t].status == Queued && !IsLive(s, t)
  }

  function Later(a: int, b: int): int {
    if a < b then b else a
  }

  /** A refused step changes nothing. */
  function Next(s: Tables, step: Step): Tables {
    if !Accepted(s, step) then s
    else
      match step
      case Tick(seconds) => s.(now := s.now + seconds)
      case Create(deps, under, detached, _) =>
        var parent := if under.Some? && !detached then Some(under.value.task) else None;
        s.(tasks := s.tasks + [Task(Queued, deps, parent)])
      case Acquire(t, holder, ttl, _) =>
        var fence := if t in s.leases then s.leases[t].fence + 1 else 1;
        s.(tasks := s.tasks[t := s.tasks[t].(status := Running)],
           leases := s.leases[t := Lease(holder, fence, s.now + ttl)])
      case Renew(token, ttl, _) =>
        s.(leases := s.leases[token.task := s.leases[token.task].(expires := s.now + ttl)])
      case CleanupRenew(token, ttl, _) =>
        s.(leases := s.leases[token.task := s.leases[token.task].(expires := Later(s.leases[token.task].expires, s.now + ttl))])
      case Finish(token, outcome, _) =>
        s.(tasks := s.tasks[token.task := s.tasks[token.task].(status := outcome)],
           leases := s.leases[token.task := s.leases[token.task].(expires := 0)])
      case HandBack(token, _) => BackInQueue(s, token.task)
      case Requeue(token, _) => BackInQueue(s, token.task)
      case Block(t, _) => s.(tasks := s.tasks[t := s.tasks[t].(status := Blocked)])
  }

  /** One task back in the queue, its lease over. */
  function BackInQueue(s: Tables, t: nat): Tables
    requires t < |s.tasks| && t in s.leases
  {
    s.(tasks := s.tasks[t := s.tasks[t].(status := Queued)], leases := s.leases[t := s.leases[t].(expires := 0)])
  }

  // ----- What every step keeps -----

  /** A live lease is a running task's, and a running task has a lease; no joined task depends
      directly on one that waits for it. */
  ghost predicate Inv(s: Tables) {
    && s.now >= 0 && ParentsFirst(s.tasks)
    && (forall t | t in s.leases :: t < |s.tasks| && s.leases[t].fence >= 1)
    && (forall t: nat | t < |s.tasks| && IsLive(s, t) :: s.tasks[t].status == Running)
    && (forall t: nat | t < |s.tasks| && s.tasks[t].status == Running :: t in s.leases)
    && (forall t: nat | t < |s.tasks| :: NoAncestor(s.tasks, t))
  }

  /** No joined task depends directly on a task that waits for it. */
  ghost predicate NoAncestor(tasks: seq<Task>, t: nat) {
    t < |tasks| && (forall d | d in tasks[t].deps :: d < t) &&
    (tasks[t].parent.Some? ==> forall d | d in tasks[t].deps :: !AtOrAbove(tasks, d, tasks[t].parent.value))
  }

  /** What a step may do to the rows: tasks keep their place, their parent and their prerequisites. */
  ghost predicate Keeps(before: seq<Task>, after: seq<Task>) {
    && |before| <= |after|
    && forall t | 0 <= t < |before| :: after[t].deps == before[t].deps && after[t].parent == before[t].parent
  }

  lemma {:induction false} AboveKept(before: seq<Task>, after: seq<Task>, a: nat, t: nat)
    requires Keeps(before, after) && t < |before|
    ensures AtOrAbove(before, a, t) <==> AtOrAbove(after, a, t)
    decreases t
  {
    if before[t].parent.Some? && before[t].parent.value < t {
      AboveKept(before, after, a, before[t].parent.value);
    }
  }

  lemma NoAncestorKept(before: seq<Task>, after: seq<Task>, t: nat)
    requires Keeps(before, after) && ParentsFirst(before) && NoAncestor(before, t)
    ensures NoAncestor(after, t)
  {
    if before[t].parent.Some? {
      forall d | d in after[t].deps ensures !AtOrAbove(after, d, after[t].parent.value) {
        AboveKept(before, after, d, before[t].parent.value);
      }
    }
  }

  lemma StepKeepsTasks(s: Tables, step: Step)
    ensures Keeps(s.tasks, Next(s, step).tasks)
  {
  }

  lemma CreateKeeps(s: Tables, deps: seq<nat>, under: Option<Token>, detached: bool)
    requires Inv(s) && CanCreate(s, deps, under, detached)
    ensures Inv(Next(s, Create(deps, under, detached, true)))
  {
    var s' := Next(s, Create(deps, under, detached, true));
    var n := |s.tasks|;
    forall t: nat | t < n ensures NoAncestor(s'.tasks, t) {
      NoAncestorKept(s.tasks, s'.tasks, t);
    }
    if s'.tasks[n].parent.Some? {
      forall d | d in deps ensures !AtOrAbove(s'.tasks, d, under.value.task) {
        AboveKept(s.tasks, s'.tasks, d, under.value.task);
      }
    }
  }

  /** A task's own move keeps the invariant when only a running task's lease is left live. */
  lemma MoveKeeps(s: Tables, t: nat, status: Status, lease: Lease)
    requires Inv(s) && t < |s.tasks| && lease.fence >= 1
    requires lease.expires > s.now ==> status == Running
    ensures Inv(s.(tasks := s.tasks[t := s.tasks[t].(status := status)], leases := s.leases[t := lease]))
  {
    StatusKeeps(s.tasks, t, s.tasks[t := s.tasks[t].(status := status)]);
  }

  lemma StatusKeeps(tasks: seq<Task>, t: nat, tasks': seq<Task>)
    requires ParentsFirst(tasks) && t < |tasks| && forall u: nat | u < |tasks| :: NoAncestor(tasks, u)
    requires |tasks'| == |tasks| && tasks' == tasks[t := tasks[t].(status := tasks'[t].status)]
    ensures forall u: nat | u < |tasks'| :: NoAncestor(tasks', u)
  {
    forall u: nat | u < |tasks| ensures NoAncestor(tasks', u) {
      NoAncestorKept(tasks, tasks', u);
    }
  }

  lemma RenewKeeps(s: Tables, t: nat, lease: Lease)
    requires Inv(s) && t < |s.tasks| && s.tasks[t].status == Running && lease.fence >= 1
    ensures Inv(s.(leases := s.leases[t := lease]))
  {
  }

  lemma StepKeepsInv(s: Tables, step: Step)
    requires Inv(s)
    ensures Inv(Next(s, step))
  {
    if Accepted(s, step) {
      match step
      case Tick(_) =>
      case Create(deps, under, detached, _) => CreateKeeps(s, deps, under, detached);
      case Acquire(t, _, _, _) => MoveKeeps(s, t, Running, Next(s, step).leases[t]);
      case Renew(token, _, _) => RenewKeeps(s, token.task, Next(s, step).leases[token.task]);
      case CleanupRenew(token, _, _) => RenewKeeps(s, token.task, Next(s, step).leases[token.task]);
      case Finish(token, outcome, _) => MoveKeeps(s, token.task, outcome, Next(s, step).leases[token.task]);
      case HandBack(token, _) => MoveKeeps(s, token.task, Queued, Next(s, step).leases[token.task]);
      case Requeue(token, _) => MoveKeeps(s, token.task, Queued, Next(s, step).leases[token.task]);
      case Block(t, _) => StatusKeeps(s.tasks, t, Next(s, step).tasks);
    }
  }

  // ----- Whole runs -----

  ghost predicate IsRun(run: seq<Tables>, steps: seq<Step>) {
    && |run| == |steps| + 1 && Inv(run[0])
    && forall i, j | 0 <= i < |steps| && j == i + 1 :: run[j] == Next(run[i], steps[i])
  }

  lemma {:induction false} RunKeepsInv(run: seq<Tables>, steps: seq<Step>, i: nat)
    requires IsRun(run, steps) && i < |run|
    ensures Inv(run[i])
  {
    if i > 0 {
      RunKeepsInv(run, steps, i - 1);
      StepKeepsInv(run[i - 1], steps[i - 1]);
    }
  }

  /** A task's lease is replaced only by a higher fence, and keeps its holder until then. */
  ghost predicate LeaseGrows(before: Tables, after: Tables, t: nat) {
    && before.now <= after.now
    && (t in before.leases ==>
          && t in after.leases && before.leases[t].fence <= after.leases[t].fence
          && (before.leases[t].fence == after.leases[t].fence ==> before.leases[t].holder == after.leases[t].holder))
  }

  lemma StepGrows(s: Tables, step: Step, t: nat)
    ensures LeaseGrows(s, Next(s, step), t)
  {
  }

  /** Fences never fall along a run, and each belongs to one holder. */
  lemma {:induction false} FencesNeverFall(run: seq<Tables>, steps: seq<Step>, i: nat, j: nat, t: nat)
    requires IsRun(run, steps) && i <= j < |run|
    ensures LeaseGrows(run[i], run[j], t)
    decreases j
  {
    if i < j {
      FencesNeverFall(run, steps, i, j - 1, t);
      StepGrows(run[j - 1], steps[j - 1], t);
    }
  }

  /** An accepted acquisition issues a fence higher than every one the task had before. */
  lemma AcquireIssuesNewFence(run: seq<Tables>, steps: seq<Step>, i: nat, j: nat, t: nat)
    requires IsRun(run, steps) && i <= j < |steps|
    requires steps[j].Acquire? && steps[j].task == t && Accepted(run[j], steps[j])
    ensures t in run[j + 1].leases && Holds(run[j + 1], Token(t, steps[j].holder, run[j + 1].leases[t].fence))
    ensures t in run[i].leases ==> run[i].leases[t].fence < run[j + 1].leases[t].fence
  {
    FencesNeverFall(run, steps, i, j, t);
  }

  predicate IsFenced(step: Step) {
    step.Renew? || step.CleanupRenew? || step.Finish? || step.HandBack? || (step.Create? && step.under.Some?)
  }

  function TokenOf(step: Step): Token
    requires IsFenced(step) || step.Requeue?
  {
    if step.Create? then step.under.value else step.token
  }

  /** A step that shows a token: a fenced one, or a continuation from a lease that is over. */
  predicate ShowsToken(step: Step) {
    IsFenced(step) || step.Requeue?
  }

  /** Every accepted fenced step carries the newest fence its task has ever had, live; and a continuation
      from a lease that is over the newest one too ... */
  lemma AcceptedIsNewest(run: seq<Tables>, steps: seq<Step>, i: nat, j: nat)
    requires IsRun(run, steps) && i <= j < |steps| && ShowsToken(steps[j]) && Accepted(run[j], steps[j])
    ensures var token := TokenOf(steps[j]);
            && token.task in run[j].leases && run[j].leases[token.task] == Lease(token.holder, token.fence, run[j].leases[token.task].expires)
            && (run[j].leases[token.task].expires > run[j].now <==> IsFenced(steps[j]))
            && (token.task in run[i].leases ==> run[i].leases[token.task].fence <= token.fence)
  {
    FencesNeverFall(run, steps, i, j, TokenOf(steps[j]).task);
  }

  /** ... so once a newer one is issued, nothing its old holder sends is accepted again. */
  lemma StaleTokenRefused(run: seq<Tables>, steps: seq<Step>, i: nat, j: nat)
    requires IsRun(run, steps) && i <= j < |steps| && ShowsToken(steps[j])
    requires var token := TokenOf(steps[j]); token.task in run[i].leases && token.fence < run[i].leases[token.task].fence
    ensures !Accepted(run[j], steps[j]) && run[j + 1] == run[j]
  {
    FencesNeverFall(run, steps, i, j, TokenOf(steps[j]).task);
  }

  /** A live lease changes hands only after it expired: between two holders lies an acquisition at
      which the first was no longer live. */
  lemma {:induction false} ChangesHandsOnlyExpired(run: seq<Tables>, steps: seq<Step>, i: nat, j: nat, t: nat) returns (k: nat)
    requires IsRun(run, steps) && i <= j < |run| && t in run[i].leases && t in run[j].leases
    requires run[i].leases[t].fence < run[j].leases[t].fence
    ensures i <= k < j && steps[k].Acquire? && steps[k].task == t && Accepted(run[k], steps[k])
    ensures t in run[k].leases && run[k].leases[t].fence == run[i].leases[t].fence && !IsLive(run[k], t)
    decreases j
  {
    FencesNeverFall(run, steps, i, j - 1, t);
    if run[j - 1].leases[t].fence == run[i].leases[t].fence {
      k := j - 1;
    } else {
      k := ChangesHandsOnlyExpired(run, steps, i, j - 1, t);
    }
  }

  /** No two workers hold one task at once, at any point of any run. */
  lemma OneLiveHolder(run: seq<Tables>, steps: seq<Step>, i: nat, j: nat, a: Token, b: Token)
    requires IsRun(run, steps) && i <= j < |run| && a.task == b.task
    requires Holds(run[i], a) && Holds(run[j], b)
    ensures a.fence <= b.fence && (a.fence == b.fence ==> a == b) && (a.fence < b.fence ==> !Holds(run[j], a))
  {
    FencesNeverFall(run, steps, i, j, a.task);
  }

  // ----- What a task queued again undoes -----

  /** The step queues the task again from a lease that is over, whatever its status. */
  predicate Requeues(s: Tables, step: Step, t: nat) {
    step.Requeue? && step.token.task == t && Accepted(s, step)
  }

  lemma OutcomeStep(s: Tables, step: Step, t: nat)
    requires Inv(s) && t < |s.tasks| && IsTerminal(s.tasks[t].status)
    ensures t < |Next(s, step).tasks|
    ensures Next(s, step).tasks[t].status == if Requeues(s, step, t) then Queued else s.tasks[t].status
  {
  }

  ghost predicate HasStatus(s: Tables, t: nat, status: Status) {
    t < |s.tasks| && s.tasks[t].status == status
  }

  /** On every run, a finished outcome stays exactly as long as the task is not queued again. */
  lemma {:induction false} OutcomesAreFinal(run: seq<Tables>, steps: seq<Step>, i: nat, j: nat, t: nat, outcome: Status)
    requires IsRun(run, steps) && i <= j < |run| && HasStatus(run[i], t, outcome) && IsTerminal(outcome)
    ensures (forall k | i <= k <= j :: HasStatus(run[k], t, outcome)) <==> forall k | i <= k < j :: !Requeues(run[k], steps[k], t)
    decreases j
  {
    if i < j {
      var m := j - 1;
      OutcomesAreFinal(run, steps, i, m, t, outcome);
      RunKeepsInv(run, steps, m);
      assert run[m + 1] == Next(run[m], steps[m]);
      if HasStatus(run[m], t, outcome) {
        OutcomeStep(run[m], steps[m], t);
      } else {
        assert exists k :: i <= k < m && Requeues(run[k], steps[k], t);
      }
    }
  }

  /** The step queues a joined child of the task again. */
  predicate RequeuesChild(s: Tables, step: Step, t: nat) {
    step.Requeue? && Requeues(s, step, step.token.task) && Joined(s.tasks, step.token.task, t)
  }

  lemma ChildrenStep(s: Tables, step: Step, t: nat)
    requires Inv(s) && HasStatus(s, t, Completed) && HasStatus(Next(s, step), t, Completed) && ChildrenSettled(s.tasks, t)
    ensures ChildrenSettled(Next(s, step).tasks, t) <==> !RequeuesChild(s, step, t)
  {
    var s' := Next(s, step);
    if RequeuesChild(s, step, t) {
      assert Joined(s'.tasks, step.token.task, t) && s'.tasks[step.token.task].status == Queued;
    } else {
      forall c | 0 <= c < |s'.tasks| && Joined(s'.tasks, c, t) ensures IsTerminal(s'.tasks[c].status) {
        if c < |s.tasks| {
          StepKeepsTasks(s, step);
          assert Joined(s.tasks, c, t);
          OutcomeStep(s, step, c);
        } else {
          assert IsLive(s, t);
        }
      }
    }
  }

  ghost predicate Settled(s: Tables, t: nat) {
    HasStatus(s, t, Completed) && ChildrenSettled(s.tasks, t)
  }

  lemma {:induction false} ChildrenStaySettled(run: seq<Tables>, steps: seq<Step>, i: nat, j: nat, t: nat)
    requires IsRun(run, steps) && i <= j < |run| && Settled(run[i], t)
    requires forall k | i <= k <= j :: HasStatus(run[k], t, Completed)
    ensures (forall k | i <= k <= j :: Settled(run[k], t)) <==> forall k | i <= k < j :: !RequeuesChild(run[k], steps[k], t)
    decreases j
  {
    if i < j {
      var m := j - 1;
      ChildrenStaySettled(run, steps, i, m, t);
      RunKeepsInv(run, steps, m);
      assert run[m + 1] == Next(run[m], steps[m]);
      if Settled(run[m], t) {
        ChildrenStep(run[m], steps[m], t);
      } else {
        assert exists k :: i <= k < m && RequeuesChild(run[k], steps[k], t);
      }
    }
  }

  /** A task completes only with its joined children settled; and while it stays completed they stay
      settled exactly as long as none of them is queued again. */
  lemma JoinedWorkIsSettled(run: seq<Tables>, steps: seq<Step>, i: nat, j: nat, t: nat)
    requires IsRun(run, steps) && i < j < |run|
    requires steps[i].Finish? && steps[i].token.task == t && steps[i].outcome == Completed && Accepted(run[i], steps[i])
    requires forall k | i < k <= j :: HasStatus(run[k], t, Completed)
    ensures Settled(run[i + 1], t)
    ensures (forall k | i < k <= j :: Settled(run[k], t)) <==> forall k | i < k < j :: !RequeuesChild(run[k], steps[k], t)
  {
    assert run[i + 1] == Next(run[i], steps[i]);
    CompletionSettles(run[i], steps[i]);
    ChildrenStaySettled(run, steps, i + 1, j, t);
  }

  lemma CompletionSettles(s: Tables, step: Step)
    requires step.Finish? && step.outcome == Completed && Accepted(s, step)
    ensures Settled(Next(s, step), step.token.task)
  {
    var s', t := Next(s, step), step.token.task;
    forall c | 0 <= c < |s'.tasks| && Joined(s'.tasks, c, t) ensures IsTerminal(s'.tasks[c].status) {
      assert Joined(s.tasks, c, t);
    }
  }

  /** The step queues a prerequisite of the task again. */
  predicate RequeuesDep(s: Tables, step: Step, t: nat) {
    step.Requeue? && Requeues(s, step, step.token.task) && t < |s.tasks| && step.token.task in s.tasks[t].deps
  }

  predicate Ready(s: Tables, t: nat) {
    t < |s.tasks| && DepsCompleted(s.tasks, s.tasks[t].deps)
  }

  lemma ReadyStep(s: Tables, step: Step, t: nat)
    requires Inv(s) && Ready(s, t)
    ensures Ready(Next(s, step), t) <==> !RequeuesDep(s, step, t)
  {
    StepKeepsTasks(s, step);
    forall d | d in s.tasks[t].deps
      ensures d < |Next(s, step).tasks|
      ensures Next(s, step).tasks[d].status == if Requeues(s, step, d) then Queued else Completed
    {
      OutcomeStep(s, step, d);
    }
  }

  /** A task is only ever acquired with its prerequisites completed, and they stay so exactly as long
      as none of them is queued again. */
  lemma {:induction false} PrerequisitesStayCompleted(run: seq<Tables>, steps: seq<Step>, i: nat, j: nat, t: nat)
    requires IsRun(run, steps) && i < j < |run|
    requires steps[i].Acquire? && steps[i].task == t && Accepted(run[i], steps[i])
    ensures Ready(run[i + 1], t)
    ensures (forall k | i < k <= j :: Ready(run[k], t)) <==> forall k | i < k < j :: !RequeuesDep(run[k], steps[k], t)
    decreases j
  {
    var m := j - 1;
    RunKeepsInv(run, steps, m);
    assert run[m + 1] == Next(run[m], steps[m]);
    if i == m {
      ReadyStep(run[i], steps[i], t);
    } else {
      PrerequisitesStayCompleted(run, steps, i, m, t);
      if Ready(run[m], t) {
        ReadyStep(run[m], steps[m], t);
      } else {
        assert exists k :: i < k < m && RequeuesDep(run[k], steps[k], t);
      }
    }
  }

  /** Along every run, no joined task depends directly on one that waits for it. */
  lemma JoinedDependsOnNoAncestor(run: seq<Tables>, steps: seq<Step>, i: nat, t: nat)
    requires IsRun(run, steps) && i < |run| && t < |run[i].tasks|
    ensures NoAncestor(run[i].tasks, t)
  {
    RunKeepsInv(run, steps, i);
  }

  // ----- It happens: a completed parent's child at work again -----

  lemma OneMore(run: seq<Tables>, steps: seq<Step>, step: Step) returns (run': seq<Tables>, steps': seq<Step>)
    requires IsRun(run, steps)
    ensures run' == run + [Next(run[|run| - 1], step)] && steps' == steps + [step] && IsRun(run', steps')
  {
    run', steps' := run + [Next(run[|run| - 1], step)], steps + [step];
  }

  /** A parent and its joined child, both at work. */
  function AtWork(): Tables {
    Tables(0, [Task(Running, [], None), Task(Running, [], Some(0))], map[0 := Lease(1, 1, 300), 1 := Lease(2, 1, 300)])
  }

  lemma AtWorkRun() returns (run: seq<Tables>, steps: seq<Step>)
    ensures IsRun(run, steps) && |run| == 5 && run[4] == AtWork()
  {
    run, steps := [Tables(0, [], map[])], [];
    run, steps := OneMore(run, steps, Create([], None, false, true));
    assert run[1] == Tables(0, [Task(Queued, [], None)], map[]);
    run, steps := OneMore(run, steps, Acquire(0, 1, 300, true));
    assert run[2] == Tables(0, [Task(Running, [], None)], map[0 := Lease(1, 1, 300)]);
    run, steps := OneMore(run, steps, Create([], Some(Token(0, 1, 1)), false, true));
    assert run[3] == Tables(0, [Task(Running, [], None), Task(Queued, [], Some(0))], map[0 := Lease(1, 1, 300)]);
    run, steps := OneMore(run, steps, Acquire(1, 2, 300, true));
    assert run[4] == AtWork();
  }

  /** The child finishes, its parent completes, and the child is queued again. */
  lemma RequeuedChildUnsettles() returns (run: seq<Tables>, steps: seq<Step>)
    ensures IsRun(run, steps) && |run| == 8 && Settled(run[6], 0)
    ensures HasStatus(run[7], 0, Completed) && HasStatus(run[7], 1, Queued) && !Settled(run[7], 0)
  {
    run, steps := AtWorkRun();
    run, steps := OneMore(run, steps, Finish(Token(1, 2, 1), Failed, true));
    var failed := Tables(0, [Task(Running, [], None), Task(Failed, [], Some(0))], map[0 := Lease(1, 1, 300), 1 := Lease(2, 1, 0)]);
    assert run[5] == failed;
    var step := Finish(Token(0, 1, 1), Completed, true);
    run, steps := OneMore(run, steps, step);
    CompletionSettles(failed, step);
    var completed := Tables(0, [Task(Completed, [], None), Task(Failed, [], Some(0))], map[0 := Lease(1, 1, 0), 1 := Lease(2, 1, 0)]);
    assert run[6] == completed;
    run, steps := OneMore(run, steps, Requeue(Token(1, 2, 1), true));
    assert run[7].tasks == [Task(Completed, [], None), Task(Queued, [], Some(0))];
    assert Joined(run[7].tasks, 1, 0);
  }

  // ----- The guard of a requeue is the continuation's -----

  predicate SameStatus(a: Status, b: Chains.TaskStatus) {
    match b
    case Queued => a == Queued
    case Running => a == Running
    case Ended => IsTerminal(a)
    case Blocked => a == Blocked
  }

  /** The chain's task and lease are these rows. */
  predicate SameTask(s: Tables, t: nat, c: Chains.Chain) {
    && t < |s.tasks| && SameStatus(s.tasks[t].status, c.status) && (t in s.leases <==> c.lease.Some?)
    && (c.lease.Some? ==>
          && s.leases[t].holder == c.lease.value.holder && s.leases[t].fence == c.lease.value.fence
          && (IsLive(s, t) <==> c.lease.value.live))
  }

  /** The continuation's command here, with the token it shows; a restoration shows its ticket's. */
  function QueueStep(t: nat, c: Chains.Chain, step: Chains.Step): Step
    requires step.Issue? || step.Requeue? || (step.Restore? && c.consumed.Some?)
  {
    if step.Restore? then Requeue(Token(t, c.consumed.value.holder, c.consumed.value.fence), true)
    else if step.Issue? && step.recoverExpired then Requeue(Token(t, step.holder, step.fence), true)
    else HandBack(Token(t, step.holder, step.fence), true)
  }

  /** Every continuation step that queues a task is an accepted step here, with the same result. */
  lemma QueuedAsChained(s: Tables, t: nat, c: Chains.Chain, step: Chains.Step, c': Chains.Chain)
    requires Inv(s) && SameTask(s, t, c) && Chains.Moves(c, step, c') && (step.Issue? || step.Restore? || step.Requeue?)
    ensures step.Restore? ==> c.consumed.Some?
    ensures Accepted(s, QueueStep(t, c, step)) && SameTask(Next(s, QueueStep(t, c, step)), t, c')
  {
  }

  /** The chain's own step for a command on its task: an acquisition, an end, a block or, as time passes,
      an expiry; the other commands on it change neither status nor lease as the chain sees them. */
  ghost predicate Follows(c: Chains.Chain, c': Chains.Chain) {
    c' == c || exists step :: Chains.Moves(c, step, c')
  }

  /** Each accepted command on a task's status or lease, other than a continuation's, is a step of its
      chain with the same result. */
  lemma CommandsFollowChain(s: Tables, t: nat, c: Chains.Chain, step: Step) returns (c': Chains.Chain)
    requires Inv(s) && SameTask(s, t, c) && Accepted(s, step) && !step.HandBack? && !step.Requeue?
    ensures SameTask(Next(s, step), t, c') && Follows(c, c')
  {
    c' := c;
    var now := c.now + 1;
    match step
    case Acquire(u, holder, ttl, _) =>
      if u == t {
        c' := c.(now := now, status := Chains.Running,
                 lease := Some(Chains.Lease(holder, if c.lease.Some? then c.lease.value.fence + 1 else 1, true)));
        assert Chains.Moves(c, Chains.Acquire(holder), c');
      }
    case Finish(token, _, _) =>
      if token.task == t {
        c' := c.(now := now, status := Chains.Ended, lease := Some(Chains.Lease(token.holder, token.fence, false)));
        assert Chains.Moves(c, Chains.End(token.holder, token.fence), c');
      }
    case Block(u, _) =>
      if u == t {
        c' := c.(now := now, status := Chains.Blocked);
        assert Chains.Moves(c, Chains.Block, c');
      }
    case Tick(_) =>
      if c.lease.Some? && !IsLive(Next(s, step), t) {
        c' := c.(now := now, lease := Some(c.lease.value.(live := false)));
        assert Chains.Moves(c, Chains.Expire, c');
      }
    case _ =>
  }

  /** An ended task is queued again here by a step its chain allows if and only if the chain is
      revivable, and then by a requeue with the lease's own token. */
  lemma RequeueGuard(s: Tables, t: nat, c: Chains.Chain)
    requires Inv(s) && SameTask(s, t, c) && c.status == Chains.Ended
    ensures Chains.Revivable(c) <==> exists step, c' :: Chains.Moves(c, step, c') && c'.status == Chains.Queued
    ensures Chains.Revivable(c) ==>
              && c.lease.Some?
              && var step := Requeue(Token(t, c.lease.value.holder, c.lease.value.fence), true);
                 Requeues(s, step, t) && HasStatus(Next(s, step), t, Queued)
  {
    Chains.RevivableNow(c);
    if step, c' :| Chains.Moves(c, step, c') && c'.status != Chains.Ended {
      Chains.OutcomeStep(c, step, c');
      QueuedAsChained(s, t, c, step, c');
    }
  }

  // ----- The rows -----

  datatype Reply = Done | InvalidLease | NotRunnable | DependenciesPending | LeaseHeld | StaleLease
                 | NotAllowed | ChildrenPending | Refused

  /** The rows' invariant, folded. */
  ghost predicate Right(s: Tables) {
    forall at: nat {:trigger Unfolded(at)} :: Unfolded(at) ==> Inv(s)
  }

  lemma ParentsStayFirst(s: Tables)
    requires Right(s)
    ensures ParentsFirst(s.tasks)
  {
    assert Unfolded(0);
  }

  lemma StepKeepsRight(s: Tables, step: Step)
    requires Right(s)
    ensures Right(Next(s, step))
  {
    assert Unfolded(0);
    StepKeepsInv(s, step);
  }

  /** The token names the task's lease, with its holder and its fence. */
  predicate Names(leases: map<nat, Lease>, token: Token) {
    token.task in leases && leases[token.task].holder == token.holder && leases[token.task].fence == token.fence
  }

  ghost predicate QueuedAgain(tasks: seq<Task>, leases: map<nat, Lease>, token: Token, tasks': seq<Task>, leases': map<nat, Lease>) {
    token.task < |tasks| && tasks' == tasks[token.task := Task(Queued, tasks[token.task].deps, tasks[token.task].parent)]
    && leases' == leases[token.task := Lease(token.holder, token.fence, 0)]
  }

  predicate Ended(status: Status) {
    status in {Completed, Failed, Blocked}
  }

  class TaskTables {
    var now: int
    var tasks: seq<Task>
    var leases: map<nat, Lease>

    ghost function Contents(): Tables
      reads this
    {
      Tables(now, tasks, leases)
    }

    ghost predicate Valid()
      reads this
    {
      Right(Contents())
    }

    constructor ()
      ensures Valid() && Contents() == Tables(0, [], map[])
    {
      now, tasks, leases := 0, [], map[];
    }

    /** Time passes between commands. */
    method Wait(seconds: nat)
      requires Valid()
      modifies this`now
      ensures Valid() && Contents() == Next(old(Contents()), Tick(seconds))
    {
      StepKeepsRight(Contents(), Tick(seconds));
      now := now + seconds;
    }

    /** Create a task, under its parent's current lease when it is delegated. A joined one may not
        depend on any task that waits for it. */
    method CreateTask(deps: seq<nat>, under: Option<Token>, detached: bool, allowed: bool) returns (created: bool)
      requires Valid()
      modifies this`tasks
      ensures Valid() && Contents() == Next(old(Contents()), Create(deps, under, detached, allowed))
      ensures created == (allowed && CanCreate(old(Contents()), deps, under, detached))
      ensures created ==> tasks == old(tasks) + [Task(Queued, deps, if under.Some? && !detached then Some(under.value.task) else None)]
      ensures created <==>
                && allowed && (forall i, j | 0 <= i < j < |deps| :: deps[i] != deps[j]) && (forall d | d in deps :: d < |old(tasks)|)
                && (under.None? ==> !detached)
                && (under.Some? ==>
                      && under.value.task < |old(tasks)| && Names(leases, under.value) && leases[under.value.task].expires > now
                      && (!detached ==> forall w | IsLineage(old(tasks), w, under.value.task) :: w[|w| - 1] !in deps))
    {
      if under.Some? && under.value.task < |tasks| {
        ParentsStayFirst(Contents());
        LineageIsAbove(tasks, deps, under.value.task);
      }
      StepKeepsRight(Contents(), Create(deps, under, detached, allowed));
      if !allowed || (under.None? && detached) {
        return false;
      }
      if under.Some? && (under.value.task >= |tasks| || !Holds(Tables(now, tasks, leases), under.value)) {
        return false;
      }
      if !Distinct(deps) {
        return false;
      }
      assert Right(Contents());
      if under.Some? && !detached {
        assert Unfolded(0);
        var clash := DependsOnAncestor(tasks, deps, under.value.task);
        if clash {
          return false;
        }
      }
      if exists d :: d in deps && d >= |tasks| {
        return false;
      }
      tasks := tasks + [Task(Queued, deps, if under.Some? && !detached then Some(under.value.task) else None)];
      created := true;
    }

    method AcquireTask(t: nat, holder: nat, ttl: int, allowed: bool) returns (reply: Reply)
      requires Valid() && t < |tasks|
      modifies this`tasks, this`leases
      ensures Valid() && Contents() == Next(old(Contents()), Acquire(t, holder, ttl, allowed))
      ensures reply == Done <==> Accepted(old(Contents()), Acquire(t, holder, ttl, allowed))
      ensures reply == Done ==> Holds(Contents(), Token(t, holder, leases[t].fence))
      ensures reply == Done <==>
                && allowed && 1 <= ttl <= 300 && old(tasks)[t].status in {Queued, Running}
                && (forall d | d in old(tasks)[t].deps :: d < |old(tasks)| && old(tasks)[d].status == Completed)
                && (t in old(leases) ==> old(leases)[t].expires <= now)
      ensures reply == Done ==>
                && tasks == old(tasks)[t := Task(Running, old(tasks)[t].deps, old(tasks)[t].parent)]
                && leases == old(leases)[t := Lease(holder, if t in old(leases) then old(leases)[t].fence + 1 else 1, now + ttl)]
    {
      StepKeepsRight(Contents(), Acquire(t, holder, ttl, allowed));
      if ttl < 1 || ttl > 300 {
        return InvalidLease;
      }
      if !allowed {
        return NotAllowed;
      }
      if tasks[t].status !in {Queued, Running} {
        return NotRunnable;
      }
      var ready := DepsReady(tasks, tasks[t].deps);
      if !ready {
        return DependenciesPending;
      }
      if t in leases && leases[t].expires > now {
        return LeaseHeld;
      }
      var fence := if t in leases then leases[t].fence + 1 else 1;
      leases := leases[t := Lease(holder, fence, now + ttl)];
      tasks := tasks[t := tasks[t].(status := Running)];
      reply := Done;
    }

    /** The one guard of every fenced command. */
    method Fenced(token: Token) returns (current: bool)
      ensures current == Holds(Contents(), token)
    {
      current := token.task in leases && leases[token.task].holder == token.holder
                 && leases[token.task].fence == token.fence && leases[token.task].expires > now;
    }

    method RenewTask(token: Token, ttl: int, allowed: bool) returns (reply: Reply)
      requires Valid() && token.task < |tasks|
      modifies this`leases
      ensures Valid() && Contents() == Next(old(Contents()), Renew(token, ttl, allowed))
      ensures reply == Done <==> Accepted(old(Contents()), Renew(token, ttl, allowed))
      ensures reply == Done <==> allowed && 1 <= ttl <= 300 && Names(old(leases), token) && old(leases)[token.task].expires > now
      ensures reply == Done ==> leases == old(leases)[token.task := Lease(token.holder, token.fence, now + ttl)]
    {
      StepKeepsRight(Contents(), Renew(token, ttl, allowed));
      if ttl < 1 || ttl > 300 {
        return InvalidLease;
      }
      var current := Fenced(token);
      if !current {
        return StaleLease;
      }
      if !allowed {
        return NotAllowed;
      }
      leases := leases[token.task := leases[token.task].(expires := now + ttl)];
      reply := Done;
    }

    /** Extends a live lease for its holder's cleanup; it never shortens one. */
    method RenewForCleanup(token: Token, ttl: int, allowed: bool) returns (reply: Reply)
      requires Valid() && token.task < |tasks|
      modifies this`leases
      ensures Valid() && Contents() == Next(old(Contents()), CleanupRenew(token, ttl, allowed))
      ensures reply == Done <==> Accepted(old(Contents()), CleanupRenew(token, ttl, allowed))
      ensures reply == Done <==> allowed && 1 <= ttl <= 300 && Names(old(leases), token) && old(leases)[token.task].expires > now
      ensures reply == Done ==>
                && leases.Keys == old(leases).Keys && leases == old(leases)[token.task := leases[token.task]]
                && leases[token.task] == Lease(token.holder, token.fence, leases[token.task].expires)
                && leases[token.task].expires >= old(leases)[token.task].expires && leases[token.task].expires >= now + ttl
                && leases[token.task].expires in {old(leases)[token.task].expires, now + ttl}
    {
      StepKeepsRight(Contents(), CleanupRenew(token, ttl, allowed));
      if ttl < 1 || ttl > 300 {
        return InvalidLease;
      }
      var current := Fenced(token);
      if !current {
        return StaleLease;
      }
      if !allowed {
        return NotAllowed;
      }
      var lease := leases[token.task];
      leases := leases[token.task := lease.(expires := Later(lease.expires, now + ttl))];
      reply := Done;
    }

    method FinishTask(token: Token, outcome: Status, allowed: bool) returns (reply: Reply)
      requires Valid() && token.task < |tasks|
      modifies this`tasks, this`leases
      ensures Valid() && Contents() == Next(old(Contents()), Finish(token, outcome, allowed))
      ensures reply == Done <==> Accepted(old(Contents()), Finish(token, outcome, allowed))
      ensures reply == Done <==>
                && allowed && Ended(outcome) && Names(old(leases), token) && old(leases)[token.task].expires > now
                && (outcome == Completed ==>
                      forall c | 0 <= c < |old(tasks)| && old(tasks)[c].parent == Some(token.task) :: Ended(old(tasks)[c].status))
      ensures reply == Done ==>
                && tasks == old(tasks)[token.task := Task(outcome, old(tasks)[token.task].deps, old(tasks)[token.task].parent)]
                && leases == old(leases)[token.task := Lease(token.holder, token.fence, 0)]
    {
      StepKeepsRight(Contents(), Finish(token, outcome, allowed));
      if outcome !in {Completed, Failed, Blocked} {
        return Refused;
      }
      var current := Fenced(token);
      if !current {
        return StaleLease;
      }
      if !allowed {
        return NotAllowed;
      }
      if outcome == Completed && exists c :: 0 <= c < |tasks| && Joined(tasks, c, token.task) && !IsTerminal(tasks[c].status) {
        return ChildrenPending;
      }
      tasks := tasks[token.task := tasks[token.task].(status := outcome)];
      leases := leases[token.task := leases[token.task].(expires := 0)];
      reply := Done;
    }

    /** The live holder's own continuation, or its second try at a settled boundary. */
    method HandBackTask(token: Token, allowed: bool) returns (reply: Reply)
      requires Valid() && token.task < |tasks|
      modifies this`tasks, this`leases
      ensures Valid() && Contents() == Next(old(Contents()), HandBack(token, allowed))
      ensures reply == Done <==> Accepted(old(Contents()), HandBack(token, allowed))
      ensures reply == Done <==> allowed && Names(old(leases), token) && old(leases)[token.task].expires > now
      ensures reply == Done ==> QueuedAgain(old(tasks), old(leases), token, tasks, leases)
    {
      StepKeepsRight(Contents(), HandBack(token, allowed));
      var current := Fenced(token);
      if !current {
        return StaleLease;
      }
      if !allowed {
        return NotAllowed;
      }
      Enqueue(token.task);
      reply := Done;
    }

    /** A continuation restored, or issued from a lease that is over; the status is not asked for. */
    method RequeueTask(token: Token, allowed: bool) returns (reply: Reply)
      requires Valid() && token.task < |tasks|
      modifies this`tasks, this`leases
      ensures Valid() && Contents() == Next(old(Contents()), Requeue(token, allowed))
      ensures reply == Done <==> Accepted(old(Contents()), Requeue(token, allowed))
      ensures reply == Done <==> allowed && Names(old(leases), token) && old(leases)[token.task].expires <= now
      ensures reply == Done ==> QueuedAgain(old(tasks), old(leases), token, tasks, leases)
    {
      StepKeepsRight(Contents(), Requeue(token, allowed));
      if token.task !in leases || leases[token.task].holder != token.holder || leases[token.task].fence != token.fence {
        return StaleLease;
      }
      if leases[token.task].expires > now {
        return LeaseHeld;
      }
      if !allowed {
        return NotAllowed;
      }
      Enqueue(token.task);
      reply := Done;
    }

    method Enqueue(t: nat)
      requires t < |tasks| && t in leases
      modifies this`tasks, this`leases
      ensures Contents() == BackInQueue(old(Contents()), t)
    {
      tasks := tasks[t := tasks[t].(status := Queued)];
      leases := leases[t := leases[t].(expires := 0)];
    }

    /** A queued task that is retired, or that could not be dispatched. */
    method BlockTask(t: nat, allowed: bool) returns (reply: Reply)
      requires Valid() && t < |tasks|
      modifies this`tasks
      ensures Valid() && Contents() == Next(old(Contents()), Block(t, allowed))
      ensures reply == Done <==> Accepted(old(Contents()), Block(t, allowed))
      ensures reply == Done <==> allowed && old(tasks)[t].status == Queued && (t in leases ==> leases[t].expires <= now)
      ensures reply == Done ==> tasks == old(tasks)[t := Task(Blocked, old(tasks)[t].deps, old(tasks)[t].parent)]
    {
      StepKeepsRight(Contents(), Block(t, allowed));
      if tasks[t].status != Queued {
        return NotRunnable;
      }
      if t in leases && leases[t].expires > now {
        return LeaseHeld;
      }
      if !allowed {
        return NotAllowed;
      }
      tasks := tasks[t := tasks[t].(status := Blocked)];
      reply := Done;
    }
  }

  method DepsReady(tasks: seq<Task>, deps: seq<nat>) returns (ready: bool)
    ensures ready == DepsCompleted(tasks, deps)
  {
    for i := 0 to |deps|
      invariant forall j | 0 <= j < i :: deps[j] < |tasks| && tasks[deps[j]].status == Completed
    {
      if deps[i] >= |tasks| || tasks[deps[i]].status != Completed {
        assert deps[i] in deps;
        return false;
      }
    }
    ready := true;
  }

  /** The walk up the waiting tasks: whether any of them is a prerequisite. */
  method DependsOnAncestor(tasks: seq<Task>, deps: seq<nat>, parent: nat) returns (clash: bool)
    requires ParentsFirst(tasks) && parent < |tasks|
    ensures clash <==> exists d: nat :: d in deps && AtOrAbove(tasks, d, parent)
  {
    var ancestor: nat := parent;
    while true
      invariant ancestor < |tasks|
      invariant forall d: nat | d in deps :: AtOrAbove(tasks, d, parent) <==> AtOrAbove(tasks, d, ancestor)
      decreases ancestor
    {
      if ancestor in deps {
        return true;
      }
      if tasks[ancestor].parent.None? {
        return false;
      }
      ancestor := tasks[ancestor].parent.value;
    }
  }
}
