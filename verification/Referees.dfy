/** Referee assignment: one commons node holds a statement's reviews, and a text version draws a
    bounded panel. */
module Referees {
  import opened Basics
  import opened Commons

  const MAX_SAME_TEXT_NODES := 20
  const REVIEW_RETRIES := 2

  /** A node as reviews see it: `key` is its normalized statement. Nodes are numbered in the order
      of their creation events. */
  datatype ReviewNode = ReviewNode(key: nat, nodeType: NodeType, status: Status)

  datatype Verdict = Unsubmitted | Gaps | Judged

  /** A referee's task; its text version is its node's, whose statement never changes. */
  datatype Referee = Referee(node: nat, live: bool, verdict: Verdict)

  datatype Board = Board(nodes: seq<ReviewNode>, referees: seq<Referee>)

  // ----- Who holds a statement's reviews -----

  predicate SameText(nodes: seq<ReviewNode>, a: nat, b: nat) {
    a < |nodes| && b < |nodes| && nodes[a].key == nodes[b].key && nodes[a].nodeType != Goal
  }

  /** The nodes below `k` with the text of node `n`, the goal aside, oldest first. */
  function Copies(nodes: seq<ReviewNode>, n: nat, k: nat): (r: seq<nat>)
    requires n < |nodes| && k <= |nodes|
    ensures forall x: nat :: x in r <==> x < k && SameText(nodes, x, n)
  {
    if k == 0 then []
    else Copies(nodes, n, k - 1) + if SameText(nodes, k - 1, n) then [k - 1] else []
  }

  predicate Refereed(referees: seq<Referee>, n: nat) {
    exists i :: 0 <= i < |referees| && referees[i].node == n
  }

  predicate Holds(b: Board, n: nat) {
    n < |b.nodes| && (IsOpen(b.nodes[n].status) || Refereed(b.referees, n))
  }

  function FirstHolding(b: Board, candidates: seq<nat>): Option<nat> {
    if candidates == [] then None
    else if Holds(b, candidates[0]) then Some(candidates[0])
    else FirstHolding(b, candidates[1..])
  }

  function Searched(b: Board, n: nat): (r: seq<nat>)
    requires n < |b.nodes|
    ensures forall i | 0 <= i < |r| :: r[i] in Copies(b.nodes, n, n)
  {
    var copies := Copies(b.nodes, n, n);
    if |copies| <= MAX_SAME_TEXT_NODES then copies else copies[..MAX_SAME_TEXT_NODES]
  }

  /** The earlier node that holds the reviews of this node's statement; past the bound of the
      search, the earliest. */
  function Owner(b: Board, n: nat): Option<nat>
    requires n < |b.nodes|
  {
    var earlier := Searched(b, n);
    var holding := FirstHolding(b, earlier);
    if holding.Some? then holding
    else if |earlier| >= MAX_SAME_TEXT_NODES then Some(earlier[0])
    else None
  }

  /** A copy of the node's statement, the goal aside, by the stored fields. */
  predicate IsCopy(nodes: seq<ReviewNode>, x: nat, n: nat)
    requires n < |nodes|
  {
    x < n && nodes[x].key == nodes[n].key && nodes[x].nodeType != Goal
  }

  /** It is open or has drawn a referee. */
  ghost predicate KeepsReviews(b: Board, x: nat)
    requires x < |b.nodes|
  {
    b.nodes[x].status == Open || b.nodes[x].status == Legacy || exists i :: 0 <= i < |b.referees| && b.referees[i].node == x
  }

  /** The copies of the node before another node. */
  ghost function CopiesBefore(nodes: seq<ReviewNode>, n: nat, x: nat): set<nat>
    requires n < |nodes|
  {
    set y: nat | y < x && IsCopy(nodes, y, n)
  }

  lemma {:induction false} CopiesCounted(nodes: seq<ReviewNode>, n: nat, k: nat)
    requires n < |nodes| && k <= n
    ensures |Copies(nodes, n, k)| == |CopiesBefore(nodes, n, k)|
  {
    if k > 0 {
      CopiesCounted(nodes, n, k - 1);
      assert CopiesBefore(nodes, n, k) == CopiesBefore(nodes, n, k - 1) + if IsCopy(nodes, k - 1, n) then {k - 1} else {};
    } else {
      assert CopiesBefore(nodes, n, 0) == {};
    }
  }

  /** The i-th copy has i copies before it. */
  lemma {:induction false} CopyAt(nodes: seq<ReviewNode>, n: nat, k: nat, i: nat)
    requires n < |nodes| && 0 < k <= n && i < |Copies(nodes, n, k)|
    ensures var x := Copies(nodes, n, k)[i]; x < k && IsCopy(nodes, x, n) && |CopiesBefore(nodes, n, x)| == i
    ensures forall j | 0 <= j < i :: Copies(nodes, n, k)[j] < Copies(nodes, n, k)[i]
  {
    var before := Copies(nodes, n, k - 1);
    if i < |before| {
      CopyAt(nodes, n, k - 1, i);
    } else {
      CopiesCounted(nodes, n, k - 1);
      forall j | 0 <= j < i ensures before[j] < k - 1 {
        CopyAt(nodes, n, k - 1, j);
      }
    }
  }

  /** The first of the candidates that holds reviews, and none before it. */
  lemma {:induction false} FirstHoldingAt(b: Board, candidates: seq<nat>) returns (i: nat)
    requires FirstHolding(b, candidates).Some?
    ensures i < |candidates| && FirstHolding(b, candidates) == Some(candidates[i]) && Holds(b, candidates[i])
    ensures forall j | 0 <= j < i :: !Holds(b, candidates[j])
  {
    if Holds(b, candidates[0]) {
      i := 0;
    } else {
      i := FirstHoldingAt(b, candidates[1..]);
      i := i + 1;
    }
  }

  /** Which node is named: of the first twenty copies the earliest that is open or refereed; when none of
      them is, the earliest copy of all. */
  ghost predicate NamesOwner(b: Board, n: nat, x: nat)
    requires n < |b.nodes|
  {
    && IsCopy(b.nodes, x, n)
    && if KeepsReviews(b, x) && |CopiesBefore(b.nodes, n, x)| < 20
       then forall y | y in CopiesBefore(b.nodes, n, x) :: !KeepsReviews(b, y)
       else
         && CopiesBefore(b.nodes, n, x) == {} && |CopiesBefore(b.nodes, n, n)| >= 20
         && forall y: nat | IsCopy(b.nodes, y, n) && |CopiesBefore(b.nodes, n, y)| < 20 :: !KeepsReviews(b, y)
  }

  lemma OwnerNamed(b: Board, n: nat)
    requires n < |b.nodes| && Owner(b, n).Some?
    ensures NamesOwner(b, n, Owner(b, n).value)
  {
    var copies, earlier := Copies(b.nodes, n, n), Searched(b, n);
    assert forall i | 0 <= i < |earlier| :: earlier[i] == copies[i];
    CopiesCounted(b.nodes, n, n);
    if FirstHolding(b, earlier).Some? {
      var i := FirstHoldingAt(b, earlier);
      CopyAt(b.nodes, n, n, i);
      forall y | y in CopiesBefore(b.nodes, n, copies[i]) ensures !KeepsReviews(b, y) {
        CopyFound(b, n, y);
      }
    } else {
      FirstHoldingNone(b, earlier);
      CopyAt(b.nodes, n, n, 0);
      forall y: nat | IsCopy(b.nodes, y, n) && |CopiesBefore(b.nodes, n, y)| < 20 ensures !KeepsReviews(b, y) {
        CopyFound(b, n, y);
      }
    }
  }

  /** A copy is in the list at the place that counts the copies before it. */
  lemma CopyFound(b: Board, n: nat, y: nat)
    requires n < |b.nodes| && IsCopy(b.nodes, y, n)
    ensures var j := |CopiesBefore(b.nodes, n, y)|; j < |Copies(b.nodes, n, n)| && Copies(b.nodes, n, n)[j] == y
    ensures KeepsReviews(b, y) <==> Holds(b, y)
    ensures forall i | 0 <= i < |Copies(b.nodes, n, n)| && Copies(b.nodes, n, n)[i] > y :: |CopiesBefore(b.nodes, n, y)| < i
  {
    var copies := Copies(b.nodes, n, n);
    assert y in copies;
    var j :| 0 <= j < |copies| && copies[j] == y;
    CopyAt(b.nodes, n, n, j);
    forall i | 0 <= i < |copies| && copies[i] > y ensures j < i {
      assert i != j;
    }
  }

  method StatementOwner(b: Board, n: nat) returns (owner: Option<nat>)
    requires n < |b.nodes|
    ensures owner == Owner(b, n)
    ensures owner.Some? ==> NamesOwner(b, n, owner.value)
    ensures owner.None? <==> |Copies(b.nodes, n, n)| < MAX_SAME_TEXT_NODES
                             && forall x: nat | x < n && SameText(b.nodes, x, n) :: !Holds(b, x)
  {
    var earlier := Searched(b, n);
    NoOwner(b, n);
    if Owner(b, n).Some? {
      OwnerNamed(b, n);
    }
    for i := 0 to |earlier|
      invariant FirstHolding(b, earlier) == FirstHolding(b, earlier[i..])
    {
      var other := earlier[i];
      assert earlier[i..][1..] == earlier[i + 1..];
      if IsOpen(b.nodes[other].status) || Refereed(b.referees, other) {
        return Some(other);
      }
    }
    return if |earlier| >= MAX_SAME_TEXT_NODES then Some(earlier[0]) else None;
  }

  lemma {:induction false} FirstHoldingNone(b: Board, candidates: seq<nat>)
    ensures FirstHolding(b, candidates).None? <==> forall x | x in candidates :: !Holds(b, x)
  {
    if candidates != [] {
      FirstHoldingNone(b, candidates[1..]);
    }
  }

  /** No owner is found only when the whole search was within its bound and every earlier copy is
      closed and has drawn no referee. */
  lemma NoOwner(b: Board, n: nat)
    requires n < |b.nodes|
    ensures Owner(b, n).None? <==> |Copies(b.nodes, n, n)| < MAX_SAME_TEXT_NODES
                                   && forall x: nat | x < n && SameText(b.nodes, x, n) :: !Holds(b, x)
  {
    var copies := Copies(b.nodes, n, n);
    FirstHoldingNone(b, Searched(b, n));
    if |copies| < MAX_SAME_TEXT_NODES {
      forall x: nat ensures x in copies <==> x < n && SameText(b.nodes, x, n) {
      }
    }
  }

  // ----- The panel of a text version -----

  predicate Counted(r: Referee, n: nat) {
    r.node == n && (r.live || r.verdict != Unsubmitted)
  }

  /** The referees that count: one that submitted, or whose task is live. */
  function Panel(referees: seq<Referee>, n: nat): set<nat> {
    set i: nat | i < |referees| && Counted(referees[i], n)
  }

  function GapsIn(referees: seq<Referee>, rows: set<nat>): set<nat> {
    set i | i in rows && i < |referees| && referees[i].verdict == Gaps
  }

  function Verdicts(referees: seq<Referee>, n: nat): set<nat> {
    set i: nat | i < |referees| && referees[i].node == n && referees[i].verdict != Unsubmitted
  }

  /** The live referees with no verdict yet. */
  function Waiting(referees: seq<Referee>, n: nat): set<nat> {
    set i: nat | i < |referees| && referees[i].node == n && referees[i].live && referees[i].verdict == Unsubmitted
  }

  function Least(a: nat, b: nat): nat {
    if a < b then a else b
  }

  /** What a bounded query may return: all of the panel, or that many of it, whichever they are. */
  predicate IsPage(referees: seq<Referee>, n: nat, bound: nat, rows: set<nat>) {
    rows <= Panel(referees, n) && |rows| == Least(|Panel(referees, n)|, bound)
  }

  predicate Reviewable(node: ReviewNode, compiled: bool) {
    IsOpen(node.status) && node.nodeType in {Approach, Conjecture, Lemma} && !compiled
  }

  datatype Reply = NotReviewable | Duplicate(owner: nat) | Deduplicated(referee: nat) | ReviewLimit | NotAdmitted | Assigned(referee: nat)

  /** What a request for review is answered, from the rows a query of the panel returned. */
  function Answer(b: Board, n: nat, compiled: bool, rows: set<nat>, admitted: bool, limit: nat): Reply
    requires n < |b.nodes|
  {
    var gaps, waiting := GapsIn(b.referees, rows), Waiting(b.referees, n);
    if !Reviewable(b.nodes[n], compiled) then NotReviewable
    else if Owner(b, n).Some? then Duplicate(Owner(b, n).value)
    else if waiting != {} then Deduplicated(Smallest(waiting))
    else if |rows| - |gaps| >= limit || |gaps| >= limit then ReviewLimit
    else if !admitted then NotAdmitted
    else Assigned(|b.referees|)
  }

  /** The answers by the stored fields, the first that applies: the node is no open plan or argument; an
      earlier copy holds its reviews; the earliest live referee without a verdict is still at work; the
      rows the query gave are full of gap reports or of other referees; or one more is assigned. */
  lemma RequestAnswered(b: Board, n: nat, compiled: bool, rows: set<nat>, admitted: bool, limit: nat)
    requires n < |b.nodes| && IsPage(b.referees, n, 2 * limit, rows)
    ensures forall i | i in rows ::
              i < |b.referees| && b.referees[i].node == n && (b.referees[i].live || b.referees[i].verdict != Unsubmitted)
    ensures |rows| < 2 * limit ==>
              forall i: nat | i < |b.referees| && b.referees[i].node == n && (b.referees[i].live || b.referees[i].verdict != Unsubmitted) :: i in rows
    ensures var node, answer := b.nodes[n], Answer(b, n, compiled, rows, admitted, limit);
            var waits := (i: nat) => i < |b.referees| && b.referees[i] == Referee(n, true, Unsubmitted);
            var gaps := set i | i in rows && i < |b.referees| && b.referees[i].verdict == Gaps;
            if !(node.status in {Open, Legacy} && node.nodeType in {Approach, Conjecture, Lemma} && !compiled) then answer == NotReviewable
            else if Owner(b, n).Some? then answer == Duplicate(Owner(b, n).value)
            else if exists i :: waits(i) then
              answer.Deduplicated? && waits(answer.referee) && forall i | waits(i) :: answer.referee <= i
            else if |rows - gaps| >= limit || |gaps| >= limit then answer == ReviewLimit
            else if !admitted then answer == NotAdmitted
            else answer == Assigned(|b.referees|)
  {
    var gaps := set i | i in rows && i < |b.referees| && b.referees[i].verdict == Gaps;
    assert gaps == GapsIn(b.referees, rows);
    assert |rows| == |rows - gaps| + |gaps| by {
      assert rows == (rows - gaps) + gaps;
    }
    assert forall i: nat :: i in Waiting(b.referees, n) <==> i < |b.referees| && b.referees[i] == Referee(n, true, Unsubmitted);
    if |rows| < 2 * limit {
      SameSizeSubset(rows, Panel(b.referees, n));
    }
  }

  // ----- Runs -----

  datatype Step =
    | Create(node: ReviewNode)
    | Close(n: nat, status: Status)
    | Request(n: nat, compiled: bool, rows: set<nat>, admitted: bool)
    | Submit(referee: nat, verdict: Verdict)
    | End(referee: nat)
    | Revive(referee: nat)

  /** A verdict is submitted once. A task that ended is live again when its continuation is restored,
      or issued from its expired lease, as any task's may be (`Chains.Revivable`). */
  predicate Enabled(b: Board, step: Step, limit: nat) {
    match step
    case Create(node) => IsOpen(node.status)
    case Close(n, status) => n < |b.nodes| && IsOpen(b.nodes[n].status) && !IsOpen(status)
    case Request(n, compiled, rows, admitted) => n < |b.nodes| && IsPage(b.referees, n, 2 * limit, rows)
    case Submit(t, verdict) => t < |b.referees| && b.referees[t].verdict == Unsubmitted && verdict != Unsubmitted
    case End(t) => t < |b.referees| && b.referees[t].live
    case Revive(t) => t < |b.referees| && !b.referees[t].live
  }

  function Next(b: Board, step: Step, limit: nat): Board
    requires Enabled(b, step, limit)
  {
    match step
    case Create(node) => b.(nodes := b.nodes + [node])
    case Close(n, status) => b.(nodes := b.nodes[n := b.nodes[n].(status := status)])
    case Request(n, compiled, rows, admitted) =>
      if Answer(b, n, compiled, rows, admitted, limit).Assigned?
      then b.(referees := b.referees + [Referee(n, true, Unsubmitted)]) else b
    case Submit(t, verdict) => b.(referees := b.referees[t := b.referees[t].(verdict := verdict)])
    case End(t) => b.(referees := b.referees[t := b.referees[t].(live := false)])
    case Revive(t) => b.(referees := b.referees[t := b.referees[t].(live := true)])
  }

  /** A verdict submitted by a live task. */
  predicate Prompt(b: Board, step: Step) {
    step.Submit? && step.referee < |b.referees| ==> b.referees[step.referee].live
  }

  /** Room for one more verdict of this kind on a version's panel. */
  predicate HasRoom(referees: seq<Referee>, n: nat, verdict: Verdict, limit: nat) {
    var panel := Panel(referees, n);
    var gaps := GapsIn(referees, panel);
    if verdict == Gaps then |gaps| + |Waiting(referees, n)| < limit else |panel - gaps| < limit
  }

  /** A seat for one more referee, as a request asks: none is waiting, and neither count is full. */
  predicate HasSeat(referees: seq<Referee>, n: nat, limit: nat) {
    var panel := Panel(referees, n);
    var gaps := GapsIn(referees, panel);
    Waiting(referees, n) == {} && |panel - gaps| < limit && |gaps| < limit
  }

  /** No verdict comes from an ended task while the panel has no room for it, and no ended task that
      never submitted comes back while the panel has no seat for it. */
  predicate InTime(b: Board, step: Step, limit: nat) {
    match step
    case Submit(t, verdict) =>
      t < |b.referees| && !b.referees[t].live ==> HasRoom(b.referees, b.referees[t].node, verdict, limit)
    case Revive(t) =>
      t < |b.referees| && b.referees[t].verdict == Unsubmitted ==> HasSeat(b.referees, b.referees[t].node, limit)
    case _ => true
  }

  ghost predicate IsRun(run: seq<Board>, steps: seq<Step>, limit: nat) {
    && |run| == |steps| + 1 && run[0] == Board([], [])
    && forall i | 0 <= i < |steps| :: Enabled(run[i], steps[i], limit) && run[i + 1] == Next(run[i], steps[i], limit)
  }

  // ----- One node holds a statement's reviews -----

  /** Every earlier copy of a refereed node is closed, and drew no referee. */
  ghost predicate Owned(b: Board) {
    && (forall i | 0 <= i < |b.referees| :: b.referees[i].node < |b.nodes| && b.nodes[b.referees[i].node].nodeType != Goal)
    && (forall n: nat, m: nat | n < m < |b.nodes| && Refereed(b.referees, m) && SameText(b.nodes, n, m) :: !Holds(b, n))
  }

  lemma RefereedIsCopy(b: Board, n: nat, m: nat)
    requires Owned(b) && Refereed(b.referees, n) && m < |b.nodes| && b.nodes[n].key == b.nodes[m].key
    ensures SameText(b.nodes, n, m)
  {
    var i :| 0 <= i < |b.referees| && b.referees[i].node == n;
  }

  lemma RequestKeepsOwned(b: Board, n: nat, referees: seq<Referee>)
    requires Owned(b) && n < |b.nodes| && Owner(b, n).None?
    requires IsOpen(b.nodes[n].status) && b.nodes[n].nodeType != Goal
    requires referees == b.referees + [Referee(n, true, Unsubmitted)]
    ensures Owned(b.(referees := referees))
  {
    NoOwner(b, n);
    forall m: nat ensures Refereed(referees, m) <==> m == n || Refereed(b.referees, m) {
      if Refereed(b.referees, m) {
        var i :| 0 <= i < |b.referees| && b.referees[i].node == m;
        assert referees[i].node == m;
      }
      assert referees[|b.referees|].node == n;
    }
    var b' := b.(referees := referees);
    forall k: nat, m: nat | k < m < |b.nodes| && Refereed(referees, m) && SameText(b.nodes, k, m) ensures !Holds(b', k) {
      assert !Holds(b, k);
      assert Refereed(referees, k) <==> Refereed(b.referees, k);
    }
  }

  lemma SameReferees(before: seq<Referee>, after: seq<Referee>)
    requires |before| == |after| && forall i | 0 <= i < |before| :: before[i].node == after[i].node
    ensures forall n: nat :: Refereed(before, n) <==> Refereed(after, n)
  {
    forall n: nat ensures Refereed(before, n) <==> Refereed(after, n) {
      if Refereed(before, n) {
        var i :| 0 <= i < |before| && before[i].node == n;
        assert after[i].node == n;
      }
      if Refereed(after, n) {
        var i :| 0 <= i < |after| && after[i].node == n;
        assert before[i].node == n;
      }
    }
  }

  lemma StepKeepsOwned(b: Board, step: Step, limit: nat)
    requires Owned(b) && Enabled(b, step, limit)
    ensures Owned(Next(b, step, limit))
  {
    var b' := Next(b, step, limit);
    match step
    case Request(n, compiled, rows, admitted) =>
      if b' != b {
        RequestKeepsOwned(b, n, b'.referees);
      }
    case Submit(t, verdict) => SameReferees(b.referees, b'.referees);
    case End(t) => SameReferees(b.referees, b'.referees);
    case Revive(t) => SameReferees(b.referees, b'.referees);
    case Create(node) => CreateKeepsOwned(b, node);
    case Close(n, status) => CloseKeepsOwned(b, n, status);
  }

  lemma CreateKeepsOwned(b: Board, node: ReviewNode)
    requires Owned(b)
    ensures Owned(b.(nodes := b.nodes + [node]))
  {
    var b' := b.(nodes := b.nodes + [node]);
    forall n: nat, m: nat | n < m < |b'.nodes| && Refereed(b'.referees, m) && SameText(b'.nodes, n, m) ensures !Holds(b', n) {
      assert SameText(b.nodes, n, m);
    }
  }

  lemma CloseKeepsOwned(b: Board, c: nat, status: Status)
    requires Owned(b) && c < |b.nodes| && !IsOpen(status)
    ensures Owned(b.(nodes := b.nodes[c := b.nodes[c].(status := status)]))
  {
    var b' := b.(nodes := b.nodes[c := b.nodes[c].(status := status)]);
    forall n: nat, m: nat | n < m < |b'.nodes| && Refereed(b'.referees, m) && SameText(b'.nodes, n, m) ensures !Holds(b', n) {
      assert SameText(b.nodes, n, m);
    }
  }

  /** At most one node of each normalized statement ever draws referees, on every run. */
  lemma {:induction false} RunKeepsOwned(run: seq<Board>, steps: seq<Step>, limit: nat, i: nat)
    requires IsRun(run, steps, limit) && i < |run|
    ensures Owned(run[i])
  {
    if i > 0 {
      RunKeepsOwned(run, steps, limit, i - 1);
      StepKeepsOwned(run[i - 1], steps[i - 1], limit);
    }
  }

  lemma OneNodeDrawsReferees(run: seq<Board>, steps: seq<Step>, limit: nat, i: nat, n: nat, m: nat)
    requires IsRun(run, steps, limit) && i < |run|
    requires Refereed(run[i].referees, n) && Refereed(run[i].referees, m)
    ensures n < |run[i].nodes| && m < |run[i].nodes|
    ensures run[i].nodes[n].key == run[i].nodes[m].key ==> n == m
  {
    RunKeepsOwned(run, steps, limit, i);
    var b := run[i];
    var a :| 0 <= a < |b.referees| && b.referees[a].node == n;
    var c :| 0 <= c < |b.referees| && b.referees[c].node == m;
    if b.nodes[n].key == b.nodes[m].key {
      RefereedIsCopy(b, n, m);
      RefereedIsCopy(b, m, n);
    }
  }

  // ----- A version's panel is bounded -----

  /** One live referee without a verdict at most, and both counts within the limit. */
  ghost predicate Bounded(referees: seq<Referee>, n: nat, limit: nat) {
    var panel := Panel(referees, n);
    var gaps, waiting := GapsIn(referees, panel), Waiting(referees, n);
    && |waiting| <= 1
    && |panel - gaps| <= limit
    && |gaps| + |waiting| <= limit
  }

  lemma PanelParts(referees: seq<Referee>, n: nat)
    ensures var panel := Panel(referees, n);
            |panel| == |panel - GapsIn(referees, panel)| + |GapsIn(referees, panel)|
  {
    var panel := Panel(referees, n);
    assert panel == (panel - GapsIn(referees, panel)) + GapsIn(referees, panel);
  }

  /** Twice the limit reads the whole panel. */
  lemma WholePanelRead(referees: seq<Referee>, n: nat, limit: nat, rows: set<nat>)
    requires Bounded(referees, n, limit) && IsPage(referees, n, 2 * limit, rows)
    ensures rows == Panel(referees, n)
  {
    var panel := Panel(referees, n);
    PanelParts(referees, n);
    SameSizeSubset(rows, panel);
  }

  lemma AssignedSets(referees: seq<Referee>, v: nat, n: nat, after: seq<Referee>)
    requires after == referees + [Referee(v, true, Unsubmitted)]
    ensures Panel(after, n) == Panel(referees, n) + if v == n then {|referees|} else {}
    ensures Waiting(after, n) == Waiting(referees, n) + if v == n then {|referees|} else {}
    ensures GapsIn(after, Panel(after, n)) == GapsIn(referees, Panel(referees, n))
  {
    assert Panel(after, n) == Panel(referees, n) + if v == n then {|referees|} else {};
  }

  lemma RequestKeepsBounded(referees: seq<Referee>, v: nat, n: nat, limit: nat)
    requires Bounded(referees, n, limit)
    requires v == n ==> var gaps := GapsIn(referees, Panel(referees, n));
                        Waiting(referees, n) == {} && |Panel(referees, n)| - |gaps| < limit && |gaps| < limit
    ensures Bounded(referees + [Referee(v, true, Unsubmitted)], n, limit)
  {
    var panel, gaps := Panel(referees, n), GapsIn(referees, Panel(referees, n));
    AssignedSets(referees, v, n, referees + [Referee(v, true, Unsubmitted)]);
    PanelParts(referees, n);
    if v == n {
      OneMoreMember(panel, gaps, |referees|);
    } else {
      assert panel + {} == panel && Waiting(referees, n) + {} == Waiting(referees, n);
    }
  }

  lemma SubmittedSets(referees: seq<Referee>, t: nat, verdict: Verdict, n: nat, after: seq<Referee>)
    requires t < |referees| && referees[t].live && referees[t].verdict == Unsubmitted && verdict != Unsubmitted
    requires after == referees[t := referees[t].(verdict := verdict)]
    ensures Panel(after, n) == Panel(referees, n) && Waiting(after, n) == Waiting(referees, n) - {t}
    ensures GapsIn(after, Panel(referees, n))
            == GapsIn(referees, Panel(referees, n)) + if referees[t].node == n && verdict == Gaps then {t} else {}
  {
    assert Panel(after, n) == Panel(referees, n);
    assert Waiting(after, n) == Waiting(referees, n) - {t};
  }

  lemma SubmitKeepsBounded(referees: seq<Referee>, t: nat, verdict: Verdict, n: nat, limit: nat)
    requires Bounded(referees, n, limit) && t < |referees|
    requires referees[t].live && referees[t].verdict == Unsubmitted && verdict != Unsubmitted
    ensures Bounded(referees[t := referees[t].(verdict := verdict)], n, limit)
  {
    var panel, gaps, waiting := Panel(referees, n), GapsIn(referees, Panel(referees, n)), Waiting(referees, n);
    SubmittedSets(referees, t, verdict, n, referees[t := referees[t].(verdict := verdict)]);
    if referees[t].node == n && verdict == Gaps {
      assert t in waiting;
      OneMoreGap(panel, gaps, t);
    } else {
      assert gaps + {} == gaps;
    }
  }

  lemma LateVerdictSets(referees: seq<Referee>, t: nat, verdict: Verdict, n: nat, after: seq<Referee>)
    requires t < |referees| && !referees[t].live && referees[t].verdict == Unsubmitted && verdict != Unsubmitted
    requires referees[t].node == n && after == referees[t := referees[t].(verdict := verdict)]
    ensures t !in Panel(referees, n) && Panel(after, n) == Panel(referees, n) + {t}
    ensures Waiting(after, n) == Waiting(referees, n)
    ensures GapsIn(after, Panel(referees, n) + {t})
            == GapsIn(referees, Panel(referees, n)) + if verdict == Gaps then {t} else {}
  {
    assert Panel(after, n) == Panel(referees, n) + {t};
    assert Waiting(after, n) == Waiting(referees, n);
  }

  lemma OneMoreMember(panel: set<nat>, gaps: set<nat>, t: nat)
    requires t !in panel && gaps <= panel
    ensures (panel + {t}) - (gaps + {t}) == panel - gaps && |gaps + {t}| == |gaps| + 1
    ensures |(panel + {t}) - gaps| == |panel - gaps| + 1
  {
    assert (panel + {t}) - gaps == (panel - gaps) + {t};
  }

  /** A late verdict keeps its panel bounded exactly when there was room for it. */
  lemma LateVerdictBounded(referees: seq<Referee>, t: nat, verdict: Verdict, limit: nat)
    requires t < |referees| && !referees[t].live && referees[t].verdict == Unsubmitted && verdict != Unsubmitted
    requires Bounded(referees, referees[t].node, limit)
    ensures Bounded(referees[t := referees[t].(verdict := verdict)], referees[t].node, limit)
            <==> HasRoom(referees, referees[t].node, verdict, limit)
  {
    var n, after := referees[t].node, referees[t := referees[t].(verdict := verdict)];
    var panel, gaps := Panel(referees, n), GapsIn(referees, Panel(referees, n));
    LateVerdictSets(referees, t, verdict, n, after);
    OneMoreMember(panel, gaps, t);
    assert gaps + {} == gaps;
  }

  /** Nor does it touch any other panel. */
  lemma OtherPanelsKept(referees: seq<Referee>, t: nat, verdict: Verdict, n: nat)
    requires t < |referees| && referees[t].node != n
    ensures var after := referees[t := referees[t].(verdict := verdict)];
            && Panel(after, n) == Panel(referees, n) && Waiting(after, n) == Waiting(referees, n)
            && GapsIn(after, Panel(after, n)) == GapsIn(referees, Panel(referees, n))
  {
  }

  lemma RevivedSets(referees: seq<Referee>, t: nat, n: nat, after: seq<Referee>)
    requires t < |referees| && !referees[t].live && after == referees[t := referees[t].(live := true)]
    ensures var back := if referees[t].node == n && referees[t].verdict == Unsubmitted then {t} else {};
            Panel(after, n) == Panel(referees, n) + back && Waiting(after, n) == Waiting(referees, n) + back
    ensures GapsIn(after, Panel(after, n)) == GapsIn(referees, Panel(referees, n))
    ensures referees[t].verdict == Unsubmitted ==> t !in Panel(referees, n) && t !in Waiting(referees, n)
  {
    var back := if referees[t].node == n && referees[t].verdict == Unsubmitted then {t} else {};
    assert Panel(after, n) == Panel(referees, n) + back;
    assert Waiting(after, n) == Waiting(referees, n) + back;
  }

  /** A referee that comes back without a verdict keeps its panel bounded exactly when there was a seat
      for it; any other panel, or one it had submitted to, is as it was. */
  lemma RevivedBounded(referees: seq<Referee>, t: nat, n: nat, limit: nat)
    requires t < |referees| && !referees[t].live && Bounded(referees, n, limit)
    ensures Bounded(referees[t := referees[t].(live := true)], n, limit)
            <==> (referees[t].node == n && referees[t].verdict == Unsubmitted ==> HasSeat(referees, n, limit))
  {
    var panel, gaps := Panel(referees, n), GapsIn(referees, Panel(referees, n));
    RevivedSets(referees, t, n, referees[t := referees[t].(live := true)]);
    if referees[t].node == n && referees[t].verdict == Unsubmitted {
      OneMoreSeat(panel, gaps, Waiting(referees, n), t, limit);
    } else {
      assert panel + {} == panel && Waiting(referees, n) + {} == Waiting(referees, n);
    }
  }

  lemma OneMoreSeat(panel: set<nat>, gaps: set<nat>, waiting: set<nat>, t: nat, limit: nat)
    requires t !in panel && t !in waiting && gaps <= panel
    ensures |waiting + {t}| <= 1 && |panel + {t} - gaps| <= limit && |gaps| + |waiting + {t}| <= limit
            <==> waiting == {} && |panel - gaps| < limit && |gaps| < limit
  {
    OneMoreMember(panel, gaps, t);
  }

  lemma OneMoreGap(panel: set<nat>, gaps: set<nat>, t: nat)
    requires t in panel && t !in gaps
    ensures |panel - (gaps + {t})| == |panel - gaps| - 1 && |gaps + {t}| == |gaps| + 1
  {
    assert panel - (gaps + {t}) == (panel - gaps) - {t};
  }

  lemma EndKeepsBounded(referees: seq<Referee>, t: nat, n: nat, limit: nat)
    requires Bounded(referees, n, limit) && t < |referees|
    ensures Bounded(referees[t := referees[t].(live := false)], n, limit)
  {
    var referees' := referees[t := referees[t].(live := false)];
    var panel, gaps, waiting := Panel(referees, n), GapsIn(referees, Panel(referees, n)), Waiting(referees, n);
    assert Waiting(referees', n) == waiting - {t};
    assert Panel(referees', n) == if referees[t].verdict == Unsubmitted then panel - {t} else panel;
    assert GapsIn(referees', Panel(referees', n)) == gaps;
    if referees[t].verdict == Unsubmitted {
      assert (panel - {t}) - gaps == (panel - gaps) - {t};
    }
  }

  ghost predicate AllBounded(b: Board, limit: nat) {
    forall n: nat :: Bounded(b.referees, n, limit)
  }

  /** A step keeps every panel bounded exactly when it is neither a late verdict without room nor a
      return without a seat. */
  lemma StepBoundedExactly(b: Board, step: Step, limit: nat)
    requires AllBounded(b, limit) && Enabled(b, step, limit)
    ensures AllBounded(Next(b, step, limit), limit) <==> InTime(b, step, limit)
  {
    if step.Submit? && !b.referees[step.referee].live {
      LateVerdictBounded(b.referees, step.referee, step.verdict, limit);
    }
    if step.Revive? {
      RevivedBounded(b.referees, step.referee, b.referees[step.referee].node, limit);
    }
    if InTime(b, step, limit) {
      forall n: nat ensures Bounded(Next(b, step, limit).referees, n, limit) {
        StepKeepsBounded(b, step, n, limit);
      }
    }
  }

  lemma StepKeepsBounded(b: Board, step: Step, n: nat, limit: nat)
    requires Bounded(b.referees, n, limit) && Enabled(b, step, limit) && InTime(b, step, limit)
    ensures Bounded(Next(b, step, limit).referees, n, limit)
  {
    match step
    case Request(v, compiled, rows, admitted) =>
      if Answer(b, v, compiled, rows, admitted, limit).Assigned? {
        if v == n {
          WholePanelRead(b.referees, n, limit, rows);
        }
        RequestKeepsBounded(b.referees, v, n, limit);
      }
    case Submit(t, verdict) =>
      if b.referees[t].live {
        SubmitKeepsBounded(b.referees, t, verdict, n, limit);
      } else if b.referees[t].node == n {
        LateVerdictBounded(b.referees, t, verdict, limit);
      } else {
        OtherPanelsKept(b.referees, t, verdict, n);
      }
    case End(t) => EndKeepsBounded(b.referees, t, n, limit);
    case Revive(t) => RevivedBounded(b.referees, t, n, limit);
    case Create(_) =>
    case Close(_, _) =>
  }

  /** On every run, all panels stay bounded exactly as long as each verdict submitted late had room, and
      each referee that came back without one had a seat, when it did. */
  lemma {:induction false} PanelsBoundedExactly(run: seq<Board>, steps: seq<Step>, limit: nat, k: nat)
    requires IsRun(run, steps, limit) && k < |run|
    ensures (forall i | 0 <= i <= k :: AllBounded(run[i], limit)) <==> forall j | 0 <= j < k :: InTime(run[j], steps[j], limit)
  {
    if k == 0 {
      NoPanels(limit);
    } else {
      var i := k - 1;
      PanelsBoundedExactly(run, steps, limit, i);
      assert run[i + 1] == Next(run[i], steps[i], limit);
      if AllBounded(run[i], limit) {
        StepBoundedExactly(run[i], steps[i], limit);
      } else {
        assert exists j :: 0 <= j < i && !InTime(run[j], steps[j], limit);
      }
    }
  }

  lemma NoPanels(limit: nat)
    ensures AllBounded(Board([], []), limit)
  {
    forall n: nat ensures Bounded([], n, limit) {
      assert Panel([], n) == {} && Waiting([], n) == {};
    }
  }

  /** With verdicts submitted only by live tasks, and ended ones back only while there is a seat: on
      every run each version has at most one live referee without a verdict, and neither count passes
      the limit. */
  lemma PanelsStayBounded(run: seq<Board>, steps: seq<Step>, limit: nat, i: nat, n: nat)
    requires IsRun(run, steps, limit) && i < |run|
    requires forall j | 0 <= j < |steps| :: Prompt(run[j], steps[j]) && (steps[j].Revive? ==> InTime(run[j], steps[j], limit))
    ensures Bounded(run[i].referees, n, limit) && |Panel(run[i].referees, n)| <= 2 * limit
  {
    forall j | 0 <= j < i ensures InTime(run[j], steps[j], limit) {
      assert Prompt(run[j], steps[j]);
    }
    PanelsBoundedExactly(run, steps, limit, i);
    PanelParts(run[i].referees, n);
  }

  /** While late verdicts find room and returning referees a seat, a version's verdicts are never more than twice the limit, and
      every request answered along the run saw its whole panel. */
  lemma EveryRequestSeesThePanel(run: seq<Board>, steps: seq<Step>, limit: nat, i: nat, n: nat)
    requires IsRun(run, steps, limit) && i < |steps| && steps[i].Request? && steps[i].n == n
    requires forall j | 0 <= j < i :: InTime(run[j], steps[j], limit)
    ensures steps[i].rows == Panel(run[i].referees, n)
    ensures |Verdicts(run[i].referees, n)| <= 2 * limit
  {
    PanelsBoundedExactly(run, steps, limit, i);
    assert AllBounded(run[i], limit);
    PanelParts(run[i].referees, n);
    WholePanelRead(run[i].referees, n, limit, steps[i].rows);
    SubsetSize(Verdicts(run[i].referees, n), Panel(run[i].referees, n));
  }

  // ----- A panel no bound holds -----

  function Quiet(k: nat): seq<Referee> {
    if k == 0 then [] else Quiet(k - 1) + [Referee(0, false, Unsubmitted)]
  }

  lemma {:induction false} QuietCounts(k: nat)
    ensures |Quiet(k)| == k && Panel(Quiet(k), 0) == {} && Waiting(Quiet(k), 0) == {}
    ensures forall i | 0 <= i < k :: Quiet(k)[i] == Referee(0, false, Unsubmitted)
  {
    if k > 0 {
      QuietCounts(k - 1);
    }
  }

  function Subject(): ReviewNode {
    ReviewNode(0, Lemma, Open)
  }

  /** Referees that end without a verdict do not count, so any number can be drawn in turn ... */
  lemma {:induction false} QuietRun(k: nat, limit: nat) returns (run: seq<Board>, steps: seq<Step>)
    requires limit > 0
    ensures IsRun(run, steps, limit) && run[|run| - 1] == Board([Subject()], Quiet(k))
    ensures forall j | 0 <= j < |steps| :: !steps[j].Submit?
  {
    if k == 0 {
      run, steps := [Board([], []), Board([Subject()], [])], [Create(Subject())];
      assert [] + [Subject()] == [Subject()];
    } else {
      run, steps := QuietRun(k - 1, limit);
      QuietCounts(k - 1);
      var b := run[|run| - 1];
      var drawn := Board(b.nodes, b.referees + [Referee(0, true, Unsubmitted)]);
      NoOwner(b, 0);
      assert Owner(b, 0).None?;
      assert GapsIn(b.referees, {}) == {};
      assert Next(b, Request(0, false, {}, true), limit) == drawn;
      run, steps := OneMore(run, steps, limit, Request(0, false, {}, true), drawn);
      var ended := Board(b.nodes, Quiet(k));
      assert drawn.referees[k - 1 := Referee(0, false, Unsubmitted)] == Quiet(k);
      run, steps := OneMore(run, steps, limit, End(k - 1), ended);
    }
  }

  lemma OneMore(run: seq<Board>, steps: seq<Step>, limit: nat, step: Step, b: Board)
    returns (run': seq<Board>, steps': seq<Step>)
    requires IsRun(run, steps, limit) && Enabled(run[|run| - 1], step, limit) && Next(run[|run| - 1], step, limit) == b
    ensures run' == run + [b] && steps' == steps + [step] && IsRun(run', steps', limit)
  {
    run', steps' := run + [b], steps + [step];
    forall i | 0 <= i < |steps'|
      ensures Enabled(run'[i], steps'[i], limit) && run'[i + 1] == Next(run'[i], steps'[i], limit)
    {
      if i < |steps| {
        assert run'[i] == run[i] && steps'[i] == steps[i] && run'[i + 1] == run[i + 1];
      }
    }
  }

  function Filled(k: nat, j: nat): seq<Referee>
    requires j <= k
  {
    seq(k, i requires 0 <= i < k => Referee(0, false, if i < j then Judged else Unsubmitted))
  }

  lemma {:induction false} FilledRun(k: nat, j: nat, limit: nat) returns (run: seq<Board>, steps: seq<Step>)
    requires limit > 0 && j <= k
    ensures IsRun(run, steps, limit) && run[|run| - 1] == Board([Subject()], Filled(k, j))
  {
    if j == 0 {
      run, steps := QuietRun(k, limit);
      QuietCounts(k);
      assert Quiet(k) == Filled(k, 0);
    } else {
      run, steps := FilledRun(k, j - 1, limit);
      assert Filled(k, j - 1)[j - 1 := Referee(0, false, Judged)] == Filled(k, j);
      run, steps := OneMore(run, steps, limit, Submit(j - 1, Judged), Board([Subject()], Filled(k, j)));
    }
  }

  /** ... and since a submission outside a worker asks neither whether its task is still live nor
      whether there is room, a version's verdicts can pass every bound. */
  lemma LateVerdictsPassEveryBound(k: nat, limit: nat) returns (run: seq<Board>, steps: seq<Step>)
    requires limit > 0
    ensures IsRun(run, steps, limit) && |Verdicts(run[|run| - 1].referees, 0)| == k
    ensures |Panel(run[|run| - 1].referees, 0)| == k
  {
    run, steps := FilledRun(k, k, limit);
    Below(k);
    assert Verdicts(Filled(k, k), 0) == Indices(k);
    assert Panel(Filled(k, k), 0) == Indices(k);
  }

  /** `k` referees that never submitted, `j` of them back. */
  function Woken(k: nat, j: nat): seq<Referee>
    requires j <= k
  {
    seq(k, i requires 0 <= i < k => Referee(0, i < j, Unsubmitted))
  }

  lemma {:induction false} WokenRun(k: nat, j: nat, limit: nat) returns (run: seq<Board>, steps: seq<Step>)
    requires limit > 0 && j <= k
    ensures IsRun(run, steps, limit) && run[|run| - 1] == Board([Subject()], Woken(k, j))
    ensures forall i | 0 <= i < |steps| :: !steps[i].Submit?
  {
    if j == 0 {
      run, steps := QuietRun(k, limit);
      QuietCounts(k);
      assert Quiet(k) == Woken(k, 0);
    } else {
      run, steps := WokenRun(k, j - 1, limit);
      assert Woken(k, j - 1)[j - 1 := Referee(0, true, Unsubmitted)] == Woken(k, j);
      run, steps := OneMore(run, steps, limit, Revive(j - 1), Board([Subject()], Woken(k, j)));
    }
  }

  /** Nor does a continuation ask for a seat: without one verdict submitted, any number of referees of
      one version can be live at once. */
  lemma RevivalsPassEveryBound(k: nat, limit: nat) returns (run: seq<Board>, steps: seq<Step>)
    requires limit > 0
    ensures IsRun(run, steps, limit) && (forall i | 0 <= i < |steps| :: !steps[i].Submit?)
    ensures |Waiting(run[|run| - 1].referees, 0)| == k
  {
    run, steps := WokenRun(k, k, limit);
    Below(k);
    assert Waiting(Woken(k, k), 0) == Indices(k);
  }

  function Indices(k: nat): (r: set<nat>)
    ensures forall i: nat :: i in r <==> i < k
  {
    if k == 0 then {} else Indices(k - 1) + {k - 1}
  }

  lemma {:induction false} Below(k: nat)
    ensures |Indices(k)| == k
  {
    if k > 0 {
      Below(k - 1);
    }
  }

  // ----- The commands over stored rows -----

  class ReviewTables {
    var nodes: seq<ReviewNode>
    var referees: seq<Referee>

    ghost function Contents(): Board
      reads this
    {
      Board(nodes, referees)
    }

    ghost predicate Valid()
      reads this
    {
      Owned(Contents())
    }

    constructor ()
      ensures Valid() && Contents() == Board([], [])
    {
      nodes, referees := [], [];
    }

    /** Request a review, from what a query of the panel returned. */
    method RequestReview(n: nat, compiled: bool, rows: set<nat>, admitted: bool, quorum: nat) returns (reply: Reply)
      requires Valid() && n < |nodes| && IsPage(referees, n, 2 * (quorum + REVIEW_RETRIES), rows)
      modifies this`referees
      ensures Valid() && Contents() == Next(old(Contents()), Request(n, compiled, rows, admitted), quorum + REVIEW_RETRIES)
      ensures reply == Answer(old(Contents()), n, compiled, rows, admitted, quorum + REVIEW_RETRIES)
      ensures reply.Assigned? ==> referees == old(referees) + [Referee(n, true, Unsubmitted)]
    {
      StepKeepsOwned(Contents(), Request(n, compiled, rows, admitted), quorum + REVIEW_RETRIES);
      if !IsOpen(nodes[n].status) || nodes[n].nodeType !in {Approach, Conjecture, Lemma} || compiled {
        return NotReviewable;
      }
      var owner := StatementOwner(Board(nodes, referees), n);
      if owner.Some? {
        return Duplicate(owner.value);
      }
      var waiting := Waiting(referees, n);
      if waiting != {} {
        return Deduplicated(Smallest(waiting));
      }
      var limit, gaps := quorum + REVIEW_RETRIES, |GapsIn(referees, rows)|;
      if |rows| - gaps >= limit || gaps >= limit {
        return ReviewLimit;
      }
      if !admitted {
        return NotAdmitted;
      }
      reply := Assigned(|referees|);
      referees := referees + [Referee(n, true, Unsubmitted)];
    }

    /** Record a referee's verdict; a second one is refused. */
    method SubmitReview(t: nat, verdict: Verdict) returns (recorded: bool)
      requires Valid() && t < |referees| && verdict != Unsubmitted
      modifies this`referees
      ensures Valid() && recorded == (old(referees)[t].verdict == Unsubmitted)
      ensures referees == if recorded then old(referees)[t := old(referees)[t].(verdict := verdict)] else old(referees)
    {
      if referees[t].verdict != Unsubmitted {
        return false;
      }
      StepKeepsOwned(Contents(), Submit(t, verdict), 0);
      referees := referees[t := referees[t].(verdict := verdict)];
      recorded := true;
    }
  }
}
