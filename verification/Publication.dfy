/** Publishing a checked Lean source as a node's module: what a source proves, which source keeps
    its place, and the bounded search that keeps the stored imports acyclic. */
module Publication {
  import opened Basics
  import opened Commons
  import opened Graphs
  import opened Closures

  datatype Proof = Ranked(rank: Rank) | Stale | Stub | NoSource

  datatype Refusal = NotFound | GoalNode | NodeClosed | ArtifactScope | RefusedCommand | StatementChanged | InvalidRecord
                   | LowerRank(held: Rank) | ImportsOwnModule

  datatype Outcome = Published(replaced: bool) | Refused(reason: Refusal)

  /** One checked source and what the platform found out about it: whether its artifact is a source
      of the publisher's own branch in the node's experiment, whether it holds a command no
      published module may hold, whether its check supports the verified rank, and whether the
      branch that holds the node's source, or its author's, is live. */
  datatype Publication = Publication(node: Id, source: Source, inScope: bool, refused: bool, verifiedEvidence: bool,
                                     holdersLive: bool)

  function RankValue(rank: Rank): nat {
    match rank case Partial => 1 case Complete => 2 case Verified => 3
  }

  predicate IsComplete(rank: Rank) {
    rank == Complete || rank == Verified
  }

  predicate HasElaboratedStatement(node: Node) {
    node.statement.Some? && node.elaborated
  }

  /** What the node's source proves of its current statement, by the statement alone. */
  function StatementState(node: Node): Proof {
    if node.source.Some? then
      if node.source.value.statement != node.statement then Stale else Ranked(node.source.value.rank)
    else if HasElaboratedStatement(node) then Stub
    else NoSource
  }

  /** ... and by whether the source still stands on what it inlined. */
  function SourceState(node: Node, stands: bool): Proof {
    var state := StatementState(node);
    if state.Ranked? && !stands then Stale else state
  }

  /** A source without a match of the current statement, or that no longer stands, is stale; without a
      source, an elaborated statement stands in as a stub. */
  lemma SourceStateIs(node: Node, stands: bool)
    ensures SourceState(node, stands).Ranked? <==> node.source.Some? && node.source.value.statement == node.statement && stands
    ensures SourceState(node, stands).Ranked? ==> SourceState(node, stands).rank == node.source.value.rank
    ensures SourceState(node, stands) == Stub <==> node.source == None && node.statement.Some? && node.elaborated
    ensures SourceState(node, stands) == NoSource <==> node.source == None && !(node.statement.Some? && node.elaborated)
  {
  }

  predicate Owns(node: Node, branch: Option<Branch>) {
    branch == node.author || (node.source.Some? && branch == node.source.value.branch)
  }

  /** The rank of the source that keeps its place against a new one, if it does. */
  function BlockingRank(node: Node, rank: Rank, branch: Option<Branch>, state: Proof, holdersLive: bool): Option<Rank> {
    if !state.Ranked? || node.source.None? then None
    else
      var held := node.source.value.rank;
      if RankValue(rank) < RankValue(held) then Some(held)
      else if rank == held && IsComplete(held) && !Owns(node, branch)
              && (held == Verified || HasElaboratedStatement(node) || holdersLive) then Some(held)
      else None
  }

  // ----- The stored import graph -----

  function ImportIds(nodes: map<Id, Node>, n: Id): seq<Id> {
    if n in nodes && nodes[n].source.Some? then EntryIds(nodes[n].source.value.imports) else []
  }

  function EntryIds(entries: seq<Entry>): seq<Id> {
    seq(|entries|, i requires 0 <= i < |entries| => entries[i].node)
  }

  ghost function ImportGraph(nodes: map<Id, Node>): Graph {
    imap n | n in nodes :: ImportIds(nodes, n)
  }

  /** The bounded breadth-first search: expands at most `MAX_COMMONS_MODULES` nodes and drops
      whatever else is queued, unless it is the target itself. */
  function BoundedReach(nodes: map<Id, Node>, target: Id, queue: seq<Id>, seen: set<Id>): bool
    decreases if |seen| < MAX_COMMONS_MODULES then MAX_COMMONS_MODULES - |seen| else 0, |queue|
  {
    if queue == [] then false
    else if queue[0] == target then true
    else if queue[0] in seen || |seen| >= MAX_COMMONS_MODULES then
      BoundedReach(nodes, target, queue[1..], seen)
    else BoundedReach(nodes, target, queue[1..] + ImportIds(nodes, queue[0]), seen + {queue[0]})
  }

  /** Whether `target` is reachable from the imports: the search's loop. */
  method ImportsReach(nodes: map<Id, Node>, target: Id, imports: seq<Entry>) returns (reaches: bool)
    ensures reaches == BoundedReach(nodes, target, EntryIds(imports), {})
  {
    var queue, seen: set<Id> := EntryIds(imports), {};
    while queue != []
      invariant BoundedReach(nodes, target, EntryIds(imports), {}) == BoundedReach(nodes, target, queue, seen)
      decreases if |seen| < MAX_COMMONS_MODULES then MAX_COMMONS_MODULES - |seen| else 0, |queue|
    {
      var current := queue[0];
      if current == target {
        return true;
      }
      queue := queue[1..];
      if current in seen || |seen| >= MAX_COMMONS_MODULES {
        continue;
      }
      seen := seen + {current};
      queue := queue + ImportIds(nodes, current);
    }
    reaches := false;
  }

  /** A positive answer is always right, however large the closure. */
  lemma {:induction false} BoundedReachSound(nodes: map<Id, Node>, target: Id, queue: seq<Id>, seen: set<Id>)
    requires BoundedReach(nodes, target, queue, seen)
    ensures exists x :: x in queue && Reaches(ImportGraph(nodes), x, target)
    decreases if |seen| < MAX_COMMONS_MODULES then MAX_COMMONS_MODULES - |seen| else 0, |queue|
  {
    var g, c, rest := ImportGraph(nodes), queue[0], queue[1..];
    if c == target {
      ReachesSelf(g, c);
    } else if c in seen || |seen| >= MAX_COMMONS_MODULES {
      BoundedReachSound(nodes, target, rest, seen);
    } else {
      BoundedReachSound(nodes, target, rest + ImportIds(nodes, c), seen + {c});
      var x :| x in rest + ImportIds(nodes, c) && Reaches(g, x, target);
      if x !in rest {
        EdgeReaches(g, c, x);
        ReachesTrans(g, c, x, target);
      }
    }
  }

  /** At most `MAX_COMMONS_MODULES` nodes besides the target are reachable from the queue. */
  ghost predicate ClosureFits(g: Graph, target: Id, queue: seq<Id>, cover: set<Id>) {
    |cover| <= MAX_COMMONS_MODULES
    && forall x, y | x in queue && Reaches(g, x, y) && y != target :: y in cover
  }

  /** Within the bound a negative answer is right too: what was seen is closed under imports. */
  lemma {:induction false} BoundedReachComplete(nodes: map<Id, Node>, target: Id, queue: seq<Id>, seen: set<Id>,
                                                cover: set<Id>, x: Id)
    requires ClosureFits(ImportGraph(nodes), target, queue, cover) && seen <= cover
    requires target !in seen
    requires forall a, b | a in seen && Edge(ImportGraph(nodes), a, b) :: b in seen || b in queue
    requires !BoundedReach(nodes, target, queue, seen)
    requires x in queue || x in seen
    ensures !Reaches(ImportGraph(nodes), x, target)
    decreases if |seen| < MAX_COMMONS_MODULES then MAX_COMMONS_MODULES - |seen| else 0, |queue|
  {
    var g := ImportGraph(nodes);
    if queue == [] {
      if Reaches(g, x, target) {
        ReachesStays(g, (iset y | y in seen), x, target);
      }
    } else {
      var c, rest := queue[0], queue[1..];
      ReachesSelf(g, c);
      if |seen| >= MAX_COMMONS_MODULES {
        SameSizeSubset(seen, cover);
      }
      if c in seen {
        assert forall b | b in queue && b !in rest :: b == c;
        BoundedReachComplete(nodes, target, rest, seen, cover, x);
      } else {
        var longer := rest + ImportIds(nodes, c);
        forall a, b | a in longer && Reaches(g, a, b) && b != target ensures b in cover {
          if a !in rest {
            EdgeReaches(g, c, a);
            ReachesTrans(g, c, a, b);
          }
        }
        BoundedReachComplete(nodes, target, longer, seen + {c}, cover, x);
      }
    }
  }

  /** The search answers reachability exactly while the closure fits its bound. */
  lemma ImportsReachExact(nodes: map<Id, Node>, target: Id, imports: seq<Entry>, cover: set<Id>)
    requires ClosureFits(ImportGraph(nodes), target, EntryIds(imports), cover)
    ensures BoundedReach(nodes, target, EntryIds(imports), {})
            <==> exists x :: x in EntryIds(imports) && Reaches(ImportGraph(nodes), x, target)
  {
    if BoundedReach(nodes, target, EntryIds(imports), {}) {
      BoundedReachSound(nodes, target, EntryIds(imports), {});
    } else {
      forall x | x in EntryIds(imports) ensures !Reaches(ImportGraph(nodes), x, target) {
        BoundedReachComplete(nodes, target, EntryIds(imports), {}, cover, x);
      }
    }
  }

  // ----- The bound is tight: a chain of imports -----

  /** Nodes 1 to `length`, each importing the next, the last one importing `length + 1`. */
  function Chain(length: nat): map<Id, Node> {
    var names := Below(length + 1);
    map n | n in names ::
      Node(Lemma, Open, None, 0, None, false,
           Some(Source(n, Partial, None, None, [Entry(n + 1, Some(n + 1))], None)))
  }

  /** The nodes 1 to `k - 1`. */
  function Below(k: nat): (r: set<Id>)
    ensures forall x :: x in r <==> 1 <= x < k
    ensures |r| == if k == 0 then 0 else k - 1
  {
    if k <= 1 then {} else Below(k - 1) + {k - 1}
  }

  lemma ChainImports(length: nat, k: nat)
    requires 1 <= k <= length
    ensures ImportIds(Chain(length), k) == [k + 1]
  {
    assert k in Chain(length);
  }

  lemma {:induction false} ChainSearch(length: nat, k: nat, seen: set<Id>)
    requires 1 <= k <= length + 1 && k <= MAX_COMMONS_MODULES + 1
    requires |seen| == k - 1 && forall x | x in seen :: x < k
    ensures BoundedReach(Chain(length), length + 1, [k], seen) <==> length <= MAX_COMMONS_MODULES
    decreases length - k
  {
    if k <= length {
      ChainImports(length, k);
      if k <= MAX_COMMONS_MODULES {
        assert [k][1..] + [k + 1] == [k + 1];
        ChainSearch(length, k + 1, seen + {k});
      } else {
        assert [k][1..] == [];
        assert !BoundedReach(Chain(length), length + 1, [], seen);
      }
    }
  }

  lemma {:induction false} ChainReaches(length: nat, k: nat)
    requires 1 <= k <= length + 1
    ensures Reaches(ImportGraph(Chain(length)), k, length + 1)
    decreases length - k
  {
    var g := ImportGraph(Chain(length));
    if k == length + 1 {
      ReachesSelf(g, k);
    } else {
      ChainReaches(length, k + 1);
      ChainImports(length, k);
      EdgeReaches(g, k, k + 1);
      ReachesTrans(g, k, k + 1, length + 1);
    }
  }

  /** Along a chain of imports the search is right exactly up to its bound: one module more and a
      reachable target is missed. */
  lemma ChainOfImportsSearched(length: nat)
    requires length > 0
    ensures Reaches(ImportGraph(Chain(length)), 1, length + 1)
    ensures BoundedReach(Chain(length), length + 1, EntryIds([Entry(1, None)]), {})
            <==> length <= MAX_COMMONS_MODULES
  {
    ChainReaches(length, 1);
    ChainSearch(length, 1, {});
    assert EntryIds([Entry(1, None)]) == [1];
  }

  // ----- Publication -----

  /** What the publication command decides, in the order it decides. */
  ghost function Decide(nodes: map<Id, Node>, p: Publication): Outcome {
    if p.node !in nodes then Refused(NotFound) else
    var node := nodes[p.node];
    var state := SourceState(node, Stands(nodes, p.node));
    var held := BlockingRank(node, p.source.rank, p.source.branch, state, p.holdersLive);
    if node.nodeType == Goal then Refused(GoalNode)
    else if !IsOpen(node.status) then Refused(NodeClosed)
    else if !p.inScope then Refused(ArtifactScope)
    else if p.refused then Refused(RefusedCommand)
    else if node.statement.Some? && p.source.statement != node.statement then Refused(StatementChanged)
    else if p.source.rank == Verified && !p.verifiedEvidence then Refused(InvalidRecord)
    else if held.Some? then Refused(LowerRank(held.value))
    else if BoundedReach(nodes, p.node, EntryIds(p.source.imports), {}) then Refused(ImportsOwnModule)
    else Published(node.source.Some?)
  }

  function Replaced(nodes: map<Id, Node>, p: Publication): map<Id, Node>
    requires p.node in nodes
  {
    nodes[p.node := nodes[p.node].(source := Some(p.source))]
  }

  ghost function Apply(nodes: map<Id, Node>, p: Publication): map<Id, Node> {
    if Decide(nodes, p).Published? then Replaced(nodes, p) else nodes
  }

  method Judgement(nodes: map<Id, Node>, p: Publication) returns (outcome: Outcome)
    ensures outcome == Decide(nodes, p)
  {
    if p.node !in nodes { return Refused(NotFound); }
    var node := nodes[p.node];
    if node.nodeType == Goal { return Refused(GoalNode); }
    if !IsOpen(node.status) { return Refused(NodeClosed); }
    if !p.inScope { return Refused(ArtifactScope); }
    if p.refused { return Refused(RefusedCommand); }
    if node.statement.Some? && p.source.statement != node.statement {
      return Refused(StatementChanged);
    }
    if p.source.rank == Verified && !p.verifiedEvidence { return Refused(InvalidRecord); }
    var judge := new Judge(nodes);
    var stands := judge.SourceStands(p.node);
    var held := BlockingRank(node, p.source.rank, p.source.branch, SourceState(node, stands), p.holdersLive);
    if held.Some? { return Refused(LowerRank(held.value)); }
    var reaches := ImportsReach(nodes, p.node, p.source.imports);
    if reaches { return Refused(ImportsOwnModule); }
    outcome := Published(node.source.Some?);
  }

  // ----- The nodes along a run of commands -----

  /** What the commands do to the stored nodes; a publication is undone when one of its edges is
      refused. */
  datatype NodeStep =
    | Create(id: Id, node: Node)
    | SetStatement(id: Id, statement: Digest, elaborated: bool)
    | SetStatus(id: Id, status: Status)
    | Publish(publication: Publication, undone: bool)

  /** A move the one status gate allows: an open node closes, for good. */
  predicate AllowedTransition(from: Status, to: Status) {
    IsOpen(from) && !IsOpen(to)
  }

  ghost function After(nodes: map<Id, Node>, step: NodeStep): map<Id, Node> {
    match step
    case Create(id, node) => if id !in nodes && node.source.None? then nodes[id := node] else nodes
    case SetStatement(id, statement, elaborated) =>
      if id in nodes && nodes[id].nodeType != Goal && IsOpen(nodes[id].status)
      then nodes[id := nodes[id].(statement := Some(statement), elaborated := elaborated)] else nodes
    case SetStatus(id, status) =>
      if id in nodes && AllowedTransition(nodes[id].status, status) then nodes[id := nodes[id].(status := status)] else nodes
    case Publish(p, undone) => if undone then nodes else Apply(nodes, p)
  }

  ghost function AfterRun(nodes: map<Id, Node>, run: seq<NodeStep>): map<Id, Node>
    decreases |run|
  {
    if run == [] then nodes else AfterRun(After(nodes, run[0]), run[1..])
  }

  /** A publication's import closure fits the search bound when it is decided. */
  ghost predicate Fits(nodes: map<Id, Node>, step: NodeStep) {
    step.Publish? ==>
      exists cover :: ClosureFits(ImportGraph(nodes), step.publication.node, EntryIds(step.publication.source.imports), cover)
  }

  ghost predicate RunFits(nodes: map<Id, Node>, run: seq<NodeStep>)
    decreases |run|
  {
    run == [] || (Fits(nodes, run[0]) && RunFits(After(nodes, run[0]), run[1..]))
  }

  lemma PublishKeepsAcyclic(nodes: map<Id, Node>, p: Publication, cover: set<Id>)
    requires Acyclic(ImportGraph(nodes))
    requires ClosureFits(ImportGraph(nodes), p.node, EntryIds(p.source.imports), cover)
    ensures Acyclic(ImportGraph(Apply(nodes, p)))
  {
    if Decide(nodes, p).Published? {
      ImportsReachExact(nodes, p.node, p.source.imports, cover);
      ReplaceKeepsAcyclic(ImportGraph(nodes), p.node, EntryIds(p.source.imports));
      assert ImportGraph(Replaced(nodes, p)) == ImportGraph(nodes)[p.node := EntryIds(p.source.imports)];
    }
  }

  /** Of any size of closure: a publication that is let through keeps the imports acyclic exactly when
      nothing it imports reaches the node. */
  lemma PublishedAcyclicExactly(nodes: map<Id, Node>, p: Publication)
    requires Acyclic(ImportGraph(nodes)) && Decide(nodes, p).Published?
    ensures Acyclic(ImportGraph(Apply(nodes, p)))
            <==> forall x | x in EntryIds(p.source.imports) :: !Reaches(ImportGraph(nodes), x, p.node)
  {
    var g, out := ImportGraph(nodes), EntryIds(p.source.imports);
    assert ImportGraph(Replaced(nodes, p)) == g[p.node := out];
    ReplaceAcyclicExactly(g, p.node, out);
  }

  /** Of the other commands none touches an import. */
  lemma OtherStepsKeepImports(nodes: map<Id, Node>, step: NodeStep, a: Id, b: Id)
    requires !step.Publish?
    ensures Edge(ImportGraph(After(nodes, step)), a, b) <==> Edge(ImportGraph(nodes), a, b)
  {
  }

  lemma StepKeepsAcyclic(nodes: map<Id, Node>, step: NodeStep)
    requires Acyclic(ImportGraph(nodes)) && Fits(nodes, step)
    ensures Acyclic(ImportGraph(After(nodes, step)))
  {
    if step.Publish? {
      var p := step.publication;
      var cover :| ClosureFits(ImportGraph(nodes), p.node, EntryIds(p.source.imports), cover);
      PublishKeepsAcyclic(nodes, p, cover);
    } else {
      var g, g' := ImportGraph(nodes), ImportGraph(After(nodes, step));
      forall a, b ensures Edge(g', a, b) <==> Edge(g, a, b) {
        OtherStepsKeepImports(nodes, step, a, b);
      }
      forall a, b | Edge(g', a, b) && Reaches(g', b, a) ensures false {
        SubgraphReaches(g', g, b, a);
      }
    }
  }

  /** The stored import graph stays acyclic along every run of creations, statement and status
      changes, publications and replacements whose closures fit the bound. */
  lemma {:induction false} StoredImportsStayAcyclic(nodes: map<Id, Node>, run: seq<NodeStep>)
    requires Acyclic(ImportGraph(nodes)) && RunFits(nodes, run)
    ensures Acyclic(ImportGraph(AfterRun(nodes, run)))
    decreases |run|
  {
    if run != [] {
      StepKeepsAcyclic(nodes, run[0]);
      StoredImportsStayAcyclic(After(nodes, run[0]), run[1..]);
    }
  }

  // ----- Which source keeps its place -----

  /** The source a node has keeps its place against a new one, by the stored fields: it is of the node's
      current statement and stands, and the new one is of lower rank; or of the same complete rank, by
      neither its publisher nor the author, and the old one is verified, or of an elaborated statement,
      or one of its holders is live. */
  ghost predicate KeepsItsPlace(nodes: map<Id, Node>, p: Publication)
    requires p.node in nodes
  {
    var node := nodes[p.node];
    && node.source.Some? && node.source.value.statement == node.statement && Stands(nodes, p.node)
    && match (node.source.value.rank, p.source.rank)
       case (Partial, _) => false
       case (Complete, Partial) => true
       case (Complete, Verified) => false
       case (Complete, Complete) =>
         && p.source.branch != node.author && p.source.branch != node.source.value.branch
         && ((node.statement.Some? && node.elaborated) || p.holdersLive)
       case (Verified, Verified) => p.source.branch != node.author && p.source.branch != node.source.value.branch
       case (Verified, _) => true
  }

  /** A publication is taken exactly when every check passes, and otherwise answered by the first that
      fails; a source that keeps its place is answered by its rank. */
  lemma PublishedExactly(nodes: map<Id, Node>, p: Publication)
    ensures p.node !in nodes <==> Decide(nodes, p) == Refused(NotFound)
    ensures p.node in nodes ==>
              var node := nodes[p.node];
              var open := node.nodeType != Goal && (node.status == Open || node.status == Legacy);
              var clean := open && p.inScope && !p.refused;
              var stated := clean && (node.statement == None || p.source.statement == node.statement);
              var evident := stated && (p.source.rank == Verified ==> p.verifiedEvidence);
              && (node.nodeType == Goal <==> Decide(nodes, p) == Refused(GoalNode))
              && (node.nodeType != Goal && !open <==> Decide(nodes, p) == Refused(NodeClosed))
              && (open && !p.inScope <==> Decide(nodes, p) == Refused(ArtifactScope))
              && (open && p.inScope && p.refused <==> Decide(nodes, p) == Refused(RefusedCommand))
              && (clean && !stated <==> Decide(nodes, p) == Refused(StatementChanged))
              && (stated && !evident <==> Decide(nodes, p) == Refused(InvalidRecord))
              && (evident && KeepsItsPlace(nodes, p) ==> Decide(nodes, p) == Refused(LowerRank(node.source.value.rank)))
              && (evident && !KeepsItsPlace(nodes, p) ==>
                    Decide(nodes, p) == if BoundedReach(nodes, p.node, EntryIds(p.source.imports), {}) then Refused(ImportsOwnModule)
                                        else Published(node.source.Some?))
  {
  }

  /** The node's source counts at every point of the run: it is of the node's current statement, and
      stands. */
  ghost predicate StandsThroughout(nodes: map<Id, Node>, run: seq<NodeStep>, n: Id)
    decreases |run|
  {
    && n in nodes && SourceState(nodes[n], Stands(nodes, n)).Ranked?
    && (run == [] || StandsThroughout(After(nodes, run[0]), run[1..], n))
  }

  /** A node is never lost, nor its source; and a standing one gives way only to a rank as high. */
  lemma StandingStep(nodes: map<Id, Node>, step: NodeStep, n: Id)
    requires n in nodes && SourceState(nodes[n], Stands(nodes, n)).Ranked?
    ensures n in After(nodes, step) && After(nodes, step)[n].source.Some?
    ensures RankValue(After(nodes, step)[n].source.value.rank) >= RankValue(nodes[n].source.value.rank)
    ensures !(step.Publish? && step.publication.node == n) ==> After(nodes, step)[n].source == nodes[n].source
  {
  }

  /** While a node's source stands, its rank never falls, whatever is published meanwhile. */
  lemma {:induction false} StandingRankNeverFalls(nodes: map<Id, Node>, run: seq<NodeStep>, n: Id)
    requires StandsThroughout(nodes, run, n)
    ensures n in AfterRun(nodes, run) && AfterRun(nodes, run)[n].source.Some?
    ensures RankValue(AfterRun(nodes, run)[n].source.value.rank) >= RankValue(nodes[n].source.value.rank)
    decreases |run|
  {
    if run != [] {
      StandingStep(nodes, run[0], n);
      StandingRankNeverFalls(After(nodes, run[0]), run[1..], n);
    }
  }

  /** A publication by neither the source's publisher nor the node's author, against a source that
      answers to them alone: a verified one, or a complete one of an elaborated statement or with a
      holder still live, unless the new one is verified. */
  predicate Outsider(node: Node, p: Publication) {
    && node.source.Some? && !Owns(node, p.source.branch)
    && (node.source.value.rank == Verified
        || (node.source.value.rank == Complete && p.source.rank != Verified
            && (HasElaboratedStatement(node) || p.holdersLive)))
  }

  ghost predicate OutsidersOnly(nodes: map<Id, Node>, run: seq<NodeStep>, n: Id)
    decreases |run|
  {
    run == []
    || ((run[0].Publish? && run[0].publication.node == n ==> n in nodes && Outsider(nodes[n], run[0].publication))
        && OutsidersOnly(After(nodes, run[0]), run[1..], n))
  }

  /** No run of such publications moves it. */
  lemma {:induction false} OutsidersNeverReplace(nodes: map<Id, Node>, run: seq<NodeStep>, n: Id)
    requires StandsThroughout(nodes, run, n) && OutsidersOnly(nodes, run, n)
    ensures n in AfterRun(nodes, run) && AfterRun(nodes, run)[n].source == nodes[n].source
    decreases |run|
  {
    if run != [] {
      StandingStep(nodes, run[0], n);
      OutsidersNeverReplace(After(nodes, run[0]), run[1..], n);
    }
  }

  /** Replacing a source by another file leaves no importer of the old one standing. */
  lemma ReplacementStalesImporters(nodes: map<Id, Node>, p: Publication, importer: Id, entry: Entry)
    requires Decide(nodes, p).Published? && importer in nodes && importer != p.node
    requires nodes[importer].source.Some? && entry.node == p.node && entry.sha != Some(p.source.sha)
    requires var source := nodes[importer].source.value;
             entry in if source.closure.Some? then source.closure.value else source.imports
    ensures !Stands(Apply(nodes, p), importer)
  {
    var nodes' := Apply(nodes, p);
    assert !Holds(nodes', entry);
    StandsUnfolds(nodes', importer);
  }
}
