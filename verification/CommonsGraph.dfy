/** The stored commons graph: its commands, the acyclic depends_on edges they keep, and the memo of
    the long pole keyed by the last event that can move it. */
module CommonsGraph {
  import opened Basics
  import opened Commons
  import opened Graphs
  import opened Closures
  import opened Publication
  import opened Traversal
  import opened LongPole

  const LONG_POLE_CACHE_SIZE := 256

  datatype Relation = DependsOn | MotivatedBy | Refutes | Generalizes | Specializes | Duplicates

  datatype Link = Link(relation: Relation, target: Id)

  datatype EdgeOutcome = Added | Exists | SelfEdge | NotFoundEdge | DependencyCycle | GraphTooLarge

  datatype PoleResult = PoleIds(ids: set<Id>) | PoleTooLarge

  /** Every node a recorded import or closure names is stored. */
  ghost predicate EntriesKnown(nodes: map<Id, Node>) {
    forall n, e | n in nodes && e in Entries(nodes[n]) :: e.node in nodes
  }

  /** The platform resolved every module a publication's check inlined from a stored node. */
  predicate ClosureKnown(nodes: map<Id, Node>, p: Publication) {
    p.source.closure.Some? ==> forall e | e in p.source.closure.value :: e.node in nodes
  }

  ghost function Ids(pole: seq<Id>): set<Id> {
    set n | n in pole
  }

  /** What a reader that computes afresh gets: the pole, unless the graph is past its bound. */
  ghost function FreshPole(nodes: map<Id, Node>, edges: Edges): PoleResult {
    if |nodes| > MAX_GRAPH_NODES || |edges| > MAX_GRAPH_EDGES then PoleTooLarge
    else PoleIds(Ids(Pole(nodes, edges)))
  }

  // ----- A node no edge touches leaves the long pole as it was -----

  lemma {:induction false} SameDepthStands(nodes: map<Id, Node>, id: Id, node: Node, n: Id, d: nat)
    requires id !in nodes && EntriesKnown(nodes) && n in nodes
    ensures StandsWithin(nodes, n, d) <==> StandsWithin(nodes[id := node], n, d)
    decreases d
  {
    var nodes' := nodes[id := node];
    assert forall e | e in Entries(nodes[n]) :: Holds(nodes, e) <==> Holds(nodes', e);
    var children := Children(nodes, nodes[n]);
    assert children == Children(nodes', nodes[n]);
    if d > 0 && children.Some? {
      forall c | c in children.value ensures StandsWithin(nodes, c, d - 1) <==> StandsWithin(nodes', c, d - 1) {
        SameDepthStands(nodes, id, node, c, d - 1);
      }
    }
  }

  lemma OpenKept(nodes: map<Id, Node>, id: Id, node: Node)
    requires id !in nodes && EntriesKnown(nodes)
    ensures OpenIds(nodes[id := node]) - {id} == OpenIds(nodes)
  {
    var nodes' := nodes[id := node];
    forall n | n in nodes ensures OpenWork(nodes, n) <==> OpenWork(nodes', n) {
      forall d: nat ensures StandsWithin(nodes, n, d) <==> StandsWithin(nodes', n, d) {
        SameDepthStands(nodes, id, node, n, d);
      }
    }
  }

  lemma {:induction false} WithinSame(edges: Edges, a: set<Id>, b: set<Id>)
    requires forall e | e in edges :: (e.0 in a <==> e.0 in b) && (e.1 in a <==> e.1 in b)
    ensures Within(edges, a) == Within(edges, b)
  {
    if edges != [] {
      WithinSame(edges[1..], a, b);
    }
  }

  lemma {:induction false} OldestFirstSame(nodes: map<Id, Node>, nodes': map<Id, Node>, s: set<Id>, limit: nat)
    requires s <= nodes.Keys && s <= nodes'.Keys
    requires forall n | n in s :: nodes[n].createdAt == nodes'[n].createdAt
    ensures OldestFirst(nodes, s, limit) == OldestFirst(nodes', s, limit)
    decreases limit
  {
    if s != {} && limit > 0 {
      var a, b := Oldest(nodes, s), Oldest(nodes', s);
      assert Older(nodes, a, b) && Older(nodes', b, a);
      OldestFirstSame(nodes, nodes', s - {a}, limit - 1);
    }
  }

  /** The parts of a graph are those of the graph with one more, untouched node. */
  lemma PartsKept(nodes: map<Id, Node>, edges: Edges, id: Id, open: set<Id>, open': set<Id>,
                  goals: set<Id>, goals': set<Id>)
    requires id !in nodes && EndsKnown(nodes, edges) && open <= nodes.Keys && goals <= nodes.Keys
    requires open' - {id} == open && goals' - {id} == goals
    ensures PoleParts(edges, open', goals') == PoleParts(edges, open, goals)
  {
    forall goal | goal in goals
      ensures Within(edges, open' + {goal}) == Within(edges, open + {goal})
    {
      WithinSame(edges, open' + {goal}, open + {goal});
    }
    forall n, goal | goal in goals' && n != goal && Reaches(DependsGraph(Within(edges, open' + {goal})), goal, n)
      ensures goal != id && n != id
    {
      var g := DependsGraph(Within(edges, open' + {goal}));
      if goal == id {
        var t := FirstStep(g, goal, n);
        assert false;
      }
      ReachesStays(g, (iset y | y in nodes), goal, n);
    }
    forall n | n in open' ensures IsPart(edges, open', goals', n) <==> n != id && IsPart(edges, open, goals, n) {
    }
  }

  /** Creating a node no edge touches, the goal included, moves no long pole. */
  lemma IsolatedNodeKeepsPole(nodes: map<Id, Node>, edges: Edges, id: Id, node: Node)
    requires id !in nodes && EntriesKnown(nodes) && EndsKnown(nodes, edges)
    ensures Pole(nodes[id := node], edges) == Pole(nodes, edges)
  {
    var nodes' := nodes[id := node];
    var open, open', goals, goals' := OpenIds(nodes), OpenIds(nodes'), Goals(nodes), Goals(nodes');
    OpenKept(nodes, id, node);
    assert goals' - {id} == goals;
    PartsKept(nodes, edges, id, open, open', goals, goals');
    WithinSame(edges, open, open');
    var live := Within(edges, open);
    assert (set e | e in live && e.1 !in goals :: e.1) == (set e | e in live && e.1 !in goals' :: e.1);
    ChosenKnown(nodes, edges);
    OldestFirstSame(nodes, nodes', Chosen(edges, open, goals), POLE_LIMIT);
  }

  lemma NoGoals(nodes: map<Id, Node>)
    ensures Goals(nodes) == {} <==> forall n | n in nodes :: nodes[n].nodeType != Goal
  {
    forall n ensures n in Goals(nodes) <==> n in nodes && nodes[n].nodeType == Goal {
    }
  }

  lemma NodeChangedKnown(nodes: map<Id, Node>, edges: Edges, id: Id, node: Node)
    requires EntriesKnown(nodes) && EndsKnown(nodes, edges) && id in nodes
    requires node.source == nodes[id].source && node.nodeType == nodes[id].nodeType
    ensures EntriesKnown(nodes[id := node]) && EndsKnown(nodes[id := node], edges)
    ensures Goals(nodes[id := node]) == Goals(nodes)
  {
  }

  lemma NodeAddedKnown(nodes: map<Id, Node>, edges: Edges, id: Id, node: Node)
    requires id !in nodes && EntriesKnown(nodes) && EndsKnown(nodes, edges) && node.source == None
    ensures EntriesKnown(nodes[id := node]) && EndsKnown(nodes[id := node], edges)
    ensures Goals(nodes[id := node]) == Goals(nodes) + if node.nodeType == Goal then {id} else {}
  {
  }

  // ----- The memo -----

  type Memo = seq<(nat, set<Id>)>   // poles by the head they were computed at, oldest first

  ghost predicate Kept(memo: Memo, head: nat) {
    && |memo| <= LONG_POLE_CACHE_SIZE
    && (forall i, j | 0 <= i < j < |memo| :: memo[i].0 < memo[j].0)
    && (forall i | 0 <= i < |memo| :: memo[i].0 <= head)
  }

  predicate Holding(memo: Memo, head: nat) {
    exists i :: 0 <= i < |memo| && memo[i].0 == head
  }

  /** Whatever the memo holds for this head is these ids. */
  ghost predicate Coherent(memo: Memo, head: nat, ids: set<Id>) {
    forall i | 0 <= i < |memo| && memo[i].0 == head :: memo[i].1 == ids
  }

  /** The memo is in order, and what it holds for this head is the pole of this graph; folded. */
  ghost predicate MemoRight(memo: Memo, head: nat, nodes: map<Id, Node>, edges: Edges) {
    && Kept(memo, head)
    && forall at: nat {:trigger Unfolded(at)} :: Unfolded(at) ==> Coherent(memo, head, Ids(Pole(nodes, edges)))
  }

  /** Keep the pole at a new head, dropping the oldest past the memo's size. */
  function Remember(memo: Memo, head: nat, ids: set<Id>): Memo {
    var memo' := memo + [(head, ids)];
    if |memo'| > LONG_POLE_CACHE_SIZE then memo'[1..] else memo'
  }

  /** No pole is held for a head still to come. */
  lemma HeadMoved(memo: Memo, head: nat, later: nat, nodes: map<Id, Node>, edges: Edges)
    requires Kept(memo, head) && head < later
    ensures MemoRight(memo, later, nodes, edges)
  {
  }

  /** The pole kept at a head is the one it holds. */
  lemma Remembered(memo: Memo, head: nat, nodes: map<Id, Node>, edges: Edges)
    requires Kept(memo, head) && !Holding(memo, head)
    ensures var memo' := Remember(memo, head, Ids(Pole(nodes, edges)));
            MemoRight(memo', head, nodes, edges) && Holding(memo', head)
    ensures Remember(memo, head, Ids(Pole(nodes, edges)))
            == (if |memo| < 256 then memo else memo[1..]) + [(head, set n | n in Pole(nodes, edges))]
  {
    var memo' := Remember(memo, head, Ids(Pole(nodes, edges)));
    assert memo'[|memo'| - 1].0 == head;
  }

  /** The entry held for a head is the pole. */
  lemma HeldPole(memo: Memo, head: nat, nodes: map<Id, Node>, edges: Edges, i: nat)
    requires MemoRight(memo, head, nodes, edges) && i < |memo| && memo[i].0 == head
    ensures memo[i].1 == Ids(Pole(nodes, edges))
  {
    assert Unfolded(0);
  }

  lemma IsolatedNodeKeepsMemo(memo: Memo, head: nat, nodes: map<Id, Node>, edges: Edges, id: Id, node: Node)
    requires MemoRight(memo, head, nodes, edges)
    requires id !in nodes && EntriesKnown(nodes) && EndsKnown(nodes, edges)
    ensures MemoRight(memo, head, nodes[id := node], edges)
  {
    IsolatedNodeKeepsPole(nodes, edges, id, node);
  }

  // ----- Links -----

  /** Only a link whose target does not already depend on its source keeps the graph acyclic; the
      search behind it fails closed. */
  ghost predicate LinkKeepsAcyclic(edges: Edges, source: Id, target: Id) {
    source != target && !Reaches(DependsGraph(edges), target, source)
  }

  lemma LinkedAcyclic(edges: Edges, source: Id, target: Id)
    requires Acyclic(DependsGraph(edges)) && LinkKeepsAcyclic(edges, source, target)
    ensures Acyclic(DependsGraph(edges + [(source, target)]))
  {
    var g, out := DependsGraph(edges), TargetsOf(edges, source) + [target];
    AddEdgeKeepsAcyclic(g, source, out, target);
    forall s ensures TargetsOf(edges + [(source, target)], s) == g[source := out][s] {
      TargetsAppend(edges, (source, target), s);
    }
    assert DependsGraph(edges + [(source, target)]) == g[source := out];
  }

  /** A node with no dependents reaches nothing back, so its new edges need no search. */
  lemma NewSourceLinks(edges: Edges, source: Id, target: Id)
    requires source != target && NoDependents(edges, source)
    ensures LinkKeepsAcyclic(edges, source, target)
  {
    var g := DependsGraph(edges);
    forall w | Walk(g, w) && |w| > 0 && w[0] == target ensures w[|w| - 1] != source {
      assert |w| > 1 ==> Edge(g, w[|w| - 2], w[|w| - 1]);
    }
  }

  /** The search before a link: Added is answered only when the link keeps the graph acyclic,
      DependencyCycle only when it would close a real cycle. */
  method CheckLink(edges: Edges, source: Id, target: Id) returns (outcome: EdgeOutcome)
    requires source != target
    ensures outcome in {Added, DependencyCycle, GraphTooLarge}
    ensures outcome == Added ==> LinkKeepsAcyclic(edges, source, target)
    ensures outcome == DependencyCycle ==> Reaches(DependsGraph(edges), target, source)
    ensures |edges| > MAX_GRAPH_EDGES ==> outcome == GraphTooLarge
    ensures outcome == GraphTooLarge ==>
              |edges| > MAX_GRAPH_EDGES
              || exists reached :: IsClosure(DependsGraph(edges), target, MAX_GRAPH_NODES, reached, true)
  {
    if |edges| > MAX_GRAPH_EDGES {
      return GraphTooLarge;
    }
    var children := DependencyChildren(edges);
    var reached, truncated := DependsClosure(children, target, MAX_GRAPH_NODES);
    SameClosure(AsGraph(children), DependsGraph(edges), target, MAX_GRAPH_NODES, reached, truncated);
    if source in reached {
      return DependencyCycle;
    }
    if truncated {
      return GraphTooLarge;
    }
    outcome := Added;
  }

  /** The search is cut short only in a graph past its node bound. */
  lemma CutShortIsLarge(nodes: map<Id, Node>, edges: Edges, start: Id, reached: seq<Id>)
    requires EndsKnown(nodes, edges) && start in nodes
    requires IsClosure(DependsGraph(edges), start, MAX_GRAPH_NODES, reached, true)
    ensures |nodes| > MAX_GRAPH_NODES
  {
    var g := DependsGraph(edges);
    forall x | Reaches(g, start, x) ensures x in nodes {
      ReachesStays(g, (iset y | y in nodes), start, x);
    }
    var x :| x != start && x !in reached && Reaches(g, start, x);
    DistinctCount([start, x] + reached);
    SubsetSize(Members([start, x] + reached), nodes.Keys);
  }

  predicate Stored(edges: Edges, others: set<(Id, Relation, Id)>, source: Id, relation: Relation, target: Id) {
    if relation == DependsOn then (source, target) in edges else (source, relation, target) in others
  }

  /** What is answered for an edge from a known node, in every case: within the graph's bounds a new
      depends_on edge is added exactly when its target does not reach its source. */
  ghost predicate EdgeAnswer(nodes: map<Id, Node>, edges: Edges, others: set<(Id, Relation, Id)>,
                             source: Id, relation: Relation, target: Id, newSource: bool, outcome: EdgeOutcome) {
    if target == source then outcome == SelfEdge
    else if target !in nodes then outcome == NotFoundEdge
    else if (if relation == DependsOn then (source, target) in edges else (source, relation, target) in others) then outcome == Exists
    else if relation != DependsOn || newSource then outcome == Added
    else if |edges| > MAX_GRAPH_EDGES then outcome == GraphTooLarge
    else if |nodes| <= MAX_GRAPH_NODES then
      outcome == if Reaches(DependsGraph(edges), target, source) then DependencyCycle else Added
    else
      && outcome in {Added, DependencyCycle, GraphTooLarge}
      && (outcome == Added ==> !Reaches(DependsGraph(edges), target, source))
      && (outcome == DependencyCycle ==> Reaches(DependsGraph(edges), target, source))
  }

  /** The answer for a new depends_on edge of a node others may depend on. */
  method CheckedAnswer(nodes: map<Id, Node>, edges: Edges, others: set<(Id, Relation, Id)>, source: Id, target: Id)
    returns (outcome: EdgeOutcome)
    requires EndsKnown(nodes, edges) && target in nodes && target != source && (source, target) !in edges
    ensures EdgeAnswer(nodes, edges, others, source, DependsOn, target, false, outcome)
    ensures outcome == Added ==> LinkKeepsAcyclic(edges, source, target)
    ensures outcome in {Added, DependencyCycle, GraphTooLarge}
  {
    outcome := CheckLink(edges, source, target);
    if outcome == GraphTooLarge && |edges| <= MAX_GRAPH_EDGES {
      ghost var reached :| IsClosure(DependsGraph(edges), target, MAX_GRAPH_NODES, reached, true);
      CutShortIsLarge(nodes, edges, target, reached);
    }
  }

  lemma SameReaches(g: Graph, h: Graph, a: Id, b: Id)
    requires forall x, y :: Edge(g, x, y) <==> Edge(h, x, y)
    ensures Reaches(g, a, b) <==> Reaches(h, a, b)
    ensures forall n: nat :: ReachesIn(g, a, b, n) <==> ReachesIn(h, a, b, n)
  {
    forall w: seq<Id> ensures WalkFrom(g, w, a, b) <==> WalkFrom(h, w, a, b) {
    }
  }

  lemma SameClosure(g: Graph, h: Graph, start: Id, limit: nat, reached: seq<Id>, truncated: bool)
    requires forall x, y :: Edge(g, x, y) <==> Edge(h, x, y)
    requires IsClosure(g, start, limit, reached, truncated)
    ensures IsClosure(h, start, limit, reached, truncated)
  {
    forall x ensures Reaches(g, start, x) <==> Reaches(h, start, x) {
      SameReaches(g, h, start, x);
    }
    forall i, j | 0 <= i < j < |reached| ensures NoFarther(h, start, reached[i], reached[j]) {
      SameReaches(g, h, start, reached[i]);
      SameReaches(g, h, start, reached[j]);
      assert NoFarther(g, start, reached[i], reached[j]);
    }
  }

  predicate TargetsKnown(nodes: map<Id, Node>, links: seq<Link>) {
    forall link | link in links :: link.target in nodes
  }

  ghost predicate NoDependents(edges: Edges, id: Id) {
    forall e | e in edges :: e.1 != id
  }

  ghost predicate Unlinked(edges: Edges, others: set<(Id, Relation, Id)>, id: Id) {
    NoDependents(edges, id) && (forall e | e in edges :: e.0 != id) && forall o | o in others :: o.0 != id
  }

  ghost predicate RowsKnown(nodes: map<Id, Node>, others: set<(Id, Relation, Id)>) {
    forall o | o in others :: o.0 in nodes && o.2 in nodes
  }

  /** The depends_on rows a new node's links add. */
  function LinkEdges(id: Id, links: seq<Link>): (r: Edges)
    ensures forall e :: e in r <==> e.0 == id && Link(DependsOn, e.1) in links
  {
    if links == [] then []
    else
      var last := links[|links| - 1];
      LinkEdges(id, links[..|links| - 1]) + if last.relation == DependsOn then [(id, last.target)] else []
  }

  /** The rows of other relations they add. */
  function OtherRows(id: Id, links: seq<Link>): set<(Id, Relation, Id)> {
    set link | link in links && link.relation != DependsOn :: (id, link.relation, link.target)
  }

  ghost function DependsOnly(links: seq<Link>): set<Link> {
    set link | link in links && link.relation == DependsOn
  }

  lemma OneMoreDependsOn(init: seq<Link>, last: Link)
    requires last !in init
    ensures |DependsOnly(init + [last])| == |DependsOnly(init)| + if last.relation == DependsOn then 1 else 0
  {
    assert DependsOnly(init + [last]) == DependsOnly(init) + if last.relation == DependsOn then {last} else {};
  }

  /** One row a link, as no link is named twice. */
  lemma {:induction false} LinkEdgesCounted(id: Id, links: seq<Link>)
    requires Distinct(links)
    ensures |LinkEdges(id, links)| == |DependsOnly(links)|
  {
    if links == [] {
      assert DependsOnly(links) == {};
    } else {
      var init, last := links[..|links| - 1], links[|links| - 1];
      LinkEdgesCounted(id, init);
      assert links == init + [last];
      OneMoreDependsOn(init, last);
    }
  }

  /** The rows after the first `i` links of a new node; folded. */
  ghost predicate LinksAdded(id: Id, links: seq<Link>, i: nat, edges0: Edges, others0: set<(Id, Relation, Id)>,
                             edges: Edges, others: set<(Id, Relation, Id)>)
    requires i <= |links|
  {
    forall at: nat {:trigger Unfolded(at)} :: Unfolded(at) ==>
      edges == edges0 + LinkEdges(id, links[..i]) && others == others0 + OtherRows(id, links[..i])
  }

  lemma NoLinksAdded(id: Id, links: seq<Link>, edges: Edges, others: set<(Id, Relation, Id)>)
    ensures LinksAdded(id, links, 0, edges, others, edges, others)
  {
    assert links[..0] == [];
  }

  lemma LinksAddedMore(id: Id, links: seq<Link>, i: nat, edges0: Edges, others0: set<(Id, Relation, Id)>,
                       edges: Edges, others: set<(Id, Relation, Id)>, edges': Edges, others': set<(Id, Relation, Id)>)
    requires i < |links| && LinksAdded(id, links, i, edges0, others0, edges, others)
    requires edges' == edges + if links[i].relation == DependsOn then [(id, links[i].target)] else []
    requires others' == others + if links[i].relation == DependsOn then {} else {(id, links[i].relation, links[i].target)}
    ensures LinksAdded(id, links, i + 1, edges0, others0, edges', others')
  {
    assert Unfolded(0);
    OneMoreLink(id, links, i);
    OneMoreOther(id, links, i);
  }

  lemma NextLinkIsNew(id: Id, links: seq<Link>, i: nat, edges0: Edges, others0: set<(Id, Relation, Id)>,
                      edges: Edges, others: set<(Id, Relation, Id)>)
    requires i < |links| && LinksAdded(id, links, i, edges0, others0, edges, others)
    requires Distinct(links) && forall e | e in edges0 :: e.0 != id
    ensures links[i].relation == DependsOn ==> (id, links[i].target) !in edges
  {
    assert Unfolded(0);
    FreshLink(id, links, i, edges0);
  }

  lemma AllLinksAdded(id: Id, links: seq<Link>, edges0: Edges, others0: set<(Id, Relation, Id)>,
                      edges: Edges, others: set<(Id, Relation, Id)>)
    requires LinksAdded(id, links, |links|, edges0, others0, edges, others)
    ensures edges == edges0 + LinkEdges(id, links) && others == others0 + OtherRows(id, links)
  {
    assert Unfolded(0);
    assert links[..|links|] == links;
  }

  lemma OneMoreOther(id: Id, links: seq<Link>, i: nat)
    requires i < |links|
    ensures OtherRows(id, links[..i + 1])
            == OtherRows(id, links[..i]) + if links[i].relation == DependsOn then {} else {(id, links[i].relation, links[i].target)}
  {
    assert links[..i + 1] == links[..i] + [links[i]];
  }

  lemma OneMoreLink(id: Id, links: seq<Link>, i: nat)
    requires i < |links|
    ensures LinkEdges(id, links[..i + 1])
            == LinkEdges(id, links[..i]) + if links[i].relation == DependsOn then [(id, links[i].target)] else []
  {
    assert links[..i + 1][..i] == links[..i];
  }

  lemma FreshLink(id: Id, links: seq<Link>, i: nat, edges: Edges)
    requires i < |links| && Distinct(links)
    requires forall e | e in edges :: e.0 != id
    ensures links[i].relation == DependsOn ==> (id, links[i].target) !in edges + LinkEdges(id, links[..i])
  {
    assert links[i] !in links[..i];
  }

  /** The import is an edge of the node now, or an edge that would close a cycle. */
  ghost predicate Linked(edges: Edges, source: Id, target: Id) {
    (source, target) in edges || Reaches(DependsGraph(edges), target, source)
  }

  predicate Imports(imports: seq<Entry>, n: Id) {
    exists e :: e in imports && e.node == n
  }

  /** Edges only grew, by imports of the published node, and every import is accounted for. */
  ghost predicate ImportsLinked(edges: Edges, edges': Edges, p: Publication) {
    && (forall e | e in edges :: e in edges')
    && (forall e | e in edges' :: e in edges || (e.0 == p.node && Imports(p.source.imports, e.1)))
    && (forall e | e in p.source.imports :: Linked(edges', p.node, e.node))
  }

  /** An import is of no stored node, or the graph is past its bounds or may come to be. */
  predicate Unlinkable(nodes: map<Id, Node>, edges: Edges, p: Publication) {
    || (exists e :: e in p.source.imports && e.node !in nodes)
    || |nodes| > MAX_GRAPH_NODES || |edges| + |p.source.imports| > MAX_GRAPH_EDGES
  }

  lemma LinkedStays(edges: Edges, more: Edges, source: Id, target: Id)
    requires Linked(edges, source, target) && forall e | e in edges :: e in more
    ensures Linked(more, source, target)
  {
    if (source, target) !in edges {
      SubgraphReaches(DependsGraph(edges), DependsGraph(more), target, source);
    }
  }

  // ----- The store -----

  class Graphstore {
    var nodes: map<Id, Node>
    var edges: Edges                             // depends_on rows
    var others: set<(Id, Relation, Id)>          // rows of the other relations
    var clock: nat                               // the last event's sequence
    var head: nat                                // the last event that can move the long pole
    var memo: Memo

    /** What holds between commands: the depends_on graph is acyclic, and the memo's entry for the
        current head is the pole a reader would compute now. */
    ghost predicate Valid()
      reads this
    {
      && EndsKnown(nodes, edges) && EntriesKnown(nodes) && OneGoal(nodes)
      && RowsKnown(nodes, others) && Acyclic(DependsGraph(edges))
      && head <= clock && MemoRight(memo, head, nodes, edges)
    }

    constructor ()
      ensures Valid() && nodes == map[] && edges == [] && clock == 0
    {
      nodes, edges, others, clock, head, memo := map[], [], {}, 0, 0, [];
      new;
      assert forall a, b :: !Edge(DependsGraph([]), a, b);
    }

    /** One validated edge and its event. Nothing changes unless it was added. */
    method AddEdge(source: Id, relation: Relation, target: Id, newSource: bool) returns (outcome: EdgeOutcome)
      requires EndsKnown(nodes, edges) && Acyclic(DependsGraph(edges)) && source in nodes
      requires newSource ==> NoDependents(edges, source)
      modifies this`edges, this`others, this`clock, this`head
      ensures EndsKnown(nodes, edges) && Acyclic(DependsGraph(edges))
      ensures outcome != Added ==>
                edges == old(edges) && others == old(others) && clock == old(clock) && head == old(head)
      ensures outcome == Added ==> clock == head == old(clock) + 1 && target in nodes && target != source
      ensures outcome == Added && relation == DependsOn ==>
                edges == old(edges) + [(source, target)] && others == old(others)
      ensures outcome == Added && relation != DependsOn ==>
                edges == old(edges) && others == old(others) + {(source, relation, target)}
      ensures EdgeAnswer(nodes, old(edges), old(others), source, relation, target, newSource, outcome)
    {
      if target == source { return SelfEdge; }
      if target !in nodes { return NotFoundEdge; }
      if Stored(edges, others, source, relation, target) {
        return Exists;
      }
      outcome := Added;
      if relation == DependsOn && !newSource {
        outcome := CheckedAnswer(nodes, edges, others, source, target);
        if outcome != Added { return; }
      }
      if relation == DependsOn {
        if newSource {
          NewSourceLinks(edges, source, target);
        }
        LinkedAcyclic(edges, source, target);
        edges := edges + [(source, target)];
      } else {
        others := others + {(source, relation, target)};
      }
      clock, head := clock + 1, clock + 1;
    }

    method LinkNodes(source: Id, relation: Relation, target: Id) returns (outcome: EdgeOutcome)
      requires Valid()
      modifies this
      ensures Valid() && nodes == old(nodes) && memo == old(memo)
      ensures if source !in nodes then outcome == NotFoundEdge
              else EdgeAnswer(nodes, old(edges), old(others), source, relation, target, false, outcome)
      ensures outcome != Added ==> edges == old(edges) && others == old(others) && head == old(head)
      ensures outcome == Added && relation == DependsOn ==>
                edges == old(edges) + [(source, target)] && others == old(others) && head > old(head)
      ensures outcome == Added && relation != DependsOn ==>
                edges == old(edges) && others == old(others) + {(source, relation, target)} && head > old(head)
    {
      if source !in nodes { return NotFoundEdge; }
      outcome := AddEdge(source, relation, target, false);
    }

    /** Create an authored node and its edges, each named once; a refused edge refuses the whole
        command. The node's creation is no event that can move the long pole; each edge is. */
    method CreateNode(id: Id, node: Node, links: seq<Link>) returns (created: bool)
      requires Valid() && id !in nodes && node.nodeType != Goal && node.source == None && node.status == Open
      requires Distinct(links)
      modifies this
      ensures Valid() && memo == old(memo)
      ensures created == forall link | link in links :: link.target in old(nodes)
      ensures !created ==> nodes == old(nodes) && edges == old(edges) && others == old(others) && head == old(head)
      ensures created ==> nodes == old(nodes)[id := node] && edges == old(edges) + LinkEdges(id, links)
      ensures created ==> others == old(others) + OtherRows(id, links)
      ensures created ==> |edges| == |old(edges)| + |DependsOnly(links)|
                          && forall e :: e in edges <==> e in old(edges) || (e.0 == id && Link(DependsOn, e.1) in links)
      ensures created ==> (head == old(head) <==> links == []) && nodes == After(old(nodes), NodeStep.Create(id, node))
    {
      var nodes0, edges0, others0, clock0, head0 := nodes, edges, others, clock, head;
      LinkEdgesCounted(id, links);
      created := InsertNode(id, node, links);
      if !created {
        nodes, edges, others, clock, head := nodes0, edges0, others0, clock0, head0;
      }
    }

    method InsertNode(id: Id, node: Node, links: seq<Link>) returns (inserted: bool)
      requires Valid() && id !in nodes && node.nodeType != Goal && node.source == None && node.status == Open
      requires Distinct(links)
      modifies this`nodes, this`edges, this`others, this`clock, this`head
      ensures inserted == TargetsKnown(old(nodes), links)
      ensures inserted ==> Valid() && nodes == old(nodes)[id := node] && edges == old(edges) + LinkEdges(id, links)
      ensures inserted ==> (head == old(head) <==> links == []) && others == old(others) + OtherRows(id, links)
    {
      IsolatedNodeKeepsMemo(memo, head, nodes, edges, id, node);
      NodeAddedKnown(nodes, edges, id, node);
      nodes, clock := nodes[id := node], clock + 1;
      inserted := AddLinks(id, links);
      if inserted {
        if links == [] {
          assert edges == old(edges);
        } else {
          HeadMoved(memo, old(head), head, nodes, edges);
        }
      }
    }

    method AddLinks(id: Id, links: seq<Link>) returns (added: bool)
      requires EndsKnown(nodes, edges) && Acyclic(DependsGraph(edges)) && RowsKnown(nodes, others)
      requires id in nodes && head < clock && Unlinked(edges, others, id)
      requires Distinct(links)
      modifies this`edges, this`others, this`clock, this`head
      ensures added == (forall link | link in links :: link.target in nodes && link.target != id)
      ensures added ==> EndsKnown(nodes, edges) && Acyclic(DependsGraph(edges)) && RowsKnown(nodes, others)
      ensures added ==> edges == old(edges) + LinkEdges(id, links) && others == old(others) + OtherRows(id, links)
      ensures added ==> head <= clock && if links == [] then head == old(head) else head >= old(clock)
    {
      NoLinksAdded(id, links, edges, others);
      for i := 0 to |links|
        invariant EndsKnown(nodes, edges) && Acyclic(DependsGraph(edges)) && RowsKnown(nodes, others)
        invariant NoDependents(edges, id) && LinksAdded(id, links, i, old(edges), old(others), edges, others)
        invariant forall j | 0 <= j < i :: links[j].target in nodes && links[j].target != id
        invariant head <= clock && clock >= old(clock)
        invariant if i == 0 then head == old(head) && others == old(others) else head >= old(clock)
      {
        NextLinkIsNew(id, links, i, old(edges), old(others), edges, others);
        ghost var edges0, others0 := edges, others;
        var linked := AddOwnLink(id, links[i]);
        if !linked {
          assert links[i] in links;
          return false;
        }
        LinksAddedMore(id, links, i, old(edges), old(others), edges0, others0, edges, others);
      }
      AllLinksAdded(id, links, old(edges), old(others), edges, others);
      added := true;
    }

    /** One edge of a node no other depends on. */
    method AddOwnLink(id: Id, link: Link) returns (linked: bool)
      requires EndsKnown(nodes, edges) && Acyclic(DependsGraph(edges)) && RowsKnown(nodes, others)
      requires id in nodes && head <= clock && NoDependents(edges, id)
      requires link.relation == DependsOn ==> (id, link.target) !in edges
      modifies this`edges, this`others, this`clock, this`head
      ensures linked == (link.target in nodes && link.target != id)
      ensures EndsKnown(nodes, edges) && Acyclic(DependsGraph(edges)) && RowsKnown(nodes, others)
      ensures NoDependents(edges, id) && head <= clock && clock >= old(clock)
      ensures linked ==> edges == old(edges) + if link.relation == DependsOn then [(id, link.target)] else []
      ensures linked ==> others == old(others) + if link.relation == DependsOn then {} else {(id, link.relation, link.target)}
      ensures linked ==> (clock == head == old(clock) + 1
                          || (head == old(head) && (id, link.relation, link.target) in old(others)))
    {
      var outcome := AddEdge(id, link.relation, link.target, true);
      linked := outcome == Added || outcome == Exists;
      assert edges + [] == edges;
    }

    /** The platform's goal, once: no edge touches it when it is created. */
    method EnsureGoal(id: Id, node: Node) returns (created: bool)
      requires Valid() && id !in nodes && node.nodeType == Goal && node.source == None
      modifies this
      ensures Valid() && edges == old(edges) && head == old(head) && memo == old(memo)
      ensures created == forall n | n in old(nodes) :: old(nodes)[n].nodeType != Goal
      ensures nodes == if created then old(nodes)[id := node] else old(nodes)
      ensures created ==> nodes == After(old(nodes), NodeStep.Create(id, node))
    {
      NoGoals(nodes);
      if Goals(nodes) != {} { return false; }
      IsolatedNodeKeepsMemo(memo, head, nodes, edges, id, node);
      NodeAddedKnown(nodes, edges, id, node);
      nodes, clock, created := nodes[id := node], clock + 1, true;
    }

    /** Record a Lean statement; it can make the node's own source stale, so it is an event that can
        move the long pole. */
    method SetStatement(id: Id, statement: Digest, elaborated: bool, mayFormalize: bool) returns (set_: bool)
      requires Valid()
      modifies this
      ensures Valid() && edges == old(edges) && memo == old(memo)
      ensures set_ == (id in old(nodes) && old(nodes)[id].nodeType != Goal && old(nodes)[id].status in {Open, Legacy} && mayFormalize)
      ensures nodes == if set_ then old(nodes)[id := old(nodes)[id].(statement := Some(statement), elaborated := elaborated)]
                       else old(nodes)
      ensures set_ ==> head > old(head) && nodes == After(old(nodes), NodeStep.SetStatement(id, statement, elaborated))
    {
      if id !in nodes || nodes[id].nodeType == Goal || !IsOpen(nodes[id].status) || !mayFormalize { return false; }
      Change(id, nodes[id].(statement := Some(statement), elaborated := elaborated));
      set_ := true;
    }

    /** Replace a node's own fields, with an event that can move the long pole. */
    method Change(id: Id, node: Node)
      requires Valid() && id in nodes && node.source == nodes[id].source && node.nodeType == nodes[id].nodeType
      modifies this`nodes, this`clock, this`head
      ensures Valid() && nodes == old(nodes)[id := node] && head > old(head)
    {
      NodeChangedKnown(nodes, edges, id, node);
      nodes := nodes[id := node];
      Announce(head);
    }

    method SetStatus(id: Id, status: Status) returns (moved: bool)
      requires Valid()
      modifies this
      ensures Valid() && edges == old(edges) && memo == old(memo)
      ensures moved == (id in old(nodes) && old(nodes)[id].status in {Open, Legacy} && status !in {Open, Legacy})
      ensures nodes == if moved then old(nodes)[id := old(nodes)[id].(status := status)] else old(nodes)
      ensures moved ==> head > old(head)
      ensures nodes == After(old(nodes), NodeStep.SetStatus(id, status))
    {
      if id !in nodes || !AllowedTransition(nodes[id].status, status) { return false; }
      Change(id, nodes[id].(status := status));
      moved := true;
    }

    /** Publish a source: its imports become depends_on edges, but for those that would close a
        cycle. What its check inlined, the platform resolved from stored nodes. */
    method PublishSource(p: Publication) returns (outcome: Outcome, refused: bool)
      requires Valid()
      requires ClosureKnown(nodes, p)
      modifies this
      ensures Valid() && memo == old(memo) && others == old(others)
      ensures outcome == Decide(old(nodes), p)
      ensures refused || !outcome.Published? ==> nodes == old(nodes) && edges == old(edges) && head == old(head)
      ensures !refused && outcome.Published? ==>
                p.node in old(nodes) && nodes == old(nodes)[p.node := old(nodes)[p.node].(source := Some(p.source))] && head > old(head)
      ensures !refused && outcome.Published? ==> ImportsLinked(old(edges), edges, p)
      ensures !refused && outcome.Published? ==>
                && (forall e | e in old(edges) :: e in edges)
                && (forall e | e in edges :: e in old(edges) || (e.0 == p.node && exists x :: x in p.source.imports && x.node == e.1))
                && (forall x | x in p.source.imports :: (p.node, x.node) in edges || Reaches(DependsGraph(edges), x.node, p.node))
      ensures nodes == After(old(nodes), NodeStep.Publish(p, refused))
      ensures refused ==> outcome.Published? && Unlinkable(old(nodes), old(edges), p)
    {
      refused := false;
      outcome := Judgement(nodes, p);
      if !outcome.Published? { return; }
      var nodes0, edges0, clock0, head0 := nodes, edges, clock, head;
      var stored := StoreSource(p);
      if !stored {
        nodes, edges, clock, head, refused := nodes0, edges0, clock0, head0, true;
      }
    }

    method StoreSource(p: Publication) returns (stored: bool)
      requires Valid() && p.node in nodes
      requires ClosureKnown(nodes, p)
      modifies this`nodes, this`edges, this`others, this`clock, this`head
      ensures others == old(others)
      ensures stored ==> Valid() && nodes == Replaced(old(nodes), p) && head > old(head)
      ensures stored ==> ImportsLinked(old(edges), edges, p)
      ensures !stored ==> Unlinkable(old(nodes), old(edges), p)
    {
      nodes := Replaced(nodes, p);
      stored := LinkImports(p);
      if stored {
        PublishedEntriesKnown(old(nodes), p);
        Announce(old(head));
      }
    }

    /** An event that can move the long pole: the memo holds nothing for the new head. */
    method Announce(ghost before: nat)
      requires EndsKnown(nodes, edges) && EntriesKnown(nodes) && OneGoal(nodes) && RowsKnown(nodes, others)
      requires Acyclic(DependsGraph(edges)) && Kept(memo, before) && before <= clock
      modifies this`clock, this`head
      ensures Valid() && head > before
    {
      HeadMoved(memo, before, clock + 1, nodes, edges);
      clock, head := clock + 1, clock + 1;
    }

    method LinkImports(p: Publication) returns (linked: bool)
      requires EndsKnown(nodes, edges) && Acyclic(DependsGraph(edges)) && p.node in nodes && head <= clock
      modifies this`edges, this`others, this`clock, this`head
      ensures EndsKnown(nodes, edges) && Acyclic(DependsGraph(edges)) && others == old(others)
      ensures old(clock) <= clock && head <= clock
      ensures linked ==> ImportsLinked(old(edges), edges, p)
                         && forall e | e in p.source.imports :: e.node in nodes
      ensures !linked ==> Unlinkable(nodes, old(edges), p)
    {
      var imports := p.source.imports;
      for i := 0 to |imports|
        invariant EndsKnown(nodes, edges) && Acyclic(DependsGraph(edges)) && others == old(others)
        invariant old(clock) <= clock && head <= clock && |edges| <= |old(edges)| + i
        invariant forall e | e in old(edges) :: e in edges
        invariant forall e | e in edges :: e in old(edges) || (e.0 == p.node && Imports(imports, e.1))
        invariant forall j | 0 <= j < i :: imports[j].node in nodes && Linked(edges, p.node, imports[j].node)
      {
        ghost var before := edges;
        assert Imports(imports, imports[i].node);
        linked := LinkImport(p.node, imports[i].node);
        if !linked {
          return;
        }
        forall j | 0 <= j < i ensures Linked(edges, p.node, imports[j].node) {
          LinkedStays(before, edges, p.node, imports[j].node);
        }
      }
      linked := true;
    }

    /** One import's edge: there, added, or closing a cycle. */
    method LinkImport(source: Id, target: Id) returns (linked: bool)
      requires EndsKnown(nodes, edges) && Acyclic(DependsGraph(edges)) && source in nodes && head <= clock
      modifies this`edges, this`others, this`clock, this`head
      ensures EndsKnown(nodes, edges) && Acyclic(DependsGraph(edges)) && others == old(others)
      ensures old(clock) <= clock && head <= clock
      ensures edges == old(edges) || edges == old(edges) + [(source, target)]
      ensures linked ==> target in nodes && Linked(edges, source, target)
      ensures !linked ==> target !in nodes || |nodes| > MAX_GRAPH_NODES || |old(edges)| > MAX_GRAPH_EDGES
    {
      var edge := AddEdge(source, DependsOn, target, false);
      linked := edge != NotFoundEdge && edge != GraphTooLarge;
      ReachesSelf(DependsGraph(edges), source);
    }

    method Keep(ids: set<Id>) returns (result: PoleResult)
      requires Kept(memo, head) && !Holding(memo, head) && ids == Ids(Pole(nodes, edges))
      modifies this`memo
      ensures MemoRight(memo, head, nodes, edges) && Holding(memo, head) && result == PoleIds(ids)
    {
      Remembered(memo, head, nodes, edges);
      memo, result := Remember(memo, head, ids), PoleIds(ids);
    }

    /** The pole at the current head: from the memo, else computed and kept. */
    method LongPoleIdsAt() returns (result: PoleResult)
      requires Valid()
      modifies this`memo
      ensures Valid()
      ensures result == if Holding(old(memo), head) then PoleIds(Ids(Pole(nodes, edges)))
                        else FreshPole(nodes, edges)
      ensures result == FreshPole(nodes, edges)
              <==> !Holding(old(memo), head) || (|nodes| <= MAX_GRAPH_NODES && |edges| <= MAX_GRAPH_EDGES)
      ensures result.PoleIds? ==> (exists i :: 0 <= i < |memo| && memo[i].0 == head) && forall n :: n in result.ids <==> n in Pole(nodes, edges)
      ensures result.PoleTooLarge? <==>
                (|nodes| > 5000 || |edges| > 50_000) && forall i | 0 <= i < |old(memo)| :: old(memo)[i].0 != head
    {
      if i :| 0 <= i < |memo| && memo[i].0 == head {
        HeldPole(memo, head, nodes, edges, i);
        return PoleIds(memo[i].1);
      }
      if |nodes| > MAX_GRAPH_NODES || |edges| > MAX_GRAPH_EDGES {
        return PoleTooLarge;
      }
      var pole := ComputePole(nodes, edges);
      result := Keep(set n | n in pole);
    }
  }

  /** A history in which the memo answers what a fresh computation refuses: a pole kept for the
      largest graph still computed, then one more node, which no edge touches. */
  method PoleOutlivesItsBound() returns (store: Graphstore, answer: PoleResult)
    ensures fresh(store) && store.Valid()
    ensures answer == PoleIds(Ids(Pole(store.nodes, store.edges))) && FreshPole(store.nodes, store.edges) == PoleTooLarge
  {
    var node := Node(Lemma, Open, None, 0, None, false, None);
    store := new Graphstore();
    for i := 0 to MAX_GRAPH_NODES
      invariant fresh(store) && store.Valid() && store.edges == [] && |store.nodes| == i
      invariant forall n | n in store.nodes :: n < i
    {
      var created := store.CreateNode(i, node, []);
    }
    answer := store.LongPoleIdsAt();
    assert answer.PoleIds?;
    var created := store.CreateNode(MAX_GRAPH_NODES, node, []);
    answer := store.LongPoleIdsAt();
  }

  lemma PublishedEntriesKnown(nodes: map<Id, Node>, p: Publication)
    requires EntriesKnown(nodes) && p.node in nodes
    requires forall e | e in p.source.imports :: e.node in nodes
    requires ClosureKnown(nodes, p)
    ensures EntriesKnown(Replaced(nodes, p)) && Goals(Replaced(nodes, p)) == Goals(nodes)
  {
  }
}
