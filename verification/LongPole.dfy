/** Where help counts most: the goal's long pole over the open depends_on graph, computed from the
    nodes and edges, and what it means for an acyclic graph. */
module LongPole {
  import opened Basics
  import opened Commons
  import opened Graphs
  import opened Closures
  import opened Publication
  import opened Traversal

  const MAX_GRAPH_NODES := 5000
  const MAX_GRAPH_EDGES := 50_000
  const POLE_LIMIT := 3

  type Edges = seq<(Id, Id)>   // depends_on rows: (dependent, dependency)

  // ----- The depends_on graph -----

  function TargetsOf(edges: Edges, s: Id): (r: seq<Id>)
    ensures forall t :: t in r <==> (s, t) in edges
  {
    if edges == [] then []
    else (if edges[0].0 == s then [edges[0].1] else []) + TargetsOf(edges[1..], s)
  }

  ghost function DependsGraph(edges: Edges): Graph {
    imap s: Id | true :: TargetsOf(edges, s)
  }

  function Within(edges: Edges, kept: set<Id>): (r: Edges)
    ensures forall e :: e in r <==> e in edges && e.0 in kept && e.1 in kept
  {
    if edges == [] then []
    else (if edges[0].0 in kept && edges[0].1 in kept then [edges[0]] else []) + Within(edges[1..], kept)
  }

  lemma TargetsAppend(edges: Edges, e: (Id, Id), s: Id)
    ensures TargetsOf(edges + [e], s) == TargetsOf(edges, s) + if e.0 == s then [e.1] else []
  {
    if edges != [] {
      assert (edges + [e])[1..] == edges[1..] + [e];
    }
  }

  /** Children lists of the edges, built row by row. */
  method DependencyChildren(edges: Edges) returns (children: map<Id, seq<Id>>)
    ensures forall s :: TargetsOf(edges, s) == if s in children then children[s] else []
  {
    children := map[];
    for i := 0 to |edges|
      invariant forall s :: TargetsOf(edges[..i], s) == if s in children then children[s] else []
    {
      var (s, t) := edges[i];
      assert edges[..i + 1] == edges[..i] + [edges[i]];
      forall x { TargetsAppend(edges[..i], edges[i], x); }
      children := children[s := (if s in children then children[s] else []) + [t]];
    }
    assert edges[..|edges|] == edges;
  }

  // ----- Open work -----

  /** A complete source proves an elaborated statement, and a definition, which states nothing. */
  predicate Proves(node: Node, stands: bool) {
    var state := SourceState(node, stands);
    state.Ranked? && IsComplete(state.rank) && (HasElaboratedStatement(node) || node.nodeType == Definition)
  }

  ghost predicate OpenWork(nodes: map<Id, Node>, n: Id)
    requires n in nodes
  {
    IsOpen(nodes[n].status) && !Proves(nodes[n], Stands(nodes, n))
  }

  ghost function OpenIds(nodes: map<Id, Node>): set<Id> {
    set n | n in nodes && OpenWork(nodes, n)
  }

  function Goals(nodes: map<Id, Node>): set<Id> {
    set n | n in nodes && nodes[n].nodeType == Goal
  }

  ghost predicate OneGoal(nodes: map<Id, Node>) {
    forall a, b | a in Goals(nodes) && b in Goals(nodes) :: a == b
  }

  // ----- The long pole -----

  /** The nodes the goal reaches through open nodes. */
  ghost predicate IsPart(edges: Edges, open: set<Id>, goals: set<Id>, n: Id) {
    exists goal :: goal in goals && n != goal && Reaches(DependsGraph(Within(edges, open + {goal})), goal, n)
  }

  predicate WaitsOnOpen(edges: Edges, open: set<Id>, n: Id) {
    exists e :: e in edges && e.0 == n && n in open && e.1 in open
  }

  ghost function PoleParts(edges: Edges, open: set<Id>, goals: set<Id>): set<Id> {
    set n | n in open && IsPart(edges, open, goals, n) && !WaitsOnOpen(edges, open, n)
  }

  /** How many open nodes wait on `t`: one count a row. */
  function Dependents(live: Edges, t: Id): nat {
    if live == [] then 0 else (if live[0].1 == t then 1 else 0) + Dependents(live[1..], t)
  }

  /** The open nodes, the goal aside, that most open nodes depend on; ties are kept. */
  function Busiest(live: Edges, goals: set<Id>): set<Id> {
    var targets := set e | e in live && e.1 !in goals :: e.1;
    set t | t in targets && forall u | u in targets :: Dependents(live, u) <= Dependents(live, t)
  }

  ghost function Chosen(edges: Edges, open: set<Id>, goals: set<Id>): set<Id> {
    var parts := PoleParts(edges, open, goals);
    if parts != {} then parts else Busiest(Within(edges, open), goals)
  }

  predicate Older(nodes: map<Id, Node>, a: Id, b: Id)
    requires a in nodes && b in nodes
  {
    nodes[a].createdAt < nodes[b].createdAt || (nodes[a].createdAt == nodes[b].createdAt && a <= b)
  }

  ghost predicate IsOldest(nodes: map<Id, Node>, s: set<Id>, a: Id)
    requires s <= nodes.Keys
  {
    a in s && forall b | b in s :: Older(nodes, a, b)
  }

  lemma {:induction false} OldestExists(nodes: map<Id, Node>, s: set<Id>)
    requires s != {} && s <= nodes.Keys
    ensures exists a :: IsOldest(nodes, s, a)
  {
    var x :| x in s;
    if s == {x} {
      assert IsOldest(nodes, s, x);
    } else {
      OldestExists(nodes, s - {x});
      var rest :| IsOldest(nodes, s - {x}, rest);
      var a := if Older(nodes, x, rest) then x else rest;
      forall b | b in s ensures Older(nodes, a, b) {
        assert b == x || b in s - {x};
      }
      assert IsOldest(nodes, s, a);
    }
  }

  function Oldest(nodes: map<Id, Node>, s: set<Id>): (r: Id)
    requires s != {} && s <= nodes.Keys
    ensures r in s && forall b | b in s :: Older(nodes, r, b)
  {
    OldestExists(nodes, s);
    assert exists a :: a in s && forall b | b in s :: Older(nodes, a, b) by {
      var a :| IsOldest(nodes, s, a);
    }
    var a :| a in s && forall b | b in s :: Older(nodes, a, b);
    a
  }

  /** The first `limit` of the nodes, oldest first. */
  function OldestFirst(nodes: map<Id, Node>, s: set<Id>, limit: nat): (r: seq<Id>)
    requires s <= nodes.Keys
    ensures forall x | x in r :: x in s
    ensures |r| <= limit && (s != {} && limit > 0 ==> r != [])
  {
    if s == {} || limit == 0 then []
    else var a := Oldest(nodes, s); [a] + OldestFirst(nodes, s - {a}, limit - 1)
  }

  ghost predicate EndsKnown(nodes: map<Id, Node>, edges: Edges) {
    forall e | e in edges :: e.0 in nodes && e.1 in nodes
  }

  /** The long pole of a graph, as plainly as it can be said. */
  ghost function Pole(nodes: map<Id, Node>, edges: Edges): seq<Id> {
    var chosen := Chosen(edges, OpenIds(nodes), Goals(nodes));
    ChosenKnown(nodes, edges);
    OldestFirst(nodes, chosen, POLE_LIMIT)
  }

  lemma ChosenKnown(nodes: map<Id, Node>, edges: Edges)
    ensures Chosen(edges, OpenIds(nodes), Goals(nodes)) <= nodes.Keys
  {
  }

  // ----- What the pole is, by the stored fields and rows -----

  /** Open by its status, and not proved: it has no complete or verified source of its current statement
      that stands, or such a source proves nothing, the node having no elaborated statement and being
      no definition. */
  ghost predicate IsOpenWork(nodes: map<Id, Node>, n: Id) {
    && n in nodes && (nodes[n].status == Open || nodes[n].status == Legacy)
    && (nodes[n].source.Some? && nodes[n].source.value.rank in {Complete, Verified}
        && nodes[n].source.value.statement == nodes[n].statement && Stands(nodes, n)
        ==> !(nodes[n].statement.Some? && nodes[n].elaborated) && nodes[n].nodeType != Definition)
  }

  lemma OpenIdsAre(nodes: map<Id, Node>, n: Id)
    ensures n in OpenIds(nodes) <==> IsOpenWork(nodes, n)
  {
  }

  /** Rows that lead from the goal down through open nodes. */
  ghost predicate GoalWalk(edges: Edges, open: set<Id>, goal: Id, w: seq<Id>) {
    && |w| > 1 && w[0] == goal
    && forall i, j | 0 <= i < j < |w| && j == i + 1 :: (w[i], w[j]) in edges && (w[j] in open || w[j] == goal)
  }

  lemma PartIsReached(edges: Edges, open: set<Id>, goal: Id, n: Id)
    requires n != goal
    ensures Reaches(DependsGraph(Within(edges, open + {goal})), goal, n)
            <==> exists w :: GoalWalk(edges, open, goal, w) && w[|w| - 1] == n
  {
    var g := DependsGraph(Within(edges, open + {goal}));
    if Reaches(g, goal, n) {
      var w :| WalkFrom(g, w, goal, n);
      forall i, j | 0 <= i < j < |w| && j == i + 1 ensures (w[i], w[j]) in edges && (w[j] in open || w[j] == goal) {
        assert Edge(g, w[i], w[i + 1]);
      }
      assert GoalWalk(edges, open, goal, w);
    }
    if w :| GoalWalk(edges, open, goal, w) && w[|w| - 1] == n {
      forall i | 0 <= i < |w| - 1 ensures Edge(g, w[i], w[i + 1]) {
        var j := i + 1;
        assert (w[i], w[j]) in edges;
        if i > 0 {
          var h := i - 1;
          assert (w[h], w[i]) in edges;
        }
        assert (w[i], w[j]) in Within(edges, open + {goal});
      }
      assert WalkFrom(g, w, goal, n);
    }
  }

  /** An open node the goal reaches through open nodes, which depends on no open one. */
  ghost predicate HelpsMost(nodes: map<Id, Node>, edges: Edges, n: Id) {
    && IsOpenWork(nodes, n) && (forall e | e in edges && e.0 == n :: !IsOpenWork(nodes, e.1))
    && exists goal, w ::
         && goal in nodes && nodes[goal].nodeType == Goal && n != goal
         && GoalWalk(edges, OpenIds(nodes), goal, w) && w[|w| - 1] == n
  }

  /** The rows by which open nodes depend on an open one, by their places. */
  ghost function OpenRows(nodes: map<Id, Node>, edges: Edges, t: Id): set<nat> {
    set i: nat | i < |edges| && edges[i].1 == t && IsOpenWork(nodes, edges[i].0) && IsOpenWork(nodes, t)
  }

  /** No other node but the goal has as many open dependents, counted by rows, and it has one. */
  ghost predicate MostDependedOn(nodes: map<Id, Node>, edges: Edges, t: Id) {
    && OpenRows(nodes, edges, t) != {} && (t in nodes ==> nodes[t].nodeType != Goal)
    && forall u | u in nodes && nodes[u].nodeType != Goal :: |OpenRows(nodes, edges, u)| <= |OpenRows(nodes, edges, t)|
  }

  lemma {:induction false} WithinMore(edges: Edges, kept: set<Id>, e: (Id, Id))
    ensures Within(edges + [e], kept) == Within(edges, kept) + if e.0 in kept && e.1 in kept then [e] else []
  {
    if edges != [] {
      assert (edges + [e])[1..] == edges[1..] + [e];
      WithinMore(edges[1..], kept, e);
    }
  }

  lemma {:induction false} DependentsMore(live: Edges, e: (Id, Id), t: Id)
    ensures Dependents(live + [e], t) == Dependents(live, t) + if e.1 == t then 1 else 0
  {
    if live != [] {
      assert (live + [e])[1..] == live[1..] + [e];
      DependentsMore(live[1..], e, t);
    }
  }

  ghost function RowsAmong(edges: Edges, open: set<Id>, t: Id): set<nat> {
    set i: nat | i < |edges| && edges[i].1 == t && edges[i].0 in open && t in open
  }

  lemma {:induction false} RowsCounted(edges: Edges, open: set<Id>, t: Id)
    ensures Dependents(Within(edges, open), t) == |RowsAmong(edges, open, t)|
  {
    if edges == [] {
      assert RowsAmong(edges, open, t) == {};
    } else {
      var n := |edges| - 1;
      var init, e := edges[..n], edges[n];
      assert edges == init + [e];
      RowsCounted(init, open, t);
      OneMoreDependent(init, open, e, t);
      OneMoreRow(edges, init, open, t);
    }
  }

  lemma OneMoreDependent(init: Edges, open: set<Id>, e: (Id, Id), t: Id)
    ensures Dependents(Within(init + [e], open), t)
            == Dependents(Within(init, open), t) + if e.1 == t && e.0 in open && e.1 in open then 1 else 0
  {
    WithinMore(init, open, e);
    if e.0 in open && e.1 in open {
      DependentsMore(Within(init, open), e, t);
    } else {
      assert Within(init, open) + [] == Within(init, open);
    }
  }

  lemma OneMoreRow(edges: Edges, init: Edges, open: set<Id>, t: Id)
    requires edges != [] && init == edges[..|edges| - 1]
    ensures var e := edges[|edges| - 1];
            |RowsAmong(edges, open, t)| == |RowsAmong(init, open, t)| + if e.1 == t && e.0 in open && t in open then 1 else 0
  {
    var n := |edges| - 1;
    assert RowsAmong(edges, open, t)
        == RowsAmong(init, open, t) + if edges[n].1 == t && edges[n].0 in open && t in open then {n} else {};
  }

  lemma DependentsCounted(nodes: map<Id, Node>, edges: Edges, t: Id)
    ensures Dependents(Within(edges, OpenIds(nodes)), t) == |OpenRows(nodes, edges, t)|
  {
    RowsCounted(edges, OpenIds(nodes), t);
    forall n ensures n in OpenIds(nodes) <==> IsOpenWork(nodes, n) {
      OpenIdsAre(nodes, n);
    }
    assert OpenRows(nodes, edges, t) == RowsAmong(edges, OpenIds(nodes), t);
  }

  lemma PartHasWalk(nodes: map<Id, Node>, edges: Edges, n: Id)
    ensures IsPart(edges, OpenIds(nodes), Goals(nodes), n)
            <==> exists goal, w :: goal in nodes && nodes[goal].nodeType == Goal && n != goal
                                   && GoalWalk(edges, OpenIds(nodes), goal, w) && w[|w| - 1] == n
  {
    var open, goals := OpenIds(nodes), Goals(nodes);
    if IsPart(edges, open, goals, n) {
      var goal :| goal in goals && n != goal && Reaches(DependsGraph(Within(edges, open + {goal})), goal, n);
      PartIsReached(edges, open, goal, n);
    }
    if goal, w :| goal in nodes && nodes[goal].nodeType == Goal && n != goal && GoalWalk(edges, open, goal, w) && w[|w| - 1] == n {
      PartIsReached(edges, open, goal, n);
      assert goal in goals;
    }
  }

  lemma HelpsMostIsPart(nodes: map<Id, Node>, edges: Edges, n: Id)
    ensures n in PoleParts(edges, OpenIds(nodes), Goals(nodes)) <==> HelpsMost(nodes, edges, n)
  {
    PartHasWalk(nodes, edges, n);
    forall m ensures m in OpenIds(nodes) <==> IsOpenWork(nodes, m) {
      OpenIdsAre(nodes, m);
    }
  }

  lemma MostDependedOnIsBusiest(nodes: map<Id, Node>, edges: Edges, t: Id)
    ensures t in Busiest(Within(edges, OpenIds(nodes)), Goals(nodes)) <==> MostDependedOn(nodes, edges, t)
  {
    var live := Within(edges, OpenIds(nodes));
    forall u ensures Dependents(live, u) == |OpenRows(nodes, edges, u)| {
      DependentsCounted(nodes, edges, u);
    }
    forall u ensures (exists e :: e in live && e.1 == u) <==> OpenRows(nodes, edges, u) != {} {
      RowsAreLive(nodes, edges, u);
    }
  }

  lemma RowsAreLive(nodes: map<Id, Node>, edges: Edges, u: Id)
    ensures (exists e :: e in Within(edges, OpenIds(nodes)) && e.1 == u) <==> OpenRows(nodes, edges, u) != {}
  {
    if e :| e in Within(edges, OpenIds(nodes)) && e.1 == u {
      var i :| 0 <= i < |edges| && edges[i] == e;
      assert i in OpenRows(nodes, edges, u);
    }
    if i :| i in OpenRows(nodes, edges, u) {
      assert edges[i] in Within(edges, OpenIds(nodes));
    }
  }

  /** The nodes chosen: those that help most, if any; else the open ones most depended on. */
  lemma ChosenAre(nodes: map<Id, Node>, edges: Edges, n: Id)
    ensures n in Chosen(edges, OpenIds(nodes), Goals(nodes))
            <==> if exists m :: HelpsMost(nodes, edges, m) then HelpsMost(nodes, edges, n) else MostDependedOn(nodes, edges, n)
  {
    forall m ensures m in PoleParts(edges, OpenIds(nodes), Goals(nodes)) <==> HelpsMost(nodes, edges, m) {
      HelpsMostIsPart(nodes, edges, m);
    }
    MostDependedOnIsBusiest(nodes, edges, n);
  }

  /** Created earlier, or at the same time with a smaller identifier. */
  ghost predicate Earlier(nodes: map<Id, Node>, a: Id, b: Id) {
    a in nodes && b in nodes
    && (nodes[a].createdAt < nodes[b].createdAt || (nodes[a].createdAt == nodes[b].createdAt && a < b))
  }

  /** The oldest of a set, as many as asked, in order of age. */
  lemma {:induction false} OldestFirstAre(nodes: map<Id, Node>, s: set<Id>, limit: nat)
    requires s <= nodes.Keys
    ensures var r := OldestFirst(nodes, s, limit);
            && |r| == (if |s| < limit then |s| else limit)
            && (forall i, j | 0 <= i < j < |r| :: Earlier(nodes, r[i], r[j]))
            && (forall x, y | x in s && x !in r && y in r :: Earlier(nodes, y, x))
    decreases limit
  {
    if s != {} && limit > 0 {
      var a := Oldest(nodes, s);
      var rest := OldestFirst(nodes, s - {a}, limit - 1);
      OldestFirstAre(nodes, s - {a}, limit - 1);
      forall x | x in s && x != a ensures Earlier(nodes, a, x) {
        assert Older(nodes, a, x);
      }
      forall j | 0 <= j < |rest| ensures Earlier(nodes, a, rest[j]) {
        assert rest[j] in rest;
      }
    }
  }

  /** The pole's ids: three of the nodes chosen, or all if they are fewer, oldest first, and none of the
      others older. */
  lemma PoleAre(nodes: map<Id, Node>, edges: Edges, chosen: set<Id>)
    requires forall n :: n in chosen <==> if exists m :: HelpsMost(nodes, edges, m) then HelpsMost(nodes, edges, n) else MostDependedOn(nodes, edges, n)
    ensures var pole := Pole(nodes, edges);
            && |pole| == (if |chosen| < 3 then |chosen| else 3) && (forall n | n in pole :: n in chosen)
            && (forall i, j | 0 <= i < j < |pole| :: Earlier(nodes, pole[i], pole[j]))
            && (forall x, y | x in chosen && x !in pole && y in pole :: Earlier(nodes, y, x))
  {
    var all := Chosen(edges, OpenIds(nodes), Goals(nodes));
    forall n ensures n in chosen <==> n in all {
      ChosenAre(nodes, edges, n);
    }
    assert chosen == all;
    ChosenKnown(nodes, edges);
    OldestFirstAre(nodes, all, POLE_LIMIT);
  }

  // ----- An acyclic graph's long pole -----

  /** Below an open part of the goal lies an open part that waits on nothing open. */
  lemma {:induction false} SinkExists(edges: Edges, open: set<Id>, goals: set<Id>, goal: Id, x: Id, below: set<Id>)
    requires Acyclic(DependsGraph(edges)) && goal in goals
    requires x in open && x != goal && Reaches(DependsGraph(Within(edges, open + {goal})), goal, x)
    requires forall y :: y in below <==> y in open && Reaches(DependsGraph(edges), x, y)
    ensures exists n :: n in PoleParts(edges, open, goals) && Reaches(DependsGraph(edges), x, n)
    decreases |below|
  {
    var g, within := DependsGraph(edges), DependsGraph(Within(edges, open + {goal}));
    if e :| e in edges && e.0 == x && e.1 in open {
      var t := e.1;
      assert Edge(g, x, t) && Edge(within, x, t);
      EdgeReaches(within, x, t);
      ReachesTrans(within, goal, x, t);
      EdgeReaches(g, x, t);
      SubgraphReaches(within, g, goal, x);
      assert t != goal;
      var lower := set y | y in below && Reaches(g, t, y);
      forall y | y in open && Reaches(g, t, y) ensures y in lower {
        ReachesTrans(g, x, t, y);
      }
      ReachesSelf(g, x);
      assert x in below - lower;
      SubsetSize(lower, below - {x});
      SinkExists(edges, open, goals, goal, t, lower);
      var n :| n in PoleParts(edges, open, goals) && Reaches(g, t, n);
      ReachesTrans(g, x, t, n);
    } else {
      ReachesSelf(g, x);
      assert IsPart(edges, open, goals, x);
      assert x in PoleParts(edges, open, goals);
    }
  }

  /** Whenever the goal depends directly on an open node, the long pole is not empty and no node in
      it waits on an open node. */
  lemma LongPoleWaitsOnNothing(nodes: map<Id, Node>, edges: Edges, goal: Id, x: Id)
    requires Acyclic(DependsGraph(edges)) && EndsKnown(nodes, edges)
    requires goal in Goals(nodes) && (goal, x) in edges && x in OpenIds(nodes)
    ensures Pole(nodes, edges) != []
    ensures forall n, t | n in Pole(nodes, edges) && (n, t) in edges :: t !in OpenIds(nodes)
  {
    var open, goals := OpenIds(nodes), Goals(nodes);
    var within := DependsGraph(Within(edges, open + {goal}));
    assert Edge(within, goal, x) && Edge(DependsGraph(edges), goal, x);
    EdgeReaches(within, goal, x);
    ReachesSelf(DependsGraph(edges), x);
    var below := set y | y in open && Reaches(DependsGraph(edges), x, y);
    SinkExists(edges, open, goals, goal, x, below);
    forall n, t | n in Pole(nodes, edges) && (n, t) in edges ensures t !in open {
      assert !WaitsOnOpen(edges, open, n);
    }
  }

  // ----- The computation -----

  /** The open nodes, each judged once. */
  method JudgeOpen(nodes: map<Id, Node>) returns (open: set<Id>)
    ensures open == OpenIds(nodes)
  {
    var judge := new Judge(nodes);
    open := {};
    var todo := nodes.Keys;
    while todo != {}
      invariant judge.Valid() && judge.nodes == nodes && fresh(judge) && todo <= nodes.Keys
      invariant forall n :: n in open <==> n in nodes && n !in todo && OpenWork(nodes, n)
      decreases todo
    {
      var n :| n in todo;
      var stands := judge.SourceStands(n);
      if IsOpen(nodes[n].status) && !Proves(nodes[n], stands) {
        open := open + {n};
      }
      todo := todo - {n};
    }
  }

  /** The goal's parts through open nodes, by the bounded walker: within the node bound it is never
      cut short. */
  method GoalParts(nodes: map<Id, Node>, edges: Edges, open: set<Id>, goal: Id) returns (parts: set<Id>)
    requires |nodes| <= MAX_GRAPH_NODES && EndsKnown(nodes, edges) && Goals(nodes) == {goal} && open <= nodes.Keys
    ensures forall n | n in open :: n in parts <==> IsPart(edges, open, {goal}, n)
  {
    var within := Within(edges, open + {goal});
    var children := DependencyChildren(within);
    var reached, truncated := DependsClosure(children, goal, MAX_GRAPH_NODES);
    parts := set n | n in reached;
    ghost var g, h := AsGraph(children), DependsGraph(within);
    assert forall a, b :: Edge(g, a, b) <==> Edge(h, a, b);
    forall x | Reaches(g, goal, x) ensures x in nodes {
      SubgraphReaches(g, h, goal, x);
      ReachesStays(h, (iset y | y in nodes), goal, x);
    }
    if truncated {
      ghost var x :| x != goal && x !in reached && Reaches(g, goal, x);
      DistinctCount([goal, x] + reached);
      SubsetSize(Members([goal, x] + reached), nodes.Keys);
    }
    forall n | n in open ensures n in parts <==> IsPart(edges, open, {goal}, n) {
      if n in parts {
        SubgraphReaches(g, h, goal, n);
        assert n != goal;
      }
      if IsPart(edges, open, {goal}, n) {
        SubgraphReaches(h, g, goal, n);
      }
    }
  }

  /** The long pole's ids, oldest first; none when the goal's parts are still to be linked. */
  method ComputePole(nodes: map<Id, Node>, edges: Edges) returns (pole: seq<Id>)
    requires |nodes| <= MAX_GRAPH_NODES && EndsKnown(nodes, edges) && OneGoal(nodes)
    ensures pole == Pole(nodes, edges)
  {
    var open := JudgeOpen(nodes);
    var goals := Goals(nodes);
    var parts: set<Id> := {};
    if goals != {} {
      var goal :| goal in goals;
      assert goals == {goal};
      parts := GoalParts(nodes, edges, open, goal);
    }
    var chosen := set n | n in open && n in parts && !WaitsOnOpen(edges, open, n);
    assert chosen == PoleParts(edges, open, goals);
    if chosen == {} {
      chosen := Busiest(Within(edges, open), goals);
    }
    ChosenKnown(nodes, edges);
    pole := OldestFirst(nodes, chosen, POLE_LIMIT);
  }
}
