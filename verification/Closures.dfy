/** The lemma store's standing verdicts: whether a published source still stands on the Lean
    its check inlined, judged by a memoised depth-first search on an explicit stack. */
module Closures {
  import opened Basics
  import opened Commons
  import opened Graphs

  // ----- The plain meaning: a least fixpoint -----

  /** The entry still names its node's source, by digest. */
  predicate Holds(nodes: map<Id, Node>, entry: Entry) {
    entry.node in nodes && SourceDigest(nodes[entry.node]) == entry.sha
  }

  /** The nodes the source's check stood on, or None once one no longer holds what was recorded. */
  function Children(nodes: map<Id, Node>, node: Node): (r: Option<seq<Id>>)
    ensures r.Some? ==> forall i | 0 <= i < |r.value| :: r.value[i] in nodes
  {
    var entries := Entries(node);
    if forall i | 0 <= i < |entries| :: Holds(nodes, entries[i])
    then Some(seq(|entries|, i requires 0 <= i < |entries| => entries[i].node))
    else None
  }

  /** `n` stands by a derivation at most `depth` imports high. */
  ghost predicate StandsWithin(nodes: map<Id, Node>, n: Id, depth: nat)
    decreases depth
  {
    depth > 0 && n in nodes && Children(nodes, nodes[n]).Some?
    && (Recorded(nodes[n])
        || forall c | c in Children(nodes, nodes[n]).value :: StandsWithin(nodes, c, depth - 1))
  }

  ghost predicate Stands(nodes: map<Id, Node>, n: Id) {
    exists depth: nat :: StandsWithin(nodes, n, depth)
  }

  /** The rule, by the stored fields and over the nodes a set says stand: a node without a source
      stands; a source that recorded its closure does while every module of it is the file recorded;
      any other while every import is, and stands. */
  ghost predicate Rule(nodes: map<Id, Node>, standing: iset<Id>, n: Id) {
    n in nodes &&
    match nodes[n].source
    case None => true
    case Some(source) =>
      match source.closure
      case Some(closure) =>
        forall e | e in closure ::
          e.node in nodes && e.sha == if nodes[e.node].source.Some? then Some(nodes[e.node].source.value.sha) else None
      case None =>
        forall e | e in source.imports ::
          && e.node in nodes && e.node in standing
          && e.sha == if nodes[e.node].source.Some? then Some(nodes[e.node].source.value.sha) else None
  }

  lemma {:induction false} DeeperStands(nodes: map<Id, Node>, n: Id, d: nat, e: nat)
    requires StandsWithin(nodes, n, d) && d <= e
    ensures StandsWithin(nodes, n, e)
    decreases d
  {
    if !Recorded(nodes[n]) {
      forall c | c in Children(nodes, nodes[n]).value ensures StandsWithin(nodes, c, e - 1) {
        DeeperStands(nodes, c, d - 1, e - 1);
      }
    }
  }

  /** Finitely many standing nodes stand within one common depth. */
  lemma {:induction false} CommonDepth(nodes: map<Id, Node>, ns: seq<Id>) returns (d: nat)
    requires forall n | n in ns :: Stands(nodes, n)
    ensures forall n | n in ns :: StandsWithin(nodes, n, d)
  {
    d := 0;
    if ns != [] {
      var rest := CommonDepth(nodes, ns[1..]);
      assert Stands(nodes, ns[0]);
      var first: nat :| StandsWithin(nodes, ns[0], first);
      d := if first < rest then rest else first;
      forall n | n in ns ensures StandsWithin(nodes, n, d) {
        if n == ns[0] {
          DeeperStands(nodes, n, first, d);
        } else {
          assert n in ns[1..];
          DeeperStands(nodes, n, rest, d);
        }
      }
    }
  }

  lemma {:induction false} StandsUnfolds(nodes: map<Id, Node>, n: Id)
    requires n in nodes
    ensures Stands(nodes, n) <==>
            Children(nodes, nodes[n]).Some?
            && (Recorded(nodes[n])
                || forall c | c in Children(nodes, nodes[n]).value :: Stands(nodes, c))
  {
    if Stands(nodes, n) {
      var d: nat :| StandsWithin(nodes, n, d);
      if !Recorded(nodes[n]) {
        forall c | c in Children(nodes, nodes[n]).value ensures Stands(nodes, c) {
          assert StandsWithin(nodes, c, d - 1);
        }
      }
    }
    if Children(nodes, nodes[n]).Some? {
      if Recorded(nodes[n]) {
        assert StandsWithin(nodes, n, 1);
      } else if forall c | c in Children(nodes, nodes[n]).value :: Stands(nodes, c) {
        var d := CommonDepth(nodes, Children(nodes, nodes[n]).value);
        assert StandsWithin(nodes, n, d + 1);
      }
    }
  }

  lemma RuleReadsChildren(nodes: map<Id, Node>, standing: iset<Id>, n: Id)
    requires n in nodes
    ensures Rule(nodes, standing, n) <==>
            Children(nodes, nodes[n]).Some?
            && (Recorded(nodes[n]) || forall c | c in Children(nodes, nodes[n]).value :: c in standing)
  {
    var entries, children := Entries(nodes[n]), Children(nodes, nodes[n]);
    if children.Some? {
      forall e | e in entries ensures Holds(nodes, e) && e.node in children.value {
        var i :| 0 <= i < |entries| && entries[i] == e;
        assert children.value[i] == e.node;
      }
      forall c | c in children.value ensures exists e :: e in entries && e.node == c {
        var i :| 0 <= i < |children.value| && children.value[i] == c;
        assert entries[i] in entries;
      }
    } else {
      var i :| 0 <= i < |entries| && !Holds(nodes, entries[i]);
      assert entries[i] in entries;
    }
  }

  /** `Stands` is the least fixpoint of the rule: it satisfies the rule, and every set the rule
      closes contains it. */
  lemma {:induction false} StandsIsLeastFixpoint(nodes: map<Id, Node>, n: Id, closed: iset<Id>)
    requires forall m | Rule(nodes, closed, m) :: m in closed
    ensures Stands(nodes, n) <==> Rule(nodes, (iset m | Stands(nodes, m)), n)
    ensures Stands(nodes, n) ==> n in closed
  {
    if n in nodes {
      StandsUnfolds(nodes, n);
      RuleReadsChildren(nodes, (iset m | Stands(nodes, m)), n);
    } else {
      assert forall d: nat :: !StandsWithin(nodes, n, d);
    }
    if Stands(nodes, n) {
      var d: nat :| StandsWithin(nodes, n, d);
      LeastAt(nodes, n, d, closed);
    }
  }

  lemma {:induction false} LeastAt(nodes: map<Id, Node>, n: Id, d: nat, closed: iset<Id>)
    requires forall m | Rule(nodes, closed, m) :: m in closed
    requires StandsWithin(nodes, n, d)
    ensures n in closed
    decreases d
  {
    if !Recorded(nodes[n]) {
      forall c | c in Children(nodes, nodes[n]).value ensures c in closed {
        LeastAt(nodes, c, d - 1, closed);
      }
    }
    RuleReadsChildren(nodes, closed, n);
    assert Rule(nodes, closed, n);
  }

  /** The import graph the search descends: only nodes that judge through their imports have
      edges to follow. */
  ghost function Descent(nodes: map<Id, Node>): Graph {
    imap n | n in nodes && Children(nodes, nodes[n]).Some? && !Recorded(nodes[n])
      :: Children(nodes, nodes[n]).value
  }

  lemma {:induction false} WalkLosesDepth(nodes: map<Id, Node>, walk: seq<Id>, d: nat)
    requires |walk| > 0 && Walk(Descent(nodes), walk) && StandsWithin(nodes, walk[0], d)
    ensures d >= |walk| && StandsWithin(nodes, walk[|walk| - 1], d - (|walk| - 1))
  {
    if |walk| > 1 {
      assert Edge(Descent(nodes), walk[0], walk[1]);
      assert StandsWithin(nodes, walk[1], d - 1);
      WalkLosesDepth(nodes, walk[1..], d - 1);
    }
  }

  /** An unrecorded import cycle stands on nothing. */
  lemma {:induction false} CycleNeverStands(nodes: map<Id, Node>, cycle: seq<Id>)
    requires |cycle| > 1 && Walk(Descent(nodes), cycle) && cycle[0] == cycle[|cycle| - 1]
    ensures !Stands(nodes, cycle[0])
  {
    if Stands(nodes, cycle[0]) {
      var d: nat :| StandsWithin(nodes, cycle[0], d);
      NoDepthSuffices(nodes, cycle, d);
    }
  }

  lemma {:induction false} NoDepthSuffices(nodes: map<Id, Node>, cycle: seq<Id>, d: nat)
    requires |cycle| > 1 && Walk(Descent(nodes), cycle) && cycle[0] == cycle[|cycle| - 1]
    ensures !StandsWithin(nodes, cycle[0], d)
    decreases d
  {
    if StandsWithin(nodes, cycle[0], d) {
      WalkLosesDepth(nodes, cycle, d);
      NoDepthSuffices(nodes, cycle, d - (|cycle| - 1));
    }
  }

  /** Every node on or above an unrecorded import cycle is judged not to stand. */
  lemma {:induction false} AboveCycleNeverStands(nodes: map<Id, Node>, walk: seq<Id>, cycle: seq<Id>)
    requires |walk| > 0 && Walk(Descent(nodes), walk)
    requires |cycle| > 1 && walk[|walk| - 1] == cycle[0] && Walk(Descent(nodes), cycle) && cycle[0] == cycle[|cycle| - 1]
    ensures !Stands(nodes, walk[0])
  {
    CycleNeverStands(nodes, cycle);
    if Stands(nodes, walk[0]) {
      var d: nat :| StandsWithin(nodes, walk[0], d);
      WalkLosesDepth(nodes, walk, d);
    }
  }

  // ----- The search -----

  /** The children not judged yet, in the order the source lists them. */
  function Waiting(children: seq<Id>, judged: map<Id, bool>): (r: seq<Id>)
    ensures forall c :: c in r <==> c in children && c !in judged
  {
    if children == [] then []
    else (if children[0] in judged then [] else [children[0]]) + Waiting(children[1..], judged)
  }

  /** Every verdict the memo holds is the least fixpoint's. */
  ghost predicate Sound(nodes: map<Id, Node>, judged: map<Id, bool>) {
    judged.Keys <= nodes.Keys && forall k | k in judged :: judged[k] == Stands(nodes, k)
  }

  /** The stack, cut where the search went down: each frame holds the waiting children of the last
      node of the frame before it. The last nodes of all frames but the newest form the search
      path; an empty newest frame means its parent is on top again. */
  type Frames = seq<seq<Id>>

  ghost function Flatten(frames: Frames): seq<Id> {
    if frames == [] then [] else Flatten(frames[..|frames| - 1]) + frames[|frames| - 1]
  }

  ghost function PathNode(frames: Frames, k: nat): Id
    requires k < |frames| && frames[k] != []
  {
    frames[k][|frames[k]| - 1]
  }

  /** The nodes expanded but not judged are exactly the search path; above each on the stack lie
      only its own children, every unjudged one among them, and never the node itself. */
  ghost predicate Search(g: Graph, judged: map<Id, bool>, visiting: set<Id>, frames: Frames) {
    && |frames| > 0
    && (forall k | 0 <= k < |frames| - 1 :: Opened(g, judged, visiting, frames, k))
    && (forall v | v in visiting && v !in judged :: OnPath(frames, v))
  }

  ghost predicate OnPath(frames: Frames, v: Id) {
    exists k :: 0 <= k < |frames| - 1 && frames[k] != [] && PathNode(frames, k) == v
  }

  ghost predicate Opened(g: Graph, judged: map<Id, bool>, visiting: set<Id>, frames: Frames, k: nat)
    requires k < |frames| - 1
  {
    && frames[k] != []
    && var p := PathNode(frames, k);
       && p in visiting && p !in judged && p in g
       && (forall j | k < j < |frames| :: p !in frames[j])
       && (forall x | x in frames[k + 1] :: x in g[p])
       && (forall c | c in g[p] :: c in judged || c in frames[k + 1])
  }

  /** The nodes expanded but not judged are exactly those on the search path. */
  lemma UnfinishedArePath(g: Graph, judged: map<Id, bool>, visiting: set<Id>, frames: Frames, v: Id)
    requires Search(g, judged, visiting, frames)
    ensures v in visiting && v !in judged <==> OnPath(frames, v)
  {
    if k :| 0 <= k < |frames| - 1 && frames[k] != [] && PathNode(frames, k) == v {
      assert Opened(g, judged, visiting, frames, k);
    }
  }

  /** The top of the stack. Unjudged, it was expanded exactly when the newest frame is empty, and
      then every child has its verdict: the default is never used. */
  lemma TopOfStack(g: Graph, judged: map<Id, bool>, visiting: set<Id>, frames: Frames)
    requires Search(g, judged, visiting, frames) && Flatten(frames) != []
    ensures var stack, newest := Flatten(frames), frames[|frames| - 1];
            var key := stack[|stack| - 1];
            && (newest != [] ==> key == newest[|newest| - 1])
            && (key !in judged ==> (key in visiting <==> newest == []))
            && (newest == [] ==>
                  && |frames| > 1 && frames[|frames| - 2] != [] && key == PathNode(frames, |frames| - 2)
                  && key !in judged && key in visiting && key in g && forall c | c in g[key] :: c in judged)
  {
    var newest := frames[|frames| - 1];
    if newest == [] {
      assert Flatten(frames) == Flatten(frames[..|frames| - 1]);
      var shorter := frames[..|frames| - 1];
      assert shorter != [];
      assert Opened(g, judged, visiting, frames, |frames| - 2);
      assert shorter[|shorter| - 1] == frames[|frames| - 2];
    } else {
      var key := newest[|newest| - 1];
      forall k | 0 <= k < |frames| - 1 && frames[k] != [] ensures PathNode(frames, k) != key {
        assert Opened(g, judged, visiting, frames, k);
      }
      assert !OnPath(frames, key);
    }
  }

  lemma LastFrames(frames: Frames)
    ensures |frames| > 1 && frames[|frames| - 2] != [] ==> Flatten(frames) != []
  {
    if |frames| > 1 {
      var shorter := frames[..|frames| - 1];
      assert Flatten(shorter) == Flatten(shorter[..|shorter| - 1]) + frames[|frames| - 2];
    }
  }

  /** When the stack is empty no node is left open. */
  lemma EmptyStack(g: Graph, judged: map<Id, bool>, visiting: set<Id>, frames: Frames)
    requires Search(g, judged, visiting, frames) && Flatten(frames) == []
    ensures forall v | v in visiting :: v in judged
  {
    LastFrames(frames);
    assert |frames| > 1 ==> !Opened(g, judged, visiting, frames, |frames| - 2);
  }

  lemma PopJudged(g: Graph, judged: map<Id, bool>, visiting: set<Id>, frames: Frames) returns (rest: Frames)
    requires Search(g, judged, visiting, frames) && frames[|frames| - 1] != []
    requires var newest := frames[|frames| - 1]; newest[|newest| - 1] in judged
    ensures Search(g, judged, visiting, rest)
    ensures Flatten(rest) == var stack := Flatten(frames); stack[..|stack| - 1]
  {
    var last := |frames| - 1;
    var newest := frames[last];
    rest := frames[last := newest[..|newest| - 1]];
    assert rest[..last] == frames[..last];
    forall k | 0 <= k < last ensures Opened(g, judged, visiting, rest, k) {
      assert Opened(g, judged, visiting, frames, k);
      assert PathNode(rest, k) == PathNode(frames, k);
    }
    forall v | v in visiting && v !in judged ensures OnPath(rest, v) {
      var k :| 0 <= k < |frames| - 1 && frames[k] != [] && PathNode(frames, k) == v;
      assert PathNode(rest, k) == v;
    }
  }

  /** A verdict for a node off the path leaves the path as it is. */
  lemma JudgeOffPath(g: Graph, judged: map<Id, bool>, visiting: set<Id>, frames: Frames,
                     key: Id, verdict: bool)
    requires Search(g, judged, visiting, frames) && key !in judged && key !in visiting
    ensures Search(g, judged[key := verdict], visiting, frames)
    ensures Search(g, judged[key := verdict], visiting + {key}, frames)
  {
    var judged' := judged[key := verdict];
    forall k: nat | k < |frames| - 1 ensures Opened(g, judged', visiting, frames, k) {
      assert Opened(g, judged, visiting, frames, k);
    }
    forall k: nat | k < |frames| - 1 ensures Opened(g, judged', visiting + {key}, frames, k) {
      assert Opened(g, judged, visiting, frames, k);
    }
  }

  lemma JudgeEndOfPath(g: Graph, judged: map<Id, bool>, visiting: set<Id>, frames: Frames, verdict: bool)
    requires Search(g, judged, visiting, frames) && |frames| > 1
    requires frames[|frames| - 1] == [] && frames[|frames| - 2] != []
    ensures var shorter := frames[..|frames| - 1];
            && Search(g, judged[PathNode(frames, |frames| - 2) := verdict], visiting, shorter)
            && Flatten(shorter) == Flatten(frames)
  {
    var last := |frames| - 1;
    var shorter, key := frames[..last], PathNode(frames, last - 1);
    var judged' := judged[key := verdict];
    forall k: nat | k < last - 1 ensures Opened(g, judged', visiting, shorter, k) {
      assert Opened(g, judged, visiting, frames, k);
      assert PathNode(shorter, k) == PathNode(frames, k) != key;
    }
    forall v | v in visiting && v !in judged && v != key ensures OnPath(shorter, v) {
      var k :| 0 <= k < last && frames[k] != [] && PathNode(frames, k) == v;
      assert PathNode(shorter, k) == v;
    }
  }

  /** Expanding the top of the stack puts it on the path, and its unjudged children above it. */
  lemma Expand(g: Graph, judged: map<Id, bool>, visiting: set<Id>, frames: Frames, key: Id, waiting: seq<Id>)
    requires Search(g, judged, visiting, frames) && frames[|frames| - 1] != []
    requires key == PathNode(frames, |frames| - 1) && key !in judged && key in g
    requires forall c :: c in waiting <==> c in g[key] && c !in judged
    requires forall c | c in waiting :: c !in visiting && c != key
    ensures Search(g, judged, visiting + {key}, frames + [waiting])
    ensures Flatten(frames + [waiting]) == Flatten(frames) + waiting
  {
    var frames', visiting' := frames + [waiting], visiting + {key};
    assert frames'[..|frames|] == frames;
    forall k: nat | k < |frames| ensures Opened(g, judged, visiting', frames', k) {
      ExpandOpened(g, judged, visiting, frames, key, waiting, k);
    }
    forall v | v in visiting' && v !in judged ensures OnPath(frames', v) {
      if v == key {
        assert PathNode(frames', |frames| - 1) == key;
      } else {
        var k :| 0 <= k < |frames| - 1 && frames[k] != [] && PathNode(frames, k) == v;
        assert PathNode(frames', k) == v;
      }
    }
  }

  lemma ExpandOpened(g: Graph, judged: map<Id, bool>, visiting: set<Id>, frames: Frames,
                     key: Id, waiting: seq<Id>, k: nat)
    requires k < |frames| && frames[|frames| - 1] != []
    requires k < |frames| - 1 ==> Opened(g, judged, visiting, frames, k)
    requires key == PathNode(frames, |frames| - 1) && key !in judged && key in g
    requires forall c :: c in waiting <==> c in g[key] && c !in judged
    requires forall c | c in waiting :: c !in visiting && c != key
    ensures Opened(g, judged, visiting + {key}, frames + [waiting], k)
  {
    var frames' := frames + [waiting];
    assert frames'[k] == frames[k] && frames'[|frames|] == waiting;
    if k < |frames| - 1 {
      assert PathNode(frames', k) == PathNode(frames, k);
      assert frames'[k + 1] == frames[k + 1];
      forall j | k < j < |frames'| ensures PathNode(frames, k) !in frames'[j] {
        assert j < |frames| ==> frames'[j] == frames[j];
      }
    }
  }

  /** The path from its node `a` down to the newest frame's last node. */
  lemma PathWalk(g: Graph, judged: map<Id, bool>, visiting: set<Id>, frames: Frames, a: nat) returns (walk: seq<Id>)
    requires Search(g, judged, visiting, frames) && frames[|frames| - 1] != []
    requires a < |frames| - 1
    ensures |walk| == |frames| - a && frames[a] != [] && walk[0] == PathNode(frames, a)
    ensures walk[|walk| - 1] == PathNode(frames, |frames| - 1)
    ensures Walk(g, walk)
    decreases |frames| - a
  {
    assert Opened(g, judged, visiting, frames, a);
    if a == |frames| - 2 {
      walk := [PathNode(frames, a), PathNode(frames, a + 1)];
    } else {
      walk := PathWalk(g, judged, visiting, frames, a + 1);
      walk := [PathNode(frames, a)] + walk;
    }
  }

  /** A waiting child that was expanded is on the path, so the top closes an import cycle. */
  lemma CycleFound(nodes: map<Id, Node>, judged: map<Id, bool>, visiting: set<Id>, frames: Frames, key: Id, c: Id)
    requires Search(Descent(nodes), judged, visiting, frames) && frames[|frames| - 1] != []
    requires key == PathNode(frames, |frames| - 1) && key in Descent(nodes)
    requires c in Descent(nodes)[key] && c !in judged && (c in visiting || c == key)
    ensures !Stands(nodes, key)
  {
    if c == key {
      CycleNeverStands(nodes, [key, key]);
    } else {
      assert OnPath(frames, c);
      var a :| 0 <= a < |frames| - 1 && frames[a] != [] && PathNode(frames, a) == c;
      var walk := PathWalk(Descent(nodes), judged, visiting, frames, a);
      CycleNeverStands(nodes, [key] + walk);
    }
  }

  /** Judges whole graphs of nodes: each node is judged once, whatever is asked first. */
  class Judge {
    const nodes: map<Id, Node>
    var judged: map<Id, bool>
    var visiting: set<Id>

    /** Between calls every verdict held is right and no search is open. */
    ghost predicate Valid()
      reads this
    {
      Sound(nodes, judged) && visiting <= judged.Keys
    }

    constructor (nodes: map<Id, Node>)
      ensures Valid() && this.nodes == nodes && judged == map[]
    {
      this.nodes := nodes;
      judged := map[];
      visiting := {};
    }

    /** The children of a node's source, gathered entry by entry. */
    method ReadChildren(node: Node) returns (children: Option<seq<Id>>)
      ensures children == Children(nodes, node)
      ensures node.source.None? ==> children == Some([])
      ensures node.source.Some? && children.Some? ==>
                var entries := if node.source.value.closure.Some? then node.source.value.closure.value else node.source.value.imports;
                && |children.value| == |entries|
                && forall i | 0 <= i < |entries| ::
                     && children.value[i] == entries[i].node && entries[i].node in nodes
                     && entries[i].sha == if nodes[entries[i].node].source.Some? then Some(nodes[entries[i].node].source.value.sha) else None
    {
      var entries := Entries(node);
      var found: seq<Id> := [];
      for i := 0 to |entries|
        invariant |found| == i
        invariant forall j | 0 <= j < i :: Holds(nodes, entries[j]) && found[j] == entries[j].node
      {
        if !Holds(nodes, entries[i]) {
          return None;
        }
        found := found + [entries[i].node];
      }
      assert found == seq(|entries|, i requires 0 <= i < |entries| => entries[i].node);
      children := Some(found);
    }

    method SourceStands(root: Id) returns (stands: bool)
      requires Valid() && root in nodes
      modifies this
      ensures Valid() && stands == Stands(nodes, root)
      ensures root in judged && forall k | k in old(judged) :: k in judged && judged[k] == old(judged)[k]
    {
      var stack := [root];
      ghost var frames: Frames := [[root]];
      while stack != []
        invariant Sound(nodes, judged) && visiting <= nodes.Keys
        invariant Search(Descent(nodes), judged, visiting, frames) && Flatten(frames) == stack
        invariant forall x | x in stack :: x in nodes
        invariant root in judged || (stack != [] && stack[0] == root)
        invariant forall k | k in old(judged) :: k in judged && judged[k] == old(judged)[k]
        decreases nodes.Keys - judged.Keys, nodes.Keys - visiting, |stack|
      {
        stack, frames := Step(stack, frames);
      }
      EmptyStack(Descent(nodes), judged, visiting, frames);
      stands := judged[root];
    }

    /** One turn of the search: pop a judged top, judge it, or go down to its waiting children. */
    method Step(stack: seq<Id>, ghost frames: Frames) returns (stack': seq<Id>, ghost frames': Frames)
      requires Sound(nodes, judged) && visiting <= nodes.Keys
      requires Search(Descent(nodes), judged, visiting, frames) && Flatten(frames) == stack != []
      requires forall x | x in stack :: x in nodes
      modifies this
      ensures Sound(nodes, judged) && visiting <= nodes.Keys
      ensures Search(Descent(nodes), judged, visiting, frames') && Flatten(frames') == stack'
      ensures forall x | x in stack' :: x in nodes
      ensures var top := stack[|stack| - 1];
              || (judged == old(judged) && visiting == old(visiting) && top in judged && stack' == stack[..|stack| - 1])
              || (judged == old(judged) && stack <= stack' && nodes.Keys - visiting < nodes.Keys - old(visiting))
              || (top in nodes && judged == old(judged)[top := Stands(nodes, top)] && stack' == stack
                  && nodes.Keys - judged.Keys < nodes.Keys - old(judged).Keys)
    {
      var key := stack[|stack| - 1];
      TopOfStack(Descent(nodes), judged, visiting, frames);
      stack', frames' := stack, frames;
      if key in judged {
        frames' := PopJudged(Descent(nodes), judged, visiting, frames);
        stack' := stack[..|stack| - 1];
        return;
      }
      var children := ReadChildren(nodes[key]);
      if children.None? || Recorded(nodes[key]) {
        StandsUnfolds(nodes, key);
        JudgeOffPath(Descent(nodes), judged, visiting, frames, key, children.Some?);
        Record(key, children.Some?);
        return;
      }
      var waiting := Waiting(children.value, judged);
      if waiting != [] && key !in visiting {
        ghost var pushed;
        stack', pushed := Descend(stack, key, waiting, frames);
        frames' := if pushed then frames + [waiting] else frames;
      } else {
        frames' := Conclude(key, children.value, frames);
      }
    }

    /** Every child is judged: the top stands when they all do. */
    method Conclude(key: Id, children: seq<Id>, ghost frames: Frames) returns (ghost frames': Frames)
      requires Sound(nodes, judged) && Search(Descent(nodes), judged, visiting, frames)
      requires key in Descent(nodes) && children == Descent(nodes)[key] && key !in judged
      requires forall c | c in children :: c in judged
      requires key in visiting ==> |frames| > 1 && frames[|frames| - 1] == []
                                   && frames[|frames| - 2] != [] && key == PathNode(frames, |frames| - 2)
      modifies this`judged
      ensures Sound(nodes, judged) && Search(Descent(nodes), judged, visiting, frames')
      ensures Flatten(frames') == Flatten(frames)
      ensures judged == old(judged)[key := Stands(nodes, key)]
      ensures nodes.Keys - judged.Keys < nodes.Keys - old(judged).Keys
    {
      StandsUnfolds(nodes, key);
      var verdict := forall c | c in children :: judged[c];
      if key in visiting {
        JudgeEndOfPath(Descent(nodes), judged, visiting, frames, verdict);
        frames' := frames[..|frames| - 1];
      } else {
        JudgeOffPath(Descent(nodes), judged, visiting, frames, key, verdict);
        frames' := frames;
      }
      Record(key, verdict);
    }

    /** Expand the top: a waiting child already expanded closes a cycle, else push them all. */
    method Descend(stack: seq<Id>, key: Id, waiting: seq<Id>, ghost frames: Frames)
      returns (stack': seq<Id>, ghost pushed: bool)
      requires Sound(nodes, judged) && visiting <= nodes.Keys
      requires Search(Descent(nodes), judged, visiting, frames) && Flatten(frames) == stack
      requires frames[|frames| - 1] != [] && key == PathNode(frames, |frames| - 1)
      requires key !in judged && key !in visiting && key in Descent(nodes) && waiting != []
      requires forall c :: c in waiting <==> c in Descent(nodes)[key] && c !in judged
      modifies this
      ensures Sound(nodes, judged) && visiting == old(visiting) + {key}
      ensures var frames' := if pushed then frames + [waiting] else frames;
              Search(Descent(nodes), judged, visiting, frames') && Flatten(frames') == stack'
      ensures pushed ==> judged == old(judged) && stack' == stack + waiting
      ensures !pushed ==> judged == old(judged)[key := Stands(nodes, key)] && stack' == stack
      ensures nodes.Keys - visiting < nodes.Keys - old(visiting)
      ensures !pushed ==> nodes.Keys - judged.Keys < nodes.Keys - old(judged).Keys
    {
      assert key in nodes.Keys - visiting;
      visiting := visiting + {key};
      if exists c | c in waiting :: c in visiting {
        ghost var c :| c in waiting && c in visiting;
        CycleFound(nodes, judged, old(visiting), frames, key, c);
        JudgeOffPath(Descent(nodes), judged, old(visiting), frames, key, false);
        Record(key, false);
        stack', pushed := stack, false;
      } else {
        Expand(Descent(nodes), judged, old(visiting), frames, key, waiting);
        stack', pushed := stack + waiting, true;
      }
    }

    method Record(key: Id, verdict: bool)
      requires Sound(nodes, judged) && key in nodes && key !in judged && verdict == Stands(nodes, key)
      modifies this`judged
      ensures judged == old(judged)[key := verdict] && Sound(nodes, judged)
      ensures nodes.Keys - judged.Keys < nodes.Keys - old(judged).Keys
    {
      assert key in nodes.Keys - judged.Keys;
      judged := judged[key := verdict];
    }
  }
}
