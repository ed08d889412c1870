/** The one walker over depends_on edges: breadth-first, bounded. */
module Traversal {
  import opened Basics
  import opened Graphs

  ghost predicate ReachesIn(g: Graph, a: Vertex, b: Vertex, n: nat) {
    exists w :: WalkFrom(g, w, a, b) && |w| == n + 1
  }

  ghost function AsGraph(children: map<Vertex, seq<Vertex>>): Graph {
    imap n | n in children :: children[n]
  }

  /** `a` is no farther from `start` than `b`: any walk to `b` is matched by one to `a` no longer. */
  ghost predicate NoFarther(g: Graph, start: Vertex, a: Vertex, b: Vertex) {
    forall n: nat | ReachesIn(g, start, b, n) :: exists m: nat :: m <= n && ReachesIn(g, start, a, m)
  }

  lemma OneStepOn(g: Graph, a: Vertex, b: Vertex, c: Vertex, n: nat)
    requires ReachesIn(g, a, b, n) && Edge(g, b, c)
    ensures ReachesIn(g, a, c, n + 1)
  {
    var w :| WalkFrom(g, w, a, b) && |w| == n + 1;
    assert WalkFrom(g, w + [c], a, c);
  }

  lemma OneStepBack(g: Graph, a: Vertex, c: Vertex, n: nat) returns (b: Vertex)
    requires n > 0 && ReachesIn(g, a, c, n)
    ensures ReachesIn(g, a, b, n - 1) && Edge(g, b, c)
  {
    var w :| WalkFrom(g, w, a, c) && |w| == n + 1;
    b := w[n - 1];
    assert WalkFrom(g, w[..n], a, b);
    assert Edge(g, w[n - 1], w[n]);
  }

  /** A breadth-first search in progress: `order` lists what was seen, `depth` the length of the
      walk each was found by; the first `done` had all their targets seen. */
  ghost predicate Progress(g: Graph, start: Vertex, order: seq<Vertex>, depth: seq<nat>, done: nat) {
    && |depth| == |order| > 0 && order[0] == start && depth[0] == 0 && done <= |order|
    && Distinct(order)
    && (forall i, j | 0 <= i < j < |depth| :: depth[i] <= depth[j])
    && (done < |order| ==> depth[|order| - 1] <= depth[done] + 1)
    && (forall i | 0 <= i < |order| :: ReachesIn(g, start, order[i], depth[i]))
    && (forall i, c | 0 <= i < done && Edge(g, order[i], c) :: Seen(order, depth, c, depth[i] + 1))
  }

  ghost predicate Seen(order: seq<Vertex>, depth: seq<nat>, c: Vertex, most: nat)
    requires |depth| == |order|
  {
    exists j :: 0 <= j < |order| && order[j] == c && depth[j] <= most
  }

  /** Whatever is nearer than the node being searched was found, no farther than it is. */
  lemma {:induction false} NearerFound(g: Graph, start: Vertex, order: seq<Vertex>, depth: seq<nat>, done: nat,
                                       x: Vertex, n: nat)
    requires Progress(g, start, order, depth, done) && ReachesIn(g, start, x, n)
    requires done < |order| ==> n <= depth[done]
    ensures Seen(order, depth, x, n)
    decreases n
  {
    if n == 0 {
      var w :| WalkFrom(g, w, start, x) && |w| == 1;
      assert order[0] == x;
    } else {
      var b := OneStepBack(g, start, x, n);
      NearerFound(g, start, order, depth, done, b, n - 1);
      var j :| 0 <= j < |order| && order[j] == b && depth[j] <= n - 1;
      assert j < done;
      assert Seen(order, depth, x, depth[j] + 1);
    }
  }

  lemma OrderIsNearestFirst(g: Graph, start: Vertex, order: seq<Vertex>, depth: seq<nat>, done: nat, i: nat, j: nat)
    requires Progress(g, start, order, depth, done) && i < j < |order|
    ensures NoFarther(g, start, order[i], order[j])
  {
    forall n: nat | ReachesIn(g, start, order[j], n) ensures depth[j] <= n {
      if n < depth[j] {
        NearerFound(g, start, order, depth, done, order[j], n);
      }
    }
  }

  lemma {:induction false} ExhaustedFindsAll(g: Graph, start: Vertex, order: seq<Vertex>, depth: seq<nat>, x: Vertex)
    requires Progress(g, start, order, depth, |order|) && Reaches(g, start, x)
    ensures x in order
  {
    var w :| WalkFrom(g, w, start, x);
    assert ReachesIn(g, start, x, |w| - 1);
    NearerFound(g, start, order, depth, |order|, x, |w| - 1);
  }

  /** Everything reachable from `start`, `start` aside, nearest first and at most `limit` of it;
      `truncated` when more was left. */
  ghost predicate IsClosure(g: Graph, start: Vertex, limit: nat, reached: seq<Vertex>, truncated: bool) {
    && Distinct(reached) && start !in reached && |reached| <= limit
    && (forall x | x in reached :: Reaches(g, start, x))
    && NearestFirst(g, start, reached)
    && (!truncated ==> forall x | Reaches(g, start, x) && x != start :: x in reached)
    && (truncated ==> |reached| == limit && exists x :: x != start && x !in reached && Reaches(g, start, x))
  }

  ghost predicate NearestFirst(g: Graph, start: Vertex, reached: seq<Vertex>) {
    forall i, j | 0 <= i < j < |reached| :: NoFarther(g, start, reached[i], reached[j])
  }

  lemma ReachedAll(g: Graph, start: Vertex, reached: seq<Vertex>, depth: seq<nat>, done: nat)
    requires Progress(g, start, [start] + reached, depth, done)
    ensures Distinct(reached) && start !in reached
    ensures forall x | x in reached :: Reaches(g, start, x)
  {
    var order := [start] + reached;
    assert forall i | 0 <= i < |reached| :: reached[i] == order[i + 1];
    forall x | x in reached ensures Reaches(g, start, x) && x != start {
      var i :| 0 <= i < |reached| && reached[i] == x;
      assert ReachesIn(g, start, order[i + 1], depth[i + 1]);
    }
  }

  lemma ReachedInOrder(g: Graph, start: Vertex, reached: seq<Vertex>, depth: seq<nat>, done: nat)
    requires Progress(g, start, [start] + reached, depth, done)
    ensures NearestFirst(g, start, reached)
  {
    var order := [start] + reached;
    forall i, j | 0 <= i < j < |reached| ensures NoFarther(g, start, reached[i], reached[j]) {
      assert reached[i] == order[i + 1] && reached[j] == order[j + 1];
      OrderIsNearestFirst(g, start, order, depth, done, i + 1, j + 1);
    }
  }

  lemma Exhausted(g: Graph, start: Vertex, limit: nat, reached: seq<Vertex>, depth: seq<nat>)
    requires Progress(g, start, [start] + reached, depth, |reached| + 1) && |reached| <= limit
    ensures IsClosure(g, start, limit, reached, false)
  {
    ReachedAll(g, start, reached, depth, |reached| + 1);
    ReachedInOrder(g, start, reached, depth, |reached| + 1);
    forall x | Reaches(g, start, x) && x != start ensures x in reached {
      ExhaustedFindsAll(g, start, [start] + reached, depth, x);
    }
  }

  lemma Truncated(g: Graph, start: Vertex, reached: seq<Vertex>, depth: seq<nat>, done: nat, x: Vertex)
    requires Progress(g, start, [start] + reached, depth, done)
    requires x != start && x !in reached && Reaches(g, start, x)
    ensures IsClosure(g, start, |reached|, reached, true)
  {
    ReachedAll(g, start, reached, depth, done);
    ReachedInOrder(g, start, reached, depth, done);
  }

  lemma Found(g: Graph, start: Vertex, order: seq<Vertex>, depth: seq<nat>, done: nat, c: Vertex)
    requires Progress(g, start, order, depth, done) && done < |order|
    requires Edge(g, order[done], c) && c !in order
    ensures Progress(g, start, order + [c], depth + [depth[done] + 1], done)
  {
    var order', depth' := order + [c], depth + [depth[done] + 1];
    OneStepOn(g, start, order[done], c, depth[done]);
    forall i, b | 0 <= i < done && Edge(g, order'[i], b) ensures Seen(order', depth', b, depth'[i] + 1) {
      assert Seen(order, depth, b, depth[i] + 1);
      var j :| 0 <= j < |order| && order[j] == b && depth[j] <= depth[i] + 1;
      assert order'[j] == b;
    }
  }

  lemma TurnDone(g: Graph, start: Vertex, order: seq<Vertex>, depth: seq<nat>, done: nat)
    requires Progress(g, start, order, depth, done) && done < |order|
    requires forall c | Edge(g, order[done], c) :: Seen(order, depth, c, depth[done] + 1)
    ensures Progress(g, start, order, depth, done + 1)
  {
  }

  method DependsClosure(children: map<Vertex, seq<Vertex>>, start: Vertex, limit: nat)
    returns (reached: seq<Vertex>, truncated: bool)
    ensures IsClosure(AsGraph(children), start, limit, reached, truncated)
  {
    ghost var g, depth, done: nat := AsGraph(children), [0], 0;
    var queue := [start];
    reached, truncated := [], false;
    assert WalkFrom(g, [start], start, start);
    while queue != []
      invariant Progress(g, start, [start] + reached, depth, done)
      invariant queue == ([start] + reached)[done..] && |reached| <= limit
      decreases limit - |reached|, |queue|
    {
      var source := queue[0];
      var targets := if source in children then children[source] else [];
      var before := |reached|;
      reached, truncated, depth := VisitTargets(g, start, targets, limit, reached, depth, done);
      if truncated {
        ghost var x :| x != start && x !in reached && Reaches(g, start, x);
        Truncated(g, start, reached, depth, done, x);
        return;
      }
      TurnDone(g, start, [start] + reached, depth, done);
      done := done + 1;
      queue := queue[1..] + reached[before..];
    }
    Exhausted(g, start, limit, reached, depth);
  }

  /** One node's targets: the new ones are reached, in order, until the bound is hit. */
  method VisitTargets(ghost g: Graph, start: Vertex, targets: seq<Vertex>, limit: nat,
                      known: seq<Vertex>, ghost depth: seq<nat>, ghost done: nat)
    returns (reached: seq<Vertex>, truncated: bool, ghost depth': seq<nat>)
    requires Progress(g, start, [start] + known, depth, done) && done < |known| + 1 && |known| <= limit
    requires forall c :: c in targets <==> Edge(g, ([start] + known)[done], c)
    ensures Progress(g, start, [start] + reached, depth', done) && known <= reached && |reached| <= limit
    ensures ([start] + reached)[done] == ([start] + known)[done]
    ensures !truncated ==> forall c | c in targets :: Seen([start] + reached, depth', c, depth'[done] + 1)
    ensures truncated ==> |reached| == limit
                          && exists x :: x != start && x !in reached && Reaches(g, start, x)
  {
    ghost var order := [start] + known;
    reached, truncated, depth' := known, false, depth;
    for t := 0 to |targets|
      invariant order == [start] + reached && Progress(g, start, order, depth', done) && done < |order|
      invariant order[done] == ([start] + known)[done] && known <= reached && |reached| <= limit
      invariant forall u | 0 <= u < t :: Seen(order, depth', targets[u], depth'[done] + 1)
    {
      var target := targets[t];
      assert Edge(g, order[done], target);
      if target == start || target in reached {
        AlreadySeen(g, start, order, depth', done, target);
        continue;
      }
      if |reached| >= limit {
        ReachedAtDepth(g, start, order, depth', done);
        EdgeReaches(g, order[done], target);
        ReachesTrans(g, start, order[done], target);
        return reached, true, depth';
      }
      Found(g, start, order, depth', done, target);
      StillSeen(order, depth', target, depth'[done] + 1, targets[..t]);
      order, depth', reached := order + [target], depth' + [depth'[done] + 1], reached + [target];
      AlreadySeen(g, start, order, depth', done, target);
      assert forall u | 0 <= u < t :: targets[..t][u] == targets[u];
    }
  }

  lemma AlreadySeen(g: Graph, start: Vertex, order: seq<Vertex>, depth: seq<nat>, done: nat, c: Vertex)
    requires Progress(g, start, order, depth, done) && done < |order| && c in order
    ensures Seen(order, depth, c, depth[done] + 1)
  {
    var j :| 0 <= j < |order| && order[j] == c;
    assert depth[j] <= depth[|order| - 1];
  }

  lemma ReachedAtDepth(g: Graph, start: Vertex, order: seq<Vertex>, depth: seq<nat>, done: nat)
    requires Progress(g, start, order, depth, done) && done < |order|
    ensures Reaches(g, start, order[done])
  {
    assert ReachesIn(g, start, order[done], depth[done]);
  }

  lemma StillSeen(order: seq<Vertex>, depth: seq<nat>, c: Vertex, d: nat, targets: seq<Vertex>)
    requires |depth| == |order|
    requires forall u | 0 <= u < |targets| :: Seen(order, depth, targets[u], d)
    ensures forall u | 0 <= u < |targets| :: Seen(order + [c], depth + [d], targets[u], d)
  {
    forall u | 0 <= u < |targets| ensures Seen(order + [c], depth + [d], targets[u], d) {
      var j :| 0 <= j < |order| && order[j] == targets[u] && depth[j] <= d;
      assert (order + [c])[j] == targets[u];
    }
  }
}
