/** Directed graphs as successor lists. The domain may be infinite: a resolver can describe a
    graph no search ever exhausts. */
module Graphs {
  type Vertex = nat
  type Graph = imap<Vertex, seq<Vertex>>

  predicate Edge(g: Graph, a: Vertex, b: Vertex) {
    a in g && b in g[a]
  }

  ghost predicate Walk(g: Graph, w: seq<Vertex>) {
    forall i | 0 <= i < |w| - 1 :: Edge(g, w[i], w[i + 1])
  }

  ghost predicate WalkFrom(g: Graph, w: seq<Vertex>, a: Vertex, b: Vertex) {
    |w| > 0 && w[0] == a && w[|w| - 1] == b && Walk(g, w)
  }

  /** Reachable along zero or more edges. */
  ghost predicate Reaches(g: Graph, a: Vertex, b: Vertex) {
    exists w :: WalkFrom(g, w, a, b)
  }

  /** No edge leads back to its source. */
  ghost predicate Acyclic(g: Graph) {
    forall a, b | Edge(g, a, b) :: !Reaches(g, b, a)
  }

  lemma ReachesSelf(g: Graph, a: Vertex)
    ensures Reaches(g, a, a)
  {
    assert WalkFrom(g, [a], a, a);
  }

  lemma ReachesTrans(g: Graph, a: Vertex, b: Vertex, c: Vertex)
    requires Reaches(g, a, b) && Reaches(g, b, c)
    ensures Reaches(g, a, c)
  {
    var u :| WalkFrom(g, u, a, b);
    var v :| WalkFrom(g, v, b, c);
    var w := u + v[1..];
    forall i | 0 <= i < |w| - 1 ensures Edge(g, w[i], w[i + 1]) {
      if i >= |u| - 1 {
        assert w[i] == v[i - (|u| - 1)] && w[i + 1] == v[i + 1 - (|u| - 1)];
      }
    }
    assert WalkFrom(g, w, a, c);
  }

  lemma EdgeReaches(g: Graph, a: Vertex, b: Vertex)
    requires Edge(g, a, b)
    ensures Reaches(g, a, b)
  {
    assert WalkFrom(g, [a, b], a, b);
  }

  lemma WalkReaches(g: Graph, w: seq<Vertex>, i: nat, j: nat)
    requires Walk(g, w) && i <= j < |w|
    ensures Reaches(g, w[i], w[j])
  {
    assert WalkFrom(g, w[i..j + 1], w[i], w[j]);
  }

  /** The first step of a proper walk. */
  lemma FirstStep(g: Graph, a: Vertex, b: Vertex) returns (c: Vertex)
    requires Reaches(g, a, b) && a != b
    ensures Edge(g, a, c) && Reaches(g, c, b)
  {
    var w :| WalkFrom(g, w, a, b);
    c := w[1];
    WalkReaches(g, w, 1, |w| - 1);
  }

  /** A set closed under the edges holds everything its members reach. */
  lemma {:induction false} ClosedSetHolds(g: Graph, s: iset<Vertex>, w: seq<Vertex>)
    requires Walk(g, w) && |w| > 0 && w[0] in s
    requires forall a, b | a in s && Edge(g, a, b) :: b in s
    ensures forall i | 0 <= i < |w| :: w[i] in s
  {
    if |w| > 1 {
      var shorter := w[..|w| - 1];
      ClosedSetHolds(g, s, shorter);
      assert shorter[|w| - 2] in s && Edge(g, w[|w| - 2], w[|w| - 1]);
    }
  }

  lemma ReachesStays(g: Graph, s: iset<Vertex>, a: Vertex, b: Vertex)
    requires a in s && Reaches(g, a, b)
    requires forall x, y | x in s && Edge(g, x, y) :: y in s
    ensures b in s
  {
    var w :| WalkFrom(g, w, a, b);
    ClosedSetHolds(g, s, w);
  }

  /** Changing one node's edges leaves the walks up to its first visit as they were. */
  lemma {:induction false} WalkToReplaced(g: Graph, n: Vertex, out: seq<Vertex>, w: seq<Vertex>)
    requires |w| > 0 && Walk(g[n := out], w) && w[|w| - 1] == n
    ensures Reaches(g, w[0], n)
  {
    if w[0] == n {
      ReachesSelf(g, n);
    } else {
      assert Edge(g[n := out], w[0], w[1]);
      WalkToReplaced(g, n, out, w[1..]);
      EdgeReaches(g, w[0], w[1]);
      ReachesTrans(g, w[0], w[1], n);
    }
  }

  /** In the changed graph, a walk closed by one edge and visiting the changed node gives one of
      its new successors that reached it before. */
  lemma ThroughReplaced(g: Graph, n: Vertex, out: seq<Vertex>, w: seq<Vertex>, i: nat) returns (x: Vertex)
    requires |w| > 0 && Walk(g[n := out], w) && Edge(g[n := out], w[|w| - 1], w[0])
    requires i < |w| && w[i] == n
    ensures x in out && Reaches(g, x, n)
  {
    var g' := g[n := out];
    if i == |w| - 1 {
      x := w[0];
      WalkReaches(g', w, 0, i);
    } else {
      x := w[i + 1];
      assert Edge(g', n, x);
      WalkReaches(g', w, i + 1, |w| - 1);
      EdgeReaches(g', w[|w| - 1], w[0]);
      ReachesTrans(g', x, w[|w| - 1], w[0]);
      WalkReaches(g', w, 0, i);
      ReachesTrans(g', x, w[0], n);
    }
    var v :| WalkFrom(g', v, x, n);
    WalkToReplaced(g, n, out, v);
  }

  /** Replacing one node's edges by edges to nodes that do not reach it closes no cycle. */
  lemma ReplaceKeepsAcyclic(g: Graph, n: Vertex, out: seq<Vertex>)
    requires Acyclic(g) && forall x | x in out :: !Reaches(g, x, n)
    ensures Acyclic(g[n := out])
  {
    var g' := g[n := out];
    forall a, b, w | Edge(g', a, b) && WalkFrom(g', w, b, a) ensures false {
      if n in w {
        var i :| 0 <= i < |w| && w[i] == n;
        var x := ThroughReplaced(g, n, out, w, i);
      } else {
        assert w[|w| - 1] == a && Edge(g, a, b);
        forall i | 0 <= i < |w| - 1 ensures Edge(g, w[i], w[i + 1]) {
          assert Edge(g', w[i], w[i + 1]);
        }
        assert WalkFrom(g, w, b, a);
        assert Reaches(g, b, a);
      }
    }
  }

  /** ... and replacing them by anything else closes one. */
  lemma ReplaceAcyclicExactly(g: Graph, n: Vertex, out: seq<Vertex>)
    requires Acyclic(g) && n in g
    ensures Acyclic(g[n := out]) <==> forall x | x in out :: !Reaches(g, x, n)
  {
    var g' := g[n := out];
    if x :| x in out && Reaches(g, x, n) {
      assert g'[n := g[n]] == g;
      var w :| WalkFrom(g, w, x, n);
      WalkToReplaced(g', n, g[n], w);
      assert Edge(g', n, x);
    } else {
      ReplaceKeepsAcyclic(g, n, out);
    }
  }

  /** Adding one edge whose target does not reach its source closes no cycle. */
  lemma AddEdgeKeepsAcyclic(g: Graph, n: Vertex, out: seq<Vertex>, t: Vertex)
    requires Acyclic(g) && !Reaches(g, t, n)
    requires forall x | x in out :: x == t || Edge(g, n, x)
    ensures Acyclic(g[n := out])
  {
    ReplaceKeepsAcyclic(g, n, out);
  }

  /** What a graph reaches, one with all its edges reaches too. */
  lemma SubgraphReaches(g: Graph, h: Graph, a: Vertex, b: Vertex)
    requires Reaches(g, a, b) && forall x, y | Edge(g, x, y) :: Edge(h, x, y)
    ensures Reaches(h, a, b)
  {
    var w :| WalkFrom(g, w, a, b);
    forall i | 0 <= i < |w| - 1 ensures Edge(h, w[i], w[i + 1]) {
      assert Edge(g, w[i], w[i + 1]);
    }
    assert WalkFrom(h, w, a, b);
  }
}
