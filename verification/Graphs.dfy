/** Dependency graphs: walks, cycles, and orders in which every dependency comes first. */
module Graphs {

  type Name = string

  /** The dependencies of every known package. */
  type Graph = map<Name, seq<Name>>

  ghost predicate Edge(g: Graph, a: Name, b: Name) {
    a in g && b in g[a]
  }

  /** A walk along dependencies; its last name need not be known. */
  ghost predicate IsWalk(g: Graph, p: seq<Name>) {
    p != [] && forall i :: 0 <= i < |p| - 1 ==> Edge(g, p[i], p[i + 1])
  }

  ghost predicate WalkFrom(g: Graph, p: seq<Name>, a: Name, b: Name) {
    IsWalk(g, p) && p[0] == a && p[|p| - 1] == b
  }

  ghost predicate Reaches(g: Graph, a: Name, b: Name) {
    exists p :: WalkFrom(g, p, a, b)
  }

  ghost predicate IsCycle(g: Graph, c: seq<Name>) {
    IsWalk(g, c) && |c| >= 2 && c[0] == c[|c| - 1]
  }

  ghost predicate OnCycle(g: Graph, a: Name) {
    exists c :: IsCycle(g, c) && c[0] == a
  }

  ghost predicate Closed(g: Graph) {
    forall a, b :: Edge(g, a, b) ==> b in g
  }

  ghost predicate Acyclic(g: Graph) {
    forall c :: !IsCycle(g, c)
  }

  ghost predicate NoDuplicates(s: seq<Name>) {
    forall i, j :: 0 <= i < j < |s| ==> s[i] != s[j]
  }

  /** Known names without repetition, each after all its dependencies. */
  ghost predicate DependencyFirst(g: Graph, order: seq<Name>) {
    NoDuplicates(order) && forall i :: 0 <= i < |order| ==> Supported(g, order, i)
  }

  ghost predicate Supported(g: Graph, order: seq<Name>, i: nat)
    requires i < |order|
  {
    order[i] in g && forall d :: d in g[order[i]] ==> d in order[..i]
  }

  ghost function Elements(s: seq<Name>): set<Name> {
    set n | n in s
  }

  // ---- reachability ----

  lemma ReachesSelf(g: Graph, a: Name)
    ensures Reaches(g, a, a)
  {
    assert WalkFrom(g, [a], a, a);
  }

  lemma EdgeReaches(g: Graph, a: Name, b: Name, c: Name)
    requires Edge(g, a, b) && Reaches(g, b, c)
    ensures Reaches(g, a, c)
  {
    var p :| WalkFrom(g, p, b, c);
    var q := [a] + p;
    forall i | 0 <= i < |q| - 1
      ensures Edge(g, q[i], q[i + 1])
    {
      if i > 0 {
        assert Edge(g, p[i - 1], p[i]);
      }
    }
    assert WalkFrom(g, q, a, c);
  }

  lemma ReachesEdge(g: Graph, a: Name, b: Name, c: Name)
    requires Reaches(g, a, b) && Edge(g, b, c)
    ensures Reaches(g, a, c)
  {
    var p :| WalkFrom(g, p, a, b);
    var q := p + [c];
    forall i | 0 <= i < |q| - 1
      ensures Edge(g, q[i], q[i + 1])
    {
      if i < |p| - 1 {
        assert Edge(g, p[i], p[i + 1]);
      }
    }
    assert WalkFrom(g, q, a, c);
  }

  lemma {:induction false} ReachesTransitive(g: Graph, p: seq<Name>, a: Name, b: Name, c: Name)
    requires WalkFrom(g, p, a, b) && Reaches(g, b, c)
    ensures Reaches(g, a, c)
    decreases |p|
  {
    if |p| > 1 {
      assert Edge(g, p[0], p[1]);
      WalkTail(g, p);
      ReachesTransitive(g, p[1..], p[1], b, c);
      EdgeReaches(g, a, p[1], c);
    }
  }

  lemma WalkTail(g: Graph, p: seq<Name>)
    requires IsWalk(g, p) && |p| > 1
    ensures IsWalk(g, p[1..]) && p[1..][|p| - 2] == p[|p| - 1]
  {
    var q := p[1..];
    forall i | 0 <= i < |q| - 1
      ensures Edge(g, q[i], q[i + 1])
    {
      assert Edge(g, p[i + 1], p[i + 2]);
    }
  }

  // ---- what a dependency-first order says about the graph ----

  /** A walk that starts in a dependency-first order goes strictly backwards in it. */
  lemma {:induction false} WalkGoesBack(g: Graph, order: seq<Name>, i: nat, p: seq<Name>)
    requires DependencyFirst(g, order) && i < |order|
    requires IsWalk(g, p) && p[0] == order[i]
    ensures exists j :: 0 <= j <= i && order[j] == p[|p| - 1] && (|p| > 1 ==> j < i)
    decreases |p|
  {
    if |p| == 1 {
      assert order[i] == p[0];
    } else {
      assert Edge(g, p[0], p[1]) && Supported(g, order, i);
      var k :| 0 <= k < i && order[..i][k] == p[1];
      WalkTail(g, p);
      WalkGoesBack(g, order, k, p[1..]);
    }
  }

  /** Everything reachable from the order is in it, known, and on no cycle. */
  lemma OrderComplete(g: Graph, order: seq<Name>, a: Name, b: Name)
    requires DependencyFirst(g, order) && a in order && Reaches(g, a, b)
    ensures b in order && b in g && !OnCycle(g, b)
  {
    var p :| WalkFrom(g, p, a, b);
    var i :| 0 <= i < |order| && order[i] == a;
    WalkGoesBack(g, order, i, p);
    var j :| 0 <= j <= i && order[j] == b;
    assert Supported(g, order, j);
    if OnCycle(g, b) {
      var c :| IsCycle(g, c) && c[0] == b;
      WalkGoesBack(g, order, j, c);
      assert false;
    }
  }

  /** A cycle can be entered anywhere, so a graph none of whose names starts one has none. */
  lemma AcyclicIff(g: Graph)
    ensures Acyclic(g) <==> forall a :: a in g ==> !OnCycle(g, a)
  {
    if !Acyclic(g) {
      var c :| IsCycle(g, c);
      assert Edge(g, c[0], c[1]);
      assert c[0] in g && OnCycle(g, c[0]);
    }
  }

  lemma ClosedReaches(g: Graph, p: seq<Name>, a: Name, b: Name)
    requires Closed(g) && a in g && WalkFrom(g, p, a, b)
    ensures b in g
  {
    if |p| > 1 {
      assert Edge(g, p[|p| - 2], p[|p| - 1]);
    }
  }
}
