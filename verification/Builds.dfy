/** Selecting packages with everything they need, and building a selection in order. */
module Builds {
  import opened Graphs
  import opened Planners
  import opened Dependencies

  // ---- collect_dependencies ----

  class Collector {
    const packages: Graph
    var visited: set<Name>
    var result: seq<Name>

    constructor (packages: Graph)
      ensures this.packages == packages && visited == {} && result == []
    {
      this.packages := packages;
      visited, result := {}, [];
    }

    /** `open` holds the names whose visit has not ended; every other visited name has all its dependencies visited. */
    ghost predicate Valid(open: set<Name>)
      reads this
    {
      open <= visited <= packages.Keys && NoDuplicates(result) && Elements(result) == visited - open &&
      forall a, b :: a in visited - open && Edge(packages, a, b) ==> b in visited
    }

    method Visit(name: Name, ghost open: set<Name>) returns (outcome: Outcome)
      requires Valid(open) && forall o :: o in open ==> Reaches(packages, o, name)
      modifies this
      ensures outcome.Done? && Acyclic(packages) && DependencyFirst(packages, old(result)) ==>
        DependencyFirst(packages, result)
      ensures !outcome.Cycle?
      ensures outcome.Done? ==>
        Valid(open) && name in visited && old(visited) <= visited &&
        forall n :: n in visited - old(visited) ==> Reaches(packages, name, n)
      ensures outcome.Unknown? ==> outcome.name !in packages && Reaches(packages, name, outcome.name)
      decreases packages.Keys - visited
    {
      if name in visited {
        return Done;
      }
      ReachesSelf(packages, name);
      if name !in packages {
        return Unknown(name);
      }
      visited := visited + {name};
      ghost var inner := open + {name};
      assert visited - inner == old(visited) - open;
      var deps := packages[name];
      for i := 0 to |deps|
        invariant Valid(inner) && old(visited) + {name} <= visited
        invariant forall k :: 0 <= k < i ==> deps[k] in visited
        invariant forall n :: n in visited - old(visited) ==> Reaches(packages, name, n)
        invariant Acyclic(packages) && DependencyFirst(packages, old(result)) ==> DependencyFirst(packages, result)
      {
        ghost var before := visited;
        assert Edge(packages, name, deps[i]);
        forall o | o in inner
          ensures Reaches(packages, o, deps[i])
        {
          ReachesEdge(packages, o, name, deps[i]);
        }
        outcome := Visit(deps[i], inner);
        if !outcome.Done? {
          EdgeReaches(packages, name, deps[i], outcome.name);
          return;
        }
        forall n | n in visited - old(visited)
          ensures Reaches(packages, name, n)
        {
          if n !in before {
            EdgeReaches(packages, name, deps[i], n);
          }
        }
      }
      assert Elements(result + [name]) == Elements(result) + {name};
      assert name !in result by { assert name !in Elements(result); }
      if Acyclic(packages) && DependencyFirst(packages, old(result)) {
        forall d | d in packages[name]
          ensures d in result
        {
          if d in inner {
            assert Edge(packages, name, d);
            BackEdge(packages, d, name);
          }
          assert d in Elements(result);
        }
        Append(packages, result, name);
      }
      result := result + [name];
      outcome := Done;
    }

    /** Everything the given dependencies need, themselves included. */
    method Collect(deps: seq<Name>) returns (outcome: Outcome)
      requires visited == {} && result == []
      modifies this
      ensures !outcome.Cycle?
      ensures outcome.Done? <==> forall n :: Needed(packages, deps, n) ==> n in packages
      ensures outcome.Done? ==> NoDuplicates(result) && forall n :: n in result <==> Needed(packages, deps, n)
      ensures outcome.Done? && Acyclic(packages) ==> DependencyFirst(packages, result)
      ensures outcome.Unknown? ==> outcome.name !in packages && Needed(packages, deps, outcome.name)
    {
      for i := 0 to |deps|
        invariant Valid({}) && (Acyclic(packages) ==> DependencyFirst(packages, result))
        invariant forall k :: 0 <= k < i ==> deps[k] in visited
        invariant forall n :: n in visited ==> Needed(packages, deps, n)
      {
        ghost var before := visited;
        outcome := Visit(deps[i], {});
        if !outcome.Done? {
          assert deps[i] in deps && Needed(packages, deps, outcome.name);
          return;
        }
        forall n | n in visited
          ensures Needed(packages, deps, n)
        {
          if n !in before {
            assert deps[i] in deps && Reaches(packages, deps[i], n);
          }
        }
      }
      forall n | Needed(packages, deps, n)
        ensures n in visited
      {
        var r :| r in deps && Reaches(packages, r, n);
        var p :| WalkFrom(packages, p, r, n);
        StaysInside(packages, visited, p);
      }
      assert Elements(result) == visited;
      assert forall n :: n in result <==> n in visited;
      outcome := Done;
    }
  }

  /** A dependency that leads back closes a cycle. */
  lemma BackEdge(g: Graph, a: Name, b: Name)
    requires Reaches(g, a, b) && Edge(g, b, a)
    ensures !Acyclic(g)
  {
    var p :| WalkFrom(g, p, a, b);
    var c := [b] + p;
    forall i | 0 <= i < |c| - 1
      ensures Edge(g, c[i], c[i + 1])
    {
      if i > 0 {
        assert Edge(g, p[i - 1], p[i]);
      }
    }
    assert IsCycle(g, c);
  }

  lemma {:induction false} StaysInside(g: Graph, inside: set<Name>, p: seq<Name>)
    requires IsWalk(g, p) && p[0] in inside
    requires forall a, b :: a in inside && Edge(g, a, b) ==> b in inside
    ensures p[|p| - 1] in inside
    decreases |p|
  {
    if |p| > 1 {
      assert Edge(g, p[0], p[1]);
      WalkTail(g, p);
      StaysInside(g, inside, p[1..]);
    }
  }

  // ---- select_with_dependencies ----

  function Filter(order: seq<Name>, selected: set<Name>): (r: seq<Name>)
    ensures forall n :: n in r <==> n in order && n in selected
  {
    if order == [] then []
    else
      Filter(order[..|order| - 1], selected) +
      if order[|order| - 1] in selected then [order[|order| - 1]] else []
  }

  /** Filtering by what came out gives the same. */
  lemma FilterOwn(order: seq<Name>, selected: set<Name>)
    ensures Filter(order, Elements(Filter(order, selected))) == Filter(order, selected)
  {
    FilterSame(order, selected, Elements(Filter(order, selected)));
  }

  lemma {:induction false} FilterSame(order: seq<Name>, a: set<Name>, b: set<Name>)
    requires forall n :: n in order ==> (n in a <==> n in b)
    ensures Filter(order, a) == Filter(order, b)
  {
    if order != [] {
      FilterSame(order[..|order| - 1], a, b);
    }
  }

  lemma {:induction false} FilterFirst(g: Graph, order: seq<Name>, selected: set<Name>)
    requires DependencyFirst(g, order)
    requires forall a, b :: a in selected && Edge(g, a, b) ==> b in selected
    ensures DependencyFirst(g, Filter(order, selected))
    decreases |order|
  {
    if order != [] {
      var init, last := order[..|order| - 1], order[|order| - 1];
      forall i | 0 <= i < |init|
        ensures Supported(g, init, i)
      {
        assert Supported(g, order, i) && init[..i] == order[..i];
      }
      FilterFirst(g, init, selected);
      if last in selected {
        assert Supported(g, order, |order| - 1);
        forall d | d in g[last]
          ensures d in Filter(init, selected)
        {
          assert Edge(g, last, d);
        }
        Append(g, Filter(init, selected), last);
      } else {
        assert Filter(order, selected) == Filter(init, selected);
      }
    }
  }

  lemma NeededStep(g: Graph, roots: seq<Name>, a: Name, b: Name)
    requires Needed(g, roots, a) && Edge(g, a, b)
    ensures Needed(g, roots, b)
  {
    var r :| r in roots && Reaches(g, r, a);
    ReachesEdge(g, r, a, b);
  }

  /** A root, or needed by the dependencies of one. */
  lemma NeededSplit(g: Graph, root: Name, n: Name)
    requires root in g
    ensures Reaches(g, root, n) <==> n == root || Needed(g, g[root], n)
  {
    if Reaches(g, root, n) && n != root {
      var p :| WalkFrom(g, p, root, n);
      assert Edge(g, p[0], p[1]);
      WalkTail(g, p);
      assert WalkFrom(g, p[1..], p[1], n);
      assert p[1] in g[root] && Reaches(g, p[1], n);
    }
    if Needed(g, g[root], n) {
      var r :| r in g[root] && Reaches(g, r, n);
      EdgeReaches(g, root, r, n);
    }
    ReachesSelf(g, root);
  }

  lemma ClosedNeeded(g: Graph, roots: seq<Name>, n: Name)
    requires Closed(g) && (forall r :: r in roots ==> r in g) && Needed(g, roots, n)
    ensures n in g
  {
    var r :| r in roots && Reaches(g, r, n);
    var p :| WalkFrom(g, p, r, n);
    ClosedReaches(g, p, r, n);
  }

  /** The requested packages and exactly what they need, in dependency order. */
  method SelectWithDependencies(packages: Graph, sorted: seq<Name>, requested: seq<Name>)
    returns (outcome: Outcome, order: seq<Name>)
    requires Elements(sorted) == packages.Keys
    ensures outcome.Done? <==>
            (forall r :: r in requested ==> r in packages) && Closed(packages) && Acyclic(packages)
    ensures outcome.Done? ==>
      DependencyFirst(packages, order) && (forall n :: n in order <==> Needed(packages, requested, n)) &&
      order == Filter(PostOrder(packages, sorted), Elements(order))
  {
    var selected: set<Name> := {};
    order := [];
    for i := 0 to |requested|
      invariant forall k :: 0 <= k < i ==> requested[k] in packages
      invariant forall n :: n in selected <==> Needed(packages, requested[..i], n)
    {
      if requested[i] !in packages {
        return Unknown(requested[i]), order;
      }
      var collector := new Collector(packages);
      outcome := collector.Collect(packages[requested[i]]);
      if !outcome.Done? {
        if Closed(packages) {
          forall r | r in packages[requested[i]]
            ensures r in packages
          {
            assert Edge(packages, requested[i], r);
          }
          ClosedNeeded(packages, packages[requested[i]], outcome.name);
        }
        return;
      }
      ghost var before := selected;
      selected := selected + {requested[i]} + set n | n in collector.result;
      forall n
        ensures n in selected <==> Needed(packages, requested[..i + 1], n)
      {
        NeededSplit(packages, requested[i], n);
        NeededMore(packages, requested, i, n);
      }
    }
    assert requested[..|requested|] == requested;
    outcome, order := SortDependencies(packages, sorted);
    if outcome.Done? {
      forall a, b | a in selected && Edge(packages, a, b)
        ensures b in selected
      {
        NeededStep(packages, requested, a, b);
      }
      FilterFirst(packages, order, selected);
      forall n | n in selected
        ensures n in order
      {
        ClosedNeeded(packages, requested, n);
        assert n in Elements(order);
      }
      ghost var all := order;
      order := Filter(order, selected);
      FilterOwn(all, selected);
    }
  }

  lemma NeededMore(g: Graph, requested: seq<Name>, i: nat, n: Name)
    requires i < |requested|
    ensures Needed(g, requested[..i + 1], n) <==> Needed(g, requested[..i], n) || Reaches(g, requested[i], n)
  {
    assert requested[..i + 1] == requested[..i] + [requested[i]];
    assert requested[i] in requested[..i + 1];
    if Needed(g, requested[..i], n) {
      var r :| r in requested[..i] && Reaches(g, r, n);
      assert r in requested[..i + 1];
    }
  }

  // ---- build_all ----

  /** A dependency of a dependency ... of `a`, other than by the empty walk. */
  ghost predicate DependsOn(g: Graph, a: Name, b: Name) {
    a in g && exists d :: d in g[a] && Reaches(g, d, b)
  }

  /** When attempt `k` began, all that its package needs had been attempted, and none of it ever failed. */
  ghost predicate BuiltAfterAllItNeeds(g: Graph, attempts: seq<Name>, failed: set<Name>, k: nat)
    requires k < |attempts|
  {
    forall d :: DependsOn(g, attempts[k], d) ==> d in attempts[..k] && d !in failed
  }

  /** After the first `i` packages. */
  ghost predicate BuildState(g: Graph, order: seq<Name>, i: nat, builds: Name -> bool, failed: set<Name>,
                             blocked: set<Name>, attempts: seq<Name>)
    requires i <= |order|
  {
    (forall n :: n in blocked <==> n in order[..i] && exists d :: d in failed && DependsOn(g, n, d)) &&
    (forall n :: n in failed <==> n in order[..i] && n !in blocked && !builds(n)) &&
    (forall n :: n in attempts <==> n in order[..i] && n !in blocked) &&
    (forall k :: 0 <= k < |attempts| ==> BuiltAfterAllItNeeds(g, attempts, failed, k))
  }

  /** Builds a selection in order. `builds` says which builds would succeed; `attempts` lists those that were tried. A
      package is blocked exactly when something it depends on, however indirectly, failed. */
  method BuildAll(g: Graph, order: seq<Name>, builds: Name -> bool)
    returns (code: int, failed: set<Name>, blocked: set<Name>, ghost attempts: seq<Name>)
    requires DependencyFirst(g, order)
    ensures forall n :: n in blocked <==> n in order && exists d :: d in failed && DependsOn(g, n, d)
    ensures forall n :: n in failed <==> n in order && n !in blocked && !builds(n)
    ensures forall n :: n in attempts <==> n in order && n !in blocked
    ensures forall k :: 0 <= k < |attempts| ==> BuiltAfterAllItNeeds(g, attempts, failed, k)
    ensures attempts == Filter(order, Elements(attempts))
    ensures code == 0 || code == 1
    ensures code == 0 <==> forall n :: n in order ==> n in attempts && builds(n)
  {
    failed, blocked, attempts := {}, {}, [];
    for i := 0 to |order|
      invariant BuildState(g, order, i, builds, failed, blocked, attempts)
      invariant attempts == Filter(order[..i], Elements(attempts))
    {
      StillInOrder(g, order, i, attempts);
      hide BuildState, DependsOn;
      var name := order[i];
      assert Supported(g, order, i);
      BlockedBefore(g, order, i, builds, failed, blocked, attempts);
      FailedDependencies(g, name, failed, blocked);
      var failedDependencies := set d | d in g[name] && d in failed + blocked;
      if failedDependencies != {} {
        Blocks(g, order, i, builds, failed, blocked, attempts);
        blocked := blocked + {name};
      } else {
        Attempted(g, order, i, builds, failed, blocked, attempts);
        if !builds(name) {
          failed := failed + {name};
        }
        attempts := attempts + [name];
      }
    }
    assert order[..|order|] == order;
    code := if failed != {} || blocked != {} then 1 else 0;
  }

  /** Attempts are in the order of the list. */
  lemma StillInOrder(g: Graph, order: seq<Name>, i: nat, attempts: seq<Name>)
    requires DependencyFirst(g, order) && i < |order| && attempts == Filter(order[..i], Elements(attempts))
    ensures attempts == Filter(order[..i + 1], Elements(attempts))
    ensures attempts + [order[i]] == Filter(order[..i + 1], Elements(attempts + [order[i]]))
  {
    assert order[..i + 1][..i] == order[..i];
    assert order[i] !in order[..i] && order[i] !in attempts;
    FilterSame(order[..i], Elements(attempts), Elements(attempts + [order[i]]));
  }

  ghost predicate HasFailedDependency(g: Graph, n: Name, failed: set<Name>, blocked: set<Name>) {
    n in g && exists d :: d in g[n] && (d in failed || d in blocked)
  }

  ghost predicate NeedsFailed(g: Graph, n: Name, failed: set<Name>) {
    exists f :: f in failed && DependsOn(g, n, f)
  }

  lemma FailedDependencies(g: Graph, n: Name, failed: set<Name>, blocked: set<Name>)
    requires n in g
    ensures HasFailedDependency(g, n, failed, blocked) <==> (set d | d in g[n] && d in failed + blocked) != {}
  {
    var both := set d | d in g[n] && d in failed + blocked;
    if HasFailedDependency(g, n, failed, blocked) {
      var d :| d in g[n] && (d in failed || d in blocked);
      assert d in both;
    }
  }

  lemma Blocks(g: Graph, order: seq<Name>, i: nat, builds: Name -> bool, failed: set<Name>, blocked: set<Name>,
               attempts: seq<Name>)
    requires DependencyFirst(g, order) && i < |order| && BuildState(g, order, i, builds, failed, blocked, attempts)
    requires NeedsFailed(g, order[i], failed)
    ensures BuildState(g, order, i + 1, builds, failed, blocked + {order[i]}, attempts)
  {
    hide DependsOn;
    assert order[..i + 1] == order[..i] + [order[i]];
    assert order[i] !in order[..i];
  }

  lemma Attempted(g: Graph, order: seq<Name>, i: nat, builds: Name -> bool, failed: set<Name>, blocked: set<Name>,
                  attempts: seq<Name>)
    requires DependencyFirst(g, order) && i < |order| && BuildState(g, order, i, builds, failed, blocked, attempts)
    requires !NeedsFailed(g, order[i], failed)
    ensures var more := if builds(order[i]) then failed else failed + {order[i]};
            BuildState(g, order, i + 1, builds, more, blocked, attempts + [order[i]])
  {
    hide DependsOn;
    var name := order[i];
    var more := if builds(name) then failed else failed + {name};
    assert order[..i + 1] == order[..i] + [name];
    assert name !in order[..i];
    NothingDependsOn(g, order, i);
    var all := attempts + [name];
    forall k | 0 <= k < |all|
      ensures BuiltAfterAllItNeeds(g, all, more, k)
    {
      if k < |attempts| {
        assert BuiltAfterAllItNeeds(g, attempts, failed, k);
        assert all[..k] == attempts[..k] && all[k] == attempts[k] && attempts[k] in attempts;
      } else {
        assert all[..k] == attempts;
        forall d | DependsOn(g, name, d)
          ensures d in attempts && d !in more
        {
          DependencyBuilt(g, order, i, d, failed, blocked);
        }
      }
    }
  }

  /** On the packages seen so far: a direct dependency failed or is blocked exactly when a transitive one failed. */
  lemma BlockedBefore(g: Graph, order: seq<Name>, i: nat, builds: Name -> bool, failed: set<Name>, blocked: set<Name>,
                      attempts: seq<Name>)
    requires DependencyFirst(g, order) && i < |order| && BuildState(g, order, i, builds, failed, blocked, attempts)
    ensures HasFailedDependency(g, order[i], failed, blocked) <==> NeedsFailed(g, order[i], failed)
  {
    var name := order[i];
    assert Supported(g, order, i);
    if HasFailedDependency(g, name, failed, blocked) {
      var d :| d in g[name] && (d in failed || d in blocked);
      if d in failed {
        ReachesSelf(g, d);
        assert DependsOn(g, name, d);
      } else {
        var f :| f in failed && DependsOn(g, d, f);
        var e :| e in g[d] && Reaches(g, e, f);
        EdgeReaches(g, d, e, f);
        assert DependsOn(g, name, f);
      }
    }
    if NeedsFailed(g, name, failed) {
      var f :| f in failed && DependsOn(g, name, f);
      var d :| d in g[name] && Reaches(g, d, f);
      if d != f {
        assert d in order[..i] && d in g by {
          var k :| 0 <= k < i && order[..i][k] == d;
          assert Supported(g, order, k);
        }
        NeededSplit(g, d, f);
        assert DependsOn(g, d, f);
        assert d in blocked;
      }
    }
  }

  /** Dependencies stand earlier, so nothing seen so far depends on the next package, nor it on itself. */
  lemma NothingDependsOn(g: Graph, order: seq<Name>, i: nat)
    requires DependencyFirst(g, order) && i < |order|
    ensures forall n :: n in order[..i + 1] ==> !DependsOn(g, n, order[i])
  {
    forall n | n in order[..i + 1] && DependsOn(g, n, order[i])
      ensures false
    {
      var k :| 0 <= k < i + 1 && order[..i + 1][k] == n;
      var d :| d in g[n] && Reaches(g, d, order[i]);
      assert Supported(g, order, k);
      var j :| 0 <= j < k && order[..k][j] == d;
      var p :| WalkFrom(g, p, d, order[i]);
      WalkGoesBack(g, order, j, p);
    }
  }

  lemma DependencyBuilt(g: Graph, order: seq<Name>, i: nat, d: Name, failed: set<Name>, blocked: set<Name>)
    requires DependencyFirst(g, order) && i < |order| && DependsOn(g, order[i], d)
    requires forall n :: n in blocked <==> n in order[..i] && exists f :: f in failed && DependsOn(g, n, f)
    requires !NeedsFailed(g, order[i], failed)
    ensures d in order[..i] && d !in blocked && d !in failed && d != order[i]
  {
    NothingDependsOn(g, order, i);
    var e :| e in g[order[i]] && Reaches(g, e, d);
    assert Supported(g, order, i);
    var j :| 0 <= j < i && order[..i][j] == e;
    var p :| WalkFrom(g, p, e, d);
    WalkGoesBack(g, order, j, p);
    var k :| 0 <= k <= j && order[k] == d;
    assert order[..i][k] == d;
    assert d != order[i];
    if d in blocked {
      var f :| f in failed && DependsOn(g, d, f);
      var h :| h in g[d] && Reaches(g, h, f);
      EdgeReaches(g, d, h, f);
      ReachesTransitive(g, p, e, d, f);
      assert false;
    }
  }
}
