/** support/deps.py, the upload order of buildPackages.py, pup's resolver and the build loop, over the one planner. */
module Dependencies {
  import opened Graphs
  import opened Planners

  // ---- sort_dependencies ----

  /** Where every dependency must exist, every dependency is followed. */
  lemma FollowedAll(packages: Graph)
    ensures Followed(packages, MustExist) == packages
  {
    forall n | n in packages
      ensures FollowedOf(packages, MustExist, packages[n]) == packages[n]
    {
      FollowedWhole(packages, packages[n]);
    }
  }

  lemma {:induction false} FollowedWhole(packages: Graph, deps: seq<Name>)
    ensures FollowedOf(packages, MustExist, deps) == deps
  {
    if deps != [] {
      var n := |deps| - 1;
      FollowedWhole(packages, deps[..n]);
      FollowedLast(packages, deps);
      hide FollowedOf;
      assert deps == deps[..n] + [deps[n]];
    }
  }

  lemma FollowedLast(packages: Graph, deps: seq<Name>)
    requires deps != []
    ensures FollowedOf(packages, MustExist, deps) ==
            FollowedOf(packages, MustExist, deps[..|deps| - 1]) + [deps[|deps| - 1]]
  {
  }

  /** The whole catalogue in dependency order; `sorted` lists the package names. */
  method SortDependencies(packages: Graph, sorted: seq<Name>) returns (outcome: Outcome, order: seq<Name>)
    requires Elements(sorted) == packages.Keys
    ensures outcome.Done? <==> Closed(packages) && Acyclic(packages)
    ensures outcome.Done? ==> DependencyFirst(packages, order) && Elements(order) == packages.Keys
    ensures outcome.Done? ==> order == PostOrder(packages, sorted)
    ensures outcome.Cycle? ==> IsCycle(packages, outcome.names)
    ensures outcome.Unknown? ==> outcome.name !in packages && exists a :: Edge(packages, a, outcome.name)
  {
    var planner := new Planner(packages, MustExist);
    outcome := planner.Plan(sorted);
    order := planner.result;
    FollowedAll(packages);
    WholeCatalogue(packages, sorted);
    if outcome.Done? {
      forall n
        ensures n in order <==> n in packages
      {
        if n in packages {
          ReachesSelf(packages, n);
          assert n in sorted;
        }
      }
    }
    if outcome.Unknown? {
      UnknownDependency(packages, sorted, outcome.name);
    }
  }

  lemma WholeCatalogue(packages: Graph, sorted: seq<Name>)
    requires Elements(sorted) == packages.Keys
    ensures Plannable(packages, MustExist, sorted) <==> Closed(packages) && Acyclic(packages)
  {
    FollowedAll(packages);
    AcyclicIff(packages);
    var g := Followed(packages, MustExist);
    if Plannable(packages, MustExist, sorted) {
      forall a, b | Edge(packages, a, b)
        ensures b in packages
      {
        ReachesSelf(packages, b);
        EdgeReaches(packages, a, b, b);
        assert a in sorted && Needed(g, sorted, b);
      }
      forall a | a in packages
        ensures !OnCycle(packages, a)
      {
        ReachesSelf(packages, a);
        assert a in sorted && Needed(g, sorted, a);
        assert OnCycle(packages, a) ==> OnCycle(g, a);
      }
    }
    if Closed(packages) && Acyclic(packages) {
      forall n | Needed(g, sorted, n)
        ensures n in packages && !OnCycle(g, n)
      {
        var r :| r in sorted && Reaches(g, r, n);
        var p :| WalkFrom(packages, p, r, n);
        ClosedReaches(packages, p, r, n);
        assert OnCycle(g, n) ==> OnCycle(packages, n);
      }
    }
  }

  lemma UnknownDependency(packages: Graph, sorted: seq<Name>, n: Name)
    requires Elements(sorted) == packages.Keys && n !in packages && Needed(Followed(packages, MustExist), sorted, n)
    ensures exists a :: Edge(packages, a, n)
  {
    FollowedAll(packages);
    var r :| r in sorted && Reaches(Followed(packages, MustExist), r, n);
    var p :| WalkFrom(packages, p, r, n);
    assert |p| > 1;
    assert Edge(packages, p[|p| - 2], n);
  }

  // ---- order_uploads ----

  /** Orders the listed packages by their install dependencies on each other. */
  method OrderUploads(listed: seq<(Name, seq<Name>)>) returns (outcome: Outcome, order: seq<Name>)
    ensures outcome.Done? <==> Acyclic(Induced(Selected(listed)))
    ensures outcome.Done? ==>
      DependencyFirst(Induced(Selected(listed)), order) && Elements(order) == Selected(listed).Keys &&
      order == PostOrder(Induced(Selected(listed)), Firsts(listed))
    ensures outcome.Cycle? ==> IsCycle(Induced(Selected(listed)), outcome.names)
    ensures !outcome.Unknown?
    ensures outcome.Done? ==>
      (forall n :: n in order <==> exists i :: 0 <= i < |listed| && listed[i].0 == n) &&
      forall i, j :: 0 <= i < |listed| && 0 <= j < |order| && order[j] == listed[i].0 && IsFinal(listed, i) ==>
        InTime(order, j, listed[i].1)
  {
    hide Followed, PostOrder, DependencyFirst, IsFinal, InTime, Acyclic, IsCycle;
    var selected: Graph := map[];
    var names: seq<Name> := [];
    for i := 0 to |listed|
      invariant selected == Selected(listed[..i]) && names == Firsts(listed[..i]) && Elements(names) == selected.Keys
    {
      assert listed[..i + 1][..i] == listed[..i];
      ghost var before := names;
      names := names + [listed[i].0];
      assert Elements(names) == Elements(before) + {listed[i].0};
      selected := selected[listed[i].0 := listed[i].1];
    }
    assert listed[..|listed|] == listed;
    var planner := new Planner(selected, SkipUnknown);
    outcome := planner.Plan(names);
    order := planner.result;
    InducedPlan(selected, names);
    if outcome.Done? {
      assert Elements(order) == selected.Keys;
      ListedInTime(listed, order);
    }
  }

  /** Those of the dependencies that are in the order at all stand before its j-th name. */
  ghost predicate InTime(order: seq<Name>, j: nat, dependencies: seq<Name>)
    requires j < |order|
  {
    forall d :: d in dependencies && d in order ==> d in order[..j]
  }

  lemma ListedInTime(listed: seq<(Name, seq<Name>)>, order: seq<Name>)
    requires DependencyFirst(Induced(Selected(listed)), order) && Elements(order) == Selected(listed).Keys
    ensures forall n :: n in order <==> exists i :: 0 <= i < |listed| && listed[i].0 == n
    ensures forall i, j :: 0 <= i < |listed| && 0 <= j < |order| && order[j] == listed[i].0 && IsFinal(listed, i) ==>
              InTime(order, j, listed[i].1)
  {
    SelectedNames(listed);
    assert forall n :: n in order <==> n in Elements(order);
    hide Selected;
    var selected := Selected(listed);
    forall i, j | 0 <= i < |listed| && 0 <= j < |order| && order[j] == listed[i].0 && IsFinal(listed, i)
      ensures InTime(order, j, listed[i].1)
    {
      FinalSelected(listed, i);
      assert Supported(Induced(selected), order, j);
      assert forall d :: d in order ==> d in Elements(order);
    }
  }

  /** The entry that counts for its name. */
  ghost predicate IsFinal(listed: seq<(Name, seq<Name>)>, i: nat)
    requires i < |listed|
  {
    forall j :: i < j < |listed| ==> listed[j].0 != listed[i].0
  }

  lemma {:induction false} FinalSelected(listed: seq<(Name, seq<Name>)>, i: nat)
    requires i < |listed| && IsFinal(listed, i)
    ensures listed[i].0 in Selected(listed) && Selected(listed)[listed[i].0] == listed[i].1
  {
    var n := |listed| - 1;
    if i < n {
      FinalSelected(listed[..n], i);
    }
  }

  lemma {:induction false} SelectedNames(listed: seq<(Name, seq<Name>)>)
    ensures forall n :: n in Selected(listed) <==> exists i :: 0 <= i < |listed| && listed[i].0 == n
  {
    if listed != [] {
      var k := |listed| - 1;
      SelectedNames(listed[..k]);
      assert forall i :: 0 <= i < k ==> listed[..k][i] == listed[i];
      forall n | n in Selected(listed)
        ensures exists i :: 0 <= i < |listed| && listed[i].0 == n
      {
        if n in Selected(listed[..k]) {
          var i :| 0 <= i < k && listed[..k][i].0 == n;
          assert listed[i].0 == n;
        } else {
          assert listed[k].0 == n;
        }
      }
    }
  }

  function Firsts(listed: seq<(Name, seq<Name>)>): seq<Name> {
    if listed == [] then [] else Firsts(listed[..|listed| - 1]) + [listed[|listed| - 1].0]
  }

  /** The packages by name; a later entry replaces an earlier one. */
  function Selected(listed: seq<(Name, seq<Name>)>): Graph {
    if listed == [] then map[]
    else Selected(listed[..|listed| - 1])[listed[|listed| - 1].0 := listed[|listed| - 1].1]
  }

  function Induced(packages: Graph): Graph {
    Followed(packages, SkipUnknown)
  }

  lemma InducedPlan(packages: Graph, names: seq<Name>)
    requires Elements(names) == packages.Keys
    ensures Plannable(packages, SkipUnknown, names) <==> Acyclic(Induced(packages))
    ensures forall n :: Needed(Induced(packages), names, n) <==> n in packages
  {
    var g := Induced(packages);
    AcyclicIff(g);
    forall n
      ensures Needed(g, names, n) <==> n in packages
    {
      if n in packages {
        ReachesSelf(g, n);
        assert n in names;
      }
      if Needed(g, names, n) {
        var r :| r in names && Reaches(g, r, n);
        var p :| WalkFrom(g, p, r, n);
        ClosedReaches(g, p, r, n);
      }
    }
  }

  // ---- pup's resolver ----

  datatype Package =
    Package(name: string, version: string, architecture: string, sha1: string, dependencies: seq<string>)

  type Database = map<string, Package>

  function Key(name: string, architecture: string): string {
    name + "-" + architecture
  }

  function Keys(names: seq<string>, architecture: string): (r: seq<string>)
    ensures |r| == |names| && forall i :: 0 <= i < |names| ==> r[i] == Key(names[i], architecture)
  {
    if names == [] then [] else [Key(names[0], architecture)] + Keys(names[1..], architecture)
  }

  /** The database as a graph of its keys. */
  function DatabaseGraph(database: Database, architecture: string): Graph {
    map k | k in database :: Keys(database[k].dependencies, architecture)
  }

  function ModeFor(includeDependencies: bool): Mode {
    if includeDependencies then MustExist else NoDependencies
  }

  function Packages(database: Database, order: seq<string>): (r: seq<Package>)
    requires forall k :: k in order ==> k in database
    ensures |r| == |order| && forall i :: 0 <= i < |order| ==> r[i] == database[order[i]]
  {
    if order == [] then [] else [database[order[0]]] + Packages(database, order[1..])
  }

  /** A dependency-first plan of the requested packages and all they need, by database key. */
  method ResolvePackages(names: seq<string>, database: Database, architecture: string, includeDependencies: bool)
    returns (outcome: Outcome, plan: seq<string>, packages: seq<Package>)
    ensures PlanOf(Followed(DatabaseGraph(database, architecture), ModeFor(includeDependencies)),
                   Keys(names, architecture), database, outcome, plan)
    ensures Resolved(database, architecture, includeDependencies, names, outcome, plan)
    ensures outcome.Done? ==>
      |packages| == |plan| && forall i :: 0 <= i < |plan| ==> plan[i] in database && packages[i] == database[plan[i]]
  {
    outcome, plan := PlanKeys(names, database, architecture, includeDependencies);
    hide Keys, DatabaseGraph, Followed, Resolved, PlanOf;
    packages := [];
    PlanInDatabase(names, database, architecture, includeDependencies, outcome, plan);
    if outcome.Done? {
      packages := Packages(database, plan);
    }
  }

  /** The plan is what the roots need in the graph, in post-order, unless some of that is on a cycle or unknown. */
  ghost predicate PlanOf(g: Graph, roots: seq<string>, database: Database, outcome: Outcome, plan: seq<string>) {
    (outcome.Done? <==> forall k :: Needed(g, roots, k) ==> k in database && !OnCycle(g, k)) &&
    match outcome
    case Done => DependencyFirst(g, plan) && (forall k :: k in plan <==> Needed(g, roots, k)) &&
                 plan == PostOrder(g, roots)
    case Cycle(c) => IsCycle(g, c) && Needed(g, roots, c[0])
    case Unknown(key) => key !in database && Needed(g, roots, key)
  }

  method PlanKeys(names: seq<string>, database: Database, architecture: string, includeDependencies: bool)
    returns (outcome: Outcome, plan: seq<string>)
    ensures PlanOf(Followed(DatabaseGraph(database, architecture), ModeFor(includeDependencies)),
                   Keys(names, architecture), database, outcome, plan)
  {
    var graph := DatabaseGraph(database, architecture);
    assert graph.Keys == database.Keys;
    hide Keys, DatabaseGraph, Followed, Needed, OnCycle, PostOrder, IsCycle, DependencyFirst;
    var planner := new Planner(graph, ModeFor(includeDependencies));
    outcome := planner.Plan(Keys(names, architecture));
    plan := planner.result;
  }

  lemma InOrder(g: Graph, order: seq<Name>)
    requires DependencyFirst(g, order)
    ensures forall n :: n in order ==> n in g
  {
    forall n | n in order
      ensures n in g
    {
      var i :| 0 <= i < |order| && order[i] == n;
      assert Supported(g, order, i);
    }
  }

  // ---- the plan, told of the database itself ----

  /** Everything that the i-th package of the plan depends on stands before it. */
  ghost predicate Supplied(database: Database, architecture: string, plan: seq<string>, i: nat)
    requires i < |plan|
  {
    plan[i] in database && forall d :: d in database[plan[i]].dependencies ==> d + "-" + architecture in plan[..i]
  }

  ghost predicate DependsOn(database: Database, architecture: string, a: string, b: string) {
    a in database && exists d :: d in database[a].dependencies && b == d + "-" + architecture
  }

  /** A set of keys with everything requested and, if dependencies count, with everything they depend on. */
  ghost predicate Serves(database: Database, architecture: string, includeDependencies: bool, names: seq<string>,
                         s: set<string>) {
    (forall n :: n in names ==> n + "-" + architecture in s) &&
    (includeDependencies ==> forall a, b :: a in s && DependsOn(database, architecture, a, b) ==> b in s)
  }

  /** A plan holds what is requested, each package after those it depends on, and nothing that could be left out; a
      cycle goes from dependency to dependency; an unknown key is one that cannot be left out. */
  ghost predicate Resolved(database: Database, architecture: string, includeDependencies: bool, names: seq<string>,
                           outcome: Outcome, plan: seq<string>) {
    match outcome
    case Done =>
      (forall n :: n in names ==> n + "-" + architecture in plan) &&
      (includeDependencies ==> forall i :: 0 <= i < |plan| ==> Supplied(database, architecture, plan, i)) &&
      forall s :: Serves(database, architecture, includeDependencies, names, s) ==> forall k :: k in plan ==> k in s
    case Cycle(c) =>
      includeDependencies && |c| >= 2 && c[0] == c[|c| - 1] &&
      forall i :: 0 <= i < |c| - 1 ==> DependsOn(database, architecture, c[i], c[i + 1])
    case Unknown(key) =>
      key !in database && forall s :: Serves(database, architecture, includeDependencies, names, s) ==> key in s
  }

  /** What the planner says of the graph, said of the database. */
  lemma PlanInDatabase(names: seq<string>, database: Database, architecture: string, includeDependencies: bool,
                       outcome: Outcome, plan: seq<string>)
    requires PlanOf(Followed(DatabaseGraph(database, architecture), ModeFor(includeDependencies)),
                    Keys(names, architecture), database, outcome, plan)
    ensures Resolved(database, architecture, includeDependencies, names, outcome, plan)
    ensures outcome.Done? ==> forall k :: k in plan ==> k in database
  {
    hide Needed, Followed, DatabaseGraph, Keys, DependencyFirst, Resolved, IsCycle;
    match outcome
    case Done =>
      InOrder(Followed(DatabaseGraph(database, architecture), ModeFor(includeDependencies)), plan);
      InDatabase(database, architecture, includeDependencies);
      DonePlan(names, database, architecture, includeDependencies, plan);
    case Cycle(c) => CyclePlan(names, database, architecture, includeDependencies, c, plan);
    case Unknown(key) => UnknownPlan(names, database, architecture, includeDependencies, key, plan);
  }

  lemma DonePlan(names: seq<string>, database: Database, architecture: string, includeDependencies: bool,
                 plan: seq<string>)
    requires var g := Followed(DatabaseGraph(database, architecture), ModeFor(includeDependencies));
             DependencyFirst(g, plan) && forall k :: k in plan <==> Needed(g, Keys(names, architecture), k)
    ensures Resolved(database, architecture, includeDependencies, names, Done, plan)
  {
    var g := Followed(DatabaseGraph(database, architecture), ModeFor(includeDependencies));
    forall n | n in names
      ensures n + "-" + architecture in plan
    {
      RequestedKeys(names, architecture);
      ReachesSelf(g, n + "-" + architecture);
    }
    hide Followed, DatabaseGraph, Keys, DependencyFirst, Needed, Serves, DependsOn, Supplied;
    forall s, k | Serves(database, architecture, includeDependencies, names, s) && k in plan
      ensures k in s
    {
      NeededServed(database, architecture, includeDependencies, names, s, k);
    }
    InDatabase(database, architecture, includeDependencies);
    forall i | 0 <= i < |plan| && includeDependencies
      ensures Supplied(database, architecture, plan, i)
    {
      PlanSupplied(database, architecture, g, plan, i);
    }
  }

  lemma CyclePlan(names: seq<string>, database: Database, architecture: string, includeDependencies: bool,
                  c: seq<string>, plan: seq<string>)
    requires IsCycle(Followed(DatabaseGraph(database, architecture), ModeFor(includeDependencies)), c)
    ensures Resolved(database, architecture, includeDependencies, names, Cycle(c), plan)
  {
    var g := Followed(DatabaseGraph(database, architecture), ModeFor(includeDependencies));
    hide Followed, DatabaseGraph, DependsOn, Edge;
    InDatabase(database, architecture, includeDependencies);
    assert Edge(g, c[0], c[1]);
    assert forall i :: 0 <= i < |c| - 1 ==> Edge(g, c[i], c[i + 1]);
  }

  lemma UnknownPlan(names: seq<string>, database: Database, architecture: string, includeDependencies: bool,
                    key: string, plan: seq<string>)
    requires key !in database
    requires Needed(Followed(DatabaseGraph(database, architecture), ModeFor(includeDependencies)),
                    Keys(names, architecture), key)
    ensures Resolved(database, architecture, includeDependencies, names, Unknown(key), plan)
  {
    hide Followed, DatabaseGraph, Keys, Needed, Serves;
    forall s | Serves(database, architecture, includeDependencies, names, s)
      ensures key in s
    {
      NeededServed(database, architecture, includeDependencies, names, s, key);
    }
  }

  lemma PlanSupplied(database: Database, architecture: string, g: Graph, plan: seq<string>, i: nat)
    requires i < |plan| && DependencyFirst(g, plan) && g.Keys == database.Keys
    requires forall a, b :: Edge(g, a, b) <==> DependsOn(database, architecture, a, b)
    ensures Supplied(database, architecture, plan, i)
  {
    assert Supported(g, plan, i);
    forall d | d in database[plan[i]].dependencies
      ensures d + "-" + architecture in plan[..i]
    {
      assert DependsOn(database, architecture, plan[i], d + "-" + architecture);
      assert Edge(g, plan[i], d + "-" + architecture);
    }
  }

  lemma RequestedKeys(names: seq<string>, architecture: string)
    ensures forall k :: k in Keys(names, architecture) <==> exists n :: n in names && k == n + "-" + architecture
  {
    forall n | n in names
      ensures n + "-" + architecture in Keys(names, architecture)
    {
      var i :| 0 <= i < |names| && names[i] == n;
      assert Keys(names, architecture)[i] == n + "-" + architecture;
    }
  }

  lemma InDatabase(database: Database, architecture: string, includeDependencies: bool)
    ensures var g := Followed(DatabaseGraph(database, architecture), ModeFor(includeDependencies));
            g.Keys == database.Keys &&
            forall a, b :: Edge(g, a, b) <==> includeDependencies && DependsOn(database, architecture, a, b)
  {
    var graph := DatabaseGraph(database, architecture);
    FollowedFacts(graph, ModeFor(includeDependencies));
    forall a, b
      ensures Edge(Followed(graph, ModeFor(includeDependencies)), a, b) <==>
              includeDependencies && DependsOn(database, architecture, a, b)
    {
      if a in database {
        RequestedKeys(database[a].dependencies, architecture);
      }
    }
  }

  lemma NeededServed(database: Database, architecture: string, includeDependencies: bool, names: seq<string>,
                     s: set<string>, k: string)
    requires Serves(database, architecture, includeDependencies, names, s)
    requires Needed(Followed(DatabaseGraph(database, architecture), ModeFor(includeDependencies)),
                    Keys(names, architecture), k)
    ensures k in s
  {
    var g := Followed(DatabaseGraph(database, architecture), ModeFor(includeDependencies));
    RequestedKeys(names, architecture);
    InDatabase(database, architecture, includeDependencies);
    var r :| r in Keys(names, architecture) && Reaches(g, r, k);
    var p :| WalkFrom(g, p, r, k);
    WalkInside(g, s, p);
  }

  lemma {:induction false} WalkInside(g: Graph, s: set<Name>, p: seq<Name>)
    requires IsWalk(g, p) && p[0] in s && forall a, b :: a in s && Edge(g, a, b) ==> b in s
    ensures p[|p| - 1] in s
    decreases |p|
  {
    if |p| > 1 {
      assert Edge(g, p[0], p[1]);
      WalkTail(g, p);
      WalkInside(g, s, p[1..]);
    }
  }

  /** Without dependencies the plan is the request itself, once each. */
  lemma NoDependenciesPlan(packages: Graph, roots: seq<Name>, n: Name)
    ensures Needed(Followed(packages, NoDependencies), roots, n) <==> n in roots
  {
    var g := Followed(packages, NoDependencies);
    if Needed(g, roots, n) {
      var r :| r in roots && Reaches(g, r, n);
      var p :| WalkFrom(g, p, r, n);
      assert |p| > 1 ==> Edge(g, p[0], p[1]);
    }
    if n in roots {
      ReachesSelf(g, n);
    }
  }
}
