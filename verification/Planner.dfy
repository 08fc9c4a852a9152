/** The depth-first planner that support/deps.py, buildPackages.py and pup's install command each contain. */
module Planners {
  import opened Graphs

  /** What a visit does with a dependency that is not a known package, and whether it follows dependencies at all. */
  datatype Mode = MustExist | SkipUnknown | NoDependencies

  datatype Outcome = Done | Cycle(names: seq<Name>) | Unknown(name: Name)

  /** The dependencies a planner follows. */
  function Followed(packages: Graph, mode: Mode): Graph {
    map n | n in packages :: FollowedOf(packages, mode, packages[n])
  }

  function FollowedOf(packages: Graph, mode: Mode, deps: seq<Name>): (r: seq<Name>)
    ensures forall d :: d in r <==> d in deps && Follows(packages, mode, d)
  {
    if deps == [] then []
    else
      var n := |deps| - 1;
      FollowedOf(packages, mode, deps[..n]) + if Follows(packages, mode, deps[n]) then [deps[n]] else []
  }

  lemma FollowedFacts(packages: Graph, mode: Mode)
    ensures Followed(packages, mode).Keys == packages.Keys && |Followed(packages, mode)| == |packages|
    ensures forall n :: n in packages ==> Followed(packages, mode)[n] == FollowedOf(packages, mode, packages[n])
  {
  }

  predicate Follows(packages: Graph, mode: Mode, d: Name) {
    mode == MustExist || (mode == SkipUnknown && d in packages)
  }

  /** The names being visited: each depends on the next. */
  ghost predicate IsStack(g: Graph, s: seq<Name>) {
    NoDuplicates(s) && (forall i :: 0 <= i < |s| ==> s[i] in g) && (s != [] ==> IsWalk(g, s))
  }

  /** The depth-first post-order: what the names need and then the names, left to right, leaving out what is done.
      `room` bounds the depth. */
  ghost function Post(g: Graph, names: seq<Name>, done: seq<Name>, room: nat): seq<Name>
    decreases room, |names|
  {
    if names == [] then done
    else
      var last := names[|names| - 1];
      var before := Post(g, names[..|names| - 1], done, room);
      if last in before || last !in g || room == 0 then before else Post(g, g[last], before, room - 1) + [last]
  }

  /** With room for every package, which is all that a stack of distinct names can take. */
  ghost function PostOrder(g: Graph, roots: seq<Name>): seq<Name> {
    Post(g, roots, [], |g|)
  }

  /** Asking for more only adds to the end of the plan. */
  lemma {:induction false} PostGrows(g: Graph, names: seq<Name>, more: seq<Name>, done: seq<Name>, room: nat)
    ensures Post(g, names, done, room) <= Post(g, names + more, done, room)
    decreases room, |more|
  {
    if more == [] {
      assert names + more == names;
    } else {
      var all, last := names + more, more[|more| - 1];
      assert all[..|all| - 1] == names + more[..|more| - 1];
      PostGrows(g, names, more[..|more| - 1], done, room);
      var before := Post(g, all[..|all| - 1], done, room);
      if last in g && room > 0 {
        PostGrows(g, [], g[last], before, room - 1);
        assert [] + g[last] == g[last];
      }
    }
  }

  lemma PostOne(g: Graph, names: seq<Name>, name: Name, done: seq<Name>, room: nat)
    ensures Post(g, names + [name], done, room) == Post(g, [name], Post(g, names, done, room), room)
  {
    assert (names + [name])[..|names|] == names;
    assert [name][..0] == [];
  }

  lemma NoRoots(g: Graph, roots: seq<Name>, room: nat)
    ensures Post(g, roots[..0], [], room) == []
  {
  }

  lemma OneVisit(g: Graph, name: Name, done: seq<Name>, room: nat)
    ensures Post(g, [name], done, room) ==
            if name in done || name !in g || room == 0 then done else Post(g, g[name], done, room - 1) + [name]
  {
    assert [name][..0] == [];
  }

  lemma NoneYet(packages: Graph, mode: Mode, deps: seq<Name>, done: seq<Name>, room: nat)
    ensures Post(Followed(packages, mode), FollowedOf(packages, mode, deps[..0]), done, room) == done
  {
  }

  lemma OneMore(packages: Graph, mode: Mode, deps: seq<Name>, i: nat, done: seq<Name>, room: nat)
    requires i < |deps|
    ensures var g, before := Followed(packages, mode), FollowedOf(packages, mode, deps[..i]);
            Post(g, FollowedOf(packages, mode, deps[..i + 1]), done, room) ==
            if Follows(packages, mode, deps[i]) then Post(g, [deps[i]], Post(g, before, done, room), room)
            else Post(g, before, done, room)
  {
    hide Post;
    var before := FollowedOf(packages, mode, deps[..i]);
    assert deps[..i + 1][..i] == deps[..i] && deps[..i + 1][i] == deps[i];
    assert before + [] == before;
    PostOne(Followed(packages, mode), before, deps[i], done, room);
  }

  lemma StackFits(g: Graph, s: seq<Name>)
    requires IsStack(g, s)
    ensures |s| <= |g|
  {
    DistinctSize(s);
    SubsetSize(Elements(s), g.Keys);
  }

  lemma {:induction false} DistinctSize(s: seq<Name>)
    requires NoDuplicates(s)
    ensures |Elements(s)| == |s|
  {
    if s != [] {
      var n := |s| - 1;
      DistinctSize(s[..n]);
      assert Elements(s) == Elements(s[..n]) + {s[n]};
    }
  }

  lemma SubsetSize(a: set<Name>, b: set<Name>)
    requires a <= b
    ensures |a| <= |b|
  {
    assert b == a + (b - a);
  }

  /** The plan got longer, by names that `name` needs. */
  ghost predicate Grown(g: Graph, name: Name, before: seq<Name>, after: seq<Name>) {
    before <= after && forall n :: n in after && n !in before ==> Reaches(g, name, n)
  }

  lemma GrownNot(g: Graph, name: Name, order: seq<Name>)
    ensures Grown(g, name, order, order)
  {
  }

  lemma GrownLast(g: Graph, name: Name, before: seq<Name>, after: seq<Name>)
    requires Grown(g, name, before, after)
    ensures Grown(g, name, before, after + [name])
  {
    ReachesSelf(g, name);
  }

  lemma GrownOn(g: Graph, name: Name, d: Name, before: seq<Name>, middle: seq<Name>, after: seq<Name>)
    requires Edge(g, name, d) && Grown(g, name, before, middle) && Grown(g, d, middle, after)
    ensures Grown(g, name, before, after)
  {
    forall n | n in after && n !in before
      ensures Reaches(g, name, n)
    {
      if n !in middle {
        EdgeReaches(g, name, d, n);
      }
    }
  }

  lemma Pop(g: Graph, s: seq<Name>)
    requires IsStack(g, s) && s != []
    ensures IsStack(g, s[..|s| - 1]) && Elements(s) == Elements(s[..|s| - 1]) + {s[|s| - 1]}
    ensures s[|s| - 1] !in Elements(s[..|s| - 1]) && s[|s| - 1] in Elements(s)
  {
    var t := s[..|s| - 1];
    assert s == t + [s[|s| - 1]];
    forall i | 0 <= i < |t| - 1
      ensures Edge(g, t[i], t[i + 1])
    {
      assert Edge(g, s[i], s[i + 1]);
    }
  }

  class Planner {
    const packages: Graph
    const mode: Mode
    var result: seq<Name>
    var permanent: set<Name>
    var temporary: seq<Name>

    constructor (packages: Graph, mode: Mode)
      ensures this.packages == packages && this.mode == mode
      ensures result == [] && temporary == [] && Valid()
    {
      this.packages, this.mode := packages, mode;
      result, permanent, temporary := [], {}, [];
    }

    ghost function G(): Graph {
      Followed(packages, mode)
    }

    /** How much deeper a visit can go. */
    ghost function Room(): nat
      reads this`temporary
    {
      if |temporary| <= |packages| then |packages| - |temporary| else 0
    }

    ghost predicate Valid()
      reads this
    {
      permanent == Elements(result) && DependencyFirst(G(), result) && IsStack(G(), temporary) &&
      permanent !! Elements(temporary)
    }

    /** Adds `name` and everything it needs to the plan, dependencies first. */
    method Visit(name: Name) returns (outcome: Outcome)
      requires Valid()
      requires temporary != [] ==> Edge(G(), temporary[|temporary| - 1], name)
      modifies this
      ensures outcome.Done? ==>
        Valid() && temporary == old(temporary) && name in permanent && Grown(G(), name, old(result), result) &&
        result == Post(G(), [name], old(result), Room())
      ensures outcome.Cycle? ==> IsCycle(G(), outcome.names) && Reaches(G(), name, outcome.names[0])
      ensures outcome.Unknown? ==> outcome.name !in packages && Reaches(G(), name, outcome.name)
      decreases packages.Keys - Elements(temporary), 0
    {
      hide Post, Followed, FollowedOf, DependencyFirst, IsStack, Reaches, Grown;
      OneVisit(G(), name, result, Room());
      FollowedFacts(packages, mode);
      GrownNot(G(), name, result);
      if name in permanent {
        return Done;
      }
      ReachesSelf(G(), name);
      if name in temporary {
        var cycle := CycleAt(name);
        return Cycle(cycle);
      }
      if name !in packages {
        return Unknown(name);
      }
      ghost var stack := temporary;
      Open(name);
      assert temporary[|temporary| - 1] == name;
      outcome := VisitAll(name, packages[name]);
      if outcome.Done? {
        GrownLast(G(), name, old(result), result);
        Close(name);
        assert temporary == stack;
      }
    }

    /** Puts a name on the stack. */
    method Open(name: Name)
      requires Valid() && name in packages && name !in permanent && name !in temporary
      requires temporary != [] ==> Edge(G(), temporary[|temporary| - 1], name)
      modifies this`temporary
      ensures Valid() && temporary == old(temporary) + [name] && Room() == old(Room()) - 1
      ensures packages.Keys - Elements(temporary) < packages.Keys - Elements(old(temporary))
    {
      hide Followed, FollowedOf, DependencyFirst, IsStack;
      FollowedFacts(packages, mode);
      Push(G(), temporary, name);
      temporary := temporary + [name];
      StackFits(G(), temporary);
      assert name in packages.Keys - Elements(old(temporary)) && name !in packages.Keys - Elements(temporary);
    }

    /** The loop over the dependencies of the name on top of the stack. */
    method VisitAll(name: Name, deps: seq<Name>) returns (outcome: Outcome)
      requires Valid() && temporary != [] && temporary[|temporary| - 1] == name
      requires name in packages && deps == packages[name]
      modifies this
      ensures outcome.Done? ==>
        Valid() && temporary == old(temporary) && Grown(G(), name, old(result), result) &&
        (forall d :: d in G()[name] ==> d in result) &&
        result == Post(G(), G()[name], old(result), Room())
      ensures outcome.Cycle? ==> IsCycle(G(), outcome.names) && Reaches(G(), name, outcome.names[0])
      ensures outcome.Unknown? ==> outcome.name !in packages && Reaches(G(), name, outcome.name)
      decreases packages.Keys - Elements(temporary), 1
    {
      hide Post, Followed, FollowedOf, DependencyFirst, IsStack, Reaches;
      FollowedFacts(packages, mode);
      NoneYet(packages, mode, deps, result, Room());
      for i := 0 to |deps|
        invariant Valid() && temporary == old(temporary) && Grown(G(), name, old(result), result)
        invariant forall k :: 0 <= k < i && Follows(packages, mode, deps[k]) ==> deps[k] in result
        invariant result == Post(G(), FollowedOf(packages, mode, deps[..i]), old(result), Room())
      {
        ghost var before := result;
        OneMore(packages, mode, deps, i, old(result), Room());
        if Follows(packages, mode, deps[i]) {
          outcome := Visit(deps[i]);
          if outcome.Cycle? {
            EdgeReaches(G(), name, deps[i], outcome.names[0]);
            return;
          }
          if outcome.Unknown? {
            EdgeReaches(G(), name, deps[i], outcome.name);
            return;
          }
          GrownOn(G(), name, deps[i], old(result), before, result);
        }
      }
      assert deps[..|deps|] == deps;
      outcome := Done;
    }

    /** Ends the visit of the name on top of the stack. */
    method Close(name: Name)
      requires Valid() && temporary != [] && temporary[|temporary| - 1] == name
      requires name in packages && forall d :: d in G()[name] ==> d in result
      modifies this
      ensures Valid() && temporary == old(temporary)[..|old(temporary)| - 1] && result == old(result) + [name]
    {
      hide Post, Followed, FollowedOf, DependencyFirst, IsStack;
      FollowedFacts(packages, mode);
      Pop(G(), temporary);
      temporary := temporary[..|temporary| - 1];
      permanent := permanent + {name};
      Append(G(), result, name);
      result := result + [name];
    }

    /** The stack from `name` on, and `name` again: the cycle that gets reported. */
    method CycleAt(name: Name) returns (cycle: seq<Name>)
      requires Valid() && name in temporary && Edge(G(), temporary[|temporary| - 1], name)
      ensures IsCycle(G(), cycle) && cycle[0] == name
    {
      cycle := temporary[IndexOf(temporary, name)..] + [name];
      StackCycle(G(), temporary, IndexOf(temporary, name), name);
    }

    /** A whole plan: the roots in the given order. */
    method Plan(roots: seq<Name>) returns (outcome: Outcome)
      requires Valid() && result == [] && temporary == []
      modifies this
      ensures outcome.Done? <==> Plannable(packages, mode, roots)
      ensures outcome.Done? ==> DependencyFirst(G(), result) && forall n :: n in result <==> Needed(G(), roots, n)
      ensures outcome.Done? ==> result == PostOrder(G(), roots)
      ensures outcome.Cycle? ==> IsCycle(G(), outcome.names) && Needed(G(), roots, outcome.names[0])
      ensures outcome.Unknown? ==> outcome.name !in packages && Needed(G(), roots, outcome.name)
    {
      hide Post, Followed;
      FollowedFacts(packages, mode);
      NoRoots(G(), roots, Room());
      for i := 0 to |roots|
        invariant Valid() && temporary == [] && result == Post(G(), roots[..i], [], Room())
        invariant forall k :: 0 <= k < i ==> roots[k] in result
        invariant forall n :: n in result ==> Needed(G(), roots, n)
      {
        ghost var before := result;
        PostOne(G(), roots[..i], roots[i], [], Room());
        assert roots[..i + 1] == roots[..i] + [roots[i]];
        outcome := Visit(roots[i]);
        if !outcome.Done? {
          NotPlannable(packages, mode, roots, roots[i], outcome);
          return;
        }
        forall n | n in result
          ensures Needed(G(), roots, n)
        {
          if n !in before {
            assert roots[i] in roots && Reaches(G(), roots[i], n);
          }
        }
      }
      assert roots[..|roots|] == roots;
      Planned(packages, mode, roots, result);
      outcome := Done;
    }
  }

  /** Reachable from a root. */
  ghost predicate Needed(g: Graph, roots: seq<Name>, n: Name) {
    exists r :: r in roots && Reaches(g, r, n)
  }

  /** Everything needed is known and on no cycle. */
  ghost predicate Plannable(packages: Graph, mode: Mode, roots: seq<Name>) {
    forall n :: Needed(Followed(packages, mode), roots, n) ==> n in packages && !OnCycle(Followed(packages, mode), n)
  }

  function IndexOf(s: seq<Name>, n: Name): (i: nat)
    requires n in s
    ensures i < |s| && s[i] == n
  {
    if s[0] == n then 0 else 1 + IndexOf(s[1..], n)
  }

  lemma StackCycle(g: Graph, s: seq<Name>, i: nat, n: Name)
    requires IsStack(g, s) && i < |s| && s[i] == n && Edge(g, s[|s| - 1], n)
    ensures IsCycle(g, s[i..] + [n])
  {
    var c := s[i..] + [n];
    forall k | 0 <= k < |c| - 1
      ensures Edge(g, c[k], c[k + 1])
    {
      if k < |c| - 2 {
        assert Edge(g, s[i + k], s[i + k + 1]);
      }
    }
  }

  lemma Push(g: Graph, s: seq<Name>, n: Name)
    requires IsStack(g, s) && n in g && n !in s && (s != [] ==> Edge(g, s[|s| - 1], n))
    ensures IsStack(g, s + [n]) && Elements(s + [n]) == Elements(s) + {n}
  {
    var t := s + [n];
    forall i | 0 <= i < |t| - 1
      ensures Edge(g, t[i], t[i + 1])
    {
      if i < |s| - 1 {
        assert Edge(g, s[i], s[i + 1]);
      }
    }
  }

  lemma Append(g: Graph, order: seq<Name>, n: Name)
    requires DependencyFirst(g, order) && n in g && n !in order && forall d :: d in g[n] ==> d in order
    ensures DependencyFirst(g, order + [n]) && Elements(order + [n]) == Elements(order) + {n}
  {
    var all := order + [n];
    forall i | 0 <= i < |all|
      ensures Supported(g, all, i)
    {
      if i < |order| {
        assert Supported(g, order, i) && all[..i] == order[..i];
      } else {
        assert all[..i] == order;
      }
    }
  }

  lemma NotPlannable(packages: Graph, mode: Mode, roots: seq<Name>, root: Name, outcome: Outcome)
    requires root in roots
    requires outcome.Cycle? ==>
      IsCycle(Followed(packages, mode), outcome.names) && Reaches(Followed(packages, mode), root, outcome.names[0])
    requires outcome.Unknown? ==>
      outcome.name !in packages && Reaches(Followed(packages, mode), root, outcome.name)
    ensures outcome.Done? || !Plannable(packages, mode, roots)
    ensures outcome.Cycle? ==> Needed(Followed(packages, mode), roots, outcome.names[0])
    ensures outcome.Unknown? ==> Needed(Followed(packages, mode), roots, outcome.name)
  {
    var g := Followed(packages, mode);
    if outcome.Cycle? {
      assert Needed(g, roots, outcome.names[0]) && OnCycle(g, outcome.names[0]);
    }
    if outcome.Unknown? {
      assert Needed(g, roots, outcome.name);
    }
  }

  lemma Planned(packages: Graph, mode: Mode, roots: seq<Name>, order: seq<Name>)
    requires DependencyFirst(Followed(packages, mode), order)
    requires forall k :: 0 <= k < |roots| ==> roots[k] in order
    requires forall n :: n in order ==> Needed(Followed(packages, mode), roots, n)
    ensures Plannable(packages, mode, roots)
    ensures forall n :: n in order <==> Needed(Followed(packages, mode), roots, n)
  {
    var g := Followed(packages, mode);
    forall n | Needed(g, roots, n)
      ensures n in order && n in packages && !OnCycle(g, n)
    {
      var r :| r in roots && Reaches(g, r, n);
      OrderComplete(g, order, r, n);
    }
  }
}
