/** De-duplicating a catalogue: one package of every group, the latest. */
module Catalogue {
  import opened Options
  import opened Versions
  import opened VersionKinds
  import opened VersionSpellings

  datatype Package = Package(name: string, architecture: string, version: string)

  function Key(p: Package): string {
    p.name + "-" + p.architecture
  }

  function Compare(u: Unicode, left: Package, right: Package): int {
    VersionCmp(u, left.version, right.version, Some(left.name))
  }

  /** Compared by the same rules, and either all numeric or such that any two numeric versions fit. */
  ghost predicate Uniform(u: Unicode, group: seq<Package>) {
    (forall p, q :: p in group && q in group ==> IsSqlite(u, Some(p.name)) == IsSqlite(u, Some(q.name))) &&
    ((forall p :: p in group ==> IsNumeric(u, p.version)) ||
     forall p, q :: p in group && q in group && IsNumeric(u, p.version) && IsNumeric(u, q.version) ==>
       FitTogether(u, p, q))
  }

  ghost predicate FitTogether(u: Unicode, p: Package, q: Package)
    requires IsNumeric(u, p.version) && IsNumeric(u, q.version)
  {
    PlainAscii(u) && Fits(Strip(p.version, u.blank), Strip(q.version, u.blank), IsSqlite(u, Some(p.name)))
  }

  function Group(packages: seq<Package>, key: string): seq<Package> {
    if packages == [] then []
    else
      var n := |packages| - 1;
      Group(packages[..n], key) + if Key(packages[n]) == key then [packages[n]] else []
  }

  lemma {:induction false} GroupMembers(packages: seq<Package>, key: string)
    ensures forall p :: p in Group(packages, key) <==> p in packages && p.name + "-" + p.architecture == key
  {
    if packages != [] {
      var n := |packages| - 1;
      GroupMembers(packages[..n], key);
      assert packages == packages[..n] + [packages[n]];
    }
  }

  /** Within a uniform group the comparison is a total preorder of packages. */
  lemma GroupOrder(u: Unicode, group: seq<Package>, x: Package, y: Package, z: Package)
    requires Uniform(u, group) && x in group && y in group && z in group
    ensures Compare(u, x, y) == -Compare(u, y, x)
    ensures Compare(u, x, y) <= 0 && Compare(u, y, z) <= 0 ==> Compare(u, x, z) <= 0
  {
    SameRules(u, x, y);
    Antisymmetric(u, x.version, y.version, Some(x.name));
    SameRules(u, y, x);
    OtherRules(u, x, y, z.version);
    GroupChain(u, group, x, y, z);
  }

  lemma GroupChain(u: Unicode, group: seq<Package>, x: Package, y: Package, z: Package)
    requires Uniform(u, group) && x in group && y in group && z in group
    ensures Chain(u, x.version, y.version, z.version, Some(x.name))
  {
    hide VersionCmp, Agreeing, IsSqlite;
    if forall p :: p in group ==> IsNumeric(u, p.version) {
      if VersionCmp(u, x.version, y.version, Some(x.name)) <= 0 &&
         VersionCmp(u, y.version, z.version, Some(x.name)) <= 0 {
        Transitive(u, x.version, y.version, z.version, Some(x.name));
      }
    } else {
      hide IsNumeric;
      GroupAgrees(u, group, x, x, y);
      GroupAgrees(u, group, x, y, z);
      GroupAgrees(u, group, x, x, z);
      ChainByNature(u, x.version, y.version, z.version, Some(x.name));
    }
  }

  lemma GroupAgrees(u: Unicode, group: seq<Package>, x: Package, p: Package, q: Package)
    requires Uniform(u, group) && x in group && p in group && q in group
    requires !forall r :: r in group ==> IsNumeric(u, r.version)
    ensures Agreeing(u, p.version, q.version, Some(x.name))
  {
    hide Agreeing, IsSqlite, IsNumeric;
    if IsNumeric(u, p.version) && IsNumeric(u, q.version) {
      assert FitTogether(u, p, q);
      assert IsSqlite(u, Some(p.name)) == IsSqlite(u, Some(x.name));
      FitsIff(u, p.version, q.version, Some(x.name));
    } else if IsNumeric(u, q.version) {
      OtherAgreeing(u, q.version, p.version, Some(x.name));
    } else {
      OtherAgreeing(u, p.version, q.version, Some(x.name));
    }
  }

  lemma SameRules(u: Unicode, p: Package, q: Package)
    requires IsSqlite(u, Some(p.name)) == IsSqlite(u, Some(q.name))
    ensures Compare(u, p, q) == VersionCmp(u, p.version, q.version, Some(q.name))
  {
  }

  lemma OtherRules(u: Unicode, p: Package, q: Package, version: string)
    requires IsSqlite(u, Some(p.name)) == IsSqlite(u, Some(q.name))
    ensures VersionCmp(u, q.version, version, Some(p.name)) == VersionCmp(u, q.version, version, Some(q.name))
  {
  }

  /** Two latest packages of a uniform group compare equal: the order they arrive in does not change the version
      chosen. */
  lemma LatestAgree(u: Unicode, group: seq<Package>, p: Package, q: Package)
    requires Uniform(u, group) && p in group && q in group
    requires forall r :: r in group ==> Compare(u, p, r) >= 0 && Compare(u, q, r) >= 0
    ensures Compare(u, p, q) == 0
  {
    GroupOrder(u, group, p, q, q);
  }

  lemma Overtakes(u: Unicode, group: seq<Package>, best: Package, next: Package, x: Package)
    requires Uniform(u, group) && best in group && next in group && x in group
    ensures Compare(u, next, best) <= 0 ==> Compare(u, best, next) >= 0
    ensures Compare(u, next, best) > 0 && Compare(u, best, x) >= 0 ==> Compare(u, next, x) > 0
  {
    hide Compare, Uniform;
    GroupOrder(u, group, next, x, best);
    GroupOrder(u, group, x, best, next);
    GroupOrder(u, group, best, next, x);
  }

  /** The first of the latest, which is what a stable descending sort puts first. */
  method Latest(u: Unicode, versions: seq<Package>) returns (best: Package)
    requires versions != []
    ensures best in versions
    ensures Uniform(u, versions) ==> IsLatest(u, versions, best)
  {
    hide Compare, Uniform;
    best := versions[0];
    ghost var k := 0;
    if Uniform(u, versions) {
      GroupOrder(u, versions, best, best, best);
    }
    for i := 1 to |versions|
      invariant 0 <= k < i && best == versions[k]
      invariant Uniform(u, versions) ==> forall j :: 0 <= j < i ==> Compare(u, best, versions[j]) >= 0
      invariant Uniform(u, versions) ==> forall j :: 0 <= j < k ==> Compare(u, best, versions[j]) > 0
    {
      var next := versions[i];
      if Uniform(u, versions) {
        Overtakes(u, versions, best, next, best);
        forall j | 0 <= j < i
          ensures Compare(u, next, best) > 0 ==> Compare(u, next, versions[j]) > 0
        {
          Overtakes(u, versions, best, next, versions[j]);
        }
        GroupOrder(u, versions, next, next, next);
      }
      if Compare(u, next, best) > 0 {
        best, k := next, i;
      }
    }
    assert forall p :: p in versions ==> exists j :: 0 <= j < |versions| && versions[j] == p;
  }

  /** At least every other, and the first such. */
  ghost predicate IsLatest(u: Unicode, group: seq<Package>, best: Package) {
    (forall p :: p in group ==> Compare(u, best, p) >= 0) &&
    exists k :: 0 <= k < |group| && best == group[k] && forall j :: 0 <= j < k ==> Compare(u, best, group[j]) > 0
  }

  ghost predicate ByName(packages: seq<Package>) {
    forall i, j :: 0 <= i < j < |packages| ==> CompareTexts(packages[i].name, packages[j].name) <= 0
  }

  ghost predicate OnePerKey(packages: seq<Package>) {
    forall i, j :: 0 <= i < j < |packages| ==> Key(packages[i]) != Key(packages[j])
  }

  /** The latest of its group, if the group's versions are of one kind. */
  ghost predicate Chosen(u: Unicode, packages: seq<Package>, r: Package) {
    r in packages && (Uniform(u, Group(packages, Key(r))) ==> IsLatest(u, Group(packages, Key(r)), r))
  }

  /** One package for every key, each the latest of its group, by name. */
  method DedupPackages(u: Unicode, packages: seq<Package>) returns (result: seq<Package>)
    ensures OnePerKey(result) && ByName(result)
    ensures forall p :: p in packages ==> exists r :: r in result && Key(r) == Key(p)
    ensures forall r :: r in result ==> Chosen(u, packages, r)
    ensures forall p :: p in packages ==>
              exists r :: r in result && r.name + "-" + r.architecture == p.name + "-" + p.architecture
    ensures forall i, j :: 0 <= i < j < |result| ==>
              result[i].name + "-" + result[i].architecture != result[j].name + "-" + result[j].architecture
    ensures forall r, p :: r in result && p in packages && Rivals(u, packages, r, p) ==>
              VersionCmp(u, r.version, p.version, Some(r.name)) >= 0
  {
    hide Uniform, IsLatest, Group, Key, ByName;
    var keys, groups := GroupPackages(packages);
    Spelled(packages);
    result := [];
    for i := 0 to |keys|
      invariant |result| == i && OnePerKey(result)
      invariant forall j :: 0 <= j < i ==> Key(result[j]) == keys[j] && Chosen(u, packages, result[j])
    {
      assert keys[i] in keys;
      GroupMembers(packages, keys[i]);
      var best := Latest(u, groups[keys[i]]);
      result := result + [best];
    }
    forall p | p in packages
      ensures exists r :: r in result && Key(r) == Key(p)
    {
      var j :| 0 <= j < |keys| && keys[j] == Key(p);
      assert result[j] in result;
    }
    ghost var chosen := result;
    result := SortByName(result);
    SameMembers(chosen, result);
    Spelled(result);
    forall r, p | r in result && p in packages && Rivals(u, packages, r, p)
      ensures VersionCmp(u, r.version, p.version, Some(r.name)) >= 0
    {
      LatestVersion(u, packages, r, p);
    }
  }

  /** Packages of one name and architecture, in a group that has a latest. */
  ghost predicate Rivals(u: Unicode, packages: seq<Package>, r: Package, p: Package) {
    r.name + "-" + r.architecture == p.name + "-" + p.architecture && Uniform(u, Group(packages, Key(r)))
  }

  lemma Spelled(packages: seq<Package>)
    ensures forall p :: p in packages ==> Key(p) == p.name + "-" + p.architecture
  {
  }

  lemma LatestVersion(u: Unicode, packages: seq<Package>, r: Package, p: Package)
    requires Chosen(u, packages, r) && p in packages && Rivals(u, packages, r, p)
    ensures VersionCmp(u, r.version, p.version, Some(r.name)) >= 0
  {
    hide Uniform, VersionCmp;
    GroupMembers(packages, Key(r));
  }

  lemma SameMembers(a: seq<Package>, b: seq<Package>)
    requires multiset(a) == multiset(b)
    ensures forall p :: p in a <==> p in b
  {
    assert forall p :: p in a <==> p in multiset(a);
    assert forall p :: p in b <==> p in multiset(b);
  }

  ghost predicate Grouped(packages: seq<Package>, keys: seq<string>, groups: map<string, seq<Package>>) {
    (forall a, b :: 0 <= a < b < |keys| ==> keys[a] != keys[b]) && (forall k :: k in keys <==> k in groups) &&
    (forall k :: k in groups ==> groups[k] == Group(packages, k) && groups[k] != []) &&
    forall p :: p in packages ==> Key(p) in groups
  }

  lemma GroupedMore(packages: seq<Package>, p: Package, keys: seq<string>, groups: map<string, seq<Package>>)
    requires Grouped(packages, keys, groups)
    ensures var key := Key(p);
            if key in groups then Grouped(packages + [p], keys, groups[key := groups[key] + [p]])
            else Grouped(packages + [p], keys + [key], groups[key := [p]])
  {
    hide Key, Group;
    var key := Key(p);
    forall k
      ensures Group(packages + [p], k) == Group(packages, k) + if key == k then [p] else []
    {
      GroupMore(packages, p, k);
    }
    if key !in groups {
      EmptyGroup(packages, key);
    }
  }

  lemma GroupMore(packages: seq<Package>, p: Package, key: string)
    ensures Group(packages + [p], key) == Group(packages, key) + if Key(p) == key then [p] else []
  {
    assert (packages + [p])[..|packages|] == packages;
  }

  lemma {:induction false} EmptyGroup(packages: seq<Package>, key: string)
    requires forall p :: p in packages ==> Key(p) != key
    ensures Group(packages, key) == []
  {
    if packages != [] {
      EmptyGroup(packages[..|packages| - 1], key);
    }
  }

  /** The packages under each key, keys in order of first appearance. */
  method GroupPackages(packages: seq<Package>) returns (keys: seq<string>, groups: map<string, seq<Package>>)
    ensures Grouped(packages, keys, groups)
  {
    keys, groups := [], map[];
    assert packages[..0] == [];
    for i := 0 to |packages|
      invariant Grouped(packages[..i], keys, groups)
    {
      var key := Key(packages[i]);
      GroupedMore(packages[..i], packages[i], keys, groups);
      hide Grouped, Group, Key;
      assert packages[..i + 1] == packages[..i] + [packages[i]];
      if key in groups {
        groups := groups[key := groups[key] + [packages[i]]];
      } else {
        keys, groups := keys + [key], groups[key := [packages[i]]];
      }
    }
    assert packages[..|packages|] == packages;
  }

  method SortByName(packages: seq<Package>) returns (result: seq<Package>)
    ensures ByName(result) && multiset(result) == multiset(packages)
    ensures OnePerKey(packages) ==> OnePerKey(result)
  {
    result := [];
    for i := 0 to |packages|
      invariant ByName(result) && multiset(result) == multiset(packages[..i])
      invariant OnePerKey(packages) ==> OnePerKey(result)
    {
      hide ByName, OnePerKey;
      OtherKeys(packages, i, result);
      result := InsertByName(result, packages[i]);
      assert packages[..i + 1] == packages[..i] + [packages[i]];
    }
    assert packages[..|packages|] == packages;
  }

  lemma OtherKeys(packages: seq<Package>, i: nat, before: seq<Package>)
    requires i < |packages| && multiset(before) == multiset(packages[..i])
    ensures OnePerKey(packages) ==> forall q :: q in before ==> Key(q) != Key(packages[i])
  {
    hide Key;
    SameMembers(before, packages[..i]);
  }

  /** After every package whose name is not greater. */
  method InsertByName(packages: seq<Package>, p: Package) returns (result: seq<Package>)
    requires ByName(packages)
    ensures ByName(result) && multiset(result) == multiset(packages) + multiset{p}
    ensures OnePerKey(packages) && (forall q :: q in packages ==> Key(q) != Key(p)) ==> OnePerKey(result)
  {
    hide CompareTexts, Key;
    var i := |packages|;
    while i > 0 && CompareTexts(p.name, packages[i - 1].name) < 0
      invariant 0 <= i <= |packages|
      invariant forall j :: i <= j < |packages| ==> CompareTexts(p.name, packages[j].name) < 0
    {
      i := i - 1;
    }
    if i > 0 {
      TextsOpposite(packages[i - 1].name, p.name);
    }
    Inserted(packages, i, p);
    result := packages[..i] + [p] + packages[i..];
    assert packages == packages[..i] + packages[i..];
  }

  lemma Inserted(packages: seq<Package>, i: nat, p: Package)
    requires ByName(packages) && i <= |packages|
    requires i > 0 ==> CompareTexts(packages[i - 1].name, p.name) <= 0
    requires forall j :: i <= j < |packages| ==> CompareTexts(p.name, packages[j].name) < 0
    ensures var result := packages[..i] + [p] + packages[i..];
            ByName(result) &&
            (OnePerKey(packages) && (forall q :: q in packages ==> Key(q) != Key(p)) ==>
               OnePerKey(result))
  {
    hide CompareTexts, Key;
    forall j | 0 <= j < i - 1
      ensures CompareTexts(packages[j].name, p.name) <= 0
    {
      TextsChain(packages[j].name, packages[i - 1].name, p.name);
    }
  }

  lemma TextsChain(a: string, b: string, c: string)
    requires CompareTexts(a, b) <= 0 && CompareTexts(b, c) <= 0
    ensures CompareTexts(a, c) <= 0
  {
    CharsOrder();
    LexChain(CompareChars, a, b, c);
  }
}
