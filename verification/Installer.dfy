/** The installer's loop over a resolved plan: cached archives, repository fallback, digest checks. */
module Installers {
  import opened Graphs
  import opened Planners
  import opened Dependencies

  type Bytes = seq<int>

  /** One download: the bytes that arrived, or an HTTP or I/O error. */
  datatype Fetch = Arrived(bytes: Bytes) | Error

  datatype Contact = Contact(repository: string, failed: bool)

  datatype Extraction = Extraction(package: Package, archive: Bytes)

  function FileName(p: Package): string {
    p.name + "-" + p.version + "-" + p.architecture + ".pup"
  }

  /** The repositories that were asked, in order. */
  function Asked(contacts: seq<Contact>): (r: seq<string>)
    ensures |r| == |contacts|
  {
    if contacts == [] then []
    else Asked(contacts[..|contacts| - 1]) + [contacts[|contacts| - 1].repository]
  }

  /** The repositories to ask, in order, when each one that fails is banned. */
  function Untried(repositories: seq<string>, banned: set<string>): seq<string> {
    if repositories == [] then []
    else if repositories[0] in banned then Untried(repositories[1..], banned)
    else [repositories[0]] + Untried(repositories[1..], banned + {repositories[0]})
  }

  /** The first of those to ask, all of them if none succeeds; each failed but the last of a success. */
  ghost predicate TriedInOrder(tried: seq<Contact>, untried: seq<string>, ok: bool) {
    Asked(tried) <= untried && (if ok then tried != [] else Asked(tried) == untried) &&
    forall i :: 0 <= i < |tried| ==> (tried[i].failed <==> !ok || i < |tried| - 1)
  }

  lemma NobodyAsked()
    ensures Asked([]) == []
  {
  }

  lemma NoRepository(banned: set<string>)
    ensures Untried([], banned) == []
  {
  }

  lemma NextRepository(repositories: seq<string>, i: nat, banned: set<string>)
    requires i < |repositories|
    ensures var r, rest := repositories[i], repositories[i + 1..];
            Untried(repositories[i..], banned) ==
            if r in banned then Untried(rest, banned) else [r] + Untried(rest, banned + {r})
  {
    assert repositories[i..][1..] == repositories[i + 1..];
  }

  class Installer {
    const digest: Bytes -> string
    const repositories: seq<string>
    /** What the n-th download of the run returns, whatever the repositories do. */
    const fetches: nat -> Fetch
    var cache: map<string, Bytes>
    var banned: set<string>
    var contacts: seq<Contact>
    var extracted: seq<Extraction>

    constructor (digest: Bytes -> string, repositories: seq<string>, fetches: nat -> Fetch, cache: map<string, Bytes>)
      ensures this.digest == digest && this.repositories == repositories && this.fetches == fetches
      ensures this.cache == cache && banned == {} && contacts == [] && extracted == []
    {
      this.digest, this.repositories, this.fetches, this.cache := digest, repositories, fetches, cache;
      banned, contacts, extracted := {}, [], [];
    }

    predicate Matches(file: string, sha1: string)
      requires file in cache
      reads this
    {
      digest(cache[file]) == sha1
    }

    /** The banned repositories are those that failed, and no repository was contacted after it failed. */
    ghost predicate Valid()
      reads this`banned, this`contacts
    {
      (forall r :: r in banned <==> exists i :: 0 <= i < |contacts| && contacts[i] == Contact(r, true)) &&
      forall i, j :: 0 <= i < j < |contacts| && contacts[i].failed ==>
        contacts[j].repository != contacts[i].repository
    }

    /** Contacts a repository that has not failed, and files the archive if its digest is right. */
    method Download(repository: string, file: string, sha1: string) returns (ok: bool)
      requires Valid() && repository !in banned
      modifies this`cache, this`banned, this`contacts
      ensures Valid() && contacts == old(contacts) + [Contact(repository, !ok)]
      ensures banned == if ok then old(banned) else old(banned) + {repository}
      ensures ok <==> var f := fetches(|old(contacts)|); f.Arrived? && digest(f.bytes) == sha1
      ensures cache == if ok then old(cache)[file := fetches(|old(contacts)|).bytes] else old(cache) - {file}
    {
      var fetch := fetches(|contacts|);
      ok := false;
      if fetch.Arrived? {
        cache := cache[file := fetch.bytes];
        ok := Matches(file, sha1);
      }
      if !ok {
        cache := cache - {file};
        banned := banned + {repository};
      }
      ghost var before := contacts;
      contacts := contacts + [Contact(repository, !ok)];
      forall r
        ensures r in banned <==> exists i :: 0 <= i < |contacts| && contacts[i] == Contact(r, true)
      {
        if r in old(banned) {
          var i :| 0 <= i < |before| && before[i] == Contact(r, true);
          assert contacts[i] == Contact(r, true);
        }
        if r == repository && !ok {
          assert contacts[|before|] == Contact(r, true);
        }
      }
    }

    /** Asks the repositories that have not failed, in order, until one has the archive. */
    method TryRepositories(file: string, sha1: string) returns (ok: bool, ghost tried: seq<Contact>)
      requires Valid() && file !in cache
      modifies this`cache, this`banned, this`contacts
      ensures Valid() && contacts == old(contacts) + tried && old(banned) <= banned
      ensures ok <==> file in cache
      ensures ok ==> digest(cache[file]) == sha1
      ensures !ok ==> forall r :: r in repositories ==> r in banned
      ensures cache - {file} == old(cache)
      ensures TriedInOrder(tried, Untried(repositories, old(banned)), ok)
    {
      hide Valid, Untried, Asked;
      tried := [];
      assert repositories[0..] == repositories && contacts == contacts + [];
      NobodyAsked();
      for i := 0 to |repositories|
        invariant Valid() && contacts == old(contacts) + tried && old(banned) <= banned
        invariant file !in cache && cache == old(cache)
        invariant forall k :: 0 <= k < i ==> repositories[k] in banned
        invariant Untried(repositories, old(banned)) == Asked(tried) + Untried(repositories[i..], banned)
        invariant forall k :: 0 <= k < |tried| ==> tried[k].failed
      {
        NextRepository(repositories, i, banned);
        if repositories[i] in banned {
          continue;
        }
        ghost var before, rest := tried, Untried(repositories[i + 1..], banned + {repositories[i]});
        ok := Download(repositories[i], file, sha1);
        tried := tried + [Contact(repositories[i], !ok)];
        OneMoreAsked(before, Contact(repositories[i], !ok));
        assert Asked(before) + ([repositories[i]] + rest) == Asked(tried) + rest;
        if ok {
          return;
        }
      }
      NoRepository(banned);
      assert repositories[|repositories|..] == [];
      ok := false;
    }

    /** Makes sure the package's archive is in the cache with the catalogue's digest. */
    method Provide(package: Package) returns (ok: bool, ghost tried: seq<Contact>)
      requires Valid()
      modifies this`cache, this`banned, this`contacts
      ensures Valid() && contacts == old(contacts) + tried && old(banned) <= banned
      ensures ok <==> FileName(package) in cache
      ensures ok <==> package.name + "-" + package.version + "-" + package.architecture + ".pup" in cache
      ensures ok ==> digest(cache[FileName(package)]) == package.sha1
      ensures !ok ==> forall r :: r in repositories ==> r in banned
      ensures if FileName(package) in old(cache) && digest(old(cache)[FileName(package)]) == package.sha1
              then tried == [] && cache == old(cache)
              else TriedInOrder(tried, Untried(repositories, old(banned)), ok)
      ensures cache - {FileName(package)} == old(cache) - {FileName(package)}
    {
      var file := FileName(package);
      var download := true;
      if file in cache {
        download := !Matches(file, package.sha1);
      }
      tried := [];
      if download {
        cache := cache - {file};
        ok, tried := TryRepositories(file, package.sha1);
      }
      ok := file in cache;
    }

    /** Installs a plan in order. Extracts an archive only when its digest is the catalogue's, never skips a
        package, and gives up only when every repository has failed. */
    method Run(packages: seq<Package>) returns (ok: bool)
      requires Valid() && extracted == []
      modifies this
      ensures Valid() && old(contacts) <= contacts
      ensures |extracted| <= |packages| && forall i :: 0 <= i < |extracted| ==>
                extracted[i].package == packages[i] && digest(extracted[i].archive) == packages[i].sha1
      ensures ok <==> |extracted| == |packages|
      ensures !ok ==> forall r :: r in repositories ==> r in banned
    {
      for k := 0 to |packages|
        invariant Valid() && old(contacts) <= contacts && |extracted| == k
        invariant forall i :: 0 <= i < k ==>
                    extracted[i].package == packages[i] && digest(extracted[i].archive) == packages[i].sha1
      {
        ghost var tried;
        ok, tried := Provide(packages[k]);
        if !ok {
          return;
        }
        extracted := extracted + [Extraction(packages[k], cache[FileName(packages[k])])];
      }
      ok := true;
    }
  }

  lemma OneMoreAsked(asked: seq<Contact>, last: Contact)
    ensures Asked(asked + [last]) == Asked(asked) + [last.repository]
  {
    assert (asked + [last])[..|asked|] == asked;
  }

  /** A whole installation: resolve, then run the plan. */
  method Install(names: seq<string>, database: Database, architecture: string, includeDependencies: bool,
                 installer: Installer)
    returns (outcome: Outcome, ok: bool, ghost plan: seq<string>)
    requires installer.Valid() && installer.extracted == []
    modifies installer
    ensures installer.Valid()
    ensures ok ==> outcome.Done? && |installer.extracted| == |plan|
    ensures !outcome.Done? ==> !ok && installer.extracted == [] && installer.contacts == old(installer.contacts)
    ensures outcome.Done? ==>
      |installer.extracted| <= |plan| && forall i :: 0 <= i < |installer.extracted| ==>
        ExtractedInOrder(database, Followed(DatabaseGraph(database, architecture), ModeFor(includeDependencies)), plan,
                         installer.extracted, installer.digest, i)
    ensures outcome.Done? && includeDependencies ==>
      forall i :: 0 <= i < |installer.extracted| ==> AfterItsOwn(database, architecture, installer.extracted, i)
    ensures ok ==> forall n :: n in names ==> Extracted(database, n + "-" + architecture, installer.extracted)
  {
    var packages;
    outcome, plan, packages := ResolvePackages(names, database, architecture, includeDependencies);
    if !outcome.Done? {
      return outcome, false, plan;
    }
    ok := installer.Run(packages);
    hide Followed, DatabaseGraph, DependencyFirst, Resolved, PlanOf, ExtractedInOrder, AfterItsOwn, Extracted;
    InPlanOrder(database, Followed(DatabaseGraph(database, architecture), ModeFor(includeDependencies)),
                Keys(names, architecture), plan, installer.extracted, installer.digest);
    Arrived(names, database, architecture, includeDependencies, plan, installer.extracted);
  }

  lemma InPlanOrder(database: Database, g: Graph, roots: seq<string>, plan: seq<string>, extracted: seq<Extraction>,
                    digest: Bytes -> string)
    requires PlanOf(g, roots, database, Done, plan) && |extracted| <= |plan|
    requires forall i :: 0 <= i < |plan| ==> plan[i] in database
    requires forall i :: 0 <= i < |extracted| ==>
               extracted[i].package == database[plan[i]] && digest(extracted[i].archive) == database[plan[i]].sha1
    ensures forall i :: 0 <= i < |extracted| ==> ExtractedInOrder(database, g, plan, extracted, digest, i)
  {
    forall i | 0 <= i < |extracted|
      ensures ExtractedInOrder(database, g, plan, extracted, digest, i)
    {
      assert Supported(g, plan, i);
    }
  }

  /** The archive of the package under this key has been extracted. */
  ghost predicate Extracted(database: Database, key: string, extracted: seq<Extraction>) {
    key in database && exists j :: 0 <= j < |extracted| && extracted[j].package == database[key]
  }

  /** Whatever the i-th package depends on was extracted before it. */
  ghost predicate AfterItsOwn(database: Database, architecture: string, extracted: seq<Extraction>, i: nat)
    requires i < |extracted|
  {
    forall d :: d in extracted[i].package.dependencies ==>
      Extracted(database, d + "-" + architecture, extracted[..i])
  }

  lemma Arrived(names: seq<string>, database: Database, architecture: string, includeDependencies: bool,
                plan: seq<string>, extracted: seq<Extraction>)
    requires Resolved(database, architecture, includeDependencies, names, Done, plan) && |extracted| <= |plan|
    requires forall i :: 0 <= i < |plan| ==> plan[i] in database
    requires forall i :: 0 <= i < |extracted| ==> extracted[i].package == database[plan[i]]
    ensures includeDependencies ==>
      forall i :: 0 <= i < |extracted| ==> AfterItsOwn(database, architecture, extracted, i)
    ensures |extracted| == |plan| ==>
      forall n :: n in names ==> Extracted(database, n + "-" + architecture, extracted)
  {
    forall i, d | includeDependencies && 0 <= i < |extracted| && d in extracted[i].package.dependencies
      ensures Extracted(database, d + "-" + architecture, extracted[..i])
    {
      assert Supplied(database, architecture, plan, i);
      var j :| 0 <= j < i && plan[..i][j] == d + "-" + architecture;
      assert extracted[..i][j].package == database[plan[j]];
    }
    forall n | |extracted| == |plan| && n in names
      ensures Extracted(database, n + "-" + architecture, extracted)
    {
      var j :| 0 <= j < |plan| && plan[j] == n + "-" + architecture;
      assert extracted[j].package == database[plan[j]];
    }
  }

  /** Extraction `i` is the catalogue's package, has the catalogue's digest, and everything it depends on was extracted
      before. */
  ghost predicate ExtractedInOrder(database: Database, g: Graph, plan: seq<string>, extracted: seq<Extraction>,
                                   digest: Bytes -> string, i: nat)
    requires i < |extracted| <= |plan|
  {
    plan[i] in database && plan[i] in g && extracted[i].package == database[plan[i]] &&
    digest(extracted[i].archive) == database[plan[i]].sha1 &&
    forall d :: d in g[plan[i]] ==> d in plan[..i]
  }
}
