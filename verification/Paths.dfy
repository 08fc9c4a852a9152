/** The package audit's path checks: symlinks, runtime search paths, and the comparison of two payloads. */
module Paths {
  import opened Options
  import opened Texts

  const UP := ".."

  // ---- path text and its components ----

  /** The components that pathlib keeps. */
  function Kept(parts: Names): Names {
    if parts == [] then []
    else (if parts[0] == "" || parts[0] == "." then [] else [parts[0]]) + Kept(parts[1..])
  }

  function Components(s: string): Names {
    Kept(Split(s, '/'))
  }

  function Parent(s: string): Names {
    var parts := Components(s);
    if parts == [] then [] else parts[..|parts| - 1]
  }

  predicate Plain(name: string) {
    name != "" && name != "." && name != UP && '/' !in name
  }

  predicate Occurs(needle: string, text: string) {
    exists i | 0 <= i <= |text| :: needle <= text[i..]
  }

  /** Joining plain names and cutting again gives the names back. */
  lemma SplitJoin(names: Names)
    requires names != [] && forall n :: n in names ==> Plain(n)
    ensures Split(Join(names, '/'), '/') == names && Components(Join(names, '/')) == names
  {
    SplitJoined(names, '/');
    AllKept(names);
  }

  lemma {:induction false} AllKept(names: Names)
    requires forall n :: n in names ==> n != "" && n != "."
    ensures Kept(names) == names
  {
    if names != [] {
      assert names[0] in names && forall n :: n in names[1..] ==> n in names;
      AllKept(names[1..]);
    }
  }

  // ---- walks and their lexical normal form ----

  /** How deep a walk ends. */
  function Depth(walk: Names): int {
    if walk == [] then 0 else Depth(walk[..|walk| - 1]) + if walk[|walk| - 1] == UP then -1 else 1
  }

  /** No step of the walk leaves the root it starts from. */
  ghost predicate StaysInside(walk: Names) {
    forall k :: 0 <= k <= |walk| ==> Depth(walk[..k]) >= 0
  }

  /** What is left when every ".." cancels the nearest name before it, read from the end with `ups` names to cancel. */
  function Normal(walk: Names, ups: nat): Names {
    if walk == [] then []
    else
      var before, last := walk[..|walk| - 1], walk[|walk| - 1];
      if last == UP then Normal(before, ups + 1)
      else if ups > 0 then Normal(before, ups - 1)
      else Normal(before, 0) + [last]
  }

  /** Inside the root, cancelling more names drops them from the end. */
  lemma {:induction false} NormalDrops(walk: Names, ups: nat)
    requires StaysInside(walk) && ups <= Depth(walk)
    ensures |Normal(walk, 0)| == Depth(walk)
    ensures Normal(walk, ups) == Normal(walk, 0)[..Depth(walk) - ups]
  {
    if walk != [] {
      var before := walk[..|walk| - 1];
      InsideBefore(walk);
      if walk[|walk| - 1] == UP {
        NormalDrops(before, ups + 1);
        NormalDrops(before, 1);
      } else if ups > 0 {
        NormalDrops(before, ups - 1);
      } else {
        NormalDrops(before, 0);
      }
    }
  }

  lemma InsideBefore(walk: Names)
    requires walk != [] && StaysInside(walk)
    ensures StaysInside(walk[..|walk| - 1])
  {
    var before := walk[..|walk| - 1];
    forall k | 0 <= k <= |before|
      ensures Depth(before[..k]) >= 0
    {
      assert before[..k] == walk[..k];
    }
  }

  /** One more step. */
  lemma InsideMore(walk: Names, step: string)
    requires StaysInside(walk)
    ensures StaysInside(walk + [step]) <==> step != UP || Depth(walk) > 0
    ensures Normal(walk + [step], 0) == if step == UP then Normal(walk, 1) else Normal(walk, 0) + [step]
  {
    var more := walk + [step];
    assert more[..|walk|] == walk == walk[..|walk|];
    DepthMore(walk, step);
    hide Depth, Normal;
    assert more[..|more|] == more;
    forall k | 0 <= k <= |walk|
      ensures Depth(more[..k]) >= 0
    {
      assert more[..k] == walk[..k];
    }
  }

  lemma DepthMore(walk: Names, step: string)
    ensures Depth(walk + [step]) == Depth(walk) + if step == UP then -1 else 1
  {
    assert (walk + [step])[..|walk|] == walk;
  }

  lemma {:induction false} OutsideForGood(walk: Names, n: nat)
    requires n <= |walk| && !StaysInside(walk[..n])
    ensures !StaysInside(walk)
  {
    var k :| 0 <= k <= n && Depth(walk[..n][..k]) < 0;
    assert walk[..n][..k] == walk[..k];
  }

  /** A walk of names stays inside, as deep as it is long, and is its own normal form. */
  lemma {:induction false} NamesOnly(names: Names)
    requires UP !in names
    ensures StaysInside(names) && Depth(names) == |names| && Normal(names, 0) == names
  {
    if names == [] {
    } else {
      var before := names[..|names| - 1];
      NamesOnly(before);
      InsideMore(before, names[|names| - 1]);
      assert names == before + [names[|names| - 1]];
    }
  }

  /** The normal form is made of the walk's own names. */
  lemma {:induction false} NormalNames(walk: Names, ups: nat)
    ensures forall n :: n in Normal(walk, ups) ==> n in walk && n != UP
  {
    if walk != [] {
      var before, last := walk[..|walk| - 1], walk[|walk| - 1];
      NormalNames(before, if last == UP then ups + 1 else if ups > 0 then ups - 1 else 0);
    }
  }

  /** The next step leads out of the root exactly when it goes up from it, and then for good. */
  lemma StepInside(start: Names, parts: Names, i: nat)
    requires i < |parts| && StaysInside(start + parts[..i])
    ensures var here, there := Normal(start + parts[..i], 0), start + parts[..i + 1];
            if parts[i] == UP && here == [] then !StaysInside(start + parts)
            else StaysInside(there) &&
                 Normal(there, 0) == if parts[i] == UP then here[..|here| - 1] else here + [parts[i]]
  {
    var walk := start + parts[..i];
    assert walk[..|walk|] == walk;
    NormalDrops(walk, 0);
    if Depth(walk) > 0 {
      NormalDrops(walk, 1);
    }
    InsideMore(walk, parts[i]);
    assert walk + [parts[i]] == start + parts[..i + 1] == (start + parts)[..|start| + i + 1];
    if parts[i] == UP && Depth(walk) == 0 {
      OutsideForGood(start + parts, |start| + i + 1);
    }
  }

  /** Follows the parts from a directory of the package; fails as soon as one leads out of it. */
  method Walk(start: Names, parts: Names) returns (ok: bool, resolved: Names)
    requires UP !in start && "." !in parts
    ensures ok <==> StaysInside(start + parts)
    ensures ok ==> resolved == Normal(start + parts, 0) && UP !in resolved
  {
    hide Normal, StaysInside;
    resolved := start;
    NamesOnly(start);
    assert start + parts[..0] == start;
    for i := 0 to |parts|
      invariant StaysInside(start + parts[..i]) && resolved == Normal(start + parts[..i], 0)
    {
      StepInside(start, parts, i);
      if parts[i] == UP {
        if resolved == [] {
          return false, [];
        }
        resolved := resolved[..|resolved| - 1];
      } else if parts[i] != "." {
        resolved := resolved + [parts[i]];
      }
    }
    assert parts[..|parts|] == parts;
    NormalNames(start + parts, 0);
    ok := true;
  }

  // ---- symlinks ----

  const FHS_TOP_LEVEL: set<string> := {"bin", "boot", "dev", "etc", "home", "lib", "lib64", "media", "mnt", "opt",
                                       "proc", "root",
                                       "run", "sbin", "srv", "sys", "tmp", "usr", "var"}

  const BUILD_PATH_MARKERS: Names := ["/.build/", "/downloads/", "/newpacks/", "/root.incomplete/"]

  const HOST_PATH_PREFIXES: Names := ["/Applications/", "/Library/", "/System/", "/Users/", "/home/", "/nix/",
                                      "/opt/homebrew/",
                                      "/private/", "/tmp/", "/usr/local/", "/workspace/"]

  datatype Kind = Directory | File | Symlink

  datatype Entry = Entry(kind: Kind, mode: nat, digest: string, target: string)

  predicate MentionsAny(text: string, marks: Names) {
    exists m | m in marks :: Occurs(m, text)
  }

  predicate Suspect(target: string, forbidden: Names) {
    target == "" || '\0' in target || MentionsAny(target, forbidden) || MentionsAny(target, BUILD_PATH_MARKERS) ||
    MentionsAny(target, HOST_PATH_PREFIXES)
  }

  /** Where a link may lead: an absolute target goes straight down from a standard directory, a relative one stays
      inside the package all the way and ends below a standard directory. */
  ghost predicate Leads(relative: string, target: string) {
    if "/" <= target then
      UP !in Components(target) && Components(target) != [] && Components(target)[0] in FHS_TOP_LEVEL
    else
      var walk := Parent(relative) + Components(target);
      StaysInside(walk) && Normal(walk, 0) != [] && Normal(walk, 0)[0] in FHS_TOP_LEVEL
  }

  method CheckSymlink(relative: string, target: string, forbidden: Names) returns (ok: bool)
    requires UP !in Parent(relative)
    ensures ok <==> !Suspect(target, forbidden) && Leads(relative, target)
  {
    if Suspect(target, forbidden) {
      return false;
    }
    var parts := Components(target);
    NoDots(Split(target, '/'));
    if "/" <= target {
      return UP !in parts && |parts| >= 1 && parts[0] in FHS_TOP_LEVEL;
    }
    var resolved;
    ok, resolved := Walk(Parent(relative), parts);
    ok := ok && resolved != [] && resolved[0] in FHS_TOP_LEVEL;
  }

  lemma {:induction false} NoDots(parts: Names)
    ensures "." !in Kept(parts) && "" !in Kept(parts)
  {
    if parts != [] {
      NoDots(parts[1..]);
    }
  }

  /** A payload key names an entry of a directory tree. */
  predicate Key(relative: string) {
    UP !in Parent(relative)
  }

  method CheckSymlinks(payload: map<string, Entry>, forbidden: Names) returns (ok: bool)
    requires forall p :: p in payload ==> Key(p)
    ensures ok <==> forall p :: p in payload && payload[p].kind == Symlink ==>
                      !Suspect(payload[p].target, forbidden) && Leads(p, payload[p].target)
  {
    var left := payload.Keys;
    while left != {}
      invariant left <= payload.Keys
      invariant forall p :: p in payload && p !in left && payload[p].kind == Symlink ==>
                  !Suspect(payload[p].target, forbidden) && Leads(p, payload[p].target)
      decreases |left|
    {
      var p :| p in left;
      left := left - {p};
      if payload[p].kind == Symlink {
        var fine := CheckSymlink(p, payload[p].target, forbidden);
        if !fine {
          return false;
        }
      }
    }
    ok := true;
  }

  // ---- runtime search paths ----

  predicate InRuntimeTree(parts: Names) {
    parts != [] &&
    (parts[0] == "lib" || parts[0] == "lib64" ||
     (|parts| > 1 && parts[0] == "usr" && (parts[1] == "lib" || parts[1] == "lib64")))
  }

  const ORIGINS: Names := ["$ORIGIN", "${ORIGIN}"]

  /** The text after a leading origin token, if there is one. */
  function AfterOrigin(component: string, origin: string): Option<string> {
    if component == origin || origin + "/" <= component then Some(component[|origin|..]) else None
  }

  predicate Canonical(parts: Names) {
    forall i :: 0 <= i < |parts| ==> parts[i] != "" && parts[i] != "."
  }

  /** The directory a search path entry stands for: below the object's own directory, or absolute. */
  ghost function Searches(component: string, relative: string): Option<Names> {
    var after := if AfterOrigin(component, ORIGINS[0]).Some? then AfterOrigin(component, ORIGINS[0])
                 else AfterOrigin(component, ORIGINS[1]);
    if after.Some? then
      var parts := Split(after.value, '/')[1..];
      var walk := Parent(relative) + parts;
      if Canonical(parts) && StaysInside(walk) then Some(Normal(walk, 0)) else None
    else if "/" <= component then
      var parts := Split(component, '/')[1..];
      if Canonical(parts) && UP !in parts then Some(parts) else None
    else None
  }

  method CheckRuntimeComponent(component: string, relative: string) returns (ok: bool)
    requires Key(relative)
    ensures ok <==> Searches(component, relative).Some? && InRuntimeTree(Searches(component, relative).value)
  {
    var i := 0;
    var after := None;
    while i < |ORIGINS| && after == None
      invariant 0 <= i <= |ORIGINS|
      invariant after == None ==> forall k :: 0 <= k < i ==> AfterOrigin(component, ORIGINS[k]) == None
      invariant after.Some? ==> 0 < i && after == AfterOrigin(component, ORIGINS[i - 1]) &&
                                forall k :: 0 <= k < i - 1 ==> AfterOrigin(component, ORIGINS[k]) == None
    {
      after := AfterOrigin(component, ORIGINS[i]);
      i := i + 1;
    }
    if after.Some? {
      var parts := Split(after.value, '/')[1..];
      var resolved;
      ok, resolved := WalkCanonical(Parent(relative), parts);
      return ok && InRuntimeTree(resolved);
    }
    if !("/" <= component) {
      return false;
    }
    var parts := Split(component, '/')[1..];
    ok := Canonical(parts) && UP !in parts && InRuntimeTree(parts);
  }

  /** The stricter walk of a search path entry: an empty or "." part fails too. */
  method WalkCanonical(start: Names, parts: Names) returns (ok: bool, resolved: Names)
    requires UP !in start
    ensures ok <==> Canonical(parts) && StaysInside(start + parts)
    ensures ok ==> resolved == Normal(start + parts, 0)
  {
    hide Normal, StaysInside;
    resolved := start;
    NamesOnly(start);
    assert start + parts[..0] == start;
    for i := 0 to |parts|
      invariant Canonical(parts[..i])
      invariant StaysInside(start + parts[..i]) && resolved == Normal(start + parts[..i], 0)
    {
      if parts[i] == "" || parts[i] == "." {
        return false, [];
      }
      StepInside(start, parts, i);
      if parts[i] == UP {
        if resolved == [] {
          return false, [];
        }
        resolved := resolved[..|resolved| - 1];
      } else {
        resolved := resolved + [parts[i]];
      }
    }
    assert parts[..|parts|] == parts;
    ok := true;
  }

  /** An entry relative to the object's directory is accepted exactly when its normal form, spelled absolutely, is. */
  lemma OriginAsAbsolute(component: string, relative: string)
    requires forall n :: n in Parent(relative) ==> Plain(n)
    requires Searches(component, relative).Some? && Searches(component, relative).value != []
    ensures var spelled := "/" + Join(Searches(component, relative).value, '/');
            Searches(spelled, relative) == Searches(component, relative)
  {
    hide Normal, StaysInside, Split, Join;
    var found := Searches(component, relative).value;
    SearchedPlain(component, relative);
    SplitJoin(found);
    var spelled := "/" + Join(found, '/');
    SplitName("", Join(found, '/'), '/');
    assert spelled == "" + "/" + Join(found, '/');
    assert Split(spelled, '/')[1..] == found;
    NotOrigin(spelled);
    assert forall i :: 0 <= i < |found| ==> found[i] in found;
  }

  lemma NotOrigin(component: string)
    requires component != "" && component[0] == '/'
    ensures AfterOrigin(component, ORIGINS[0]).None? && AfterOrigin(component, ORIGINS[1]).None?
  {
    assert ORIGINS[0][0] == '$' && ORIGINS[1][0] == '$';
    assert (ORIGINS[0] + "/")[0] == '$' && (ORIGINS[1] + "/")[0] == '$';
  }

  lemma SearchedPlain(component: string, relative: string)
    requires forall n :: n in Parent(relative) ==> Plain(n)
    requires Searches(component, relative).Some?
    ensures forall n :: n in Searches(component, relative).value ==> Plain(n)
  {
    hide Normal, StaysInside, Split;
    var after := if AfterOrigin(component, ORIGINS[0]).Some? then AfterOrigin(component, ORIGINS[0])
                 else AfterOrigin(component, ORIGINS[1]);
    var text := if after.Some? then after.value else component;
    NoSeparator(text, '/');
    NormalNames(Parent(relative) + Split(text, '/')[1..], 0);
  }

  // ---- the archive against the installed root ----

  /** The same paths with the same kind and mode, the same content for files, the same target for links. */
  ghost predicate Same(root: map<string, Entry>, archive: map<string, Entry>) {
    root.Keys == archive.Keys && forall p :: p in root ==> Alike(root[p], archive[p])
  }

  predicate Alike(a: Entry, b: Entry) {
    a.kind == b.kind && a.mode == b.mode && (a.kind == File ==> a.digest == b.digest) &&
    (a.kind == Symlink ==> a.target == b.target)
  }

  /** Only files have digests, and only links have targets. */
  ghost predicate Proper(payload: map<string, Entry>) {
    forall p :: p in payload ==>
      (payload[p].kind != File ==> payload[p].digest == "") && (payload[p].kind != Symlink ==> payload[p].target == "")
  }

  method ComparePayloads(root: map<string, Entry>, archive: map<string, Entry>) returns (ok: bool)
    ensures ok <==> Same(root, archive)
    ensures Proper(root) && Proper(archive) ==> (ok <==> root == archive)
  {
    if root.Keys - archive.Keys != {} || archive.Keys - root.Keys != {} {
      var p :| p in (root.Keys - archive.Keys) + (archive.Keys - root.Keys);
      return false;
    }
    assert root.Keys == archive.Keys;
    var left := root.Keys;
    while left != {}
      invariant left <= root.Keys
      invariant forall p :: p in root && p !in left ==> Alike(root[p], archive[p])
      decreases |left|
    {
      var p :| p in left;
      left := left - {p};
      var expected, actual := root[p], archive[p];
      if expected.kind != actual.kind || expected.mode != actual.mode {
        return false;
      }
      if expected.kind == File && expected.digest != actual.digest {
        return false;
      }
      if expected.kind == Symlink && expected.target != actual.target {
        return false;
      }
    }
    ok := true;
  }
}
