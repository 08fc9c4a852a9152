/** The path checks told of the texts themselves: links and targets as names with slashes between them. */
module PathTexts {
  import opened Options
  import opened Texts
  import opened Paths

  /** The path of an entry `last` in the directory of these names. */
  function PathOf(names: Names, last: string): string {
    Join(names + [last], '/')
  }

  ghost predicate AllPlain(names: Names) {
    forall n :: n in names ==> Plain(n)
  }

  /** A link is looked at from the directory that holds it. */
  lemma ParentOf(names: Names, last: string)
    requires AllPlain(names) && Plain(last)
    ensures Parent(PathOf(names, last)) == names
  {
    SplitJoin(names + [last]);
  }

  // ---- relative targets ----

  /** How far the parts of a target lead down, or up; empty and "." parts lead nowhere. */
  function Descent(parts: Names): int {
    if parts == [] then 0
    else
      Descent(parts[..|parts| - 1]) +
      (var last := parts[|parts| - 1]; if last == ".." then -1 else if last == "" || last == "." then 0 else 1)
  }

  lemma {:induction false} KeptMore(parts: Names, last: string)
    ensures Paths.Kept(parts + [last]) == Paths.Kept(parts) + if last == "" || last == "." then [] else [last]
  {
    if parts != [] {
      assert (parts + [last])[1..] == parts[1..] + [last];
      KeptMore(parts[1..], last);
    } else {
      assert [last][1..] == [];
    }
  }

  /** Following a target never leaves the root exactly when no part of it climbs above the link's directory. */
  lemma {:induction false} StaysIff(names: Names, parts: Names)
    requires AllPlain(names)
    ensures StaysInside(names + Paths.Kept(parts)) <==>
            forall k :: 0 <= k <= |parts| ==> |names| + Descent(parts[..k]) >= 0
    ensures Depth(names + Paths.Kept(parts)) == |names| + Descent(parts)
  {
    if parts == [] {
      assert names + Paths.Kept(parts) == names;
      NamesOnly(names);
    } else {
      var n := |parts| - 1;
      var before, last := parts[..n], parts[n];
      assert parts == before + [last];
      StaysIff(names, before);
      KeptMore(before, last);
      SameDescent(before, last);
      hide Depth, StaysInside, Paths.Kept, Descent;
      var walk := names + Paths.Kept(before);
      if last == "" || last == "." {
        assert names + Paths.Kept(parts) == walk;
      } else {
        assert names + Paths.Kept(parts) == walk + [last];
        OneMore(walk, last);
      }
      Prefixes(before, last, |names|);
    }
  }

  lemma Prefixes(before: Names, last: string, start: nat)
    ensures (forall k :: 0 <= k <= |before| + 1 ==> start + Descent((before + [last])[..k]) >= 0) <==>
            (forall k :: 0 <= k <= |before| ==> start + Descent(before[..k]) >= 0) &&
            start + Descent(before + [last]) >= 0
    ensures (forall k :: 0 <= k <= |before| ==> start + Descent(before[..k]) >= 0) ==> start + Descent(before) >= 0
  {
    hide Descent;
    assert before[..|before|] == before;
    var parts := before + [last];
    assert parts[..|parts|] == parts;
    assert forall k :: 0 <= k <= |before| ==> before[..k] == parts[..k];
  }

  lemma SameDescent(before: Names, last: string)
    ensures Descent(before + [last]) ==
            Descent(before) + if last == ".." then -1 else if last == "" || last == "." then 0 else 1
  {
    assert (before + [last])[..|before|] == before;
  }

  lemma OneMore(walk: Names, last: string)
    ensures Depth(walk + [last]) == Depth(walk) + if last == ".." then -1 else 1
    ensures StaysInside(walk + [last]) <==> StaysInside(walk) && Depth(walk + [last]) >= 0
  {
    var more := walk + [last];
    DepthMore(walk, last);
    assert forall k :: 0 <= k <= |walk| ==> more[..k] == walk[..k];
    assert more[..|more|] == more;
  }

  /** A target text that is not absolute, cut into its parts. */
  ghost predicate Relative(parts: Names) {
    parts != [] && (forall p :: p in parts ==> '/' !in p) && (|parts| > 1 ==> parts[0] != "")
  }

  lemma RelativeText(parts: Names)
    requires Relative(parts)
    ensures !("/" <= Join(parts, '/')) && Components(Join(parts, '/')) == Paths.Kept(parts)
  {
    SplitJoined(parts, '/');
    assert parts[0] in parts;
  }

  /** A relative target of a link that is accepted never leaves the package on its way, read off the two texts. */
  lemma AcceptedStays(names: Names, last: string, parts: Names)
    requires AllPlain(names) && Plain(last) && Relative(parts)
    ensures Leads(PathOf(names, last), Join(parts, '/')) ==>
              forall k :: 0 <= k <= |parts| ==> |names| + Descent(parts[..k]) >= 0
    ensures (forall k :: 0 <= k <= |parts| ==> |names| + Descent(parts[..k]) >= 0) ==>
              (Leads(PathOf(names, last), Join(parts, '/')) <==>
               Below(FHS_TOP_LEVEL, Normal(names + Paths.Kept(parts), 0)))
  {
    ParentOf(names, last);
    RelativeText(parts);
    StaysIff(names, parts);
  }

  predicate Below(tops: set<string>, names: Names) {
    names != [] && names[0] in tops
  }

  function Ups(k: nat): Names {
    if k == 0 then [] else Ups(k - 1) + [".."]
  }

  lemma {:induction false} UpsDescent(k: nat)
    ensures |Ups(k)| == k && Descent(Ups(k)) + k == 0 && forall p :: p in Ups(k) ==> p == ".."
  {
    if k > 0 {
      UpsDescent(k - 1);
      SameDescent(Ups(k - 1), "..");
    }
  }

  /** A target that begins with more ".." than the link has directories above it is refused. */
  lemma ClimbsOut(names: Names, last: string, k: nat, rest: Names)
    requires AllPlain(names) && Plain(last) && k > |names| && forall p :: p in rest ==> '/' !in p
    ensures !Leads(PathOf(names, last), Join(Ups(k) + rest, '/'))
  {
    var parts := Ups(k) + rest;
    UpsDescent(k);
    assert parts[0] in Ups(k) && parts[..k] == Ups(k);
    AcceptedStays(names, last, parts);
  }

  /** An absolute target that goes straight down is accepted exactly below a standard directory. */
  lemma AbsoluteTarget(relative: string, parts: Names)
    requires parts != [] && AllPlain(parts)
    ensures Leads(relative, "/" + Join(parts, '/')) <==> parts[0] in FHS_TOP_LEVEL
  {
    Absolute(parts);
    AllKept(parts);
    assert UP !in parts;
  }

  lemma Absolute(parts: Names)
    requires parts != [] && forall p :: p in parts ==> '/' !in p
    ensures Split("/" + Join(parts, '/'), '/') == [""] + parts
    ensures Components("/" + Join(parts, '/')) == Paths.Kept(parts)
  {
    SplitJoined(parts, '/');
    SplitName("", Join(parts, '/'), '/');
    assert "/" + Join(parts, '/') == "" + ['/'] + Join(parts, '/');
    assert ([""] + parts)[1..] == parts;
  }

  // ---- suspicious texts ----

  /** Apart from empty text and zero characters, what makes a target suspicious is one of the marks inside it. */
  lemma SuspectIff(target: string, forbidden: Names)
    requires target != "" && '\0' !in target
    ensures Suspect(target, forbidden) <==>
            exists m, a: string, b: string ::
              (m in forbidden || m in BUILD_PATH_MARKERS || m in HOST_PATH_PREFIXES) && target == a + (m + b)
  {
    forall m
      ensures Occurs(m, target) <==> exists a: string, b: string :: target == a + (m + b)
    {
      OccursIff(m, target);
    }
  }

  lemma OccursIff(m: string, text: string)
    ensures Occurs(m, text) <==> exists a: string, b: string :: text == a + (m + b)
  {
    if i :| 0 <= i <= |text| && m <= text[i..] {
      assert text == text[..i] + (m + text[i..][|m|..]);
    }
    if a: string, b: string :| text == a + (m + b) {
      assert text[|a|..] == m + b;
    }
  }

  // ---- runtime search paths ----

  /** An entry after an origin token, which stands for the directory of the object itself. */
  function OriginEntry(braces: bool, parts: Names): string {
    (if braces then "${ORIGIN}" else "$ORIGIN") + if parts == [] then "" else "/" + Join(parts, '/')
  }

  /** An origin entry stands for where its parts lead from the object's directory, if each is a name or ".." and none
      climbs above the package. */
  lemma OriginLeads(names: Names, last: string, braces: bool, parts: Names)
    requires AllPlain(names) && Plain(last) && forall p :: p in parts ==> p == ".." || Plain(p)
    ensures Searches(OriginEntry(braces, parts), PathOf(names, last)) ==
            if forall k :: 0 <= k <= |parts| ==> |names| + Descent(parts[..k]) >= 0
            then Some(Normal(names + parts, 0)) else None
  {
    ParentOf(names, last);
    AllKept(parts);
    StaysIff(names, parts);
    hide StaysInside, Normal, Descent, Paths.Kept, PathOf, Parent;
    assert Canonical(parts) by {
      assert forall i :: 0 <= i < |parts| ==> parts[i] in parts;
    }
    OriginParts(braces, parts);
  }

  lemma OriginParts(braces: bool, parts: Names)
    requires forall p :: p in parts ==> '/' !in p
    ensures var entry := OriginEntry(braces, parts);
            var after := if AfterOrigin(entry, ORIGINS[0]).Some? then AfterOrigin(entry, ORIGINS[0])
                         else AfterOrigin(entry, ORIGINS[1]);
            after.Some? && Split(after.value, '/')[1..] == parts
  {
    var rest := if parts == [] then "" else "/" + Join(parts, '/');
    Origins(braces, rest);
    if parts != [] {
      Absolute(parts);
      hide Split, Join, AfterOrigin;
      assert ([""] + parts)[1..] == parts;
    }
  }

  /** An entry that neither is an origin token, nor goes on with a slash after one, nor is absolute stands for no
      directory. */
  lemma OtherEntry(component: string, relative: string)
    requires component != "$ORIGIN" && component != "${ORIGIN}"
    requires !("$ORIGIN/" <= component) && !("${ORIGIN}/" <= component) && !("/" <= component)
    ensures Searches(component, relative) == None
  {
    assert "$ORIGIN" + "/" == "$ORIGIN/" && "${ORIGIN}" + "/" == "${ORIGIN}/";
  }

  lemma Origins(braces: bool, rest: string)
    requires rest == "" || "/" <= rest
    ensures var entry := (if braces then "${ORIGIN}" else "$ORIGIN") + rest;
            (if AfterOrigin(entry, ORIGINS[0]).Some? then AfterOrigin(entry, ORIGINS[0])
             else AfterOrigin(entry, ORIGINS[1])) == Some(rest)
  {
    var origin := if braces then "${ORIGIN}" else "$ORIGIN";
    var entry := origin + rest;
    assert entry[|origin|..] == rest && entry[1] == origin[1];
    assert rest == "" ==> entry == origin;
    assert rest != "" ==> origin + "/" <= entry;
  }

  /** An absolute entry of plain names is accepted exactly at or below one of the four library directories. */
  lemma LibraryText(parts: Names, relative: string)
    requires parts != [] && AllPlain(parts)
    ensures var entry := "/" + Join(parts, '/');
            Searches(entry, relative).Some? && (InRuntimeTree(Searches(entry, relative).value) <==>
              AtOrBelow(entry, "/lib") || AtOrBelow(entry, "/lib64") || AtOrBelow(entry, "/usr/lib") ||
              AtOrBelow(entry, "/usr/lib64"))
  {
    Absolute(parts);
    NotOrigin("/" + Join(parts, '/'));
    LibraryNames(parts);
    hide InRuntimeTree, AtOrBelow;
    assert ([""] + parts)[1..] == parts;
    assert forall i :: 0 <= i < |parts| ==> parts[i] in parts;
    assert Canonical(parts) && UP !in parts;
  }

  lemma LibraryNames(parts: Names)
    requires parts != [] && AllPlain(parts)
    ensures var entry := "/" + Join(parts, '/');
            InRuntimeTree(parts) <==>
            AtOrBelow(entry, "/lib") || AtOrBelow(entry, "/lib64") || AtOrBelow(entry, "/usr/lib") ||
            AtOrBelow(entry, "/usr/lib64")
  {
    StartsWith(parts, ["lib"]);
    StartsWith(parts, ["lib64"]);
    StartsWith(parts, ["usr", "lib"]);
    StartsWith(parts, ["usr", "lib64"]);
    Directories();
    hide Join, AtOrBelow;
    Slashed("lib", "/lib", Join(parts, '/'));
    Slashed("lib64", "/lib64", Join(parts, '/'));
    Slashed("usr/lib", "/usr/lib", Join(parts, '/'));
    Slashed("usr/lib64", "/usr/lib64", Join(parts, '/'));
    RuntimeTrees(parts);
  }

  lemma RuntimeTrees(parts: Names)
    ensures InRuntimeTree(parts) <==>
            ["lib"] <= parts || ["lib64"] <= parts || ["usr", "lib"] <= parts || ["usr", "lib64"] <= parts
  {
  }

  predicate AtOrBelow(text: string, directory: string) {
    text == directory || directory + "/" <= text
  }

  lemma Slashed(directory: string, slashed: string, text: string)
    requires slashed == "/" + directory
    ensures AtOrBelow("/" + text, slashed) <==> AtOrBelow(text, directory)
  {
    assert ("/" + text)[1..] == text && slashed[1..] == directory && (slashed + "/")[1..] == directory + "/";
  }

  lemma Directories()
    ensures Join(["lib"], '/') == "lib" && Join(["lib64"], '/') == "lib64"
    ensures Join(["usr", "lib"], '/') == "usr/lib" && Join(["usr", "lib64"], '/') == "usr/lib64"
  {
    assert ["usr", "lib"][1..] == ["lib"] && ["usr", "lib64"][1..] == ["lib64"];
  }

  /** A joined path is at or below another exactly when its names begin with the other's. */
  lemma {:induction false} StartsWith(parts: Names, directory: Names)
    requires parts != [] && directory != [] && AllPlain(parts) && AllPlain(directory)
    ensures directory <= parts <==> AtOrBelow(Join(parts, '/'), Join(directory, '/'))
  {
    var p, d := Join(parts, '/'), Join(directory, '/');
    SplitJoin(parts);
    SplitJoin(directory);
    if d + "/" <= p {
      var rest := p[|d| + 1..];
      assert p == d + ['/'] + rest;
      SplitMore(d, rest);
    }
    if directory <= parts && directory != parts {
      var rest := parts[|directory|..];
      assert parts == directory + rest;
      JoinMore(directory, rest);
    }
  }

  /** Cutting before and after a slash. */
  lemma {:induction false} SplitMore(d: string, rest: string)
    ensures Split(d + ['/'] + rest, '/') == Split(d, '/') + Split(rest, '/')
  {
    var all := d + ['/'] + rest;
    if d == "" {
      assert all[1..] == rest;
    } else {
      assert all[1..] == d[1..] + ['/'] + rest;
      SplitMore(d[1..], rest);
      SplitStep(all);
      SplitStep(d);
      hide Split;
      Regroup(Split(d[1..], '/'), Split(rest, '/'), [d[0]]);
    }
  }

  lemma Regroup(head: Names, tail: Names, first: string)
    requires head != []
    ensures [""] + (head + tail) == ([""] + head) + tail
    ensures [first + (head + tail)[0]] + (head + tail)[1..] == ([first + head[0]] + head[1..]) + tail
  {
  }

  lemma SplitStep(s: string)
    requires s != ""
    ensures var more := Split(s[1..], '/');
            Split(s, '/') == if s[0] == '/' then [""] + more else [[s[0]] + more[0]] + more[1..]
  {
  }

  lemma {:induction false} JoinMore(a: Names, b: Names)
    requires a != [] && b != []
    ensures Join(a + b, '/') == Join(a, '/') + "/" + Join(b, '/')
  {
    if |a| == 1 {
      assert (a + b)[1..] == b;
    } else {
      assert (a + b)[1..] == a[1..] + b;
      JoinMore(a[1..], b);
    }
  }
}
