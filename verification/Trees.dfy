/** Merging a component's file tree into a destination, entry by entry. */
module Trees {

  type Path = seq<string>
  type Bytes = seq<int>

  datatype Entry = Dir(mode: nat) | File(mode: nat, content: Bytes) | Link(target: string) | Special

  /** The mode a new directory has until its own is set. */
  const DEFAULT_MODE: nat := 0x1ED

  datatype Source = SourceDir(mode: nat, entries: seq<Named>) | SourceFile(mode: nat, content: Bytes)
                  | SourceLink(target: string) | SourceSpecial

  datatype Named = Named(name: string, node: Source)

  type Files = map<Path, Entry>

  function EntryOf(s: Source): Entry {
    match s
    case SourceDir(mode, _) => Dir(mode)
    case SourceFile(mode, content) => File(mode, content)
    case SourceLink(target) => Link(target)
    case SourceSpecial => Special
  }

  /** Names within a directory are distinct. */
  ghost predicate WellNamed(entries: seq<Named>) {
    (forall i, j :: 0 <= i < j < |entries| ==> entries[i].name != entries[j].name) &&
    forall i :: 0 <= i < |entries| && entries[i].node.SourceDir? ==> WellNamed(entries[i].node.entries)
  }

  /** Every path below `at` with its entry. */
  ghost function Flat(entries: seq<Named>, at: Path): Files {
    if entries == [] then map[]
    else Flat(entries[..|entries| - 1], at) + FlatNode(entries[|entries| - 1].node, at + [entries[|entries| - 1].name])
  }

  ghost function FlatNode(node: Source, at: Path): Files {
    (if node.SourceDir? then Flat(node.entries, at) else map[])[at := EntryOf(node)]
  }

  /** The two sides agree on every common path, and there is nothing unsupported to add. */
  ghost predicate Agree(files: Files, more: Files) {
    forall p :: p in more ==> !more[p].Special? && (p in files ==> files[p] == more[p])
  }

  ghost predicate Below(p: Path, at: Path) {
    |at| < |p| && p[..|at|] == at
  }

  lemma {:induction false} FlatBelow(entries: seq<Named>, at: Path, p: Path)
    requires p in Flat(entries, at)
    ensures Below(p, at) && exists i :: 0 <= i < |entries| && p[|at|] == entries[i].name
    decreases entries
  {
    var n := |entries| - 1;
    var name := entries[n].name;
    if p in Flat(entries[..n], at) {
      FlatBelow(entries[..n], at, p);
      var i :| 0 <= i < n && p[|at|] == entries[..n][i].name;
      assert entries[i].name == p[|at|];
    } else {
      NodeName(entries[n].node, at, name, p);
    }
  }

  lemma {:induction false} NodeBelow(node: Source, at: Path, p: Path)
    requires p in FlatNode(node, at)
    ensures |at| <= |p| && p[..|at|] == at && (p != at ==> Below(p, at))
    decreases node, 0
  {
    if p != at {
      FlatBelow(node.entries, at, p);
    }
  }

  lemma NodeName(node: Source, at: Path, name: string, p: Path)
    requires p in FlatNode(node, at + [name])
    ensures Below(p, at) && p[|at|] == name
    decreases node, 1
  {
    NodeBelow(node, at + [name], p);
    assert p[..|at|] == p[..|at| + 1][..|at|];
    assert p[|at|] == p[..|at| + 1][|at|];
  }

  /** Entries of different names never meet. */
  lemma SiblingsApart(entries: seq<Named>, at: Path, n: nat)
    requires WellNamed(entries) && n < |entries|
    ensures Flat(entries[..n], at).Keys !! FlatNode(entries[n].node, at + [entries[n].name]).Keys
  {
    forall p | p in Flat(entries[..n], at)
      ensures p !in FlatNode(entries[n].node, at + [entries[n].name])
    {
      FlatBelow(entries[..n], at, p);
      if p in FlatNode(entries[n].node, at + [entries[n].name]) {
        NodeName(entries[n].node, at, entries[n].name, p);
      }
    }
  }

  lemma ChildrenBelow(entries: seq<Named>, at: Path)
    ensures at !in Flat(entries, at)
  {
    if at in Flat(entries, at) {
      FlatBelow(entries, at, at);
    }
  }

  /** Everything but the top lies in a directory. */
  ghost predicate IsTree(files: Files) {
    forall p :: p in files && p != [] ==> p[..|p| - 1] in files && files[p[..|p| - 1]].Dir?
  }

  lemma TreeGrows(files: Files, at: Path, name: string, entry: Entry)
    requires at in files && files[at].Dir?
    requires at + [name] in files && files[at + [name]].Dir? ==> entry.Dir?
    ensures IsTree(files) ==> IsTree(files[at + [name] := entry])
  {
    var child, grown := at + [name], files[at + [name] := entry];
    forall p | IsTree(files) && p in grown && p != []
      ensures p[..|p| - 1] in grown && grown[p[..|p| - 1]].Dir?
    {
      assert child[..|child| - 1] == at;
      if p != child {
        assert p in files;
      }
    }
  }

  /** All that is new is of the source, but a directory that is not finished has the mode it was made with. */
  ghost predicate Added(before: Files, files: Files, more: Files) {
    forall p :: p in files && p !in before ==>
      p in more && (files[p] == more[p] || (more[p].Dir? && files[p] == Dir(DEFAULT_MODE)))
  }

  lemma AddedAll(files: Files, more: Files)
    ensures Added(files, files + more, more)
  {
  }

  lemma {:induction false} FlatPart(entries: seq<Named>, at: Path, n: nat)
    requires WellNamed(entries) && n <= |entries|
    ensures forall p :: p in Flat(entries[..n], at) ==>
              p in Flat(entries, at) && Flat(entries, at)[p] == Flat(entries[..n], at)[p]
    decreases |entries| - n
  {
    if n == |entries| {
      assert entries[..n] == entries;
    } else {
      SiblingsApart(entries, at, n);
      FlatMore(entries, at, n);
      FlatPart(entries, at, n + 1);
    }
  }

  lemma AddedPart(start: Files, before: Files, files: Files, entries: seq<Named>, at: Path, i: nat)
    requires WellNamed(entries) && i < |entries| && before == start + Flat(entries[..i], at)
    requires forall p :: p in before ==> p in files && files[p] == before[p]
    requires Added(before, files, FlatNode(entries[i].node, at + [entries[i].name]))
    ensures Added(start, files, Flat(entries, at))
  {
    FlatPart(entries, at, i);
    FlatPart(entries, at, i + 1);
    FlatMore(entries, at, i);
    hide Flat, FlatNode, WellNamed;
    var done, node, all := Flat(entries[..i], at), FlatNode(entries[i].node, at + [entries[i].name]), Flat(entries, at);
    forall p | p in files && p !in start
      ensures p in all && (files[p] == all[p] || (all[p].Dir? && files[p] == Dir(DEFAULT_MODE)))
    {
      if p in before {
        assert p in done && files[p] == done[p];
      } else {
        assert p in node && p in done + node && (done + node)[p] == node[p];
      }
    }
  }

  lemma AddedNode(start: Files, files: Files, node: Source, child: Path)
    requires node.SourceDir? && child in start && Added(start, files, Flat(node.entries, child))
    ensures Added(start, files, FlatNode(node, child))
  {
    ChildrenBelow(node.entries, child);
  }

  lemma AddedDirectory(start: Files, files: Files, node: Source, child: Path)
    requires node.SourceDir? && child !in start && child in files && files[child] == Dir(DEFAULT_MODE)
    requires Added(start[child := Dir(DEFAULT_MODE)], files, Flat(node.entries, child))
    ensures Added(start, files, FlatNode(node, child))
    ensures Added(start, files[child := Dir(node.mode)], FlatNode(node, child))
  {
    ChildrenBelow(node.entries, child);
  }

  class Destination {
    var files: Files

    constructor (files: Files)
      ensures this.files == files
    {
      this.files := files;
    }

    /** Merges the entries into the directory `at`. Succeeds exactly when both sides agree, and then holds every path of
        both with its entry and nothing else; whether or not it succeeds, it changes no entry that was there. */
    method MergeTree(entries: seq<Named>, at: Path) returns (ok: bool)
      requires WellNamed(entries) && at in files && files[at].Dir?
      modifies this
      ensures IsTree(old(files)) ==> IsTree(files)
      ensures ok <==> Agree(old(files), Flat(entries, at))
      ensures ok ==> files == old(files) + Flat(entries, at)
      ensures forall p :: p in old(files) ==> p in files && files[p] == old(files)[p]
      ensures Added(old(files), files, Flat(entries, at))
      decreases entries, 1
    {
      hide IsTree, Agree, FlatNode, Flat, WellNamed;
      ghost var start := files;
      NothingYet(start, entries, at);
      for i := 0 to |entries|
        invariant Agree(start, Flat(entries[..i], at)) && files == start + Flat(entries[..i], at)
        invariant files[at].Dir?
        invariant IsTree(start) ==> IsTree(files)
        invariant forall p :: p in start ==> p in files && files[p] == start[p]
      {
        OneMore(start, entries, at, i);
        ghost var before := files;
        ok := MergeEntry(entries[i].node, at, entries[i].name);
        if !ok {
          AddedPart(start, before, files, entries, at, i);
          return;
        }
      }
      assert entries[..|entries|] == entries;
      AddedAll(start, Flat(entries, at));
      ok := true;
    }

    method MergeEntry(node: Source, at: Path, name: string) returns (ok: bool)
      requires node.SourceDir? ==> WellNamed(node.entries)
      requires at in files && files[at].Dir?
      modifies this
      ensures IsTree(old(files)) ==> IsTree(files)
      ensures ok <==> Agree(old(files), FlatNode(node, at + [name]))
      ensures ok ==> files == old(files) + FlatNode(node, at + [name])
      ensures forall p :: p in old(files) ==> p in files && files[p] == old(files)[p]
      ensures Added(old(files), files, FlatNode(node, at + [name]))
      ensures !ok && at + [name] in files && at + [name] !in old(files) ==> files[at + [name]] == Dir(DEFAULT_MODE)
      decreases node, 0
    {
      hide IsTree, Agree, FlatNode, Flat, WellNamed;
      var child := at + [name];
      ghost var start := files;
      if child in files {
        var existing := files[child];
        if node.SourceDir? && existing == Dir(node.mode) {
          ok := MergeTree(node.entries, child);
          OldDirectory(start, node, child);
          AddedNode(start, files, node, child);
          return;
        }
        OtherEntry(start, node, child);
        return (node.SourceFile? || node.SourceLink?) && existing == EntryOf(node);
      }
      match node
      case SourceDir(mode, entries) =>
        TreeGrows(files, at, name, Dir(DEFAULT_MODE));
        files := files[child := Dir(DEFAULT_MODE)];
        NewDirectory(start, node, child);
        ok := MergeTree(entries, child);
        AddedDirectory(start, files, node, child);
        if ok {
          TreeGrows(files, at, name, Dir(mode));
          files := files[child := Dir(mode)];
        }
      case SourceFile(mode, content) =>
        NewLeaf(start, node, at, name);
        files := files[child := File(mode, content)];
        ok := true;
      case SourceLink(target) =>
        NewLeaf(start, node, at, name);
        files := files[child := Link(target)];
        ok := true;
      case SourceSpecial =>
        NewLeaf(start, node, at, name);
        ok := false;
    }

    /** The outermost call, which also creates the destination. */
    method Merge(entries: seq<Named>) returns (ok: bool)
      requires WellNamed(entries)
      modifies this
      ensures ok <==> Merges(old(files), entries)
      ensures IsTree(old(files)) ==> IsTree(files)
      ensures ok ==> files == Merged(old(files), entries)
      ensures forall p :: p in old(files) ==> p in files && files[p] == old(files)[p]
    {
      hide Flat, FlatNode, WellNamed, Agree;
      ghost var start := files;
      ChildrenBelow(entries, []);
      RootApart(start, Flat(entries, []));
      if [] in files {
        if !files[[]].Dir? {
          return false;
        }
      } else {
        files := files[[] := Dir(DEFAULT_MODE)];
      }
      ok := MergeTree(entries, []);
    }
  }

  function WithRoot(files: Files): Files {
    if [] in files then files else files[[] := Dir(DEFAULT_MODE)]
  }

  /** What was merged before does not touch what comes next. */
  lemma AgreeMore(files: Files, done: Files, next: Files)
    requires Agree(files, done) && done.Keys !! next.Keys
    ensures Agree(files + done, next) <==> Agree(files, next)
    ensures Agree(files, done + next) <==> Agree(files, next)
  {
    assert forall p :: p in next ==> p !in done && (p in files + done <==> p in files);
    assert forall p :: p in next ==> p in done + next && (done + next)[p] == next[p];
    assert forall p :: p in done + next ==> p in done || p in next;
  }

  lemma NothingYet(files: Files, entries: seq<Named>, at: Path)
    ensures Agree(files, Flat(entries[..0], at)) && files + Flat(entries[..0], at) == files
  {
    assert entries[..0] == [];
  }

  /** Whether the first n + 1 entries agree depends only on the last of them once the others do. */
  lemma OneMore(files: Files, entries: seq<Named>, at: Path, n: nat)
    requires WellNamed(entries) && n < |entries| && Agree(files, Flat(entries[..n], at))
    ensures var node := FlatNode(entries[n].node, at + [entries[n].name]);
            (Agree(files + Flat(entries[..n], at), node) <==> Agree(files, Flat(entries[..n + 1], at))) &&
            files + Flat(entries[..n], at) + node == files + Flat(entries[..n + 1], at)
    ensures !Agree(files, Flat(entries[..n + 1], at)) ==> !Agree(files, Flat(entries, at))
    ensures entries[n].node.SourceDir? ==> WellNamed(entries[n].node.entries)
  {
    var done, node := Flat(entries[..n], at), FlatNode(entries[n].node, at + [entries[n].name]);
    SiblingsApart(entries, at, n);
    FlatMore(entries, at, n);
    hide Flat, FlatNode;
    AgreeMore(files, done, node);
    AddTwice(files, done, node);
    if !Agree(files, Flat(entries[..n + 1], at)) {
      AgreePart(files, entries, at, n + 1);
    }
  }

  lemma FlatMore(entries: seq<Named>, at: Path, n: nat)
    requires n < |entries|
    ensures Flat(entries[..n + 1], at) ==
            Flat(entries[..n], at) + FlatNode(entries[n].node, at + [entries[n].name])
  {
    assert entries[..n + 1][..n] == entries[..n];
  }

  lemma AddTwice(files: Files, a: Files, b: Files)
    ensures files + a + b == files + (a + b)
  {
  }

  /** A disagreement in a part is a disagreement in the whole. */
  lemma {:induction false} AgreePart(files: Files, entries: seq<Named>, at: Path, n: nat)
    requires WellNamed(entries) && n <= |entries| && !Agree(files, Flat(entries[..n], at))
    ensures !Agree(files, Flat(entries, at))
    decreases |entries| - n
  {
    if n == |entries| {
      assert entries[..n] == entries;
    } else {
      var part, node := Flat(entries[..n], at), FlatNode(entries[n].node, at + [entries[n].name]);
      SiblingsApart(entries, at, n);
      assert entries[..n + 1][..n] == entries[..n];
      assert Flat(entries[..n + 1], at) == part + node;
      var p :| p in part && (part[p].Special? || (p in files && files[p] != part[p]));
      assert p in part + node && (part + node)[p] == part[p];
      AgreePart(files, entries, at, n + 1);
    }
  }

  lemma OldDirectory(files: Files, node: Source, child: Path)
    requires node.SourceDir? && child in files && files[child] == Dir(node.mode)
    ensures Agree(files, FlatNode(node, child)) <==> Agree(files, Flat(node.entries, child))
    ensures files + FlatNode(node, child) == files + Flat(node.entries, child)
  {
    ChildrenBelow(node.entries, child);
    var below, all := Flat(node.entries, child), FlatNode(node, child);
    assert forall p :: p in all <==> p in below || p == child;
    assert forall p :: p in below ==> all[p] == below[p];
  }

  lemma OtherEntry(files: Files, node: Source, child: Path)
    requires child in files && !(node.SourceDir? && files[child] == Dir(node.mode))
    ensures Agree(files, FlatNode(node, child)) <==>
            (node.SourceFile? || node.SourceLink?) && files[child] == EntryOf(node)
    ensures Agree(files, FlatNode(node, child)) ==> files + FlatNode(node, child) == files
  {
    assert child in FlatNode(node, child) && FlatNode(node, child)[child] == EntryOf(node);
  }

  lemma NewLeaf(files: Files, node: Source, at: Path, name: string)
    requires !node.SourceDir? && at in files && files[at].Dir? && at + [name] !in files
    ensures var child := at + [name];
            (Agree(files, FlatNode(node, child)) <==> !node.SourceSpecial?) &&
            files + FlatNode(node, child) == files[child := EntryOf(node)] &&
            (IsTree(files) ==> IsTree(files[child := EntryOf(node)]))
  {
    var child := at + [name];
    assert child in FlatNode(node, child) && FlatNode(node, child)[child] == EntryOf(node);
    TreeGrows(files, at, name, EntryOf(node));
  }

  lemma NewDirectory(files: Files, node: Source, child: Path)
    requires node.SourceDir? && child !in files
    ensures var made := files[child := Dir(DEFAULT_MODE)];
            (Agree(files, FlatNode(node, child)) <==> Agree(made, Flat(node.entries, child))) &&
            (made + Flat(node.entries, child))[child := Dir(node.mode)] == files + FlatNode(node, child)
  {
    ChildrenBelow(node.entries, child);
    var below, all := Flat(node.entries, child), FlatNode(node, child);
    assert forall p :: p in all <==> p in below || p == child;
    assert forall p :: p in below ==> all[p] == below[p];
  }

  /** The destination is a directory or not there yet, and agrees with the entries. */
  ghost predicate Merges(files: Files, entries: seq<Named>) {
    ([] in files ==> files[[]].Dir?) && Agree(files, Flat(entries, []))
  }

  ghost function Merged(files: Files, entries: seq<Named>): Files {
    WithRoot(files) + Flat(entries, [])
  }

  // ---- the order of merging does not matter ----

  /** Merging two trees succeeds in one order exactly when it does in the other, with the same result. */
  lemma OrderIrrelevant(files: Files, a: seq<Named>, b: seq<Named>)
    ensures Merges(files, a) && Merges(Merged(files, a), b) <==> Merges(files, b) && Merges(Merged(files, b), a)
    ensures Merges(files, a) && Merges(Merged(files, a), b) ==> Merged(Merged(files, a), b) == Merged(Merged(files,
            b), a)
  {
    if Merges(files, a) && Merges(Merged(files, a), b) {
      MergesSwap(files, a, b);
    }
    if Merges(files, b) && Merges(Merged(files, b), a) {
      MergesSwap(files, b, a);
    }
  }

  lemma MergesSwap(files: Files, a: seq<Named>, b: seq<Named>)
    requires Merges(files, a) && Merges(Merged(files, a), b)
    ensures Merges(files, b) && Merges(Merged(files, b), a)
    ensures Merged(Merged(files, a), b) == Merged(Merged(files, b), a)
  {
    hide Agree, Flat;
    var x, y, rooted := Flat(a, []), Flat(b, []), WithRoot(files);
    ChildrenBelow(a, []);
    ChildrenBelow(b, []);
    RootApart(files, x);
    RootApart(files, y);
    AgreeSwap(rooted, x, y);
    assert WithRoot(rooted + x) == rooted + x && WithRoot(rooted + y) == rooted + y;
  }

  /** The top itself is never among the merged paths. */
  lemma RootApart(files: Files, more: Files)
    requires [] !in more
    ensures Agree(WithRoot(files), more) <==> Agree(files, more)
  {
    assert forall p :: p in more ==> (p in WithRoot(files) <==> p in files);
  }

  lemma AgreeSwap(files: Files, a: Files, b: Files)
    requires Agree(files, a) && Agree(files + a, b)
    ensures Agree(files, b) && Agree(files + b, a) && files + a + b == files + b + a
  {
    assert forall p :: p in b && p in a ==> p in files + a && (files + a)[p] == a[p] == b[p];
    assert forall p :: p in b && p in files ==> p in files + a && (files + a)[p] == files[p];
  }
}
