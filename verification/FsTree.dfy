/**
  The directory tree that the initrd mount builds and path lookup walks, as a list of node
  records in creation order: a node's number is its place in the list. vfs_node_add_child
  pushes at the front, so a directory's children list is its nodes in descending order.
 */
module FsTree {
  import opened Options
  import opened Tokens

  const VFS_NAME_MAX: nat := 256
  const VFS_PATH_MAX: nat := 4096
  const SEPARATORS: Str := [SLASH]
  const DOTDOT: Str := [DOT, DOT]
  const SELF: Str := [DOT]

  /** Permission bits 0755 and 0644. */
  const DIR_PERM: nat := 493
  const FILE_PERM: nat := 420

  /** A node: a directory, or a file whose size bytes start at off in the image. */
  datatype Rec = Rec(name: Str, parent: nat, isDir: bool, perm: nat, size: nat, off: nat)

  type Fs = seq<Rec>

  const ROOT: Rec := Rec([SLASH], 0, true, DIR_PERM, 0, 0)

  type Path = seq<Str>

  // ---------------------------------------------------------------- the tree's invariant

  /** Node i hangs below an earlier directory. */
  ghost predicate Hangs(fs: Fs, i: nat)
    requires i < |fs|
  {
    i > 0 ==> fs[i].parent < i && fs[fs[i].parent].isDir
  }

  ghost predicate Tree(fs: Fs) {
    |fs| > 0 && fs[0].isDir && fs[0].parent == 0 && forall i :: 0 <= i < |fs| ==> Hangs(fs, i)
  }

  /** The names on the way down from the root to node i. */
  function PathOf(fs: Fs, i: nat): Path
    requires i < |fs|
    requires Tree(fs)
    decreases i
  {
    if i == 0 then [] else
      assert Hangs(fs, i);
      PathOf(fs, fs[i].parent) + [fs[i].name]
  }

  // ---------------------------------------------------------------- children

  predicate IsChild(fs: Fs, dir: nat, name: Str, i: nat)
    requires i < |fs|
  {
    i > 0 && fs[i].parent == dir && fs[i].name == name
  }

  /** The first child of dir with this name, looking only at nodes below n; 0 for none. */
  function Child(fs: Fs, dir: nat, name: Str, n: nat): (c: nat)
    requires n <= |fs|
    ensures c != 0 ==> c < n && IsChild(fs, dir, name, c)
    ensures forall i :: c < i < n ==> !IsChild(fs, dir, name, i)
  {
    if n == 0 then 0
    else if IsChild(fs, dir, name, n - 1) then n - 1
    else Child(fs, dir, name, n - 1)
  }

  /** The first child directory of dir with this name. */
  function ChildDir(fs: Fs, dir: nat, name: Str, n: nat): (c: nat)
    requires n <= |fs|
    ensures c != 0 ==> c < n && IsChild(fs, dir, name, c) && fs[c].isDir
    ensures forall i :: c < i < n ==> !(IsChild(fs, dir, name, i) && fs[i].isDir)
  {
    if n == 0 then 0
    else if IsChild(fs, dir, name, n - 1) && fs[n - 1].isDir then n - 1
    else ChildDir(fs, dir, name, n - 1)
  }

  // ---------------------------------------------------------------- ensure_dir

  function NewDir(name: Str, parent: nat): Rec { Rec(name, parent, true, DIR_PERM, 0, 0) }

  /** ensure_dir below cur: walk the components, creating each directory that is missing. */
  function EnsureDir(fs: Fs, cur: nat, comps: Path): (r: (Fs, nat))
    requires cur < |fs|
    ensures |fs| <= |r.0| && r.0[..|fs|] == fs && r.1 < |r.0|
    decreases |comps|
  {
    if comps == [] then (fs, cur)
    else
      var c := ChildDir(fs, cur, comps[0], |fs|);
      if c != 0 then EnsureDir(fs, c, comps[1..])
      else EnsureDir(fs + [NewDir(comps[0], cur)], |fs|, comps[1..])
  }

  /** At most n characters. */
  function Clip(s: Str, n: nat): Str { if |s| <= n then s else s[..n] }

  function ClipAll(p: Path, n: nat): Path
  {
    if p == [] then [] else [Clip(p[0], n)] + ClipAll(p[1..], n)
  }

  /** Without a leading "./". */
  function StripDot(s: Str): Str {
    if |s| >= 2 && s[0] == DOT && s[1] == SLASH then s[2..] else s
  }

  function DirComps(dirpath: Str): Path {
    ClipAll(Split(StripDot(Clip(dirpath, VFS_PATH_MAX - 1)), SEPARATORS), VFS_NAME_MAX - 1)
  }

  // ---------------------------------------------------------------- lookup

  /** One component of a path, from node cur. */
  function StepInto(fs: Fs, cur: nat, c: Str): Option<nat>
    requires cur < |fs|
  {
    if c == SELF then Some(cur)
    else if c == DOTDOT then Some(fs[cur].parent)
    else
      var i := Child(fs, cur, c, |fs|);
      if i == 0 then None else Some(i)
  }

  /** The walk over a path's components. */
  function Walk(fs: Fs, cur: nat, comps: Path): (r: Option<nat>)
    requires Tree(fs) && cur < |fs|
    ensures r.Some? ==> r.value < |fs|
    decreases |comps|
  {
    if comps == [] then Some(cur)
    else
      assert Hangs(fs, cur);
      match StepInto(fs, cur, comps[0])
      case None => None
      case Some(i) => Walk(fs, i, comps[1..])
  }

  /** vfs_lookup: the components of at most 4095 characters of the path. */
  function LookupComps(path: Str): Path {
    Split(Clip(path, VFS_PATH_MAX - 1), SEPARATORS)
  }

  function Lookup(fs: Fs, path: Str): Option<nat>
    requires Tree(fs)
  {
    Walk(fs, 0, LookupComps(path))
  }

  // ---------------------------------------------------------------- growing the tree

  /** Node i is in fs' what it was in fs; only a directory's permissions may differ. */
  ghost predicate KeepsNode(fs: Fs, fs': Fs, i: nat)
    requires i < |fs| <= |fs'|
  {
    fs'[i] == fs[i] || (fs[i].isDir && fs'[i] == fs[i].(perm := fs'[i].perm))
  }

  ghost predicate Grew(fs: Fs, fs': Fs) {
    |fs| <= |fs'| && forall i :: 0 <= i < |fs| ==> KeepsNode(fs, fs', i)
  }

  /** fs' is fs with nodes added at the end. */
  ghost predicate Extends(fs: Fs, fs': Fs) {
    |fs| <= |fs'| && forall i :: 0 <= i < |fs| ==> fs'[i] == fs[i]
  }

  /** Paths of existing nodes do not change as the tree grows. */
  lemma {:induction false} PathStays(fs: Fs, fs': Fs, i: nat)
    requires Tree(fs) && Tree(fs') && Grew(fs, fs') && i < |fs|
    ensures PathOf(fs', i) == PathOf(fs, i)
    decreases i
  {
    assert KeepsNode(fs, fs', i);
    if i > 0 {
      assert Hangs(fs, i);
      PathStays(fs, fs', fs[i].parent);
    }
  }

  lemma GrewTrans(a: Fs, b: Fs, c: Fs)
    requires Grew(a, b) && Grew(b, c)
    ensures Grew(a, c)
  {
    forall i | 0 <= i < |a| ensures KeepsNode(a, c, i) {
      assert KeepsNode(a, b, i) && KeepsNode(b, c, i);
    }
  }

  lemma ExtendTree(fs: Fs, r: Rec)
    requires Tree(fs) && r.parent < |fs| && fs[r.parent].isDir
    ensures Tree(fs + [r]) && Grew(fs, fs + [r])
    ensures PathOf(fs + [r], |fs|) == PathOf(fs, r.parent) + [r.name]
  {
    forall i | 0 <= i < |fs + [r]| ensures Hangs(fs + [r], i) {
      if i < |fs| { assert Hangs(fs, i); }
    }
    PathStays(fs, fs + [r], r.parent);
  }

  // ---------------------------------------------------------------- what ensure_dir does

  /** ensure_dir keeps every node as it was, keeps the tree, and returns a directory with the
      path asked for. */
  lemma {:induction false} EnsureDirMakes(fs: Fs, cur: nat, comps: Path)
    requires Tree(fs) && cur < |fs| && fs[cur].isDir
    ensures var (fs', d) := EnsureDir(fs, cur, comps);
            && Tree(fs') && Extends(fs, fs') && Grew(fs, fs') && fs'[d].isDir
            && PathOf(fs', d) == PathOf(fs, cur) + comps
    decreases |comps|
  {
    if comps != [] {
      assert PathOf(fs, cur) + [comps[0]] + comps[1..] == PathOf(fs, cur) + comps;
      var c := ChildDir(fs, cur, comps[0], |fs|);
      if c != 0 {
        EnsureDirMakes(fs, c, comps[1..]);
      } else {
        var g := fs + [NewDir(comps[0], cur)];
        ExtendTree(fs, NewDir(comps[0], cur));
        EnsureDirMakes(g, |fs|, comps[1..]);
        GrewTrans(fs, g, EnsureDir(fs, cur, comps).0);
      }
    }
  }

  /** What ensure_dir adds are directories on the path asked for. */
  lemma {:induction false} EnsureDirAdds(fs: Fs, cur: nat, comps: Path, i: nat)
    requires Tree(fs) && cur < |fs| && fs[cur].isDir
    requires |fs| <= i < |EnsureDir(fs, cur, comps).0|
    ensures var fs' := EnsureDir(fs, cur, comps).0;
            Tree(fs') && fs'[i].isDir && fs'[i].perm == 493 && PathOf(fs', i) <= PathOf(fs, cur) + comps
    decreases |comps|
  {
    EnsureDirMakes(fs, cur, comps);
    if comps != [] {
      assert PathOf(fs, cur) + [comps[0]] + comps[1..] == PathOf(fs, cur) + comps;
      var c := ChildDir(fs, cur, comps[0], |fs|);
      if c != 0 {
        EnsureDirAdds(fs, c, comps[1..], i);
      } else {
        var g := fs + [NewDir(comps[0], cur)];
        ExtendTree(fs, NewDir(comps[0], cur));
        EnsureDirMakes(g, |fs|, comps[1..]);
        if i > |fs| { EnsureDirAdds(g, |fs|, comps[1..], i); }
        else { PathStays(g, EnsureDir(g, |fs|, comps[1..]).0, i); }
      }
    }
  }

  /** No two directories of the same name hang below one directory. */
  ghost predicate OnlyDir(fs: Fs, i: nat)
    requires i < |fs|
  {
    i > 0 && fs[i].isDir ==> ChildDir(fs, fs[i].parent, fs[i].name, |fs|) == i
  }

  ghost predicate UniqueDirs(fs: Fs) {
    forall i :: 0 <= i < |fs| ==> OnlyDir(fs, i)
  }

  lemma {:induction false} ChildDirAdded(fs: Fs, r: Rec, dir: nat, name: Str)
    ensures ChildDir(fs + [r], dir, name, |fs| + 1) ==
            (if |fs| > 0 && r.isDir && r.parent == dir && r.name == name then |fs| else ChildDir(fs, dir, name, |fs|))
  {
    ChildDirSame(fs, fs + [r], dir, name, |fs|);
  }

  lemma {:induction false} ChildDirSame(fs: Fs, fs': Fs, dir: nat, name: Str, n: nat)
    requires n <= |fs| && n <= |fs'|
    requires forall i :: 0 <= i < n ==> fs'[i].(perm := 0) == fs[i].(perm := 0)
    ensures ChildDir(fs', dir, name, n) == ChildDir(fs, dir, name, n)
  {
    if n > 0 {
      assert fs'[n - 1].(perm := 0) == fs[n - 1].(perm := 0);
      ChildDirSame(fs, fs', dir, name, n - 1);
    }
  }

  lemma AddUniqueDir(fs: Fs, r: Rec)
    requires |fs| > 0 && UniqueDirs(fs) && (r.isDir ==> ChildDir(fs, r.parent, r.name, |fs|) == 0)
    ensures UniqueDirs(fs + [r])
  {
    var g := fs + [r];
    forall i | 0 <= i < |g| ensures OnlyDir(g, i) {
      ChildDirAdded(fs, r, g[i].parent, g[i].name);
      if i < |fs| { assert OnlyDir(fs, i); }
    }
  }

  lemma {:induction false} EnsureDirUnique(fs: Fs, cur: nat, comps: Path)
    requires Tree(fs) && UniqueDirs(fs) && cur < |fs| && fs[cur].isDir
    ensures UniqueDirs(EnsureDir(fs, cur, comps).0)
    decreases |comps|
  {
    if comps != [] {
      var c := ChildDir(fs, cur, comps[0], |fs|);
      if c != 0 {
        EnsureDirUnique(fs, c, comps[1..]);
      } else {
        ExtendTree(fs, NewDir(comps[0], cur));
        AddUniqueDir(fs, NewDir(comps[0], cur));
        EnsureDirUnique(fs + [NewDir(comps[0], cur)], |fs|, comps[1..]);
      }
    }
  }

  /** A second ensure_dir of the same path creates nothing and returns the same directory. */
  lemma {:induction false} EnsureDirTwice(fs: Fs, cur: nat, comps: Path)
    requires Tree(fs) && UniqueDirs(fs) && cur < |fs| && fs[cur].isDir
    ensures var (fs', d) := EnsureDir(fs, cur, comps); EnsureDir(fs', cur, comps) == (fs', d)
    decreases |comps|
  {
    if comps != [] {
      EnsureDirMakes(fs, cur, comps);
      EnsureDirUnique(fs, cur, comps);
      var fs' := EnsureDir(fs, cur, comps).0;
      var c := ChildDir(fs, cur, comps[0], |fs|);
      if c != 0 {
        EnsureDirTwice(fs, c, comps[1..]);
        assert OnlyDir(fs', c);
      } else {
        var g := fs + [NewDir(comps[0], cur)];
        ExtendTree(fs, NewDir(comps[0], cur));
        AddUniqueDir(fs, NewDir(comps[0], cur));
        EnsureDirTwice(g, |fs|, comps[1..]);
        EnsureDirMakes(g, |fs|, comps[1..]);
        assert OnlyDir(fs', |fs|);
      }
    }
  }

  // ---------------------------------------------------------------- lookup after ensure_dir

  /** No component is "." or "..". */
  ghost predicate Plain(p: Path) {
    forall i :: 0 <= i < |p| ==> p[i] != SELF && p[i] != DOTDOT
  }

  /** On the way along comps no file is newer than the directory of the same name beside it. */
  predicate Unshadowed(fs: Fs, cur: nat, comps: Path)
    decreases |comps|
  {
    if comps == [] then true
    else
      var c := ChildDir(fs, cur, comps[0], |fs|);
      c == 0 || (Child(fs, cur, comps[0], |fs|) == c && Unshadowed(fs, c, comps[1..]))
  }

  /** Nothing after node c is a child of this name: c is the child if it is one. */
  lemma {:induction false} ChildIs(fs: Fs, dir: nat, name: Str, n: nat, c: nat)
    requires c < n <= |fs| && IsChild(fs, dir, name, c)
    requires forall i :: c < i < n ==> !IsChild(fs, dir, name, i)
    ensures Child(fs, dir, name, n) == c
  {
    if c + 1 < n { ChildIs(fs, dir, name, n - 1, c); }
  }

  lemma {:induction false} ChildNone(fs: Fs, dir: nat, name: Str, n: nat)
    requires n <= |fs| && forall i :: 0 <= i < n ==> !IsChild(fs, dir, name, i)
    ensures Child(fs, dir, name, n) == 0 && ChildDir(fs, dir, name, n) == 0
  {
    if n > 0 { ChildNone(fs, dir, name, n - 1); }
  }

  /** A file has no children, and neither has the newest node. */
  lemma Childless(fs: Fs, dir: nat, name: Str)
    requires Tree(fs) && dir < |fs| && (!fs[dir].isDir || dir == |fs| - 1)
    ensures Child(fs, dir, name, |fs|) == 0 && ChildDir(fs, dir, name, |fs|) == 0
  {
    forall i | 0 <= i < |fs| ensures !IsChild(fs, dir, name, i) {
      assert Hangs(fs, i);
    }
    ChildNone(fs, dir, name, |fs|);
  }

  /** Growth by directories alone does not change which child a name finds where a directory
      of that name is. */
  lemma ChildKept(fs: Fs, fs': Fs, dir: nat, name: Str)
    requires Tree(fs) && Tree(fs') && Extends(fs, fs') && UniqueDirs(fs')
    requires forall i :: |fs| <= i < |fs'| ==> fs'[i].isDir
    requires ChildDir(fs, dir, name, |fs|) != 0
    ensures Child(fs', dir, name, |fs'|) == Child(fs, dir, name, |fs|)
  {
    var c, d := Child(fs, dir, name, |fs|), ChildDir(fs, dir, name, |fs|);
    forall i | c < i < |fs'| ensures !IsChild(fs', dir, name, i) {
      assert OnlyDir(fs', i) && OnlyDir(fs', d);
      assert i < |fs| ==> !IsChild(fs, dir, name, i);
    }
    ChildIs(fs', dir, name, |fs'|, c);
  }

  /** For components other than "." and "..", lookup after ensure_dir reaches the directory ensure_dir
      returned, unless some component is shadowed by a newer file; and then it does not. */
  lemma {:induction false} EnsureThenWalk(fs: Fs, cur: nat, comps: Path)
    requires Tree(fs) && UniqueDirs(fs) && cur < |fs| && fs[cur].isDir && Plain(comps)
    ensures var (fs', d) := EnsureDir(fs, cur, comps);
            Tree(fs') && (Walk(fs', cur, comps) == Some(d) <==> Unshadowed(fs, cur, comps))
    decreases |comps|
  {
    hide PathOf, Grew, PlainAt, CleanAt;
    EnsureDirMakes(fs, cur, comps);
    EnsureDirUnique(fs, cur, comps);
    if comps != [] {
      var (fs', d) := EnsureDir(fs, cur, comps);
      forall i | |fs| <= i < |fs'| ensures fs'[i].isDir { EnsureDirAdds(fs, cur, comps, i); }
      var c, rest := ChildDir(fs, cur, comps[0], |fs|), comps[1..];
      if c == 0 {
        var g := fs + [NewDir(comps[0], cur)];
        ExtendTree(fs, NewDir(comps[0], cur));
        AddUniqueDir(fs, NewDir(comps[0], cur));
        EnsureThenWalk(g, |fs|, rest);
        EnsureDirMakes(g, |fs|, rest);
        NewestChild(g, fs');
        if rest != [] { Childless(g, |fs|, rest[0]); }
      } else {
        EnsureThenWalk(fs, c, rest);
        ChildKept(fs, fs', cur, comps[0]);
        var f := Child(fs, cur, comps[0], |fs|);
        if f != c {
          assert OnlyDir(fs, f) && OnlyDir(fs, c);
          if rest != [] { Childless(fs', f, rest[0]); }
        }
      }
    }
  }

  /** A walk goes down by at most one level a component, and by less if a component is "." or "..". */
  lemma {:induction false} WalkDepth(fs: Fs, cur: nat, p: Path)
    requires Tree(fs) && cur < |fs|
    ensures var r := Walk(fs, cur, p);
            r.Some? ==>
              && |PathOf(fs, r.value)| <= |PathOf(fs, cur)| + |p|
              && (!Plain(p) ==> |PathOf(fs, r.value)| < |PathOf(fs, cur)| + |p|)
    decreases |p|
  {
    if p != [] {
      assert Hangs(fs, cur);
      var next := StepInto(fs, cur, p[0]);
      if next.Some? {
        assert Hangs(fs, next.value);
        WalkDepth(fs, next.value, p[1..]);
        PlainRest(p);
      }
    }
  }

  lemma PlainRest(p: Path)
    requires p != []
    ensures Plain(p[1..]) && p[0] != SELF && p[0] != DOTDOT ==> Plain(p)
  {
    assert forall i :: 0 < i < |p| ==> p[i] == p[1..][i - 1];
  }

  /** lookup after ensure_dir reaches the directory ensure_dir returned exactly when no component is
      "." or "..", which ensure_dir takes for names, and none is shadowed by a newer file. */
  lemma EnsureThenLookup(fs: Fs, cur: nat, comps: Path)
    requires Tree(fs) && UniqueDirs(fs) && cur < |fs| && fs[cur].isDir
    ensures var (fs', d) := EnsureDir(fs, cur, comps);
            Tree(fs') && (Walk(fs', cur, comps) == Some(d) <==> Plain(comps) && Unshadowed(fs, cur, comps))
  {
    EnsureDirMakes(fs, cur, comps);
    if Plain(comps) {
      EnsureThenWalk(fs, cur, comps);
    } else {
      var fs' := EnsureDir(fs, cur, comps).0;
      PathStays(fs, fs', cur);
      WalkDepth(fs', cur, comps);
    }
  }

  /** The newest node of g, a directory, is what its name finds, however many directories are
      added after it. */
  lemma NewestChild(g: Fs, fs': Fs)
    requires Tree(g) && Tree(fs') && Extends(g, fs') && UniqueDirs(fs') && |g| > 1 && g[|g| - 1].isDir
    requires forall i :: |g| <= i < |fs'| ==> fs'[i].isDir
    ensures Child(fs', g[|g| - 1].parent, g[|g| - 1].name, |fs'|) == |g| - 1
  {
    var n, r := |g| - 1, g[|g| - 1];
    forall i | n < i < |fs'| ensures !IsChild(fs', r.parent, r.name, i) {
      assert OnlyDir(fs', i) && OnlyDir(fs', n);
    }
    ChildIs(fs', r.parent, r.name, |fs'|, n);
  }

  // ---------------------------------------------------------------- lookup in a clean tree

  /** A directory shares its name with no other child of its parent. */
  ghost predicate CleanAt(fs: Fs, i: nat)
    requires i < |fs|
  {
    i > 0 && fs[i].isDir ==> forall j :: 0 <= j < |fs| && IsChild(fs, fs[i].parent, fs[i].name, j) ==> j == i
  }

  ghost predicate Clean(fs: Fs) {
    forall i :: 0 <= i < |fs| ==> CleanAt(fs, i)
  }

  ghost predicate PlainAt(fs: Fs, i: nat)
    requires i < |fs|
  {
    i > 0 ==> fs[i].name != SELF && fs[i].name != DOTDOT
  }

  ghost predicate PlainNames(fs: Fs) {
    forall i :: 0 <= i < |fs| ==> PlainAt(fs, i)
  }

  lemma {:induction false} WalkAppend(fs: Fs, cur: nat, p: Path, c: Str)
    requires Tree(fs) && cur < |fs|
    ensures Walk(fs, cur, p + [c]) ==
            match Walk(fs, cur, p) { case None => None case Some(i) => StepInto(fs, i, c) }
    decreases |p|
  {
    assert Hangs(fs, cur);
    if p == [] {
      assert p + [c] == [c];
      if StepInto(fs, cur, c).Some? { assert Walk(fs, StepInto(fs, cur, c).value, []) == StepInto(fs, cur, c); }
    } else {
      assert (p + [c])[0] == p[0] && (p + [c])[1..] == p[1..] + [c];
      match StepInto(fs, cur, p[0])
      case None =>
      case Some(i) => WalkAppend(fs, i, p[1..], c);
    }
  }

  /** Lookup of a node's path finds it when no later node below its parent has its name. */
  lemma WalkLast(fs: Fs, i: nat)
    requires Tree(fs) && PlainNames(fs) && 0 < i < |fs|
    requires Hangs(fs, i) && Walk(fs, 0, PathOf(fs, fs[i].parent)) == Some(fs[i].parent)
    requires forall j :: i < j < |fs| ==> !IsChild(fs, fs[i].parent, fs[i].name, j)
    ensures Walk(fs, 0, PathOf(fs, i)) == Some(i)
  {
    WalkAppend(fs, 0, PathOf(fs, fs[i].parent), fs[i].name);
    assert PlainAt(fs, i);
    ChildIs(fs, fs[i].parent, fs[i].name, |fs|, i);
  }

  lemma {:induction false} WalkDir(fs: Fs, i: nat)
    requires Tree(fs) && PlainNames(fs) && Clean(fs) && i < |fs| && fs[i].isDir
    ensures Walk(fs, 0, PathOf(fs, i)) == Some(i)
    decreases i
  {
    if i > 0 {
      assert Hangs(fs, i) && CleanAt(fs, i);
      WalkDir(fs, fs[i].parent);
      WalkLast(fs, i);
    }
  }

  /** What a plain walk reaches has the path walked. */
  lemma {:induction false} WalkReaches(fs: Fs, cur: nat, p: Path)
    requires Tree(fs) && cur < |fs| && Plain(p)
    ensures var r := Walk(fs, cur, p); r.Some? ==> PathOf(fs, r.value) == PathOf(fs, cur) + p
    decreases |p|
  {
    if p != [] {
      assert Hangs(fs, cur);
      assert PathOf(fs, cur) + [p[0]] + p[1..] == PathOf(fs, cur) + p;
      match StepInto(fs, cur, p[0])
      case None =>
      case Some(i) => WalkReaches(fs, i, p[1..]);
    }
  }

  /** Every step of the way down to a node is a directory. */
  lemma {:induction false} Ancestor(fs: Fs, i: nat, n: nat) returns (a: nat)
    requires Tree(fs) && i < |fs| && n <= |PathOf(fs, i)| && (fs[i].isDir || n < |PathOf(fs, i)|)
    ensures a < |fs| && fs[a].isDir && PathOf(fs, a) == PathOf(fs, i)[..n]
    decreases i
  {
    if n == |PathOf(fs, i)| {
      a := i;
    } else {
      assert Hangs(fs, i);
      a := Ancestor(fs, fs[i].parent, n);
      assert PathOf(fs, i)[..n] == PathOf(fs, fs[i].parent)[..n];
    }
  }

  // ---------------------------------------------------------------- paths with "." and ".."

  /** Where components lead from a path: "." stays, ".." goes up and stays at the root. */
  function Resolve(at: Path, p: Path): Path
    decreases |p|
  {
    if p == [] then at
    else if p[0] == SELF then Resolve(at, p[1..])
    else if p[0] == DOTDOT then Resolve(if at == [] then [] else at[..|at| - 1], p[1..])
    else Resolve(at + [p[0]], p[1..])
  }

  /** Whatever components a lookup has, what it reaches has the path they resolve to. */
  lemma {:induction false} WalkResolves(fs: Fs, cur: nat, p: Path)
    requires Tree(fs) && cur < |fs|
    ensures var r := Walk(fs, cur, p); r.Some? ==> PathOf(fs, r.value) == Resolve(PathOf(fs, cur), p)
    decreases |p|
  {
    if p != [] {
      assert Hangs(fs, cur);
      var next := StepInto(fs, cur, p[0]);
      if next.Some? {
        assert Hangs(fs, next.value);
        WalkResolves(fs, next.value, p[1..]);
      }
    }
  }

  /** One component more. */
  lemma {:induction false} ResolveAppend(at: Path, p: Path, c: Str)
    ensures var q := Resolve(at, p);
            Resolve(at, p + [c]) ==
            if c == SELF then q else if c == DOTDOT then (if q == [] then [] else q[..|q| - 1]) else q + [c]
    decreases |p|
  {
    if p == [] {
      assert p + [c] == [c];
      assert forall x: Path :: Resolve(x, []) == x;
    } else {
      assert (p + [c])[0] == p[0] && (p + [c])[1..] == p[1..] + [c];
      if p[0] == SELF { ResolveAppend(at, p[1..], c); }
      else if p[0] == DOTDOT { ResolveAppend(if at == [] then [] else at[..|at| - 1], p[1..], c); }
      else { ResolveAppend(at + [p[0]], p[1..], c); }
    }
  }

  /** Plain components resolve to themselves. */
  lemma {:induction false} ResolvePlain(at: Path, p: Path)
    requires Plain(p)
    ensures Resolve(at, p) == at + p
    decreases |p|
  {
    if p != [] {
      assert at + [p[0]] + p[1..] == at + p;
      ResolvePlain(at + [p[0]], p[1..]);
    }
  }

  /** Two nodes of one path are the same one if either is a directory. */
  lemma SamePath(fs: Fs, i: nat, j: nat)
    requires Tree(fs) && PlainNames(fs) && Clean(fs) && i < |fs| && j < |fs|
    requires fs[i].isDir && PathOf(fs, i) == PathOf(fs, j)
    ensures i == j
  {
    if i > 0 && j > 0 {
      SameParent(fs, i, j);
      assert CleanAt(fs, i) && IsChild(fs, fs[i].parent, fs[i].name, j);
    }
  }

  lemma SameParent(fs: Fs, i: nat, j: nat)
    requires Tree(fs) && PlainNames(fs) && Clean(fs) && 0 < i < |fs| && 0 < j < |fs|
    requires PathOf(fs, i) == PathOf(fs, j)
    ensures fs[i].parent == fs[j].parent && fs[i].name == fs[j].name
  {
    assert Hangs(fs, i) && Hangs(fs, j);
    var (p, q) := (fs[i].parent, fs[j].parent);
    var (a, b) := (PathOf(fs, p), PathOf(fs, q));
    assert a == (a + [fs[i].name])[..|a|] && b == (b + [fs[j].name])[..|b|];
    assert fs[i].name == (a + [fs[i].name])[|a|] && fs[j].name == (b + [fs[j].name])[|b|];
    WalkDir(fs, p);
    WalkDir(fs, q);
  }

  /** What a lookup reaches is a directory or the newest child of its name. */
  lemma {:induction false} WalkNewest(fs: Fs, p: Path)
    requires Tree(fs)
    ensures var r := Walk(fs, 0, p);
            r.Some? ==> fs[r.value].isDir || Child(fs, fs[r.value].parent, fs[r.value].name, |fs|) == r.value
    decreases |p|
  {
    if p != [] {
      var (q, c) := (p[..|p| - 1], p[|p| - 1]);
      assert q + [c] == p;
      WalkAppend(fs, 0, q, c);
      WalkNewest(fs, q);
      var at := Walk(fs, 0, q);
      if at.Some? { assert Hangs(fs, at.value); }
    }
  }
}
