/** What the mounted tree says of an archive's entries: lookup by path, and the bytes found. */
module ArchiveView {
  import opened CTypes
  import opened Options
  import opened Tokens
  import opened FsTree
  import opened Archive

  /** Entry e calls for a directory at p. */
  ghost predicate Needs(e: Entry, p: Path) { !e.OtherEntry? && p <= e.Dir() }

  /** No path is a file's for e and a directory's for e'. */
  ghost predicate Compatible(e: Entry, e': Entry) { e.FileEntry? ==> !Needs(e', e.Path()) }

  /** No path is both a file's and a directory's, and none has a component "." or "..", of which
      ensure_dir would make directories of these names. */
  ghost predicate NoClash(es: seq<Entry>) {
    && (forall k :: 0 <= k < |es| ==> Plain(es[k].Path()))
    && (forall k, l :: 0 <= k < |es| && 0 <= l < |es| ==> Compatible(es[k], es[l]))
  }

  /** The node that file entry k became. */
  function FileNode(es: seq<Entry>, k: nat): nat
    requires k < |es|
  {
    |Build(es, k + 1)| - 1
  }

  // ---------------------------------------------------------------- keeping the tree clean

  /** r may join fs: if a directory, nothing there has its name; if a file, no directory has. */
  ghost predicate Joins(fs: Fs, r: Rec) {
    && r.parent < |fs| && fs[r.parent].isDir && r.name != SELF && r.name != DOTDOT
    && forall j :: 0 <= j < |fs| && IsChild(fs, r.parent, r.name, j) ==> !r.isDir && !fs[j].isDir
  }

  ghost predicate Sound(fs: Fs) { Tree(fs) && Clean(fs) && PlainNames(fs) }

  lemma JoinSound(fs: Fs, r: Rec)
    requires Sound(fs) && Joins(fs, r)
    ensures Sound(fs + [r])
  {
    var g := fs + [r];
    ExtendTree(fs, r);
    forall i | 0 <= i < |g| ensures CleanAt(g, i) && PlainAt(g, i) {
      if i < |fs| { assert CleanAt(fs, i) && PlainAt(fs, i); }
      forall j | 0 <= j < |g| && i > 0 && g[i].isDir && IsChild(g, g[i].parent, g[i].name, j) ensures j == i {
        if i < |fs| && j == |fs| { assert IsChild(fs, r.parent, r.name, i); }
        if i < |fs| && j < |fs| { assert IsChild(fs, fs[i].parent, fs[i].name, j); }
        if i == |fs| && j < |fs| { assert IsChild(fs, r.parent, r.name, j); }
      }
    }
  }

  /** No file of fs stands on the path p. */
  ghost predicate ClearTo(fs: Fs, p: Path)
    requires Tree(fs)
  {
    forall j :: 0 <= j < |fs| && !fs[j].isDir ==> !(PathOf(fs, j) <= p)
  }

  lemma ChildPath(fs: Fs, dir: nat, c: Str, j: nat)
    requires Tree(fs) && dir < |fs| && j < |fs|
    ensures IsChild(fs, dir, c, j) ==> PathOf(fs, j) == PathOf(fs, dir) + [c]
  {
    assert Hangs(fs, j);
  }

  lemma NewDirJoins(fs: Fs, cur: nat, c: Str, p: Path)
    requires Sound(fs) && cur < |fs| && fs[cur].isDir && c != SELF && c != DOTDOT
    requires ChildDir(fs, cur, c, |fs|) == 0 && ClearTo(fs, p) && PathOf(fs, cur) + [c] <= p
    ensures Joins(fs, NewDir(c, cur))
  {
    forall j | 0 <= j < |fs| ensures !IsChild(fs, cur, c, j) { ChildPath(fs, cur, c, j); }
  }

  lemma ClearGrows(fs: Fs, r: Rec, p: Path)
    requires Tree(fs) && ClearTo(fs, p) && r.parent < |fs| && fs[r.parent].isDir && r.isDir
    ensures Tree(fs + [r]) && ClearTo(fs + [r], p)
  {
    ExtendTree(fs, r);
    forall j | 0 <= j < |fs + [r]| && !(fs + [r])[j].isDir ensures !(PathOf(fs + [r], j) <= p) {
      PathStays(fs, fs + [r], j);
    }
  }

  lemma {:induction false} EnsureSound(fs: Fs, cur: nat, comps: Path)
    requires Sound(fs) && cur < |fs| && fs[cur].isDir && Plain(comps) && ClearTo(fs, PathOf(fs, cur) + comps)
    ensures Sound(EnsureDir(fs, cur, comps).0)
    decreases |comps|
  {
    if comps != [] {
      var p := PathOf(fs, cur) + comps;
      assert PathOf(fs, cur) + [comps[0]] + comps[1..] == p;
      var c, rest := ChildDir(fs, cur, comps[0], |fs|), comps[1..];
      if c != 0 {
        EnsureSound(fs, c, rest);
      } else {
        var r := NewDir(comps[0], cur);
        NewDirJoins(fs, cur, comps[0], p);
        JoinSound(fs, r);
        ExtendTree(fs, r);
        ClearGrows(fs, r, p);
        EnsureSound(fs + [r], |fs|, rest);
      }
    }
  }

  lemma PermOnly(fs: Fs, d: nat, perm: nat)
    requires Sound(fs) && d < |fs| && fs[d].isDir
    ensures var g := fs[d := fs[d].(perm := perm)]; Sound(g) && Grew(fs, g)
  {
    var g := fs[d := fs[d].(perm := perm)];
    forall i | 0 <= i < |g| ensures Hangs(g, i) { assert Hangs(fs, i); }
    forall i | 0 <= i < |g| ensures KeepsNode(fs, g, i) { }
    forall i | 0 <= i < |g| ensures CleanAt(g, i) && PlainAt(g, i) {
      assert CleanAt(fs, i) && PlainAt(fs, i);
      forall j | 0 <= j < |g| && i > 0 && g[i].isDir && IsChild(g, g[i].parent, g[i].name, j) ensures j == i {
        assert IsChild(fs, fs[i].parent, fs[i].name, j);
      }
    }
  }

  // ---------------------------------------------------------------- the tree stands for the entries

  /** Node i comes from one of the first n entries. */
  ghost predicate Accounted(es: seq<Entry>, n: nat, fs: Fs, i: nat)
    requires n <= |es| && i < |fs| && Tree(fs)
  {
    if fs[i].isDir then PathOf(fs, i) == [] || exists l :: 0 <= l < n && Needs(es[l], PathOf(fs, i))
    else exists k :: 0 <= k < n && es[k].FileEntry? && FileNode(es, k) == i
  }

  /** File entry k is in the tree, with its path, permissions and extent in the image. */
  ghost predicate FileIn(es: seq<Entry>, fs: Fs, k: nat)
    requires k < |es| && Tree(fs)
  {
    var (e, i) := (es[k], FileNode(es, k));
    && i < |fs| && !fs[i].isDir && PathOf(fs, i) == e.Path()
    && fs[i].size == |e.data| && fs[i].off == HeaderOff(es, k) + BLOCK
    && fs[i].perm == (if e.mode != 0 then e.mode else 420)
  }

  /** The directory entry l needs is in the tree. */
  ghost predicate DirIn(es: seq<Entry>, fs: Fs, l: nat)
    requires l < |es| && Tree(fs)
  {
    exists d :: 0 <= d < |fs| && fs[d].isDir && PathOf(fs, d) == es[l].Dir()
  }

  ghost predicate AllAccounted(es: seq<Entry>, n: nat, fs: Fs)
    requires n <= |es| && Tree(fs)
  {
    forall i :: 0 <= i < |fs| ==> Accounted(es, n, fs, i)
  }

  ghost predicate Stands(es: seq<Entry>, n: nat, fs: Fs)
    requires n <= |es|
  {
    && Sound(fs)
    && AllAccounted(es, n, fs)
    && (forall k :: 0 <= k < n && es[k].FileEntry? ==> FileIn(es, fs, k))
    && (forall l :: 0 <= l < n && !es[l].OtherEntry? ==> DirIn(es, fs, l))
  }

  lemma StandsSound(es: seq<Entry>, n: nat, fs: Fs)
    requires n <= |es| && Stands(es, n, fs)
    ensures Sound(fs)
  {
  }

  lemma RootPath(fs: Fs)
    requires Tree(fs)
    ensures PathOf(fs, 0) == [] && forall p: Path :: [] + p == p
  {
  }

  /** What stands goes on standing as the tree grows. */
  lemma InGrown(es: seq<Entry>, n: nat, fs: Fs, g: Fs)
    requires n <= |es| && Stands(es, n, fs) && Tree(g) && Grew(fs, g)
    ensures forall k :: 0 <= k < n && es[k].FileEntry? ==> FileIn(es, g, k)
    ensures forall l :: 0 <= l < n && !es[l].OtherEntry? ==> DirIn(es, g, l)
  {
    forall k | 0 <= k < n && es[k].FileEntry? ensures FileIn(es, g, k) {
      assert FileIn(es, fs, k);
      PathStays(fs, g, FileNode(es, k));
      assert KeepsNode(fs, g, FileNode(es, k));
    }
    forall l | 0 <= l < n && !es[l].OtherEntry? ensures DirIn(es, g, l) {
      assert DirIn(es, fs, l);
      var d :| 0 <= d < |fs| && fs[d].isDir && PathOf(fs, d) == es[l].Dir();
      PathStays(fs, g, d);
      assert KeepsNode(fs, g, d);
    }
  }

  lemma AccountedGrown(es: seq<Entry>, n: nat, fs: Fs, g: Fs, i: nat)
    requires n < |es| && Stands(es, n, fs) && Tree(g) && Grew(fs, g) && i < |fs|
    ensures Accounted(es, n + 1, g, i)
  {
    assert Accounted(es, n, fs, i);
    PathStays(fs, g, i);
    assert KeepsNode(fs, g, i);
    if fs[i].isDir && PathOf(fs, i) != [] {
      var l :| 0 <= l < n && Needs(es[l], PathOf(fs, i));
    }
  }

  lemma StandsClear(es: seq<Entry>, n: nat, fs: Fs)
    requires n < |es| && NoClash(es) && Stands(es, n, fs) && !es[n].OtherEntry?
    ensures ClearTo(fs, es[n].Dir())
  {
    forall j | 0 <= j < |fs| && !fs[j].isDir ensures !(PathOf(fs, j) <= es[n].Dir()) {
      assert Accounted(es, n, fs, j);
      var k :| 0 <= k < n && es[k].FileEntry? && FileNode(es, k) == j;
      assert FileIn(es, fs, k) && Compatible(es[k], es[n]);
    }
  }

  lemma EnsuredAccounted(es: seq<Entry>, n: nat, fs: Fs, i: nat)
    requires n < |es| && Stands(es, n, fs) && !es[n].OtherEntry?
    requires |fs| > 0 && i < |EnsureDir(fs, 0, es[n].Dir()).0|
    ensures Tree(EnsureDir(fs, 0, es[n].Dir()).0) && Accounted(es, n + 1, EnsureDir(fs, 0, es[n].Dir()).0, i)
    ensures var g := EnsureDir(fs, 0, es[n].Dir()).0; i >= |fs| ==> g[i].isDir && PathOf(g, i) <= es[n].Dir()
  {
    hide Entry.Dir, Build, EnsureDir;
    var p := es[n].Dir();
    assert PathOf(fs, 0) == [] && [] + p == p;
    EnsureDirMakes(fs, 0, p);
    var g := EnsureDir(fs, 0, p).0;
    if i < |fs| { AccountedGrown(es, n, fs, g, i); }
    else {
      EnsureDirAdds(fs, 0, p, i);
      assert Needs(es[n], PathOf(g, i));
    }
  }

  /** The directory part of adding entry n: the directory is there. */
  lemma EnsureMakes(es: seq<Entry>, n: nat, fs: Fs)
    requires n < |es| && NoClash(es) && Stands(es, n, fs) && !es[n].OtherEntry? && Plain(es[n].Dir())
    ensures |fs| > 0
    ensures var (g, d) := EnsureDir(fs, 0, es[n].Dir());
            && Sound(g) && Grew(fs, g) && g[d].isDir && PathOf(g, d) == es[n].Dir() && DirIn(es, g, n)
  {
    hide Entry.Dir, Build, Accounted, Clean, PlainNames, NoClash, EnsureDir, Stands, Plain, Grew, Extends, PathOf;
    var p := es[n].Dir();
    StandsSound(es, n, fs);
    RootPath(fs);
    StandsClear(es, n, fs);
    EnsureDirMakes(fs, 0, p);
    EnsureSound(fs, 0, p);
  }

  /** What it adds is accounted for. */
  lemma EnsureStands(es: seq<Entry>, n: nat, fs: Fs)
    requires n < |es| && NoClash(es) && Stands(es, n, fs) && !es[n].OtherEntry? && Plain(es[n].Dir())
    ensures |fs| > 0
    ensures var (g, d) := EnsureDir(fs, 0, es[n].Dir());
            && Sound(g) && Grew(fs, g) && g[d].isDir && PathOf(g, d) == es[n].Dir() && DirIn(es, g, n)
            && AllAccounted(es, n + 1, g)
            && (forall i :: |fs| <= i < |g| ==> g[i].isDir && PathOf(g, i) <= es[n].Dir())
  {
    hide Entry.Dir, Build, Accounted, Clean, PlainNames, NoClash, EnsureDir, Stands, Plain, Grew, PathOf, DirIn, Tree;
    EnsureMakes(es, n, fs);
    var (p, m) := (es[n].Dir(), n + 1);
    var g := EnsureDir(fs, 0, p).0;
    forall i | 0 <= i < |g| ensures Accounted(es, m, g, i) && (i >= |fs| ==> g[i].isDir && PathOf(g, i) <= p) {
      EnsuredAccounted(es, n, fs, i);
    }
  }

  lemma AccountedSame(es: seq<Entry>, n: nat, g: Fs, h: Fs, i: nat)
    requires n <= |es| && Tree(g) && Tree(h) && Grew(g, h) && i < |g| && Accounted(es, n, g, i)
    ensures Accounted(es, n, h, i)
  {
    PathStays(g, h, i);
    assert KeepsNode(g, h, i);
  }

  lemma StandsPerm(es: seq<Entry>, n: nat, g: Fs, d: nat, perm: nat)
    requires n <= |es| && Stands(es, n, g) && d < |g| && g[d].isDir
    ensures Stands(es, n, g[d := g[d].(perm := perm)])
  {
    hide Accounted, FileIn, DirIn, Tree, Clean, PlainNames, Grew;
    var h := g[d := g[d].(perm := perm)];
    PermOnly(g, d, perm);
    InGrown(es, n, g, h);
    forall i | 0 <= i < |h| ensures Accounted(es, n, h, i) {
      assert Accounted(es, n, g, i);
      AccountedSame(es, n, g, h, i);
    }
  }

  lemma StandsEnsured(es: seq<Entry>, n: nat, fs: Fs)
    requires |fs| > 0
    requires n < |es| && NoClash(es) && Stands(es, n, fs) && es[n].DirEntry? && Plain(es[n].Dir())
    ensures Stands(es, n + 1, EnsureDir(fs, 0, es[n].Dir()).0)
  {
    hide Accounted, FileIn, DirIn, Tree, Clean, PlainNames, Grew, NoClash, Plain, EnsureDir, Entry.Dir, PathOf;
    EnsureStands(es, n, fs);
    InGrown(es, n, fs, EnsureDir(fs, 0, es[n].Dir()).0);
  }

  lemma PlainEntry(es: seq<Entry>, n: nat)
    requires n < |es| && NoClash(es)
    ensures Plain(es[n].Path()) && Plain(es[n].Dir())
  {
  }

  lemma StandsDir(es: seq<Entry>, n: nat, fs: Fs)
    requires |fs| > 0
    requires n < |es| && NoClash(es) && Stands(es, n, fs) && es[n].DirEntry? && es[n].WellFormed()
    ensures Stands(es, n + 1, AddDir(fs, es[n].raw, es[n].mode))
  {
    hide DirComps, Stands, NoClash, Split;
    DirParts(es[n]);
    PlainEntry(es, n);
    StandsEnsured(es, n, fs);
    EnsureStands(es, n, fs);
    var (g, d) := EnsureDir(fs, 0, es[n].Dir());
    if es[n].mode != 0 { StandsPerm(es, n + 1, g, d, es[n].mode); }
  }

  /** A directory of the tree does not have file entry n's path. */
  lemma DirElsewhere(es: seq<Entry>, n: nat, m: nat, g: Fs, j: nat)
    requires n < m <= |es| && NoClash(es) && es[n].FileEntry? && es[n].Path() != []
    requires Tree(g) && j < |g| && g[j].isDir && Accounted(es, m, g, j)
    ensures PathOf(g, j) != es[n].Path()
  {
    if PathOf(g, j) != [] {
      var l :| 0 <= l < m && Needs(es[l], PathOf(g, j));
      assert Compatible(es[n], es[l]);
    }
  }

  /** A file's last component may join its directory: no directory there has its name. */
  lemma FileJoins(es: seq<Entry>, n: nat, g: Fs, r: Rec)
    requires n < |es| && NoClash(es) && es[n].FileEntry? && es[n].Path() == es[n].Dir() + [r.name]
    requires Tree(g) && AllAccounted(es, n + 1, g) && r.name != SELF && r.name != DOTDOT && !r.isDir
    requires r.parent < |g| && g[r.parent].isDir && PathOf(g, r.parent) == es[n].Dir()
    ensures Joins(g, r)
  {
    var m := n + 1;
    forall j | 0 <= j < |g| ensures IsChild(g, r.parent, r.name, j) ==> !g[j].isDir {
      ChildPath(g, r.parent, r.name, j);
      assert Accounted(es, m, g, j);
      if g[j].isDir { DirElsewhere(es, n, m, g, j); }
    }
  }

  lemma JoinedAccounted(es: seq<Entry>, n: nat, g: Fs, r: Rec)
    requires n < |es| && es[n].FileEntry? && Tree(g) && Tree(g + [r]) && Grew(g, g + [r])
    requires AllAccounted(es, n + 1, g) && !r.isDir && FileNode(es, n) == |g|
    ensures AllAccounted(es, n + 1, g + [r])
  {
    hide Accounted, Tree, Grew, Build, PathOf;
    var (h, m) := (g + [r], n + 1);
    forall i | 0 <= i < |h| ensures Accounted(es, m, h, i) {
      if i < |g| {
        assert Accounted(es, m, g, i);
        AccountedSame(es, m, g, h, i);
      } else {
        FileAccounted(es, n, h, i);
      }
    }
  }

  lemma JoinedFile(es: seq<Entry>, n: nat, g: Fs, r: Rec)
    requires n < |es| && es[n].FileEntry? && Tree(g) && Tree(g + [r]) && Grew(g, g + [r]) && r.parent < |g|
    requires !r.isDir && r.size == |es[n].data| && r.off == HeaderOff(es, n) + BLOCK
    requires r.perm == (if es[n].mode != 0 then es[n].mode else 420)
    requires PathOf(g, r.parent) + [r.name] == es[n].Path() && Build(es, n + 1) == g + [r]
    ensures FileIn(es, g + [r], n)
  {
    hide Build, Entry.Path, HeaderOff, Grew;
    assert Hangs(g + [r], |g|);
    PathStays(g, g + [r], r.parent);
  }

  lemma StandsJoined(es: seq<Entry>, n: nat, fs: Fs, g: Fs, r: Rec)
    requires n < |es| && NoClash(es) && Stands(es, n, fs) && es[n].FileEntry?
    requires Sound(g) && Grew(fs, g) && AllAccounted(es, n + 1, g) && DirIn(es, g, n) && Joins(g, r)
    requires !r.isDir && r.size == |es[n].data| && r.off == HeaderOff(es, n) + BLOCK
    requires r.perm == (if es[n].mode != 0 then es[n].mode else 420)
    requires PathOf(g, r.parent) + [r.name] == es[n].Path() && Build(es, n + 1) == g + [r]
    ensures Stands(es, n + 1, g + [r])
  {
    hide NoClash, Build, Clean, PlainNames, Accounted, Entry.Path, Entry.Dir, DirIn, FileIn, AllAccounted, PathOf, Grew,
        HeaderOff, Tree;
    var h := g + [r];
    JoinSound(g, r);
    JoinGrew(g, r);
    GrewTrans(fs, g, h);
    InGrown(es, n, fs, h);
    DirInGrown(es, n, g, h);
    JoinedFile(es, n, g, r);
    JoinedAccounted(es, n, g, r);
  }

  lemma JoinGrew(g: Fs, r: Rec)
    requires Tree(g) && r.parent < |g| && g[r.parent].isDir
    ensures Tree(g + [r]) && Grew(g, g + [r])
  {
    ExtendTree(g, r);
  }

  lemma FileAccounted(es: seq<Entry>, n: nat, h: Fs, i: nat)
    requires n < |es| && es[n].FileEntry? && Tree(h) && i < |h| && !h[i].isDir && FileNode(es, n) == i
    ensures Accounted(es, n + 1, h, i)
  {
  }

  lemma DirInGrown(es: seq<Entry>, l: nat, g: Fs, h: Fs)
    requires l < |es| && Tree(g) && Tree(h) && Grew(g, h) && DirIn(es, g, l)
    ensures DirIn(es, h, l)
  {
    var d :| 0 <= d < |g| && g[d].isDir && PathOf(g, d) == es[l].Dir();
    PathStays(g, h, d);
    assert KeepsNode(g, h, d);
  }

  lemma FilePlain(e: Entry)
    requires e.WellFormed() && e.FileEntry? && Plain(e.Path())
    ensures Plain(e.Dir()) && var base := BasePart(StripDot(e.raw)); base != SELF && base != DOTDOT
  {
    hide Split, StripDot, BasePart;
    FileParts(e);
    assert forall i :: 0 <= i < |e.Dir()| ==> e.Dir()[i] == e.Path()[i];
    assert BasePart(StripDot(e.raw)) == e.Path()[|e.Path()| - 1];
  }

  lemma StandsFile(es: seq<Entry>, n: nat, fs: Fs)
    requires n < |es| && NoClash(es) && Stands(es, n, fs) && es[n].FileEntry? && es[n].WellFormed()
    requires fs == Build(es, n)
    ensures Stands(es, n + 1, Build(es, n + 1))
  {
    hide Stands, NoClash, Split, DirComps, DirPart, BasePart, StripDot, Plain;
    var e := es[n];
    PlainEntry(es, n);
    FileParts(e);
    FilePlain(e);
    EnsureStands(es, n, fs);
    var (g, d) := EnsureDir(fs, 0, e.Dir());
    var r := FileRec(BasePart(StripDot(e.raw)), d, e.mode, |e.data|, HeaderOff(es, n) + BLOCK);
    assert Build(es, n + 1) == g + [r];
    FileJoins(es, n, g, r);
    StandsJoined(es, n, fs, g, r);
  }

  lemma StandsOther(es: seq<Entry>, n: nat, fs: Fs)
    requires n < |es| && Stands(es, n, fs) && es[n].OtherEntry?
    ensures Stands(es, n + 1, fs)
  {
    var m := n + 1;
    forall i | 0 <= i < |fs| ensures Accounted(es, m, fs, i) {
      assert Accounted(es, n, fs, i);
    }
  }

  ghost predicate Ordinary(es: seq<Entry>) {
    NoClash(es) && forall k :: 0 <= k < |es| ==> es[k].WellFormed()
  }

  lemma RootStands(es: seq<Entry>)
    ensures Stands(es, 0, [ROOT])
  {
    assert Hangs([ROOT], 0) && CleanAt([ROOT], 0) && PlainAt([ROOT], 0);
    assert Accounted(es, 0, [ROOT], 0);
  }

  lemma StandsNext(es: seq<Entry>, n: nat)
    requires n < |es| && NoClash(es) && es[n].WellFormed() && Stands(es, n, Build(es, n))
    ensures Stands(es, n + 1, Build(es, n + 1))
  {
    hide Stands, NoClash, AddDir, AddFile, Entry.WellFormed, HeaderOff;
    var (e, fs) := (es[n], Build(es, n));
    assert Build(es, n + 1) == AddEntry(fs, e, HeaderOff(es, n) + BLOCK);
    match e
    case FileEntry(_, _, _) => StandsFile(es, n, fs);
    case DirEntry(_, _, _) => StandsDir(es, n, fs);
    case OtherEntry(_, _, _) => StandsOther(es, n, fs);
  }

  /** The tree built from the first n entries stands for them. */
  lemma {:induction false} BuildStands(es: seq<Entry>, n: nat)
    requires Ordinary(es) && n <= |es|
    ensures Stands(es, n, Build(es, n))
  {
    hide Stands, NoClash, AddEntry, Entry.WellFormed;
    if n == 0 {
      RootStands(es);
    } else {
      BuildStands(es, n - 1);
      StandsNext(es, n - 1);
    }
  }

  // ---------------------------------------------------------------- permissions of directories

  /** The last mode but 0 that a directory entry among the first n gives the path p, or 0755. */
  ghost function DirMode(es: seq<Entry>, n: nat, p: Path): nat
    requires n <= |es|
  {
    if n == 0 then 493
    else if es[n - 1].DirEntry? && es[n - 1].Path() == p && es[n - 1].mode != 0 then es[n - 1].mode
    else DirMode(es, n - 1, p)
  }

  lemma {:induction false} DirModeNone(es: seq<Entry>, n: nat, p: Path)
    requires n <= |es| && forall l :: 0 <= l < n && es[l].DirEntry? ==> es[l].Path() != p
    ensures DirMode(es, n, p) == 493
  {
    hide Entry.Path;
    if n > 0 { DirModeNone(es, n - 1, p); }
  }

  /** Node i, if a directory, has the mode of its path. */
  ghost predicate ModeIs(es: seq<Entry>, n: nat, fs: Fs, i: nat)
    requires n <= |es| && Tree(fs) && i < |fs|
  {
    fs[i].isDir ==> fs[i].perm == DirMode(es, n, PathOf(fs, i))
  }

  ghost predicate ModesAre(es: seq<Entry>, n: nat, fs: Fs)
    requires n <= |es| && Tree(fs)
  {
    forall i :: 0 <= i < |fs| ==> ModeIs(es, n, fs, i)
  }

  /** A directory that ensure_dir adds has a path no entry before gave a mode. */
  lemma NewDirMode(es: seq<Entry>, n: nat, fs: Fs, g: Fs, i: nat)
    requires n < |es| && Stands(es, n, fs) && Sound(g) && Grew(fs, g) && |fs| <= i < |g| && g[i].isDir
    ensures DirMode(es, n, PathOf(g, i)) == 493
  {
    hide DirMode, Entry.Path, PathOf, Clean, PlainNames;
    var p := PathOf(g, i);
    forall l | 0 <= l < n && es[l].DirEntry? ensures es[l].Path() != p {
      assert DirIn(es, fs, l);
      DirInGrown(es, l, fs, g);
      var d :| 0 <= d < |fs| && fs[d].isDir && PathOf(fs, d) == es[l].Dir();
      PathStays(fs, g, d);
      assert KeepsNode(fs, g, d);
      if es[l].Path() == p { SamePath(g, i, d); }
    }
    DirModeNone(es, n, p);
  }

  lemma EnsuredModes(es: seq<Entry>, n: nat, fs: Fs)
    requires n < |es| && NoClash(es) && Stands(es, n, fs) && !es[n].OtherEntry? && Plain(es[n].Dir())
    requires |fs| > 0 && ModesAre(es, n, fs)
    ensures var g := EnsureDir(fs, 0, es[n].Dir()).0; Sound(g) && ModesAre(es, n, g)
  {
    hide DirMode, Entry.Dir, EnsureDir, Clean, PlainNames, Plain, NoClash, Stands, Accounted;
    StandsSound(es, n, fs);
    EnsureStands(es, n, fs);
    var p := es[n].Dir();
    var g := EnsureDir(fs, 0, p).0;
    EnsureDirMakes(fs, 0, p);
    forall i | 0 <= i < |g| ensures ModeIs(es, n, g, i) {
      if i < |fs| {
        assert ModeIs(es, n, fs, i);
        PathStays(fs, g, i);
      } else {
        EnsureDirAdds(fs, 0, p, i);
        NewDirMode(es, n, fs, g, i);
      }
    }
  }

  lemma GivenMode(es: seq<Entry>, n: nat, g: Fs, d: nat)
    requires n < |es| && Sound(g) && ModesAre(es, n, g) && es[n].DirEntry? && es[n].mode != 0
    requires d < |g| && g[d].isDir && PathOf(g, d) == es[n].Path()
    ensures var h := g[d := g[d].(perm := es[n].mode)]; Tree(h) && ModesAre(es, n + 1, h)
  {
    hide Entry.Path, Clean, PlainNames, PathOf;
    var (h, m) := (g[d := g[d].(perm := es[n].mode)], n + 1);
    PermOnly(g, d, es[n].mode);
    forall i | 0 <= i < |h| ensures ModeIs(es, m, h, i) {
      assert ModeIs(es, n, g, i);
      PathStays(g, h, i);
      if i != d && g[i].isDir && PathOf(g, i) == es[n].Path() { SamePath(g, i, d); }
    }
  }

  lemma SameModes(es: seq<Entry>, n: nat, g: Fs)
    requires n < |es| && Tree(g) && ModesAre(es, n, g) && (es[n].DirEntry? ==> es[n].mode == 0)
    ensures ModesAre(es, n + 1, g)
  {
    hide Entry.Path;
    var m := n + 1;
    forall i | 0 <= i < |g| ensures ModeIs(es, m, g, i) { assert ModeIs(es, n, g, i); }
  }

  lemma JoinedModes(es: seq<Entry>, n: nat, g: Fs, r: Rec)
    requires n <= |es| && Tree(g) && ModesAre(es, n, g) && r.parent < |g| && g[r.parent].isDir && !r.isDir
    ensures Tree(g + [r]) && ModesAre(es, n, g + [r])
  {
    hide DirMode;
    var h := g + [r];
    ExtendTree(g, r);
    forall i | 0 <= i < |h| ensures ModeIs(es, n, h, i) {
      if i < |g| {
        assert ModeIs(es, n, g, i);
        PathStays(g, h, i);
      }
    }
  }

  lemma ModesNext(es: seq<Entry>, n: nat)
    requires n < |es| && Ordinary(es) && Stands(es, n, Build(es, n)) && ModesAre(es, n, Build(es, n))
    ensures Tree(Build(es, n + 1)) && ModesAre(es, n + 1, Build(es, n + 1))
  {
    hide Stands, NoClash, EnsureDir, DirComps, DirPart, BasePart, StripDot, Plain, ModesAre, Split, Clean, PlainNames;
    var (e, fs) := (es[n], Build(es, n));
    StandsSound(es, n, fs);
    if e.OtherEntry? {
      SameModes(es, n, fs);
    } else {
      PlainEntry(es, n);
      EnsureStands(es, n, fs);
      EnsuredModes(es, n, fs);
      var (g, d) := EnsureDir(fs, 0, e.Dir());
      if e.FileEntry? {
        FileParts(e);
        SameModes(es, n, g);
        var r := FileRec(BasePart(StripDot(e.raw)), d, e.mode, |e.data|, HeaderOff(es, n) + BLOCK);
        JoinedModes(es, n + 1, g, r);
      } else {
        DirParts(e);
        if e.mode != 0 { GivenMode(es, n, g, d); } else { SameModes(es, n, g); }
      }
    }
  }

  lemma RootModes(es: seq<Entry>)
    ensures Tree(Build(es, 0)) && ModesAre(es, 0, Build(es, 0))
  {
    assert Hangs([ROOT], 0) && ModeIs(es, 0, [ROOT], 0);
  }

  /** Every directory of the tree has the last mode its entries give it, or 0755. */
  lemma {:induction false} BuildModes(es: seq<Entry>, n: nat)
    requires Ordinary(es) && n <= |es|
    ensures Tree(Build(es, n)) && ModesAre(es, n, Build(es, n))
  {
    hide Stands, NoClash, AddEntry, Entry.WellFormed, Clean, PlainNames;
    if n > 0 {
      BuildStands(es, n - 1);
      BuildModes(es, n - 1);
      ModesNext(es, n - 1);
    } else {
      RootModes(es);
    }
  }

  // ---------------------------------------------------------------- lookup by path

  /** No later file entry has the path of file entry k. */
  ghost predicate LastOfPath(es: seq<Entry>, k: nat)
    requires k < |es|
  {
    forall j :: k < j < |es| && es[j].FileEntry? ==> es[j].Path() != es[k].Path()
  }

  lemma {:induction false} BuildGrows(es: seq<Entry>, k: nat, n: nat)
    requires k <= n <= |es|
    ensures |Build(es, k)| <= |Build(es, n)|
    decreases n - k
  {
    hide AddEntry;
    if k < n { BuildGrows(es, k, n - 1); }
  }

  /** Lookup of a file's path finds the last entry with that path. */
  lemma LookupFile(es: seq<Entry>, fs: Fs, k: nat)
    requires Ordinary(es) && Stands(es, |es|, fs) && k < |es| && es[k].FileEntry? && LastOfPath(es, k)
    ensures Walk(fs, 0, es[k].Path()) == Some(FileNode(es, k)) && FileIn(es, fs, k)
  {
    hide Entry.WellFormed, NoClash, Build, Split;
    assert FileIn(es, fs, k);
    var i := FileNode(es, k);
    assert Hangs(fs, i);
    assert es[k].WellFormed();
    FilePathNonempty(es[k]);
    WalkDir(fs, fs[i].parent);
    forall j | i < j < |fs| ensures !IsChild(fs, fs[i].parent, fs[i].name, j) {
      NoRival(es, fs, k, j);
    }
    WalkLast(fs, i);
  }

  lemma FilePathNonempty(e: Entry)
    requires e.WellFormed() && e.FileEntry?
    ensures e.Path() != []
  {
  }

  lemma RivalDir(fs: Fs, i: nat, j: nat)
    requires Sound(fs) && 0 < i < j < |fs| && fs[j].isDir
    ensures !IsChild(fs, fs[i].parent, fs[i].name, j)
  {
    assert CleanAt(fs, j);
    assert IsChild(fs, fs[i].parent, fs[i].name, i);
  }

  lemma RivalFile(es: seq<Entry>, fs: Fs, k: nat, j: nat)
    requires Tree(fs) && k < |es| && es[k].FileEntry? && LastOfPath(es, k) && FileIn(es, fs, k)
    requires FileNode(es, k) < j < |fs| && !fs[j].isDir && Accounted(es, |es|, fs, j)
    requires forall l :: 0 <= l < |es| && es[l].FileEntry? ==> FileIn(es, fs, l)
    ensures PathOf(fs, j) != es[k].Path()
  {
    hide Build, Entry.Path, Entry.Dir, HeaderOff, PathOf, Tree;
    var l :| 0 <= l < |es| && es[l].FileEntry? && FileNode(es, l) == j;
    assert FileIn(es, fs, l);
    if l < k { BuildGrows(es, l + 1, k + 1); }
  }

  /** A later node below the same directory does not have the same name: not a directory, for
      the tree is clean, and not a file, for its entry would be later. */
  lemma NoRival(es: seq<Entry>, fs: Fs, k: nat, j: nat)
    requires Stands(es, |es|, fs) && k < |es| && es[k].FileEntry? && LastOfPath(es, k) && FileIn(es, fs, k)
    requires 0 < FileNode(es, k) < j < |fs|
    ensures !IsChild(fs, fs[FileNode(es, k)].parent, fs[FileNode(es, k)].name, j)
  {
    hide Build, Entry.Path, Entry.Dir, HeaderOff, LastOfPath, Accounted, Clean, PlainNames;
    var i := FileNode(es, k);
    if fs[j].isDir {
      RivalDir(fs, i, j);
    } else {
      assert Hangs(fs, i) && Accounted(es, |es|, fs, j);
      RivalFile(es, fs, k, j);
      ChildPath(fs, fs[i].parent, fs[i].name, j);
    }
  }

  /** Lookup of a directory entry, or of a directory on the way to an entry, finds it. */
  lemma LookupDir(es: seq<Entry>, fs: Fs, l: nat, p: Path)
    requires Stands(es, |es|, fs) && l < |es| && Needs(es[l], p)
    ensures var r := Walk(fs, 0, p); r.Some? && fs[r.value].isDir && PathOf(fs, r.value) == p
  {
    hide Build, Entry.Path, Entry.Dir;
    assert DirIn(es, fs, l);
    var d :| 0 <= d < |fs| && fs[d].isDir && PathOf(fs, d) == es[l].Dir();
    var a := Ancestor(fs, d, |p|);
    WalkDir(fs, a);
    assert p == es[l].Dir()[..|p|];
  }

  /** Entry e has p as its file's path or calls for a directory at p. */
  ghost predicate Explains(e: Entry, p: Path) {
    Needs(e, p) || (e.FileEntry? && e.Path() == p)
  }

  lemma NodeExplained(es: seq<Entry>, fs: Fs, i: nat)
    requires Stands(es, |es|, fs) && i < |fs| && PathOf(fs, i) != []
    ensures exists k :: 0 <= k < |es| && Explains(es[k], PathOf(fs, i))
  {
    hide Build, Entry.Path, Entry.Dir;
    assert Accounted(es, |es|, fs, i);
    if fs[i].isDir {
      var l :| 0 <= l < |es| && Needs(es[l], PathOf(fs, i));
      assert Explains(es[l], PathOf(fs, i));
    } else {
      var k :| 0 <= k < |es| && es[k].FileEntry? && FileNode(es, k) == i;
      assert FileIn(es, fs, k);
      assert Explains(es[k], PathOf(fs, i));
    }
  }

  /** The archive has an entry at this path, or below it, or it is the root. */
  ghost predicate Known(es: seq<Entry>, p: Path) { p == [] || exists k :: 0 <= k < |es| && Explains(es[k], p) }

  /** Lookup of a plain path succeeds exactly when the archive knows it. */
  lemma LookupPlainIff(es: seq<Entry>, fs: Fs, p: Path)
    requires Ordinary(es) && Stands(es, |es|, fs) && Plain(p)
    ensures Walk(fs, 0, p).Some? <==> Known(es, p)
  {
    hide Build, Entry.Path, Entry.Dir, Entry.WellFormed, Clean, PlainNames;
    var r := Walk(fs, 0, p);
    WalkReaches(fs, 0, p);
    assert [] + p == p;
    if r.Some? && p != [] { NodeExplained(es, fs, r.value); }
    if p != [] && exists k :: 0 <= k < |es| && Explains(es[k], p) {
      var k :| 0 <= k < |es| && Explains(es[k], p);
      if Needs(es[k], p) { LookupDir(es, fs, k, p); }
      else {
        var j := LastWith(es, k);
        LookupFile(es, fs, j);
      }
    }
  }

  /** The last file entry with entry k's path. */
  lemma {:induction false} LastWith(es: seq<Entry>, k: nat) returns (j: nat)
    requires k < |es| && es[k].FileEntry?
    ensures k <= j < |es| && es[j].FileEntry? && es[j].Path() == es[k].Path() && LastOfPath(es, j)
    decreases |es| - k
  {
    hide Entry.Path;
    if i :| k < i < |es| && es[i].FileEntry? && es[i].Path() == es[k].Path() {
      j := LastWith(es, i);
    } else {
      j := k;
    }
  }

  // ---------------------------------------------------------------- lookup by any components

  /** Where the first j components lead, the archive knows a path. */
  ghost predicate KnownTo(es: seq<Entry>, p: Path, j: nat)
    requires j <= |p|
  {
    Known(es, Resolve([], p[..j]))
  }

  /** Every step of the way is to a path the archive knows. */
  ghost predicate Leads(es: seq<Entry>, p: Path) { forall j :: 0 <= j <= |p| ==> KnownTo(es, p, j) }

  lemma LeadsStep(es: seq<Entry>, q: Path, c: Str)
    ensures Leads(es, q + [c]) <==> Leads(es, q) && Known(es, Resolve([], q + [c]))
  {
    hide Known, Resolve;
    var p := q + [c];
    assert p[..|p|] == p;
    assert forall j :: 0 <= j <= |q| ==> p[..j] == q[..j];
    assert KnownTo(es, p, |p|) <==> Known(es, Resolve([], p));
    if Leads(es, p) {
      forall j | 0 <= j <= |q| ensures KnownTo(es, q, j) { assert KnownTo(es, p, j); }
    }
    if Leads(es, q) && Known(es, Resolve([], p)) {
      forall j | 0 <= j <= |p| ensures KnownTo(es, p, j) { assert j <= |q| ==> KnownTo(es, q, j); }
    }
  }

  lemma NodeKnown(es: seq<Entry>, fs: Fs, i: nat)
    requires Stands(es, |es|, fs) && i < |fs|
    ensures Known(es, PathOf(fs, i))
  {
    hide Explains, Stands;
    StandsSound(es, |es|, fs);
    if PathOf(fs, i) != [] { NodeExplained(es, fs, i); }
  }

  /** A name the archive knows below a node's path is a child of that very node. */
  lemma ChildKnown(es: seq<Entry>, fs: Fs, i: nat, c: Str)
    requires Ordinary(es) && Stands(es, |es|, fs) && i < |fs| && c != SELF && c != DOTDOT
    requires Known(es, PathOf(fs, i) + [c])
    ensures Child(fs, i, c, |fs|) != 0
  {
    hide Known, Stands, Ordinary, PathOf, Child;
    StandsSound(es, |es|, fs);
    var q := PathOf(fs, i);
    NodePlain(fs, i);
    PlainAppend(q, c);
    LookupPlainIff(es, fs, q + [c]);
    WalkAppend(fs, 0, q, c);
    WalkReaches(fs, 0, q);
    assert [] + q == q;
    RootPath(fs);
    var j := Walk(fs, 0, q).value;
    ParentOfChild(fs, j, c);
    SamePath(fs, j, i);
  }

  lemma ParentOfChild(fs: Fs, j: nat, c: Str)
    requires Tree(fs) && j < |fs| && Child(fs, j, c, |fs|) != 0
    ensures fs[j].isDir
  {
    assert Hangs(fs, Child(fs, j, c, |fs|));
  }

  lemma {:induction false} NodePlain(fs: Fs, i: nat)
    requires Sound(fs) && i < |fs|
    ensures Plain(PathOf(fs, i))
    decreases i
  {
    if i > 0 {
      assert Hangs(fs, i) && PlainAt(fs, i);
      NodePlain(fs, fs[i].parent);
    }
  }

  lemma PlainAppend(p: Path, c: Str)
    requires Plain(p) && c != SELF && c != DOTDOT
    ensures Plain(p + [c])
  {
  }

  /** Lookup of any components, "." and ".." included, succeeds exactly when every step of the way is
      to a path the archive knows. */
  lemma {:induction false} LookupIff(es: seq<Entry>, fs: Fs, p: Path)
    requires Ordinary(es) && Stands(es, |es|, fs)
    ensures Walk(fs, 0, p).Some? <==> Leads(es, p)
    decreases |p|
  {
    hide Known, Leads, Stands, Ordinary, Resolve, PathOf, Child;
    StandsSound(es, |es|, fs);
    RootPath(fs);
    if p == [] {
      LeadsNowhere(es);
    } else {
      var (q, c) := (p[..|p| - 1], p[|p| - 1]);
      assert q + [c] == p;
      LookupIff(es, fs, q);
      LeadsStep(es, q, c);
      WalkAppend(fs, 0, q, c);
      WalkResolves(fs, 0, p);
      WalkResolves(fs, 0, q);
      var (at, r) := (Walk(fs, 0, q), Walk(fs, 0, p));
      if r.Some? { NodeKnown(es, fs, r.value); }
      if at.Some? && c != SELF && c != DOTDOT {
        ResolveAppend([], q, c);
        if Known(es, Resolve([], p)) { ChildKnown(es, fs, at.value, c); }
      }
    }
  }

  lemma LeadsNowhere(es: seq<Entry>)
    ensures Leads(es, [])
  {
    var p: Path := [];
    assert p[..0] == [] && KnownTo(es, p, 0);
  }

  /** Components that lead to a file's path by known steps reach the last entry with that path. */
  lemma LookupAnyFile(es: seq<Entry>, fs: Fs, k: nat, p: Path)
    requires Ordinary(es) && Stands(es, |es|, fs) && k < |es| && es[k].FileEntry? && LastOfPath(es, k)
    requires Leads(es, p) && Resolve([], p) == es[k].Path()
    ensures Walk(fs, 0, p) == Some(FileNode(es, k)) && FileIn(es, fs, k)
  {
    hide Leads, Stands, Ordinary, LastOfPath, Resolve, PathOf, Build, Entry.Path, Child;
    StandsSound(es, |es|, fs);
    RootPath(fs);
    LookupIff(es, fs, p);
    LookupFile(es, fs, k);
    WalkResolves(fs, 0, p);
    WalkNewest(fs, p);
    WalkNewest(fs, es[k].Path());
    FileAt(es, fs, k, Walk(fs, 0, p).value);
  }

  lemma FileAt(es: seq<Entry>, fs: Fs, k: nat, i: nat)
    requires Sound(fs) && k < |es| && FileIn(es, fs, k) && i < |fs| && PathOf(fs, i) == es[k].Path()
    requires var f := FileNode(es, k); Child(fs, fs[f].parent, fs[f].name, |fs|) == f
    requires fs[i].isDir || Child(fs, fs[i].parent, fs[i].name, |fs|) == i
    ensures i == FileNode(es, k)
  {
    hide Build, Entry.Path, Child;
    var f := FileNode(es, k);
    if fs[i].isDir { SamePath(fs, i, f); }
    else { SameParent(fs, i, f); }
  }

  /** The plain spelling of a file's path leads there. */
  lemma PlainLeads(es: seq<Entry>, fs: Fs, k: nat)
    requires Ordinary(es) && Stands(es, |es|, fs) && k < |es| && es[k].FileEntry?
    ensures Leads(es, es[k].Path()) && Resolve([], es[k].Path()) == es[k].Path()
  {
    hide Leads, Stands, Entry.Path;
    var p := es[k].Path();
    assert es[k].WellFormed();
    ResolvePlain([], p);
    assert [] + p == p && Explains(es[k], p) && Known(es, p);
    LookupPlainIff(es, fs, p);
    LookupIff(es, fs, p);
  }

  // ---------------------------------------------------------------- archive in, same bytes out

  lemma EncodedOrdinary(img: seq<byte>, es: seq<Entry>)
    requires Encodes(img, es) && NoClash(es)
    ensures Ordinary(es)
  {
    forall k | 0 <= k < |es| ensures es[k].WellFormed() { assert EncodedAt(img, es, k); }
  }

  /** What the mount builds from an archive stands for its entries. */
  lemma MountStands(img: seq<byte>, es: seq<Entry>)
    requires Encodes(img, es) && NoClash(es)
    ensures Marches(img, 0) && Ordinary(es) && Stands(es, |es|, Mount(img))
  {
    hide NoClash, AddEntry, Stands, Encodes;
    EncodedOrdinary(img, es);
    MountBuilds(img, es, 0);
    BuildStands(es, |es|);
  }

  lemma FileBytes(img: seq<byte>, es: seq<Entry>, fs: Fs, k: nat)
    requires Encodes(img, es) && k < |es| && es[k].FileEntry? && Tree(fs) && FileIn(es, fs, k)
    ensures var f := fs[FileNode(es, k)];
            f.off + f.size <= |img| && img[f.off..f.off + f.size] == es[k].data
  {
    hide Build, Entry.WellFormed, HeaderOff, Entry.Path;
    assert EncodedAt(img, es, k);
  }

  /** A path string leads to file k: its components resolve to the file's path, by steps the archive
      knows. */
  ghost predicate LeadsTo(es: seq<Entry>, path: Str, k: nat)
    requires k < |es|
  {
    Leads(es, LookupComps(path)) && Resolve([], LookupComps(path)) == es[k].Path()
  }

  /** Mounting an archive and looking up a file by any path string that leads to it finds a file node
      whose extent of the image is the file's data. */
  lemma ArchiveRoundTrip(img: seq<byte>, es: seq<Entry>, k: nat, path: Str)
    requires Encodes(img, es) && NoClash(es)
    requires k < |es| && es[k].FileEntry? && LastOfPath(es, k) && LeadsTo(es, path, k)
    ensures Marches(img, 0) && Tree(Mount(img))
    ensures var (fs, r) := (Mount(img), Lookup(Mount(img), path));
            && r == Some(FileNode(es, k)) && FileIn(es, fs, k)
            && fs[r.value].off + fs[r.value].size <= |img|
            && img[fs[r.value].off..fs[r.value].off + fs[r.value].size] == es[k].data
  {
    hide NoClash, Mount, Encodes, LookupComps, Entry.Path, LastOfPath, Build, Ordinary, HeaderOff, Clean, PlainNames,
        AllAccounted, Leads, Resolve, FileIn;
    MountStands(img, es);
    LookupAnyFile(es, Mount(img), k, LookupComps(path));
    FileBytes(img, es, Mount(img), k);
  }

  /** A path string whose components are the file's leads to it. */
  lemma SpelledOut(img: seq<byte>, es: seq<Entry>, k: nat, path: Str)
    requires Encodes(img, es) && NoClash(es) && k < |es| && es[k].FileEntry? && LookupComps(path) == es[k].Path()
    ensures LeadsTo(es, path, k)
  {
    hide NoClash, Mount, Encodes, LookupComps, Entry.Path, Ordinary, Leads, Resolve, Stands;
    MountStands(img, es);
    PlainLeads(es, Mount(img), k);
  }

  /** After the mount a path string is found exactly when every step of its components is to a path
      the archive knows. */
  lemma ArchiveLookup(img: seq<byte>, es: seq<Entry>, path: Str)
    requires Encodes(img, es) && NoClash(es)
    ensures Marches(img, 0) && Tree(Mount(img))
    ensures Lookup(Mount(img), path).Some? <==> Leads(es, LookupComps(path))
  {
    hide NoClash, Mount, Encodes, LookupComps, Leads, Build, Ordinary, HeaderOff, Clean, PlainNames, AllAccounted;
    MountStands(img, es);
    LookupIff(es, Mount(img), LookupComps(path));
  }
}
