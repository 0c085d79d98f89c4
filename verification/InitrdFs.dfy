/**
  The initrd as the kernel builds and uses it: nodes linked by parent, children and next
  pointers (kernel/initrd.c), path lookup over an in-place tokenised copy, and reads through
  the table of open files (kernel/vfs.c). Every method is proved against FsTree and Archive.
 */
module InitrdFs {
  import opened CTypes
  import opened Errno
  import opened Tokens
  import opened FsTree
  import opened Archive

  const MAX_OPEN_FILES: nat := 32

  // ---------------------------------------------------------------- children lists

  /** The newest node below n that hangs below dir; 0 for none. */
  function FirstKid(fs: Fs, dir: nat, n: nat): (c: nat)
    requires n <= |fs|
    ensures c != 0 ==> c < n && fs[c].parent == dir
    ensures forall i :: c < i < n ==> !(i > 0 && fs[i].parent == dir)
  {
    if n == 0 then 0
    else if n - 1 > 0 && fs[n - 1].parent == dir then n - 1
    else FirstKid(fs, dir, n - 1)
  }

  lemma {:induction false} FirstKidSame(fs: Fs, g: Fs, dir: nat, n: nat)
    requires n <= |fs| && n <= |g| && forall i :: 0 <= i < n ==> g[i].parent == fs[i].parent
    ensures FirstKid(g, dir, n) == FirstKid(fs, dir, n)
  {
    if n > 0 { FirstKidSame(fs, g, dir, n - 1); }
  }

  lemma KidsAfter(fs: Fs, r: Rec, dir: nat)
    requires |fs| > 0
    ensures FirstKid(fs + [r], dir, |fs| + 1) == if r.parent == dir then |fs| else FirstKid(fs, dir, |fs|)
  {
    FirstKidSame(fs, fs + [r], dir, |fs|);
  }

  lemma {:induction false} NoKids(fs: Fs, dir: nat, n: nat)
    requires n <= |fs| && forall i :: 0 <= i < n ==> fs[i].parent != dir
    ensures FirstKid(fs, dir, n) == 0
  {
    if n > 0 { NoKids(fs, dir, n - 1); }
  }

  lemma NewestChildless(fs: Fs, r: Rec)
    requires Tree(fs) && r.parent < |fs|
    ensures FirstKid(fs + [r], |fs|, |fs| + 1) == 0
  {
    forall i | 0 <= i < |fs| + 1 ensures (fs + [r])[i].parent != |fs| { if i < |fs| { assert Hangs(fs, i); } }
    NoKids(fs + [r], |fs|, |fs| + 1);
  }

  /** Nodes that are not kids of dir are passed over in a search below dir. */
  lemma {:induction false} SkipOthers(fs: Fs, dir: nat, name: Str, c: nat, n: nat)
    requires c <= n <= |fs| && forall i :: c <= i < n ==> !(i > 0 && fs[i].parent == dir)
    ensures Child(fs, dir, name, n) == Child(fs, dir, name, c)
    ensures ChildDir(fs, dir, name, n) == ChildDir(fs, dir, name, c)
  {
    if c < n { SkipOthers(fs, dir, name, c, n - 1); }
  }

  /** ensure_dir's scan: past the separators, then to the end of the component. */
  method NextComp(p: Str, from: nat, len: nat) returns (start: nat, end: nat)
    requires from <= len <= |p|
    ensures (start, end) == NextToken(p, SEPARATORS, from, len)
  {
    start := from;
    while start < len && p[start] == SLASH
      invariant from <= start <= len
      invariant RunEnd(p, SEPARATORS, true, start, len) == RunEnd(p, SEPARATORS, true, from, len)
    {
      start := start + 1;
    }
    end := start;
    while end < len && p[end] != SLASH
      invariant start <= end <= len
      invariant RunEnd(p, SEPARATORS, false, end, len) == RunEnd(p, SEPARATORS, false, start, len)
    {
      end := end + 1;
    }
  }

  /** ensure_dir's cut of the trailing separators. */
  method TrimSlashes(p: Str) returns (len: nat)
    ensures len <= |p| && SplitFrom(p, SEPARATORS, 0, len) == Split(p, SEPARATORS)
    ensures len == 0 ==> Split(p, SEPARATORS) == []
  {
    len := |p|;
    while len > 0 && p[len - 1] == SLASH
      invariant len <= |p| && forall i :: len <= i < |p| ==> p[i] == SLASH
    {
      len := len - 1;
    }
    SplitTrim(p, SEPARATORS, 0, |p|, len);
    if len == 0 { assert SplitFrom(p, SEPARATORS, 0, 0) == []; }
  }

  lemma EnsureNone(fs: Fs, cur: nat)
    requires cur < |fs|
    ensures EnsureDir(fs, cur, []) == (fs, cur)
  {
  }

  /** One component of the walk ensure_dir does. */
  lemma EnsureUnfold(fs: Fs, cur: nat, p: Str, s: nat, len: nat)
    requires cur < |fs| && s <= len <= |p|
    ensures var ((a, b), rest) := (NextToken(p, SEPARATORS, s, len), Comps(p, s, len));
            if a == len then EnsureDir(fs, cur, rest) == (fs, cur)
            else
              var (comp, more) := (Clip(p[a..b], VFS_NAME_MAX - 1), Comps(p, b, len));
              var c := ChildDir(fs, cur, comp, |fs|);
              EnsureDir(fs, cur, rest) ==
              (if c != 0 then EnsureDir(fs, c, more) else EnsureDir(fs + [NewDir(comp, cur)], |fs|, more))
  {
    hide NextToken, Clip, ChildDir;
    var (a, b) := NextToken(p, SEPARATORS, s, len);
    SplitUnfold(p, SEPARATORS, s, len, a, b);
    if a < len { ClipUnfold(p[a..b], SplitFrom(p, SEPARATORS, b, len)); }
  }

  /** The components, clipped, of p from s on. */
  function Comps(p: Str, s: nat, len: nat): Path
    requires s <= len <= |p|
  {
    ClipAll(SplitFrom(p, SEPARATORS, s, len), VFS_NAME_MAX - 1)
  }

  lemma ClipUnfold(t: Str, rest: Path)
    ensures var c := ClipAll([t] + rest, VFS_NAME_MAX - 1);
            c != [] && c[0] == Clip(t, VFS_NAME_MAX - 1) && c[1..] == ClipAll(rest, VFS_NAME_MAX - 1)
  {
    assert ([t] + rest)[1..] == rest;
  }

  /** parse_octal. */
  method ReadOctal(img: array<byte>, a: nat, z: nat) returns (v: u32)
    requires a <= z <= img.Length
    ensures v == ParseOctal(img[..], a, z, 0)
  {
    v := 0;
    var i := a;
    while i < z && img[i] != 0
      invariant a <= i <= z
      invariant ParseOctal(img[..], i, z, v) == ParseOctal(img[..], a, z, 0)
    {
      if img[i] < 48 || img[i] > 55 { return; }
      v := Wrap32(v * 8 + (img[i] as int - 48));
      i := i + 1;
    }
  }

  /** The C string at off, character by character. */
  method ReadName(img: array<byte>, off: nat) returns (name: Str)
    requires Terminated(img[..], off)
    ensures name == CStr(img[..], off)
  {
    hide CStr;
    ghost var m := img[..];
    ghost var q :| off <= q < |m| && m[q] == 0;
    name := [];
    var i := off;
    while img[i] != 0
      invariant off <= i <= q && name == m[off..i] && NoNul(name)
      decreases q - i
    {
      name := name + [img[i]];
      i := i + 1;
    }
    CStrIs(m, off, i - off);
  }

  /** strrchr(s, '/'): the position, or -1 for NULL. */
  method StrRChr(s: Str) returns (last: int)
    ensures last == LastSlash(s)
  {
    last := -1;
    var i := 0;
    while i < |s|
      invariant i <= |s| && last == LastSlash(s[..i])
    {
      if s[i] == SLASH { last := i; }
      i := i + 1;
      assert s[..i][..i - 1] == s[..i - 1];
    }
    assert s[..i] == s;
  }

  /** A node's fields and pointers at one moment. */
  datatype Snap = Snap(id: nat, name: Str, isDir: bool, perm: nat, size: nat, dataOff: nat,
                       parent: Node?, children: Node?, next: Node?)

  class Node {
    var name: Str
    var isDir: bool
    var perm: nat
    var size: nat
    var dataOff: nat
    var parent: Node?
    var children: Node?
    var next: Node?
    ghost var id: nat

    constructor (name: Str, isDir: bool, perm: nat, size: nat, dataOff: nat, parent: Node?, ghost id: nat)
      ensures Now() == Snap(id, name, isDir, perm, size, dataOff, parent, null, null)
    {
      this.name, this.isDir, this.perm, this.size, this.dataOff := name, isDir, perm, size, dataOff;
      this.parent, children, next, this.id := parent, null, null, id;
    }

    ghost function Now(): Snap
      reads this
    {
      Snap(id, name, isDir, perm, size, dataOff, parent, children, next)
    }
  }

  /** The pointer to node k; node 0, the root, is nobody's child, so 0 stands for NULL. */
  ghost function Link(nodes: seq<Node>, k: nat): Node? {
    if 0 < k < |nodes| then nodes[k] else null
  }

  /** The fields of node i are those of record i, and its pointers follow the creation order. */
  ghost predicate SnapOk(s: Snap, nodes: seq<Node>, fs: Fs, i: nat)
    requires i < |nodes| == |fs|
  {
    var r := fs[i];
    && s.id == i
    && s.name == r.name && s.isDir == r.isDir && s.perm == r.perm && s.size == r.size && s.dataOff == r.off
    && (if i == 0 then s.parent == null else r.parent < |nodes| && s.parent == nodes[r.parent])
    && s.children == Link(nodes, FirstKid(fs, i, |fs|))
    && (i > 0 ==> s.next == Link(nodes, FirstKid(fs, r.parent, i)))
  }

  /** After a push an old node is as it was, but that the parent's list starts with the new. */
  lemma OldSnap(s: Snap, nodes: seq<Node>, fs: Fs, i: nat, node: Node, r: Rec)
    requires i < |nodes| == |fs| && SnapOk(s, nodes, fs, i)
    ensures SnapOk(if i == r.parent then s.(children := node) else s, nodes + [node], fs + [r], i)
  {
    hide FirstKid;
    KidsAfter(fs, r, i);
    FirstKidSame(fs, fs + [r], fs[i].parent, i);
  }

  /** The new node is followed by what was its parent's list. */
  lemma NewSnap(p: Snap, nodes: seq<Node>, fs: Fs, node: Node, r: Rec)
    requires Tree(fs) && r.parent < |nodes| == |fs| && SnapOk(p, nodes, fs, r.parent)
    ensures SnapOk(Snap(|nodes|, r.name, r.isDir, r.perm, r.size, r.off, nodes[r.parent], null, p.children),
                   nodes + [node], fs + [r], |nodes|)
  {
    hide FirstKid, Tree;
    FirstKidSame(fs, fs + [r], r.parent, |fs|);
    NewestChildless(fs, r);
  }

  lemma PermSnap(s: Snap, nodes: seq<Node>, fs: Fs, i: nat, d: nat, perm: nat)
    requires i < |nodes| == |fs| && d < |fs| && SnapOk(s, nodes, fs, i)
    ensures SnapOk(if i == d then s.(perm := perm) else s, nodes, fs[d := fs[d].(perm := perm)], i)
  {
    hide FirstKid;
    var g := fs[d := fs[d].(perm := perm)];
    FirstKidSame(fs, g, i, |fs|);
    if i > 0 { FirstKidSame(fs, g, fs[i].parent, i); }
  }

  lemma PermTree(fs: Fs, d: nat, perm: nat)
    requires Tree(fs) && d < |fs|
    ensures Tree(fs[d := fs[d].(perm := perm)])
  {
    var g := fs[d := fs[d].(perm := perm)];
    forall i | 0 <= i < |g| ensures Hangs(g, i) { assert Hangs(fs, i); }
  }

  class Initrd {
    var root: Node
    ghost var nodes: seq<Node>
    ghost var fs: Fs

    ghost predicate NodeOk(i: nat)
      requires i < |nodes| == |fs|
      reads this, nodes
    {
      SnapOk(nodes[i].Now(), nodes, fs, i)
    }

    ghost predicate Valid()
      reads this, nodes
    {
      && Tree(fs) && |nodes| == |fs| && root == nodes[0]
      && forall i :: 0 <= i < |nodes| ==> NodeOk(i)
    }

    constructor ()
      ensures Valid() && fs == [ROOT] && fresh(nodes)
    {
      var r := new Node([SLASH], true, DIR_PERM, 0, 0, null, 0);
      root := r;
      nodes, fs := [r], [ROOT];
      new;
      assert Hangs([ROOT], 0);
    }

    /** A new node pushed at the front of its parent's children: vfs_node_add_child. */
    method AddNode(parent: Node, name: Str, isDir: bool, perm: nat, size: nat, dataOff: nat) returns (node: Node)
      requires Valid() && parent.id < |nodes| && nodes[parent.id] == parent && parent.isDir
      modifies this`nodes, this`fs, parent
      ensures Valid() && node.id == old(|nodes|) && nodes == old(nodes) + [node] && fresh(node)
      ensures fs == old(fs) + [Rec(name, old(parent.id), isDir, perm, size, dataOff)]
      ensures parent.id == old(parent.id)
    {
      hide FirstKid, SnapOk;
      ghost var (p, n, nodes0, fs0) := (parent.id, |nodes|, nodes, fs);
      assert NodeOk(p);
      ParentIsDir(p);
      ghost var r := Rec(name, p, isDir, perm, size, dataOff);
      ExtendTree(fs, r);
      node := new Node(name, isDir, perm, size, dataOff, parent, n);
      NewSnap(parent.Now(), nodes, fs, node, r);
      forall i: nat | i < n
        ensures nodes[i].id == i
        ensures SnapOk(if i == p then nodes[i].Now().(children := node) else nodes[i].Now(), nodes + [node],
                       fs + [r], i)
      {
        assert NodeOk(i);
        SameId(i);
        OldSnap(nodes[i].Now(), nodes, fs, i, node, r);
      }
      node.next := parent.children;
      parent.children := node;
      nodes, fs := nodes + [node], fs + [r];
      forall i | 0 <= i < |nodes| ensures NodeOk(i) {
        if i < n { assert nodes[i] == nodes0[i]; }
      }
    }

    lemma SameId(i: nat)
      requires |nodes| == |fs| && i < |nodes| && NodeOk(i)
      ensures nodes[i].id == i
    {
    }

    lemma ParentIsDir(p: nat)
      requires |nodes| == |fs| && p < |nodes| && NodeOk(p) && nodes[p].isDir
      ensures fs[p].isDir
    {
    }

    ghost predicate IsNode(n: Node)
      reads this, n
    {
      n.id < |nodes| && nodes[n.id] == n
    }

    lemma NodeFacts(i: nat)
      requires |nodes| == |fs| && i < |nodes| && NodeOk(i)
      ensures var (n, r) := (nodes[i], fs[i]);
              && n.id == i && n.name == r.name && n.isDir == r.isDir && n.perm == r.perm
              && n.size == r.size && n.dataOff == r.off
              && (if i == 0 then n.parent == null else r.parent < |nodes| && n.parent == nodes[r.parent])
              && n.children == Link(nodes, FirstKid(fs, i, |fs|))
              && (i > 0 ==> n.next == Link(nodes, FirstKid(fs, r.parent, i)))
    {
    }

    /** ensure_dir's search: the first child directory with this name. */
    method FindChildDir(dir: Node, comp: Str) returns (ch: Node?)
      requires Valid() && IsNode(dir)
      ensures ch == Link(nodes, ChildDir(fs, dir.id, comp, |fs|))
    {
      hide FirstKid, SnapOk;
      ghost var d := dir.id;
      assert NodeOk(d);
      NodeFacts(d);
      ch := dir.children;
      ghost var j: nat := FirstKid(fs, d, |fs|);
      SkipOthers(fs, d, comp, j + 1, |fs|);
      while ch != null
        invariant j < |fs| && ch == Link(nodes, j) && (j > 0 ==> fs[j].parent == d)
        invariant ChildDir(fs, d, comp, |fs|) == ChildDir(fs, d, comp, j + 1)
        decreases j
      {
        assert NodeOk(j);
        NodeFacts(j);
        if ch.isDir && ch.name == comp { return; }
        ch := ch.next;
        ghost var k: nat := FirstKid(fs, d, j);
        SkipOthers(fs, d, comp, k + 1, j);
        j := k;
      }
    }

    /** vfs_lookup's search: the first child with this name. */
    method FindChild(dir: Node, comp: Str) returns (ch: Node?)
      requires Valid() && IsNode(dir)
      ensures ch == Link(nodes, Child(fs, dir.id, comp, |fs|))
    {
      hide FirstKid, SnapOk;
      ghost var d := dir.id;
      assert NodeOk(d);
      NodeFacts(d);
      ch := dir.children;
      ghost var j: nat := FirstKid(fs, d, |fs|);
      SkipOthers(fs, d, comp, j + 1, |fs|);
      while ch != null
        invariant j < |fs| && ch == Link(nodes, j) && (j > 0 ==> fs[j].parent == d)
        invariant Child(fs, d, comp, |fs|) == Child(fs, d, comp, j + 1)
        decreases j
      {
        assert NodeOk(j);
        NodeFacts(j);
        if ch.name == comp { return; }
        ch := ch.next;
        ghost var k: nat := FirstKid(fs, d, j);
        SkipOthers(fs, d, comp, k + 1, j);
        j := k;
      }
    }

    /** One component of ensure_dir: the child directory of this name, made if missing. */
    method EnsureChild(cur: Node, comp: Str) returns (ch: Node)
      requires Valid() && IsNode(cur) && cur.isDir
      modifies this`nodes, this`fs, nodes
      ensures Valid() && IsNode(ch) && ch.isDir
      ensures |old(nodes)| <= |nodes| && nodes[..|old(nodes)|] == old(nodes)
      ensures forall i :: |old(nodes)| <= i < |nodes| ==> fresh(nodes[i])
      ensures var c := ChildDir(old(fs), old(cur.id), comp, |old(fs)|);
              if c != 0 then fs == old(fs) && ch.id == c
              else fs == old(fs) + [NewDir(comp, old(cur.id))] && ch.id == |old(fs)|
    {
      hide SnapOk, FirstKid;
      var found := FindChildDir(cur, comp);
      ghost var c := ChildDir(fs, cur.id, comp, |fs|);
      assert NodeOk(c) && NodeOk(cur.id);
      NodeFacts(c);
      if found == null {
        ch := AddNode(cur, comp, true, DIR_PERM, 0, 0);
      } else {
        ch := found;
      }
      assert NodeOk(ch.id);
      NodeFacts(ch.id);
    }

    /** One turn of ensure_dir's loop: the next component's directory, or the end. */
    method EnsureStep(cur: Node, p: Str, s: nat, len: nat) returns (ch: Node, end: nat)
      requires Valid() && IsNode(cur) && cur.isDir && s < len <= |p|
      modifies this`nodes, this`fs, nodes
      ensures Valid() && IsNode(ch) && ch.isDir && s < end <= len
      ensures |old(nodes)| <= |nodes| && nodes[..|old(nodes)|] == old(nodes)
      ensures forall i :: |old(nodes)| <= i < |nodes| ==> fresh(nodes[i])
      ensures EnsureDir(fs, ch.id, Comps(p, end, len)) == EnsureDir(old(fs), old(cur.id), Comps(p, s, len))
    {
      hide SnapOk, FirstKid, ChildDir, Tree, NextToken, Clip, Comps;
      EnsureUnfold(fs, cur.id, p, s, len);
      var start;
      start, end := NextComp(p, s, len);
      if start == len {
        EnsureUnfold(fs, cur.id, p, len, len);
        SplitDone(p, len);
        return cur, len;
      }
      ch := EnsureChild(cur, Clip(p[start..end], VFS_NAME_MAX - 1));
    }

    /** ensure_dir. */
    method EnsurePath(base: Node, dirpath: Str) returns (cur: Node)
      requires Valid() && IsNode(base) && base.isDir && NoNul(dirpath)
      modifies this`nodes, this`fs, nodes
      ensures Valid() && IsNode(cur) && cur.isDir
      ensures |old(nodes)| <= |nodes| && nodes[..|old(nodes)|] == old(nodes)
      ensures forall i :: |old(nodes)| <= i < |nodes| ==> fresh(nodes[i])
      ensures (fs, cur.id) == EnsureDir(old(fs), old(base.id), DirComps(dirpath))
    {
      hide SnapOk, FirstKid, Split, Tree, Clip, ChildDir, StripDot, NodeOk, EnsureDir;
      cur := base;
      var p := StripDot(Clip(dirpath, VFS_PATH_MAX - 1));
      var len := TrimSlashes(p);
      if len == 0 {
        EnsureNone(fs, cur.id);
        return;
      }
      var s := 0;
      ghost var (fs0, d0) := (fs, base.id);
      while s < len
        invariant s <= len <= |p|
        invariant Valid() && IsNode(cur) && cur.isDir
        invariant |old(nodes)| <= |nodes| && nodes[..|old(nodes)|] == old(nodes)
        invariant forall i :: |old(nodes)| <= i < |nodes| ==> fresh(nodes[i])
        invariant EnsureDir(fs, cur.id, Comps(p, s, len)) == EnsureDir(fs0, d0, DirComps(dirpath))
      {
        cur, s := EnsureStep(cur, p, s, len);
      }
      assert SplitFrom(p, SEPARATORS, len, len) == [] by { SplitDone(p, len); }
      EnsureNone(fs, cur.id);
    }

    /** A regular file's header: its directory, then the file's node in it. */
    method MountFile(name: Str, mode: nat, size: nat, off: nat)
      requires Valid() && NoNul(name)
      modifies this`nodes, this`fs, nodes
      ensures Valid() && fs == AddFile(old(fs), name, mode, size, off)
      ensures |old(nodes)| <= |nodes| && nodes[..|old(nodes)|] == old(nodes)
      ensures forall i :: |old(nodes)| <= i < |nodes| ==> fresh(nodes[i])
      ensures root == old(root)
    {
      hide SnapOk, FirstKid, DirComps, LastSlash, Tree;
      RootFacts();
      var pth := StripDot(name);
      var slash := StrRChr(pth);
      var dirpart: Str := [];
      var base: Str;
      if slash >= 0 {
        dirpart := Clip(pth[..slash], VFS_PATH_MAX - 1);
        base := Clip(pth[slash + 1..], VFS_NAME_MAX - 1);
      } else {
        base := Clip(pth, VFS_NAME_MAX - 1);
      }
      assert base == BasePart(pth) && dirpart == DirPart(pth) by { assert pth[0..] == pth; }
      var parent := EnsurePath(root, dirpart);
      var perm := if mode != 0 then mode else FILE_PERM;
      var _ := AddNode(parent, base, false, perm, size, off);
    }

    lemma RootFacts()
      requires Valid()
      ensures |nodes| > 0 && root.id == 0 && IsNode(root) && root.isDir
    {
      assert NodeOk(0);
    }

    /** A directory's header: the directory, and its permissions if any are given. */
    method MountDir(name: Str, mode: nat)
      requires Valid() && NoNul(name)
      modifies this`nodes, this`fs, nodes
      ensures Valid() && fs == AddDir(old(fs), name, mode)
      ensures |old(nodes)| <= |nodes| && nodes[..|old(nodes)|] == old(nodes)
      ensures forall i :: |old(nodes)| <= i < |nodes| ==> fresh(nodes[i])
      ensures root == old(root)
    {
      RootFacts();
      var dir := EnsurePath(root, name);
      if dir.isDir && mode != 0 {
        SetPerm(dir, mode);
      }
    }

    method SetPerm(dir: Node, perm: nat)
      requires Valid() && IsNode(dir)
      modifies this`fs, dir
      ensures Valid() && fs == old(fs)[old(dir.id) := old(fs)[old(dir.id)].(perm := perm)]
    {
      hide FirstKid, SnapOk;
      ghost var (d, fs0) := (dir.id, fs);
      ghost var g := fs[d := fs[d].(perm := perm)];
      PermTree(fs, d, perm);
      forall i: nat | i < |nodes|
        ensures nodes[i].id == i
        ensures SnapOk(if i == d then nodes[i].Now().(perm := perm) else nodes[i].Now(), nodes, g, i)
      {
        assert NodeOk(i);
        SameId(i);
        PermSnap(nodes[i].Now(), nodes, fs, i, d, perm);
      }
      dir.perm := perm;
      fs := g;
      forall i | 0 <= i < |nodes| ensures NodeOk(i) {
        assert nodes[i].Now() == old(nodes[i].Now()) || i == d;
      }
    }

    /** The loop body of mount_initrd on the header at off. */
    method MountHeader(img: array<byte>, off: u32)
      requires Valid() && off + BLOCK <= img.Length && Terminated(img[..], off)
      modifies this`nodes, this`fs, nodes
      ensures Valid() && fs == AddHeader(old(fs), img[..], off)
      ensures |old(nodes)| <= |nodes| && nodes[..|old(nodes)|] == old(nodes)
      ensures forall i :: |old(nodes)| <= i < |nodes| ==> fresh(nodes[i])
      ensures root == old(root)
    {
      hide AddFile, AddDir, SnapOk, ParseOctal, FirstKid;
      var name := ReadName(img, off);
      var size := ReadOctal(img, off + SIZE_AT, off + SIZE_AT + SIZE_LEN);
      var mode := ReadOctal(img, off + MODE_AT, off + MODE_AT + MODE_LEN);
      if IsRegular(img[off + TYPE_AT]) {
        MountFile(name, mode % 512, size, off + BLOCK);
      } else if img[off + TYPE_AT] == DIRECTORY {
        MountDir(name, mode % 512);
      }
    }

    /** mount_initrd: the tree of the image, or -EINVAL for an image without one whole block. */
    static method MountInitrd(img: array<byte>) returns (rc: int, t: Initrd?)
      requires Marches(img[..], 0)
      ensures img.Length < BLOCK ==> rc == -EINVAL && t == null
      ensures img.Length >= BLOCK ==> rc == 0 && t != null && fresh(t) && t.Valid() && t.fs == Mount(img[..])
    {
      hide AddHeader, NextHeader, Marches, MountFrom;
      if img.Length < BLOCK {
        return -EINVAL, null;
      }
      var tree := new Initrd();
      ghost var m := img[..];
      var off: u32 := 0;
      while off + BLOCK <= img.Length && img[off] != 0
        invariant tree.Valid() && fresh(tree) && fresh(tree.nodes) && img[..] == m
        invariant Marches(m, off) && MountFrom(tree.fs, m, off) == Mount(m)
        decreases TWO_32 - off
      {
        MarchStep(tree.fs, m, off);
        tree.MountHeader(img, off);
        off := NextOff(img, off);
      }
      MarchEnd(tree.fs, m, off);
      return 0, tree;
    }
  }

  /** off += 512 + ((size + 511) & ~511). */
  method NextOff(img: array<byte>, off: u32) returns (next: u32)
    requires off + BLOCK <= img.Length
    ensures next == NextHeader(img[..], off)
  {
    var size := ReadOctal(img, off + SIZE_AT, off + SIZE_AT + SIZE_LEN);
    next := Wrap32(off + Wrap32(BLOCK + RoundUp(size)));
  }

  lemma SplitDone(p: Str, len: nat)
    requires len <= |p|
    ensures NextToken(p, SEPARATORS, len, len) == (len, len)
  {
  }
}
