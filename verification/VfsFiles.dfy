/**
  Path lookup and the table of open files (kernel/vfs.c): vfs_lookup, vfs_open for reading,
  vfs_read, vfs_lseek and vfs_close, over a mounted initrd.
 */
module VfsFiles {
  import opened CTypes
  import opened Options
  import opened Errno
  import opened Tokens
  import opened FsTree
  import opened Archive
  import opened ArchiveView
  import opened InitrdFs

  // ---------------------------------------------------------------- lookup

  /** strncpy of a path into a buffer of VFS_PATH_MAX bytes, NUL at the end. */
  method CopyPath(path: Str) returns (buf: array<byte>, ghost end: nat)
    requires NoNul(path)
    ensures fresh(buf) && end == |Clip(path, VFS_PATH_MAX - 1)| && buf.Length == VFS_PATH_MAX
    ensures Scan(buf[..], 0, end).Ready() && buf[..end] == Clip(path, VFS_PATH_MAX - 1)
  {
    buf := new byte[VFS_PATH_MAX];
    end := |Clip(path, VFS_PATH_MAX - 1)|;
    var i := 0;
    while i < VFS_PATH_MAX - 1 && i < |path|
      invariant i <= end && buf[..i] == path[..i]
    {
      buf[i] := path[i];
      i := i + 1;
    }
    while i < VFS_PATH_MAX
      invariant end <= i <= VFS_PATH_MAX && buf[..end] == path[..end]
      invariant forall k :: end <= k < i ==> buf[k] == 0
    {
      buf[i] := 0;
      i := i + 1;
    }
    forall k | 0 <= k < end ensures buf[k] != 0 { assert buf[..end][k] == path[k]; }
  }

  /** A leading '/' changes no component. */
  lemma LeadingSlash(m: seq<byte>, path: Str, end: nat)
    requires end <= |m| && m[..end] == Clip(path, VFS_PATH_MAX - 1)
    ensures SplitFrom(m, SEPARATORS, 0, end) == LookupComps(path)
    ensures end > 0 && m[0] == SLASH ==> SplitFrom(m, SEPARATORS, 1, end) == LookupComps(path)
  {
    SpansLocal(m, m[..end], SEPARATORS, 0, end);
    if end > 0 && m[0] == SLASH { SpansSkip(m, SEPARATORS, 0, end); }
  }

  /** What a path walker holds between calls of strtok_r: its current component, and the rest. */
  ghost function Pending(m: seq<byte>, comp: int, save: nat, end: nat): Path
    requires save <= end < |m| && (comp == NULL || 0 <= comp < |m|)
  {
    if comp == NULL then [] else [CStr(m, comp)] + SplitFrom(m, SEPARATORS, save, end)
  }

  method NextComponent(buf: array<byte>, from: nat, ghost end: nat) returns (comp: int, save: nat)
    requires Scan(buf[..], from, end).Ready()
    modifies buf
    ensures save <= end && Scan(buf[..], save, end).Ready()
    ensures comp == NULL || (0 <= comp < buf.Length && Terminated(buf[..], comp))
    ensures Pending(buf[..], comp, save, end) == SplitFrom(old(buf[..]), SEPARATORS, from, end)
  {
    hide Cut;
    CutComponents(Scan(buf[..], from, end), SEPARATORS);
    comp, save := StrTokR(buf, from, SEPARATORS, end);
  }

  /** A result of vfs_lookup: 0 and the node, or -ENOENT. */
  ghost predicate Found(r: Option<nat>, t: Initrd, rc: int, node: Node?)
    reads t
  {
    match r
    case None => rc == -ENOENT && node == null
    case Some(i) => rc == 0 && i < |t.nodes| && node == t.nodes[i]
  }

  /** vfs_lookup's loop over the components. */
  method WalkPath(t: Initrd, buf: array<byte>, start: nat, ghost end: nat) returns (rc: int, node: Node?)
    requires t.Valid() && t.IsNode(t.root) && t.root.id == 0 && Scan(buf[..], start, end).Ready()
    modifies buf
    ensures Found(Walk(t.fs, 0, SplitFrom(old(buf[..]), SEPARATORS, start, end)), t, rc, node)
  {
    hide Initrd.NodeOk, StepInto, CStr, SplitFrom;
    ghost var comps := SplitFrom(buf[..], SEPARATORS, start, end);
    var comp: int, save: nat := NextComponent(buf, start, end);
    var current: Node := t.root;
    while comp != NULL
      invariant save <= end && Scan(buf[..], save, end).Ready()
      invariant comp == NULL || (0 <= comp < buf.Length && Terminated(buf[..], comp))
      invariant t.Valid() && t.IsNode(current)
      invariant Walk(t.fs, current.id, Pending(buf[..], comp, save, end)) == Walk(t.fs, 0, comps)
      decreases |Pending(buf[..], comp, save, end)|
    {
      var c := ReadName(buf, comp);
      WalkUnfold(t.fs, current.id, c, SplitFrom(buf[..], SEPARATORS, save, end));
      comp, save := NextComponent(buf, save, end);
      var next := StepNode(t, current, c);
      if next == null {
        return -ENOENT, null;
      }
      current := next;
    }
    return 0, current;
  }

  lemma WalkUnfold(fs: Fs, cur: nat, c: Str, rest: Path)
    requires Tree(fs) && cur < |fs|
    ensures var s := StepInto(fs, cur, c);
            && (s.Some? ==> s.value < |fs|)
            && Walk(fs, cur, [c] + rest) == if s == None then None else Walk(fs, s.value, rest)
  {
    assert Hangs(fs, cur);
    assert ([c] + rest)[1..] == rest;
  }

  method VfsLookup(t: Initrd, path: Str) returns (rc: int, node: Node?)
    requires t.Valid() && NoNul(path)
    ensures Found(Lookup(t.fs, path), t, rc, node)
  {
    hide Initrd.NodeOk, StepInto, Split, Clip, SplitFrom;
    t.RootFacts();
    if path == [] || path == [SLASH] {
      RootPath(path);
      return 0, t.root;
    }
    var buf, end := CopyPath(path);
    LeadingSlash(buf[..], path, end);
    var token := if buf[0] == SLASH then 1 else 0;
    rc, node := WalkPath(t, buf, token, end);
  }

  lemma RootPath(path: Str)
    requires path == [] || path == [SLASH]
    ensures LookupComps(path) == []
  {
    assert Split([], SEPARATORS) == [];
    RunEndIs([SLASH], SEPARATORS, true, 0, 1, 1);
  }

  /** One component: "." stays, ".." goes to the parent if there is one, a name to the child. */
  method StepNode(t: Initrd, current: Node, c: Str) returns (next: Node?)
    requires t.Valid() && t.IsNode(current)
    ensures match StepInto(t.fs, current.id, c)
            case None => next == null
            case Some(i) => next != null && t.IsNode(next) && next.id == i
  {
    assert t.NodeOk(current.id);
    assert Hangs(t.fs, current.id);
    t.NodeFacts(current.id);
    if c == SELF {
      next := current;
    } else if c == DOTDOT {
      next := if current.parent != null then current.parent else current;
      assert t.NodeOk(t.fs[current.id].parent);
      t.NodeFacts(t.fs[current.id].parent);
    } else {
      next := t.FindChild(current, c);
      assert t.NodeOk(Child(t.fs, current.id, c, |t.fs|));
      t.NodeFacts(Child(t.fs, current.id, c, |t.fs|));
    }
  }

  // ---------------------------------------------------------------- open files

  /** An entry of the open file table: a copy of the node opened, and the position. A slot
      whose name is empty is free. */
  datatype Slot = Slot(name: Str, isDir: bool, perm: nat, size: nat, off: nat, position: nat)

  const FREE: Slot := Slot([], false, 0, 0, 0, 0)

  /** The permission bits 0444. */
  predicate Readable(perm: nat) {
    perm / 256 % 2 == 1 || perm / 32 % 2 == 1 || perm / 4 % 2 == 1
  }

  /** They are set when one of the three octal digits, for user, group and others, is at least 4. */
  lemma ReadableDigits(above: nat, u: nat, g: nat, o: nat)
    requires u < 8 && g < 8 && o < 8
    ensures Readable(512 * above + 64 * u + 8 * g + o) <==> u >= 4 || g >= 4 || o >= 4
  {
    hide Readable;
    var perm := 512 * above + 64 * u + 8 * g + o;
    ReadableIs(perm);
    DivBack(8 * above + u, 8 * g + o, 64);
    DivBack(64 * above + 8 * u + g, o, 8);
    DivBack(above, u, 8);
    DivBack(8 * above + u, g, 8);
  }

  lemma DivBack(q: nat, r: nat, d: nat)
    requires (d == 8 || d == 64) && r < d
    ensures (d * q + r) / d == q && (d * q + r) % d == r
  {
  }

  lemma ReadableIs(perm: nat)
    ensures Readable(perm) <==> perm / 64 % 8 >= 4 || perm / 8 % 8 >= 4 || perm % 8 >= 4
  {
    HighBit(perm / 64);
    HighBit(perm / 8);
    HighBit(perm);
    Quarter(perm, 64);
    Quarter(perm, 8);
  }

  lemma HighBit(q: nat)
    ensures q / 4 % 2 == 1 <==> q % 8 >= 4
  {
  }

  lemma Quarter(q: nat, d: nat)
    requires d == 8 || d == 64
    ensures q / d / 4 == q / (4 * d)
  {
  }

  /** The first free slot, or MAX_OPEN_FILES. */
  function FirstFree(files: seq<Slot>, i: nat): (k: nat)
    requires i <= |files|
    ensures i <= k <= |files| && (k < |files| ==> files[k].name == [])
    ensures forall j :: i <= j < k ==> files[j].name != []
    decreases |files| - i
  {
    if i == |files| || files[i].name == [] then i else FirstFree(files, i + 1)
  }

  predicate IsOpen(files: seq<Slot>, fd: int) { 0 <= fd < |files| && files[fd].name != [] }

  /** What a read of count bytes from a slot gives: an error, or how many bytes. */
  function ReadCount(files: seq<Slot>, fd: int, count: nat): int {
    if !IsOpen(files, fd) then -EBADF
    else if files[fd].isDir then -EISDIR
    else if files[fd].position >= files[fd].size then 0
    else Min(count, files[fd].size - files[fd].position)
  }

  class Vfs {
    const tree: Initrd
    const img: array<byte>
    const files: array<Slot>

    /** vfs_set_root after mount_initrd, with no file open. */
    constructor (tree: Initrd, img: array<byte>)
      ensures this.tree == tree && this.img == img && files.Length == 32 && fresh(files)
      ensures forall i :: 0 <= i < 32 ==> files[i] == FREE
    {
      this.tree, this.img := tree, img;
      files := new Slot[MAX_OPEN_FILES](_ => FREE);
    }

    method FindSlot() returns (fd: int)
      ensures var k := FirstFree(files[..], 0); fd == if k < files.Length then k else -1
    {
      var i := 0;
      while i < files.Length
        invariant i <= files.Length && FirstFree(files[..], i) == FirstFree(files[..], 0)
      {
        if files[i].name == [] { return i; }
        i := i + 1;
      }
      return -1;
    }

    /** vfs_open(path, O_RDONLY). */
    method Open(path: Str) returns (fd: int)
      requires tree.Valid() && NoNul(path)
      modifies files
      ensures var k := FirstFree(old(files[..]), 0);
              match Lookup(tree.fs, path)
              case None => fd == (if k == files.Length then -EMFILE else -ENOENT) && files[..] == old(files[..])
              case Some(i) =>
                var r := tree.fs[i];
                if k == files.Length then fd == -EMFILE && files[..] == old(files[..])
                else if !(r.perm / 64 % 8 >= 4 || r.perm / 8 % 8 >= 4 || r.perm % 8 >= 4) then
                  fd == -EACCES && files[..] == old(files[..])
                else fd == k && files[..] == old(files[..])[k := Slot(r.name, r.isDir, r.perm, r.size, r.off, 0)]
    {
      hide Initrd.NodeOk, Lookup, FirstFree, Readable;
      fd := FindSlot();
      if fd == -1 {
        return -EMFILE;
      }
      var rc, node := VfsLookup(tree, path);
      if rc != 0 {
        return -ENOENT;
      }
      NodeRec(Lookup(tree.fs, path).value);
      ReadableIs(node.perm);
      if !Readable(node.perm) {
        return -EACCES;
      }
      files[fd] := Slot(node.name, node.isDir, node.perm, node.size, node.dataOff, 0);
    }

    lemma NodeRec(i: nat)
      requires tree.Valid() && i < |tree.nodes|
      ensures var (n, r) := (tree.nodes[i], tree.fs[i]);
              n.name == r.name && n.isDir == r.isDir && n.perm == r.perm && n.size == r.size && n.dataOff == r.off
    {
      assert tree.NodeOk(i);
      tree.NodeFacts(i);
    }

    /** tar_read: at most the bytes left from offset, copied from the image. */
    method TarRead(f: Slot, offset: nat, buf: array<byte>, count: nat) returns (n: nat)
      requires f.off + f.size <= img.Length && buf != img && count <= buf.Length
      modifies buf
      ensures n == if offset >= f.size then 0 else Min(count, f.size - offset)
      ensures n > 0 ==> buf[..n] == img[f.off + offset..f.off + offset + n]
      ensures forall k :: n <= k < buf.Length ==> buf[k] == old(buf[k])
    {
      if offset >= f.size { return 0; }
      var remaining := f.size - offset;
      n := if count < remaining then count else remaining;
      var i := 0;
      while i < n
        invariant i <= n && buf[..i] == img[f.off + offset..f.off + offset + i]
        invariant forall k :: i <= k < buf.Length ==> buf[k] == old(buf[k])
      {
        buf[i] := img[f.off + offset + i];
        i := i + 1;
      }
    }

    /** vfs_read. Its result is a signed 32-bit number: a count of 2^31 and more comes out negative,
        and then the position stays. */
    method Read(fd: int, buf: array<byte>, count: u32) returns (r: int)
      requires buf != img && count <= buf.Length
      requires IsOpen(files[..], fd) ==>
                 && files[fd].size < TWO_32 && files[fd].position < TWO_32
                 && files[fd].off + files[fd].size <= img.Length
      modifies buf, files
      ensures var n := ReadCount(old(files[..]), fd, count);
              && r == (if n < 0 then n else Signed(n)) && n <= buf.Length
              && (n > 0 ==> var from := old(files[fd].off + files[fd].position); buf[..n] == img[..][from..from + n])
              && files[..] == (if r <= 0 then old(files[..])
                               else old(files[..])[fd := old(files[fd]).(position := old(files[fd].position) + r)])
              && forall k :: Max(n, 0) <= k < buf.Length ==> buf[k] == old(buf[k])
    {
      if fd < 0 || fd >= files.Length || files[fd].name == [] {
        return -EBADF;
      }
      var node := files[fd];
      if node.isDir {
        return -EISDIR;
      }
      if node.position >= node.size {
        return 0;
      }
      var toRead := count;
      if Wrap32(node.position + toRead) > node.size {
        toRead := node.size - node.position;
      }
      var n: u32 := TarRead(node, node.position, buf, toRead);
      r := Signed(n);
      if r > 0 {
        files[fd] := node.(position := node.position + r);
      }
    }

    /** vfs_lseek; whence is 0, 1 or 2 for the start, the position or the end. */
    method Lseek(fd: int, offset: int, whence: int) returns (r: int)
      requires -0x8000_0000 <= offset < 0x8000_0000
      requires IsOpen(files[..], fd) ==> files[fd].size < TWO_32 && files[fd].position < TWO_32
      modifies files
      ensures !IsOpen(old(files[..]), fd) ==> r == -EBADF && files[..] == old(files[..])
      ensures IsOpen(old(files[..]), fd) ==>
                var f := old(files[fd]);
                var base := if whence == 0 then 0 else if whence == 1 then f.position else f.size;
                var target := Signed(Wrap32(offset + base));
                if !(0 <= whence <= 2) || target < 0 then r == -EINVAL && files[..] == old(files[..])
                else r == target && files[..] == old(files[..])[fd := f.(position := target)]
    {
      if fd < 0 || fd >= files.Length || files[fd].name == [] {
        return -EBADF;
      }
      var node := files[fd];
      var newPos: int;
      if whence == 0 {
        newPos := Signed(Wrap32(offset));
      } else if whence == 1 {
        newPos := Signed(Wrap32(node.position + offset));
      } else if whence == 2 {
        newPos := Signed(Wrap32(node.size + offset));
      } else {
        return -EINVAL;
      }
      if newPos < 0 {
        return -EINVAL;
      }
      files[fd] := node.(position := newPos);
      return newPos;
    }

    /** vfs_close. */
    method Close(fd: int) returns (r: int)
      modifies files
      ensures !IsOpen(old(files[..]), fd) ==> r == -EBADF && files[..] == old(files[..])
      ensures IsOpen(old(files[..]), fd) ==> r == 0 && files[..] == old(files[..])[fd := FREE]
    {
      if fd < 0 || fd >= files.Length || files[fd].name == [] {
        return -EBADF;
      }
      files[fd] := FREE;
      return 0;
    }
  }

  // ---------------------------------------------------------------- reading in chunks

  /** The bytes that a run of reads of the given sizes returns, one after another. */
  function ReadAll(data: seq<byte>, pos: nat, counts: seq<nat>): seq<byte>
    decreases |counts|
  {
    if counts == [] then []
    else
      var part := Slice(data, pos, counts[0]);
      part + ReadAll(data, pos + |part|, counts[1..])
  }

  function Sum(counts: seq<nat>): nat {
    if counts == [] then 0 else counts[0] + Sum(counts[1..])
  }

  lemma SliceSplit(data: seq<byte>, pos: nat, a: nat, b: nat)
    ensures Slice(data, pos, a) + Slice(data, pos + |Slice(data, pos, a)|, b) == Slice(data, pos, a + b)
  {
  }

  /** Whatever the sizes of the reads, they return the data in order. */
  lemma {:induction false} ChunksInOrder(data: seq<byte>, pos: nat, counts: seq<nat>)
    ensures ReadAll(data, pos, counts) == Slice(data, pos, Sum(counts))
    decreases |counts|
  {
    hide Slice;
    if counts == [] {
      assert Slice(data, pos, 0) == [] by { SliceNone(data, pos); }
    } else {
      ChunksInOrder(data, pos + |Slice(data, pos, counts[0])|, counts[1..]);
      SliceSplit(data, pos, counts[0], Sum(counts[1..]));
    }
  }

  lemma SliceNone(data: seq<byte>, pos: nat)
    ensures Slice(data, pos, 0) == []
  {
  }

  /** One vfs_read of an open file is one such step: its count, and its bytes of the image. */
  lemma ReadIsStep(img: seq<byte>, files: seq<Slot>, fd: nat, count: nat)
    requires IsOpen(files, fd) && !files[fd].isDir && files[fd].off + files[fd].size <= |img|
    ensures var (f, n) := (files[fd], ReadCount(files, fd, count));
            var data := img[f.off..f.off + f.size];
            && n == |Slice(data, f.position, count)|
            && (n > 0 ==> img[f.off + f.position..f.off + f.position + n] == Slice(data, f.position, count))
  {
    var (f, n) := (files[fd], ReadCount(files, fd, count));
    if n > 0 {
      var data := img[f.off..f.off + f.size];
      SubSlice(img, f.off, f.off + f.size, f.position, f.position + n);
    }
  }

  /** Archive in, same bytes out: once the archive is mounted, a file opened by its path has the mode
      of its header, or 0644 where that is 0, and read from the start in chunks of any sizes it gives
      its bytes in order. */
  lemma ArchiveReads(img: seq<byte>, es: seq<Entry>, k: nat, path: Str, counts: seq<nat>)
    requires Encodes(img, es) && NoClash(es)
    requires k < |es| && es[k].FileEntry? && LastOfPath(es, k) && LeadsTo(es, path, k)
    ensures Marches(img, 0) && Tree(Mount(img)) && Lookup(Mount(img), path).Some?
    ensures var i := Lookup(Mount(img), path).value;
            i < |Mount(img)| &&
            var f := Mount(img)[i];
            && !f.isDir && f.off + f.size <= |img|
            && f.perm == (if es[k].mode != 0 then es[k].mode else 420)
            && ReadAll(img[f.off..f.off + f.size], 0, counts) == Slice(es[k].data, 0, Sum(counts))
  {
    hide NoClash, Encodes, Marches, Mount, Lookup, ReadAll, LeadsTo, LastOfPath, Build, HeaderOff, PathOf;
    ArchiveRoundTrip(img, es, k, path);
    ChunksInOrder(es[k].data, 0, counts);
  }
}
