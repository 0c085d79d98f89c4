/**
  Reading a file as the kernel's own callers do: vfs_read_all (kernel/vfs.c), and a client that
  mounts an archive, opens a file and reads it in chunks.
 */
module VfsClient {
  import opened CTypes
  import opened Options
  import opened Errno
  import opened Tokens
  import opened FsTree
  import opened Archive
  import opened ArchiveView
  import opened ArchiveWriter
  import opened InitrdFs
  import opened VfsFiles

  /** The node found by a path can be opened and read: it has a name, and its bytes are there. */
  ghost predicate Sane(v: Vfs, path: Str)
    requires Tree(v.tree.fs)
    reads v.tree
  {
    match Lookup(v.tree.fs, path)
    case None => true
    case Some(i) =>
      var r := v.tree.fs[i];
      r.name != [] && r.size < TWO_32 && r.off + r.size <= v.img.Length
  }

  /** Closed slots are cleared. */
  ghost predicate Tidy(files: seq<Slot>) { forall i :: 0 <= i < |files| && files[i].name == [] ==> files[i] == FREE }

  /** The error vfs_open returns for reading, or 0. */
  function OpenError(files: seq<Slot>, fs: Fs, path: Str): (e: int)
    requires Tree(fs)
    ensures e == -EMFILE <==> forall i :: 0 <= i < |files| ==> files[i].name != []
    ensures e == -ENOENT <==> e != -EMFILE && Lookup(fs, path).None?
    ensures e == -EACCES <==>
            && e != -EMFILE && e != -ENOENT
            && var perm := fs[Lookup(fs, path).value].perm;
               perm / 64 % 8 < 4 && perm / 8 % 8 < 4 && perm % 8 < 4
    ensures e in {-EMFILE, -ENOENT, -EACCES, 0}
  {
    hide Lookup, Readable;
    var r := Lookup(fs, path);
    if FirstFree(files, 0) == |files| then -EMFILE
    else if r.None? then -ENOENT
    else
      ReadableIs(fs[r.value].perm);
      if !Readable(fs[r.value].perm) then -EACCES else 0
  }

  /** The buffer after a read of at most maxlen - 1 of the bytes data: those and a NUL. From 2^31
      bytes on the signed count looks like an error, and there is no NUL. */
  ghost predicate Filled(data: seq<byte>, maxlen: u32, before: seq<byte>, after: seq<byte>, r: int, outLen: nat) {
    var n := Min(maxlen - 1, |data|);
    && maxlen > 0 && n < |after| == |before| && after[..n] == data[..n] && after[n + 1..] == before[n + 1..]
    && if n < 0x8000_0000 then r == 0 && outLen == n && after[n] == 0
       else r == Signed(n) < 0 && after[n] == before[n]
  }

  /** vfs_read_all; the table of open files is as it was. */
  method ReadAllBytes(v: Vfs, path: Str, buf: array<byte>, maxlen: u32) returns (r: int, outLen: nat)
    requires v.tree.Valid() && NoNul(path) && maxlen <= buf.Length && buf != v.img && Sane(v, path) && Tidy(v.files[..])
    modifies buf, v.files
    ensures v.files[..] == old(v.files[..])
    ensures var e := if maxlen == 0 then -EINVAL else OpenError(old(v.files[..]), v.tree.fs, path);
            if e != 0 then r == e && buf[..] == old(buf[..])
            else
              var f := v.tree.fs[Lookup(v.tree.fs, path).value];
              if f.isDir then r == -EISDIR && buf[..] == old(buf[..])
              else Filled(old(v.img[..])[f.off..f.off + f.size], maxlen, old(buf[..]), buf[..], r, outLen)
  {
    hide FirstFree, Walk, Readable, LookupComps, Filled;
    outLen := 0;
    if maxlen == 0 { return -EINVAL, 0; }
    ghost var before := v.files[..];
    var fd := v.Open(path);
    if fd < 0 { return fd, 0; }
    ghost var f := v.tree.fs[Lookup(v.tree.fs, path).value];
    ghost var slot := Slot(f.name, f.isDir, f.perm, f.size, f.off, 0);
    assert v.files[..] == before[fd := slot] && before[fd] == FREE;
    r, outLen := ReadOpened(v, fd, buf, maxlen, slot);
    assert v.files[..] == before;
  }

  /** The read and the close of vfs_read_all. */
  method ReadOpened(v: Vfs, fd: nat, buf: array<byte>, maxlen: u32, ghost f: Slot) returns (r: int, outLen: nat)
    requires IsOpen(v.files[..], fd) && v.files[fd] == f && f.position == 0 && buf != v.img && 0 < maxlen <= buf.Length
    requires f.size < TWO_32 && f.off + f.size <= v.img.Length
    modifies buf, v.files
    ensures v.files[..] == old(v.files[..])[fd := FREE]
    ensures f.isDir ==> r == -EISDIR && buf[..] == old(buf[..])
    ensures !f.isDir ==> Filled(old(v.img[..])[f.off..f.off + f.size], maxlen, old(buf[..]), buf[..], r, outLen)
  {
    ghost var (image, before) := (v.img[..], buf[..]);
    var n := v.Read(fd, buf, maxlen - 1);
    var closed := v.Close(fd);
    if !f.isDir {
      ghost var c := Min(maxlen - 1, f.size);
      SubSlice(image, f.off, f.off + f.size, 0, c);
      assert buf[..c] == image[f.off..f.off + f.size][..c];
      assert buf[c + 1..] == before[c + 1..];
    }
    if n < 0 { return n, 0; }
    ghost var filled := buf[..];
    buf[n] := 0;
    assert buf[..n] == filled[..n] && buf[n + 1..] == filled[n + 1..];
    return 0, n;
  }

  // ---------------------------------------------------------------- archive in, same bytes out

  lemma SplitNonempty(w: Str, d: Str, k: nat)
    requires k < |Split(w, d)|
    ensures Split(w, d)[k] != []
  {
    SplitSpansSize(w, d, 0, |w|);
    SpansSound(w, d, 0, |w|, 0, k);
  }

  /** The node that lookup finds for a file of the archive. */
  lemma FoundFile(img: seq<byte>, es: seq<Entry>, k: nat, path: Str)
    requires Encodes(img, es) && NoClash(es)
    requires k < |es| && es[k].FileEntry? && LastOfPath(es, k) && LeadsTo(es, path, k)
    ensures Marches(img, 0) && Tree(Mount(img)) && |img| >= BLOCK
    ensures var (fs, r) := (Mount(img), Lookup(Mount(img), path));
            && r.Some? && r.value < |fs|
            && var f := fs[r.value];
            && f.name != [] && !f.isDir && f.size == |es[k].data| < TWO_32 && f.off + f.size <= |img|
            && f.perm == (if es[k].mode != 0 then es[k].mode else 420)
            && img[f.off..f.off + f.size] == es[k].data
  {
    hide NoClash, Mount, Encodes, LeadsTo, Entry.Path, Entry.WellFormed, LastOfPath, Build, HeaderOff;
    hide FileIn, Lookup, Marches, FileNode, Tree;
    ArchiveRoundTrip(img, es, k, path);
    ArchiveSize(img, es, k);
    FileNamed(es, Mount(img), k);
  }

  /** Written out as an image, mounted and looked up, a file is there with its bytes. */
  lemma WrittenFound(es: seq<Entry>, k: nat, path: Str)
    requires Writable(es) && NoClash(es)
    requires k < |es| && es[k].FileEntry? && LastOfPath(es, k) && LeadsTo(es, path, k)
    ensures Marches(Image(es), 0) && Tree(Mount(Image(es)))
    ensures var (fs, r) := (Mount(Image(es)), Lookup(Mount(Image(es)), path));
            && r.Some? && r.value < |fs|
            && var f := fs[r.value];
            && !f.isDir && f.off + f.size <= |Image(es)| && Image(es)[f.off..f.off + f.size] == es[k].data
  {
    hide NoClash, Mount, Encodes, LeadsTo, Entry.Path, LastOfPath, Image, Lookup, Marches, HeaderOff;
    assert forall i :: 0 <= i < |es| ==> es[i].WellFormed() && |es[i].raw| < MODE_AT;
    ImageEncodes(es);
    FoundFile(Image(es), es, k, path);
  }

  lemma FileNamed(es: seq<Entry>, fs: Fs, k: nat)
    requires k < |es| && es[k].FileEntry? && es[k].WellFormed() && Tree(fs) && FileIn(es, fs, k)
    ensures var f := FileNode(es, k);
            && f < |fs| && fs[f].name != [] && !fs[f].isDir && fs[f].size == |es[k].data|
            && fs[f].perm == (if es[k].mode != 0 then es[k].mode else 420)
  {
    hide Split, Build, HeaderOff;
    var p := es[k].Path();
    SplitNonempty(StripDot(es[k].raw), SEPARATORS, |p| - 1);
    assert Hangs(fs, FileNode(es, k));
  }

  lemma ArchiveSize(img: seq<byte>, es: seq<Entry>, k: nat)
    requires Encodes(img, es) && k < |es|
    ensures BLOCK <= |img| && |es[k].data| < TWO_32 && es[k].WellFormed()
  {
    hide Entry.WellFormed;
    assert EncodedAt(img, es, k);
    HeaderOffGrows(es, k + 1, |es|);
  }

  function Total(counts: seq<u32>): nat {
    if counts == [] then 0 else Total(counts[..|counts| - 1]) + counts[|counts| - 1]
  }

  /** What a caller of vfs_read gets for one read: a count of 2^31 and more comes back negative, and
      the position stays. */
  function Got(data: seq<byte>, pos: nat, count: u32): (part: seq<byte>)
    ensures pos <= |data| ==> pos + |part| <= |data|
  {
    var part := Slice(data, pos, count);
    if |part| < 0x8000_0000 then part else []
  }

  /** And for a sequence of reads from the start. */
  function Gets(data: seq<byte>, counts: seq<u32>): (out: seq<byte>)
    ensures |out| <= |data|
  {
    if counts == [] then []
    else
      var out := Gets(data, counts[..|counts| - 1]);
      out + Got(data, |out|, counts[|counts| - 1])
  }

  /** No read gives 2^31 bytes or more. */
  ghost predicate Countable(size: nat, counts: seq<u32>) {
    size < 0x8000_0000 || forall i :: 0 <= i < |counts| ==> counts[i] < 0x8000_0000
  }

  /** Then the reads give the data in order, as many bytes as were asked for and are there. */
  lemma {:induction false} GetsInOrder(data: seq<byte>, counts: seq<u32>)
    requires Countable(|data|, counts)
    ensures Gets(data, counts) == Slice(data, 0, Total(counts))
  {
    if counts == [] {
      SliceFacts(data, 0);
    } else {
      var (init, last) := (counts[..|counts| - 1], counts[|counts| - 1]);
      assert Countable(|data|, init);
      GetsInOrder(data, init);
      GotAll(data, |Gets(data, init)|, last);
      SliceSplit(data, 0, Total(init), last);
    }
  }

  lemma GotAll(data: seq<byte>, pos: nat, count: u32)
    requires |data| < 0x8000_0000 || count < 0x8000_0000
    ensures Got(data, pos, count) == Slice(data, pos, count)
  {
  }

  lemma SliceFacts(data: seq<byte>, n: nat)
    ensures |Slice(data, 0, n)| <= |data| && Slice(data, 0, 0) == []
  {
  }

  /** 2 GB asked for of a file that has them: nothing comes back. */
  lemma LostExample(data: seq<byte>)
    requires |data| >= 0x8000_0000
    ensures Gets(data, [0x8000_0000]) == [] && Slice(data, 0, Total([0x8000_0000])) != []
  {
    var counts: seq<u32> := [0x8000_0000];
    assert counts[..0] == [] && Gets(data, counts[..0]) == [] && Total(counts[..0]) == 0;
    assert |Slice(data, 0, 0x8000_0000)| == 0x8000_0000;
  }

  /** A client: mounts the image of an archive, opens a file of it by a path string that leads to it
      and reads it in chunks of the given sizes. */
  method ReadBack(img: array<byte>, path: Str, counts: seq<u32>, ghost es: seq<Entry>, ghost k: nat)
    returns (fd: int, out: seq<byte>)
    requires Encodes(img[..], es) && NoClash(es) && NoNul(path)
    requires k < |es| && es[k].FileEntry? && LastOfPath(es, k) && LeadsTo(es, path, k)
    ensures var perm := if es[k].mode != 0 then es[k].mode else 420;
            if perm / 64 % 8 >= 4 || perm / 8 % 8 >= 4 || perm % 8 >= 4 then
              fd == 0 && out == Gets(es[k].data, counts)
            else fd == -EACCES && out == []
    ensures Countable(|es[k].data|, counts) ==> Gets(es[k].data, counts) == Slice(es[k].data, 0, Total(counts))
  {
    hide NoClash, Mount, Encodes, LeadsTo, Entry.Path, LastOfPath, Walk, Marches, Countable,
      Gets, Slice, Total, LookupComps;
    ghost var image := img[..];
    FoundFile(image, es, k, path);
    if Countable(|es[k].data|, counts) { GetsInOrder(es[k].data, counts); }
    var rc, tree := Initrd.MountInitrd(img);
    var v := new Vfs(tree, img);
    assert v.files[0] == FREE && FirstFree(v.files[..], 0) == 0;
    fd := v.Open(path);
    out := [];
    if fd < 0 { return; }
    out := ReadChunks(v, fd, counts, image, v.files[fd]);
  }

  /** Reads of the given sizes from an open file. */
  method ReadChunks(v: Vfs, fd: nat, counts: seq<u32>, ghost image: seq<byte>, ghost f: Slot)
    returns (out: seq<byte>)
    requires IsOpen(v.files[..], fd) && v.files[fd] == f && f.position == 0 && !f.isDir
    requires f.size < TWO_32 && f.off + f.size <= v.img.Length && v.img[..] == image
    modifies v.files
    ensures out == Gets(image[f.off..f.off + f.size], counts)
  {
    hide Got;
    out := [];
    ghost var data := image[f.off..f.off + f.size];
    var i := 0;
    while i < |counts|
      invariant 0 <= i <= |counts| && fd < v.files.Length && v.files[fd] == f.(position := |out|)
      invariant out == Gets(data, counts[..i]) && v.img[..] == image
    {
      assert counts[..i + 1][..i] == counts[..i];
      var part := ReadPart(v, fd, counts[i], image, v.files[fd]);
      out := out + part;
      i := i + 1;
    }
    assert counts[..i] == counts;
  }

  /** One read into a fresh buffer. */
  method ReadPart(v: Vfs, fd: nat, count: u32, ghost image: seq<byte>, ghost f: Slot) returns (part: seq<byte>)
    requires IsOpen(v.files[..], fd) && v.files[fd] == f && !f.isDir && f.position <= f.size
    requires f.size < TWO_32 && f.off + f.size <= v.img.Length && v.img[..] == image
    modifies v.files
    ensures part == Got(image[f.off..f.off + f.size], f.position, count)
    ensures v.files[..] == old(v.files[..])[fd := f.(position := f.position + |part|)] && v.img[..] == image
  {
    hide Slice;
    ghost var before := v.files[..];
    ReadIsStep(image, before, fd, count);
    var buf := new byte[count];
    var n := v.Read(fd, buf, count);
    part := if n > 0 then buf[..n] else [];
    assert n <= 0 ==> v.files[..] == before == before[fd := f.(position := f.position + 0)];
  }
}
