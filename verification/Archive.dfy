/**
  Reading a ustar archive into the tree (kernel/initrd.c), and what the tree then says of the
  archive's entries. Header layout: "ustar Interchange Format", pax utility, IEEE Std 1003.1.
 */
module Archive {
  import opened CTypes
  import opened Tokens
  import opened FsTree

  const BLOCK: nat := 512
  const MODE_AT: nat := 100
  const MODE_LEN: nat := 8
  const SIZE_AT: nat := 124
  const SIZE_LEN: nat := 12
  const TYPE_AT: nat := 156
  const PREFIX_AT: nat := 345
  const PREFIX_LEN: nat := 155
  const REGULAR: byte := 48
  const DIRECTORY: byte := 53

  // ---------------------------------------------------------------- fields of a header

  /** parse_octal on the characters from a short of z, after the value so far, in 32-bit
      arithmetic. */
  function ParseOctal(m: seq<byte>, a: nat, z: nat, value: u32): u32
    requires a <= z <= |m|
    decreases z - a
  {
    if a == z || m[a] < 48 || m[a] > 55 then value
    else ParseOctal(m, a + 1, z, Wrap32(value * 8 + (m[a] as int - 48)))
  }

  function SizeField(img: seq<byte>, off: nat): u32
    requires off + BLOCK <= |img|
  {
    ParseOctal(img, off + SIZE_AT, off + SIZE_AT + SIZE_LEN, 0)
  }

  /** The mode field's permission bits, & 0777. */
  function ModeField(img: seq<byte>, off: nat): nat
    requires off + BLOCK <= |img|
  {
    ParseOctal(img, off + MODE_AT, off + MODE_AT + MODE_LEN, 0) % 512
  }

  function IsRegular(tf: byte): bool { tf == REGULAR || tf == 0 }

  /** (size + 511) & ~511 in 32-bit arithmetic. */
  function RoundUp(size: u32): u32 { Wrap32(size + 511) / 512 * 512 }

  /** Where the loop looks for the next header. */
  function NextHeader(img: seq<byte>, off: nat): u32
    requires off + BLOCK <= |img|
  {
    Wrap32(off + Wrap32(BLOCK + RoundUp(SizeField(img, off))))
  }

  // ---------------------------------------------------------------- adding one entry

  /** The position of the last '/', or -1: strrchr. */
  function LastSlash(s: Str): (k: int)
    ensures -1 <= k < |s|
    ensures k >= 0 ==> s[k] == SLASH
    ensures forall i :: k < i < |s| ==> s[i] != SLASH
  {
    if s == [] then -1
    else if s[|s| - 1] == SLASH then |s| - 1
    else LastSlash(s[..|s| - 1])
  }

  /** The directory part and the base name of a file's path. */
  function DirPart(pth: Str): Str {
    var k := LastSlash(pth);
    if k < 0 then [] else Clip(pth[..k], VFS_PATH_MAX - 1)
  }

  function BasePart(pth: Str): Str { Clip(pth[LastSlash(pth) + 1..], VFS_NAME_MAX - 1) }

  function FileRec(name: Str, parent: nat, mode: nat, size: nat, off: nat): Rec {
    Rec(name, parent, false, if mode != 0 then mode else FILE_PERM, size, off)
  }

  function AddFile(fs: Fs, name: Str, mode: nat, size: nat, off: nat): Fs
    requires |fs| > 0
  {
    var pth := StripDot(name);
    var (g, d) := EnsureDir(fs, 0, DirComps(DirPart(pth)));
    g + [FileRec(BasePart(pth), d, mode, size, off)]
  }

  function AddDir(fs: Fs, name: Str, mode: nat): Fs
    requires |fs| > 0
  {
    var (g, d) := EnsureDir(fs, 0, DirComps(name));
    if mode != 0 then g[d := g[d].(perm := mode)] else g
  }

  /** What one header adds to the tree. */
  function AddHeader(fs: Fs, img: seq<byte>, off: nat): (r: Fs)
    requires off + BLOCK <= |img| && |fs| > 0
    ensures |r| >= |fs|
  {
    var name := CStr(img, off);
    if IsRegular(img[off + TYPE_AT]) then AddFile(fs, name, ModeField(img, off), SizeField(img, off), off + BLOCK)
    else if img[off + TYPE_AT] == DIRECTORY then AddDir(fs, name, ModeField(img, off))
    else fs
  }

  /** The loop's test: a whole block is left and it does not start with a NUL. */
  predicate More(img: seq<byte>, off: u32) {
    off + BLOCK <= |img| && img[off] != 0
  }

  /** The mount loop gets from off to its end: names are C strings, and the 32-bit offset
      neither sticks nor wraps. */
  ghost predicate Marches(img: seq<byte>, off: u32)
    decreases TWO_32 - off
  {
    && off + BLOCK < TWO_32
    && (More(img, off) ==>
          && Terminated(img, off)
          && NextHeader(img, off) > off
          && Marches(img, NextHeader(img, off)))
  }

  /** The tree after the loop, from the header at off on. */
  ghost function MountFrom(fs: Fs, img: seq<byte>, off: u32): Fs
    requires Marches(img, off) && |fs| > 0
    decreases TWO_32 - off
  {
    if More(img, off) then MountFrom(AddHeader(fs, img, off), img, NextHeader(img, off)) else fs
  }

  ghost function Mount(img: seq<byte>): Fs
    requires Marches(img, 0)
  {
    MountFrom([ROOT], img, 0)
  }

  lemma MarchStep(fs: Fs, img: seq<byte>, off: u32)
    requires |fs| > 0 && Marches(img, off) && More(img, off)
    ensures Terminated(img, off) && NextHeader(img, off) > off && Marches(img, NextHeader(img, off))
    ensures MountFrom(fs, img, off) == MountFrom(AddHeader(fs, img, off), img, NextHeader(img, off))
  {
    hide AddHeader, NextHeader;
  }

  lemma MarchEnd(fs: Fs, img: seq<byte>, off: u32)
    requires |fs| > 0 && Marches(img, off) && !More(img, off)
    ensures MountFrom(fs, img, off) == fs
  {
  }

  // ---------------------------------------------------------------- archives of entries

  /** A member of an archive: a file, a directory, or something the mount passes over. */
  datatype Entry =
    | FileEntry(raw: Str, mode: nat, data: seq<byte>)
    | DirEntry(raw: Str, mode: nat, data: seq<byte>)
    | OtherEntry(raw: Str, mode: nat, data: seq<byte>)
  {
    function Path(): Path { Split(StripDot(raw), SEPARATORS) }

    /** The directory the entry needs: itself, or the one its file lies in. */
    function Dir(): Path {
      if FileEntry? && |Path()| > 0 then Path()[..|Path()| - 1] else Path()
    }

    /** The name fits its field; a file's does not end in '/'. */
    ghost predicate WellFormed() {
      && 0 < |raw| < 100 && NoNul(raw) && mode < 512
      && (FileEntry? ==> raw[|raw| - 1] != 47 && Path() != [])
      && (DirEntry? ==> data == [])
    }
  }

  /** Bytes taken by the data of an entry, padded to whole blocks. */
  function Padded(n: nat): nat { (n + 511) / 512 * 512 }

  /** Where the header of entry k is. */
  function HeaderOff(es: seq<Entry>, k: nat): nat
    requires k <= |es|
  {
    if k == 0 then 0 else HeaderOff(es, k - 1) + 512 + Padded(|es[k - 1].data|)
  }

  /** The name field at off holds raw and a NUL. */
  ghost predicate NameAt(img: seq<byte>, off: nat, raw: Str) {
    off + |raw| < |img| && img[off..off + |raw|] == raw && img[off + |raw|] == 0
  }

  /** The mode, size and type fields of e, numbers in octal; of the mode only the permission bits
      matter. */
  ghost predicate FieldsAt(img: seq<byte>, off: nat, e: Entry) {
    && off + 512 <= |img|
    && (exists mode: nat :: mode % 512 == e.mode && OctalField(img, off + 100, off + 108, mode))
    && OctalField(img, off + 124, off + 136, |e.data|)
    && (e.FileEntry? <==> img[off + 156] == 48 || img[off + 156] == 0)
    && (e.DirEntry? <==> img[off + 156] == 53)
  }

  /** The header at off and the data after it are e's: the prefix field is empty, so that the name
      field is the whole path. Nothing is said of the header's other fields. */
  ghost predicate HeaderAt(img: seq<byte>, off: nat, e: Entry) {
    && NameAt(img, off, e.raw) && FieldsAt(img, off, e) && img[off + 345] == 0
    && off + 512 + |e.data| <= |img| && img[off + 512..off + 512 + |e.data|] == e.data
  }

  ghost predicate EncodedAt(img: seq<byte>, es: seq<Entry>, k: nat)
    requires k < |es|
  {
    es[k].WellFormed() && HeaderAt(img, HeaderOff(es, k), es[k])
  }

  /** The image is an archive of the entries es. */
  ghost predicate Encodes(img: seq<byte>, es: seq<Entry>) {
    && HeaderOff(es, |es|) + 512 < 0x1_0000_0000
    && (forall k :: 0 <= k < |es| ==> EncodedAt(img, es, k))
    && !(HeaderOff(es, |es|) + 512 <= |img| && img[HeaderOff(es, |es|)] != 0)
  }

  /** The tree after the first n entries. */
  function Build(es: seq<Entry>, n: nat): (fs: Fs)
    requires n <= |es|
    ensures |fs| > 0
  {
    if n == 0 then [ROOT] else AddEntry(Build(es, n - 1), es[n - 1], HeaderOff(es, n - 1) + BLOCK)
  }

  lemma {:induction false} HeaderOffGrows(es: seq<Entry>, k: nat, n: nat)
    requires k <= n <= |es|
    ensures HeaderOff(es, k) + BLOCK * (n - k) <= HeaderOff(es, n)
    decreases n - k
  {
    if k < n { HeaderOffGrows(es, k, n - 1); }
  }

  lemma EntryName(img: seq<byte>, off: nat, raw: Str)
    requires NameAt(img, off, raw) && NoNul(raw)
    ensures Terminated(img, off) && CStr(img, off) == raw
    ensures raw != [] ==> img[off] != 0
  {
    forall i | off <= i < off + |raw| ensures img[i] != 0 { assert img[i] == raw[i - off]; }
    CStrTo(img, off, off + |raw|);
  }

  /** The parser reads the fields as they were written. */
  lemma FieldsRead(img: seq<byte>, off: nat, e: Entry)
    requires FieldsAt(img, off, e) && |e.data| < TWO_32
    ensures ModeField(img, off) == e.mode && SizeField(img, off) == |e.data|
  {
    hide ParseOctal;
    var mode: nat :| mode % 512 == e.mode && OctalField(img, off + 100, off + 108, mode);
    OctalRead(img, off + 100, off + 108, mode);
    OctalRead(img, off + 124, off + 136, |e.data|);
  }

  lemma EntryNext(img: seq<byte>, off: nat, e: Entry)
    requires FieldsAt(img, off, e)
    requires off + BLOCK + Padded(|e.data|) + BLOCK < TWO_32
    ensures NextHeader(img, off) == off + BLOCK + Padded(|e.data|)
  {
    hide ParseOctal, SizeField, RoundUp, Padded, OctalField;
    PaddedSize(|e.data|);
    FieldsRead(img, off, e);
    RoundedUp(|e.data|);
  }

  /** The least whole number of blocks that holds n bytes. */
  lemma PaddedSize(n: nat)
    ensures n <= Padded(n) < n + 512 && Padded(n) % 512 == 0
  {
  }

  lemma RoundedUp(n: nat)
    requires n + 511 < TWO_32
    ensures RoundUp(n) == Padded(n)
  {
  }

  /** What entry e, its data at off, adds to the tree. */
  function AddEntry(fs: Fs, e: Entry, off: nat): (r: Fs)
    requires |fs| > 0
    ensures |r| >= |fs|
  {
    match e
    case FileEntry(raw, mode, data) => AddFile(fs, raw, mode, |data|, off)
    case DirEntry(raw, mode, _) => AddDir(fs, raw, mode)
    case OtherEntry(_, _, _) => fs
  }

  lemma EntryAdded(fs: Fs, img: seq<byte>, off: nat, e: Entry)
    requires |fs| > 0 && FieldsAt(img, off, e) && |e.data| < TWO_32 && CStr(img, off) == e.raw
    ensures AddHeader(fs, img, off) == AddEntry(fs, e, off + BLOCK)
  {
    hide FieldsAt, ParseOctal;
    FieldsRead(img, off, e);
    TypeRead(img, off, e);
  }

  lemma TypeRead(img: seq<byte>, off: nat, e: Entry)
    requires FieldsAt(img, off, e)
    ensures off + BLOCK <= |img|
    ensures e.FileEntry? <==> IsRegular(img[off + TYPE_AT])
    ensures e.DirEntry? <==> img[off + TYPE_AT] == DIRECTORY
  {
  }

  /** The loop at a header reads its entry. */
  lemma HeaderIsEntry(fs: Fs, img: seq<byte>, off: nat, e: Entry)
    requires |fs| > 0 && HeaderAt(img, off, e) && e.raw != [] && NoNul(e.raw)
    requires off + BLOCK + Padded(|e.data|) + BLOCK < TWO_32
    ensures More(img, off) && Terminated(img, off)
    ensures NextHeader(img, off) == off + BLOCK + Padded(|e.data|)
    ensures AddHeader(fs, img, off) == AddEntry(fs, e, off + BLOCK)
  {
    EntryName(img, off, e.raw);
    EntryNext(img, off, e);
    EntryAdded(fs, img, off, e);
  }

  lemma EntryAt(img: seq<byte>, es: seq<Entry>, k: nat)
    requires Encodes(img, es) && k < |es|
    ensures HeaderOff(es, k) < HeaderOff(es, k + 1) < TWO_32 - BLOCK
    ensures var off := HeaderOff(es, k);
            && More(img, off) && Terminated(img, off) && NextHeader(img, off) == HeaderOff(es, k + 1)
            && AddHeader(Build(es, k), img, off) == Build(es, k + 1)
  {
    hide AddHeader, NextHeader, AddEntry, HeaderAt, Entry.Path, CStr;
    HeaderOffGrows(es, k + 1, |es|);
    assert EncodedAt(img, es, k);
    HeaderIsEntry(Build(es, k), img, HeaderOff(es, k), es[k]);
  }

  lemma MarchesOn(fs: Fs, img: seq<byte>, off: u32, next: u32)
    requires |fs| > 0 && off + BLOCK < TWO_32 && More(img, off) && Terminated(img, off)
    requires next == NextHeader(img, off) > off && Marches(img, next)
    ensures Marches(img, off) && MountFrom(fs, img, off) == MountFrom(AddHeader(fs, img, off), img, next)
  {
  }

  /** The mount loop on an archive adds its entries in order. */
  lemma {:induction false} MountBuilds(img: seq<byte>, es: seq<Entry>, k: nat)
    requires Encodes(img, es) && k <= |es|
    ensures HeaderOff(es, k) + BLOCK < TWO_32 && Marches(img, HeaderOff(es, k))
    ensures MountFrom(Build(es, k), img, HeaderOff(es, k)) == Build(es, |es|)
    decreases |es| - k
  {
    hide AddHeader, NextHeader, AddEntry, Padded, EncodedAt;
    if k < |es| {
      EntryAt(img, es, k);
      MountBuilds(img, es, k + 1);
      MarchesOn(Build(es, k), img, HeaderOff(es, k), HeaderOff(es, k + 1));
    }
  }

  // ---------------------------------------------------------------- paths of well-formed entries

  lemma {:induction false} SplitLast(w: Str, p: nat, k: nat)
    requires p <= k < |w| && w[k] == SLASH && k + 1 < |w|
    requires forall i :: k < i < |w| ==> w[i] != SLASH
    ensures SplitFrom(w, SEPARATORS, p, |w|) == SplitFrom(w, SEPARATORS, p, k) + [w[k + 1..]]
    decreases k - p
  {
    hide RunEnd;
    var (a, b) := NextToken(w, SEPARATORS, p, |w|);
    if a > k {
      RunEndIs(w, SEPARATORS, true, p, |w|, k + 1);
      RunEndIs(w, SEPARATORS, false, k + 1, |w|, |w|);
      RunEndIs(w, SEPARATORS, true, p, k, k);
      assert SplitFrom(w, SEPARATORS, |w|, |w|) == [];
      assert w[k + 1..|w|] == w[k + 1..];
    } else {
      assert w[a] != SLASH;
      RunEndIs(w, SEPARATORS, true, p, k, a);
      assert b <= k;
      RunEndIs(w, SEPARATORS, false, a, k, b);
      SplitLast(w, b, k);
    }
  }

  lemma SplitOne(w: Str)
    requires w != [] && forall i :: 0 <= i < |w| ==> w[i] != SLASH
    ensures Split(w, SEPARATORS) == [w]
  {
    RunEndIs(w, SEPARATORS, true, 0, |w|, 0);
    RunEndIs(w, SEPARATORS, false, 0, |w|, |w|);
    assert SplitFrom(w, SEPARATORS, |w|, |w|) == [];
    assert w[0..|w|] == w;
  }

  /** Cutting a path at its last '/' cuts off its last component. */
  lemma SplitBase(w: Str)
    requires w != [] && w[|w| - 1] != SLASH
    ensures var k := LastSlash(w);
            Split(w, SEPARATORS) == (if k < 0 then [] else Split(w[..k], SEPARATORS)) + [w[k + 1..]]
  {
    hide SplitFrom, LastSlash;
    var k := LastSlash(w);
    if k < 0 {
      SplitOne(w);
      assert w[k + 1..] == w;
    } else {
      SplitLast(w, 0, k);
      SpansLocal(w, w[..k], SEPARATORS, 0, k);
    }
  }

  lemma {:induction false} SplitShort(w: Str, p: nat, z: nat, t: Str)
    requires p <= z <= |w| && t in SplitFrom(w, SEPARATORS, p, z)
    ensures |t| <= z - p
    decreases z - p
  {
    var (a, b) := NextToken(w, SEPARATORS, p, z);
    if t != w[a..b] { SplitShort(w, b, z, t); }
  }

  lemma {:induction false} ClipNone(p: Path, n: nat)
    requires forall i :: 0 <= i < |p| ==> |p[i]| <= n
    ensures ClipAll(p, n) == p
  {
    if p != [] { ClipNone(p[1..], n); }
  }

  lemma DirCompsShort(s: Str)
    requires |s| < VFS_NAME_MAX
    ensures DirComps(s) == Split(StripDot(s), SEPARATORS)
  {
    var t := StripDot(s);
    var p := Split(t, SEPARATORS);
    forall i | 0 <= i < |p| ensures |p[i]| <= VFS_NAME_MAX - 1 { SplitShort(t, 0, |t|, p[i]); }
    ClipNone(p, VFS_NAME_MAX - 1);
  }

  lemma DotFirst(w: Str)
    requires |w| >= 2 && w[0] == DOT && w[1] == SLASH
    ensures Split(w, SEPARATORS) != [] && Split(w, SEPARATORS)[0] == SELF
  {
    RunEndIs(w, SEPARATORS, true, 0, |w|, 0);
    RunEndIs(w, SEPARATORS, false, 0, |w|, 1);
    assert w[0..1] == SELF;
  }

  lemma EmptyPath()
    ensures DirComps([]) == [] && Split([], SEPARATORS) == []
  {
    assert SplitFrom([], SEPARATORS, 0, 0) == [];
  }

  /** The directory part of a plain path does not start with "./" again. */
  lemma DirPartComps(w: Str)
    requires w != [] && |w| < VFS_NAME_MAX && w[|w| - 1] != SLASH && Plain(Split(w, SEPARATORS))
    ensures DirComps(DirPart(w)) == (if LastSlash(w) < 0 then [] else Split(w[..LastSlash(w)], SEPARATORS))
  {
    hide Split, LastSlash, Plain;
    var k := LastSlash(w);
    if k < 0 {
      EmptyPath();
    } else {
      var d := w[..k];
      DirCompsShort(d);
      if |d| >= 2 && d[0] == DOT && d[1] == SLASH { DotFirst(w); NotPlain(Split(w, SEPARATORS)); }
    }
  }

  lemma NotPlain(p: Path)
    requires p != [] && p[0] == SELF
    ensures !Plain(p)
  {
  }

  lemma PartsOf(w: Str)
    requires w != [] && |w| < VFS_NAME_MAX && w[|w| - 1] != SLASH && Plain(Split(w, SEPARATORS))
    ensures Split(w, SEPARATORS) == DirComps(DirPart(w)) + [BasePart(w)]
  {
    hide Split, Plain, DirComps, DirPart;
    SplitBase(w);
    DirPartComps(w);
  }

  lemma StripDotEnd(raw: Str)
    requires raw != [] && raw[|raw| - 1] != SLASH
    ensures var w := StripDot(raw); w != [] && |w| <= |raw| && w[|w| - 1] != SLASH
  {
  }

  /** The mount splits a well-formed file's name into its directory and its last component. */
  lemma FileParts(e: Entry)
    requires e.WellFormed() && e.FileEntry? && Plain(e.Path())
    ensures DirComps(DirPart(StripDot(e.raw))) == e.Dir()
    ensures e.Path() == e.Dir() + [BasePart(StripDot(e.raw))]
  {
    hide Split, Plain, DirComps, DirPart, StripDot, BasePart;
    StripDotEnd(e.raw);
    PartsOf(StripDot(e.raw));
  }

  lemma DirParts(e: Entry)
    requires e.WellFormed()
    ensures DirComps(e.raw) == e.Path()
  {
    DirCompsShort(e.raw);
  }

  // ---------------------------------------------------------------- header fields as written

  /** v in octal, n digits. */
  function Octal(v: nat, n: nat): seq<byte> {
    if n == 0 then [] else Octal(v / 8, n - 1) + [48 + v % 8]
  }

  /** Three digits of it, each written as its character from '0' on. */
  lemma OctalThree(u: nat, g: nat, o: nat)
    requires u < 8 && g < 8 && o < 8
    ensures Octal(64 * u + 8 * g + o, 3) == [48 + u, 48 + g, 48 + o]
  {
    var v := 64 * u + 8 * g + o;
    assert v / 8 == 8 * u + g && v % 8 == o;
    assert (8 * u + g) / 8 == u && (8 * u + g) % 8 == g;
    assert u / 8 == 0;
    assert Octal(u / 8, 0) == [];
    assert Octal(u, 1) == [48 + u];
    assert Octal(8 * u + g, 2) == [48 + u] + [48 + g];
    assert Octal(v, 3) == Octal(8 * u + g, 2) + [48 + o];
  }

  function Pow8(n: nat): (r: nat)
    ensures r > 0
  {
    if n == 0 then 1 else 8 * Pow8(n - 1)
  }

  lemma {:induction false} OctalPrefix(m: seq<byte>, a: nat, z: nat, v: nat, n: nat)
    requires a + n <= z <= |m| && m[a..a + n] == Octal(v, n) && v < Pow8(n) && v < TWO_32
    ensures ParseOctal(m, a, z, 0) == ParseOctal(m, a + n, z, v)
  {
    if n > 0 {
      var front := Octal(v / 8, n - 1);
      assert |front| == n - 1 by { OctalSize(v / 8, n - 1); }
      assert m[a..a + (n - 1)] == m[a..a + n][..n - 1] == front;
      OctalPrefix(m, a, z, v / 8, n - 1);
      assert m[a + n - 1] == m[a..a + n][n - 1] == 48 + v % 8;
    }
  }

  lemma {:induction false} OctalSize(v: nat, n: nat)
    ensures |Octal(v, n)| == n
  {
    if n > 0 { OctalSize(v / 8, n - 1); }
  }

  ghost predicate OctalDigits(m: seq<byte>, a: nat, z: nat, v: nat, n: nat) {
    a + n < z <= |m| && m[a..a + n] == Octal(v, n) && v < Pow8(n) && (m[a + n] == 0 || m[a + n] == 32)
  }

  /** The characters from a short of z are v in octal, ended by a NUL or a space. */
  ghost predicate OctalField(m: seq<byte>, a: nat, z: nat, v: nat) { exists n: nat :: OctalDigits(m, a, z, v, n) }

  lemma OctalRead(m: seq<byte>, a: nat, z: nat, v: nat)
    requires OctalField(m, a, z, v) && (v < TWO_32 || z <= a + MODE_LEN)
    ensures v < TWO_32 && ParseOctal(m, a, z, 0) == v
  {
    var n: nat :| OctalDigits(m, a, z, v, n);
    if z <= a + MODE_LEN { Pow8Upto(n, 7); assert Pow8(7) == 0x20_0000; }
    OctalRoundTrip(m, a, z, v, n);
  }

  lemma {:induction false} Pow8Upto(n: nat, k: nat)
    requires n <= k
    ensures Pow8(n) <= Pow8(k)
  {
    if n < k { Pow8Upto(n, k - 1); }
  }

  /** A field of octal digits ended by a character that is not one reads back as its value. */
  lemma OctalRoundTrip(m: seq<byte>, a: nat, z: nat, v: nat, n: nat)
    requires a + n < z <= |m| && m[a..a + n] == Octal(v, n) && v < Pow8(n) && v < TWO_32
    requires m[a + n] < 48 || m[a + n] > 55
    ensures ParseOctal(m, a, z, 0) == v
  {
    OctalPrefix(m, a, z, v, n);
  }

  /** The characters of a field of n bytes: to its first NUL, or all of them. */
  function FieldStr(m: seq<byte>, a: nat, n: nat): Str
    requires a + n <= |m|
    decreases n
  {
    if n == 0 || m[a] == 0 then [] else [m[a]] + FieldStr(m, a + 1, n - 1)
  }

  lemma {:induction false} FieldIsCStr(m: seq<byte>, a: nat, n: nat)
    requires a + n < |m| && Terminated(m, a)
    ensures |FieldStr(m, a, n)| <= n
    ensures CStr(m, a) == FieldStr(m, a, n) <==> |FieldStr(m, a, n)| < n || m[a + n] == 0
    decreases n
  {
    if n > 0 && m[a] != 0 { FieldIsCStr(m, a + 1, n - 1); }
  }

  /** The mount takes the name field as a C string. That is the field's content exactly when
      the name is shorter than the field or the byte after the field is NUL: a name of 100
      characters, which the format allows, runs on into the mode field. */
  lemma NameReadWhole(img: seq<byte>, off: nat)
    requires off + BLOCK <= |img| && Terminated(img, off)
    ensures CStr(img, off) == FieldStr(img, off, MODE_AT) <==>
            |FieldStr(img, off, MODE_AT)| < MODE_AT || img[off + MODE_AT] == 0
  {
    FieldIsCStr(img, off, MODE_AT);
  }

  /** A name of 100 characters with the mode right behind it. */
  lemma LongNameExample(img: seq<byte>)
    requires |img| == BLOCK && forall i :: 0 <= i < BLOCK ==> img[i] == if i < 107 then 97 else 0
    ensures Terminated(img, 0) && CStr(img, 0) != FieldStr(img, 0, MODE_AT)
  {
    CStrTo(img, 0, 107);
    FieldIsCStr(img, 0, MODE_AT);
  }

  /** The path the format gives: the name field, after the prefix field and a '/' unless that is
      empty. */
  function FormatName(img: seq<byte>, off: nat): Str
    requires off + BLOCK <= |img|
  {
    var (name, prefix) := (FieldStr(img, off, 100), FieldStr(img, off + 345, 155));
    if prefix == [] then name else prefix + [47] + name
  }

  /** The path the mount reads is the format's exactly when the prefix field is empty, for a name
      that is read whole; and with an empty prefix, exactly when the name is read whole. */
  lemma FormatNameIff(img: seq<byte>, off: nat)
    requires off + BLOCK <= |img| && Terminated(img, off)
    ensures CStr(img, off) == FieldStr(img, off, MODE_AT) ==>
              (CStr(img, off) == FormatName(img, off) <==> img[off + PREFIX_AT] == 0)
    ensures img[off + PREFIX_AT] == 0 ==>
              (CStr(img, off) == FormatName(img, off) <==>
               |FieldStr(img, off, MODE_AT)| < MODE_AT || img[off + MODE_AT] == 0)
  {
    NameReadWhole(img, off);
    var (name, prefix) := (FieldStr(img, off, MODE_AT), FieldStr(img, off + PREFIX_AT, PREFIX_LEN));
    assert prefix == [] <==> img[off + PREFIX_AT] == 0;
    assert prefix != [] ==> |prefix + [SLASH] + name| > |name|;
  }

  /** Put together: where nothing between the name field and the NUL is a '/', as between fields of
      digits, the path read is the format's exactly when the prefix is empty and the name is read
      whole. */
  lemma FormatNameExact(img: seq<byte>, off: nat)
    requires off + BLOCK <= |img| && Terminated(img, off)
    requires forall i :: MODE_AT <= i < |CStr(img, off)| ==> CStr(img, off)[i] != SLASH
    ensures CStr(img, off) == FormatName(img, off) <==>
            img[off + PREFIX_AT] == 0 && (|FieldStr(img, off, MODE_AT)| < MODE_AT || img[off + MODE_AT] == 0)
  {
    hide CStr, FieldStr;
    FormatNameIff(img, off);
    NameReadWhole(img, off);
    var (c, name) := (CStr(img, off), FieldStr(img, off, MODE_AT));
    var prefix := FieldStr(img, off + PREFIX_AT, PREFIX_LEN);
    PrefixEmpty(img, off);
    if prefix != [] && c != name {
      FieldIsCStr(img, off, MODE_AT);
      FieldIsFront(img, off, MODE_AT);
      if c == FormatName(img, off) { SlashComesBack(c, name, prefix, |prefix|); }
    }
  }

  lemma PrefixEmpty(img: seq<byte>, off: nat)
    requires off + BLOCK <= |img|
    ensures FieldStr(img, off + PREFIX_AT, PREFIX_LEN) == [] <==> img[off + PREFIX_AT] == 0
  {
  }

  lemma {:induction false} FieldIsFront(m: seq<byte>, a: nat, n: nat)
    requires a + n < |m| && Terminated(m, a)
    ensures FieldStr(m, a, n) <= CStr(m, a)
    decreases n
  {
    if n > 0 && m[a] != 0 { FieldIsFront(m, a + 1, n - 1); }
  }

  /** A string that both starts with a name and is that name after prefix and '/' repeats the '/'
      until past the name. */
  lemma {:induction false} SlashComesBack(c: Str, name: Str, prefix: Str, i: nat)
    requires c == prefix + [SLASH] + name && name <= c && i < |c| && c[i] == SLASH
    ensures exists k :: |name| <= k < |c| && c[k] == SLASH
    decreases |c| - i
  {
    if i < |name| {
      assert c[i + |prefix| + 1] == name[i] == c[i];
      SlashComesBack(c, name, prefix, i + |prefix| + 1);
    }
  }

  /** An archive's entries have the paths the format gives their headers. */
  lemma EntryFormatName(img: seq<byte>, off: nat, e: Entry)
    requires HeaderAt(img, off, e) && e.WellFormed()
    ensures FormatName(img, off) == e.raw
  {
    hide FieldStr, CStr;
    EntryName(img, off, e.raw);
    FieldIsCStr(img, off, MODE_AT);
    CStrLength(img, off, MODE_AT);
    FormatNameIff(img, off);
  }

  lemma {:induction false} CStrLength(m: seq<byte>, a: nat, n: nat)
    requires a + n < |m| && Terminated(m, a) && |CStr(m, a)| < n
    ensures |FieldStr(m, a, n)| < n
    decreases n
  {
    if m[a] != 0 { CStrLength(m, a + 1, n - 1); }
  }

  /** Any header with a name in place, given a one-letter prefix: the mount still reads the name
      alone. */
  lemma PrefixExample(img: seq<byte>, e: Entry)
    requires |img| >= BLOCK && HeaderAt(img, 0, e) && e.WellFormed() && img[PREFIX_AT + 1] == 0
    ensures var m := img[PREFIX_AT := 97];
            && Terminated(m, 0) && CStr(m, 0) == e.raw
            && FormatName(m, 0) == [97, SLASH] + e.raw
  {
    hide FieldStr, CStr, FieldsAt, Entry.Path;
    var m := img[PREFIX_AT := 97];
    EntryName(img, 0, e.raw);
    assert m[0..|e.raw|] == img[0..|e.raw|] && m[|e.raw|] == 0;
    EntryName(m, 0, e.raw);
    CStrLength(m, 0, MODE_AT);
    FieldIsCStr(m, 0, MODE_AT);
    FieldLetter(m, PREFIX_AT, PREFIX_LEN);
    assert [97] + [SLASH] == [97, SLASH];
  }

  lemma FieldLetter(m: seq<byte>, a: nat, n: nat)
    requires 2 <= n && a + n <= |m| && m[a] != 0 && m[a + 1] == 0
    ensures FieldStr(m, a, n) == [m[a]]
  {
    assert FieldStr(m, a + 1, n - 1) == [];
  }

  lemma {:induction false} CStrLocal(m: seq<byte>, m': seq<byte>, a: nat, z: nat)
    requires a < z <= |m| && z <= |m'| && a + |CStr(m, a)| < z && forall i :: a <= i < z ==> m'[i] == m[i]
    ensures CStr(m', a) == CStr(m, a)
    decreases z - a
  {
    if m[a] != 0 { CStrLocal(m, m', a + 1, z); }
  }

  lemma {:induction false} OctalLocal(m: seq<byte>, m': seq<byte>, a: nat, z: nat, v: u32)
    requires a <= z <= |m| && z <= |m'| && forall i :: a <= i < z ==> m'[i] == m[i]
    ensures ParseOctal(m', a, z, v) == ParseOctal(m, a, z, v)
    decreases z - a
  {
    if a < z && 48 <= m[a] <= 55 { OctalLocal(m, m', a + 1, z, Wrap32(v * 8 + (m[a] as int - 48))); }
  }

  /** The prefix field, which the format puts before the name, is never looked at: headers
      that differ only from it on add the same node. */
  lemma PrefixIgnored(fs: Fs, img: seq<byte>, img': seq<byte>, off: nat)
    requires |fs| > 0 && off + BLOCK <= |img| && off + BLOCK <= |img'|
    requires |CStr(img, off)| < PREFIX_AT && forall i :: off <= i < off + PREFIX_AT ==> img'[i] == img[i]
    ensures AddHeader(fs, img', off) == AddHeader(fs, img, off)
  {
    hide AddFile, AddDir, CStr, ParseOctal;
    CStrLocal(img, img', off, off + PREFIX_AT);
    OctalLocal(img, img', off + SIZE_AT, off + SIZE_AT + SIZE_LEN, 0);
    OctalLocal(img, img', off + MODE_AT, off + MODE_AT + MODE_LEN, 0);
  }
}
