/**
  Directories of a FAT32 volume: listing by index and search by name, over the directory's
  32-byte records laid end to end along its chain (fs/fat32.c).
 */
module FatDir {
  import opened CTypes
  import opened Options
  import opened Errno
  import opened Tokens
  import opened FatModel
  import opened FatRead

  const REC: nat := 32
  const SPACE: byte := 32

  type Rec = seq<byte>

  // ---------------------------------------------------------------- records

  /** Bytes cut into 32-byte records. */
  function RecsOf(d: seq<byte>): (rs: seq<Rec>)
    ensures forall r :: r in rs ==> |r| == REC
    decreases |d|
  {
    if |d| < REC then [] else [d[..REC]] + RecsOf(d[REC..])
  }

  lemma {:induction false} RecsConcat(a: seq<byte>, b: seq<byte>)
    requires |a| % REC == 0
    ensures RecsOf(a + b) == RecsOf(a) + RecsOf(b)
    decreases |a|
  {
    if |a| == 0 {
      assert a + b == b;
    } else {
      assert (a + b)[..REC] == a[..REC] && (a + b)[REC..] == a[REC..] + b;
      RecsConcat(a[REC..], b);
    }
  }

  /** Neither free nor deleted, and no volume label, hidden or system file. */
  predicate Shown(r: Rec)
    requires |r| == REC
  {
    r[0] != 0 && r[0] != 0xE5 && r[11] / 8 % 2 == 0 && r[11] / 2 % 2 == 0 && r[11] / 4 % 2 == 0
  }

  lemma ShownIff(r: Rec)
    requires |r| == REC
    ensures Shown(r) <==> r[0] != 0 && r[0] != 0xE5 && r[11] % 16 < 2
  {
    LowBits(r[11]);
  }

  lemma LowBits(b: nat)
    ensures b % 16 < 2 <==> b / 8 % 2 == 0 && b / 2 % 2 == 0 && b / 4 % 2 == 0
  {
    var (q, m) := (b / 16, b % 16);
    assert b / 2 == 8 * q + m / 2 && b / 4 == 4 * q + m / 4 && b / 8 == 2 * q + m / 8;
    Parity(4 * q, m / 2);
    Parity(2 * q, m / 4);
    Parity(q, m / 8);
  }

  lemma Parity(q: nat, m: nat)
    ensures (2 * q + m) % 2 == m % 2
  {
  }

  /** The entries a listing shows, in order. */
  function Visible(rs: seq<Rec>): (vs: seq<Rec>)
    requires forall r :: r in rs ==> |r| == REC
    ensures forall r :: r in vs ==> r in rs && Shown(r)
  {
    if rs == [] then [] else (if Shown(rs[0]) then [rs[0]] else []) + Visible(rs[1..])
  }

  lemma {:induction false} VisibleConcat(a: seq<Rec>, b: seq<Rec>)
    requires forall r :: r in a + b ==> |r| == REC
    ensures (forall r :: r in a ==> r in a + b) && (forall r :: r in b ==> r in a + b)
    ensures Visible(a + b) == Visible(a) + Visible(b)
    decreases |a|
  {
    hide Shown;
    if a == [] {
      assert a + b == b;
    } else {
      assert (a + b)[1..] == a[1..] + b && (a + b)[0] == a[0];
      VisibleConcat(a[1..], b);
      var v := if Shown(a[0]) then [a[0]] else [];
      assert v + (Visible(a[1..]) + Visible(b)) == (v + Visible(a[1..])) + Visible(b);
    }
  }

  /** The visible entries of a stretch of directory bytes. */
  function Entries(d: seq<byte>): (vs: seq<Rec>)
    ensures forall i :: 0 <= i < |vs| ==> |vs[i]| == REC && Shown(vs[i])
  {
    Visible(RecsOf(d))
  }

  lemma EntriesConcat(a: seq<byte>, b: seq<byte>)
    requires |a| % REC == 0
    ensures Entries(a + b) == Entries(a) + Entries(b)
  {
    RecsConcat(a, b);
    VisibleConcat(RecsOf(a), RecsOf(b));
  }

  /** The listing record by record: the next 32 bytes are an entry unless they are free, deleted, or
      have one of the bits 2, 4 and 8 among their attributes. */
  lemma EntriesNext(d: seq<byte>, i: nat)
    requires 32 * i + 32 <= |d|
    ensures var r := d[32 * i..32 * i + 32];
            Entries(d[..32 * i + 32]) ==
            Entries(d[..32 * i]) + if r[0] != 0 && r[0] != 0xE5 && r[11] % 16 < 2 then [r] else []
    ensures Entries([]) == []
  {
    hide Entries, Shown;
    var r := d[32 * i..32 * i + 32];
    assert d[..32 * i + 32] == d[..32 * i] + r;
    EntriesConcat(d[..32 * i], r);
    ShownIff(r);
    NoEntries();
    EntriesFirst(r);
    assert r[..REC] == r && r[REC..] == [];
    assert (if Shown(r) then [r] else []) + [] == if Shown(r) then [r] else [];
  }

  // ---------------------------------------------------------------- names

  function ToLower(c: byte): byte { if 65 <= c <= 90 then c + 32 else c }

  /** Two characters fold to one exactly when they are the same, or one is a letter in upper case and
      the other that letter in lower case. */
  lemma LowerIff(c: byte, d: byte)
    ensures ToLower(c) == ToLower(d) <==>
            c == d || (65 <= c <= 90 && d == c + 32) || (65 <= d <= 90 && c == d + 32)
  {
  }

  /** The same characters but for the case of letters. */
  predicate SameName(a: Str, b: Str) {
    && |a| == |b|
    && forall i :: 0 <= i < |a| ==>
         a[i] == b[i] || (65 <= a[i] <= 90 && b[i] == a[i] + 32) || (65 <= b[i] <= 90 && a[i] == b[i] + 32)
  }

  /** Without spaces, in lower case. */
  function Squeeze(s: seq<byte>): seq<byte> {
    if s == [] then [] else (if s[0] != SPACE then [ToLower(s[0])] else []) + Squeeze(s[1..])
  }

  /** The 8.3 name with its dot, in lower case. */
  function Name83(r: Rec): seq<byte>
    requires |r| == REC
  {
    Squeeze(r[..8]) + if r[8] != SPACE then [DOT] + Squeeze(r[8..11]) else []
  }

  /** What a C string holding these bytes is: to the first NUL. */
  function UpToNul(s: seq<byte>): (t: Str)
    ensures NoNul(t)
  {
    if s == [] || s[0] == 0 then [] else [s[0]] + UpToNul(s[1..])
  }

  lemma {:induction false} UpToNulIs(s: seq<byte>)
    ensures var t := UpToNul(s); t <= s && (|t| < |s| ==> s[|t|] == 0)
  {
    if s != [] && s[0] != 0 { UpToNulIs(s[1..]); }
  }

  /** A directory entry as handed out. */
  datatype DirEnt = DirEnt(name: Str, size: u32, cluster: nat, attributes: byte)

  function DirEntOf(r: Rec): DirEnt
    requires |r| == REC
  {
    DirEnt(UpToNul(Name83(r)), Load32(r, 28), LoadLE(r, 20, 2) * 0x1_0000 + LoadLE(r, 26, 2), r[11])
  }

  /** Which bytes of the record they are. */
  lemma DirEntFields(r: Rec)
    requires |r| == REC
    ensures var e := DirEntOf(r);
            && e.size ==
               (r[28] as int) + 0x100 * (r[29] as int) + 0x1_0000 * (r[30] as int) + 0x100_0000 * (r[31] as int)
            && e.cluster ==
               (r[26] as int) + 0x100 * (r[27] as int) + 0x1_0000 * (r[20] as int) + 0x100_0000 * (r[21] as int)
            && e.attributes == r[11]
  {
    LittleEndian(r, 28);
    LittleEndian(r, 20);
    LittleEndian(r, 26);
  }

  /** No character of the readable name is a letter in upper case, or a space. */
  lemma NameLower(r: Rec)
    requires |r| == REC
    ensures forall i :: 0 <= i < |Name83(r)| ==> !(65 <= Name83(r)[i] <= 90) && Name83(r)[i] != 32
  {
    SqueezeLower(r[..8]);
    SqueezeLower(r[8..11]);
  }

  lemma {:induction false} SqueezeLower(s: seq<byte>)
    ensures forall i :: 0 <= i < |Squeeze(s)| ==> !(65 <= Squeeze(s)[i] <= 90) && Squeeze(s)[i] != 32
  {
    if s != [] { SqueezeLower(s[1..]); }
  }

  /** "A       TXT" on the disk is "a.txt", and is found by that name and by "A.TXT". */
  lemma NameExample(r: Rec)
    requires |r| == REC && r[..11] == [65, 32, 32, 32, 32, 32, 32, 32, 84, 88, 84]
    ensures Name83(r) == [97, 46, 116, 120, 116]
    ensures Named(r, [97, 46, 116, 120, 116]) && Named(r, [65, 46, 84, 88, 84])
  {
    hide Squeeze, UpToNul;
    var blank: seq<byte> := [32, 32, 32, 32, 32, 32, 32];
    assert r[..8] == r[..11][..8] == [65] + blank && r[8] == r[..11][8] && r[8..11] == r[..11][8..] == [84, 88, 84];
    SqueezeStep([65] + blank);
    assert ([65] + blank)[1..] == blank;
    SqueezeSpaces(blank);
    SqueezeExtension();
    UpToNulIs([97, 46, 116, 120, 116]);
    assert [97] + [] == [97] && [97] + [DOT] + [116, 120, 116] == [97, 46, 116, 120, 116];
  }

  lemma SqueezeExtension()
    ensures Squeeze([84, 88, 84]) == [116, 120, 116]
  {
    SqueezeStep([84, 88, 84]);
    SqueezeStep([88, 84]);
    SqueezeStep([84]);
    assert [84, 88, 84][1..] == [88, 84] && [88, 84][1..] == [84] && [84][1..] == [];
  }

  lemma SqueezeStep(s: seq<byte>)
    requires s != []
    ensures Squeeze(s) == (if s[0] != 32 then [ToLower(s[0])] else []) + Squeeze(s[1..])
    ensures Squeeze([]) == []
  {
  }

  lemma {:induction false} SqueezeSpaces(s: seq<byte>)
    requires forall i :: 0 <= i < |s| ==> s[i] == 32
    ensures Squeeze(s) == []
  {
    if s != [] { SqueezeSpaces(s[1..]); }
  }

  function Fold(s: Str): Str {
    if s == [] then [] else [ToLower(s[0])] + Fold(s[1..])
  }

  /** The entry's name is this one, but for case. */
  predicate Named(r: Rec, name: Str)
    requires |r| == REC
  {
    SameName(DirEntOf(r).name, name)
  }

  /** The least index from i on whose entry has this name, or |vs|. */
  function FirstNamed(vs: seq<Rec>, name: Str, i: nat): (k: nat)
    requires i <= |vs| && forall j :: 0 <= j < |vs| ==> |vs[j]| == REC
    ensures i <= k <= |vs| && (k < |vs| ==> Named(vs[k], name))
    ensures forall j :: i <= j < k ==> !Named(vs[j], name)
    decreases |vs| - i
  {
    if i == |vs| || Named(vs[i], name) then i else FirstNamed(vs, name, i + 1)
  }

  method SqueezeLoop(r: Rec, from: nat, to: nat, name: seq<byte>) returns (out: seq<byte>)
    requires |r| == REC && from <= to <= REC
    ensures out == name + Squeeze(r[from..to])
  {
    out := name;
    var j := from;
    while j < to
      invariant from <= j <= to && out + Squeeze(r[j..to]) == name + Squeeze(r[from..to])
    {
      assert r[j..to][1..] == r[j + 1..to];
      if r[j] != SPACE { out := out + [ToLower(r[j])]; }
      j := j + 1;
    }
  }

  /** The conversion of an 8.3 name to a readable one. */
  method ReadableName(r: Rec) returns (name: seq<byte>)
    requires |r| == REC
    ensures name == Name83(r)
  {
    name := SqueezeLoop(r, 0, 8, []);
    assert r[0..8] == r[..8];
    if r[8] != SPACE {
      name := SqueezeLoop(r, 8, 11, name + [DOT]);
    }
  }

  function CharAt(s: Str, i: nat): byte { if i < |s| then s[i] else 0 }

  lemma {:induction false} FoldAt(s: Str)
    ensures |Fold(s)| == |s| && forall i :: 0 <= i < |s| ==> Fold(s)[i] == ToLower(s[i])
  {
    if s != [] { FoldAt(s[1..]); }
  }

  /** Folded strings are equal exactly when the strings are the same but for case. */
  lemma FoldIff(a: Str, b: Str)
    ensures Fold(a) == Fold(b) <==> SameName(a, b)
  {
    hide Fold;
    FoldAt(a);
    FoldAt(b);
    if Fold(a) == Fold(b) {
      forall i | 0 <= i < |a| ensures ToLower(a[i]) == ToLower(b[i]) { assert Fold(a)[i] == Fold(b)[i]; }
    }
  }

  /** strcasecmp: 0 for strings that are the same but for case, else the difference of the first
      characters that are not. */
  method StrCaseCmp(a: Str, b: Str) returns (d: int)
    requires NoNul(a) && NoNul(b)
    ensures d == 0 <==> SameName(a, b)
    ensures d != 0 ==>
              exists i :: 0 <= i <= |a| && i <= |b| && SameName(a[..i], b[..i]) &&
                          d == ToLower(CharAt(a, i)) - ToLower(CharAt(b, i))
  {
    var i := 0;
    while ToLower(CharAt(a, i)) == ToLower(CharAt(b, i))
      invariant 0 <= i <= |a| && i <= |b| && SameName(a[..i], b[..i])
      decreases |a| - i
    {
      if CharAt(a, i) == 0 {
        assert a[..i] == a && b[..i] == b;
        return 0;
      }
      LowerIff(a[i], CharAt(b, i));
      assert i < |b|;
      i := i + 1;
    }
    return ToLower(CharAt(a, i)) - ToLower(CharAt(b, i));
  }

  // ---------------------------------------------------------------- scanning

  /** Of the entries vs, those from number n on are ws. */
  ghost predicate Left(vs: seq<Rec>, n: nat, ws: seq<Rec>) { n <= |vs| && vs[n..] == ws }

  lemma LeftPast(vs: seq<Rec>, n: nat, a: seq<Rec>, b: seq<Rec>)
    requires Left(vs, n, a + b)
    ensures Left(vs, n + |a|, b)
    ensures forall i :: 0 <= i < |a| ==> vs[n + i] == a[i]
  {
    assert vs[n + |a|..] == vs[n..][|a|..];
    forall i | 0 <= i < |a| ensures vs[n + i] == a[i] { assert vs[n..][i] == a[i]; }
  }

  lemma EntriesFirst(d: seq<byte>)
    requires |d| >= REC
    ensures Entries(d) == (if Shown(d[..REC]) then [d[..REC]] else []) + Entries(d[REC..])
  {
  }

  lemma EntriesSectors(disk: Disk, lba: nat, n: nat)
    requires n > 0
    ensures Entries(Sectors(disk, lba, n)) == Entries(disk(lba)) + Entries(Sectors(disk, lba + 1, n - 1))
  {
    EntriesConcat(disk(lba), Sectors(disk, lba + 1, n - 1));
  }

  lemma EntriesChain(v: Vol, c: nat, k: nat)
    requires k > 0 && !Stops(v, c)
    ensures Entries(Content(v, c, k)) == Entries(ClusterData(v, c)) + Entries(Content(v, v.fat[c], k - 1))
  {
    EntriesConcat(ClusterData(v, c), Content(v, v.fat[c], k - 1));
  }

  method ScanSectorIndex(s: Sector, index: nat, found: nat) returns (hit: Option<Rec>, found': nat)
    requires found <= index
    ensures found <= index < found + |Entries(s)| ==> hit == Some(Entries(s)[index - found])
    ensures index >= found + |Entries(s)| ==> hit == None && found' == found + |Entries(s)|
  {
    hide Entries, Shown;
    found' := found;
    var i := 0;
    assert s[0..] == s;
    while i < 16
      invariant i <= 16 && found <= found' <= index
      invariant Left(Entries(s), found' - found, Entries(s[REC * i..]))
      decreases 16 - i
    {
      var de := s[REC * i..REC * (i + 1)];
      ghost var d := s[REC * i..];
      assert d[..REC] == de && d[REC..] == s[REC * (i + 1)..];
      EntriesFirst(d);
      LeftPast(Entries(s), found' - found, if Shown(de) then [de] else [], Entries(d[REC..]));
      if Shown(de) {
        if found' == index { return Some(de), found'; }
        found' := found' + 1;
      }
      i := i + 1;
    }
    assert s[REC * 16..] == [];
    NoEntries();
    return None, found';
  }

  lemma NoEntries()
    ensures Entries([]) == []
  {
    assert RecsOf([]) == [];
  }

  method ScanClusterIndex(v: Vol, c: nat, index: nat, found: nat) returns (hit: Option<Rec>, found': nat)
    requires v.Ok() && c >= 2 && found <= index
    ensures var vs := Entries(ClusterData(v, c));
            && (index < found + |vs| ==> hit == Some(vs[index - found]))
            && (index >= found + |vs| ==> hit == None && found' == found + |vs|)
  {
    hide Entries, Sectors;
    found' := found;
    var sectorBuffer := new byte[SECTOR];
    var first := v.FirstSector(c);
    ghost var vs := Entries(ClusterData(v, c));
    var s := 0;
    while s < v.spc
      invariant s <= v.spc && found <= found' <= index
      invariant Left(vs, found' - found, Entries(Sectors(v.disk, first + s, v.spc - s)))
    {
      EntriesSectors(v.disk, first + s, v.spc - s);
      LeftPast(vs, found' - found, Entries(v.disk(first + s)), Entries(Sectors(v.disk, first + s + 1, v.spc - s - 1)));
      ReadOne(v.disk, first + s, sectorBuffer);
      hit, found' := ScanSectorIndex(sectorBuffer[..], index, found');
      if hit.Some? { return; }
      s := s + 1;
    }
    NoEntries();
    return None, found';
  }

  method ReadOne(disk: Disk, lba: nat, buf: array<byte>)
    requires buf.Length == SECTOR
    modifies buf
    ensures buf[..] == disk(lba)
  {
    ReadSectors(disk, lba, 1, buf, 0);
    assert Sectors(disk, lba, 1) == disk(lba) + Sectors(disk, lba + 1, 0) == disk(lba);
    assert buf[..] == buf[0..0 + SECTOR * 1];
  }

  /** fat32_readdir_index: the entry with this number among those shown, or -ENOENT past the
      last one. Within k clusters the directory's chain ends, or the entry comes: a cyclic directory
      without it keeps the search going for ever. */
  method ReaddirIndex(v: Vol, dirCluster: u32, index: u32, ghost cs: set<nat>, ghost k: nat)
    returns (rc: int, entry: Option<DirEnt>)
    requires v.Ok() && ClosedOrFree(v, cs) && OnChain(cs, dirCluster)
    requires Ends(v, dirCluster, k) || index < |Entries(Content(v, dirCluster, k))|
    ensures var vs := Entries(Content(v, dirCluster, k));
            if index < |vs| then rc == 0 && entry == Some(DirEntOf(vs[index])) else rc == -ENOENT && entry == None
  {
    hide Entries, ClusterData;
    var current: nat := dirCluster;
    var found: nat := 0;
    ghost var vs := Entries(Content(v, dirCluster, k));
    ghost var left := k;
    while !IsEof(current) && current != 0
      invariant OnChain(cs, current)
      invariant found <= index && (Ends(v, current, left) || index < |vs|)
      invariant Left(vs, found, Entries(Content(v, current, left)))
      decreases left
    {
      if left == 0 { NoEntries(); }
      EntriesChain(v, current, left);
      ghost var d := Entries(ClusterData(v, current));
      LeftPast(vs, found, d, Entries(Content(v, v.fat[current], left - 1)));
      var hit: Option<Rec>;
      hit, found := ScanClusterIndex(v, current, index, found);
      if hit.Some? {
        var e := ConvertEntry(hit.value);
        return 0, Some(e);
      }
      current := v.fat[current];
      left := left - 1;
    }
    NoEntries();
    return -ENOENT, None;
  }

  /** The structure handed out for a record. */
  method ConvertEntry(r: Rec) returns (entry: DirEnt)
    requires |r| == REC
    ensures entry == DirEntOf(r)
  {
    var name := ReadableName(r);
    entry := DirEnt(UpToNul(name), Load32(r, 28), LoadLE(r, 20, 2) * 0x1_0000 + LoadLE(r, 26, 2), r[11]);
  }

  // ---------------------------------------------------------------- search by name

  /** The first entry of this name, if any. */
  function Search(vs: seq<Rec>, name: Str): (r: Option<Rec>)
    requires forall i :: 0 <= i < |vs| ==> |vs[i]| == REC
  {
    var k := FirstNamed(vs, name, 0);
    if k < |vs| then Some(vs[k]) else None
  }

  lemma {:induction false} FirstNamedIs(vs: seq<Rec>, name: Str, i: nat, k: nat)
    requires i <= k <= |vs| && forall j :: 0 <= j < |vs| ==> |vs[j]| == REC
    requires (forall j :: i <= j < k ==> !Named(vs[j], name)) && (k < |vs| ==> Named(vs[k], name))
    ensures FirstNamed(vs, name, i) == k
    decreases k - i
  {
    if i < k { FirstNamedIs(vs, name, i + 1, k); }
  }

  lemma SearchConcat(a: seq<Rec>, b: seq<Rec>, name: Str)
    requires (forall i :: 0 <= i < |a| ==> |a[i]| == REC) && (forall i :: 0 <= i < |b| ==> |b[i]| == REC)
    ensures forall i :: 0 <= i < |a + b| ==> |(a + b)[i]| == REC
    ensures Search(a + b, name) == if Search(a, name).Some? then Search(a, name) else Search(b, name)
  {
    hide Named;
    var k := FirstNamed(a, name, 0);
    if k < |a| {
      FirstNamedIs(a + b, name, 0, k);
    } else {
      var j := FirstNamed(b, name, 0);
      forall i | 0 <= i < |a| + j ensures !Named((a + b)[i], name) {
        assert (a + b)[i] == if i < |a| then a[i] else b[i - |a|];
      }
      FirstNamedIs(a + b, name, 0, |a| + j);
    }
  }

  method ScanSectorName(s: Sector, name: Str) returns (hit: Option<Rec>)
    requires NoNul(name)
    ensures hit == Search(Entries(s), name)
  {
    hide Entries, Shown, Search;
    var i := 0;
    assert s[0..] == s;
    while i < 16
      invariant i <= 16 && Search(Entries(s), name) == Search(Entries(s[REC * i..]), name)
      decreases 16 - i
    {
      var de := s[REC * i..REC * (i + 1)];
      ghost var d := s[REC * i..];
      assert d[..REC] == de && d[REC..] == s[REC * (i + 1)..];
      EntriesFirst(d);
      SearchConcat(if Shown(de) then [de] else [], Entries(d[REC..]), name);
      SearchOne(de, name);
      if Shown(de) {
        var entryName := ReadableName(de);
        var d := StrCaseCmp(UpToNul(entryName), name);
        if d == 0 { return Some(de); }
      }
      i := i + 1;
    }
    assert s[REC * 16..] == [];
    NoEntries();
    SearchNone(name);
    return None;
  }

  lemma SearchOne(r: Rec, name: Str)
    requires |r| == REC
    ensures Search([r], name) == if Named(r, name) then Some(r) else None
    ensures Search([], name) == None
  {
    hide Named;
    FirstNamedIs([r], name, 0, if Named(r, name) then 0 else 1);
  }

  lemma SearchNone(name: Str)
    ensures Search([], name) == None
  {
  }

  method ScanClusterName(v: Vol, c: nat, name: Str) returns (hit: Option<Rec>)
    requires v.Ok() && c >= 2 && NoNul(name)
    ensures hit == Search(Entries(ClusterData(v, c)), name)
  {
    hide Entries, Search, Sectors;
    var sectorBuffer := new byte[SECTOR];
    var first := v.FirstSector(c);
    var s := 0;
    while s < v.spc
      invariant s <= v.spc
      invariant Search(Entries(ClusterData(v, c)), name) == Search(Entries(Sectors(v.disk, first + s, v.spc - s)), name)
    {
      EntriesSectors(v.disk, first + s, v.spc - s);
      SearchConcat(Entries(v.disk(first + s)), Entries(Sectors(v.disk, first + s + 1, v.spc - s - 1)), name);
      ReadOne(v.disk, first + s, sectorBuffer);
      hit := ScanSectorName(sectorBuffer[..], name);
      if hit.Some? { return; }
      s := s + 1;
    }
    NoEntries();
    SearchNone(name);
    return None;
  }

  lemma LeftOver(v: Vol, c: nat, left: nat, name: Str)
    requires Ends(v, c, left) || Search(Entries(Content(v, c, left)), name).Some?
    ensures left > 0
  {
    if left == 0 {
      NoEntries();
      SearchNone(name);
    }
  }

  lemma ContentNone(v: Vol, c: nat, k: nat)
    requires Stops(v, c)
    ensures Content(v, c, k) == []
  {
  }

  /** fat32_find_entry's walk over the directory's clusters. */
  method FindRec(v: Vol, dirCluster: u32, name: Str, ghost cs: set<nat>, ghost k: nat) returns (hit: Option<Rec>)
    requires v.Ok() && ClosedOrFree(v, cs) && OnChain(cs, dirCluster) && NoNul(name)
    requires Ends(v, dirCluster, k) || Search(Entries(Content(v, dirCluster, k)), name).Some?
    ensures hit == Search(Entries(Content(v, dirCluster, k)), name)
  {
    hide Entries, ClusterData, Content, Ends, Search, ClosedOrFree;
    var current: nat := dirCluster;
    ghost var left: nat := k;
    while !IsEof(current) && current != 0
      invariant OnChain(cs, current)
      invariant Ends(v, current, left) || Search(Entries(Content(v, current, left)), name).Some?
      invariant Search(Entries(Content(v, dirCluster, k)), name) == Search(Entries(Content(v, current, left)), name)
      decreases left
    {
      LeftOver(v, current, left, name);
      InSet(v, cs, current);
      EntriesChain(v, current, left);
      SearchConcat(Entries(ClusterData(v, current)), Entries(Content(v, v.fat[current], left - 1)), name);
      hit := ScanClusterName(v, current, name);
      if hit.Some? { return; }
      if Ends(v, current, left) { EndsStep(v, current, left - 1); }
      current := v.fat[current];
      left := left - 1;
    }
    ContentNone(v, current, left);
    NoEntries();
    SearchNone(name);
    return None;
  }

  /** fat32_find_entry: the first entry shown whose name is this one but for case, or -ENOENT. */
  method FindEntry(v: Vol, dirCluster: u32, name: Str, ghost cs: set<nat>, ghost k: nat)
    returns (rc: int, entry: Option<DirEnt>)
    requires v.Ok() && ClosedOrFree(v, cs) && OnChain(cs, dirCluster) && NoNul(name)
    requires Ends(v, dirCluster, k) || Search(Entries(Content(v, dirCluster, k)), name).Some?
    ensures var vs := Entries(Content(v, dirCluster, k));
            var i := FirstNamed(vs, name, 0);
            if i < |vs| then rc == 0 && entry == Some(DirEntOf(vs[i])) else rc == -ENOENT && entry == None
  {
    hide Entries, Content, Ends, DirEntOf, FirstNamed;
    var hit := FindRec(v, dirCluster, name, cs, k);
    if hit.None? { return -ENOENT, None; }
    var e := ConvertEntry(hit.value);
    return 0, Some(e);
  }

  /** Search and listing agree: what a search finds is what the listing shows at the least
      index of that name; it finds nothing exactly when no index shows that name. */
  lemma SearchIsListing(vs: seq<Rec>, name: Str)
    requires forall i :: 0 <= i < |vs| ==> |vs[i]| == REC
    ensures Search(vs, name) == None <==> forall i :: 0 <= i < |vs| ==> !SameName(DirEntOf(vs[i]).name, name)
    ensures Search(vs, name).Some? ==>
              exists i :: 0 <= i < |vs| && Search(vs, name) == Some(vs[i]) && SameName(DirEntOf(vs[i]).name, name)
                          && forall j :: 0 <= j < i ==> !SameName(DirEntOf(vs[j]).name, name)
  {
    var k := FirstNamed(vs, name, 0);
    assert forall j :: 0 <= j < k ==> !Named(vs[j], name);
  }
}
