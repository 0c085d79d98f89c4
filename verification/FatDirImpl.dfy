/**
  The directory search of fs/fat32_impl.c, which stops at the first record never used and cuts
  names at their first space, and exactly when it sees what fs/fat32.c sees.
 */
module FatDirImpl {
  import opened CTypes
  import opened Options
  import opened Errno
  import opened Tokens
  import opened FatModel
  import opened FatRead
  import opened FatDir

  /** The records before the first one never used. */
  function UntilEnd(rs: seq<Rec>): (us: seq<Rec>)
    requires forall r :: r in rs ==> |r| == REC
    ensures forall r :: r in us ==> r in rs && r[0] != 0
  {
    if rs == [] || rs[0][0] == 0 then [] else [rs[0]] + UntilEnd(rs[1..])
  }

  /** They are all of them, or those before the first that starts with a 0. */
  lemma {:induction false} UntilEndIs(rs: seq<Rec>, k: nat)
    requires (forall r :: r in rs ==> |r| == REC) && k <= |rs|
    ensures UntilEnd(rs) == rs[..k] <==> (forall i :: 0 <= i < k ==> rs[i][0] != 0) && (k < |rs| ==> rs[k][0] == 0)
  {
    if rs != [] && k > 0 {
      UntilEndIs(rs[1..], k - 1);
      assert forall i :: 0 < i < |rs| ==> rs[i] == rs[1..][i - 1];
      assert rs[..k] == [rs[0]] + rs[1..][..k - 1];
      assert rs[..k][1..] == rs[1..][..k - 1];
    }
  }

  /** Up to the first space. */
  function ToSpace(s: seq<byte>): seq<byte> {
    if s == [] || s[0] == SPACE then [] else [s[0]] + ToSpace(s[1..])
  }

  /** The name a search compares. */
  function CutName(r: Rec): seq<byte>
    requires |r| == REC
  {
    ToSpace(r[..8]) + if r[8] != SPACE then [DOT] + ToSpace(r[8..11]) else []
  }

  predicate CutNamed(r: Rec, name: Str)
    requires |r| == REC
  {
    SameName(UpToNul(CutName(r)), name)
  }

  // ---------------------------------------------------------------- the scan

  /** What is looked for: a name, or the entry with this many shown ones before it. */
  datatype Want = ByName(name: Str) | ByIndex(n: nat)

  predicate Meets(r: Rec, w: Want)
    requires |r| == REC
  {
    match w case ByName(name) => CutNamed(r, name) case ByIndex(n) => n == 0
  }

  function Past(w: Want): Want {
    match w case ByName(_) => w case ByIndex(n) => if n > 0 then ByIndex(n - 1) else w
  }

  datatype Scan = Hit(r: Rec) | End | More(want: Want)

  /** Looking through records: found, at the end of the directory, or still looking. */
  function Look(rs: seq<Rec>, w: Want): (s: Scan)
    requires forall i :: 0 <= i < |rs| ==> |rs[i]| == REC
    ensures s.Hit? ==> |s.r| == REC
    ensures s.More? && (w.ByName? || s.want.ByName?) ==> s.want == w
  {
    if rs == [] then More(w)
    else if rs[0][0] == 0 then End
    else if !Shown(rs[0]) then Look(rs[1..], w)
    else if Meets(rs[0], w) then Hit(rs[0])
    else Look(rs[1..], Past(w))
  }

  function Then(s: Scan, rs: seq<Rec>): (t: Scan)
    requires forall i :: 0 <= i < |rs| ==> |rs[i]| == REC
  {
    if s.More? then Look(rs, s.want) else s
  }

  lemma {:induction false} LookConcat(a: seq<Rec>, b: seq<Rec>, w: Want)
    requires (forall i :: 0 <= i < |a| ==> |a[i]| == REC) && (forall i :: 0 <= i < |b| ==> |b[i]| == REC)
    ensures forall i :: 0 <= i < |a + b| ==> |(a + b)[i]| == REC
    ensures Look(a + b, w) == Then(Look(a, w), b)
  {
    hide Shown, Meets;
    if a == [] {
      assert a + b == b;
    } else {
      assert (a + b)[1..] == a[1..] + b && (a + b)[0] == a[0];
      LookConcat(a[1..], b, w);
      LookConcat(a[1..], b, Past(w));
    }
  }

  /** The shown records before the end. */
  function BeforeEnd(rs: seq<Rec>): (vs: seq<Rec>)
    requires forall r :: r in rs ==> |r| == REC
    ensures forall i :: 0 <= i < |vs| ==> |vs[i]| == REC && Shown(vs[i])
  {
    Visible(UntilEnd(rs))
  }

  lemma BeforeEndStep(rs: seq<Rec>)
    requires forall r :: r in rs ==> |r| == REC
    ensures BeforeEnd(rs) ==
            if rs == [] || rs[0][0] == 0 then []
            else (if Shown(rs[0]) then [rs[0]] else []) + BeforeEnd(rs[1..])
  {
    hide Shown;
    if rs != [] && rs[0][0] != 0 { assert UntilEnd(rs)[1..] == UntilEnd(rs[1..]); }
  }

  /** The shown entries, as this search sees them. */
  function EntriesBeforeEnd(d: seq<byte>): (vs: seq<Rec>)
    ensures forall i :: 0 <= i < |vs| ==> |vs[i]| == REC && Shown(vs[i])
  {
    BeforeEnd(RecsOf(d))
  }

  function FirstCutNamed(vs: seq<Rec>, name: Str): (k: nat)
    requires forall j :: 0 <= j < |vs| ==> |vs[j]| == REC
    ensures k <= |vs| && (k < |vs| ==> CutNamed(vs[k], name))
    ensures forall j :: 0 <= j < k ==> !CutNamed(vs[j], name)
  {
    if vs == [] || CutNamed(vs[0], name) then 0 else 1 + FirstCutNamed(vs[1..], name)
  }

  /** The number of the entry wanted. */
  function Target(vs: seq<Rec>, w: Want): nat
    requires forall j :: 0 <= j < |vs| ==> |vs[j]| == REC
  {
    match w case ByName(name) => FirstCutNamed(vs, name) case ByIndex(n) => n
  }

  lemma TargetStep(r: Rec, vs: seq<Rec>, w: Want)
    requires |r| == REC && forall j :: 0 <= j < |vs| ==> |vs[j]| == REC
    ensures Target([r] + vs, w) == if Meets(r, w) then 0 else 1 + Target(vs, Past(w))
  {
    hide CutNamed;
    assert ([r] + vs)[1..] == vs;
  }

  /** Looking finds the entry of that number, or the first of that name, before the end. */
  lemma {:induction false} LookIs(rs: seq<Rec>, w: Want)
    requires forall r :: r in rs ==> |r| == REC
    ensures var (vs, k) := (BeforeEnd(rs), Target(BeforeEnd(rs), w));
            if k < |vs| then Look(rs, w) == Hit(vs[k]) else !Look(rs, w).Hit?
  {
    hide Shown, Meets, BeforeEnd, Target;
    BeforeEndStep(rs);
    if rs != [] && rs[0][0] != 0 {
      var rest := BeforeEnd(rs[1..]);
      if Shown(rs[0]) {
        LookIs(rs[1..], Past(w));
        TargetStep(rs[0], rest, w);
      } else {
        LookIs(rs[1..], w);
        assert [] + rest == rest;
      }
    }
  }

  // ---------------------------------------------------------------- the search itself

  lemma LookFirst(d: seq<byte>, w: Want)
    requires |d| >= REC
    ensures var (de, rest) := (d[..REC], RecsOf(d[REC..]));
            Look(RecsOf(d), w) ==
            if de[0] == 0 then End
            else if !Shown(de) then Look(rest, w)
            else if Meets(de, w) then Hit(de) else Look(rest, Past(w))
  {
    hide Shown, Meets;
    assert RecsOf(d)[1..] == RecsOf(d[REC..]);
  }

  lemma LookNone(w: Want)
    ensures Look(RecsOf([]), w) == More(w)
  {
  }

  method ToSpaceLoop(r: Rec, from: nat, to: nat, name: seq<byte>) returns (out: seq<byte>)
    requires |r| == REC && from <= to <= REC
    ensures out == name + ToSpace(r[from..to])
  {
    out := name;
    var j := from;
    while j < to && r[j] != SPACE
      invariant from <= j <= to && out + ToSpace(r[j..to]) == name + ToSpace(r[from..to])
    {
      assert r[j..to][1..] == r[j + 1..to];
      out := out + [r[j]];
      j := j + 1;
    }
  }

  /** The conversion of an 8.3 name to a string to compare. */
  method CutEntryName(r: Rec) returns (name: seq<byte>)
    requires |r| == REC
    ensures name == CutName(r)
  {
    name := ToSpaceLoop(r, 0, 8, []);
    assert r[0..8] == r[..8];
    if r[8] != SPACE { name := ToSpaceLoop(r, 8, 11, name + [DOT]); }
  }

  /** Whether a shown record is the one wanted. */
  method IsWanted(r: Rec, w: Want) returns (yes: bool)
    requires |r| == REC && (w.ByName? ==> NoNul(w.name))
    ensures yes == Meets(r, w)
  {
    match w {
      case ByIndex(n) => yes := n == 0;
      case ByName(name) =>
        var entryName := CutEntryName(r);
        var d := StrCaseCmp(UpToNul(entryName), name);
        yes := d == 0;
    }
  }

  /** The sixteen records of a sector. */
  method ScanSector(s: Sector, w: Want) returns (r: Scan)
    requires w.ByName? ==> NoNul(w.name)
    ensures r == Look(RecsOf(s), w)
  {
    hide Shown, Look, Meets, RecsOf;
    var (i, want) := (0, w);
    assert s[0..] == s;
    while i < 16
      invariant 0 <= i <= 16 && Look(RecsOf(s), w) == Look(RecsOf(s[REC * i..]), want)
      invariant want.ByName? ==> NoNul(want.name)
    {
      var de := s[REC * i..REC * (i + 1)];
      ghost var d := s[REC * i..];
      assert d[..REC] == de && d[REC..] == s[REC * (i + 1)..];
      LookFirst(d, want);
      if de[0] == 0 { return End; }
      if Shown(de) {
        var yes := IsWanted(de, want);
        if yes { return Hit(de); }
        want := Past(want);
      }
      i := i + 1;
    }
    assert s[REC * 16..] == [];
    LookNone(want);
    return More(want);
  }

  lemma LookSectors(disk: Disk, lba: nat, n: nat, w: Want)
    requires n > 0
    ensures Look(RecsOf(Sectors(disk, lba, n)), w) ==
            Then(Look(RecsOf(disk(lba)), w), RecsOf(Sectors(disk, lba + 1, n - 1)))
  {
    hide Look;
    RecsConcat(disk(lba), Sectors(disk, lba + 1, n - 1));
    LookConcat(RecsOf(disk(lba)), RecsOf(Sectors(disk, lba + 1, n - 1)), w);
  }

  method ScanCluster(v: Vol, c: nat, w: Want) returns (r: Scan)
    requires v.Ok() && c >= 2 && (w.ByName? ==> NoNul(w.name))
    ensures r == Look(RecsOf(ClusterData(v, c)), w)
  {
    hide Look, RecsOf, Sectors;
    var sectorBuffer := new byte[SECTOR];
    var first := v.FirstSector(c);
    var s := 0;
    r := More(w);
    while s < v.spc
      invariant s <= v.spc && r.More? && (r.want.ByName? ==> NoNul(r.want.name))
      invariant Look(RecsOf(ClusterData(v, c)), w) == Look(RecsOf(Sectors(v.disk, first + s, v.spc - s)), r.want)
    {
      LookSectors(v.disk, first + s, v.spc - s, r.want);
      ReadOne(v.disk, first + s, sectorBuffer);
      r := ScanSector(sectorBuffer[..], r.want);
      if !r.More? { return; }
      s := s + 1;
    }
    LookNone(r.want);
  }

  lemma LookChain(v: Vol, c: nat, k: nat, w: Want)
    requires k > 0 && !Stops(v, c)
    ensures Look(RecsOf(Content(v, c, k)), w) ==
            Then(Look(RecsOf(ClusterData(v, c)), w), RecsOf(Content(v, v.fat[c], k - 1)))
  {
    hide Look, ClusterData;
    RecsConcat(ClusterData(v, c), Content(v, v.fat[c], k - 1));
    LookConcat(RecsOf(ClusterData(v, c)), RecsOf(Content(v, v.fat[c], k - 1)), w);
  }

  /** The masked next cluster leads to the same content. */
  lemma NextContent(v: Vol, cs: set<nat>, c: nat, k: nat)
    requires Sized(v) && ClosedOrFree(v, cs) && AllAgree(v, cs) && c in cs && !IsEof(c)
    ensures var m := MaskedNext(v, c);
            && OnChain(cs, m) && !Stops(v, c)
            && Content(v, m, k) == Content(v, v.fat[c], k) && (Ends(v, v.fat[c], k) ==> Ends(v, m, k))
  {
    assert Agree(v.fat[c]);
  }

  /** Within k clusters the chain ends, or the search does: it finds its entry or the end mark. */
  ghost predicate Settles(v: Vol, c: nat, k: nat, w: Want) { Ends(v, c, k) || !Look(RecsOf(Content(v, c, k)), w).More? }

  lemma SettlesNext(v: Vol, c: nat, k: nat, w: Want)
    requires Settles(v, c, k, w) && !Stops(v, c)
    ensures k > 0
    ensures var s := Look(RecsOf(ClusterData(v, c)), w); s.More? ==> Settles(v, v.fat[c], k - 1, s.want)
  {
    hide ClusterData, Look, RecsOf;
    if k == 0 { LookNone(w); }
    LookChain(v, c, k, w);
  }

  /** The walk over the directory's clusters: the wanted entry, if it comes before the end. */
  method Walk(v: Vol, dirCluster: u32, w: Want, ghost cs: set<nat>, ghost k: nat)
    returns (hit: Option<Rec>)
    requires Sized(v) && ClosedOrFree(v, cs) && AllAgree(v, cs) && OnChain(cs, dirCluster)
    requires Settles(v, dirCluster, k, w) && (w.ByName? ==> NoNul(w.name))
    ensures var vs := EntriesBeforeEnd(Content(v, dirCluster, k));
            hit == if Target(vs, w) < |vs| then Some(vs[Target(vs, w)]) else None
  {
    hide Look, RecsOf, ClusterData, Content, MaskedNext, Ends, BeforeEnd, ClosedOrFree, AllAgree, Target;
    LookIs(RecsOf(Content(v, dirCluster, k)), w);
    var current: nat := dirCluster;
    var r: Scan := More(w);
    ghost var left := k;
    while !IsEof(current) && current != 0
      invariant OnChain(cs, current)
      invariant r.More? && Settles(v, current, left, r.want) && (r.want.ByName? ==> NoNul(r.want.name))
      invariant Look(RecsOf(Content(v, dirCluster, k)), w) == Look(RecsOf(Content(v, current, left)), r.want)
      decreases left
    {
      NextContent(v, cs, current, 0);
      SettlesNext(v, current, left, r.want);
      NextContent(v, cs, current, left - 1);
      LookChain(v, current, left, r.want);
      InSet(v, cs, current);
      r := ScanCluster(v, current, r.want);
      if r.Hit? { return Some(r.r); }
      if r.End? { return None; }
      current := MaskedNext(v, current);
      left := left - 1;
    }
    NoContent(v, current, left);
    LookNone(r.want);
    return None;
  }

  lemma NoContent(v: Vol, c: nat, k: nat)
    requires Stops(v, c)
    ensures Content(v, c, k) == []
  {
  }

  /** fat32_find_entry of fs/fat32_impl.c. */
  method FindEntry(v: Vol, dirCluster: u32, name: Str, ghost cs: set<nat>, ghost k: nat)
    returns (rc: int, entry: Option<DirEnt>)
    requires Sized(v) && ClosedOrFree(v, cs) && AllAgree(v, cs) && OnChain(cs, dirCluster)
    requires Settles(v, dirCluster, k, ByName(name)) && NoNul(name)
    ensures var vs := EntriesBeforeEnd(Content(v, dirCluster, k));
            var i := FirstCutNamed(vs, name);
            if i < |vs| then
              && rc == 0 && entry == Some(DirEntOf(vs[i]).(name := UpToNul(CutName(vs[i]))))
              && SameName(entry.value.name, name)
            else rc == -ENOENT && entry == None
  {
    hide BeforeEnd, Content, Ends, CutName, Name83, Settles, LoadLE;
    var hit := Walk(v, dirCluster, ByName(name), cs, k);
    match hit {
      case None => return -ENOENT, None;
      case Some(r) =>
        var entryName := CutEntryName(r);
        var cluster := LoadLE(r, 20, 2) * 0x1_0000 + LoadLE(r, 26, 2);
        return 0, Some(DirEnt(UpToNul(entryName), Load32(r, 28), cluster, r[11]));
    }
  }

  /** The name a listing gives: the parts as they stand, spaces and all. */
  function RawName(r: Rec): Str
    requires |r| == REC
  {
    (if r[0] == 5 then [0xE5] else UpToNul(r[..8])) + if r[8] != SPACE then [DOT] + UpToNul(r[8..11]) else []
  }

  /** fat32_readdir_index of fs/fat32_impl.c. */
  method ReaddirIndex(v: Vol, dirCluster: u32, index: u32, ghost cs: set<nat>, ghost k: nat)
    returns (rc: int, entry: Option<DirEnt>)
    requires Sized(v) && ClosedOrFree(v, cs) && AllAgree(v, cs) && OnChain(cs, dirCluster)
    requires Settles(v, dirCluster, k, ByIndex(index))
    ensures var vs := EntriesBeforeEnd(Content(v, dirCluster, k));
            if index < |vs| then rc == 0 && entry == Some(DirEntOf(vs[index]).(name := RawName(vs[index])))
            else rc == -ENOENT && entry == None
  {
    hide BeforeEnd, Content, Ends, RawName, Name83, Settles, LoadLE;
    var hit := Walk(v, dirCluster, ByIndex(index), cs, k);
    match hit {
      case None => return -ENOENT, None;
      case Some(r) =>
        var cluster := LoadLE(r, 20, 2) * 0x1_0000 + LoadLE(r, 26, 2);
        return 0, Some(DirEnt(RawName(r), Load32(r, 28), cluster, r[11]));
    }
  }

  // ---------------------------------------------------------------- the two searches compared

  /** Nothing is shown after a record never used. */
  ghost predicate Compact(rs: seq<Rec>)
    requires forall r :: r in rs ==> |r| == REC
  {
    forall i, j :: 0 <= i < j < |rs| && rs[i][0] == 0 ==> !Shown(rs[j])
  }

  lemma {:induction false} VisibleNone(rs: seq<Rec>)
    requires forall r :: r in rs ==> |r| == REC
    ensures Visible(rs) == [] <==> forall i :: 0 <= i < |rs| ==> !Shown(rs[i])
  {
    hide Shown;
    if rs != [] {
      VisibleNone(rs[1..]);
      assert forall i :: 0 < i < |rs| ==> rs[i] == rs[1..][i - 1];
    }
  }

  lemma CompactStep(rs: seq<Rec>)
    requires (forall r :: r in rs ==> |r| == REC) && rs != []
    ensures Compact(rs) <==>
            && Compact(rs[1..])
            && (rs[0][0] == 0 ==> forall i :: 0 <= i < |rs| - 1 ==> !Shown(rs[1..][i]))
  {
    hide Shown;
    assert forall i :: 0 <= i < |rs| - 1 ==> rs[1..][i] == rs[i + 1];
    assert forall i :: 0 < i < |rs| ==> rs[i] == rs[1..][i - 1];
  }

  /** The two list the same entries exactly when nothing is shown after a record never used. */
  lemma {:induction false} ListingsAgreeIff(rs: seq<Rec>)
    requires forall r :: r in rs ==> |r| == REC
    ensures BeforeEnd(rs) == Visible(rs) <==> Compact(rs)
  {
    hide Compact, Shown, BeforeEnd;
    BeforeEndStep(rs);
    if rs == [] {
      CompactNone();
    } else {
      var v := if Shown(rs[0]) then [rs[0]] else [];
      CompactStep(rs);
      ListingsAgreeIff(rs[1..]);
      if rs[0][0] == 0 {
        VisibleNone(rs[1..]);
        FreeNotShown(rs[0]);
        if forall i :: 0 <= i < |rs| - 1 ==> !Shown(rs[1..][i]) { CompactIfNone(rs[1..]); }
      } else {
        assert Visible(rs) == v + Visible(rs[1..]);
        assert (v + BeforeEnd(rs[1..]))[|v|..] == BeforeEnd(rs[1..]) &&
            (v + Visible(rs[1..]))[|v|..] == Visible(rs[1..]);
      }
    }
  }

  lemma CompactNone()
    ensures Compact([])
  {
  }

  lemma CompactIfNone(rs: seq<Rec>)
    requires (forall r :: r in rs ==> |r| == REC) && forall i :: 0 <= i < |rs| ==> !Shown(rs[i])
    ensures Compact(rs)
  {
  }

  lemma FreeNotShown(r: Rec)
    requires |r| == REC && r[0] == 0
    ensures !Shown(r)
  {
  }

  /** No byte but spaces after a space. */
  predicate Tight(s: seq<byte>) { forall i, j :: 0 <= i < j < |s| && s[i] == SPACE ==> s[j] == SPACE }

  lemma {:induction false} SqueezeBlank(s: seq<byte>)
    ensures Squeeze(s) == [] <==> forall i :: 0 <= i < |s| ==> s[i] == SPACE
  {
    if s != [] {
      SqueezeBlank(s[1..]);
      assert forall i :: 0 < i < |s| ==> s[i] == s[1..][i - 1];
    }
  }

  lemma {:induction false} SqueezeIff(s: seq<byte>)
    ensures |Squeeze(s)| >= |ToSpace(s)|
    ensures |Squeeze(s)| == |ToSpace(s)| <==> Tight(s)
    ensures Tight(s) ==> Squeeze(s) == Fold(ToSpace(s))
  {
    hide Tight;
    if s == [] {
      TightNone();
    } else {
      SqueezeIff(s[1..]);
      SqueezeBlank(s[1..]);
      TightStep(s);
      if s[0] != SPACE { assert ToSpace(s)[1..] == ToSpace(s[1..]); }
    }
  }

  lemma TightNone()
    ensures Tight([])
  {
  }

  lemma TightStep(s: seq<byte>)
    requires s != []
    ensures Tight(s) <==> Tight(s[1..]) && (s[0] == SPACE ==> forall i :: 0 <= i < |s| - 1 ==> s[1..][i] == SPACE)
    ensures (forall i :: 0 <= i < |s| - 1 ==> s[1..][i] == SPACE) ==> Tight(s[1..])
  {
    assert forall i :: 0 <= i < |s| - 1 ==> s[1..][i] == s[i + 1];
    assert forall i :: 0 < i < |s| ==> s[i] == s[1..][i - 1];
  }

  lemma {:induction false} FoldConcat(a: seq<byte>, b: seq<byte>)
    ensures Fold(a + b) == Fold(a) + Fold(b)
  {
    if a == [] { assert a + b == b; }
    else { assert (a + b)[1..] == a[1..] + b; FoldConcat(a[1..], b); }
  }

  ghost predicate TightName(r: Rec)
    requires |r| == REC
  {
    Tight(r[..8]) && (r[8] != SPACE ==> Tight(r[8..11]))
  }

  /** The two names are the same but for case exactly when neither part has a space inside. */
  lemma NamesAgreeIff(r: Rec)
    requires |r| == REC
    ensures Name83(r) == Fold(CutName(r)) <==> TightName(r)
  {
    hide Squeeze, ToSpace, Fold, Tight;
    var (n, e) := (r[..8], r[8..11]);
    SqueezeIff(n);
    SqueezeIff(e);
    FoldAt(CutName(r));
    FoldAt(ToSpace(n));
    if r[8] != SPACE {
      FoldConcat(ToSpace(n), [DOT] + ToSpace(e));
      FoldConcat([DOT], ToSpace(e));
      FoldDot();
    } else {
      assert Squeeze(n) + [] == Squeeze(n) && ToSpace(n) + [] == ToSpace(n);
    }
  }

  lemma FoldDot()
    ensures Fold([DOT]) == [DOT]
  {
  }

  lemma {:induction false} FoldTwice(s: seq<byte>)
    ensures Fold(Fold(s)) == Fold(s) && UpToNul(Fold(s)) == Fold(UpToNul(s))
  {
    if s != [] {
      FoldTwice(s[1..]);
      assert Fold(s)[1..] == Fold(s[1..]);
    }
  }

  /** For such names the two comparisons agree. */
  lemma NamedAgree(r: Rec, name: Str)
    requires |r| == REC && TightName(r)
    ensures Named(r, name) <==> CutNamed(r, name)
  {
    hide TightName, Name83, CutName, SameName;
    NamesAgreeIff(r);
    FoldTwice(CutName(r));
    FoldTwice(UpToNul(CutName(r)));
    FoldIff(DirEntOf(r).name, name);
    FoldIff(UpToNul(CutName(r)), name);
  }

  lemma {:induction false} FirstsAgree(vs: seq<Rec>, name: Str, i: nat)
    requires (forall j :: 0 <= j < |vs| ==> |vs[j]| == REC && TightName(vs[j])) && i <= |vs|
    ensures FirstNamed(vs, name, i) == i + FirstCutNamed(vs[i..], name)
    decreases |vs| - i
  {
    hide Named, CutNamed, TightName;
    if i < |vs| {
      NamedAgree(vs[i], name);
      FirstsAgree(vs, name, i + 1);
      assert vs[i..][1..] == vs[i + 1..];
    }
  }

  /** In a directory with nothing shown after a record never used and no spaces inside names, the
      two searches find the same entry. */
  lemma SearchesAgree(d: seq<byte>, name: Str)
    requires Compact(RecsOf(d)) && forall j :: 0 <= j < |Entries(d)| ==> TightName(Entries(d)[j])
    ensures EntriesBeforeEnd(d) == Entries(d)
    ensures FirstCutNamed(EntriesBeforeEnd(d), name) == FirstNamed(Entries(d), name, 0)
  {
    ListingsAgreeIff(RecsOf(d));
    FirstsAgree(Entries(d), name, 0);
    assert Entries(d)[0..] == Entries(d);
  }

  lemma {:induction false} BeforeEndPrefix(rs: seq<Rec>)
    requires forall r :: r in rs ==> |r| == REC
    ensures BeforeEnd(rs) <= Visible(rs)
  {
    hide Shown, BeforeEnd;
    BeforeEndStep(rs);
    if rs != [] && rs[0][0] != 0 {
      BeforeEndPrefix(rs[1..]);
      assert Visible(rs) == (if Shown(rs[0]) then [rs[0]] else []) + Visible(rs[1..]);
    }
  }

  /** Entry j has the name for one of the searches, the second of which sees only m entries. */
  ghost predicate Either(vs: seq<Rec>, m: nat, name: Str, j: nat)
    requires j < |vs| && forall i :: 0 <= i < |vs| ==> |vs[i]| == REC
  {
    Named(vs[j], name) || (j < m && CutNamed(vs[j], name))
  }

  /** It has it for both or for neither. */
  ghost predicate Alike(vs: seq<Rec>, m: nat, name: Str, j: nat)
    requires j < |vs| && forall i :: 0 <= i < |vs| ==> |vs[i]| == REC
  {
    Named(vs[j], name) <==> j < m && CutNamed(vs[j], name)
  }

  /** The first entry that either search would take is one that both would. */
  ghost predicate FirstAlike(vs: seq<Rec>, m: nat, name: Str)
    requires forall i :: 0 <= i < |vs| ==> |vs[i]| == REC
  {
    forall j :: 0 <= j < |vs| && (forall i :: 0 <= i < j ==> !Either(vs, m, name, i)) ==> Alike(vs, m, name, j)
  }

  function Found(k: nat, n: nat): Option<nat> { if k < n then Some(k) else None }

  /** The two searches give the same entry, or none, exactly when the first entry that either would
      take has the name for both and comes before the end mark. */
  lemma SearchesAgreeIff(d: seq<byte>, name: Str)
    ensures var (vs, ws) := (Entries(d), EntriesBeforeEnd(d));
            Found(FirstNamed(vs, name, 0), |vs|) == Found(FirstCutNamed(ws, name), |ws|) <==>
            FirstAlike(vs, |ws|, name)
  {
    hide Named, CutNamed, BeforeEnd, RecsOf, Visible;
    var (vs, ws) := (Entries(d), EntriesBeforeEnd(d));
    BeforeEndPrefix(RecsOf(d));
    var (k1, k2) := (FirstNamed(vs, name, 0), FirstCutNamed(ws, name));
    assert forall j :: 0 <= j < |ws| ==> ws[j] == vs[j];
    var k := if k1 < k2 || k2 == |ws| then k1 else k2;
    assert forall i :: 0 <= i < k && i < |vs| ==> !Either(vs, |ws|, name, i);
    if k < |vs| {
      assert Either(vs, |ws|, name, k);
      assert Alike(vs, |ws|, name, k) <==> k1 == k2 && k2 < |ws|;
    }
  }

  /** A file stored as "A B     TXT" is ab.txt to one search and a.txt to the other. */
  lemma SpacedExample(r: Rec)
    requires |r| == REC && r[..11] == [65, 32, 66, 32, 32, 32, 32, 32, 84, 88, 84]
    ensures Name83(r) != Fold(CutName(r)) && CutName(r) == [65, 46, 84, 88, 84]
  {
    hide Name83, CutName;
    assert r[..8][1] == r[..11][1] == SPACE && r[..8][2] == r[..11][2] != SPACE;
    NamesAgreeIff(r);
    SpacedCut(r);
  }

  lemma SpacedCut(r: Rec)
    requires |r| == REC && r[..11] == [65, 32, 66, 32, 32, 32, 32, 32, 84, 88, 84]
    ensures CutName(r) == [65, 46, 84, 88, 84]
  {
    hide ToSpace;
    var (n, e) := (r[..11][..8], r[..11][8..]);
    assert n == r[..8] && e == r[8..11] && r[8] == r[..11][8];
    ToSpaceIs(n, 1);
    ToSpaceIs(e, 3);
    assert n[..1] == [65] && e[..3] == [84, 88, 84];
    assert [65] + ([DOT] + [84, 88, 84]) == [65, 46, 84, 88, 84];
  }

  lemma {:induction false} ToSpaceIs(s: seq<byte>, k: nat)
    requires k <= |s| && (forall i :: 0 <= i < k ==> s[i] != 32) && (k < |s| ==> s[k] == 32)
    ensures ToSpace(s) == s[..k]
  {
    if k > 0 {
      ToSpaceIs(s[1..], k - 1);
      assert s[..k] == [s[0]] + s[1..][..k - 1];
    }
  }

  /** A visible entry after a record never used: one listing shows it, the other does not. */
  lemma GapExample(a: Rec, b: Rec)
    requires |a| == |b| == REC && a[0] == 0 && Shown(b)
    ensures Visible([a, b]) == [b] && BeforeEnd([a, b]) == []
  {
    hide Shown;
    FreeNotShown(a);
    assert [a, b][1..] == [b] && [b][1..] == [];
    assert Visible([b]) == [b] + Visible([]);
    assert UntilEnd([a, b]) == [];
  }

  // ---------------------------------------------------------------- searching for a listed name

  lemma {:induction false} UpToNulConcat(a: seq<byte>, b: seq<byte>)
    ensures UpToNul(a + b) == if 0 in a then UpToNul(a) else a + UpToNul(b)
  {
    hide UpToNul;
    if a == [] {
      assert a + b == b;
    } else {
      UpToNulStep(a);
      UpToNulStep(a + b);
      assert (a + b)[1..] == a[1..] + b && (a + b)[0] == a[0];
      UpToNulConcat(a[1..], b);
      assert 0 in a <==> a[0] == 0 || 0 in a[1..];
      assert [a[0]] + (a[1..] + UpToNul(b)) == a + UpToNul(b);
    }
  }

  lemma UpToNulStep(s: seq<byte>)
    requires s != []
    ensures UpToNul(s) == if s[0] == 0 then [] else [s[0]] + UpToNul(s[1..])
  {
  }

  /** Cutting at the first space before the NUL shortens a string exactly when there is one. */
  lemma {:induction false} CutAtSpace(s: seq<byte>)
    ensures |UpToNul(ToSpace(s))| <= |UpToNul(s)|
    ensures SPACE in UpToNul(s) <==> |UpToNul(ToSpace(s))| < |UpToNul(s)|
    ensures SPACE !in UpToNul(s) ==> UpToNul(ToSpace(s)) == UpToNul(s)
    ensures SPACE !in UpToNul(s) && 0 in s ==> 0 in ToSpace(s)
    ensures 0 in ToSpace(s) ==> 0 in s && SPACE !in UpToNul(s)
    ensures 0 !in ToSpace(s) ==> UpToNul(ToSpace(s)) == ToSpace(s)
  {
    if s != [] {
      CutAtSpace(s[1..]);
      if s[0] != SPACE { assert ToSpace(s)[1..] == ToSpace(s[1..]); }
      if s[0] != 0 { assert UpToNul(s)[1..] == UpToNul(s[1..]); }
    }
  }

  /** Nothing is cut off the entry's name that the listing shows, and nothing put in its place. */
  predicate Findable(r: Rec)
    requires |r| == REC
  {
    && r[0] != 5 && SPACE !in UpToNul(r[..8])
    && (r[8] != SPACE ==> 0 !in r[..8] && SPACE !in UpToNul(r[8..11]))
  }

  /** An entry matches the name it is listed under exactly when that name is not padded. */
  lemma ListedNameIff(r: Rec)
    requires |r| == REC && r[0] != 0
    ensures CutNamed(r, RawName(r)) <==> Findable(r)
  {
    hide UpToNul, ToSpace, Fold;
    var (a, e) := (r[..8], r[8..11]);
    CutAtSpace(a);
    CutAtSpace(e);
    FoldAt(UpToNul(CutName(r)));
    FoldAt(RawName(r));
    if r[8] != SPACE {
      UpToNulConcat(ToSpace(a), [DOT] + ToSpace(e));
      UpToNulConcat([DOT], ToSpace(e));
    } else {
      assert ToSpace(a) + [] == ToSpace(a) && UpToNul(a) + [] == UpToNul(a);
    }
    if r[0] == 5 { FirstLetter(r); }
  }

  lemma FirstLetter(r: Rec)
    requires |r| == REC && r[0] == 5
    ensures UpToNul(CutName(r)) != [] && UpToNul(CutName(r))[0] == 5 && RawName(r) != [] && RawName(r)[0] == 0xE5
  {
    assert ToSpace(r[..8])[0] == 5;
  }

  /** Searching for the name entry i is listed under finds entry i exactly when that name is not
      padded and no entry before it has it too. */
  lemma ListedIsFound(vs: seq<Rec>, i: nat)
    requires i < |vs| && forall j :: 0 <= j < |vs| ==> |vs[j]| == REC && Shown(vs[j])
    ensures FirstCutNamed(vs, RawName(vs[i])) == i <==>
            Findable(vs[i]) && forall j :: 0 <= j < i ==> !CutNamed(vs[j], RawName(vs[i]))
  {
    hide CutNamed, RawName, Findable;
    assert vs[i][0] != 0;
    ListedNameIff(vs[i]);
  }

  /** The file A.TXT is listed as "A       .TXT", and not found by that name. */
  lemma PaddedExample(r: Rec)
    requires |r| == REC && r[..11] == [65, 32, 32, 32, 32, 32, 32, 32, 84, 88, 84]
    ensures !CutNamed(r, RawName(r))
  {
    hide UpToNul, CutNamed, RawName;
    assert r[0] == r[..11][0] == 65 && r[..8][0] == 65 && r[1] == r[..11][1] == SPACE && r[..8][1] == SPACE;
    SpaceSecond(r[..8]);
    ListedNameIff(r);
  }

  lemma SpaceSecond(s: seq<byte>)
    requires |s| >= 2 && s[0] != 0 && s[1] == SPACE
    ensures SPACE in UpToNul(s)
  {
    assert UpToNul(s[1..])[0] == SPACE;
    assert UpToNul(s)[1] == SPACE;
  }
}
