/**
  ensure_dir against vfs_lookup on path strings, and the invariants of every mounted tree that
  their agreement rests on.
 */
module DirLookup {
  import opened CTypes
  import opened Options
  import opened Tokens
  import opened FsTree
  import opened Archive

  const NAME_LEN: nat := VFS_NAME_MAX - 1

  // ---------------------------------------------------------------- names that fit

  /** Every component fits a node's name. */
  ghost predicate Fits(p: Path) { forall i :: 0 <= i < |p| ==> |p[i]| <= NAME_LEN }

  ghost predicate ShortNames(fs: Fs) { forall i :: 0 <= i < |fs| ==> |fs[i].name| <= NAME_LEN }

  lemma {:induction false} ClipFits(p: Path)
    ensures Fits(ClipAll(p, NAME_LEN))
    ensures Fits(p) ==> ClipAll(p, NAME_LEN) == p
  {
    if p != [] {
      ClipFits(p[1..]);
      assert Fits(p) ==> Fits(p[1..]);
    }
  }

  lemma {:induction false} EnsureShort(fs: Fs, cur: nat, comps: Path)
    requires cur < |fs| && ShortNames(fs) && Fits(comps)
    ensures ShortNames(EnsureDir(fs, cur, comps).0)
    decreases |comps|
  {
    if comps != [] {
      var c := ChildDir(fs, cur, comps[0], |fs|);
      assert Fits(comps[1..]);
      if c != 0 { EnsureShort(fs, c, comps[1..]); }
      else { EnsureShort(fs + [NewDir(comps[0], cur)], |fs|, comps[1..]); }
    }
  }

  /** A component that fits no name is found nowhere. */
  lemma {:induction false} WalkFits(fs: Fs, cur: nat, p: Path)
    requires Tree(fs) && cur < |fs| && ShortNames(fs)
    ensures Walk(fs, cur, p).Some? ==> Fits(p)
    decreases |p|
  {
    if p != [] {
      assert Hangs(fs, cur);
      var next := StepInto(fs, cur, p[0]);
      if next.Some? {
        WalkFits(fs, next.value, p[1..]);
        assert |p[0]| <= NAME_LEN;
        assert Fits(p[1..]) ==> Fits(p) by {
          if Fits(p[1..]) {
            forall i | 0 <= i < |p| ensures |p[i]| <= NAME_LEN { assert i > 0 ==> p[i] == p[1..][i - 1]; }
          }
        }
      }
    }
  }

  // ---------------------------------------------------------------- path strings

  /** The components ensure_dir finds, before it cuts them to the length of a name. */
  function RawComps(path: Str): Path { Split(StripDot(Clip(path, VFS_PATH_MAX - 1)), SEPARATORS) }

  /** A leading "./" is a component "." to the tokeniser, and the walk stays for it. */
  lemma SplitDot(w: Str)
    requires |w| >= 2 && w[0] == DOT && w[1] == SLASH
    ensures Split(w, SEPARATORS) == [SELF] + Split(w[2..], SEPARATORS)
  {
    RunEndIs(w, SEPARATORS, true, 0, |w|, 0);
    RunEndIs(w, SEPARATORS, false, 0, |w|, 1);
    assert w[0..1] == SELF;
    SplitUnfold(w, SEPARATORS, 0, |w|, 0, 1);
    SplitSkip(w, SEPARATORS, 1, |w|);
    SplitShift(w, SEPARATORS, 2, 2);
  }

  lemma SplitSkip(w: Str, d: Str, p: nat, z: nat)
    requires p < z <= |w| && w[p] in d
    ensures SplitFrom(w, d, p, z) == SplitFrom(w, d, p + 1, z)
  {
  }

  /** The tokens from p on are those of the rest of the string. */
  lemma {:induction false} SplitShift(w: Str, d: Str, n: nat, p: nat)
    requires n <= p <= |w|
    ensures SplitFrom(w, d, p, |w|) == SplitFrom(w[n..], d, p - n, |w| - n)
    decreases |w| - p
  {
    hide SplitFrom, NextToken;
    var (a, b) := NextToken(w, d, p, |w|);
    NextTokenShift(w, d, n, p);
    SplitUnfold(w, d, p, |w|, a, b);
    SplitUnfold(w[n..], d, p - n, |w| - n, a - n, b - n);
    if a < |w| {
      assert w[n..][a - n..b - n] == w[a..b];
      SplitShift(w, d, n, b);
    }
  }

  lemma NextTokenShift(w: Str, d: Str, n: nat, p: nat)
    requires n <= p <= |w|
    ensures var (a, b) := NextToken(w, d, p, |w|);
            && p <= a <= b <= |w| && (a < |w| ==> p < b)
            && NextToken(w[n..], d, p - n, |w| - n) == (a - n, b - n)
  {
    RunEndShift(w, d, true, n, p);
    var a := NextToken(w, d, p, |w|).0;
    RunEndShift(w, d, false, n, a);
  }

  lemma {:induction false} RunEndShift(w: Str, d: Str, inside: bool, n: nat, p: nat)
    requires n <= p <= |w|
    ensures RunEnd(w[n..], d, inside, p - n, |w| - n) == RunEnd(w, d, inside, p, |w|) - n
    decreases |w| - p
  {
    if p < |w| && (w[p] in d) == inside { RunEndShift(w, d, inside, n, p + 1); }
  }

  lemma LookupAsRaw(fs: Fs, path: Str)
    requires Tree(fs)
    ensures Lookup(fs, path) == Walk(fs, 0, RawComps(path))
  {
    var t := Clip(path, VFS_PATH_MAX - 1);
    if StripDot(t) != t {
      SplitDot(t);
      assert ([SELF] + RawComps(path))[1..] == RawComps(path);
    }
  }

  // ---------------------------------------------------------------- the components of a path string

  /** A '/' at k cuts the components in two. */
  lemma {:induction false} SplitCut(w: Str, p: nat, k: nat)
    requires p <= k < |w| && w[k] == 47
    ensures SplitFrom(w, SEPARATORS, p, |w|) == SplitFrom(w, SEPARATORS, p, k) + SplitFrom(w, SEPARATORS, k, |w|)
    decreases k - p
  {
    hide RunEnd, SplitFrom;
    var (a, b) := NextToken(w, SEPARATORS, p, |w|);
    SplitUnfold(w, SEPARATORS, p, |w|, a, b);
    if a > k {
      RunEndIs(w, SEPARATORS, true, p, k, k);
      RunEndIs(w, SEPARATORS, true, k, |w|, a);
      RunEndIs(w, SEPARATORS, false, k, k, k);
      SplitUnfold(w, SEPARATORS, p, k, k, k);
      SplitUnfold(w, SEPARATORS, k, |w|, a, b);
    } else {
      assert w[a] !in SEPARATORS;
      RunEndIs(w, SEPARATORS, true, p, k, a);
      assert b <= k;
      RunEndIs(w, SEPARATORS, false, a, k, b);
      SplitUnfold(w, SEPARATORS, p, k, a, b);
      SplitCut(w, b, k);
    }
  }

  /** The components of two strings joined by '/' are those of the one and then those of the other. */
  lemma CompsJoin(a: Str, b: Str)
    requires |a| + 1 + |b| <= 4095
    ensures LookupComps(a + [47] + b) == LookupComps(a) + LookupComps(b)
  {
    hide SplitFrom;
    var w := a + [47] + b;
    SplitCut(w, 0, |a|);
    assert w[..|a|] == a && w[|a| + 1..] == b;
    SpansLocal(w, a, SEPARATORS, 0, |a|);
    SplitSkip(w, SEPARATORS, |a|, |w|);
    SplitShift(w, SEPARATORS, |a| + 1, |a| + 1);
  }

  /** A string without '/' is one component, or none if it is empty; and of a longer path only the
      first 4095 characters count. */
  lemma CompsOne(c: Str)
    ensures |c| <= 4095 && 47 !in c ==> LookupComps(c) == if c == [] then [] else [c]
    ensures |c| > 4095 ==> LookupComps(c) == LookupComps(c[..4095])
  {
    if |c| <= 4095 && 47 !in c {
      EmptyPath();
      if c != [] { SplitOne(c); }
    }
  }

  lemma {:induction false} ClipEach(p: Path, n: nat)
    ensures |ClipAll(p, n)| == |p|
    ensures forall i :: 0 <= i < |p| ==> ClipAll(p, n)[i] == if |p[i]| <= n then p[i] else p[i][..n]
  {
    if p != [] { ClipEach(p[1..], n); }
  }

  /** ensure_dir's components are lookup's, but for a "." in front, each cut to 255 characters. */
  lemma DirCompsAre(path: Str)
    ensures var (raw, comps) := (LookupComps(path), DirComps(path));
            var k := if |path| >= 2 && path[0] == 46 && path[1] == 47 then 1 else 0;
            && |raw| == k + |comps| && (k == 1 ==> raw[0] == [46])
            && forall i :: 0 <= i < |comps| ==>
                 comps[i] == if |raw[k + i]| <= 255 then raw[k + i] else raw[k + i][..255]
  {
    hide Split;
    var t := Clip(path, VFS_PATH_MAX - 1);
    if StripDot(t) != t { SplitDot(t); }
    ClipEach(RawComps(path), 255);
  }

  /** On path strings: looking a path up after ensure_dir has made it reaches the directory ensure_dir
      returned exactly when no component is "." or ".." (but for one "./" in front), none is longer
      than a name, and none is shadowed by a newer file. */
  lemma EnsureThenLookupPath(fs: Fs, path: Str)
    requires Tree(fs) && UniqueDirs(fs) && ShortNames(fs)
    ensures var (fs', d) := EnsureDir(fs, 0, DirComps(path));
            && Tree(fs')
            && (Lookup(fs', path) == Some(d) <==>
                Plain(RawComps(path)) && Fits(RawComps(path)) && Unshadowed(fs, 0, DirComps(path)))
  {
    hide Split, Walk, Unshadowed, Lookup;
    var fs' := EnsureDir(fs, 0, DirComps(path)).0;
    EnsureDirMakes(fs, 0, DirComps(path));
    LookupAsRaw(fs', path);
    ClipFits(RawComps(path));
    if Fits(RawComps(path)) {
      EnsureThenLookup(fs, 0, DirComps(path));
    } else {
      EnsureShort(fs, 0, DirComps(path));
      WalkFits(fs', 0, RawComps(path));
    }
  }

  /** A path with "." in the middle: ensure_dir makes a directory of that name. */
  lemma DotExample()
    ensures var comps := [[97], SELF, [98]];
            var (fs', d) := EnsureDir([ROOT], 0, comps);
            Tree(fs') && Unshadowed([ROOT], 0, comps) && Walk(fs', 0, comps) != Some(d)
  {
    var comps: Path := [[97], SELF, [98]];
    assert Hangs([ROOT], 0);
    RootUnique();
    EnsureThenLookup([ROOT], 0, comps);
    assert comps[1] == SELF && !Plain(comps);
    ChildNone([ROOT], 0, [97], 1);
  }

  // ---------------------------------------------------------------- every mounted tree

  ghost predicate Lawful(fs: Fs) { Tree(fs) && UniqueDirs(fs) && ShortNames(fs) }

  lemma RootUnique()
    ensures Lawful([ROOT])
  {
    assert Hangs([ROOT], 0);
    assert OnlyDir([ROOT], 0);
  }

  lemma EnsureLawful(fs: Fs, path: Str)
    requires Lawful(fs)
    ensures Lawful(EnsureDir(fs, 0, DirComps(path)).0)
  {
    EnsureDirMakes(fs, 0, DirComps(path));
    EnsureDirUnique(fs, 0, DirComps(path));
    ClipFits(RawComps(path));
    EnsureShort(fs, 0, DirComps(path));
  }

  lemma PermLawful(fs: Fs, d: nat, perm: nat)
    requires Lawful(fs) && d < |fs|
    ensures Lawful(fs[d := fs[d].(perm := perm)])
  {
    var g := fs[d := fs[d].(perm := perm)];
    forall i | 0 <= i < |g| ensures Hangs(g, i) && OnlyDir(g, i) {
      assert Hangs(fs, i) && OnlyDir(fs, i);
      ChildDirSame(fs, g, g[i].parent, g[i].name, |fs|);
    }
  }

  lemma HeaderLawful(fs: Fs, img: seq<byte>, off: nat)
    requires off + BLOCK <= |img| && Lawful(fs)
    ensures Lawful(AddHeader(fs, img, off))
  {
    hide Lawful, DirComps, ModeField, SizeField;
    LawfulRoot(fs);
    var name := CStr(img, off);
    if IsRegular(img[off + TYPE_AT]) {
      var pth := StripDot(name);
      EnsureLawful(fs, DirPart(pth));
      var (g, d) := EnsureDir(fs, 0, DirComps(DirPart(pth)));
      EnsuredDir(fs, DirPart(pth));
      FileLawful(g, FileRec(BasePart(pth), d, ModeField(img, off), SizeField(img, off), off + BLOCK));
    } else if img[off + TYPE_AT] == DIRECTORY {
      EnsureLawful(fs, name);
      var (g, d) := EnsureDir(fs, 0, DirComps(name));
      PermLawful(g, d, ModeField(img, off));
    }
  }

  lemma EnsuredDir(fs: Fs, path: Str)
    requires Lawful(fs)
    ensures var (g, d) := EnsureDir(fs, 0, DirComps(path)); d < |g| && g[d].isDir
  {
    EnsureDirMakes(fs, 0, DirComps(path));
  }

  lemma FileLawful(g: Fs, r: Rec)
    requires Lawful(g) && r.parent < |g| && g[r.parent].isDir && !r.isDir && |r.name| <= NAME_LEN
    ensures Lawful(g + [r])
  {
    ExtendTree(g, r);
    AddUniqueDir(g, r);
  }

  lemma {:induction false} MountFromLawful(fs: Fs, img: seq<byte>, off: u32)
    requires Marches(img, off) && Lawful(fs)
    ensures Lawful(MountFrom(fs, img, off))
    decreases TWO_32 - off
  {
    hide AddHeader, NextHeader, Lawful;
    LawfulRoot(fs);
    if More(img, off) {
      MarchStep(fs, img, off);
      HeaderLawful(fs, img, off);
      MountFromLawful(AddHeader(fs, img, off), img, NextHeader(img, off));
    } else {
      MarchEnd(fs, img, off);
    }
  }

  lemma LawfulRoot(fs: Fs)
    requires Lawful(fs)
    ensures |fs| > 0
  {
  }

  /** Every mounted image gives a tree whose directories have one child directory of a name at most,
      and whose names fit. */
  lemma MountLawful(img: seq<byte>)
    requires Marches(img, 0)
    ensures Lawful(Mount(img))
  {
    RootUnique();
    MountFromLawful([ROOT], img, 0);
  }
}
