/**
  A FAT32 volume as the readers see it: clusters, their chains in the FAT, and the bytes of a
  chain (fs/fat32.c, fs/fat32_impl.c). Microsoft FAT32 File System Specification 1.03.
 */
module FatModel {
  import opened CTypes

  const SECTOR: nat := 512
  const EOF_MARK: nat := 0x0FFF_FFF8
  const NIBBLE: nat := 0x1000_0000

  type Sector = s: seq<byte> | |s| == 512 witness seq(512, _ => 0)

  /** The disk gives every block address 512 bytes. */
  type Disk = nat -> Sector

  /** The volume: its disk, the FAT in memory, sectors per cluster, where cluster 2 begins and
      how many clusters there are. */
  datatype Vol = Vol(disk: Disk, fat: seq<u32>, spc: nat, begin: nat, total: nat) {
    function Bpc(): nat { SECTOR * spc }

    predicate Ok() { 0 < spc < 256 }

    /** get_first_sector_of_cluster, for a cluster that exists. */
    function FirstSector(c: nat): nat
      requires c >= 2
    {
      begin + (c - 2) * spc
    }
  }

  predicate IsEof(c: nat) { c >= EOF_MARK }

  /** n sectors from lba on, end to end. */
  function Sectors(disk: Disk, lba: nat, n: nat): (r: seq<byte>)
    ensures |r| == SECTOR * n
    decreases n
  {
    if n == 0 then [] else disk(lba) + Sectors(disk, lba + 1, n - 1)
  }

  /** The bytes of one cluster. */
  function ClusterData(v: Vol, c: nat): (r: seq<byte>)
    requires c >= 2
    ensures |r| == v.Bpc()
  {
    Sectors(v.disk, v.FirstSector(c), v.spc)
  }

  /** cs is a set of clusters of the volume, and following the FAT from one of them stays in
      it until an end-of-chain mark. The set may well contain cycles. */
  ghost predicate Closed(v: Vol, cs: set<nat>) {
    forall c :: c in cs ==> 2 <= c < v.total + 2 && c < |v.fat| && (IsEof(v.fat[c]) || v.fat[c] in cs)
  }

  /** The same, but a chain may also run into a free entry, 0, where the code that tests for it stops. */
  ghost predicate ClosedOrFree(v: Vol, cs: set<nat>) {
    forall c :: c in cs ==>
      && 2 <= c < v.total + 2 && c < |v.fat|
      && (IsEof(v.fat[c]) || v.fat[c] == 0 || v.fat[c] in cs)
  }

  /** A cluster of the set, or where a chain ends. */
  ghost predicate OnChain(cs: set<nat>, c: nat) { c in cs || IsEof(c) || c == 0 }

  /** Where a walk along the chain stops. */
  predicate Stops(v: Vol, c: nat) { IsEof(c) || c < 2 || c >= |v.fat| }

  /** The first k clusters of the chain from c, fewer if it ends. */
  function Chain(v: Vol, c: nat, k: nat): seq<nat>
    decreases k
  {
    if k == 0 || Stops(v, c) then [] else [c] + Chain(v, v.fat[c], k - 1)
  }

  /** Their bytes, end to end. */
  function Content(v: Vol, c: nat, k: nat): seq<byte>
    decreases k
  {
    if k == 0 || Stops(v, c) then [] else ClusterData(v, c) + Content(v, v.fat[c], k - 1)
  }

  /** The chain from c has ended within k clusters. */
  predicate Ends(v: Vol, c: nat, k: nat) { |Chain(v, c, k)| < k }

  /** The bytes off..off + n of the chain from c, one cluster at a time. */
  function ReadChain(v: Vol, c: nat, off: nat, n: nat): (r: seq<byte>)
    requires v.Ok()
    ensures |r| <= n
    decreases off + n
  {
    if n == 0 || Stops(v, c) then []
    else if off >= v.Bpc() then ReadChain(v, v.fat[c], off - v.Bpc(), n)
    else
      var part := Slice(ClusterData(v, c), off, n);
      part + ReadChain(v, v.fat[c], 0, n - |part|)
  }

  /** A chain starts at its first cluster and goes where the FAT says, until an end mark, a number
      below 2 or one beyond the FAT; and no sooner than after k clusters. */
  lemma {:induction false} ChainIs(v: Vol, c: nat, k: nat)
    ensures var cs := Chain(v, c, k);
            && |cs| <= k && (cs != [] ==> cs[0] == c)
            && (forall i :: 0 <= i < |cs| ==> 2 <= cs[i] < |v.fat| && cs[i] < 0x0FFF_FFF8)
            && (forall i :: 0 < i < |cs| ==> cs[i] == v.fat[cs[i - 1]])
            && (|cs| < k ==>
                  var next := if cs == [] then c else v.fat[cs[|cs| - 1]];
                  next < 2 || next >= 0x0FFF_FFF8 || next >= |v.fat|)
    decreases k
  {
    if k > 0 && !Stops(v, c) {
      ChainIs(v, v.fat[c], k - 1);
      var rest := Chain(v, v.fat[c], k - 1);
      assert forall i :: 0 < i < |rest| + 1 ==> ([c] + rest)[i] == rest[i - 1];
    }
  }

  // ---------------------------------------------------------------- what ReadChain means

  lemma SliceLeft(a: seq<byte>, b: seq<byte>, off: nat, n: nat)
    requires off < |a|
    ensures Slice(a + b, off, n) == Slice(a, off, n) + Slice(b, 0, n - |Slice(a, off, n)|)
  {
    if off + n <= |a| {
      assert Slice(a + b, off, n) == (a + b)[off..off + n] == a[off..off + n];
      EmptySlice(b, 0, 0);
    } else {
      SliceOver(a, b, off, n);
    }
  }

  lemma SliceOver(a: seq<byte>, b: seq<byte>, off: nat, n: nat)
    requires off < |a| < off + n
    ensures Slice(a + b, off, n) == a[off..] + Slice(b, 0, off + n - |a|)
  {
    var to := Min(off + n, |a + b|);
    assert (a + b)[off..to] == a[off..] + b[..to - |a|];
    assert Slice(b, 0, off + n - |a|) == b[..to - |a|];
  }

  lemma SliceRight(a: seq<byte>, b: seq<byte>, off: nat, n: nat)
    requires off >= |a|
    ensures Slice(a + b, off, n) == Slice(b, off - |a|, n)
  {
    if off < |a + b| {
      assert (a + b)[off..Min(off + n, |a + b|)] == b[off - |a|..Min(off + n, |a + b|) - |a|];
    }
  }

  /** Reading along the chain gives that slice of the chain's bytes, end to end, however many
      clusters beyond those needed are taken together. */
  lemma {:induction false} ReadChainIsSlice(v: Vol, c: nat, off: nat, n: nat, k: nat)
    requires v.Ok() && k >= off + n
    ensures ReadChain(v, c, off, n) == Slice(Content(v, c, k), off, n)
    decreases off + n
  {
    hide ClusterData, Slice;
    if n == 0 || Stops(v, c) {
      EmptySlice(Content(v, c, k), off, n);
    } else {
      var (d, rest) := (ClusterData(v, c), Content(v, v.fat[c], k - 1));
      if off >= v.Bpc() {
        SliceRight(d, rest, off, n);
        ReadChainIsSlice(v, v.fat[c], off - v.Bpc(), n, k - 1);
      } else {
        SliceLeft(d, rest, off, n);
        PartNonempty(d, off, n);
        ReadChainIsSlice(v, v.fat[c], 0, n - |Slice(d, off, n)|, k - 1);
      }
    }
  }

  lemma EmptySlice(d: seq<byte>, off: nat, n: nat)
    requires n == 0 || d == []
    ensures Slice(d, off, n) == []
  {
  }

  lemma PartNonempty(d: seq<byte>, off: nat, n: nat)
    requires off < |d| && n > 0
    ensures 0 < |Slice(d, off, n)| <= n
  {
  }

  /** Once the chain has ended, taking more clusters takes no more bytes. */
  lemma {:induction false} ContentEnds(v: Vol, c: nat, k: nat, j: nat)
    requires Ends(v, c, k) && k <= j
    ensures Content(v, c, j) == Content(v, c, k)
    decreases k
  {
    if !Stops(v, c) { ContentEnds(v, v.fat[c], k - 1, j - 1); }
  }

  /** For a chain that ends: exactly the bytes off..off + n of the file its clusters make up. */
  lemma ReadChainOfFile(v: Vol, c: nat, off: nat, n: nat, k: nat)
    requires v.Ok() && Ends(v, c, k)
    ensures ReadChain(v, c, off, n) == Slice(Content(v, c, k), off, n)
  {
    ReadChainIsSlice(v, c, off, n, off + n + k);
    ContentEnds(v, c, k, off + n + k);
  }

  // ---------------------------------------------------------------- the two ways to step

  /** fs/fat32_impl.c masks the entry and checks the cluster's range. */
  function MaskedNext(v: Vol, c: nat): u32
    requires v.total + 2 <= |v.fat|
  {
    if c < 2 || c >= v.total + 2 then 0xFFFF_FFFF else v.fat[c] % NIBBLE
  }

  /** The plain and the masked reading of a FAT entry take a walk to the same place. */
  predicate Agree(e: u32) {
    (IsEof(e) && IsEof(e % NIBBLE)) || (!IsEof(e) && e == e % NIBBLE)
  }

  /** They do exactly when the entry's top four bits are zero, or what is below them is an
      end-of-chain mark. The format reserves those bits and tells readers to mask them. */
  lemma AgreeIff(e: u32)
    ensures Agree(e) <==> e < 0x1000_0000 || e % 0x1000_0000 >= 0x0FFF_FFF8
  {
  }

  /** An entry that leads on once masked, where the reader that does not mask stops. */
  lemma NibbleExample()
    ensures !Agree(0x1000_0005) && IsEof(0x1000_0005) && 0x1000_0005 % NIBBLE == 5
  {
  }
}
