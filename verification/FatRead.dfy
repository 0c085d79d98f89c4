/**
  The two FAT32 file readers, both proved to read along the chain: the whole-cluster reader of
  fs/fat32.c and the sector-window reader of fs/fat32_impl.c; the clamp of fs/fat32_vfs.c over
  the first; and the chunked load of the FAT.
 */
module FatRead {
  import opened CTypes
  import opened Errno
  import opened FatModel

  // ---------------------------------------------------------------- reading sectors

  lemma {:induction false} SectorsSplit(disk: Disk, lba: nat, a: nat, b: nat)
    ensures Sectors(disk, lba, a + b) == Sectors(disk, lba, a) + Sectors(disk, lba + a, b)
    decreases a
  {
    if a > 0 { SectorsSplit(disk, lba + 1, a - 1, b); }
    else { assert Sectors(disk, lba, 0) == []; }
  }

  /** n sectors out of a longer run of them. */
  lemma SectorsWindow(disk: Disk, lba: nat, q: nat, n: nat, total: nat)
    requires q + n <= total
    ensures Sectors(disk, lba + q, n) == Sectors(disk, lba, total)[SECTOR * q..SECTOR * (q + n)]
  {
    SectorsSplit(disk, lba, q, total - q);
    SectorsSplit(disk, lba + q, n, total - q - n);
  }

  // ---------------------------------------------------------------- where a chain's bytes are on the disk

  lemma {:induction false} SectorByte(disk: Disk, lba: nat, n: nat, q: nat, j: nat)
    requires q < n && j < 512
    ensures 512 * q + j < |Sectors(disk, lba, n)| && Sectors(disk, lba, n)[512 * q + j] == disk(lba + q)[j]
    decreases n
  {
    if q > 0 { SectorByte(disk, lba + 1, n - 1, q - 1, j); }
  }

  /** The data area is its clusters end to end, cluster 2 first. */
  lemma DataArea(v: Vol, c: nat)
    requires 2 <= c < v.total + 2
    ensures 0 <= 512 * v.spc * (c - 2) <= 512 * v.spc * (c - 1) <= |Sectors(v.disk, v.begin, v.total * v.spc)|
    ensures ClusterData(v, c) ==
            Sectors(v.disk, v.begin, v.total * v.spc)[512 * v.spc * (c - 2)..512 * v.spc * (c - 1)]
  {
    var q := (c - 2) * v.spc;
    MulStep(c - 2, v.total, v.spc);
    SectorsWindow(v.disk, v.begin, q, v.spc, v.total * v.spc);
    Scaled(c - 2, v.spc);
    Scaled(c - 1, v.spc);
  }

  lemma Scaled(i: nat, spc: nat)
    ensures SECTOR * (i * spc) == 512 * spc * i == i * (SECTOR * spc)
  {
  }

  /** The chain's bytes are those of its clusters, end to end. */
  lemma {:induction false} ContentCluster(v: Vol, c: nat, k: nat, i: nat, at: nat, y: nat)
    requires i < |Chain(v, c, k)| && at == i * v.Bpc() && y < v.Bpc()
    ensures Chain(v, c, k)[i] >= 2 && at + y < |Content(v, c, k)|
    ensures Content(v, c, k)[at + y] == ClusterData(v, Chain(v, c, k)[i])[y]
    decreases k
  {
    hide ClusterData, Vol.Bpc;
    if i > 0 {
      MulStep(i - 1, i, v.Bpc());
      ContentCluster(v, v.fat[c], k - 1, i - 1, at - v.Bpc(), y);
      NextByte(ClusterData(v, c), Content(v, v.fat[c], k - 1), at - v.Bpc() + y);
    }
  }

  /** Byte j of sector q of the i-th cluster of a chain, wherever on the disk that cluster is. */
  lemma ContentByte(v: Vol, c: nat, k: nat, i: nat, q: nat, j: nat, x: nat, lba: int)
    requires i < |Chain(v, c, k)| && q < v.spc && j < 512
    requires x == 512 * v.spc * i + 512 * q + j && lba == v.begin + (Chain(v, c, k)[i] - 2) * v.spc + q
    ensures lba >= 0 && x < |Content(v, c, k)| && Content(v, c, k)[x] == v.disk(lba)[j]
  {
    hide Sectors, ClusterData, Content, Chain;
    Scaled(i, v.spc);
    ContentCluster(v, c, k, i, 512 * v.spc * i, 512 * q + j);
    FirstByte(v, Chain(v, c, k)[i], q, j, 512 * q + j, lba);
  }

  lemma NextByte(a: seq<byte>, b: seq<byte>, x: nat)
    requires x < |b|
    ensures (a + b)[|a| + x] == b[x]
  {
  }

  lemma FirstByte(v: Vol, c: nat, q: nat, j: nat, x: nat, lba: int)
    requires c >= 2 && q < v.spc && j < 512
    requires x == 512 * q + j && lba == v.begin + (c - 2) * v.spc + q
    ensures lba >= 0 && x < |ClusterData(v, c)| && ClusterData(v, c)[x] == v.disk(lba)[j]
  {
    SectorByte(v.disk, v.FirstSector(c), v.spc, q, j);
  }

  // ---------------------------------------------------------------- reading sectors into a buffer

  /** One sector into the buffer at position at. */
  method ReadSector(disk: Disk, lba: nat, buf: array<byte>, at: nat)
    requires at + SECTOR <= buf.Length
    modifies buf
    ensures buf[at..at + SECTOR] == disk(lba)
    ensures forall i :: 0 <= i < buf.Length && !(at <= i < at + SECTOR) ==> buf[i] == old(buf[i])
  {
    var s := disk(lba);
    forall i | 0 <= i < SECTOR { buf[at + i] := s[i]; }
  }

  /** ata_read28_lba: n sectors from lba on into the buffer at position at. */
  method ReadSectors(disk: Disk, lba: nat, n: nat, buf: array<byte>, at: nat)
    requires n < 256 && at + SECTOR * n <= buf.Length
    modifies buf
    ensures buf[at..at + SECTOR * n] == Sectors(disk, lba, n)
    ensures forall i :: 0 <= i < buf.Length && !(at <= i < at + SECTOR * n) ==> buf[i] == old(buf[i])
  {
    hide Sectors;
    var k := 0;
    while k < n
      invariant k <= n
      invariant buf[at..at + SECTOR * k] == Sectors(disk, lba, k)
      invariant forall i :: 0 <= i < buf.Length && !(at <= i < at + SECTOR * k) ==> buf[i] == old(buf[i])
    {
      ghost var before := buf[..];
      var to := at + SECTOR * k;
      ReadSector(disk, lba + k, buf, to);
      SectorsSnoc(disk, lba, k);
      assert buf[at..to] == before[at..to];
      Joined(buf[..], at, to, to + SECTOR);
      k := k + 1;
    }
  }

  lemma Joined(s: seq<byte>, a: nat, b: nat, c: nat)
    requires a <= b <= c <= |s|
    ensures s[a..c] == s[a..b] + s[b..c]
  {
  }

  lemma SectorsSnoc(disk: Disk, lba: nat, k: nat)
    ensures Sectors(disk, lba, k + 1) == Sectors(disk, lba, k) + disk(lba + k)
  {
    SectorsSplit(disk, lba, k, 1);
    assert Sectors(disk, lba + k, 1) == disk(lba + k) + Sectors(disk, lba + k + 1, 0) == disk(lba + k);
  }

  // ---------------------------------------------------------------- loading the FAT

  /** The FAT's bytes as 32-bit entries. */
  function Words(b: seq<byte>): (w: seq<u32>)
    ensures |w| == |b| / 4
  {
    seq(|b| / 4, i requires 0 <= i < |b| / 4 => Load32(b, 4 * i))
  }

  /** Entry i is four bytes of it, the lowest first. */
  lemma WordAt(b: seq<byte>, i: nat)
    requires 4 * i + 4 <= |b|
    ensures i < |Words(b)| && Words(b)[i] ==
            (b[4 * i] as int) + 0x100 * (b[4 * i + 1] as int) + 0x1_0000 * (b[4 * i + 2] as int)
            + 0x100_0000 * (b[4 * i + 3] as int)
  {
    LittleEndian(b, 4 * i);
  }

  /** The chunked read of the FAT: at most 255 sectors at a time. */
  method LoadFat(disk: Disk, begin: nat, sectors: nat) returns (fat: array<byte>)
    ensures fat[..] == Sectors(disk, begin, sectors) && fresh(fat)
  {
    hide Sectors;
    fat := new byte[SECTOR * sectors];
    var remaining: nat, lba: nat, ptr: nat := sectors, begin, 0;
    while remaining > 0
      invariant remaining <= sectors && lba == begin + (sectors - remaining) && ptr == SECTOR * (sectors - remaining)
      invariant fat[..ptr] == Sectors(disk, begin, sectors - remaining)
    {
      var n := if remaining > 255 then 255 else remaining;
      ghost var before := fat[..];
      SectorsSplit(disk, begin, sectors - remaining, n);
      ReadSectors(disk, lba, n, fat, ptr);
      assert fat[..ptr + SECTOR * n] == before[..ptr] + fat[ptr..ptr + SECTOR * n];
      remaining, lba, ptr := remaining - n, lba + n, ptr + SECTOR * n;
    }
    assert fat[..] == fat[..ptr];
  }

  /** fat32_init's geometry, from the boot sector's fields. */
  method InitVolume(disk: Disk, spc: nat, reserved: nat, numFats: nat, fatSize: nat, totalSectors: u32) returns (v: Vol)
    requires 0 < spc < 256
    ensures v.Ok() && v.disk == disk && v.spc == spc && v.begin == Wrap32(reserved + numFats * fatSize)
    ensures v.fat == Words(Sectors(disk, reserved, fatSize))
    ensures v.total == Wrap32(totalSectors - v.begin) / spc
  {
    var fat := LoadFat(disk, reserved, fatSize);
    var begin := Wrap32(reserved + numFats * fatSize);
    v := Vol(disk, Words(fat[..]), spc, begin, Wrap32(totalSectors - begin) / spc);
  }

  // ---------------------------------------------------------------- the whole-cluster reader

  lemma StepChain(v: Vol, c: nat, off: nat, n: nat)
    requires v.Ok() && !Stops(v, c)
    ensures off >= v.Bpc() ==> ReadChain(v, c, off, n) == ReadChain(v, v.fat[c], off - v.Bpc(), n)
    ensures off < v.Bpc() && n > 0 ==>
              var part := Slice(ClusterData(v, c), off, n);
              |part| == Min(v.Bpc() - off, n) && ReadChain(v, c, off, n) == part + ReadChain(v, v.fat[c], 0, n - |part|)
  {
    hide ClusterData, Slice;
    if off < v.Bpc() && n > 0 { PartSize(ClusterData(v, c), off, n); }
  }

  lemma PartSize(d: seq<byte>, off: nat, n: nat)
    requires off < |d|
    ensures |Slice(d, off, n)| == Min(|d| - off, n)
  {
  }

  lemma Stopped(v: Vol, c: nat, off: nat, n: nat)
    requires v.Ok() && (Stops(v, c) || n == 0)
    ensures ReadChain(v, c, off, n) == []
  {
  }

  /** The copy of one cluster's part into the caller's buffer. */
  method CopyPart(src: array<byte>, from: nat, dst: array<byte>, to: nat, n: nat)
    requires src != dst && from + n <= src.Length && to + n <= dst.Length
    modifies dst
    ensures dst[to..to + n] == src[from..from + n]
    ensures forall i :: 0 <= i < dst.Length && !(to <= i < to + n) ==> dst[i] == old(dst[i])
  {
    var i := 0;
    while i < n
      invariant i <= n && dst[to..to + i] == src[from..from + i]
      invariant forall k :: 0 <= k < dst.Length && !(to <= k < to + i) ==> dst[k] == old(dst[k])
    {
      dst[to + i] := src[from + i];
      i := i + 1;
    }
  }

  /** One turn of the reading loop: the part of cluster c wanted, appended to what is there. */
  method TakeCluster(v: Vol, c: nat, clusterOffset: nat, clusterBuffer: array<byte>, buffer: array<byte>,
                     bytesRead: nat, remaining: nat)
    returns (toRead: nat)
    requires v.Ok() && c >= 2 && clusterOffset < v.Bpc() && 0 < remaining
    requires clusterBuffer != buffer && clusterBuffer.Length == v.Bpc() && bytesRead + remaining <= buffer.Length
    modifies clusterBuffer, buffer
    ensures var part := Slice(ClusterData(v, c), clusterOffset, remaining);
            toRead == |part| && buffer[..bytesRead + toRead] == old(buffer[..bytesRead]) + part
    ensures forall i :: bytesRead + toRead <= i < buffer.Length ==> buffer[i] == old(buffer[i])
  {
    var sector := v.FirstSector(c);
    ReadSectors(v.disk, sector, v.spc, clusterBuffer, 0);
    toRead := v.Bpc() - clusterOffset;
    if toRead > remaining { toRead := remaining; }
    assert clusterBuffer[..] == ClusterData(v, c) by {
      assert clusterBuffer[..] == clusterBuffer[0..0 + SECTOR * v.spc];
    }
    ghost var before := buffer[..];
    CopyPart(clusterBuffer, clusterOffset, buffer, bytesRead, toRead);
    assert buffer[..bytesRead + toRead] == before[..bytesRead] + buffer[bytesRead..bytesRead + toRead];
    assert clusterBuffer[clusterOffset..clusterOffset + toRead] ==
        clusterBuffer[..][clusterOffset..clusterOffset + toRead];
  }

  /** The skip loop's 32-bit sum does not get past offset before the loop ends: it never wraps, or
      the chain has no more than len clusters, all of them before the offset. */
  ghost predicate Skips(v: Vol, c: nat, offset: nat, len: nat) {
    offset + v.Bpc() < TWO_32 || (Ends(v, c, len + 1) && len * v.Bpc() <= offset)
  }

  /** One turn of the reading loop, and the next cluster. */
  method ReadTurn(v: Vol, ghost cs: set<nat>, current: nat, clusterOffset: nat, clusterBuffer: array<byte>,
                  buffer: array<byte>, bytesRead: nat, remaining: nat)
    returns (toRead: nat, next: nat)
    requires v.Ok() && Closed(v, cs) && current in cs && !IsEof(current) && clusterOffset < v.Bpc() && 0 < remaining
    requires clusterBuffer != buffer && clusterBuffer.Length == v.Bpc() && bytesRead + remaining <= buffer.Length
    modifies clusterBuffer, buffer
    ensures 0 < toRead <= remaining && (next in cs || IsEof(next))
    ensures buffer[..bytesRead + toRead] + ReadChain(v, next, 0, remaining - toRead) ==
            old(buffer[..bytesRead]) + ReadChain(v, current, clusterOffset, remaining)
    ensures forall i :: bytesRead + toRead <= i < buffer.Length ==> buffer[i] == old(buffer[i])
  {
    hide ReadChain, ClusterData, Slice, Closed;
    InClosed(v, cs, current);
    StepChain(v, current, clusterOffset, remaining);
    toRead := TakeCluster(v, current, clusterOffset, clusterBuffer, buffer, bytesRead, remaining);
    next := v.fat[current];
  }

  /** fat32_read_file_data of fs/fat32.c. Both loops end whether or not the chain does. */
  method ReadFileData(v: Vol, firstCluster: u32, offset: u32, buffer: array<byte>, size: u32,
                      ghost cs: set<nat>, ghost len: nat)
    returns (r: int)
    requires v.Ok() && Closed(v, cs) && (firstCluster in cs || IsEof(firstCluster))
    requires size <= buffer.Length && Skips(v, firstCluster, offset, len)
    modifies buffer
    ensures var bytes := ReadChain(v, firstCluster, offset, size);
            && r == Signed(|bytes|) && buffer[..|bytes|] == bytes
            && forall i :: |bytes| <= i < buffer.Length ==> buffer[i] == old(buffer[i])
  {
    hide ReadChain, ClusterData, Slice, Skips, Closed;
    if size == 0 {
      Stopped(v, firstCluster, offset, size);
      return 0;
    }
    var clusterBuffer := new byte[v.Bpc()];
    var current: nat, currentOffset: nat := SkipTo(v, firstCluster, offset, size, cs, len);
    var clusterOffset: nat := offset - currentOffset;
    var bytesRead: nat, remaining: nat := 0, size;
    while remaining > 0 && !IsEof(current)
      invariant bytesRead + remaining == size && (current in cs || IsEof(current))
      invariant clusterOffset < v.Bpc() || IsEof(current)
      invariant ReadChain(v, firstCluster, offset, size) ==
                buffer[..bytesRead] + ReadChain(v, current, clusterOffset, remaining)
      invariant forall i :: bytesRead <= i < buffer.Length ==> buffer[i] == old(buffer[i])
      decreases remaining
    {
      var toRead, next := ReadTurn(v, cs, current, clusterOffset, clusterBuffer, buffer, bytesRead, remaining);
      bytesRead, remaining := bytesRead + toRead, remaining - toRead;
      current, clusterOffset := next, 0;
    }
    Stopped(v, current, clusterOffset, remaining);
    return Signed(bytesRead);
  }

  /** The first loop: whole clusters before the offset are skipped. */
  method SkipTo(v: Vol, firstCluster: nat, offset: u32, ghost size: nat, ghost cs: set<nat>, ghost len: nat)
    returns (current: nat, currentOffset: nat)
    requires v.Ok() && Closed(v, cs) && (firstCluster in cs || IsEof(firstCluster))
    requires Skips(v, firstCluster, offset, len)
    ensures currentOffset <= offset && (current in cs || IsEof(current))
    ensures offset - currentOffset < v.Bpc() || IsEof(current)
    ensures ReadChain(v, firstCluster, offset, size) == ReadChain(v, current, offset - currentOffset, size)
  {
    hide ReadChain, ClusterData, Slice, Closed, Ends;
    current, currentOffset := firstCluster, 0;
    ghost var left: nat := len;
    while Wrap32(currentOffset + v.Bpc()) <= offset && !IsEof(current)
      invariant currentOffset <= offset && (current in cs || IsEof(current))
      invariant Skips(v, current, offset, left) &&
          (offset + v.Bpc() >= TWO_32 ==> currentOffset + left * v.Bpc() <= offset)
      invariant ReadChain(v, firstCluster, offset, size) == ReadChain(v, current, offset - currentOffset, size)
      decreases offset - currentOffset
    {
      InClosed(v, cs, current);
      if offset + v.Bpc() >= TWO_32 {
        EndsStep(v, current, left);
        MulStep(left - 1, left, v.Bpc());
        left := left - 1;
      }
      StepChain(v, current, offset - currentOffset, size);
      current := v.fat[current];
      currentOffset := currentOffset + v.Bpc();
    }
  }

  lemma InClosed(v: Vol, cs: set<nat>, c: nat)
    requires Closed(v, cs) && c in cs
    ensures c >= 2 && c < |v.fat| && (v.fat[c] in cs || IsEof(v.fat[c]))
    ensures !IsEof(c) ==> !Stops(v, c)
  {
  }

  lemma EndsStep(v: Vol, c: nat, left: nat)
    requires Ends(v, c, left + 1) && !Stops(v, c)
    ensures left > 0 && Ends(v, v.fat[c], left)
  {
  }

  // ---------------------------------------------------------------- the sector-window reader

  lemma DivMod(a: nat, b: nat)
    requires b > 0
    ensures a == (a / b) * b + a % b && a % b < b
  {
  }

  lemma MulStep(i: nat, q: nat, b: nat)
    requires i < q
    ensures (i + 1) * b == i * b + b <= q * b
  {
  }

  /** The sectors that cover to_read bytes from cluster_offset on: inside the cluster, and few
      enough for the 8-bit count. */
  lemma WindowFits(clusterOffset: nat, toRead: nat, spc: nat)
    requires clusterOffset + toRead <= SECTOR * spc && spc < 256
    ensures var n := (clusterOffset % SECTOR + toRead + SECTOR - 1) / SECTOR;
            clusterOffset / SECTOR + n <= spc && clusterOffset % SECTOR + toRead <= SECTOR * n
  {
  }

  /** The part of the window wanted is that part of the cluster. */
  lemma WindowPart(v: Vol, c: nat, clusterOffset: nat, toRead: nat, n: nat)
    requires v.Ok() && c >= 2 && clusterOffset + toRead <= v.Bpc()
    requires clusterOffset / SECTOR + n <= v.spc && clusterOffset % SECTOR + toRead <= SECTOR * n
    ensures var (q, so) := (clusterOffset / SECTOR, clusterOffset % SECTOR);
            Sectors(v.disk, v.FirstSector(c) + q, n)[so..so + toRead] ==
            ClusterData(v, c)[clusterOffset..clusterOffset + toRead]
  {
    hide Sectors;
    var (q, so) := (clusterOffset / SECTOR, clusterOffset % SECTOR);
    var (data, from, to) := (ClusterData(v, c), SECTOR * q, SECTOR * (q + n));
    assert from + so == clusterOffset;
    SectorsWindow(v.disk, v.FirstSector(c), q, n, v.spc);
    assert Sectors(v.disk, v.FirstSector(c) + q, n) == data[from..to];
    SubSlice(data, from, to, so, so + toRead);
  }

  /** The volume is of a size the format allows, and its FAT covers it. */
  ghost predicate Sized(v: Vol) { v.Ok() && v.total + 2 <= |v.fat| && v.total + 2 <= EOF_MARK }

  /** A masked step from a cluster of the set, or from an end mark, goes where the plain one
      goes, as far as reading is concerned. */
  lemma MaskedStep(v: Vol, cs: set<nat>, c: nat, off: nat, n: nat)
    requires Sized(v) && ClosedOrFree(v, cs) && AllAgree(v, cs) && (c in cs || IsEof(c))
    ensures var m := MaskedNext(v, c);
            && OnChain(cs, m)
            && (off >= v.Bpc() ==> ReadChain(v, c, off, n) == ReadChain(v, m, off - v.Bpc(), n))
            && (off < v.Bpc() && n > 0 && c in cs ==>
                  var part := Slice(ClusterData(v, c), off, n);
                  |part| == Min(v.Bpc() - off, n) && ReadChain(v, c, off, n) == part + ReadChain(v, m, 0, n - |part|))
  {
    hide ReadChain, ClusterData, Slice;
    var m := MaskedNext(v, c);
    if IsEof(c) {
      Stopped(v, c, off, n);
      if off >= v.Bpc() { Stopped(v, m, off - v.Bpc(), n); }
    } else {
      StepChain(v, c, off, n);
      if off >= v.Bpc() { SameRead(v, v.fat[c], m, off - v.Bpc(), n); }
      else if n > 0 { SameRead(v, v.fat[c], m, 0, n - |Slice(ClusterData(v, c), off, n)|); }
    }
  }

  lemma SameRead(v: Vol, a: nat, b: nat, off: nat, n: nat)
    requires v.Ok() && (a == b || (IsEof(a) && IsEof(b)))
    ensures ReadChain(v, a, off, n) == ReadChain(v, b, off, n)
  {
    if a != b {
      Stopped(v, a, off, n);
      Stopped(v, b, off, n);
    }
  }

  ghost predicate AllAgree(v: Vol, cs: set<nat>) {
    forall c :: c in cs && c < |v.fat| ==> Agree(v.fat[c])
  }

  /** One turn of the reading loop: the sectors that cover the part wanted, and the part. */
  method TakeWindow(v: Vol, c: nat, clusterOffset: nat, buffer: array<byte>, bytesRead: nat, toRead: nat)
    requires v.Ok() && c >= 2 && clusterOffset + toRead <= v.Bpc() && bytesRead + toRead <= buffer.Length
    modifies buffer
    ensures buffer[..bytesRead + toRead] ==
        old(buffer[..bytesRead]) + ClusterData(v, c)[clusterOffset..clusterOffset + toRead]
    ensures forall i :: bytesRead + toRead <= i < buffer.Length ==> buffer[i] == old(buffer[i])
  {
    hide Sectors, ClusterData;
    var sector := v.FirstSector(c) + clusterOffset / SECTOR;
    var sectorOffset := clusterOffset % SECTOR;
    var sectorsToRead := (sectorOffset + toRead + SECTOR - 1) / SECTOR;
    WindowFits(clusterOffset, toRead, v.spc);
    WindowPart(v, c, clusterOffset, toRead, sectorsToRead);
    var temp := new byte[SECTOR * sectorsToRead];
    ReadSectors(v.disk, sector, sectorsToRead, temp, 0);
    ghost var w := Sectors(v.disk, sector, sectorsToRead);
    assert temp[..] == temp[0..0 + SECTOR * sectorsToRead] == w;
    ghost var before := buffer[..];
    CopyPart(temp, sectorOffset, buffer, bytesRead, toRead);
    assert temp[sectorOffset..sectorOffset + toRead] == temp[..][sectorOffset..sectorOffset + toRead];
    assert buffer[..bytesRead + toRead] == before[..bytesRead] + buffer[bytesRead..bytesRead + toRead];
  }

  /** The loop over the clusters before the offset; false when the chain ends among them. */
  method WindowSkip(v: Vol, firstCluster: nat, offset: nat, ghost size: nat, ghost cs: set<nat>)
    returns (ok: bool, cluster: nat)
    requires Sized(v) && ClosedOrFree(v, cs) && AllAgree(v, cs) && (firstCluster in cs || IsEof(firstCluster))
    ensures !ok ==> ReadChain(v, firstCluster, offset, size) == []
    ensures ok ==> (cluster in cs || IsEof(cluster)) &&
                   ReadChain(v, firstCluster, offset, size) == ReadChain(v, cluster, offset % v.Bpc(), size)
  {
    hide ReadChain, MaskedNext, ClosedOrFree, AllAgree, ClusterData, Slice, Vol.Bpc;
    BpcPositive(v);
    var startCluster := offset / v.Bpc();
    DivMod(offset, v.Bpc());
    cluster := firstCluster;
    var i: nat := 0;
    ghost var done: nat := 0;
    while i < startCluster
      invariant i <= startCluster && done == i * v.Bpc() <= offset
      invariant cluster in cs || IsEof(cluster)
      invariant ReadChain(v, firstCluster, offset, size) == ReadChain(v, cluster, offset - done, size)
    {
      MulStep(i, startCluster, v.Bpc());
      MaskedStep(v, cs, cluster, offset - done, size);
      cluster := MaskedNext(v, cluster);
      done := done + v.Bpc();
      if IsEof(cluster) || cluster == 0 {
        Stopped(v, cluster, offset - done, size);
        return false, cluster;
      }
      i := i + 1;
    }
    return true, cluster;
  }

  lemma BpcPositive(v: Vol)
    requires v.Ok()
    ensures v.Bpc() > 0
  {
  }

  lemma InSet(v: Vol, cs: set<nat>, c: nat)
    requires ClosedOrFree(v, cs) && c in cs
    ensures c >= 2 && c < |v.fat| && OnChain(cs, v.fat[c])
    ensures !IsEof(c) ==> !Stops(v, c)
  {
  }

  lemma PartOf(v: Vol, c: nat, off: nat, n: nat, k: nat)
    requires v.Ok() && c >= 2 && off < v.Bpc() && k == Min(v.Bpc() - off, n)
    ensures Slice(ClusterData(v, c), off, n) == ClusterData(v, c)[off..off + k]
  {
  }

  /** One turn of the loop: the part of this cluster that is wanted, and the next cluster. */
  method WindowTurn(v: Vol, ghost cs: set<nat>, cluster: nat, clusterOffset: nat, buffer: array<byte>,
                    bytesRead: nat, left: nat, inCluster: nat)
    returns (toRead: nat, next: nat)
    requires Sized(v) && ClosedOrFree(v, cs) && AllAgree(v, cs) && cluster in cs
    requires clusterOffset < v.Bpc() && inCluster == v.Bpc() - clusterOffset && 0 < left &&
        bytesRead + left <= buffer.Length
    modifies buffer
    ensures 0 < toRead <= left && OnChain(cs, next)
    ensures buffer[..bytesRead + toRead] + ReadChain(v, next, 0, left - toRead) ==
            old(buffer[..bytesRead]) + ReadChain(v, cluster, clusterOffset, left)
    ensures forall i :: bytesRead + toRead <= i < buffer.Length ==> buffer[i] == old(buffer[i])
  {
    hide ReadChain, ClusterData, MaskedNext, ClosedOrFree, AllAgree, Slice;
    MaskedStep(v, cs, cluster, clusterOffset, left);
    toRead := if left < inCluster then left else inCluster;
    InSet(v, cs, cluster);
    PartOf(v, cluster, clusterOffset, left, toRead);
    TakeWindow(v, cluster, clusterOffset, buffer, bytesRead, toRead);
    next := MaskedNext(v, cluster);
  }

  /** fat32_read_file_data of fs/fat32_impl.c: -EINVAL for a cluster number below 2. */
  method ReadFileWindow(v: Vol, firstCluster: u32, offset: u32, buffer: array<byte>, size: u32, ghost cs: set<nat>)
    returns (r: int)
    requires Sized(v) && ClosedOrFree(v, cs) && AllAgree(v, cs)
    requires firstCluster < 2 || firstCluster in cs || IsEof(firstCluster)
    requires size <= buffer.Length
    modifies buffer
    ensures firstCluster < 2 ==> r == -EINVAL && buffer[..] == old(buffer[..])
    ensures firstCluster >= 2 ==>
              var bytes := ReadChain(v, firstCluster, offset, size);
              && r == Signed(|bytes|) && buffer[..|bytes|] == bytes
              && forall i :: |bytes| <= i < buffer.Length ==> buffer[i] == old(buffer[i])
  {
    hide ReadChain, ClusterData, MaskedNext, ClosedOrFree, AllAgree, Slice;
    if firstCluster < 2 {
      return -EINVAL;
    }
    var ok: bool, cluster: nat := WindowSkip(v, firstCluster, offset, size, cs);
    if !ok {
      return 0;
    }
    var clusterOffset: nat := offset % v.Bpc();
    var inCluster: nat := v.Bpc() - clusterOffset;
    var bytesRead: nat, left: nat := 0, size;
    while left > 0 && !IsEof(cluster) && cluster != 0
      invariant bytesRead + left == size && OnChain(cs, cluster)
      invariant clusterOffset < v.Bpc() && inCluster == v.Bpc() - clusterOffset
      invariant ReadChain(v, firstCluster, offset, size) ==
                buffer[..bytesRead] + ReadChain(v, cluster, clusterOffset, left)
      invariant forall i :: bytesRead <= i < buffer.Length ==> buffer[i] == old(buffer[i])
      decreases left
    {
      var toRead, next := WindowTurn(v, cs, cluster, clusterOffset, buffer, bytesRead, left, inCluster);
      bytesRead, left := bytesRead + toRead, left - toRead;
      clusterOffset, inCluster := 0, v.Bpc();
      cluster := next;
    }
    Stopped(v, cluster, clusterOffset, left);
    return Signed(bytesRead);
  }

  // ---------------------------------------------------------------- the clamp to the file's size

  /** How many bytes fat32_read asks the reader for: its test adds in 32 bits. */
  function Clamped(offset: u32, count: u32, fileSize: u32): u32
    requires offset < fileSize
  {
    if Wrap32(offset + count) > fileSize then fileSize - offset else count
  }

  /** An open FAT32 file: fat32_file_private_t. */
  class FilePriv {
    const cluster: u32
    const size: u32
    const isDir: bool
    var pos: nat

    constructor (cluster: u32, size: u32, isDir: bool)
      ensures this.cluster == cluster && this.size == size && this.isDir == isDir && pos == 0
    {
      this.cluster, this.size, this.isDir, pos := cluster, size, isDir, 0;
    }

    /** fat32_read of fs/fat32_vfs.c. */
    method Read(v: Vol, offset: u32, buffer: array<byte>, count: u32, ghost cs: set<nat>, ghost len: nat)
      returns (r: int)
      requires v.Ok() && Closed(v, cs) && (!isDir && offset < size ==> cluster in cs || IsEof(cluster))
      requires count <= buffer.Length && (!isDir && offset < size ==> Skips(v, cluster, offset, len))
      modifies this, buffer
      ensures isDir ==> r == -EISDIR
      ensures !isDir && offset >= size ==> r == 0
      ensures isDir || offset >= size ==> pos == old(pos) && buffer[..] == old(buffer[..])
      ensures !isDir && offset < size ==>
                var bytes := ReadChain(v, cluster, offset, Clamped(offset, count, size));
                && r == Signed(|bytes|) && |bytes| <= buffer.Length && buffer[..|bytes|] == bytes
                && pos == (if r < 0 then old(pos) else Wrap32(offset + r))
                && forall i :: |bytes| <= i < buffer.Length ==> buffer[i] == old(buffer[i])
    {
      hide Skips, ReadChain;
      if isDir { return -EISDIR; }
      if offset >= size { return 0; }
      var n := count;
      if Wrap32(offset + n) > size {
        n := size - offset;
      }
      r := ReadFileData(v, cluster, offset, buffer, n, cs, len);
      if r < 0 { return; }
      pos := Wrap32(offset + r);
    }
  }

  /** The clamped read gives exactly the wanted bytes of the file's recorded size, unless the
      32-bit sum of offset and count wraps and the last cluster has bytes past that size. */
  lemma ClampExact(v: Vol, c: nat, k: nat, fileSize: u32, offset: u32, count: u32)
    requires v.Ok() && Ends(v, c, k) && offset < fileSize <= |Content(v, c, k)| < TWO_32
    ensures (ReadChain(v, c, offset, Clamped(offset, count, fileSize)) ==
             Slice(Content(v, c, k)[..fileSize], offset, count)) <==>
            offset + count < TWO_32 || |Content(v, c, k)| == fileSize
  {
    hide Content, ReadChain;
    ReadChainOfFile(v, c, offset, Clamped(offset, count, fileSize), k);
    ClampSlices(Content(v, c, k), fileSize, offset, count);
  }

  lemma ClampSlices(t: seq<byte>, fileSize: u32, offset: u32, count: u32)
    requires offset < fileSize <= |t| < TWO_32
    ensures Slice(t, offset, Clamped(offset, count, fileSize)) == Slice(t[..fileSize], offset, count) <==>
            offset + count < TWO_32 || |t| == fileSize
  {
    var (x, y) := (Slice(t, offset, Clamped(offset, count, fileSize)), Slice(t[..fileSize], offset, count));
    if offset + count < TWO_32 || |t| == fileSize {
      assert |x| == |y|;
      forall i | 0 <= i < |x| ensures x[i] == y[i] { }
    } else {
      assert |x| == |t| - offset && |y| == fileSize - offset;
    }
  }

  /** 4 GB less one from byte 100 of a file of 200 bytes in a 512-byte cluster: the sum wraps to 99. */
  lemma ClampExample(t: seq<byte>)
    requires |t| == 512
    ensures Slice(t, 100, Clamped(100, 0xFFFF_FFFF, 200)) == t[100..] &&
        Slice(t[..200], 100, 0xFFFF_FFFF) == t[100..200]
  {
    assert Wrap32(100 + 0xFFFF_FFFF) == 99;
    assert t[..200][100..200] == t[100..200];
  }
}
