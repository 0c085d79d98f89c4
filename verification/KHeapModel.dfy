/**
  What the kernel heap does to its list of blocks and to the bytes of its arena, one step
  per call, and what every run of such steps keeps (kernel/kheap.c).
 */
module KHeapModel {
  import opened CTypes

  const KHEAP_START: u32 := 0xC000_0000
  const KHEAP_INITIAL_SIZE: nat := 0x10_0000
  const KHEAP_END: u32 := 0xC010_0000
  const KHEAP_MAX: u32 := 0xC00F_FFFF
  const KHEAP_ALIGN: nat := 0x1000
  const HEADER: nat := 12
  const MIN_SIZE: nat := 4

  /** A block: the offset of its header in the arena, its payload size, its used flag. */
  datatype Block = Block(addr: nat, size: nat, used: bool) {
    function Payload(): nat { addr + HEADER }
    function End(): nat { addr + HEADER + size }
    function Pointer(): nat { KHEAP_START + addr + HEADER }
  }

  /** Block i ends where block i + 1 begins. */
  ghost predicate Meets(bs: seq<Block>, i: nat)
    requires i + 1 < |bs|
  {
    bs[i].End() == bs[i + 1].addr
  }

  /** Blocks i and i + 1 are not both free. */
  ghost predicate Parted(bs: seq<Block>, i: nat)
    requires i + 1 < |bs|
  {
    bs[i].used || bs[i + 1].used
  }

  /** The blocks lie end to end from lo to hi. */
  ghost predicate Tiles(bs: seq<Block>, lo: nat, hi: nat) {
    && |bs| > 0
    && bs[0].addr == lo
    && bs[|bs| - 1].End() == hi
    && forall i :: 0 <= i < |bs| - 1 ==> Meets(bs, i)
  }

  /** No two neighbours are both free. */
  ghost predicate Canonical(bs: seq<Block>) {
    forall i :: 0 <= i < |bs| - 1 ==> Parted(bs, i)
  }

  ghost predicate Sized(bs: seq<Block>) {
    forall i :: 0 <= i < |bs| ==> bs[i].size >= MIN_SIZE
  }

  ghost predicate Shaped(bs: seq<Block>) {
    Tiles(bs, 0, KHEAP_INITIAL_SIZE) && Sized(bs)
  }

  ghost predicate Inv(bs: seq<Block>) {
    Shaped(bs) && Canonical(bs)
  }

  const INITIAL: seq<Block> := [Block(0, KHEAP_INITIAL_SIZE - HEADER, false)]

  // ---------------------------------------------------------------- kmalloc

  /** kmalloc's outcomes. Fault is its growth branch: the store to a header at kheap_end,
      the first address past the region that paging_init maps for the heap. */
  datatype Outcome = Pointer(p: nat) | Null | Fault

  /** align_up in 32-bit arithmetic, for the heap's power-of-two alignment. */
  function AlignUp(x: u32): u32 {
    Wrap32(x + KHEAP_ALIGN - 1) / KHEAP_ALIGN * KHEAP_ALIGN
  }

  /** kmalloc's growth test fails to refuse the request. */
  predicate Grows(size: u32) {
    !(Wrap32(KHEAP_END + AlignUp(Wrap32(size + HEADER))) > KHEAP_MAX)
  }

  /** The first index from i on whose block is free and holds n bytes, or |bs|. */
  function FirstFit(bs: seq<Block>, i: nat, n: nat): (k: nat)
    requires i <= |bs|
    ensures i <= k <= |bs|
    ensures k < |bs| ==> !bs[k].used && bs[k].size >= n
    ensures forall j :: i <= j < k ==> bs[j].used || bs[j].size < n
    decreases |bs| - i
  {
    if i == |bs| then i
    else if !bs[i].used && bs[i].size >= n then i
    else FirstFit(bs, i + 1, n)
  }

  /** Take n bytes of block k, splitting it when the rest can hold a header and 5 bytes. */
  function Carve(bs: seq<Block>, k: nat, n: nat): seq<Block>
    requires k < |bs| && bs[k].size >= n
  {
    var b := bs[k];
    if b.size > n + HEADER + 4 then
      bs[..k] + [Block(b.addr, n, true), Block(b.addr + HEADER + n, b.size - n - HEADER, false)] + bs[k + 1..]
    else
      bs[k := b.(used := true)]
  }

  function Malloc(bs: seq<Block>, size: u32): (seq<Block>, Outcome) {
    var n := Max(size, MIN_SIZE);
    var k := FirstFit(bs, 0, n);
    if k < |bs| then (Carve(bs, k, n), Pointer(bs[k].Pointer()))
    else (bs, if Grows(n) then Fault else Null)
  }

  // ---------------------------------------------------------------- kfree

  /** The sweep's merge of the first two blocks. */
  function MergeFirst(bs: seq<Block>): seq<Block>
    requires |bs| >= 2
  {
    [bs[0].(size := bs[0].size + bs[1].size + HEADER)] + bs[2..]
  }

  /** kfree's sweep: merge each free block with the free blocks that follow it. */
  function Coalesce(bs: seq<Block>): (r: seq<Block>)
    decreases |bs|
  {
    if |bs| < 2 then bs
    else if !bs[0].used && !bs[1].used then
      Coalesce(MergeFirst(bs))
    else [bs[0]] + Coalesce(bs[1..])
  }

  predicate InRange(p: nat) { KHEAP_START <= p < KHEAP_END }

  ghost predicate IsBlock(bs: seq<Block>, p: nat) {
    exists i :: 0 <= i < |bs| && bs[i].Pointer() == p
  }

  ghost predicate IsLive(bs: seq<Block>, p: nat) {
    exists i :: 0 <= i < |bs| && bs[i].Pointer() == p && bs[i].used
  }

  ghost function IndexOf(bs: seq<Block>, p: nat): (i: nat)
    requires IsBlock(bs, p)
    ensures i < |bs| && bs[i].Pointer() == p
  {
    var i :| 0 <= i < |bs| && bs[i].Pointer() == p;
    i
  }

  /** The blocks with the one at p marked free. */
  ghost function Unmark(bs: seq<Block>, p: nat): seq<Block>
    requires IsBlock(bs, p)
  {
    var i := IndexOf(bs, p);
    bs[i := bs[i].(used := false)]
  }

  ghost function Free(bs: seq<Block>, p: nat): seq<Block>
    requires InRange(p) ==> IsBlock(bs, p)
  {
    if InRange(p) then Coalesce(Unmark(bs, p)) else bs
  }

  // ---------------------------------------------------------------- the list's shape

  /** Blocks are in address order and do not overlap. */
  ghost predicate Ordered(bs: seq<Block>, lo: nat, hi: nat) {
    && (forall i, j :: 0 <= i < j < |bs| ==> bs[i].End() <= bs[j].addr)
    && (forall i :: 0 <= i < |bs| ==> lo <= bs[i].addr && bs[i].End() <= hi)
  }

  lemma RestTiles(bs: seq<Block>, lo: nat, hi: nat)
    requires Tiles(bs, lo, hi) && |bs| > 1
    ensures Tiles(bs[1..], bs[0].End(), hi)
    ensures Canonical(bs) ==> Canonical(bs[1..])
  {
    assert Meets(bs, 0);
    forall i | 0 <= i < |bs[1..]| - 1
      ensures Meets(bs[1..], i)
      ensures Canonical(bs) ==> Parted(bs[1..], i)
    {
      assert Meets(bs, i + 1);
      assert Canonical(bs) ==> Parted(bs, i + 1);
    }
  }

  lemma {:induction false} TilesOrdered(bs: seq<Block>, lo: nat, hi: nat)
    requires Tiles(bs, lo, hi)
    ensures Ordered(bs, lo, hi)
  {
    if |bs| > 1 {
      var rest := bs[1..];
      assert Meets(bs, 0);
      RestTiles(bs, lo, hi);
      TilesOrdered(rest, bs[0].End(), hi);
      assert forall i :: 1 <= i < |bs| ==> bs[i] == rest[i - 1];
    }
  }

  /** Blocks do not overlap, so live payloads are disjoint from each other and from every
      header; and all lie within the arena. */
  lemma Disjoint(bs: seq<Block>, i: nat, j: nat)
    requires Shaped(bs) && i < |bs| && j < |bs| && i != j
    ensures bs[i].End() <= bs[j].addr || bs[j].End() <= bs[i].addr
    ensures bs[i].End() <= KHEAP_INITIAL_SIZE
  {
    TilesOrdered(bs, 0, KHEAP_INITIAL_SIZE);
  }

  lemma Within(bs: seq<Block>, i: nat)
    requires Shaped(bs) && i < |bs|
    ensures bs[i].End() <= KHEAP_INITIAL_SIZE
  {
    TilesOrdered(bs, 0, KHEAP_INITIAL_SIZE);
  }

  /** A pointer names at most one block. */
  lemma PointerUnique(bs: seq<Block>, i: nat, j: nat)
    requires Shaped(bs) && i < |bs| && j < |bs| && bs[i].Pointer() == bs[j].Pointer()
    ensures i == j
  {
    TilesOrdered(bs, 0, KHEAP_INITIAL_SIZE);
  }

  lemma BlockAt(bs: seq<Block>, b: Block, p: nat)
    requires Shaped(bs) && b in bs && b.Pointer() == p
    ensures IsBlock(bs, p) && bs[IndexOf(bs, p)] == b
    ensures b.used ==> IsLive(bs, p)
  {
    var i :| 0 <= i < |bs| && bs[i] == b;
    PointerUnique(bs, i, IndexOf(bs, p));
  }

  /** Sizes and headers together: the bytes the list accounts for. */
  ghost function Extent(bs: seq<Block>): nat {
    if |bs| == 0 then 0 else HEADER + bs[0].size + Extent(bs[1..])
  }

  lemma {:induction false} TilesExtent(bs: seq<Block>, lo: nat, hi: nat)
    requires Tiles(bs, lo, hi)
    ensures Extent(bs) == hi - lo
  {
    if |bs| > 1 {
      var rest := bs[1..];
      assert Meets(bs, 0);
      RestTiles(bs, lo, hi);
      TilesExtent(rest, bs[0].End(), hi);
    } else {
      assert Extent(bs[1..]) == 0;
    }
  }

  // ---------------------------------------------------------------- kmalloc keeps the shape

  lemma CarveInv(bs: seq<Block>, k: nat, n: nat)
    requires Inv(bs) && k < |bs| && !bs[k].used && bs[k].size >= n >= MIN_SIZE
    ensures Inv(Carve(bs, k, n))
  {
    var r := Carve(bs, k, n);
    if bs[k].size > n + HEADER + 4 {
      assert |r| == |bs| + 1;
      forall i | 0 <= i < |r| - 1 ensures Meets(r, i) && Parted(r, i) {
        if i < k { assert Meets(bs, i) && Parted(bs, i); }
        else if i > k { assert Meets(bs, i - 1) && Parted(bs, i - 1); }
      }
    } else {
      forall i | 0 <= i < |r| - 1 ensures Meets(r, i) && Parted(r, i) {
        assert Meets(bs, i) && Parted(bs, i);
      }
    }
  }

  /** kmalloc adds exactly one live block, of the request or up to 16 bytes more. */
  lemma CarveLive(bs: seq<Block>, k: nat, n: nat, b: Block)
    requires k < |bs| && !bs[k].used && bs[k].size >= n
    ensures b.used ==>
              (b in Carve(bs, k, n) <==>
               b in bs || b == Block(bs[k].addr, if bs[k].size > n + 16 then n else bs[k].size, true))
  {
    var r := Carve(bs, k, n);
    if bs[k].size > n + HEADER + 4 {
      var mid := [Block(bs[k].addr, n, true), Block(bs[k].addr + HEADER + n, bs[k].size - n - HEADER, false)];
      assert r == bs[..k] + mid + bs[k + 1..] && bs == bs[..k] + [bs[k]] + bs[k + 1..];
      assert b.used && b in mid ==> b == mid[0];
      assert mid[0] in mid;
    } else {
      assert r == bs[..k] + [bs[k].(used := true)] + bs[k + 1..] && bs == bs[..k] + [bs[k]] + bs[k + 1..];
    }
  }

  // ---------------------------------------------------------------- kfree keeps the shape

  lemma MergeFirstTiles(bs: seq<Block>, lo: nat, hi: nat)
    requires Tiles(bs, lo, hi) && Sized(bs) && |bs| >= 2
    ensures Tiles(MergeFirst(bs), lo, hi) && Sized(MergeFirst(bs))
  {
    var m := MergeFirst(bs);
    assert Meets(bs, 0);
    forall i | 0 <= i < |m| - 1 ensures Meets(m, i) { assert Meets(bs, i + 1); }
  }

  lemma {:induction false} CoalesceShape(bs: seq<Block>, lo: nat, hi: nat)
    requires Tiles(bs, lo, hi) && Sized(bs)
    ensures Tiles(Coalesce(bs), lo, hi) && Sized(Coalesce(bs)) && Canonical(Coalesce(bs))
    ensures Coalesce(bs)[0].used == bs[0].used
    decreases |bs|
  {
    if |bs| >= 2 {
      if !bs[0].used && !bs[1].used {
        MergeFirstTiles(bs, lo, hi);
        CoalesceShape(MergeFirst(bs), lo, hi);
      } else {
        RestTiles(bs, lo, hi);
        CoalesceShape(bs[1..], bs[0].End(), hi);
        var r, c := Coalesce(bs[1..]), Coalesce(bs);
        forall i | 0 <= i < |c| - 1 ensures Meets(c, i) && Parted(c, i) {
          if i > 0 { assert Meets(r, i - 1) && Parted(r, i - 1); }
        }
      }
    }
  }

  lemma {:induction false} CoalesceLive(bs: seq<Block>, b: Block)
    requires b.used
    ensures b in Coalesce(bs) <==> b in bs
    decreases |bs|
  {
    if |bs| >= 2 {
      if !bs[0].used && !bs[1].used {
        CoalesceLive(MergeFirst(bs), b);
        assert bs == [bs[0], bs[1]] + bs[2..];
      } else {
        CoalesceLive(bs[1..], b);
        assert bs == [bs[0]] + bs[1..];
      }
    }
  }

  lemma {:induction false} CoalesceFixpoint(bs: seq<Block>)
    requires Canonical(bs)
    ensures Coalesce(bs) == bs
  {
    if |bs| >= 2 {
      assert Parted(bs, 0);
      forall i | 0 <= i < |bs[1..]| - 1 ensures Parted(bs[1..], i) { assert Parted(bs, i + 1); }
      CoalesceFixpoint(bs[1..]);
    }
  }

  lemma UnmarkShape(bs: seq<Block>, p: nat)
    requires Shaped(bs) && IsBlock(bs, p)
    ensures Shaped(Unmark(bs, p))
  {
    var r := Unmark(bs, p);
    forall i | 0 <= i < |r| - 1 ensures Meets(r, i) { assert Meets(bs, i); }
  }

  lemma UnmarkLive(bs: seq<Block>, p: nat, b: Block)
    requires Shaped(bs) && IsBlock(bs, p) && b.used
    ensures b in Unmark(bs, p) <==> b in bs && b.Pointer() != p
  {
    var i := IndexOf(bs, p);
    var r := Unmark(bs, p);
    if b in bs && b.Pointer() != p {
      var j :| 0 <= j < |bs| && bs[j] == b;
      assert r[j] == b;
    }
    if b in r {
      var j :| 0 <= j < |r| && r[j] == b;
      assert bs[j] == b;
      if b.Pointer() == p { PointerUnique(bs, i, j); }
    }
  }

  lemma FreeInv(bs: seq<Block>, p: nat)
    requires Inv(bs) && (InRange(p) ==> IsBlock(bs, p))
    ensures Inv(Free(bs, p))
    ensures forall b: Block :: b.used ==> (b in Free(bs, p) <==> b in bs && (InRange(p) ==> b.Pointer() != p))
  {
    if InRange(p) {
      UnmarkShape(bs, p);
      CoalesceShape(Unmark(bs, p), 0, KHEAP_INITIAL_SIZE);
      forall b: Block | b.used ensures b in Free(bs, p) <==> b in bs && b.Pointer() != p {
        UnmarkLive(bs, p, b);
        CoalesceLive(Unmark(bs, p), b);
      }
    }
  }

  // ---------------------------------------------------------------- completeness

  /** Blocks i..j are all free: a free run, whose payload is one header short of its span. */
  ghost predicate FreeRun(bs: seq<Block>, i: nat, j: nat) {
    i <= j < |bs| && forall k :: i <= k <= j ==> !bs[k].used
  }

  /** kmalloc gives no block exactly when no free run is big enough, and then faults exactly
      when its growth test lets the request through. */
  lemma MallocComplete(bs: seq<Block>, size: u32)
    requires Inv(bs)
    ensures !Malloc(bs, size).1.Pointer? <==>
            forall i: nat, j: nat :: FreeRun(bs, i, j) ==> bs[j].End() - bs[i].Payload() < Max(size, 4)
    ensures Malloc(bs, size).1.Fault? <==>
            !Malloc(bs, size).1.Pointer? && Grows(Max(size, 4))
  {
    var n := Max(size, MIN_SIZE);
    var k := FirstFit(bs, 0, n);
    if k < |bs| {
      assert FreeRun(bs, k, k);
    } else {
      forall i: nat, j: nat | FreeRun(bs, i, j) ensures bs[j].End() - bs[i].Payload() < n {
        assert i < |bs| - 1 ==> Parted(bs, i);
      }
    }
  }

  /** The growth test lets a request through exactly when kheap_end plus the aligned request
      passes 2^32 while the alignment itself does not wrap. */
  lemma GrowsIff(size: u32)
    ensures Grows(size) <==> 0x3FEF_EFF4 < size <= 0xFFFF_EFF4
  {
    var x := Wrap32(size + HEADER);
    assert Wrap32(x + KHEAP_ALIGN - 1) == if x + 0xFFF >= TWO_32 then x + 0xFFF - TWO_32 else x + 0xFFF;
  }

  // ---------------------------------------------------------------- freeing everything

  ghost predicate AllLive(bs: seq<Block>, ps: seq<nat>) {
    && (forall i, j :: 0 <= i < j < |ps| ==> ps[i] != ps[j])
    && (forall i :: 0 <= i < |ps| ==> IsLive(bs, ps[i]))
  }

  lemma LiveInRange(bs: seq<Block>, p: nat)
    requires Shaped(bs) && IsLive(bs, p)
    ensures InRange(p) && IsBlock(bs, p)
  {
    TilesOrdered(bs, 0, KHEAP_INITIAL_SIZE);
    var i :| 0 <= i < |bs| && bs[i].Pointer() == p && bs[i].used;
    assert bs[i].size >= MIN_SIZE && bs[i].End() <= KHEAP_INITIAL_SIZE;
  }

  /** After kfree(p), the live pointers are those of before but p. */
  lemma FreeLive(bs: seq<Block>, p: nat, q: nat)
    requires Inv(bs) && IsLive(bs, p)
    ensures InRange(p) && IsBlock(bs, p) && Inv(Free(bs, p))
    ensures IsLive(Free(bs, p), q) <==> IsLive(bs, q) && q != p
  {
    LiveInRange(bs, p);
    FreeInv(bs, p);
    var r := Free(bs, p);
    if IsLive(bs, q) && q != p {
      var i :| 0 <= i < |bs| && bs[i].Pointer() == q && bs[i].used;
      assert bs[i] in r;
    }
    if IsLive(r, q) {
      var i :| 0 <= i < |r| && r[i].Pointer() == q && r[i].used;
      assert r[i] in bs;
    }
  }

  ghost function FreeEach(bs: seq<Block>, ps: seq<nat>): seq<Block>
    requires Inv(bs) && AllLive(bs, ps)
    decreases |ps|
  {
    if ps == [] then bs
    else
      FreeNext(bs, ps);
      FreeEach(Free(bs, ps[0]), ps[1..])
  }

  lemma FreeNext(bs: seq<Block>, ps: seq<nat>)
    requires Inv(bs) && AllLive(bs, ps) && ps != []
    ensures InRange(ps[0]) && IsBlock(bs, ps[0])
    ensures Inv(Free(bs, ps[0])) && AllLive(Free(bs, ps[0]), ps[1..])
  {
    FreeLive(bs, ps[0], ps[0]);
    forall i | 0 <= i < |ps[1..]| ensures IsLive(Free(bs, ps[0]), ps[1..][i]) {
      assert ps[1..][i] == ps[i + 1];
      FreeLive(bs, ps[0], ps[i + 1]);
    }
  }

  lemma NothingLive(bs: seq<Block>)
    requires Inv(bs) && forall p :: !IsLive(bs, p)
    ensures bs == INITIAL
  {
    assert |bs| > 1 ==> Parted(bs, 0);
    forall i | 0 <= i < |bs| ensures !bs[i].used {
      if bs[i].used { assert IsLive(bs, bs[i].Pointer()); }
    }
  }

  /** Freeing every live block, in any order, gives back the one initial block. */
  lemma {:induction false} FreeAllRestores(bs: seq<Block>, ps: seq<nat>)
    requires Inv(bs) && AllLive(bs, ps)
    requires forall p :: IsLive(bs, p) ==> p in ps
    ensures FreeEach(bs, ps) == INITIAL
    decreases |ps|
  {
    if ps == [] {
      NothingLive(bs);
    } else {
      FreeNext(bs, ps);
      var r := Free(bs, ps[0]);
      forall p | IsLive(r, p) ensures p in ps[1..] {
        FreeLive(bs, ps[0], p);
      }
      FreeAllRestores(r, ps[1..]);
    }
  }

  // ---------------------------------------------------------------- runs

  /** The heap: its block list and the bytes of its arena. */
  datatype Heap = Heap(bs: seq<Block>, mem: seq<byte>)

  /** The calls a client makes, and its own store of one byte into a block it holds. */
  datatype Op =
    | MallocOp(size: u32)
    | FreeOp(p: nat)
    | ReallocOp(p: nat, size: u32)
    | StoreOp(p: nat, k: nat, v: byte)

  ghost predicate SamePayload(b: Block, m: seq<byte>, m': seq<byte>) {
    b.End() <= |m| && b.End() <= |m'| ==> forall x :: b.Payload() <= x < b.End() ==> m'[x] == m[x]
  }

  /** m' has every byte of every live payload of bs as m had it. */
  ghost predicate Kept(bs: seq<Block>, m: seq<byte>, m': seq<byte>) {
    && |m| == |m'|
    && forall b: Block :: b in bs && b.used ==> SamePayload(b, m, m')
  }

  ghost predicate MallocStep(s: Heap, size: u32, r: Outcome, s': Heap) {
    (s'.bs, r) == Malloc(s.bs, size) && Kept(s.bs, s.mem, s'.mem)
  }

  ghost predicate FreeStep(s: Heap, p: nat, s': Heap) {
    if InRange(p) then
      IsBlock(s.bs, p) && s'.bs == Free(s.bs, p) && Kept(Unmark(s.bs, p), s.mem, s'.mem)
    else s' == s
  }

  /** krealloc moves when the block is too small: allocate, copy, free, in that order. */
  ghost predicate MoveStep(s: Heap, p: nat, size: u32, r: Outcome, s': Heap)
    requires IsBlock(s.bs, p)
  {
    var b := s.bs[IndexOf(s.bs, p)];
    var (grown, q) := Malloc(s.bs, size);
    && r == q
    && if !q.Pointer? then s'.bs == grown && Kept(s.bs, s.mem, s'.mem)
       else
         && IsBlock(grown, p) && IsLive(grown, q.p)
         && s'.bs == Free(grown, p)
         && Kept(Unmark(s.bs, p), s.mem, s'.mem)
         && Copied(s.mem, b.Payload(), s'.mem, q.p - KHEAP_START, b.size)
  }

  /** The n bytes at src in m are the n bytes at dst in m'. */
  ghost predicate Copied(m: seq<byte>, src: nat, m': seq<byte>, dst: int, n: nat) {
    && src + n <= |m| && 0 <= dst && dst + n <= |m'|
    && forall x :: dst <= x < dst + n ==> m'[x] == m[x - dst + src]
  }

  ghost predicate ReallocStep(s: Heap, p: nat, size: u32, r: Outcome, s': Heap) {
    if p == 0 then MallocStep(s, size, r, s')
    else
      && IsLive(s.bs, p) && IsBlock(s.bs, p)
      && if size == 0 then r == Null && FreeStep(s, p, s')
         else if s.bs[IndexOf(s.bs, p)].size >= size then r == Pointer(p) && s' == s
         else MoveStep(s, p, size, r, s')
  }

  ghost predicate StoreStep(s: Heap, p: nat, k: nat, v: byte, s': Heap) {
    && IsLive(s.bs, p) && IsBlock(s.bs, p)
    && k < s.bs[IndexOf(s.bs, p)].size
    && p - KHEAP_START + k < |s.mem| && p >= KHEAP_START
    && s'.bs == s.bs && s'.mem == s.mem[p - KHEAP_START + k := v]
  }

  ghost predicate Step(s: Heap, op: Op, r: Outcome, s': Heap) {
    match op
    case MallocOp(size) => MallocStep(s, size, r, s')
    case FreeOp(p) => r == Null && FreeStep(s, p, s')
    case ReallocOp(p, size) => ReallocStep(s, p, size, r, s')
    case StoreOp(p, k, v) => r == Null && StoreStep(s, p, k, v, s')
  }

  ghost predicate Run(ss: seq<Heap>, ops: seq<Op>, rs: seq<Outcome>) {
    && |ss| == |ops| + 1 && |rs| == |ops|
    && forall i :: 0 <= i < |ops| ==> Step(ss[i], ops[i], rs[i], ss[i + 1])
  }

  ghost predicate Good(s: Heap) {
    Inv(s.bs) && |s.mem| == KHEAP_INITIAL_SIZE
  }

  lemma MallocInv(bs: seq<Block>, size: u32)
    requires Inv(bs)
    ensures Inv(Malloc(bs, size).0)
    ensures forall b: Block :: b.used && b in bs ==> b in Malloc(bs, size).0
  {
    var n := Max(size, MIN_SIZE);
    var k := FirstFit(bs, 0, n);
    if k < |bs| {
      CarveInv(bs, k, n);
      forall b: Block | b.used && b in bs ensures b in Carve(bs, k, n) { CarveLive(bs, k, n, b); }
    }
  }

  /** The block kmalloc hands out is live afterwards, with at most 16 bytes of slack, and
      was not live before. */
  lemma MallocFresh(bs: seq<Block>, size: u32)
    requires Inv(bs) && Malloc(bs, size).1.Pointer?
    ensures var (r, q) := Malloc(bs, size);
            && IsLive(r, q.p) && IsBlock(r, q.p) && !IsLive(bs, q.p)
            && Max(size, 4) <= r[IndexOf(r, q.p)].size <= Max(size, 4) + 16
  {
    var n := Max(size, MIN_SIZE);
    var k := FirstFit(bs, 0, n);
    var (r, q) := Malloc(bs, size);
    CarveInv(bs, k, n);
    assert r[k].Pointer() == q.p && r[k].used;
    PointerUnique(r, IndexOf(r, q.p), k);
    if IsLive(bs, q.p) {
      var j :| 0 <= j < |bs| && bs[j].Pointer() == q.p && bs[j].used;
      PointerUnique(bs, j, k);
    }
  }

  /** A live block that an operation neither frees nor moves stays in the list as it is. */
  ghost predicate Leaves(op: Op, p: nat) {
    match op
    case FreeOp(q) => q != p
    case ReallocOp(q, _) => q != p
    case _ => true
  }

  lemma MoveInv(s: Heap, p: nat, size: u32, r: Outcome, s': Heap)
    requires Good(s) && p != 0 && IsLive(s.bs, p) && IsBlock(s.bs, p) && MoveStep(s, p, size, r, s')
    ensures Inv(s'.bs)
    ensures forall b: Block :: b.used && b in s.bs && b.Pointer() != p ==> b in s'.bs
  {
    var grown := Malloc(s.bs, size).0;
    MallocInv(s.bs, size);
    if r.Pointer? { FreeInv(grown, p); }
  }

  /** Every step keeps the list tiled and canonical. */
  lemma StepInv(s: Heap, op: Op, r: Outcome, s': Heap)
    requires Good(s) && Step(s, op, r, s')
    ensures Good(s')
  {
    match op
    case MallocOp(size) => MallocInv(s.bs, size);
    case FreeOp(p) => if InRange(p) { FreeInv(s.bs, p); }
    case StoreOp(p, k, v) =>
    case ReallocOp(p, size) =>
      if p == 0 { MallocInv(s.bs, size); }
      else if size == 0 { LiveInRange(s.bs, p); FreeInv(s.bs, p); }
      else if s.bs[IndexOf(s.bs, p)].size < size { MoveInv(s, p, size, r, s'); }
  }

  lemma UnmarkKeeps(bs: seq<Block>, p: nat, b: Block)
    requires IsBlock(bs, p) && b in bs && b.Pointer() != p
    ensures b in Unmark(bs, p)
  {
    var j :| 0 <= j < |bs| && bs[j] == b;
    assert Unmark(bs, p)[j] == b;
  }

  /** A block left alone by a step stays live, and keeps its payload but for the client's own
      store into it. */
  lemma StepKeeps(s: Heap, op: Op, r: Outcome, s': Heap, b: Block)
    requires Good(s) && Step(s, op, r, s') && b in s.bs && b.used && Leaves(op, b.Pointer())
    ensures b in s'.bs
    ensures !op.StoreOp? ==> SamePayload(b, s.mem, s'.mem)
  {
    TilesOrdered(s.bs, 0, KHEAP_INITIAL_SIZE);
    match op
    case MallocOp(size) => MallocInv(s.bs, size);
    case StoreOp(p, k, v) =>
    case FreeOp(p) => if InRange(p) { FreeInv(s.bs, p); UnmarkKeeps(s.bs, p, b); }
    case ReallocOp(p, size) =>
      if p == 0 { MallocInv(s.bs, size); }
      else {
        UnmarkKeeps(s.bs, p, b);
        if size == 0 { LiveInRange(s.bs, p); FreeInv(s.bs, p); }
        else if s.bs[IndexOf(s.bs, p)].size < size { MoveInv(s, p, size, r, s'); }
      }
  }

  /** In every run from a good heap, every heap is good: the blocks tile the arena exactly
      and no two neighbours are free. */
  lemma {:induction false} RunInv(ss: seq<Heap>, ops: seq<Op>, rs: seq<Outcome>, i: nat)
    requires Run(ss, ops, rs) && Good(ss[0]) && i < |ss|
    ensures Good(ss[i]) && Extent(ss[i].bs) == 0x10_0000
  {
    if i > 0 {
      RunInv(ss, ops, rs, i - 1);
      StepInv(ss[i - 1], ops[i - 1], rs[i - 1], ss[i]);
    }
    TilesExtent(ss[i].bs, 0, KHEAP_INITIAL_SIZE);
  }

  /** One byte of a block left alone by a step: only its owner's store to it changes it. */
  lemma StepKeepsByte(s: Heap, op: Op, r: Outcome, s': Heap, b: Block, x: nat)
    requires Good(s) && Step(s, op, r, s') && b in s.bs && b.used && Leaves(op, b.Pointer())
    requires b.Payload() <= x < b.End()
    ensures x < |s.mem| == |s'.mem|
    ensures !(op.StoreOp? && op.p + op.k == 0xC000_0000 + x) ==> s'.mem[x] == s.mem[x]
  {
    StepKeeps(s, op, r, s', b);
    StepInv(s, op, r, s');
    TilesOrdered(s.bs, 0, KHEAP_INITIAL_SIZE);
  }

  /** Data integrity over every run: a block that stays unfreed from i to j is the same block
      at j, and each of its bytes that its owner did not store is unchanged. */
  lemma {:induction false} RunKeeps(ss: seq<Heap>, ops: seq<Op>, rs: seq<Outcome>, i: nat, j: nat, b: Block, x: nat)
    requires Run(ss, ops, rs) && Good(ss[0]) && i <= j < |ss|
    requires b in ss[i].bs && b.used && b.Payload() <= x < b.End()
    requires forall k :: i <= k < j ==> Leaves(ops[k], b.Pointer())
    ensures b in ss[j].bs
    ensures x < |ss[i].mem| == |ss[j].mem|
    ensures (forall k :: i <= k < j && ops[k].StoreOp? ==> ops[k].p + ops[k].k != 0xC000_0000 + x) ==>
              ss[j].mem[x] == ss[i].mem[x]
    decreases j - i
  {
    RunInv(ss, ops, rs, i);
    TilesOrdered(ss[i].bs, 0, KHEAP_INITIAL_SIZE);
    if i < j {
      StepKeeps(ss[i], ops[i], rs[i], ss[i + 1], b);
      StepKeepsByte(ss[i], ops[i], rs[i], ss[i + 1], b, x);
      RunKeeps(ss, ops, rs, i + 1, j, b, x);
    }
  }

  /** What krealloc hands out is live and big enough. Its slack is at most 16 bytes exactly
      when the block had to move or was no more than 16 bytes too big already: shrinking in
      place gives nothing back. */
  lemma ReallocResult(s: Heap, p: nat, size: u32, r: Outcome, s': Heap)
    requires Good(s) && p != 0 && ReallocStep(s, p, size, r, s') && r.Pointer?
    ensures IsLive(s'.bs, r.p) && IsBlock(s'.bs, r.p) && size > 0
    ensures var was, now := s.bs[IndexOf(s.bs, p)].size, s'.bs[IndexOf(s'.bs, r.p)].size;
            && size <= now
            && (r.p == p <==> size <= was)
            && (now <= Max(size, 4) + 16 <==> r.p != p || was <= Max(size, 4) + 16)
  {
    var b := s.bs[IndexOf(s.bs, p)];
    if b.size < size {
      var grown := Malloc(s.bs, size).0;
      MallocInv(s.bs, size);
      MallocFresh(s.bs, size);
      FreeInv(grown, p);
      var c := grown[IndexOf(grown, r.p)];
      LiveAt(grown, r.p);
      assert c in s'.bs;
      var j :| 0 <= j < |s'.bs| && s'.bs[j] == c;
      MoveInv(s, p, size, r, s');
      PointerUnique(s'.bs, j, IndexOf(s'.bs, r.p));
    }
  }

  lemma LiveAt(bs: seq<Block>, p: nat)
    requires Shaped(bs) && IsLive(bs, p)
    ensures IsBlock(bs, p) && bs[IndexOf(bs, p)].used
  {
    var j :| 0 <= j < |bs| && bs[j].Pointer() == p && bs[j].used;
    PointerUnique(bs, j, IndexOf(bs, p));
  }

  /** krealloc of 1000 bytes to 4 leaves the block as big as it is. */
  lemma ShrinkExample(mem: seq<byte>)
    requires |mem| == KHEAP_INITIAL_SIZE
    ensures var (bs, r) := Malloc(INITIAL, 1000);
            && r.Pointer? && IsLive(bs, r.p) && IsBlock(bs, r.p)
            && ReallocStep(Heap(bs, mem), r.p, 4, r, Heap(bs, mem))
            && bs[IndexOf(bs, r.p)].size == 1000 > 4 + 16
  {
    var (bs, r) := Malloc(INITIAL, 1000);
    assert FirstFit(INITIAL, 0, 1000) == 0;
    assert bs[0] == Block(0, 1000, true) && bs[0].Pointer() == r.p;
  }

  // ---------------------------------------------------------------- what the calls return

  /** kmalloc returns the lowest of the free blocks that hold max(size, 4) bytes. */
  lemma MallocLowest(bs: seq<Block>, size: u32)
    requires Inv(bs) && Malloc(bs, size).1.Pointer?
    ensures var p := Malloc(bs, size).1.p;
            && (exists b :: b in bs && !b.used && b.size >= Max(size, 4) && 0xC000_0000 + b.addr + 12 == p)
            && forall b :: b in bs && !b.used && b.size >= Max(size, 4) ==> p <= 0xC000_0000 + b.addr + 12
  {
    var k := FirstFit(bs, 0, Max(size, MIN_SIZE));
    assert bs[k] in bs;
    forall b | b in bs && !b.used && b.size >= Max(size, 4) ensures bs[k].addr <= b.addr {
      var j :| 0 <= j < |bs| && bs[j] == b;
      if j != k { InOrder(bs, k, j); }
    }
  }

  lemma InOrder(bs: seq<Block>, k: nat, j: nat)
    requires Shaped(bs) && k < j < |bs|
    ensures bs[k].addr < bs[j].addr
  {
    TilesOrdered(bs, 0, KHEAP_INITIAL_SIZE);
  }

  /** kfree of a pointer outside the heap's megabyte does nothing; one inside it must be a block's. */
  lemma FreeOutside(s: Heap, p: nat, r: Outcome, s': Heap)
    ensures !(0xC000_0000 <= p < 0xC010_0000) ==> (Step(s, FreeOp(p), r, s') <==> r == Null && s' == s)
    ensures 0xC000_0000 <= p < 0xC010_0000 && Step(s, FreeOp(p), r, s') && Good(s) ==>
              exists b :: b in s.bs && 0xC000_0000 + b.addr + 12 == p
  {
    if 0xC000_0000 <= p < 0xC010_0000 && Step(s, FreeOp(p), r, s') {
      var i :| 0 <= i < |s.bs| && s.bs[i].Pointer() == p;
      assert s.bs[i] in s.bs;
    }
  }

  /** krealloc of NULL is kmalloc. */
  lemma ReallocNull(s: Heap, size: u32, r: Outcome, s': Heap)
    ensures Step(s, ReallocOp(0, size), r, s') <==> Step(s, MallocOp(size), r, s')
  {
  }

  /** krealloc to no bytes frees the block, and only it. */
  lemma ReallocZero(s: Heap, p: nat, r: Outcome, s': Heap, q: nat)
    requires Good(s) && p != 0 && Step(s, ReallocOp(p, 0), r, s')
    ensures r == Null && (IsLive(s'.bs, q) <==> IsLive(s.bs, q) && q != p)
  {
    LiveInRange(s.bs, p);
    FreeLive(s.bs, p, q);
  }

  /** krealloc, moved or not, hands out a block that starts with the old block's bytes, as many as
      fit; and when it moved the old block is live no more. */
  lemma ReallocBytes(s: Heap, p: nat, size: u32, r: Outcome, s': Heap, k: nat)
    requires Good(s) && p != 0 && size > 0 && Step(s, ReallocOp(p, size), r, s') && r.Pointer?
    requires IsBlock(s.bs, p) && k < s.bs[IndexOf(s.bs, p)].size
    ensures 0 <= p - 0xC000_0000 && p - 0xC000_0000 + k < |s.mem|
    ensures 0 <= r.p - 0xC000_0000 && r.p - 0xC000_0000 + k < |s'.mem|
    ensures s'.mem[r.p - 0xC000_0000 + k] == s.mem[p - 0xC000_0000 + k]
    ensures r.p != p ==> !IsLive(s'.bs, p)
  {
    hide Kept, Malloc, Free, IsLive, Inv, Tiles;
    var b := s.bs[IndexOf(s.bs, p)];
    BlockInside(s, p);
    if b.size < size { MoveCopies(s, p, size, r, s', k); }
  }

  lemma BlockInside(s: Heap, p: nat)
    requires Good(s) && IsBlock(s.bs, p)
    ensures var b := s.bs[IndexOf(s.bs, p)]; p == 0xC000_0000 + b.Payload() && b.End() <= |s.mem|
  {
    Within(s.bs, IndexOf(s.bs, p));
  }

  lemma MoveCopies(s: Heap, p: nat, size: u32, r: Outcome, s': Heap, k: nat)
    requires Good(s) && IsLive(s.bs, p) && IsBlock(s.bs, p) && MoveStep(s, p, size, r, s') && r.Pointer?
    requires k < s.bs[IndexOf(s.bs, p)].size
    ensures 0 <= r.p - 0xC000_0000 && r.p - 0xC000_0000 + k < |s'.mem|
    ensures p >= 0xC000_0000 && p - 0xC000_0000 + k < |s.mem|
    ensures s'.mem[r.p - 0xC000_0000 + k] == s.mem[p - 0xC000_0000 + k]
    ensures !IsLive(s'.bs, p)
  {
    hide Kept, Malloc;
    BlockInside(s, p);
    var grown := Malloc(s.bs, size).0;
    MallocInv(s.bs, size);
    LiveKept(s.bs, grown, p);
    FreeLive(grown, p, p);
    CopiedByte(s, s', s.bs[IndexOf(s.bs, p)], r.p, k);
  }

  lemma CopiedByte(s: Heap, s': Heap, b: Block, q: nat, k: nat)
    requires Copied(s.mem, b.Payload(), s'.mem, q - 0xC000_0000, b.size) && k < b.size
    ensures 0 <= q - 0xC000_0000 && q - 0xC000_0000 + k < |s'.mem| && b.Payload() + k < |s.mem|
    ensures s'.mem[q - 0xC000_0000 + k] == s.mem[b.Payload() + k]
  {
  }

  lemma LiveKept(bs: seq<Block>, bs': seq<Block>, p: nat)
    requires IsLive(bs, p) && forall b: Block :: b.used && b in bs ==> b in bs'
    ensures IsLive(bs', p)
  {
    var i :| 0 <= i < |bs| && bs[i].Pointer() == p && bs[i].used;
    var j :| 0 <= j < |bs'| && bs'[j] == bs[i];
  }

  // ---------------------------------------------------------------- slack over runs

  /** The size a call asks for. */
  function SizeOf(op: Op): nat {
    match op case MallocOp(n) => n case ReallocOp(_, n) => n case _ => 0
  }

  /** The size last asked for the block at p before state j: by the last call that returned p. */
  function Asked(ops: seq<Op>, rs: seq<Outcome>, p: nat, j: nat): nat
    requires j <= |ops| == |rs|
  {
    if j == 0 then 0
    else if rs[j - 1] == Pointer(p) then SizeOf(ops[j - 1])
    else Asked(ops, rs, p, j - 1)
  }

  /** The size the block at p was handed out for: by the last call that returned p without having
      been given it. */
  function Given(ops: seq<Op>, rs: seq<Outcome>, p: nat, j: nat): nat
    requires j <= |ops| == |rs|
  {
    if j == 0 then 0
    else if rs[j - 1] == Pointer(p) && !(ops[j - 1].ReallocOp? && ops[j - 1].p == p) then SizeOf(ops[j - 1])
    else Given(ops, rs, p, j - 1)
  }

  /** The last call that returned p was a krealloc of p itself. */
  predicate InPlace(ops: seq<Op>, rs: seq<Outcome>, p: nat, j: nat)
    requires j <= |ops| == |rs|
  {
    if j == 0 then false
    else if rs[j - 1] == Pointer(p) then ops[j - 1].ReallocOp? && ops[j - 1].p == p
    else InPlace(ops, rs, p, j - 1)
  }

  ghost predicate Snug(b: Block, n: nat) { Max(n, 4) <= b.size <= Max(n, 4) + 16 }

  /** A live block after a step was there before, or is the one the step returned. */
  ghost predicate Arrives(s: Heap, op: Op, r: Outcome, b: Block) {
    if b in s.bs then
      r == Pointer(b.Pointer()) ==> op.ReallocOp? && op.p == b.Pointer() && op.size <= b.size
    else
      r == Pointer(b.Pointer()) && !(op.ReallocOp? && op.p == b.Pointer()) && Snug(b, SizeOf(op))
  }

  lemma MallocArrives(bs: seq<Block>, size: u32, b: Block)
    requires Inv(bs) && b.used && b in Malloc(bs, size).0
    ensures var r := Malloc(bs, size).1;
            if b in bs then r != Pointer(b.Pointer()) else r == Pointer(b.Pointer()) && Snug(b, size)
  {
    var n := Max(size, MIN_SIZE);
    var k := FirstFit(bs, 0, n);
    if k < |bs| {
      CarveLive(bs, k, n, b);
      if b in bs {
        var j :| 0 <= j < |bs| && bs[j] == b;
        assert bs[j].Pointer() == bs[k].Pointer() ==> j == k by {
          if bs[j].Pointer() == bs[k].Pointer() { PointerUnique(bs, j, k); }
        }
      }
    }
  }

  lemma MoveArrives(s: Heap, p: nat, size: u32, r: Outcome, s': Heap, b: Block)
    requires Good(s) && p != 0 && IsLive(s.bs, p) && IsBlock(s.bs, p) && MoveStep(s, p, size, r, s')
    requires b in s'.bs && b.used
    ensures if b in s.bs then r != Pointer(b.Pointer())
            else r == Pointer(b.Pointer()) && b.Pointer() != p && Snug(b, size)
  {
    var grown := Malloc(s.bs, size).0;
    MallocInv(s.bs, size);
    LiveInRange(s.bs, p);
    if r.Pointer? { FreeInv(grown, p); }
    assert b in grown;
    MallocArrives(s.bs, size, b);
  }

  lemma StepArrives(s: Heap, op: Op, r: Outcome, s': Heap, b: Block)
    requires Good(s) && Step(s, op, r, s') && b in s'.bs && b.used
    ensures Arrives(s, op, r, b)
  {
    match op
    case MallocOp(size) => MallocArrives(s.bs, size, b);
    case StoreOp(p, k, v) =>
    case FreeOp(p) => if InRange(p) { FreeInv(s.bs, p); }
    case ReallocOp(p, size) =>
      if p == 0 {
        MallocArrives(s.bs, size, b);
        assert b.Pointer() != 0;
      }
      else if size == 0 { LiveInRange(s.bs, p); FreeInv(s.bs, p); }
      else if s.bs[IndexOf(s.bs, p)].size < size { MoveArrives(s, p, size, r, s', b); }
      else { InPlaceFits(s.bs, p, b); }
  }

  lemma InPlaceFits(bs: seq<Block>, p: nat, b: Block)
    requires Shaped(bs) && IsBlock(bs, p) && b in bs
    ensures b.Pointer() == p ==> b == bs[IndexOf(bs, p)]
  {
    var j :| 0 <= j < |bs| && bs[j] == b;
    if b.Pointer() == p { PointerUnique(bs, j, IndexOf(bs, p)); }
  }

  /** Slack over every run from the fresh heap: a live block has 0 to 16 bytes more than it was
      handed out for, and at least what was last asked for it. Over that, it has more than 16 only
      after a krealloc in place for less, and always after one for less by more than 16. */
  lemma RunSlack(ss: seq<Heap>, ops: seq<Op>, rs: seq<Outcome>, j: nat, b: Block)
    requires Run(ss, ops, rs) && Good(ss[0]) && ss[0].bs == INITIAL
    requires j < |ss| && b in ss[j].bs && b.used
    ensures var p := b.Pointer();
            var (given, asked) := (Max(Given(ops, rs, p, j), 4), Max(Asked(ops, rs, p, j), 4));
            && given <= b.size <= given + 16 && asked <= b.size
            && (b.size > asked + 16 ==> InPlace(ops, rs, p, j) && asked < given)
            && (asked + 16 < given ==> b.size > asked + 16)
  {
    RunGives(ss, ops, rs, j, b);
  }

  lemma {:induction false} RunGives(ss: seq<Heap>, ops: seq<Op>, rs: seq<Outcome>, j: nat, b: Block)
    requires Run(ss, ops, rs) && Good(ss[0]) && ss[0].bs == INITIAL
    requires j < |ss| && b in ss[j].bs && b.used
    ensures Snug(b, Given(ops, rs, b.Pointer(), j)) && Max(Asked(ops, rs, b.Pointer(), j), 4) <= b.size
    ensures !InPlace(ops, rs, b.Pointer(), j) ==>
              Asked(ops, rs, b.Pointer(), j) == Given(ops, rs, b.Pointer(), j)
  {
    if j > 0 {
      RunInv(ss, ops, rs, j - 1);
      StepArrives(ss[j - 1], ops[j - 1], rs[j - 1], ss[j], b);
      if b in ss[j - 1].bs { RunGives(ss, ops, rs, j - 1, b); }
    }
  }
}
