/**
  The block allocator of kernel/pmm.c: a search that skips full words, and the count of used
  blocks that bounds it.
 */
module BlockModel {
  import opened CTypes
  import opened Bits

  const PAGE_SIZE: nat := 4096

  /** The bits of the bitmap, the number of blocks there are, and the number counted as used.
      The last word may have bits for blocks that do not exist. */
  datatype Blocks = Blocks(bits: seq<bool>, max: u32, used: u32)

  /** The count is the number of set bits among the blocks there are. */
  ghost predicate Exact(s: Blocks) { s.max <= |s.bits| && s.used == Count(s.bits[..s.max], true) }

  function Lowest(bits: seq<bool>): nat { FirstClear(bits, 0, |bits|) }

  /** pmm_alloc. */
  function Alloc(s: Blocks): (Blocks, u32) {
    if s.used >= s.max then (s, 0)
    else
      var b := Lowest(s.bits);
      if b == |s.bits| then (s, 0)
      else (s.(bits := s.bits[b := true], used := Wrap32(s.used + 1)), Wrap32(b * PAGE_SIZE))
  }

  /** pmm_free. */
  function Free(s: Blocks, addr: u32): Blocks
    requires s.max <= |s.bits|
  {
    var b := addr / PAGE_SIZE;
    if b >= s.max || !s.bits[b] then s
    else s.(bits := s.bits[b := false], used := Wrap32(s.used - 1))
  }

  /** With fewer used blocks than there are, the lowest clear bit is that of a block there is,
      even when the bitmap goes on past it. */
  lemma Pigeonhole(s: Blocks)
    requires Exact(s)
    ensures s.used < s.max <==> Lowest(s.bits) < s.max
    ensures Lowest(s.bits) == |s.bits| || !s.bits[Lowest(s.bits)]
    ensures forall b :: 0 <= b < Lowest(s.bits) ==> s.bits[b]
  {
    CountAll(s.bits[..s.max], true);
    var b := Lowest(s.bits);
    if b < s.max { assert !s.bits[..s.max][b]; }
  }

  lemma {:induction false} CountBelow(bits: seq<bool>, n: nat, k: nat, x: bool)
    requires n <= |bits| && k < n && bits[k] != x
    ensures Count(bits[k := x][..n], true) == Count(bits[..n], true) + if x then 1 else -1
  {
    assert bits[k := x][..n] == bits[..n][k := x];
    CountUpdate(bits[..n], k, x);
  }

  /** An allocation takes the lowest clear block, which is one there is, and only that; it fails
      exactly when the count has reached the number of blocks. */
  lemma AllocIs(s: Blocks)
    requires Exact(s)
    ensures var (r, addr) := Alloc(s);
            && Exact(r) && r.max == s.max
            && (s.used == s.max ==> r == s && addr == 0)
            && (s.used < s.max ==>
                  && Lowest(s.bits) < s.max && r.bits == s.bits[Lowest(s.bits) := true]
                  && r.used == s.used + 1 && addr == Wrap32(Lowest(s.bits) * 4096))
  {
    Pigeonhole(s);
    if s.used < s.max { CountBelow(s.bits, s.max, Lowest(s.bits), true); }
  }

  /** The null pointer says too little: it comes back exactly when no block is free or block 0
      is the lowest free one and has been taken. */
  lemma NullIff(s: Blocks)
    requires Exact(s) && s.max * 4096 <= 0x1_0000_0000
    ensures Alloc(s).1 == 0 <==> s.used == s.max || Lowest(s.bits) == 0
  {
    AllocIs(s);
  }

  /** One block, free: it is handed out, and its address says there is none. */
  lemma NullExample()
    ensures var s := Blocks([false], 1, 0);
            Exact(s) && s.used < s.max && Alloc(s) == (Blocks([true], 1, 1), 0)
  {
    assert [false][..1] == [false];
    assert [false][0 := true] == [true];
  }

  lemma FreeIs(s: Blocks, addr: u32)
    requires Exact(s)
    ensures var r := Free(s, addr); var b := addr / 4096;
            && Exact(r) && r.max == s.max
            && (r != s <==> b < s.max && s.bits[b])
            && (r != s ==> r.bits == s.bits[b := false] && r.used == s.used - 1)
  {
    var b := addr / PAGE_SIZE;
    if b < s.max && s.bits[b] {
      assert s.bits[..s.max][b];
      CountAll(s.bits[..s.max], true);
      CountBelow(s.bits, s.max, b, false);
    }
  }

  /** Freeing what was just allocated undoes the allocation. */
  lemma FreeUndoes(s: Blocks)
    requires Exact(s) && s.used < s.max && s.max * 4096 <= 0x1_0000_0000
    ensures Free(Alloc(s).0, Alloc(s).1) == s
  {
    AllocIs(s);
    var b := Lowest(s.bits);
    FreeIs(Alloc(s).0, Alloc(s).1);
    assert s.bits[b := true][b := false] == s.bits;
  }

  datatype Op = AllocOp | FreeOp(addr: u32)

  function Step(s: Blocks, op: Op): Blocks
    requires s.max <= |s.bits|
  {
    match op case AllocOp => Alloc(s).0 case FreeOp(addr) => Free(s, addr)
  }

  ghost predicate Follows(ss: seq<Blocks>, ops: seq<Op>, i: nat)
    requires i + 1 < |ss| && i < |ops|
  {
    ss[i].max <= |ss[i].bits| && ss[i + 1] == Step(ss[i], ops[i])
  }

  ghost predicate Run(ss: seq<Blocks>, ops: seq<Op>) {
    |ss| == |ops| + 1 && forall i :: 0 <= i < |ops| ==> Follows(ss, ops, i)
  }

  /** Whatever is allocated and whatever addresses are freed, the count stays exact and the bits
      past the last block stay as they were. */
  lemma {:induction false} RunExact(ss: seq<Blocks>, ops: seq<Op>, i: nat)
    requires Run(ss, ops) && Exact(ss[0]) && i < |ss|
    ensures Exact(ss[i]) && ss[i].max == ss[0].max && |ss[i].bits| == |ss[0].bits|
    ensures ss[i].bits[ss[0].max..] == ss[0].bits[ss[0].max..]
  {
    if i > 0 {
      RunExact(ss, ops, i - 1);
      assert Follows(ss, ops, i - 1);
      match ops[i - 1]
      case AllocOp => AllocIs(ss[i - 1]);
      case FreeOp(addr) => FreeIs(ss[i - 1], addr);
    }
  }
}
