/**
  The kernel heap as the kernel runs it: block headers stored as bytes in the arena they
  describe, walked and rewritten in place (kernel/kheap.c). Every method is proved to be a
  step of KHeapModel.
 */
module KHeap {
  import opened CTypes
  import opened KHeapModel

  /** The next field of block i: the next block's address, or NULL for the last one. */
  ghost function NextField(bs: seq<Block>, i: nat): nat
    requires i < |bs|
  {
    if i + 1 < |bs| then KHEAP_START + bs[i + 1].addr else 0
  }

  /** The 12 bytes at block i's offset hold its next, size and used fields. */
  ghost predicate HeaderAt(m: seq<byte>, bs: seq<Block>, i: nat)
    requires i < |bs|
  {
    var a := bs[i].addr;
    && a + HEADER <= |m|
    && Load32(m, a) == NextField(bs, i)
    && Load32(m, a + 4) == bs[i].size
    && (m[a + 8] != 0 <==> bs[i].used)
  }

  ghost predicate HeadersOk(m: seq<byte>, bs: seq<Block>) {
    forall i :: 0 <= i < |bs| ==> HeaderAt(m, bs, i)
  }

  /** m and m' agree outside the 12 bytes at a and the 12 bytes at b. */
  ghost predicate SameBut(m: seq<byte>, m': seq<byte>, a: nat, b: nat) {
    && |m| == |m'|
    && forall x :: 0 <= x < |m| && !(a <= x < a + HEADER) && !(b <= x < b + HEADER) ==> m'[x] == m[x]
  }

  /** m' is m with the header at a holding next, size and used, or some of them, anew. */
  ghost predicate Header(m: seq<byte>, a: nat, next: nat, size: nat, used: bool) {
    && a + HEADER <= |m|
    && Load32(m, a) == next && Load32(m, a + 4) == size && (m[a + 8] != 0 <==> used)
  }

  /** A header outside both rewritten places reads as before. */
  lemma HeaderSame(m: seq<byte>, m': seq<byte>, a: nat, b: nat, c: nat, next: nat, size: nat, used: bool)
    requires SameBut(m, m', a, b) && Header(m, c, next, size, used)
    requires c + HEADER <= a || a + HEADER <= c
    requires c + HEADER <= b || b + HEADER <= c
    ensures Header(m', c, next, size, used)
  {
    LoadSame(m, m', c, 4);
    LoadSame(m, m', c + 4, 4);
  }

  lemma HeaderFrame(m: seq<byte>, m': seq<byte>, bs: seq<Block>, i: nat, bs': seq<Block>, i': nat, a: nat, b: nat)
    requires SameBut(m, m', a, b)
    requires i < |bs| && i' < |bs'| && HeaderAt(m, bs, i)
    requires bs'[i'] == bs[i] && NextField(bs', i') == NextField(bs, i)
    requires bs[i].End() <= a || a + HEADER <= bs[i].addr
    requires bs[i].End() <= b || b + HEADER <= bs[i].addr
    ensures HeaderAt(m', bs', i')
  {
    HeaderSame(m, m', a, b, bs[i].addr, NextField(bs, i), bs[i].size, bs[i].used);
  }

  /** A header rewritten inside a free block, or in a header, touches no live payload. */
  lemma KeptOutside(m: seq<byte>, m': seq<byte>, bs: seq<Block>, k: nat, a: nat, b: nat)
    requires Shaped(bs) && SameBut(m, m', a, b) && k < |bs|
    requires a == bs[k].addr && (b == a || (!bs[k].used && a + HEADER <= b && b + HEADER <= bs[k].End()))
    ensures Kept(bs, m, m')
  {
    TilesOrdered(bs, 0, KHEAP_INITIAL_SIZE);
    forall c: Block | c in bs && c.used ensures SamePayload(c, m, m') {
      var i :| 0 <= i < |bs| && bs[i] == c;
    }
  }

  /** Where the found branch of kmalloc puts the header of the split-off rest, if any. */
  ghost function RestAt(b: Block, n: nat): nat {
    if b.size > n + HEADER + 4 then b.addr + HEADER + n else b.addr
  }

  /** What the found branch of kmalloc does to the arena. */
  ghost predicate Taken(m: seq<byte>, m': seq<byte>, b: Block, next: nat, n: nat) {
    && SameBut(m, m', b.addr, RestAt(b, n))
    && if b.size > n + HEADER + 4 then
         && Header(m', b.addr, KHEAP_START + RestAt(b, n), n, true)
         && Header(m', RestAt(b, n), next, b.size - n - HEADER, false)
       else Header(m', b.addr, next, b.size, true)
  }

  lemma TakenHeaders(m: seq<byte>, m': seq<byte>, bs: seq<Block>, k: nat, n: nat)
    requires Inv(bs) && HeadersOk(m, bs)
    requires k < |bs| && !bs[k].used && bs[k].size >= n >= MIN_SIZE
    requires Taken(m, m', bs[k], NextField(bs, k), n)
    ensures Kept(bs, m, m')
    ensures HeadersOk(m', Carve(bs, k, n))
  {
    KeptOutside(m, m', bs, k, bs[k].addr, RestAt(bs[k], n));
    forall i | 0 <= i < |Carve(bs, k, n)| ensures HeaderAt(m', Carve(bs, k, n), i) {
      if bs[k].size > n + HEADER + 4 { SplitHeader(m, m', bs, k, n, i); }
      else { WholeHeader(m, m', bs, k, n, i); }
    }
  }

  lemma SplitAt(bs: seq<Block>, k: nat, n: nat, i: nat)
    requires k < |bs| && bs[k].size > n + HEADER + 4 && i < |bs| + 1
    ensures var r := Carve(bs, k, n);
            && |r| == |bs| + 1
            && (i < k ==> r[i] == bs[i] && NextField(r, i) == NextField(bs, i))
            && (i > k + 1 ==> r[i] == bs[i - 1] && NextField(r, i) == NextField(bs, i - 1))
            && (i == k ==> r[i] == Block(bs[k].addr, n, true) && NextField(r, i) == KHEAP_START + RestAt(bs[k], n))
            && (i == k + 1 ==>
                  && r[i] == Block(RestAt(bs[k], n), bs[k].size - n - HEADER, false)
                  && NextField(r, i) == NextField(bs, k))
  {
  }

  lemma SplitHeader(m: seq<byte>, m': seq<byte>, bs: seq<Block>, k: nat, n: nat, i: nat)
    requires Shaped(bs) && HeadersOk(m, bs)
    requires k < |bs| && !bs[k].used && bs[k].size > n + HEADER + 4
    requires Taken(m, m', bs[k], NextField(bs, k), n) && i < |Carve(bs, k, n)|
    ensures HeaderAt(m', Carve(bs, k, n), i)
  {
    SplitAt(bs, k, n, i);
    if i < k || i > k + 1 {
      var j := if i < k then i else i - 1;
      Disjoint(bs, k, j);
      HeaderFrame(m, m', bs, j, Carve(bs, k, n), i, bs[k].addr, RestAt(bs[k], n));
    }
  }

  lemma WholeHeader(m: seq<byte>, m': seq<byte>, bs: seq<Block>, k: nat, n: nat, i: nat)
    requires Shaped(bs) && HeadersOk(m, bs)
    requires k < |bs| && !bs[k].used && n <= bs[k].size <= n + HEADER + 4
    requires Taken(m, m', bs[k], NextField(bs, k), n) && i < |bs|
    ensures HeaderAt(m', Carve(bs, k, n), i)
  {
    if i != k {
      Disjoint(bs, k, i);
      HeaderFrame(m, m', bs, i, Carve(bs, k, n), i, bs[k].addr, bs[k].addr);
    }
  }

  lemma UnmarkedHeaders(m: seq<byte>, m': seq<byte>, bs: seq<Block>, p: nat)
    requires Shaped(bs) && HeadersOk(m, bs) && IsBlock(bs, p)
    requires var i := IndexOf(bs, p);
             SameBut(m, m', bs[i].addr, bs[i].addr) && Header(m', bs[i].addr, NextField(bs, i), bs[i].size, false)
    ensures Kept(bs, m, m') && HeadersOk(m', Unmark(bs, p))
  {
    var k, r := IndexOf(bs, p), Unmark(bs, p);
    var a := bs[k].addr;
    KeptOutside(m, m', bs, k, a, a);
    forall i | 0 <= i < |r| && i != k ensures HeaderAt(m', r, i) {
      Disjoint(bs, k, i);
      HeaderFrame(m, m', bs, i, r, i, a, a);
    }
  }

  /** One merge of the sweep: block k swallows block k + 1. */
  ghost function MergeAt(bs: seq<Block>, k: nat): seq<Block>
    requires k + 1 < |bs|
  {
    bs[..k] + [bs[k].(size := bs[k].size + bs[k + 1].size + HEADER)] + bs[k + 2..]
  }

  lemma MergedShape(bs: seq<Block>, k: nat)
    requires Shaped(bs) && k + 1 < |bs|
    ensures Shaped(MergeAt(bs, k))
  {
    var r := MergeAt(bs, k);
    assert Meets(bs, k);
    forall i | 0 <= i < |r| - 1 ensures Meets(r, i) {
      if i >= k { assert Meets(bs, i + 1); } else { assert Meets(bs, i); }
    }
  }

  lemma MergedLive(bs: seq<Block>, k: nat, b: Block)
    requires k + 1 < |bs| && !bs[k].used && !bs[k + 1].used && b.used && b in bs
    ensures b in MergeAt(bs, k)
  {
    var i :| 0 <= i < |bs| && bs[i] == b;
    assert MergeAt(bs, k)[if i < k then i else i - 1] == b;
  }

  lemma MergedHeaders(m: seq<byte>, m': seq<byte>, bs: seq<Block>, k: nat)
    requires Shaped(bs) && HeadersOk(m, bs) && k + 1 < |bs|
    requires SameBut(m, m', bs[k].addr, bs[k].addr)
    requires Header(m', bs[k].addr, NextField(bs, k + 1), bs[k].size + bs[k + 1].size + HEADER, bs[k].used)
    ensures Kept(bs, m, m') && HeadersOk(m', MergeAt(bs, k))
  {
    var a, r := bs[k].addr, MergeAt(bs, k);
    KeptOutside(m, m', bs, k, a, a);
    forall i | 0 <= i < |r| && i != k ensures HeaderAt(m', r, i) {
      var j := if i < k then i else i + 1;
      Disjoint(bs, k, j);
      HeaderFrame(m, m', bs, j, r, i, a, a);
    }
  }

  /** The rest of the sweep once its cursor stands on block k. */
  ghost function SweepFrom(bs: seq<Block>, k: nat): seq<Block>
    decreases |bs| - k
  {
    if k + 1 >= |bs| then bs
    else if !bs[k].used && !bs[k + 1].used then SweepFrom(MergeAt(bs, k), k)
    else SweepFrom(bs, k + 1)
  }

  lemma MergedSweep(bs: seq<Block>, k: nat)
    requires k + 1 < |bs| && !bs[k].used && !bs[k + 1].used
    ensures bs[..k] + Coalesce(bs[k..]) == MergeAt(bs, k)[..k] + Coalesce(MergeAt(bs, k)[k..])
  {
    var r := MergeAt(bs, k);
    assert r[k..] == MergeFirst(bs[k..]);
    assert r[..k] == bs[..k];
  }

  lemma SkippedSweep(bs: seq<Block>, k: nat)
    requires k + 1 < |bs| && (bs[k].used || bs[k + 1].used)
    ensures bs[..k] + Coalesce(bs[k..]) == bs[..k + 1] + Coalesce(bs[k + 1..])
  {
    assert bs[k..][1..] == bs[k + 1..];
    assert bs[..k + 1] == bs[..k] + [bs[k]];
  }

  /** The cursor's sweep in place is the recursive merge of the list's tail. */
  lemma {:induction false} SweepCoalesces(bs: seq<Block>, k: nat)
    requires k < |bs|
    ensures SweepFrom(bs, k) == bs[..k] + Coalesce(bs[k..])
    decreases |bs| - k
  {
    if k + 1 == |bs| {
      assert bs == bs[..k] + bs[k..];
    } else if !bs[k].used && !bs[k + 1].used {
      MergedSweep(bs, k);
      SweepCoalesces(MergeAt(bs, k), k);
    } else {
      SkippedSweep(bs, k);
      SweepCoalesces(bs, k + 1);
    }
  }

  /** Every live block of bs0 is a block of bs. */
  ghost predicate LiveWithin(bs0: seq<Block>, bs: seq<Block>) {
    forall b: Block :: b.used && b in bs0 ==> b in bs
  }

  lemma KeptWithin(bs0: seq<Block>, bs: seq<Block>, m0: seq<byte>, m: seq<byte>, m': seq<byte>)
    requires LiveWithin(bs0, bs) && Kept(bs0, m0, m) && Kept(bs, m, m')
    ensures Kept(bs0, m0, m')
  {
    forall b: Block | b in bs0 && b.used ensures SamePayload(b, m0, m') {
      assert SamePayload(b, m0, m) && SamePayload(b, m, m');
    }
  }

  /** m' is m but for the n bytes from dst on. */
  ghost predicate SameOutside(m: seq<byte>, m': seq<byte>, dst: nat, n: nat) {
    |m| == |m'| && forall x :: 0 <= x < |m| && !(dst <= x < dst + n) ==> m'[x] == m[x]
  }

  /** A store inside one payload touches no header and no other live payload. */
  lemma PayloadStore(m: seq<byte>, m': seq<byte>, bs: seq<Block>, k: nat, dst: nat, n: nat)
    requires Shaped(bs) && HeadersOk(m, bs) && k < |bs|
    requires bs[k].Payload() <= dst && dst + n <= bs[k].End() && SameOutside(m, m', dst, n)
    ensures HeadersOk(m', bs)
  {
    forall i | 0 <= i < |bs| ensures HeaderAt(m', bs, i) {
      assert HeaderAt(m, bs, i);
      if i != k { Disjoint(bs, i, k); }
      LoadSame(m, m', bs[i].addr, 4);
      LoadSame(m, m', bs[i].addr + 4, 4);
    }
  }

  lemma PayloadKept(m: seq<byte>, m': seq<byte>, bs: seq<Block>, k: nat, b: Block, dst: nat, n: nat)
    requires Shaped(bs) && k < |bs| && b in bs && b != bs[k] && |m| == KHEAP_INITIAL_SIZE
    requires bs[k].Payload() <= dst && dst + n <= bs[k].End() && SameOutside(m, m', dst, n)
    ensures SamePayload(b, m, m')
  {
    var i :| 0 <= i < |bs| && bs[i] == b;
    Disjoint(bs, i, k);
  }

  /** The three phases of a moving krealloc, seen from the live blocks of the list before:
      r is the list with the new block k, u that list with the old block unmarked. */
  lemma MoveKeeps(bs: seq<Block>, p: nat, r: seq<Block>, k: nat, m0: seq<byte>, m1: seq<byte>, m2: seq<byte>,
      m3: seq<byte>, n: nat)
    requires Shaped(bs) && IsBlock(bs, p) && |m1| == KHEAP_INITIAL_SIZE
    requires Shaped(r) && k < |r| && IsBlock(r, p) && !IsLive(bs, r[k].Pointer()) && LiveWithin(bs, r)
    requires n <= r[k].size
    requires Kept(bs, m0, m1) && SameOutside(m1, m2, r[k].Payload(), n) && Kept(Unmark(r, p), m2, m3)
    ensures Kept(Unmark(bs, p), m0, m3)
  {
    forall b: Block | b in Unmark(bs, p) && b.used ensures SamePayload(b, m0, m3) {
      UnmarkLive(bs, p, b);
      assert b in r;
      var i :| 0 <= i < |bs| && bs[i] == b;
      assert IsLive(bs, b.Pointer());
      PayloadKept(m1, m2, r, k, b, r[k].Payload(), n);
      UnmarkKeeps(r, p, b);
      assert SamePayload(b, m0, m1) && SamePayload(b, m2, m3);
    }
  }

  /** The list r once kmalloc has given a krealloc its new block at q. */
  ghost predicate Grown(bs: seq<Block>, p: nat, r: seq<Block>, q: nat)
    requires IsBlock(bs, p)
  {
    var b := bs[IndexOf(bs, p)];
    && KHEAP_START <= q < TWO_32 && IsBlock(r, q) && !IsLive(bs, q) && q != p
    && r[IndexOf(r, q)].used && b.size < r[IndexOf(r, q)].size
    && IsBlock(r, p) && IsLive(r, p) && r[IndexOf(r, p)] == b
    && LiveWithin(bs, r)
  }

  lemma MallocGrown(bs: seq<Block>, p: nat, size: u32)
    requires Inv(bs) && IsLive(bs, p) && IsBlock(bs, p) && bs[IndexOf(bs, p)].used && bs[IndexOf(bs, p)].size < size
    requires Malloc(bs, size).1.Pointer?
    ensures Grown(bs, p, Malloc(bs, size).0, Malloc(bs, size).1.p)
  {
    var (r, q) := Malloc(bs, size);
    MallocInv(bs, size);
    MallocFresh(bs, size);
    BlockAt(r, bs[IndexOf(bs, p)], p);
    LiveAt(r, q.p);
    Within(r, IndexOf(r, q.p));
  }

  lemma CopiedKept(m0: seq<byte>, m1: seq<byte>, m2: seq<byte>, m3: seq<byte>, src: nat, dst: nat, n: nat)
    requires |m0| == |m1| && |m2| == |m3| && Copied(m1, src, m2, dst, n)
    requires forall x :: src <= x < src + n ==> m1[x] == m0[x]
    requires forall x :: dst <= x < dst + n ==> m3[x] == m2[x]
    ensures Copied(m0, src, m3, dst, n)
  {
  }

  lemma MovedBytes(bs: seq<Block>, p: nat, r: seq<Block>, q: nat, m0: seq<byte>, m1: seq<byte>, m2: seq<byte>,
      m3: seq<byte>)
    requires Shaped(bs) && IsBlock(bs, p) && bs[IndexOf(bs, p)].used && |m0| == KHEAP_INITIAL_SIZE
    requires Shaped(r) && Grown(bs, p, r, q)
    requires var b := bs[IndexOf(bs, p)];
             && Kept(bs, m0, m1) && Kept(Unmark(r, p), m2, m3)
             && Copied(m1, b.Payload(), m2, q - KHEAP_START, b.size)
             && SameOutside(m1, m2, q - KHEAP_START, b.size)
    ensures Kept(Unmark(bs, p), m0, m3)
    ensures Copied(m0, bs[IndexOf(bs, p)].Payload(), m3, q - KHEAP_START, bs[IndexOf(bs, p)].size)
  {
    var b, c := bs[IndexOf(bs, p)], r[IndexOf(r, q)];
    MoveKeeps(bs, p, r, IndexOf(r, q), m0, m1, m2, m3, b.size);
    Within(bs, IndexOf(bs, p));
    Within(r, IndexOf(r, q));
    UnmarkKeeps(r, p, c);
    CopiedKept(m0, m1, m2, m3, b.Payload(), c.Payload(), b.size);
  }

  lemma MoveDone(s: Heap, p: nat, size: u32, r: Outcome, s': Heap, grown: seq<Block>)
    requires Inv(s.bs) && IsBlock(s.bs, p) && (grown, r) == Malloc(s.bs, size) && r.Pointer?
    requires Grown(s.bs, p, grown, r.p) && Shaped(grown)
    requires InRange(p) && s'.bs == Free(grown, p)
    requires Kept(Unmark(s.bs, p), s.mem, s'.mem)
    requires Copied(s.mem, s.bs[IndexOf(s.bs, p)].Payload(), s'.mem, r.p - KHEAP_START, s.bs[IndexOf(s.bs, p)].size)
    ensures MoveStep(s, p, size, r, s')
  {
    BlockAt(grown, grown[IndexOf(grown, r.p)], r.p);
  }

  /** One free block, as its header in the arena says. */
  lemma InitialHeap(m: seq<byte>)
    requires |m| == KHEAP_INITIAL_SIZE && Header(m, 0, 0, KHEAP_INITIAL_SIZE - HEADER, false)
    ensures Good(Heap(INITIAL, m)) && HeadersOk(m, INITIAL)
  {
  }

  class KernelHeap {
    const mem: array<byte>
    var firstBlock: u32
    ghost var bs: seq<Block>

    ghost function State(): Heap
      reads this, mem
    {
      Heap(bs, mem[..])
    }

    ghost predicate Valid()
      reads this, mem
    {
      && firstBlock == KHEAP_START
      && Good(State())
      && HeadersOk(mem[..], bs)
    }

    /** kheap_init. */
    constructor ()
      ensures Valid() && fresh(mem) && bs == INITIAL
    {
      mem := new byte[KHEAP_INITIAL_SIZE];
      firstBlock := KHEAP_START;
      bs := INITIAL;
      new;
      hide Good, HeadersOk, HeaderAt, Inv;
      SetSize(firstBlock, KHEAP_END - KHEAP_START - HEADER);
      SetUsed(firstBlock, 0);
      SetNext(firstBlock, 0);
      InitialHeap(mem[..]);
    }

    // ------------------------------------------------------------ header fields

    predicate InArena(block: u32) {
      block >= KHEAP_START && block - KHEAP_START + HEADER <= mem.Length
    }

    method Store32(a: nat, v: u32)
      requires a + 4 <= mem.Length
      modifies mem
      ensures Load32(mem[..], a) == v
      ensures forall x :: 0 <= x < mem.Length && !(a <= x < a + 4) ==> mem[..][x] == old(mem[..])[x]
    {
      ghost var m := PutLE(mem[..], a, 4, v);
      assert Radix(4) == TWO_32;
      mem[a] := v % 0x100;
      mem[a + 1] := v / 0x100 % 0x100;
      mem[a + 2] := v / 0x100 / 0x100 % 0x100;
      mem[a + 3] := v / 0x100 / 0x100 / 0x100 % 0x100;
      assert m == mem[..];
    }

    method SetNext(block: u32, v: u32)
      requires InArena(block)
      modifies mem
      ensures var a := block - KHEAP_START;
              && SameBut(old(mem[..]), mem[..], a, a) && Load32(mem[..], a) == v
              && Load32(mem[..], a + 4) == Load32(old(mem[..]), a + 4) && mem[..][a + 8] == old(mem[..])[a + 8]
    {
      ghost var m := mem[..];
      Store32(block - KHEAP_START, v);
      LoadSame(m, mem[..], block - KHEAP_START + 4, 4);
    }

    method SetSize(block: u32, v: u32)
      requires InArena(block)
      modifies mem
      ensures var a := block - KHEAP_START;
              && SameBut(old(mem[..]), mem[..], a, a) && Load32(mem[..], a + 4) == v
              && Load32(mem[..], a) == Load32(old(mem[..]), a) && mem[..][a + 8] == old(mem[..])[a + 8]
    {
      ghost var m := mem[..];
      Store32(block - KHEAP_START + 4, v);
      LoadSame(m, mem[..], block - KHEAP_START, 4);
    }

    method SetUsed(block: u32, v: byte)
      requires InArena(block)
      modifies mem
      ensures var a := block - KHEAP_START;
              && SameBut(old(mem[..]), mem[..], a, a) && mem[..][a + 8] == v
              && Load32(mem[..], a) == Load32(old(mem[..]), a)
              && Load32(mem[..], a + 4) == Load32(old(mem[..]), a + 4)
    {
      ghost var m := mem[..];
      mem[block - KHEAP_START + 8] := v;
      LoadSame(m, mem[..], block - KHEAP_START, 4);
      LoadSame(m, mem[..], block - KHEAP_START + 4, 4);
    }

    function Next(block: u32): u32
      requires InArena(block)
      reads mem
    {
      Load32(mem[..], block - KHEAP_START)
    }

    function Size(block: u32): u32
      requires InArena(block)
      reads mem
    {
      Load32(mem[..], block - KHEAP_START + 4)
    }

    predicate Used(block: u32)
      requires InArena(block)
      reads mem
    {
      mem[..][block - KHEAP_START + 8] != 0
    }

    // ------------------------------------------------------------ kmalloc

    /** A free block's header, all three fields. */
    method NewHeader(block: u32, next: u32, size: u32)
      requires InArena(block)
      modifies mem
      ensures SameBut(old(mem[..]), mem[..], block - KHEAP_START, block - KHEAP_START)
      ensures Header(mem[..], block - KHEAP_START, next, size, false)
    {
      SetSize(block, size);
      SetUsed(block, 0);
      SetNext(block, next);
    }

    /** A block's size and next fields set, its used flag left. */
    method Resize(block: u32, next: u32, n: u32, ghost used: bool)
      requires InArena(block) && (mem[block - KHEAP_START + 8] != 0 <==> used)
      modifies mem
      ensures SameBut(old(mem[..]), mem[..], block - KHEAP_START, block - KHEAP_START)
      ensures Header(mem[..], block - KHEAP_START, next, n, used)
    {
      SetSize(block, n);
      SetNext(block, next);
    }

    /** The split of kmalloc: a header for the rest, then the shortened block. */
    method Split(block: u32, n: u32, ghost next: nat, ghost size: nat, ghost used: bool)
      requires mem.Length == KHEAP_INITIAL_SIZE && InArena(block)
      requires Header(mem[..], block - KHEAP_START, next, size, used)
      requires size > n + HEADER + 4 && block - KHEAP_START + HEADER + size <= mem.Length
      modifies mem
      ensures var a, b := block - KHEAP_START, block - KHEAP_START + HEADER + n;
              && SameBut(old(mem[..]), mem[..], a, b)
              && Header(mem[..], a, KHEAP_START + b, n, used)
              && Header(mem[..], b, next, size - n - HEADER, false)
    {
      ghost var a, b := block - KHEAP_START, block - KHEAP_START + HEADER + n;
      var newBlock: u32 := block + HEADER + n;
      NewHeader(newBlock, Next(block), Size(block) - n - HEADER);
      ghost var m := mem[..];
      Resize(block, newBlock, n, used);
      HeaderSame(m, mem[..], a, a, b, next, size - n - HEADER, false);
    }

    method TakePart(block: u32, n: u32, ghost b: Block, ghost next: nat)
      requires mem.Length == KHEAP_INITIAL_SIZE && block == KHEAP_START + b.addr && b.End() <= mem.Length
      requires Header(mem[..], b.addr, next, b.size, b.used) && b.size > n + HEADER + 4
      modifies mem
      ensures Taken(old(mem[..]), mem[..], b, next, n)
    {
      Split(block, n, next, b.size, b.used);
      ghost var m := mem[..];
      SetUsed(block, 1);
      HeaderSame(m, mem[..], b.addr, b.addr, RestAt(b, n), next, b.size - n - HEADER, false);
    }

    /** The found branch of kmalloc: split if worthwhile, then mark used. */
    method Take(block: u32, n: u32, ghost b: Block, ghost next: nat)
      requires mem.Length == KHEAP_INITIAL_SIZE && block == KHEAP_START + b.addr && b.End() <= mem.Length
      requires Header(mem[..], b.addr, next, b.size, b.used)
      modifies mem
      ensures Taken(old(mem[..]), mem[..], b, next, n)
    {
      if Size(block) > n + HEADER + 4 {
        TakePart(block, n, b, next);
      } else {
        SetUsed(block, 1);
      }
    }

    method Claim(block: u32, n: u32, ghost k: nat)
      requires Valid() && k < |bs| && block == KHEAP_START + bs[k].addr
      requires !bs[k].used && bs[k].size >= n >= MIN_SIZE
      modifies this`bs, mem
      ensures Valid() && bs == Carve(old(bs), k, n)
      ensures Kept(old(bs), old(mem[..]), mem[..])
    {
      ghost var m := mem[..];
      TilesOrdered(bs, 0, KHEAP_INITIAL_SIZE);
      assert HeaderAt(mem[..], bs, k);
      Take(block, n, bs[k], NextField(bs, k));
      TakenHeaders(m, mem[..], bs, k, n);
      CarveInv(bs, k, n);
      bs := Carve(bs, k, n);
    }

    /** kmalloc's walk: the first free block of at least n bytes, or NULL. */
    method Find(n: u32) returns (block: u32, ghost k: nat)
      requires Valid()
      ensures k == FirstFit(bs, 0, n)
      ensures if k < |bs| then block == KHEAP_START + bs[k].addr else block == 0
    {
      block := firstBlock;
      k := 0;
      ghost var m := mem[..];
      while block != 0
        invariant k <= |bs|
        invariant if k < |bs| then block == KHEAP_START + bs[k].addr else block == 0
        invariant FirstFit(bs, k, n) == FirstFit(bs, 0, n)
        decreases |bs| - k
      {
        assert HeaderAt(m, bs, k);
        if !Used(block) && Size(block) >= n {
          return;
        }
        block := Next(block);
        k := k + 1;
      }
    }

    method Kmalloc(size: u32) returns (r: Outcome)
      requires Valid()
      modifies this`bs, mem
      ensures Valid()
      ensures Step(old(State()), MallocOp(size), r, State())
    {
      var n: u32 := if size < MIN_SIZE then MIN_SIZE else size;
      var block, k := Find(n);
      if block != 0 {
        Claim(block, n, k);
        return Pointer(block + HEADER);
      }
      var newSize := AlignUp(Wrap32(n + HEADER));
      if Wrap32(KHEAP_END + newSize) > KHEAP_MAX {
        return Null;
      }
      return Fault;
    }
  
    // ------------------------------------------------------------ kfree

    /** The list and its headers, between the merges of a sweep. */
    ghost predicate Listed()
      reads this, mem
    {
      firstBlock == KHEAP_START && mem.Length == KHEAP_INITIAL_SIZE && Shaped(bs) && HeadersOk(mem[..], bs)
    }

    /** kfree's test that the pointer lies in the heap. */
    method Kfree(p: u32)
      requires Valid()
      requires InRange(p) ==> IsBlock(bs, p)
      modifies this`bs, mem
      ensures Valid()
      ensures Step(old(State()), FreeOp(p), Null, State())
    {
      if p == 0 || p < KHEAP_START || p >= KHEAP_END {
        return;
      }
      FreeInv(bs, p);
      MarkFree(p);
      Sweep();
    }

    method MarkFree(p: u32)
      requires Valid() && InRange(p) && IsBlock(bs, p)
      modifies this`bs, mem
      ensures Listed() && bs == Unmark(old(bs), p)
      ensures Kept(old(bs), old(mem[..]), mem[..])
    {
      ghost var m, i := mem[..], IndexOf(bs, p);
      assert HeaderAt(m, bs, i);
      var block := p - HEADER;
      SetUsed(block, 0);
      UnmarkedHeaders(m, mem[..], bs, p);
      UnmarkShape(bs, p);
      bs := Unmark(bs, p);
    }

    lemma NextMeets(bs: seq<Block>, k: nat)
      requires Shaped(bs) && k + 1 < |bs|
      ensures Meets(bs, k)
    {
    }

    /** The fields of block k once it has swallowed the next. */
    method MergedFields(current: u32, ghost k: nat) returns (next: u32, size: u32)
      requires Listed() && k + 1 < |bs| && current == KHEAP_START + bs[k].addr
      ensures next == NextField(bs, k + 1) && size == bs[k].size + bs[k + 1].size + HEADER
      ensures InArena(current) && (mem[current - KHEAP_START + 8] != 0 <==> bs[k].used)
    {
      hide Tiles, Sized;
      ghost var m := mem[..];
      Within(bs, k + 1);
      assert HeaderAt(m, bs, k);
      assert HeaderAt(m, bs, k + 1);
      NextMeets(bs, k);
      var after := Next(current);
      next, size := Next(after), Size(current) + Size(after) + HEADER;
    }

    /** One merge: the free block swallows its free successor. */
    method Merge(current: u32, ghost k: nat)
      requires Listed() && k + 1 < |bs| && current == KHEAP_START + bs[k].addr
      modifies this`bs, mem
      ensures Listed() && bs == MergeAt(old(bs), k)
      ensures Kept(old(bs), old(mem[..]), mem[..])
    {
      hide Shaped, HeadersOk, Kept, NextField, MergeAt, SameBut;
      ghost var m := mem[..];
      var next, size := MergedFields(current, k);
      Resize(current, next, size, bs[k].used);
      MergedHeaders(m, mem[..], bs, k);
      MergedShape(bs, k);
      bs := MergeAt(bs, k);
    }

    /** A merge inside a sweep that began with the list bs0 and the bytes m0. */
    method MergeStep(current: u32, ghost k: nat, ghost bs0: seq<Block>, ghost m0: seq<byte>)
      requires Listed() && k + 1 < |bs| && current == KHEAP_START + bs[k].addr
      requires !bs[k].used && !bs[k + 1].used
      requires LiveWithin(bs0, bs) && Kept(bs0, m0, mem[..])
      modifies this`bs, mem
      ensures Listed() && bs == MergeAt(old(bs), k)
      ensures LiveWithin(bs0, bs) && Kept(bs0, m0, mem[..])
    {
      ghost var bs1, m1 := bs, mem[..];
      Merge(current, k);
      KeptWithin(bs0, bs1, m0, m1, mem[..]);
      forall b: Block | b.used && b in bs0 ensures b in bs { MergedLive(bs1, k, b); }
    }

    /** The fields the sweep reads at block k. */
    method ReadPair(current: u32, ghost k: nat) returns (next: u32, bothFree: bool)
      requires Listed() && k < |bs| && current == KHEAP_START + bs[k].addr
      ensures next == NextField(bs, k)
      ensures bothFree <==> k + 1 < |bs| && !bs[k].used && !bs[k + 1].used
    {
      assert HeaderAt(mem[..], bs, k);
      next := Next(current);
      if next == 0 { return next, false; }
      assert HeaderAt(mem[..], bs, k + 1);
      bothFree := !Used(current) && !Used(next);
    }

    /** kfree's sweep over the whole list. */
    method Sweep()
      requires Listed()
      modifies this`bs, mem
      ensures Listed() && bs == Coalesce(old(bs))
      ensures Kept(old(bs), old(mem[..]), mem[..])
    {
      ghost var bs0, m0 := bs, mem[..];
      var current := firstBlock;
      ghost var k := 0;
      while true
        invariant Listed() && k < |bs| && current == KHEAP_START + bs[k].addr
        invariant SweepFrom(bs, k) == SweepFrom(bs0, 0)
        invariant LiveWithin(bs0, bs) && Kept(bs0, m0, mem[..])
        decreases |bs| - k
      {
        var next, bothFree := ReadPair(current, k);
        if next == 0 { break; }
        if bothFree {
          MergeStep(current, k, bs0, m0);
        } else {
          current := next;
          k := k + 1;
        }
      }
      SweepCoalesces(bs0, 0);
      assert bs0[0..] == bs0;
    }

    // ------------------------------------------------------------ krealloc

    /** memcpy, between places that do not overlap. */
    method Memcpy(dst: nat, src: nat, n: nat)
      requires dst + n <= mem.Length && src + n <= mem.Length
      requires dst + n <= src || src + n <= dst
      modifies mem
      ensures Copied(old(mem[..]), src, mem[..], dst, n)
      ensures SameOutside(old(mem[..]), mem[..], dst, n)
    {
      var i := 0;
      while i < n
        invariant i <= n
        invariant forall x :: dst <= x < dst + i ==> mem[x] == old(mem[..])[x - dst + src]
        invariant forall x :: 0 <= x < mem.Length && !(dst <= x < dst + i) ==> mem[x] == old(mem[..])[x]
      {
        mem[dst + i] := mem[src + i];
        i := i + 1;
      }
    }

    /** krealloc's copy of the n bytes of the block at p into the block at q. */
    method CopyBlock(p: u32, q: u32, n: u32)
      requires Valid() && IsBlock(bs, p) && IsBlock(bs, q) && p != q
      requires bs[IndexOf(bs, p)].size == n <= bs[IndexOf(bs, q)].size
      modifies mem
      ensures Valid()
      ensures Copied(old(mem[..]), p - KHEAP_START, mem[..], q - KHEAP_START, n)
      ensures SameOutside(old(mem[..]), mem[..], q - KHEAP_START, n)
    {
      ghost var m, i, j := mem[..], IndexOf(bs, p), IndexOf(bs, q);
      Disjoint(bs, i, j);
      Disjoint(bs, j, i);
      Memcpy(q - KHEAP_START, p - KHEAP_START, n);
      PayloadStore(m, mem[..], bs, j, q - KHEAP_START, n);
    }

    /** The copy phase of a moving krealloc; bs0 is the list before the allocation. */
    method CopyOver(p: u32, q: u32, ghost bs0: seq<Block>)
      requires Valid() && IsBlock(bs0, p) && Grown(bs0, p, bs, q)
      modifies mem
      ensures Valid()
      ensures var b := bs0[IndexOf(bs0, p)];
              && Copied(old(mem[..]), b.Payload(), mem[..], q - KHEAP_START, b.size)
              && SameOutside(old(mem[..]), mem[..], q - KHEAP_START, b.size)
    {
      assert HeaderAt(mem[..], bs, IndexOf(bs, p));
      CopyBlock(p, q, Size(p - HEADER));
    }

    /** krealloc, once the block is known to be too small. */
    method Move(p: u32, size: u32) returns (r: Outcome)
      requires Valid() && IsLive(bs, p) && IsBlock(bs, p) && bs[IndexOf(bs, p)].used
      requires bs[IndexOf(bs, p)].size < size
      modifies this`bs, mem
      ensures Valid()
      ensures MoveStep(old(State()), p, size, r, State())
    {
      ghost var bs0, m0 := bs, mem[..];
      r := Kmalloc(size);
      if !r.Pointer? {
        return;
      }
      ghost var m1 := mem[..];
      MallocGrown(bs0, p, size);
      CopyOver(p, r.p, bs0);
      ghost var grown, m2 := bs, mem[..];
      LiveInRange(bs, p);
      Kfree(p);
      MovedBytes(bs0, p, grown, r.p, m0, m1, m2, mem[..]);
      MoveDone(Heap(bs0, m0), p, size, r, State(), grown);
    }

    method Krealloc(p: u32, size: u32) returns (r: Outcome)
      requires Valid()
      requires p != 0 ==> IsLive(bs, p)
      modifies this`bs, mem
      ensures Valid()
      ensures Step(old(State()), ReallocOp(p, size), r, State())
    {
      if p == 0 {
        r := Kmalloc(size);
        return;
      }
      LiveAt(bs, p);
      LiveInRange(bs, p);
      if size == 0 {
        Kfree(p);
        return Null;
      }
      ghost var i := IndexOf(bs, p);
      assert HeaderAt(mem[..], bs, i);
      if Size(p - HEADER) >= size {
        return Pointer(p);
      }
      r := Move(p, size);
    }

    /** A client's store of one byte into a block it holds. */
    method Store(p: u32, k: nat, v: byte)
      requires Valid() && IsLive(bs, p) && IsBlock(bs, p) && k < bs[IndexOf(bs, p)].size
      modifies mem
      ensures Valid()
      ensures Step(old(State()), StoreOp(p, k, v), Null, State())
    {
      ghost var m, i := mem[..], IndexOf(bs, p);
      Within(bs, i);
      mem[p - KHEAP_START + k] := v;
      PayloadStore(m, mem[..], bs, i, p - KHEAP_START + k, 1);
    }
  }
}
