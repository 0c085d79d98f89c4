/**
  The physical frame allocator (memory/pmm.c): what initialisation makes available, and what
  every run of allocations and frees conserves.
 */
module FrameModel {
  import opened CTypes
  import opened Bits

  const FRAME_SIZE: nat := 4096
  const MAX_FRAMES: nat := 32768
  /** The frames of the first megabyte. */
  const LOW_FRAMES: nat := 256

  /** One bit per frame, set for a frame that may not be given out; the frames searched; the
      frames counted as used. */
  datatype Frames = Frames(bits: seq<bool>, total: nat, used: u32)

  ghost predicate Wf(s: Frames) { |s.bits| == MAX_FRAMES && s.total <= MAX_FRAMES }

  // ---------------------------------------------------------------- steps

  /** pmm_alloc_frame: the state after it and the address it returns. */
  function Alloc(s: Frames): (Frames, u32)
    requires |s.bits| == MAX_FRAMES && s.total <= MAX_FRAMES
  {
    var f := FirstClear(s.bits, 0, s.total);
    if f < s.total then (s.(bits := s.bits[f := true], used := Wrap32(s.used + 1)), f * FRAME_SIZE) else (s, 0)
  }

  /** pmm_free_frame. */
  function Free(s: Frames, addr: u32): Frames
    requires |s.bits| == MAX_FRAMES && s.total <= MAX_FRAMES
  {
    var f := addr / FRAME_SIZE;
    if f < s.total && s.bits[f] then s.(bits := s.bits[f := false], used := Wrap32(s.used - 1)) else s
  }

  // ---------------------------------------------------------------- initialisation

  /** The bits with those of the frames from..to set. */
  function Marked(bits: seq<bool>, from: nat, to: nat): (r: seq<bool>)
    ensures |r| == |bits|
    ensures forall f :: 0 <= f < |bits| ==> r[f] == (bits[f] || from <= f < to)
  {
    seq(|bits|, f requires 0 <= f < |bits| => bits[f] || from <= f < to)
  }

  function Cleared(bits: seq<bool>, from: nat, to: nat): (r: seq<bool>)
    ensures |r| == |bits|
    ensures forall f :: 0 <= f < |bits| ==> r[f] == (bits[f] && !(from <= f < to))
  {
    seq(|bits|, f requires 0 <= f < |bits| => bits[f] && !(from <= f < to))
  }

  /** One past the last frame that base..base + size touches, in 32-bit arithmetic. */
  function EndFrame(base: u32, size: u32): nat { Wrap32(base + size + FRAME_SIZE - 1) / FRAME_SIZE }

  /** The frames pmm_mark_used_region takes. */
  predicate InRegion(base: u32, size: u32, f: nat) { size != 0 && base / FRAME_SIZE <= f < EndFrame(base, size) }

  /** When nothing wraps these are the frames that share a byte with the region. */
  lemma InRegionIs(base: u32, size: u32, f: nat)
    requires base + size + 4096 <= 0x1_0000_0000
    ensures InRegion(base, size, f) <==> exists a :: base <= a < base + size && a / 4096 == f
  {
    if InRegion(base, size, f) {
      var a := Max(base, f * 4096);
      assert base <= a < base + size && a / 4096 == f;
    }
  }

  /** The memory pmm_init_basic believes in: 1 MB and the extended memory, in 32-bit arithmetic. */
  function BasicFrames(memUpperKb: u32): nat {
    Min(Wrap32(Wrap32(1024 + memUpperKb) * 1024) / FRAME_SIZE, MAX_FRAMES)
  }

  /** Four kilobytes a frame and 128 MB at most, as long as the size fits 32 bits. */
  lemma BasicFramesIs(memUpperKb: u32)
    requires (1024 + memUpperKb) * 1024 < 0x1_0000_0000
    ensures BasicFrames(memUpperKb) == if 1024 + memUpperKb >= 131072 then 32768 else (1024 + memUpperKb) / 4
  {
  }

  /** An entry of the boot loader's memory map. */
  datatype Region = Region(addr: nat, len: nat, type_: u32)

  function Saturate(x: nat): u32 { if x > 0xFFFF_FFFF then 0xFFFF_FFFF else x }

  /** The frames of an available entry, from start up to end; none for any other. */
  function RegionStart(r: Region): nat { Saturate(r.addr) / FRAME_SIZE }

  function RegionEnd(r: Region): nat { Saturate((r.addr + r.len) % 0x1_0000_0000_0000_0000) / FRAME_SIZE }

  predicate Available(r: Region) {
    r.type_ == 1 && Saturate((r.addr + r.len) % 0x1_0000_0000_0000_0000) > Saturate(r.addr)
  }

  /** An entry counts exactly when its type is 1 and it starts below 4 GB less one and does not end
      before it starts, on 64 bits. */
  lemma AvailableIff(r: Region)
    requires r.addr < 0x1_0000_0000_0000_0000 && r.len < 0x1_0000_0000_0000_0000
    ensures Available(r) <==> r.type_ == 1 && 0 < r.len < 0x1_0000_0000_0000_0000 - r.addr && r.addr < 0xFFFF_FFFF
  {
    var e := r.addr + r.len;
    if e >= 0x1_0000_0000_0000_0000 { assert e % 0x1_0000_0000_0000_0000 == e - 0x1_0000_0000_0000_0000; }
    else { assert e % 0x1_0000_0000_0000_0000 == e; }
  }

  /** The frames of an entry below 4 GB are those that end inside it. */
  lemma OfferedIs(r: Region, f: nat)
    requires r.addr + r.len < 0x1_0000_0000
    ensures Available(r) && RegionStart(r) <= f < RegionEnd(r) <==>
            r.type_ == 1 && r.len > 0 && r.addr < (f + 1) * 4096 <= r.addr + r.len
  {
    var e := r.addr + r.len;
    assert e % 0x1_0000_0000_0000_0000 == e;
    Frames4096(r.addr, f);
    Frames4096(e, f);
  }

  lemma Frames4096(a: nat, f: nat)
    ensures a / 4096 <= f <==> a < (f + 1) * 4096
  {
  }

  /** Frame f lies inside the entry. */
  ghost predicate Whole(r: Region, f: nat) { r.addr <= f * 4096 && (f + 1) * 4096 <= r.addr + r.len }

  /** So the first of them may start before the entry does: all frames offered lie inside it exactly
      when it starts on a frame's border, or offers none. */
  lemma OfferedWholeIff(r: Region)
    requires r.addr + r.len < 0x1_0000_0000 && Available(r)
    ensures (forall f :: RegionStart(r) <= f < RegionEnd(r) ==> Whole(r, f)) <==>
            r.addr % 4096 == 0 || r.addr / 4096 == (r.addr + r.len) / 4096
  {
    var first := RegionStart(r);
    assert (r.addr + r.len) % 0x1_0000_0000_0000_0000 == r.addr + r.len;
    assert r.addr % 4096 == 0 <==> r.addr <= first * 4096;
    if r.addr % 4096 == 0 {
      forall f | RegionStart(r) <= f < RegionEnd(r) ensures Whole(r, f) { OfferedIs(r, f); }
    } else {
      assert !Whole(r, first);
    }
  }

  /** Clearing frame f's bit writes past the bitmap's words. */
  predicate PastBitmap(f: nat) { f / 32 >= MAX_FRAMES / 32 }

  /** The frames of an available entry stay inside the bitmap exactly when the entry ends by 128 MB
      or has no whole frame; otherwise the first one past it is the one at 128 MB, or the entry's
      first. */
  lemma PastBitmapIff(r: Region)
    ensures (exists f :: RegionStart(r) <= f < RegionEnd(r) && PastBitmap(f)) <==>
            RegionEnd(r) > MAX_FRAMES && RegionStart(r) < RegionEnd(r)
    ensures RegionEnd(r) > MAX_FRAMES && RegionStart(r) < RegionEnd(r) ==>
              var f := Max(RegionStart(r), MAX_FRAMES);
              && RegionStart(r) <= f < RegionEnd(r) && PastBitmap(f)
              && forall g :: RegionStart(r) <= g < f ==> !PastBitmap(g)
  {
    var f: nat := Max(RegionStart(r), MAX_FRAMES);
    assert PastBitmap(f);
  }

  /** 255 MB from 1 MB on: word 1024 of a bitmap of 1024 words. */
  lemma PastBitmapExample()
    ensures var r := Region(0x10_0000, 0xFF0_0000, 1);
            Available(r) && RegionStart(r) <= 32768 < RegionEnd(r) && PastBitmap(32768) && 32768 / 32 == 1024
  {
  }

  predicate Offers(regions: seq<Region>, f: nat) {
    exists i :: 0 <= i < |regions| && Available(regions[i]) && RegionStart(regions[i]) <= f < RegionEnd(regions[i])
  }

  /** The frame after the highest one any available entry ends in. */
  function Highest(regions: seq<Region>): (n: nat)
    ensures forall i :: 0 <= i < |regions| && Available(regions[i]) ==> RegionEnd(regions[i]) <= n
    ensures n == 0 || exists i :: 0 <= i < |regions| && Available(regions[i]) && RegionEnd(regions[i]) == n
  {
    if regions == [] then 0
    else
      var (init, last) := (regions[..|regions| - 1], regions[|regions| - 1]);
      assert forall i :: 0 <= i < |regions| - 1 ==> regions[i] == init[i];
      if Available(last) && RegionEnd(last) > Highest(init) then RegionEnd(last) else Highest(init)
  }

  // ---------------------------------------------------------------- the invariant

  /** The allocator between two steps: reserved frames are never given out, held ones have been
      and have not come back, and avail frames were made available at the start. */
  ghost predicate Inv(s: Frames, reserved: set<nat>, held: set<nat>, avail: nat) {
    && Wf(s)
    && (forall f :: s.total <= f < MAX_FRAMES ==> s.bits[f])
    && s.used + Count(s.bits, false) == avail <= MAX_FRAMES
    && |held| <= s.used
    && held !! reserved
    && (forall f :: f in held + reserved ==> f < MAX_FRAMES && s.bits[f])
    && (forall f :: 0 <= f < LOW_FRAMES ==> f in reserved)
    && (forall f :: f in held ==> f < s.total)
  }

  datatype Op = AllocOp | FreeOp(addr: u32)

  /** Only held frames are freed; any address in the frame will do. */
  ghost predicate Enabled(held: set<nat>, op: Op) { op.FreeOp? ==> op.addr / FRAME_SIZE in held }

  ghost function Step(s: Frames, op: Op): Frames
    requires Wf(s)
  {
    match op case AllocOp => Alloc(s).0 case FreeOp(addr) => Free(s, addr)
  }

  ghost function HeldAfter(s: Frames, held: set<nat>, op: Op): set<nat>
    requires Wf(s)
  {
    match op
    case AllocOp => if Alloc(s).1 == 0 then held else held + {Alloc(s).1 / FRAME_SIZE}
    case FreeOp(addr) => held - {addr / FRAME_SIZE}
  }

  /** An allocation returns the address of a frame that nobody holds, that is not reserved and
      lies above 1 MB, and there is none lower that is free; or 0, exactly when every available
      frame is used. */
  lemma AllocIs(s: Frames, reserved: set<nat>, held: set<nat>, avail: nat)
    requires Inv(s, reserved, held, avail)
    ensures var a := Alloc(s).1; var f := a / 4096;
            && (a == 0 <==> s.used == avail)
            && (a != 0 ==> a == f * 4096 && a >= 0x10_0000 && f < s.total && f !in held && f !in reserved
                           && !s.bits[f] && forall k :: 0 <= k < f ==> s.bits[k])
  {
    var f := FirstClear(s.bits, 0, s.total);
    CountAll(s.bits, false);
    if f == s.total {
      assert forall k :: 0 <= k < MAX_FRAMES ==> s.bits[k];
    } else {
      assert f !in held + reserved;
      assert f >= LOW_FRAMES;
    }
  }

  lemma AllocInv(s: Frames, reserved: set<nat>, held: set<nat>, avail: nat)
    requires Inv(s, reserved, held, avail)
    ensures Inv(Alloc(s).0, reserved, HeldAfter(s, held, AllocOp), avail)
  {
    hide Inv;
    InvSize(s, reserved, held, avail);
    AllocIs(s, reserved, held, avail);
    var f := FirstClear(s.bits, 0, s.total);
    if f < s.total {
      assert Alloc(s).1 == f * 4096 && Alloc(s).1 / 4096 == f;
      ClearIsLow(s, reserved, held, avail, f);
      MarkInv(s, reserved, held, avail, f);
    } else {
      assert HeldAfter(s, held, AllocOp) == held;
    }
  }

  lemma InvSize(s: Frames, reserved: set<nat>, held: set<nat>, avail: nat)
    requires Inv(s, reserved, held, avail)
    ensures Wf(s) && s.used <= MAX_FRAMES
  {
  }

  lemma ClearIsLow(s: Frames, reserved: set<nat>, held: set<nat>, avail: nat, f: nat)
    requires Inv(s, reserved, held, avail) && f < s.total && !s.bits[f]
    ensures f >= LOW_FRAMES && f !in reserved && f !in held
  {
    assert f !in held + reserved;
  }

  /** A clear frame given out. */
  lemma MarkInv(s: Frames, reserved: set<nat>, held: set<nat>, avail: nat, f: nat)
    requires Inv(s, reserved, held, avail) && f < s.total && !s.bits[f] && f !in reserved && f !in held
    ensures Inv(s.(bits := s.bits[f := true], used := Wrap32(s.used + 1)), reserved, held + {f}, avail)
  {
    hide Count;
    CountUpdate(s.bits, f, true);
  }

  lemma FreeInv(s: Frames, reserved: set<nat>, held: set<nat>, avail: nat, addr: u32)
    requires Inv(s, reserved, held, avail) && addr / FRAME_SIZE in held
    ensures Inv(Free(s, addr), reserved, held - {addr / FRAME_SIZE}, avail)
    ensures Free(s, addr).used == s.used - 1 && !Free(s, addr).bits[addr / FRAME_SIZE]
  {
    var f := addr / FRAME_SIZE;
    CountUpdate(s.bits, f, false);
  }

  /** Freeing any address at all: nothing is lost exactly when the frame is held, or is not searched
      or not marked, or is marked for no reason of its own. Freeing a reserved frame gives it out. */
  lemma FreeAnyIff(s: Frames, reserved: set<nat>, held: set<nat>, avail: nat, addr: u32)
    requires Inv(s, reserved, held, avail)
    ensures var f := addr / FRAME_SIZE;
            Inv(Free(s, addr), reserved, held - {f}, avail) <==>
            f in held || f >= s.total || !s.bits[f] || (f !in reserved && |held| < s.used)
  {
    hide Count;
    var f := addr / FRAME_SIZE;
    if f in held {
      FreeInv(s, reserved, held, avail, addr);
    } else {
      assert held - {f} == held;
      if f < s.total && s.bits[f] { FreeMarked(s, reserved, held, avail, f); }
    }
  }

  lemma FreeMarked(s: Frames, reserved: set<nat>, held: set<nat>, avail: nat, f: nat)
    requires Inv(s, reserved, held, avail) && f !in held && f < s.total && s.bits[f]
    ensures var r := s.(bits := s.bits[f := false], used := Wrap32(s.used - 1));
            Inv(r, reserved, held, avail) <==> f !in reserved && |held| < s.used
  {
    hide Count;
    CountUpdate(s.bits, f, false);
    var r := s.(bits := s.bits[f := false], used := Wrap32(s.used - 1));
    if f in reserved { assert f in held + reserved && !r.bits[f]; }
  }

  /** Address 0 is such a reserved frame wherever memory is searched. */
  lemma FreeLowExample(s: Frames, reserved: set<nat>, held: set<nat>, avail: nat)
    requires Inv(s, reserved, held, avail) && s.total > 0
    ensures !Inv(Free(s, 0), reserved, held, avail)
  {
    assert 0 in reserved && 0 in held + reserved;
    assert held - {0} == held;
    assert s.bits[0 := false][0] != s.bits[0];
    FreeAnyIff(s, reserved, held, avail, 0);
  }

  ghost predicate Follows(ss: seq<Frames>, hs: seq<set<nat>>, ops: seq<Op>, i: nat)
    requires i + 1 < |ss| && i + 1 < |hs| && i < |ops|
  {
    Wf(ss[i]) && Enabled(hs[i], ops[i]) && ss[i + 1] == Step(ss[i], ops[i]) &&
        hs[i + 1] == HeldAfter(ss[i], hs[i], ops[i])
  }

  /** A run of allocations and frees of held frames. */
  ghost predicate Run(ss: seq<Frames>, hs: seq<set<nat>>, ops: seq<Op>) {
    |ss| == |hs| == |ops| + 1 && forall i :: 0 <= i < |ops| ==> Follows(ss, hs, ops, i)
  }

  /** Conservation over every run: used frames and clear bits always make up what was available
      at the start, what is held stays marked, and the reserved frames are never given out. */
  lemma {:induction false} RunConserves(ss: seq<Frames>, hs: seq<set<nat>>, ops: seq<Op>, reserved: set<nat>,
      avail: nat, i: nat)
    requires Run(ss, hs, ops) && Inv(ss[0], reserved, hs[0], avail) && i < |ss|
    ensures Inv(ss[i], reserved, hs[i], avail)
    ensures ss[i].used - |hs[i]| == ss[0].used - |hs[0]|
  {
    hide Inv, Alloc, Free;
    if i > 0 {
      RunConserves(ss, hs, ops, reserved, avail, i - 1);
      assert Follows(ss, hs, ops, i - 1);
      var (s, held) := (ss[i - 1], hs[i - 1]);
      match ops[i - 1]
      case AllocOp => AllocInv(s, reserved, held, avail); AllocCounts(s, reserved, held, avail);
      case FreeOp(addr) => FreeInv(s, reserved, held, avail, addr); 
    }
  }

  lemma AllocCounts(s: Frames, reserved: set<nat>, held: set<nat>, avail: nat)
    requires Inv(s, reserved, held, avail)
    ensures Alloc(s).0.used - |HeldAfter(s, held, AllocOp)| == s.used - |held|
  {
    AllocIs(s, reserved, held, avail);
    CountUsed(s.bits);
  }

  lemma CountUsed(bits: seq<bool>)
    ensures Count(bits, false) <= |bits|
  {
  }

  // ---------------------------------------------------------------- after initialisation

  /** The bits that initialisation leaves: set where no memory was offered (where the bits had
      not been cleared), in the first megabyte, and in the kernel image. */
  ghost predicate InitBits(bits: seq<bool>, offered: seq<bool>, base: u32, size: u32) {
    && |bits| == |offered| == MAX_FRAMES
    && forall f :: 0 <= f < MAX_FRAMES ==> bits[f] == (offered[f] || f < 256 || InRegion(base, size, f))
  }

  /** The frames of the first megabyte and of the kernel image. */
  ghost function Reserved(base: u32, size: u32): set<nat> {
    set f | 0 <= f < MAX_FRAMES && (f < 256 || InRegion(base, size, f))
  }

  /** From there on, with nothing held, the invariant holds: what was available are the offered
      frames. */
  lemma InitInv(s: Frames, offered: seq<bool>, base: u32, size: u32)
    requires Wf(s) && InitBits(s.bits, offered, base, size) && EndFrame(base, size) <= MAX_FRAMES
    requires forall f :: s.total <= f < MAX_FRAMES ==> offered[f]
    requires s.used == Count(offered, false) - Count(s.bits, false)
    ensures Inv(s, Reserved(base, size), {}, Count(offered, false))
  {
  }

  /** All bits set but the first n. */
  function Prefix(n: nat, size: nat): (r: seq<bool>)
    ensures |r| == size
    ensures forall f :: 0 <= f < size ==> r[f] == (f >= n)
  {
    seq(size, f requires 0 <= f < size => f >= n)
  }

  lemma {:induction false} PrefixCount(n: nat, size: nat)
    requires n <= size
    ensures Count(Prefix(n, size), false) == n
  {
    if size > 0 {
      assert Prefix(n, size)[1..] == Prefix(Max(n - 1, 0), size - 1);
      PrefixCount(Max(n - 1, 0), size - 1);
    }
  }

  /** Setting bits makes no frame free. */
  lemma {:induction false} ReservedCount(bits: seq<bool>, offered: seq<bool>)
    requires |bits| == |offered| && forall f :: 0 <= f < |bits| ==> offered[f] ==> bits[f]
    ensures Count(bits, false) <= Count(offered, false)
  {
    if bits != [] { ReservedCount(bits[1..], offered[1..]); }
  }
}
