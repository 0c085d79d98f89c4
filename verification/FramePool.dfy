/** The frame allocator on its bitmap words (memory/pmm.c). */
module FramePool {
  import opened CTypes
  import opened Bits
  import opened FrameModel

  /** The used count has grown by the number of frames that are no longer free, on 32 bits. */
  predicate Charged(before: u32, free: nat, after: u32, free': nat) { after == Wrap32(before + free - free') }

  lemma ChargedBoth(a: u32, x: nat, b: u32, y: nat, c: u32, z: nat)
    requires Charged(a, x, b, y) && Charged(b, y, c, z)
    ensures Charged(a, x, c, z)
  {
  }

  lemma ChargedNone(a: u32, x: nat)
    ensures Charged(a, x, a, x)
  {
  }

  lemma ChargedOne(a: u32, x: nat)
    requires x > 0
    ensures Charged(a, x, Wrap32(a + 1), x - 1)
  {
  }

  class Pmm {
    const bitmap: array<u32>
    var totalFrames: u32
    var usedFrames: u32
    var highestFrameIndex: u32

    ghost predicate Valid()
      reads this, bitmap
    {
      bitmap.Length == MAX_FRAMES / 32 && totalFrames <= MAX_FRAMES
    }

    ghost function Taken(): (s: seq<bool>)
      requires bitmap.Length == MAX_FRAMES / 32
      reads bitmap
      ensures |s| == MAX_FRAMES
    {
      BitsOf(bitmap[..])
    }

    ghost function State(): (s: Frames)
      requires Valid()
      reads this, bitmap
      ensures Wf(s)
    {
      Frames(Taken(), totalFrames, usedFrames)
    }

    /** The statics as the kernel is loaded. */
    constructor ()
      ensures Valid() && State() == Frames(Prefix(MAX_FRAMES, MAX_FRAMES), MAX_FRAMES, 0)
    {
      bitmap := new u32[MAX_FRAMES / 32](_ => 0);
      totalFrames, usedFrames, highestFrameIndex := MAX_FRAMES, 0, 0;
      new;
      forall f | 0 <= f < MAX_FRAMES ensures !Taken()[f] { ZeroBits(f % 32); }
    }

    method SetFrame(f: nat)
      requires Valid() && f < MAX_FRAMES
      modifies bitmap
      ensures Valid() && Taken() == old(Taken())[f := true]
    {
      SetBitOf(bitmap[..], f);
      ghost var was := bitmap[..];
      bitmap[f / 32] := SetBit(bitmap[f / 32], f % 32);
      assert bitmap[..] == was[f / 32 := SetBit(was[f / 32], f % 32)];
    }

    method ClearFrame(f: nat)
      requires Valid() && f < MAX_FRAMES
      modifies bitmap
      ensures Valid() && Taken() == old(Taken())[f := false]
    {
      ClearBitOf(bitmap[..], f);
      ghost var was := bitmap[..];
      bitmap[f / 32] := ClearBit(bitmap[f / 32], f % 32);
      assert bitmap[..] == was[f / 32 := ClearBit(was[f / 32], f % 32)];
    }

    method TestFrame(f: nat) returns (taken: bool)
      requires Valid() && f < MAX_FRAMES
      ensures taken == Taken()[f]
    {
      taken := Test(bitmap[f / 32], f % 32);
    }

    /** Marks the frames start..end, counting those that were not marked: the loop of
        reserve_range and of pmm_mark_used_region. */
    method MarkFrames(start: nat, end: nat)
      requires Valid() && end <= MAX_FRAMES
      modifies this`usedFrames, bitmap
      ensures Valid() && Taken() == Marked(old(Taken()), start, end)
      ensures Charged(old(usedFrames), Count(old(Taken()), false), usedFrames, Count(Taken(), false))
    {
      hide Count, BitsOf, Charged;
      ChargedNone(usedFrames, Count(Taken(), false));
      var f := start;
      while f < end
        invariant Valid() && start <= f <= Max(start, end)
        invariant Taken() == Marked(old(Taken()), start, f)
        invariant Charged(old(usedFrames), Count(old(Taken()), false), usedFrames, Count(Taken(), false))
      {
        var taken := TestFrame(f);
        if !taken {
          CountUpdate(Taken(), f, true);
          SetFrame(f);
          ChargedOne(usedFrames, Count(Taken(), false) + 1);
          ChargedBoth(old(usedFrames), Count(old(Taken()), false), usedFrames, Count(Taken(), false) + 1,
                      Wrap32(usedFrames + 1), Count(Taken(), false));
          usedFrames := Wrap32(usedFrames + 1);
        }
        f := f + 1;
      }
    }

    method ReserveRange(startAddr: u32, endAddr: u32)
      requires Valid() && Wrap32(endAddr + FRAME_SIZE - 1) / FRAME_SIZE <= MAX_FRAMES
      modifies this`usedFrames, bitmap
      ensures Valid()
      ensures Taken() == if endAddr <= startAddr then old(Taken())
                         else Marked(old(Taken()), startAddr / FRAME_SIZE,
                             Wrap32(endAddr + FRAME_SIZE - 1) / FRAME_SIZE)
      ensures Charged(old(usedFrames), Count(old(Taken()), false), usedFrames, Count(Taken(), false))
    {
      if endAddr <= startAddr { ChargedNone(usedFrames, Count(Taken(), false)); return; }
      MarkFrames(startAddr / FRAME_SIZE, Wrap32(endAddr + FRAME_SIZE - 1) / FRAME_SIZE);
    }

    method MarkUsedRegion(base: u32, size: u32)
      requires Valid() && EndFrame(base, size) <= MAX_FRAMES
      modifies this`usedFrames, bitmap
      ensures Valid()
      ensures forall f :: 0 <= f < MAX_FRAMES ==> Taken()[f] == (old(Taken())[f] || InRegion(base, size, f))
      ensures Charged(old(usedFrames), Count(old(Taken()), false), usedFrames, Count(Taken(), false))
    {
      if size == 0 { ChargedNone(usedFrames, Count(Taken(), false)); return; }
      MarkFrames(base / FRAME_SIZE, EndFrame(base, size));
    }

    /** The loop that marks every frame used. */
    method FillBitmap()
      requires Valid()
      modifies bitmap
      ensures Valid() && Taken() == Prefix(0, MAX_FRAMES)
    {
      var i := 0;
      while i < bitmap.Length
        invariant 0 <= i <= bitmap.Length && forall k :: 0 <= k < i ==> bitmap[k] == 0xFFFF_FFFF
      {
        bitmap[i] := 0xFFFF_FFFF;
        i := i + 1;
      }
      forall f | 0 <= f < MAX_FRAMES ensures Taken()[f] { FullIs(0xFFFF_FFFF); }
    }

    /** The loop that clears the frames start..end. */
    method FreeFrames(start: nat, end: nat)
      requires Valid() && end <= MAX_FRAMES
      modifies bitmap
      ensures Valid() && Taken() == Cleared(old(Taken()), start, end)
    {
      hide BitsOf;
      var f := start;
      while f < end
        invariant Valid() && start <= f <= Max(start, end)
        invariant Taken() == Cleared(old(Taken()), start, f)
      {
        ClearFrame(f);
        f := f + 1;
      }
    }

    /** The first half of pmm_init_basic. Its total_frames is a local variable, so the field keeps
        its value. */
    method FreeBelow(memUpperKb: u32)
      requires Valid()
      modifies bitmap
      ensures Valid() && Taken() == Prefix(BasicFrames(memUpperKb), MAX_FRAMES)
    {
      hide BitsOf;
      FillBitmap();
      var totalMemKb: int := Wrap32(1024 + memUpperKb);
      var total := Wrap32(totalMemKb * 1024) / FRAME_SIZE;
      if total > MAX_FRAMES { total := MAX_FRAMES; }
      FreeFrames(0, total);
    }

    /** pmm_init_basic. */
    method InitBasic(memUpperKb: u32, kernelStart: u32, kernelEnd: u32)
      requires Valid() && EndFrame(kernelStart, Wrap32(kernelEnd - kernelStart)) <= MAX_FRAMES
      modifies this`usedFrames, bitmap
      ensures Valid()
      ensures InitBits(Taken(), Prefix(BasicFrames(memUpperKb), MAX_FRAMES), kernelStart,
          Wrap32(kernelEnd - kernelStart))
      ensures Charged(old(usedFrames), BasicFrames(memUpperKb), usedFrames, Count(Taken(), false))
      ensures old(usedFrames) == 0 && BasicFrames(memUpperKb) <= totalFrames ==>
                Inv(State(), Reserved(kernelStart, Wrap32(kernelEnd - kernelStart)), {}, BasicFrames(memUpperKb))
    {
      hide BitsOf, Count, Charged, Inv;
      FreeBelow(memUpperKb);
      PrefixCount(BasicFrames(memUpperKb), MAX_FRAMES);
      MarkUsedRegion(0, 0x10_0000);
      ghost var (used, free) := (usedFrames, Count(Taken(), false));
      MarkUsedRegion(kernelStart, Wrap32(kernelEnd - kernelStart));
      ChargedBoth(old(usedFrames), BasicFrames(memUpperKb), used, free, usedFrames, Count(Taken(), false));
      Ready(Prefix(BasicFrames(memUpperKb), MAX_FRAMES), kernelStart, Wrap32(kernelEnd - kernelStart), old(usedFrames));
    }

    /** pmm_init_default: 64 MB when the size is not known, and no kernel image. */
    method InitDefault(memUpperKb: u32)
      requires Valid()
      modifies this`usedFrames, bitmap
      ensures Valid()
      ensures InitBits(Taken(), Prefix(BasicFrames(if memUpperKb == 0 then 64512 else memUpperKb), MAX_FRAMES), 0, 0)
      ensures Charged(old(usedFrames), BasicFrames(if memUpperKb == 0 then 64512 else memUpperKb), usedFrames,
          Count(Taken(), false))
      ensures var frames := BasicFrames(if memUpperKb == 0 then 64512 else memUpperKb);
              old(usedFrames) == 0 && frames <= totalFrames ==> Inv(State(), Reserved(0, 0), {}, frames)
    {
      hide Inv;
      InitBasic(if memUpperKb == 0 then 63 * 1024 else memUpperKb, 0, 0);
    }

    /** The loop over the entries of the memory map. */
    method FreeRegions(regions: seq<Region>)
      requires Valid() && highestFrameIndex == 0
      requires forall i :: 0 <= i < |regions| && Available(regions[i]) ==> RegionEnd(regions[i]) <= MAX_FRAMES
      modifies this`highestFrameIndex, bitmap
      ensures Valid() && highestFrameIndex == Highest(regions)
      ensures forall f :: 0 <= f < MAX_FRAMES ==> Taken()[f] == (old(Taken())[f] && !Offers(regions, f))
    {
      hide BitsOf, Offers, Highest, Available, RegionEnd, RegionStart;
      OffersNone();
      var i := 0;
      while i < |regions|
        invariant 0 <= i <= |regions| && Valid() && highestFrameIndex == Highest(regions[..i])
        invariant forall f :: 0 <= f < MAX_FRAMES ==> Taken()[f] == (old(Taken())[f] && !Offers(regions[..i], f))
      {
        var r := regions[i];
        OffersSnoc(regions, i);
        HighestSnoc(regions, i);
        if Available(r) {
          if RegionEnd(r) > highestFrameIndex { highestFrameIndex := RegionEnd(r); }
          FreeFrames(RegionStart(r), RegionEnd(r));
        }
        i := i + 1;
      }
      assert regions[..i] == regions;
    }

    /** The first half of pmm_init: the frames there are. */
    method OfferFrames(memUpperKb: u32, hasMap: bool, regions: seq<Region>)
      requires Valid()
      requires hasMap ==> forall i :: 0 <= i < |regions| && Available(regions[i]) ==>
          RegionEnd(regions[i]) <= MAX_FRAMES
      modifies this`highestFrameIndex, bitmap
      ensures Valid() && Taken() == Offered(memUpperKb, hasMap, regions)
      ensures highestFrameIndex == (if hasMap then Highest(regions) else BasicFrames(memUpperKb)) <= MAX_FRAMES
    {
      hide BitsOf;
      FillBitmap();
      highestFrameIndex := 0;
      if hasMap {
        FreeRegions(regions);
      } else {
        var totalKb: int := Wrap32(1024 + memUpperKb);
        highestFrameIndex := Wrap32(totalKb * 1024) / FRAME_SIZE;
        FreeFrames(0, Min(highestFrameIndex, MAX_FRAMES));
      }
      if highestFrameIndex > MAX_FRAMES { highestFrameIndex := MAX_FRAMES; }
    }

    /** pmm_init, given the entries of the memory map if the boot loader passed one. */
    method Init(memUpperKb: u32, kernelStart: u32, kernelEnd: u32, hasMap: bool, regions: seq<Region>)
      requires Valid() && EndFrame(kernelStart, Wrap32(kernelEnd - kernelStart)) <= MAX_FRAMES
      requires hasMap ==> forall i :: 0 <= i < |regions| && Available(regions[i]) ==>
          RegionEnd(regions[i]) <= MAX_FRAMES
      modifies this, bitmap
      ensures Valid()
      ensures InitBits(Taken(), Offered(memUpperKb, hasMap, regions), kernelStart, Wrap32(kernelEnd - kernelStart))
      ensures Charged(old(usedFrames), Count(Offered(memUpperKb, hasMap, regions), false), usedFrames,
          Count(Taken(), false))
      ensures totalFrames == if hasMap then Highest(regions) else BasicFrames(memUpperKb)
      ensures old(usedFrames) == 0 ==>
                Inv(State(), Reserved(kernelStart, Wrap32(kernelEnd - kernelStart)), {},
                    Count(Offered(memUpperKb, hasMap, regions), false))
    {
      hide BitsOf, Count, Charged, Inv, Offered, Highest, BasicFrames, InRegion;
      OfferedBelow(memUpperKb, hasMap, regions);
      OfferFrames(memUpperKb, hasMap, regions);
      totalFrames := highestFrameIndex;
      ReserveRange(0, 0x10_0000);
      ghost var (used, free) := (usedFrames, Count(Taken(), false));
      MarkUsedRegion(kernelStart, Wrap32(kernelEnd - kernelStart));
      ChargedBoth(old(usedFrames), Count(Offered(memUpperKb, hasMap, regions), false), used, free, usedFrames,
          Count(Taken(), false));
      Ready(Offered(memUpperKb, hasMap, regions), kernelStart, Wrap32(kernelEnd - kernelStart), old(usedFrames));
    }

    /** What initialisation leaves is where every run starts. */
    lemma Ready(offered: seq<bool>, base: u32, size: u32, before: u32)
      requires Valid() && InitBits(Taken(), offered, base, size) && EndFrame(base, size) <= MAX_FRAMES
      requires Charged(before, Count(offered, false), usedFrames, Count(Taken(), false))
      ensures before == 0 && (forall f :: totalFrames <= f < MAX_FRAMES ==> offered[f]) ==>
                Inv(State(), Reserved(base, size), {}, Count(offered, false))
    {
      ReservedCount(Taken(), offered);
      if before == 0 && forall f :: totalFrames <= f < MAX_FRAMES ==> offered[f] {
        InitInv(State(), offered, base, size);
      }
    }

    /** pmm_alloc_frame. */
    method AllocFrame() returns (addr: u32)
      requires Valid()
      modifies this`usedFrames, bitmap
      ensures Valid() && (State(), addr) == Alloc(old(State()))
    {
      hide BitsOf;
      var f: nat := 0;
      while f < totalFrames
        invariant f <= totalFrames && State() == old(State())
        invariant FirstClear(Taken(), 0, totalFrames) == FirstClear(Taken(), f, totalFrames)
      {
        var taken := TestFrame(f);
        if !taken {
          SetFrame(f);
          usedFrames := Wrap32(usedFrames + 1);
          return f * FRAME_SIZE;
        }
        FirstClearStep(Taken(), f, totalFrames);
        f := f + 1;
      }
      assert FirstClear(Taken(), f, totalFrames) == totalFrames;
      return 0;
    }

    /** pmm_free_frame. */
    method FreeFrame(addr: u32)
      requires Valid()
      modifies this`usedFrames, bitmap
      ensures Valid() && State() == Free(old(State()), addr)
    {
      hide BitsOf;
      var f := addr / FRAME_SIZE;
      if f < totalFrames {
        var taken := TestFrame(f);
        if taken {
          ClearFrame(f);
          usedFrames := Wrap32(usedFrames - 1);
        }
      }
    }
  }

  lemma ZeroBits(k: nat)
    requires k < 32
    ensures !Test(0, k)
  {
    TestIs(0, k);
    BitZero(k);
  }

  lemma OffersNone()
    ensures Highest([]) == 0 && forall f: nat :: !Offers([], f)
  {
  }

  lemma HighestSnoc(regions: seq<Region>, i: nat)
    requires i < |regions|
    ensures Highest(regions[..i + 1]) ==
            var (r, before) := (regions[i], Highest(regions[..i]));
            if Available(r) && RegionEnd(r) > before then RegionEnd(r) else before
  {
    hide Available, RegionEnd;
    var (a, b) := (regions[..i], regions[..i + 1]);
    assert b[..|b| - 1] == a && b[|b| - 1] == regions[i];
  }

  lemma OffersSnoc(regions: seq<Region>, i: nat)
    requires i < |regions|
    ensures regions[..i + 1][..i] == regions[..i]
    ensures forall f: nat :: Offers(regions[..i + 1], f) <==>
              Offers(regions[..i], f) || (Available(regions[i]) && RegionStart(regions[i]) <= f < RegionEnd(regions[i]))
  {
    hide Highest, Available, RegionEnd, RegionStart;
    var (a, b) := (regions[..i], regions[..i + 1]);
    assert b == a + [regions[i]];
    forall f: nat
      ensures Offers(b, f) <==>
              Offers(a, f) || (Available(regions[i]) && RegionStart(regions[i]) <= f < RegionEnd(regions[i]))
    {
      if Offers(a, f) {
        var k :| 0 <= k < |a| && Available(a[k]) && RegionStart(a[k]) <= f < RegionEnd(a[k]);
        assert b[k] == a[k];
      }
      assert b[i] == regions[i];
    }
  }

  lemma OfferedBelow(memUpperKb: u32, hasMap: bool, regions: seq<Region>)
    ensures forall f :: (if hasMap then Highest(regions) else BasicFrames(memUpperKb)) <= f < MAX_FRAMES ==>
              Offered(memUpperKb, hasMap, regions)[f]
  {
  }

  /** The bits before anything is reserved. */
  ghost function Offered(memUpperKb: u32, hasMap: bool, regions: seq<Region>): (s: seq<bool>)
    ensures |s| == MAX_FRAMES
  {
    if hasMap then seq(MAX_FRAMES, f requires 0 <= f => !Offers(regions, f))
    else Prefix(BasicFrames(memUpperKb), MAX_FRAMES)
  }
}
