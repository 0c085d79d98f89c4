/** The block allocator of kernel/pmm.c on its bitmap words. */
module BlockPool {
  import opened CTypes
  import opened Bits
  import opened BlockModel

  class Pmm {
    const bitmap: array<u32>
    const bitmapSize: u32
    const maxBlocks: u32
    var usedBlocks: u32

    /** The allocator over a bitmap that is already in place. */
    constructor (bitmap: array<u32>, maxBlocks: u32, usedBlocks: u32)
      requires bitmap.Length < TWO_32 && maxBlocks <= 32 * bitmap.Length
      ensures Valid() && State() == Blocks(BitsOf(bitmap[..]), maxBlocks, usedBlocks)
    {
      this.bitmap, bitmapSize := bitmap, bitmap.Length;
      this.maxBlocks, this.usedBlocks := maxBlocks, usedBlocks;
    }

    ghost predicate Valid()
      reads this, bitmap
    {
      bitmap.Length == bitmapSize && maxBlocks <= 32 * bitmap.Length
    }

    ghost function Taken(): (s: seq<bool>)
      reads bitmap
      ensures |s| == 32 * bitmap.Length
    {
      BitsOf(bitmap[..])
    }

    ghost function State(): Blocks
      reads this, bitmap
    {
      Blocks(Taken(), maxBlocks, usedBlocks)
    }

    /** pmm_alloc: skips the words that are full, and the set bits of the first that is not. */
    method Alloc() returns (addr: u32)
      requires Valid()
      modifies this`usedBlocks, bitmap
      ensures Valid() && (State(), addr) == BlockModel.Alloc(old(State()))
    {
      hide BitsOf;
      if usedBlocks >= maxBlocks { return 0; }
      var i: nat := 0;
      while i < bitmapSize
        invariant i <= bitmapSize && State() == old(State())
        invariant Lowest(Taken()) == FirstClear(Taken(), 32 * i, 32 * bitmap.Length)
      {
        if bitmap[i] != 0xFFFF_FFFF {
          var j := FindBit(i);
          assert (32 * i + j) / 32 == i && (32 * i + j) % 32 == j;
          SetBlock(32 * i + j);
          usedBlocks := Wrap32(usedBlocks + 1);
          return Wrap32((i * 32 + j) * PAGE_SIZE);
        }
        SkipWord(i);
        i := i + 1;
      }
      assert FirstClear(Taken(), 32 * i, 32 * bitmap.Length) == 32 * bitmap.Length;
      return 0;
    }

    /** The inner loop: the lowest clear bit of a word that has one. */
    method FindBit(i: nat) returns (j: nat)
      requires i < bitmap.Length && bitmap[i] != 0xFFFF_FFFF
      ensures j < 32 && FirstClear(Taken(), 32 * i, 32 * bitmap.Length) == 32 * i + j
    {
      hide FirstClear, BitsOf, And;
      j := 0;
      FullIs(bitmap[i]);
      while Test(bitmap[i], j)
        invariant j < 32 && exists k :: j <= k < 32 && !Test(bitmap[i], k)
        invariant FirstClear(Taken(), 32 * i, 32 * bitmap.Length) == FirstClear(Taken(), 32 * i + j, 32 * bitmap.Length)
        decreases 32 - j
      {
        BitAt(i, j);
        FirstClearStep(Taken(), 32 * i + j, 32 * bitmap.Length);
        j := j + 1;
      }
      BitAt(i, j);
      FirstClearHere(Taken(), 32 * i + j, 32 * bitmap.Length);
    }

    lemma BitAt(i: nat, j: nat)
      requires i < bitmap.Length && j < 32
      ensures Taken()[32 * i + j] == Test(bitmap[i], j)
    {
      assert (32 * i + j) / 32 == i && (32 * i + j) % 32 == j;
    }

    lemma SkipWord(i: nat)
      requires i < bitmap.Length && bitmap[i] == 0xFFFF_FFFF
      ensures FirstClear(Taken(), 32 * i, 32 * bitmap.Length) == FirstClear(Taken(), 32 * i + 32, 32 * bitmap.Length)
    {
      FullIs(bitmap[i]);
      forall f | 32 * i <= f < 32 * i + 32 ensures Taken()[f] { BitAt(i, f - 32 * i); }
      FirstClearSkip(Taken(), 32 * i, 32 * i + 32, 32 * bitmap.Length);
    }

    method SetBlock(b: nat)
      requires Valid() && b < 32 * bitmap.Length
      modifies bitmap
      ensures Taken() == old(Taken())[b := true]
    {
      SetBitOf(bitmap[..], b);
      ghost var was := bitmap[..];
      bitmap[b / 32] := SetBit(bitmap[b / 32], b % 32);
      assert bitmap[..] == was[b / 32 := SetBit(was[b / 32], b % 32)];
    }

    method ClearBlock(b: nat)
      requires Valid() && b < 32 * bitmap.Length
      modifies bitmap
      ensures Taken() == old(Taken())[b := false]
    {
      ClearBitOf(bitmap[..], b);
      ghost var was := bitmap[..];
      bitmap[b / 32] := ClearBit(bitmap[b / 32], b % 32);
      assert bitmap[..] == was[b / 32 := ClearBit(was[b / 32], b % 32)];
    }

    /** pmm_free. */
    method Free(addr: u32)
      requires Valid()
      modifies this`usedBlocks, bitmap
      ensures Valid() && State() == BlockModel.Free(old(State()), addr)
    {
      var b := addr / PAGE_SIZE;
      if b >= maxBlocks { return; }
      if !Test(bitmap[b / 32], b % 32) { return; }
      ClearBlock(b);
      usedBlocks := Wrap32(usedBlocks - 1);
    }
  }
}
