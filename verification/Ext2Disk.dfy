/** The block and inode bitmaps of the ext2 image, and the free counts kept twice beside them. */
module Ext2Disk {
  import opened Counting
  import opened DiskBits

  const EXT2_NUM_BLOCKS: nat := 128
  const TOTAL_BLOCK_COUNT: nat := 15
  const DIRECT_BLOCK_COUNT: nat := 12
  const INDIRECT_BLOCK: nat := 12
  const DBLE_INDIRECT_BLOCK: nat := 13
  const TPLE_INDIRECT_BLOCK: nat := 14
  const EXT2_GOOD_OLD_FIRST_INO: nat := 11
  const EXT2_S_IFREG: nat := 0x8000

  type Pointers = p: seq<nat> | |p| == TOTAL_BLOCK_COUNT witness seq(TOTAL_BLOCK_COUNT, _ => 0)

  datatype Inode = Inode(mode: nat, uid: nat, size: nat, atime: nat, ctime: nat, mtime: nat, dtime: nat, gid: nat,
                         links: nat, iBlocks: nat, flags: nat, osd1: nat, block: Pointers, generation: nat,
                         fileAcl: nat, dirAcl: nat, faddr: nat)

  /** Which of the first n bits of the bitmap are clear. */
  function Free(bitmap: seq<bv8>, n: nat): (free: seq<bool>)
    requires n <= 8 * |bitmap|
    ensures |free| == n && forall i :: 0 <= i < n ==> free[i] == !Marked(bitmap, i)
  {
    seq(n, i requires 0 <= i < n => !Marked(bitmap, i))
  }

  lemma FreeAfter(bitmap: seq<bv8>, n: nat, k: nat, value: nat)
    requires n <= 8 * |bitmap| && k < n
    ensures var at := k / 8;
            Free(bitmap[at := if value != 0 then PutBit(bitmap[at], Shift(k % 8)) else ClearBit(bitmap[at], Shift(k % 8))], n)
            == Free(bitmap, n)[k := value == 0]
  {
    hide Marked, PutBit, ClearBit, Shift;
    var at := k / 8;
    var next := bitmap[at := if value != 0 then PutBit(bitmap[at], Shift(k % 8)) else ClearBit(bitmap[at], Shift(k % 8))];
    forall i | 0 <= i < n ensures Free(next, n)[i] == Free(bitmap, n)[k := value == 0][i] {
      MarkedAfter(bitmap, k, i);
    }
  }

  /** Bit i is clear exactly if byte i / 8, as a number, does not have the weight of bit i % 8. */
  lemma FreeValue(bitmap: seq<bv8>, n: nat)
    requires n <= 8 * |bitmap|
    ensures forall i :: 0 <= i < n ==> (Free(bitmap, n)[i] <==> bitmap[i / 8] as int / Weight(i % 8) % 2 == 0)
  {
    hide Marked, Weight;
    forall i | 0 <= i < n ensures Free(bitmap, n)[i] <==> bitmap[i / 8] as int / Weight(i % 8) % 2 == 0 {
      MarkedValue(bitmap, i);
    }
  }

  /** A first byte of 0x0f: blocks 1 to 4 are in use, and 5 to 8 are free. */
  lemma LowBitsFirst(bitmap: seq<bv8>)
    requires bitmap != [] && bitmap[0] == 0x0f
    ensures Free(bitmap, 8) == [false, false, false, false, true, true, true, true]
  {
    FreeValue(bitmap, 8);
    assert (0x0f as bv8) as int == 15;
  }

  /** The clear bits of a bitmap are all that there is to it. */
  lemma SameFree(a: seq<bv8>, b: seq<bv8>)
    requires |a| == |b| && Free(a, 8 * |a|) == Free(b, 8 * |b|)
    ensures a == b
  {
    hide HasBit, Shift;
    forall i | 0 <= i < |a| ensures a[i] == b[i] {
      forall k: nat | k < 8 ensures HasBit(a[i], Shift(k)) == HasBit(b[i], Shift(k)) {
        assert Free(a, 8 * |a|)[8 * i + k] == Free(b, 8 * |b|)[8 * i + k];
        assert (8 * i + k) / 8 == i && (8 * i + k) % 8 == k;
      }
      SameByte(a[i], b[i]);
    }
  }

  /** The bit of a number in a bitmap is clear, read from the byte as a number. */
  predicate ClearAt(bitmap: seq<bv8>, num: nat)
    requires 1 <= num <= 8 * |bitmap|
  {
    bitmap[(num - 1) / 8] as int / Weight((num - 1) % 8) % 2 == 0
  }

  /** Bit i is the first clear one from `least` on. */
  lemma LeastClear(bitmap: seq<bv8>, n: nat, least: nat, i: nat)
    requires least <= i < n <= 8 * |bitmap| && !Marked(bitmap, i) && forall j :: least <= j < i ==> Marked(bitmap, j)
    ensures ClearAt(bitmap, i + 1) && forall num :: least < num <= i ==> !ClearAt(bitmap, num)
  {
    hide Marked, Weight;
    MarkedValue(bitmap, i);
    forall num | least < num <= i ensures !ClearAt(bitmap, num) {
      MarkedValue(bitmap, num - 1);
    }
  }

  lemma FirstFree(bitmap: seq<bv8>, n: nat)
    requires n <= 8 * |bitmap|
    ensures Free(bitmap, 8 * |bitmap|)[..n] == Free(bitmap, n)
  {
  }

  /** Changing one flag changes the count of all flags as it does that of the first n, if it is one of them. */
  lemma CountOfFirst(bits: seq<bool>, n: nat, k: nat, flag: bool)
    requires n <= |bits| && k < |bits|
    ensures k < n ==> Count(bits[k := flag]) - Count(bits) == Count(bits[k := flag][..n]) - Count(bits[..n])
  {
    hide Count;
    CountUpdate(bits, k, flag);
    if k < n {
      assert bits[k := flag][..n] == bits[..n][k := flag];
      CountUpdate(bits[..n], k, flag);
    }
  }

  /** A count above zero means that some flag is set. */
  lemma SomeFree(free: seq<bool>)
    requires Count(free) > 0
    ensures exists i :: 0 <= i < |free| && free[i]
  {
    if forall i :: 0 <= i < |free| ==> !free[i] {
      CountNone(free);
    }
  }

  class Disk {
    const blocksCount: nat
    const inodesCount: nat
    const blockBitmap: array<bv8>
    const inodeBitmap: array<bv8>
    const inodes: array<Inode>
    const blocks: array<Block>
    var sFreeBlocks: int
    var bgFreeBlocks: int
    var sFreeInodes: int
    var bgFreeInodes: int

    /** Both copies of each count are the number of clear bits of its bitmap. */
    ghost predicate Valid()
      reads this, blockBitmap, inodeBitmap
    {
      && Shape()
      && sFreeBlocks == bgFreeBlocks == Count(FreeBlocks())
      && sFreeInodes == bgFreeInodes == Count(FreeInodes())
    }

    ghost predicate Shape() {
      var b: object, i: object := blocks, inodes;
      && b != blockBitmap && b != inodeBitmap && i != blockBitmap && i != inodeBitmap && b != i
      && blockBitmap != inodeBitmap && blocksCount <= 8 * blockBitmap.Length && inodesCount <= 8 * inodeBitmap.Length
      && blocksCount <= EXT2_NUM_BLOCKS && blocks.Length == EXT2_NUM_BLOCKS
    }

    /** Which bits of the bitmaps are clear, the padding behind the last block or inode included. */
    ghost function BlockBits(): (free: seq<bool>)
      reads blockBitmap
      ensures |free| == 8 * blockBitmap.Length
    {
      Free(blockBitmap[..], 8 * blockBitmap.Length)
    }

    ghost function InodeBits(): (free: seq<bool>)
      reads inodeBitmap
      ensures |free| == 8 * inodeBitmap.Length
    {
      Free(inodeBitmap[..], 8 * inodeBitmap.Length)
    }

    /** Flag i is for block number i + 1. */
    ghost function FreeBlocks(): (free: seq<bool>)
      requires Shape()
      reads blockBitmap
      ensures |free| == blocksCount && forall i :: 0 <= i < blocksCount ==> free[i] == !Marked(blockBitmap[..], i)
    {
      BlockBits()[..blocksCount]
    }

    ghost function FreeInodes(): (free: seq<bool>)
      requires Shape()
      reads inodeBitmap
      ensures |free| == inodesCount && forall i :: 0 <= i < inodesCount ==> free[i] == !Marked(inodeBitmap[..], i)
    {
      InodeBits()[..inodesCount]
    }

    /** The image as read, its free counts agreeing with its bitmaps. */
    constructor (blockBits: seq<bv8>, inodeBits: seq<bv8>, inodeTable: seq<Inode>, image: seq<Block>,
                 blocksCount: nat, inodesCount: nat, freeBlocks: int, freeInodes: int)
      requires blocksCount <= 8 * |blockBits| && inodesCount <= 8 * |inodeBits|
      requires blocksCount <= EXT2_NUM_BLOCKS && |image| == EXT2_NUM_BLOCKS
      requires freeBlocks == Count(Free(blockBits, blocksCount))
      requires freeInodes == Count(Free(inodeBits, inodesCount))
      ensures Valid() && blockBitmap[..] == blockBits && inodeBitmap[..] == inodeBits
      ensures inodes[..] == inodeTable && blocks[..] == image
      ensures this.blocksCount == blocksCount && this.inodesCount == inodesCount
    {
      hide Count, Free;
      blockBitmap := new bv8[|blockBits|](i requires 0 <= i < |blockBits| => blockBits[i]);
      inodeBitmap := new bv8[|inodeBits|](i requires 0 <= i < |inodeBits| => inodeBits[i]);
      inodes := new Inode[|inodeTable|](i requires 0 <= i < |inodeTable| => inodeTable[i]);
      blocks := new Block[|image|](i requires 0 <= i < |image| => image[i]);
      this.blocksCount, this.inodesCount := blocksCount, inodesCount;
      sFreeBlocks, bgFreeBlocks, sFreeInodes, bgFreeInodes := freeBlocks, freeBlocks, freeInodes, freeInodes;
      new;
      assert blockBitmap[..] == blockBits && inodeBitmap[..] == inodeBits;
      FirstFree(blockBits, blocksCount);
      FirstFree(inodeBits, inodesCount);
    }

    /** By how much each count exceeds the number of clear bits of its whole bitmap, in both copies. */
    ghost function Drift(): (int, int, int, int)
      reads this, blockBitmap, inodeBitmap
    {
      (sFreeBlocks - Count(BlockBits()), bgFreeBlocks - Count(BlockBits()),
       sFreeInodes - Count(InodeBits()), bgFreeInodes - Count(InodeBits()))
    }

    /**
     update_bitmap: sets or clears the bit of a block or inode, and moves both counts if that changes it. The
     number is not compared with how many blocks or inodes there are: a bit of the padding counts as well.
     */
    method UpdateBitmap(kind: char, num: nat, value: nat)
      requires Shape() && num <= 8 * if kind == 'b' then blockBitmap.Length else inodeBitmap.Length
      modifies blockBitmap, inodeBitmap, `sFreeBlocks, `bgFreeBlocks, `sFreeInodes, `bgFreeInodes
      ensures BlockBits() == if kind == 'b' && num != 0 then old(BlockBits())[num - 1 := value == 0] else old(BlockBits())
      ensures InodeBits() == if kind != 'b' && num != 0 then old(InodeBits())[num - 1 := value == 0] else old(InodeBits())
      ensures Drift() == old(Drift())
      ensures old(Valid()) && num <= (if kind == 'b' then blocksCount else inodesCount) ==> Valid()
    {
      hide Count, Free;
      if num != 0 {
        ghost var bits := if kind == 'b' then BlockBits() else InodeBits();
        CountOfFirst(bits, if kind == 'b' then blocksCount else inodesCount, num - 1, value == 0);
        var change := WriteBit(if kind == 'b' then blockBitmap else inodeBitmap, num, value);
        Adjust(kind, change);
        assert kind == 'b' ==> inodeBitmap[..] == old(inodeBitmap[..]);
        assert kind != 'b' ==> blockBitmap[..] == old(blockBitmap[..]);
      }
    }

    /** Sets or clears one bit of a bitmap; the change is that of the number of clear bits. */
    method WriteBit(bitmap: array<bv8>, num: nat, value: nat) returns (change: int)
      requires 0 < num <= 8 * bitmap.Length
      modifies bitmap
      ensures Free(bitmap[..], 8 * bitmap.Length) == Free(old(bitmap[..]), 8 * bitmap.Length)[num - 1 := value == 0]
      ensures change == Count(Free(bitmap[..], 8 * bitmap.Length)) - Count(Free(old(bitmap[..]), 8 * bitmap.Length))
    {
      hide Count, Free, Marked, PutBit, ClearBit, Shift, HasBit;
      var at, bit := (num - 1) / 8, (num - 1) % 8;
      ghost var before := bitmap[..];
      BitHere(before, num - 1);
      FreeAfter(before, 8 * |before|, num - 1, value);
      CountUpdate(Free(before, 8 * |before|), num - 1, value == 0);
      change := 0;
      if value != 0 {
        if !HasBit(bitmap[at], Shift(bit)) {
          change := -1;
        }
        bitmap[at] := PutBit(bitmap[at], Shift(bit));
      } else {
        if HasBit(bitmap[at], Shift(bit)) {
          change := 1;
        }
        bitmap[at] := ClearBit(bitmap[at], Shift(bit));
      }
      assert bitmap[..] == before[at := bitmap[at]];
    }

    lemma BitHere(bitmap: seq<bv8>, i: nat)
      requires i < 8 * |bitmap|
      ensures Marked(bitmap, i) == HasBit(bitmap[i / 8], Shift(i % 8))
    {
    }

    method Adjust(kind: char, change: int)
      modifies `sFreeBlocks, `bgFreeBlocks, `sFreeInodes, `bgFreeInodes
      ensures sFreeBlocks == old(sFreeBlocks) + (if kind == 'b' then change else 0)
      ensures bgFreeBlocks == old(bgFreeBlocks) + (if kind == 'b' then change else 0)
      ensures sFreeInodes == old(sFreeInodes) + (if kind == 'b' then 0 else change)
      ensures bgFreeInodes == old(bgFreeInodes) + (if kind == 'b' then 0 else change)
    {
      if kind == 'b' {
        sFreeBlocks := sFreeBlocks + change;
        bgFreeBlocks := bgFreeBlocks + change;
      } else {
        sFreeInodes := sFreeInodes + change;
        bgFreeInodes := bgFreeInodes + change;
      }
    }

    /** find_free_block: the least free block number, or 0. */
    method FindFreeBlock() returns (num: nat)
      requires Valid()
      ensures num <= blocksCount && (num == 0 <==> bgFreeBlocks == 0)
      ensures num != 0 ==> FreeBlocks()[num - 1] && forall i :: 0 <= i < num - 1 ==> !FreeBlocks()[i]
      ensures num != 0 ==> ClearAt(blockBitmap[..], num) && forall i :: 1 <= i < num ==> !ClearAt(blockBitmap[..], i)
    {
      hide Marked, HasBit, Shift, ClearAt;
      var i := 0;
      while i < blocksCount
        invariant 0 <= i <= blocksCount && forall j :: 0 <= j < i ==> !FreeBlocks()[j]
      {
        BitHere(blockBitmap[..], i);
        if !HasBit(blockBitmap[i / 8], Shift(i % 8)) {
          if bgFreeBlocks == 0 {
            CountPresent(FreeBlocks(), i);
          }
          LeastClear(blockBitmap[..], blocksCount, 0, i);
          return i + 1;
        }
        i := i + 1;
      }
      if bgFreeBlocks != 0 {
        SomeFree(FreeBlocks());
      }
      return 0;
    }

    /** find_free_inode: the least free inode number past the reserved ones, or 0. */
    method FindFreeInode() returns (num: nat)
      requires Valid()
      ensures num <= inodesCount
      ensures num == 0 <==> forall i :: EXT2_GOOD_OLD_FIRST_INO <= i < inodesCount ==> !FreeInodes()[i]
      ensures num != 0 ==> num > 11 && FreeInodes()[num - 1]
      ensures num != 0 ==> forall i :: EXT2_GOOD_OLD_FIRST_INO <= i < num - 1 ==> !FreeInodes()[i]
      ensures num != 0 ==> ClearAt(inodeBitmap[..], num)
                           && forall i :: EXT2_GOOD_OLD_FIRST_INO < i < num ==> !ClearAt(inodeBitmap[..], i)
    {
      hide Marked, HasBit, Shift, ClearAt;
      var i := 0;
      while i < inodesCount
        invariant 0 <= i <= inodesCount
        invariant forall j :: EXT2_GOOD_OLD_FIRST_INO <= j < i ==> !FreeInodes()[j]
      {
        if i >= EXT2_GOOD_OLD_FIRST_INO {
          BitHere(inodeBitmap[..], i);
          if !HasBit(inodeBitmap[i / 8], Shift(i % 8)) {
            assert FreeInodes()[i];
            LeastClear(inodeBitmap[..], inodesCount, EXT2_GOOD_OLD_FIRST_INO, i);
            return i + 1;
          }
        }
        i := i + 1;
      }
      return 0;
    }
  }
}
