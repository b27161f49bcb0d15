/**
 Copying a file onto the ext2 image: the admission test, the writer through direct and indirect pointers,
 and giving the blocks back.
 */
module Ext2Cp {
  import opened Counting
  import opened DiskBits
  import opened Distinctness
  import opened Ext2Disk

  // ---------- admission ----------

  const DIRECT_BYTES: nat := DIRECT_BLOCK_COUNT * BLOCK_SIZE
  const INDIRECT_BYTES: nat := POINTERS * BLOCK_SIZE
  const DOUBLE_BYTES: nat := POINTERS * POINTERS * BLOCK_SIZE
  const TRIPLE_BYTES: nat := POINTERS * POINTERS * POINTERS * BLOCK_SIZE

  function CeilDiv(a: nat, c: nat): nat
    requires c > 0
  {
    a / c + if a % c != 0 then 1 else 0
  }

  /** have_enough_blocks: the blocks that a file of this size is thought to need, or -1 if it is too large. */
  function Needed(size: nat): int {
    if size < DIRECT_BYTES then CeilDiv(size, BLOCK_SIZE)
    else if size < DIRECT_BYTES + INDIRECT_BYTES then
      DBLE_INDIRECT_BLOCK + CeilDiv(size - DIRECT_BYTES, BLOCK_SIZE)
    else if size < DIRECT_BYTES + INDIRECT_BYTES + DOUBLE_BYTES then
      var ends := CeilDiv(size - DIRECT_BYTES - INDIRECT_BYTES, BLOCK_SIZE);
      TPLE_INDIRECT_BLOCK + POINTERS + CeilDiv(ends, POINTERS) + ends
    else if size < DIRECT_BYTES + INDIRECT_BYTES + DOUBLE_BYTES + TRIPLE_BYTES then
      var ends := (size - DIRECT_BYTES - POINTERS - DOUBLE_BYTES) / BLOCK_SIZE
                  + if (size - DIRECT_BYTES - INDIRECT_BYTES - DOUBLE_BYTES) % BLOCK_SIZE != 0 then 1 else 0;
      var ptrs := CeilDiv(ends, POINTERS);
      TOTAL_BLOCK_COUNT + 2 * POINTERS + POINTERS * POINTERS
        + ptrs + ends + ptrs / POINTERS + if ptrs / POINTERS % POINTERS != 0 then 1 else 0
    else -1
  }

  /** Data blocks of a file of this size, and the blocks the writer takes for it. */
  function DataBlocks(size: nat): nat {
    CeilDiv(size, BLOCK_SIZE)
  }

  function BlocksTaken(size: nat): nat {
    DataBlocks(size) + if DataBlocks(size) > DIRECT_BLOCK_COUNT then 1 else 0
  }

  predicate Admitted(size: nat, free: int) {
    Needed(size) != -1 && free >= Needed(size)
  }

  /**
   On a disk of 128 blocks a file is admitted exactly when the blocks that the writer takes are free, except
   that a file of exactly twelve blocks is asked for one block too many. No admitted file needs double indirection.
   */
  lemma Admission(size: nat, free: int)
    requires free <= EXT2_NUM_BLOCKS
    ensures Admitted(size, free) <==> BlocksTaken(size) + (if size == DIRECT_BYTES then 1 else 0) <= free
    ensures Admitted(size, free) ==> DataBlocks(size) <= DIRECT_BLOCK_COUNT + POINTERS
  {
  }

  // ---------- taking blocks ----------

  /** The blocks taken are distinct, their bits were clear before, and are all that is no longer clear. */
  ghost predicate Took(before: seq<bool>, after: seq<bool>, taken: seq<nat>) {
    && |before| == |after| && Distinct(taken)
    && (forall j :: 0 <= j < |taken| ==> 1 <= taken[j] <= |before| && before[taken[j] - 1])
    && forall i :: 0 <= i < |before| ==> after[i] == (before[i] && (i + 1) !in taken)
  }

  lemma TookNext(before: seq<bool>, after: seq<bool>, taken: seq<nat>, num: nat)
    requires Took(before, after, taken) && 1 <= num <= |after| && after[num - 1]
    ensures num !in taken && Took(before, after[num - 1 := false], taken + [num])
  {
    var more := taken + [num];
    forall i | 0 <= i < |before| ensures after[num - 1 := false][i] == (before[i] && (i + 1) !in more) {
      assert (i + 1) in more <==> (i + 1) in taken || i + 1 == num;
    }
  }

  /** No block number past the end of the image is free. */
  ghost predicate Sealed(d: Disk)
    requires d.Shape()
    reads d.blockBitmap
  {
    forall i :: 0 <= i < d.blocksCount && d.FreeBlocks()[i] ==> i + 1 < d.blocks.Length
  }

  /** One block is found and marked: it exists as long as any is free. */
  method AllocBlock(d: Disk) returns (num: nat)
    requires d.Valid() && Sealed(d) && d.bgFreeBlocks > 0
    modifies d.blockBitmap, d.inodeBitmap, d`sFreeBlocks, d`bgFreeBlocks, d`sFreeInodes, d`bgFreeInodes
    ensures d.Valid() && Sealed(d) && d.bgFreeBlocks == old(d.bgFreeBlocks) - 1 && d.Drift() == old(d.Drift())
    ensures 1 <= num <= d.blocksCount && num < d.blocks.Length && old(d.BlockBits())[num - 1]
    ensures d.BlockBits() == old(d.BlockBits())[num - 1 := false] && d.InodeBits() == old(d.InodeBits())
  {
    hide Count, Free, Marked;
    num := d.FindFreeBlock();
    CountUpdate(d.BlockBits(), num - 1, false);
    d.UpdateBitmap('b', num, 1);
  }

  // ---------- contents ----------

  /** Chunk k of the file is at the start of the block. */
  ghost predicate ChunkIn(b: Block, file: seq<byte>, k: nat) {
    forall x :: 0 <= x < BLOCK_SIZE && BLOCK_SIZE * k + x < |file| ==> b[x] == file[BLOCK_SIZE * k + x]
  }

  /** The blocks listed hold the chunks of the file in order. */
  ghost predicate Stored(blocks: seq<Block>, file: seq<byte>, data: seq<nat>) {
    forall k :: 0 <= k < |data| ==> data[k] < |blocks| && ChunkIn(blocks[data[k]], file, k)
  }

  /** What the read number k of a block's worth returns; nothing past the end. */
  function Chunk(file: seq<byte>, k: nat): (chunk: seq<byte>)
    ensures |chunk| <= BLOCK_SIZE && (chunk == [] <==> k >= DataBlocks(|file|))
    ensures forall x :: 0 <= x < |chunk| ==> BLOCK_SIZE * k + x < |file| && chunk[x] == file[BLOCK_SIZE * k + x]
    ensures |chunk| < BLOCK_SIZE ==> BLOCK_SIZE * k + |chunk| >= |file|
  {
    var from := BLOCK_SIZE * k;
    if from >= |file| then [] else if from + BLOCK_SIZE <= |file| then file[from..from + BLOCK_SIZE] else file[from..]
  }

  /** copy_data_to_block: the bytes read go to the start of the block; the rest of the block stays. */
  method CopyDataToBlock(d: Disk, num: nat, buffer: seq<byte>)
    requires num < d.blocks.Length && |buffer| <= BLOCK_SIZE
    modifies d.blocks
    ensures d.blocks[..] == old(d.blocks[..])[num := buffer + old(d.blocks[num])[|buffer|..]]
  {
    d.blocks[num] := buffer + d.blocks[num][|buffer|..];
  }

  lemma StoredNext(blocks: seq<Block>, file: seq<byte>, data: seq<nat>, num: nat, b: Block)
    requires Stored(blocks, file, data) && num < |blocks| && num !in data && ChunkIn(b, file, |data|)
    ensures Stored(blocks[num := b], file, data + [num])
  {
    var more := data + [num];
    forall k | 0 <= k < |more| ensures more[k] < |blocks| && ChunkIn(blocks[num := b][more[k]], file, k) {
      assert k < |data| ==> data[k] in data;
    }
  }

  lemma StoredKept(blocks: seq<Block>, file: seq<byte>, data: seq<nat>, num: nat, b: Block)
    requires Stored(blocks, file, data) && num < |blocks| && num !in data
    ensures Stored(blocks[num := b], file, data)
  {
    forall k | 0 <= k < |data| ensures ChunkIn(blocks[num := b][data[k]], file, k) {
      assert data[k] in data;
    }
  }

  lemma ChunkWritten(file: seq<byte>, k: nat, b: Block)
    ensures ChunkIn(Chunk(file, k) + b[|Chunk(file, k)|..], file, k)
  {
  }

  // ---------- reading a file back ----------

  /** The number of block k of a file, through its direct and indirect pointers. */
  function FileBlock(inode: Inode, blocks: seq<Block>, k: nat): nat
    requires k < DIRECT_BLOCK_COUNT + POINTERS
  {
    if k < DIRECT_BLOCK_COUNT then inode.block[k]
    else if inode.block[INDIRECT_BLOCK] < |blocks| then
      Pointer(blocks[inode.block[INDIRECT_BLOCK]], k - DIRECT_BLOCK_COUNT)
    else 0
  }

  /** Reading through the pointers gives the file, byte for byte. */
  ghost predicate ReadsBack(inode: Inode, blocks: seq<Block>, file: seq<byte>) {
    forall x :: 0 <= x < |file| ==> ByteAt(inode, blocks, x, file[x])
  }

  predicate ByteAt(inode: Inode, blocks: seq<Block>, x: nat, value: byte) {
    && x / BLOCK_SIZE < DIRECT_BLOCK_COUNT + POINTERS
    && FileBlock(inode, blocks, x / BLOCK_SIZE) < |blocks|
    && blocks[FileBlock(inode, blocks, x / BLOCK_SIZE)][x % BLOCK_SIZE] == value
  }

  /** What a reader of the image gets: as many bytes as the inode says, through its pointers. */
  function FileBytes(inode: Inode, blocks: seq<Block>): seq<byte> {
    seq(inode.size, x requires 0 <= x < inode.size => ByteOf(inode, blocks, x))
  }

  function ByteOf(inode: Inode, blocks: seq<Block>, x: nat): byte {
    if x / BLOCK_SIZE >= DIRECT_BLOCK_COUNT + POINTERS then 0
    else
      var num := FileBlock(inode, blocks, x / BLOCK_SIZE);
      if num < |blocks| then blocks[num][x % BLOCK_SIZE] else 0
  }

  /**
   The layout on the image: byte x of a file is byte x % 1024 of the block whose number is direct pointer x / 1024, or,
   from the twelfth block on, word x / 1024 - 12 of the block of pointer 12, low byte first.
   */
  predicate LaidOut(block: Pointers, blocks: seq<Block>, x: nat, value: byte) {
    if x < 12 * 1024 then
      block[x / 1024] < |blocks| && blocks[block[x / 1024]][x % 1024] == value
    else
      && x < (12 + 256) * 1024 && block[12] < |blocks|
      && var ptr, at := blocks[block[12]], 4 * (x / 1024 - 12);
         var num := ptr[at] as int + 256 * (ptr[at + 1] as int) + 65536 * (ptr[at + 2] as int) + 16777216 * (ptr[at + 3] as int);
         num < |blocks| && blocks[num][x % 1024] == value
  }

  lemma AsLaidOut(inode: Inode, blocks: seq<Block>, file: seq<byte>, x: nat)
    requires ReadsBack(inode, blocks, file) && x < |file|
    requires |file| > 12 * 1024 ==> inode.block[12] < |blocks|
    ensures LaidOut(inode.block, blocks, x, file[x])
  {
    assert ByteAt(inode, blocks, x, file[x]);
  }

  lemma BytesRead(inode: Inode, blocks: seq<Block>, file: seq<byte>)
    requires ReadsBack(inode, blocks, file) && inode.size == |file|
    ensures FileBytes(inode, blocks) == file
  {
    hide FileBlock;
    forall x | 0 <= x < |file| ensures FileBytes(inode, blocks)[x] == file[x] {
      assert ByteAt(inode, blocks, x, file[x]);
    }
  }

  // ---------- the writer ----------

  /** The image before the file was written, and its inode then. */
  datatype Image = Image(free: seq<bool>, freeCount: int, drift: (int, int, int, int), blocks: seq<Block>, inode: Inode)

  /**
   Some blocks were taken since, and the chunks of the file so far are in the data blocks; no other block has
   changed, and the inode counts what was taken.
   */
  ghost predicate Written(d: Disk, before: Image, inode: Inode, file: seq<byte>, taken: seq<nat>, data: seq<nat>)
    reads d, d.blockBitmap, d.inodeBitmap, d.blocks
  {
    && d.Valid() && Sealed(d) && |before.blocks| == d.blocks.Length
    && Took(before.free, d.BlockBits(), taken) && d.bgFreeBlocks + |taken| == before.freeCount
    && d.Drift() == before.drift
    && (forall j :: 0 <= j < |taken| ==> taken[j] < d.blocks.Length && taken[j] <= d.blocksCount)
    && Stored(d.blocks[..], file, data)
    && (forall n :: 0 <= n < d.blocks.Length && n !in taken ==> d.blocks[n] == before.blocks[n])
    && inode.iBlocks == |taken| && SameButBlocks(inode, before.inode)
  }

  predicate SameButBlocks(a: Inode, b: Inode) {
    a.(iBlocks := 0, block := NO_POINTERS) == b.(iBlocks := 0, block := NO_POINTERS)
  }

  /** Up to twelve blocks, all of them data, named by the direct pointers. */
  ghost predicate Direct(inode: Inode, taken: seq<nat>) {
    && |taken| <= DIRECT_BLOCK_COUNT
    && (forall k :: 0 <= k < |taken| ==> inode.block[k] == taken[k])
    && forall k :: |taken| <= k < TOTAL_BLOCK_COUNT ==> inode.block[k] == 0
  }

  /** The data blocks among those taken: the thirteenth is the pointer block. */
  function Data(taken: seq<nat>): seq<nat> {
    if |taken| <= DIRECT_BLOCK_COUNT then taken else taken[..DIRECT_BLOCK_COUNT] + taken[DIRECT_BLOCK_COUNT + 1..]
  }

  /** Past the thirteenth, the blocks are named in the pointer block, whose other words are as they were. */
  ghost predicate Indirect(inode: Inode, taken: seq<nat>, blocks: seq<Block>, before: seq<Block>) {
    && DIRECT_BLOCK_COUNT < |taken| <= DIRECT_BLOCK_COUNT + 1 + POINTERS && |blocks| == |before|
    && (forall k :: 0 <= k <= DIRECT_BLOCK_COUNT ==> inode.block[k] == taken[k])
    && inode.block[DBLE_INDIRECT_BLOCK] == 0 && inode.block[TPLE_INDIRECT_BLOCK] == 0
    && var ptr := taken[DIRECT_BLOCK_COUNT];
       && ptr < |blocks|
       && forall k :: 0 <= k < POINTERS ==>
            Pointer(blocks[ptr], k)
            == if k < |taken| - DIRECT_BLOCK_COUNT - 1 then taken[DIRECT_BLOCK_COUNT + 1 + k] else Pointer(before[ptr], k)
  }

  const NO_POINTERS: Pointers := [0, 0, 0, 0, 0, 0, 0, 0, 0, 0, 0, 0, 0, 0, 0]

  /** What does not depend on the blocks: one link, root as owner; the fields that are not set keep what they had. */
  predicate FreshFor(before: Inode, inode: Inode, mode: nat, size: nat, now: nat) {
    && inode.mode == mode && inode.size == size && inode.links == 1 && inode.uid == inode.gid == 0
    && inode.ctime == now && inode.dtime == 0
    && inode.atime == before.atime && inode.mtime == before.mtime && inode.flags == before.flags
    && inode.osd1 == inode.generation == inode.fileAcl == inode.dirAcl == inode.faddr == 0
  }

  /** init_inode, with the time given. */
  method InitInode(d: Disk, idx: nat, mode: nat, size: nat, now: nat)
    requires idx < d.inodes.Length
    modifies d.inodes
    ensures FreshFor(old(d.inodes[idx]), d.inodes[idx], mode, size, now) && d.inodes[idx].iBlocks == 0
    ensures d.inodes[idx].block == NO_POINTERS
    ensures forall i :: 0 <= i < d.inodes.Length && i != idx ==> d.inodes[i] == old(d.inodes[i])
  {
    d.inodes[idx] := d.inodes[idx].(mode := mode, uid := 0, size := size, ctime := now, dtime := 0, gid := 0, links := 1);
    d.inodes[idx] := d.inodes[idx].(iBlocks := 0, osd1 := 0, generation := 0, fileAcl := 0, dirAcl := 0, faddr := 0);
    var block: Pointers := d.inodes[idx].block;
    for i := 0 to TOTAL_BLOCK_COUNT
      invariant forall k :: 0 <= k < i ==> block[k] == 0
    {
      block := block[i := 0];
    }
    assert block == NO_POINTERS;
    d.inodes[idx] := d.inodes[idx].(block := block);
  }

  /** Takes one block for chunk k of the file and writes the chunk to it. */
  method WriteChunk(d: Disk, ghost before: Image, ghost inode: Inode, file: seq<byte>, k: nat, ghost taken: seq<nat>)
    returns (num: nat)
    requires Written(d, before, inode, file, taken, Data(taken)) && k == |Data(taken)| && d.bgFreeBlocks > 0
    requires |taken| != DIRECT_BLOCK_COUNT
    modifies d.blockBitmap, d.inodeBitmap, d.blocks, d`sFreeBlocks, d`bgFreeBlocks, d`sFreeInodes, d`bgFreeInodes
    ensures num !in taken && 0 < num < d.blocks.Length
    ensures Written(d, before, inode.(iBlocks := inode.iBlocks + 1), file, taken + [num], Data(taken + [num]))
    ensures forall n :: 0 <= n < d.blocks.Length && n != num ==> d.blocks[n] == old(d.blocks[n])
    ensures d.InodeBits() == old(d.InodeBits()) && d.bgFreeBlocks == old(d.bgFreeBlocks) - 1
  {
    hide Took, Stored, ChunkIn, Distinct, Count, Free, Chunk;
    ghost var free, blocks := d.BlockBits(), d.blocks[..];
    num := AllocBlock(d);
    TookNext(before.free, free, taken, num);
    DataNext(taken, num);
    ChunkWritten(file, k, d.blocks[num]);
    assert d.blocks[..] == blocks;
    StoredNext(blocks, file, Data(taken), num, Chunk(file, k) + blocks[num][|Chunk(file, k)|..]);
    CopyDataToBlock(d, num, Chunk(file, k));
  }

  lemma DataNext(taken: seq<nat>, num: nat)
    requires |taken| != DIRECT_BLOCK_COUNT
    ensures Data(taken + [num]) == Data(taken) + [num]
    ensures num !in taken ==> num !in Data(taken)
  {
  }

  /** The write loop for direct blocks. */
  method WriteDirect(d: Disk, idx: nat, ghost before: Image, file: seq<byte>) returns (k: nat, ghost taken: seq<nat>)
    requires d.Valid() && idx < d.inodes.Length && before.freeCount >= BlocksTaken(|file|)
    requires Written(d, before, d.inodes[idx], file, [], []) && Direct(d.inodes[idx], [])
    modifies d.blockBitmap, d.inodeBitmap, d.blocks, d.inodes,
             d`sFreeBlocks, d`bgFreeBlocks, d`sFreeInodes, d`bgFreeInodes
    ensures Written(d, before, d.inodes[idx], file, taken, taken) && Direct(d.inodes[idx], taken)
    ensures k == |taken| == if DataBlocks(|file|) <= DIRECT_BLOCK_COUNT then DataBlocks(|file|) else DIRECT_BLOCK_COUNT
    ensures forall i :: 0 <= i < d.inodes.Length && i != idx ==> d.inodes[i] == old(d.inodes[i])
    ensures d.InodeBits() == old(d.InodeBits())
  {
    hide Took, Stored, Free, Count, Chunk, Sealed, Disk.Drift, Disk.BlockBits, DataBlocks;
    k, taken := 0, [];
    while k < DIRECT_BLOCK_COUNT && |Chunk(file, k)| > 0
      invariant k == |taken| <= DIRECT_BLOCK_COUNT && k <= DataBlocks(|file|)
      invariant Written(d, before, d.inodes[idx], file, taken, taken) && Direct(d.inodes[idx], taken)
      invariant forall i :: 0 <= i < d.inodes.Length && i != idx ==> d.inodes[i] == old(d.inodes[i])
      invariant d.InodeBits() == old(d.InodeBits())
    {
      var num := WriteChunk(d, before, d.inodes[idx], file, k, taken);
      d.inodes[idx] := d.inodes[idx].(block := d.inodes[idx].block[k := num], iBlocks := d.inodes[idx].iBlocks + 1);
      taken := taken + [num];
      k := k + 1;
    }
  }

  /** Takes the block for the indirect pointers; what it held stays in it. */
  method TakePointerBlock(d: Disk, ghost before: Image, ghost inode: Inode, file: seq<byte>, ghost taken: seq<nat>)
    returns (num: nat)
    requires Written(d, before, inode, file, taken, taken) && |taken| == DIRECT_BLOCK_COUNT && d.bgFreeBlocks > 0
    modifies d.blockBitmap, d.inodeBitmap, d`sFreeBlocks, d`bgFreeBlocks, d`sFreeInodes, d`bgFreeInodes
    ensures num !in taken && 0 < num < d.blocks.Length
    ensures Written(d, before, inode.(iBlocks := inode.iBlocks + 1), file, taken + [num], taken)
    ensures d.InodeBits() == old(d.InodeBits())
  {
    hide Took, Stored, ChunkIn, Distinct, Count, Free;
    ghost var free := d.BlockBits();
    num := AllocBlock(d);
    TookNext(before.free, free, taken, num);
    assert d.blocks[..] == old(d.blocks[..]);
  }

  /** Word k of the pointer block is set to the block just written. */
  method SetWord(d: Disk, ghost before: Image, ghost inode: Inode, file: seq<byte>, ptr: nat, k: nat, num: nat,
                 ghost taken: seq<nat>)
    requires Written(d, before, inode, file, taken, Data(taken)) && k < POINTERS && num < EXT2_NUM_BLOCKS
    requires |taken| > DIRECT_BLOCK_COUNT && ptr == taken[DIRECT_BLOCK_COUNT] && ptr < d.blocks.Length
    modifies d.blocks
    ensures Written(d, before, inode, file, taken, Data(taken))
    ensures d.blocks[..] == old(d.blocks[..])[ptr := SetPointer(old(d.blocks[ptr]), k, num)]
  {
    hide Stored, ChunkIn, Count, Free, SetPointer, Took, Data, Distinct;
    PointerBlockApart(before.free, d.BlockBits(), taken);
    StoredKept(d.blocks[..], file, Data(taken), ptr, SetPointer(d.blocks[ptr], k, num));
    assert ptr in taken;
    d.blocks[ptr] := SetPointer(d.blocks[ptr], k, num);
    assert d.blocks[..] == old(d.blocks[..])[ptr := d.blocks[ptr]];
  }

  lemma PointerBlockApart(before: seq<bool>, after: seq<bool>, taken: seq<nat>)
    requires Took(before, after, taken) && |taken| > DIRECT_BLOCK_COUNT
    ensures taken[DIRECT_BLOCK_COUNT] !in Data(taken)
  {
  }

  /** One turn of the loop for indirect blocks: takes a block, names it in the pointer block, and writes the chunk. */
  method WriteIndirectChunk(d: Disk, idx: nat, ghost before: Image, file: seq<byte>, ptr: nat, k: nat, ghost taken: seq<nat>)
    returns (num: nat)
    requires d.Valid() && idx < d.inodes.Length && d.bgFreeBlocks > 0
    requires k == |taken| - DIRECT_BLOCK_COUNT - 1 < POINTERS && ptr == taken[DIRECT_BLOCK_COUNT]
    requires Written(d, before, d.inodes[idx], file, taken, Data(taken))
    requires Indirect(d.inodes[idx], taken, d.blocks[..], before.blocks)
    modifies d.blockBitmap, d.inodeBitmap, d.blocks, d.inodes,
             d`sFreeBlocks, d`bgFreeBlocks, d`sFreeInodes, d`bgFreeInodes
    ensures Written(d, before, d.inodes[idx], file, taken + [num], Data(taken + [num]))
    ensures Indirect(d.inodes[idx], taken + [num], d.blocks[..], before.blocks)
    ensures forall i :: 0 <= i < d.inodes.Length && i != idx ==> d.inodes[i] == old(d.inodes[i])
    ensures d.InodeBits() == old(d.InodeBits())
  {
    hide Took, Stored, Free, Count, Chunk, Pointer, SetPointer, Indirect;
    ghost var words, inode := d.blocks[ptr], d.inodes[idx];
    num := WriteChunk(d, before, d.inodes[idx], file, DIRECT_BLOCK_COUNT + k, taken);
    d.inodes[idx] := d.inodes[idx].(iBlocks := d.inodes[idx].iBlocks + 1);
    PointerBlockStays(taken, num, old(d.blocks[..]), d.blocks[..]);
    SetWord(d, before, d.inodes[idx], file, ptr, k, num, taken + [num]);
    IndirectNext(inode, d.inodes[idx], taken, old(d.blocks[..]), d.blocks[..], before.blocks, num);
  }

  lemma PointerBlockStays(taken: seq<nat>, num: nat, blocks: seq<Block>, blocks': seq<Block>)
    requires |taken| > DIRECT_BLOCK_COUNT && num !in taken && |blocks'| == |blocks|
    requires forall n :: 0 <= n < |blocks| && n != num ==> blocks'[n] == blocks[n]
    ensures var ptr := taken[DIRECT_BLOCK_COUNT]; ptr < |blocks| ==> blocks'[ptr] == blocks[ptr]
  {
  }

  lemma IndirectNext(inode: Inode, inode': Inode, taken: seq<nat>, blocks: seq<Block>, blocks': seq<Block>,
                     before: seq<Block>, num: nat)
    requires Indirect(inode, taken, blocks, before) && inode'.block == inode.block && num < 0x1_0000_0000
    requires |taken| - DIRECT_BLOCK_COUNT - 1 < POINTERS && |blocks'| == |blocks|
    requires var ptr := taken[DIRECT_BLOCK_COUNT];
             blocks'[ptr] == SetPointer(blocks[ptr], |taken| - DIRECT_BLOCK_COUNT - 1, num)
    ensures Indirect(inode', taken + [num], blocks', before)
  {
    hide Pointer, SetPointer;
    var ptr, k := taken[DIRECT_BLOCK_COUNT], |taken| - DIRECT_BLOCK_COUNT - 1;
    forall i | 0 <= i < POINTERS ensures Pointer(blocks'[ptr], i) == if i == k then num else Pointer(blocks[ptr], i) {
      PointerAfter(blocks[ptr], k, num, i);
    }
  }

  /** The write loop for indirect blocks. */
  method WriteIndirect(d: Disk, idx: nat, ghost before: Image, file: seq<byte>, ghost direct: seq<nat>)
    returns (ghost taken: seq<nat>)
    requires d.Valid() && idx < d.inodes.Length && before.freeCount >= BlocksTaken(|file|)
    requires DIRECT_BLOCK_COUNT < DataBlocks(|file|) <= DIRECT_BLOCK_COUNT + POINTERS && |direct| == DIRECT_BLOCK_COUNT
    requires Written(d, before, d.inodes[idx], file, direct, direct) && Direct(d.inodes[idx], direct)
    modifies d.blockBitmap, d.inodeBitmap, d.blocks, d.inodes,
             d`sFreeBlocks, d`bgFreeBlocks, d`sFreeInodes, d`bgFreeInodes
    ensures |taken| == BlocksTaken(|file|) && Written(d, before, d.inodes[idx], file, taken, Data(taken))
    ensures Indirect(d.inodes[idx], taken, d.blocks[..], before.blocks)
    ensures forall i :: 0 <= i < d.inodes.Length && i != idx ==> d.inodes[i] == old(d.inodes[i])
    ensures d.InodeBits() == old(d.InodeBits())
  {
    hide Took, Stored, Free, Count, Chunk, Pointer, SetPointer;
    var ptr := TakePointerBlock(d, before, d.inodes[idx], file, direct);
    d.inodes[idx] := d.inodes[idx].(block := d.inodes[idx].block[INDIRECT_BLOCK := ptr],
                                    iBlocks := d.inodes[idx].iBlocks + 1);
    taken := direct + [ptr];
    assert Data(taken) == direct;
    var k := 0;
    while k < POINTERS && |Chunk(file, DIRECT_BLOCK_COUNT + k)| > 0
      invariant k == |taken| - DIRECT_BLOCK_COUNT - 1 <= POINTERS && DIRECT_BLOCK_COUNT + k <= DataBlocks(|file|)
      invariant |Data(taken)| == DIRECT_BLOCK_COUNT + k && taken[DIRECT_BLOCK_COUNT] == ptr
      invariant Written(d, before, d.inodes[idx], file, taken, Data(taken))
      invariant Indirect(d.inodes[idx], taken, d.blocks[..], before.blocks)
      invariant forall i :: 0 <= i < d.inodes.Length && i != idx ==> d.inodes[i] == old(d.inodes[i])
      invariant d.InodeBits() == old(d.InodeBits())
    {
      var num := WriteIndirectChunk(d, idx, before, file, ptr, k, taken);
      DataNext(taken, num);
      taken := taken + [num];
      k := k + 1;
    }
    // the double indirect level is never reached
    if |Chunk(file, DIRECT_BLOCK_COUNT + k)| > 0 {
      assert false;
    }
  }

  /** Byte x of the file is in the block of its chunk. */
  lemma StoredByte(blocks: seq<Block>, file: seq<byte>, data: seq<nat>, x: nat)
    requires Stored(blocks, file, data) && |data| == DataBlocks(|file|) && x < |file|
    ensures x / BLOCK_SIZE < |data| && data[x / BLOCK_SIZE] < |blocks|
    ensures blocks[data[x / BLOCK_SIZE]][x % BLOCK_SIZE] == file[x]
  {
    var k := x / BLOCK_SIZE;
    assert ChunkIn(blocks[data[k]], file, k);
    assert BLOCK_SIZE * k + x % BLOCK_SIZE == x;
  }

  lemma IndirectNames(inode: Inode, taken: seq<nat>, blocks: seq<Block>, before: seq<Block>, k: nat)
    requires Indirect(inode, taken, blocks, before) && k < |Data(taken)|
    ensures k < DIRECT_BLOCK_COUNT + POINTERS && FileBlock(inode, blocks, k) == Data(taken)[k]
  {
    hide Pointer;
  }

  /** What was written reads back through the pointers. */
  lemma WrittenReadsBack(inode: Inode, taken: seq<nat>, blocks: seq<Block>, before: seq<Block>, file: seq<byte>)
    requires if |taken| <= DIRECT_BLOCK_COUNT then Direct(inode, taken) else Indirect(inode, taken, blocks, before)
    requires Stored(blocks, file, Data(taken)) && |Data(taken)| == DataBlocks(|file|)
    ensures ReadsBack(inode, blocks, file)
  {
    hide Stored, DataBlocks, Indirect, Pointer;
    forall x | 0 <= x < |file| ensures ByteAt(inode, blocks, x, file[x]) {
      StoredByte(blocks, file, Data(taken), x);
      if |taken| > DIRECT_BLOCK_COUNT {
        IndirectNames(inode, taken, blocks, before, x / BLOCK_SIZE);
      }
    }
  }

  lemma AllLaidOut(inode: Inode, taken: seq<nat>, blocks: seq<Block>, before: seq<Block>, file: seq<byte>)
    requires ReadsBack(inode, blocks, file) && |taken| == BlocksTaken(|file|)
    requires if |taken| <= DIRECT_BLOCK_COUNT then Direct(inode, taken) else Indirect(inode, taken, blocks, before)
    ensures forall x :: 0 <= x < |file| ==> LaidOut(inode.block, blocks, x, file[x])
  {
    hide LaidOut, ReadsBack, Pointer;
    forall x | 0 <= x < |file| ensures LaidOut(inode.block, blocks, x, file[x]) {
      AsLaidOut(inode, blocks, file, x);
    }
  }

  /**
   The part of cp that fills a fresh inode: it is refused for want of space or as too large, or the file is
   written to distinct blocks that were free, and reads back byte for byte.
   */
  method CopyFile(d: Disk, idx: nat, file: seq<byte>, now: nat) returns (ok: bool, ghost taken: seq<nat>)
    requires d.Valid() && Sealed(d) && idx < d.inodes.Length
    modifies d.blockBitmap, d.inodeBitmap, d.blocks, d.inodes,
             d`sFreeBlocks, d`bgFreeBlocks, d`sFreeInodes, d`bgFreeInodes
    ensures ok <==> BlocksTaken(|file|) + (if |file| == DIRECT_BYTES then 1 else 0) <= old(d.bgFreeBlocks)
    ensures !ok ==> unchanged(d, d.blockBitmap, d.inodeBitmap, d.blocks, d.inodes)
    ensures ok ==> d.Valid() && Sealed(d) && Took(old(d.BlockBits()), d.BlockBits(), taken)
    ensures ok ==> (forall j :: 0 <= j < |taken| ==> taken[j] <= d.blocksCount) && d.Drift() == old(d.Drift())
    ensures ok ==> |taken| == d.inodes[idx].iBlocks == BlocksTaken(|file|)
    ensures ok ==> FreshFor(old(d.inodes[idx]), d.inodes[idx], 0x8000, |file|, now)
    ensures ok ==> FileBytes(d.inodes[idx], d.blocks[..]) == file
    ensures ok ==> forall x :: 0 <= x < |file| ==> LaidOut(d.inodes[idx].block, d.blocks[..], x, file[x])
    ensures ok ==> ReadsBack(d.inodes[idx], d.blocks[..], file)
    ensures ok ==> if |taken| <= DIRECT_BLOCK_COUNT then Direct(d.inodes[idx], taken)
                   else Indirect(d.inodes[idx], taken, d.blocks[..], old(d.blocks[..]))
    ensures ok ==> forall n :: 0 <= n < d.blocks.Length && n !in taken ==> d.blocks[n] == old(d.blocks[n])
    ensures forall i :: 0 <= i < d.inodes.Length && i != idx ==> d.inodes[i] == old(d.inodes[i])
    ensures d.InodeBits() == old(d.InodeBits())
  {
    hide Took, Stored, Count, Free, Chunk, Needed, Pointer;
    taken := [];
    FreeAtMost(d);
    Admission(|file|, d.bgFreeBlocks);
    ok := Admitted(|file|, d.bgFreeBlocks);
    if ok {
      ghost var bits, drift := d.BlockBits(), d.Drift();
      InitInode(d, idx, EXT2_S_IFREG, |file|, now);
      ghost var before := Image(bits, d.bgFreeBlocks, drift, d.blocks[..], d.inodes[idx]);
      NothingTaken(before.free, before.blocks, file);
      assert d.blocks[..] == before.blocks;
      var k;
      k, taken := WriteDirect(d, idx, before, file);
      if |Chunk(file, k)| > 0 {
        taken := WriteIndirect(d, idx, before, file, taken);
      }
      WrittenReadsBack(d.inodes[idx], taken, d.blocks[..], before.blocks, file);
      BytesRead(d.inodes[idx], d.blocks[..], file);
      AllLaidOut(d.inodes[idx], taken, d.blocks[..], before.blocks, file);
    }
  }

  lemma FreeAtMost(d: Disk)
    requires d.Valid()
    ensures 0 <= d.bgFreeBlocks <= EXT2_NUM_BLOCKS
  {
  }

  lemma NothingTaken(free: seq<bool>, blocks: seq<Block>, file: seq<byte>)
    ensures Took(free, free, []) && Stored(blocks, file, [])
  {
  }

  // ---------- giving the blocks back ----------

  /** The blocks named by the first n direct pointers, by the first n words of a pointer block, and by an inode. */
  function DirectUpTo(inode: Inode, n: nat): set<nat>
    requires n <= DIRECT_BLOCK_COUNT
  {
    set k | 0 <= k < n :: inode.block[k]
  }

  function IndirectWords(b: Block, n: nat): set<nat>
    requires n <= POINTERS
  {
    set k | 0 <= k < n :: Pointer(b, k)
  }

  function Names(inode: Inode, blocks: seq<Block>): set<nat>
    requires inode.block[INDIRECT_BLOCK] < |blocks|
  {
    DirectUpTo(inode, DIRECT_BLOCK_COUNT)
    + if inode.block[INDIRECT_BLOCK] == 0 then {}
      else IndirectWords(blocks[inode.block[INDIRECT_BLOCK]], POINTERS) + {inode.block[INDIRECT_BLOCK]}
  }

  /** Exactly the named blocks have become free; a pointer of zero names none. */
  ghost predicate Freed(before: seq<bool>, after: seq<bool>, names: set<nat>) {
    |before| == |after| && forall i :: 0 <= i < |before| ==> after[i] == (before[i] || (i + 1) in names)
  }

  lemma FreedNext(before: seq<bool>, after: seq<bool>, names: set<nat>, num: nat)
    requires Freed(before, after, names) && num <= |after|
    ensures Freed(before, if num == 0 then after else after[num - 1 := true], names + {num})
  {
  }

  /** Every block named has a bit in the bitmap block, or is no block. */
  ghost predicate InBitmap(d: Disk, names: set<nat>)
    reads d
  {
    forall n :: n in names ==> n <= 8 * d.blockBitmap.Length
  }

  /** The counts agree with the bitmaps, and every block named is one of those counted. */
  ghost predicate Counted(d: Disk, names: set<nat>)
    reads d, d.blockBitmap, d.inodeBitmap
  {
    d.Valid() && forall n :: n in names ==> n <= d.blocksCount
  }

  /** Clears the bit of one block; a pointer of zero names none. */
  method FreeOne(d: Disk, num: nat, ghost free: seq<bool>, ghost names: set<nat>, ghost all: set<nat>)
    requires d.Shape() && num <= 8 * d.blockBitmap.Length && Freed(free, d.BlockBits(), names) && num in all
    modifies d.blockBitmap, d.inodeBitmap, d`sFreeBlocks, d`bgFreeBlocks, d`sFreeInodes, d`bgFreeInodes
    ensures Freed(free, d.BlockBits(), names + {num}) && d.InodeBits() == old(d.InodeBits())
    ensures d.Drift() == old(d.Drift()) && (old(Counted(d, all)) ==> Counted(d, all))
  {
    hide Count, Free, Freed;
    FreedNext(free, d.BlockBits(), names, num);
    d.UpdateBitmap('b', num, 0);
  }

  /**
   free_all_blocks_of_inode, for an inode without double or triple indirect pointers: clears the bit of every block
   named. The counts move with the number of clear bits in the bitmap block, so that they stay the numbers of free
   blocks as long as no block is named past the last one.
   */
  method FreeAllBlocks(d: Disk, idx: nat)
    requires d.Shape() && idx < d.inodes.Length
    requires d.inodes[idx].block[DBLE_INDIRECT_BLOCK] == 0 && d.inodes[idx].block[TPLE_INDIRECT_BLOCK] == 0
    requires d.inodes[idx].block[INDIRECT_BLOCK] < d.blocks.Length
    requires InBitmap(d, Names(d.inodes[idx], d.blocks[..]))
    modifies d.blockBitmap, d.inodeBitmap, d`sFreeBlocks, d`bgFreeBlocks, d`sFreeInodes, d`bgFreeInodes
    ensures Freed(old(d.BlockBits()), d.BlockBits(), Names(d.inodes[idx], d.blocks[..]))
    ensures d.Drift() == old(d.Drift()) && d.InodeBits() == old(d.InodeBits())
    ensures old(Counted(d, Names(d.inodes[idx], d.blocks[..]))) ==> d.Valid()
  {
    hide Count, Free, Pointer, Freed, Names, DirectUpTo, Disk.Drift, Disk.Valid;
    ghost var inode, free, blocks := d.inodes[idx], d.BlockBits(), d.blocks[..];
    ghost var names := Names(inode, blocks);
    NothingFreed(free, inode);
    for i := 0 to DIRECT_BLOCK_COUNT
      invariant Freed(free, d.BlockBits(), DirectUpTo(inode, i)) && d.inodes[idx] == inode && d.blocks[..] == blocks
      invariant d.Drift() == old(d.Drift()) && d.InodeBits() == old(d.InodeBits())
      invariant old(Counted(d, names)) ==> Counted(d, names)
    {
      NamesDirect(inode, blocks, i);
      FreeOne(d, d.inodes[idx].block[i], free, DirectUpTo(inode, i), names);
    }
    if d.inodes[idx].block[INDIRECT_BLOCK] != 0 {
      FreeIndirect(d, idx, free);
    }
    NamesParts(inode, blocks);
  }

  method FreeIndirect(d: Disk, idx: nat, ghost free: seq<bool>)
    requires d.Shape() && idx < d.inodes.Length && 0 < d.inodes[idx].block[INDIRECT_BLOCK] < d.blocks.Length
    requires InBitmap(d, Names(d.inodes[idx], d.blocks[..]))
    requires Freed(free, d.BlockBits(), DirectUpTo(d.inodes[idx], DIRECT_BLOCK_COUNT))
    modifies d.blockBitmap, d.inodeBitmap, d`sFreeBlocks, d`bgFreeBlocks, d`sFreeInodes, d`bgFreeInodes
    ensures Freed(free, d.BlockBits(), Names(d.inodes[idx], d.blocks[..]))
    ensures d.Drift() == old(d.Drift()) && d.InodeBits() == old(d.InodeBits())
    ensures var names := Names(d.inodes[idx], d.blocks[..]); old(Counted(d, names)) ==> Counted(d, names)
  {
    hide Count, Free, Pointer, Freed, Names, DirectUpTo, IndirectWords, Disk.Drift, Disk.Valid;
    var ptr := d.inodes[idx].block[INDIRECT_BLOCK];
    ghost var inode, blocks := d.inodes[idx], d.blocks[..];
    ghost var words, direct, names := d.blocks[ptr], DirectUpTo(inode, DIRECT_BLOCK_COUNT), Names(inode, blocks);
    NoWords(words, direct);
    for i := 0 to POINTERS
      invariant d.inodes[idx] == inode && d.blocks[..] == blocks
      invariant Freed(free, d.BlockBits(), direct + IndirectWords(words, i))
      invariant d.Drift() == old(d.Drift()) && d.InodeBits() == old(d.InodeBits())
      invariant old(Counted(d, names)) ==> Counted(d, names)
    {
      NamesWord(inode, blocks, i);
      assert direct + IndirectWords(words, i + 1) == direct + IndirectWords(words, i) + {Pointer(words, i)};
      FreeOne(d, Pointer(d.blocks[ptr], i), free, direct + IndirectWords(words, i), names);
    }
    NamesParts(inode, blocks);
    FreeOne(d, ptr, free, direct + IndirectWords(words, POINTERS), names);
  }

  lemma NamesDirect(inode: Inode, blocks: seq<Block>, i: nat)
    requires i < DIRECT_BLOCK_COUNT && inode.block[INDIRECT_BLOCK] < |blocks|
    ensures inode.block[i] in Names(inode, blocks)
    ensures DirectUpTo(inode, i + 1) == DirectUpTo(inode, i) + {inode.block[i]}
  {
    assert inode.block[i] in DirectUpTo(inode, DIRECT_BLOCK_COUNT);
  }

  lemma NoWords(words: Block, direct: set<nat>)
    ensures direct + IndirectWords(words, 0) == direct
  {
  }

  lemma NamesWord(inode: Inode, blocks: seq<Block>, i: nat)
    requires i < POINTERS && 0 < inode.block[INDIRECT_BLOCK] < |blocks|
    ensures var words := blocks[inode.block[INDIRECT_BLOCK]];
            && Pointer(words, i) in Names(inode, blocks)
            && IndirectWords(words, i + 1) == IndirectWords(words, i) + {Pointer(words, i)}
  {
    hide Pointer;
    var words := blocks[inode.block[INDIRECT_BLOCK]];
    assert Pointer(words, i) in IndirectWords(words, POINTERS);
  }

  lemma NamesParts(inode: Inode, blocks: seq<Block>)
    requires inode.block[INDIRECT_BLOCK] < |blocks|
    ensures var ptr, direct := inode.block[INDIRECT_BLOCK], DirectUpTo(inode, DIRECT_BLOCK_COUNT);
            if ptr == 0 then Names(inode, blocks) == direct
            else ptr in Names(inode, blocks)
                 && Names(inode, blocks) == direct + IndirectWords(blocks[ptr], POINTERS) + {ptr}
  {
  }

  lemma NothingFreed(free: seq<bool>, inode: Inode)
    ensures Freed(free, free, DirectUpTo(inode, 0))
  {
  }

  /** A stale word of the pointer block is harmless if it names no block, or has a bit of the bitmap that was clear. */
  predicate Harmless(free: seq<bool>, word: nat) {
    word == 0 || (word <= |free| && free[word - 1])
  }

  /** The words of the pointer block past the first n. */
  function StaleWords(b: Block, n: nat): set<nat> {
    set k | n <= k < POINTERS :: Pointer(b, k)
  }

  lemma DirectNamesTaken(inode: Inode, taken: seq<nat>, blocks: seq<Block>)
    requires Direct(inode, taken) && |blocks| > 0
    ensures forall n :: n != 0 ==> (n in Names(inode, blocks) <==> n in taken)
  {
    forall n | n != 0 ensures n in Names(inode, blocks) <==> n in taken {
      if n in taken {
        var k :| 0 <= k < |taken| && taken[k] == n;
        assert inode.block[k] == n;
      }
      if n in DirectUpTo(inode, DIRECT_BLOCK_COUNT) {
        var k :| 0 <= k < DIRECT_BLOCK_COUNT && inode.block[k] == n;
        assert taken[k] == n;
      }
    }
  }

  lemma IndirectNamesTaken(inode: Inode, taken: seq<nat>, blocks: seq<Block>, before: seq<Block>)
    requires Indirect(inode, taken, blocks, before) && taken[DIRECT_BLOCK_COUNT] != 0
    ensures var used := |taken| - DIRECT_BLOCK_COUNT - 1;
            forall n :: n in Names(inode, blocks) <==>
                        n in taken || n in StaleWords(before[taken[DIRECT_BLOCK_COUNT]], used)
  {
    hide Pointer;
    var ptr, used := taken[DIRECT_BLOCK_COUNT], |taken| - DIRECT_BLOCK_COUNT - 1;
    forall n ensures n in Names(inode, blocks) <==> n in taken || n in StaleWords(before[ptr], used) {
      if n in taken {
        var k :| 0 <= k < |taken| && taken[k] == n;
        if k < DIRECT_BLOCK_COUNT {
          assert inode.block[k] == n;
        } else if k > DIRECT_BLOCK_COUNT {
          assert Pointer(blocks[ptr], k - DIRECT_BLOCK_COUNT - 1) == n;
        }
      }
      if n in StaleWords(before[ptr], used) {
        var k :| used <= k < POINTERS && Pointer(before[ptr], k) == n;
        assert Pointer(blocks[ptr], k) == n;
      }
      if n in IndirectWords(blocks[ptr], POINTERS) {
        var k :| 0 <= k < POINTERS && Pointer(blocks[ptr], k) == n;
        assert k < used ==> taken[DIRECT_BLOCK_COUNT + 1 + k] == n;
      }
      if n in DirectUpTo(inode, DIRECT_BLOCK_COUNT) {
        var k :| 0 <= k < DIRECT_BLOCK_COUNT && inode.block[k] == n;
        assert taken[k] == n;
      }
    }
  }

  lemma FreedTaken(before: seq<bool>, after: seq<bool>, last: seq<bool>, taken: seq<nat>, names: set<nat>, stale: set<nat>)
    requires Took(before, after, taken) && Freed(after, last, names)
    requires forall n :: n != 0 ==> (n in names <==> n in taken || n in stale)
    requires forall n :: n in names ==> n <= |before|
    ensures last == before <==> forall n :: n in stale ==> Harmless(before, n)
    ensures |last| == |before| && forall i :: 0 <= i < |before| && before[i] ==> last[i]
  {
    forall i | 0 <= i < |before| ensures last[i] == (before[i] || (i + 1) in stale) {
    }
    if last == before {
      forall n | n in stale ensures Harmless(before, n) {
        assert n != 0 ==> n in names && last[n - 1];
      }
    }
    if forall n :: n in stale ==> Harmless(before, n) {
      forall i | 0 <= i < |before| ensures last[i] == before[i] {
        assert (i + 1) in stale ==> Harmless(before, i + 1);
      }
    }
  }

  /** The words of the pointer block that a file does not use, as they were before it was written. */
  function Unused(taken: seq<nat>, image: seq<Block>): set<nat>
    requires |taken| > DIRECT_BLOCK_COUNT ==> taken[DIRECT_BLOCK_COUNT] < |image|
  {
    if |taken| <= DIRECT_BLOCK_COUNT then {}
    else StaleWords(image[taken[DIRECT_BLOCK_COUNT]], |taken| - DIRECT_BLOCK_COUNT - 1)
  }

  /**
   Freeing a copied file restores the clear bits of the bitmap block if and only if the words of the pointer block
   past those used, which cp does not clear, are all harmless.
   */
  lemma GivesBack(before: seq<bool>, after: seq<bool>, last: seq<bool>, inode: Inode, taken: seq<nat>,
                  blocks: seq<Block>, image: seq<Block>)
    requires Took(before, after, taken) && |blocks| > 0 && inode.block[INDIRECT_BLOCK] < |blocks|
    requires if |taken| <= DIRECT_BLOCK_COUNT then Direct(inode, taken) else Indirect(inode, taken, blocks, image)
    requires Freed(after, last, Names(inode, blocks)) && forall n :: n in Names(inode, blocks) ==> n <= |before|
    ensures last == before <==> forall n :: n in Unused(taken, image) ==> Harmless(before, n)
    ensures |last| == |before| && forall i :: 0 <= i < |before| && before[i] ==> last[i]
  {
    hide Names, StaleWords, Harmless;
    if |taken| <= DIRECT_BLOCK_COUNT {
      DirectNamesTaken(inode, taken, blocks);
    } else {
      IndirectNamesTaken(inode, taken, blocks, image);
    }
    FreedTaken(before, after, last, taken, Names(inode, blocks), Unused(taken, image));
  }

  lemma TookFirst(before: seq<bool>, after: seq<bool>, taken: seq<nat>)
    requires |before| == |after| >= |taken| && forall j :: 0 <= j < |taken| ==> taken[j] == j + 1
    requires forall i :: 0 <= i < |before| ==> before[i] == (i < |taken|) && !after[i]
    ensures Took(before, after, taken)
  {
    forall i | 0 <= i < |before| ensures after[i] == (before[i] && (i + 1) !in taken) {
      assert i < |taken| ==> taken[i] == i + 1;
    }
  }

  /** Thirteen data blocks, and 15, which is in use, left in the second word of the pointer block: 15 becomes free. */
  lemma StaleWordFreed(any: Inode)
    returns (before: seq<bool>, after: seq<bool>, last: seq<bool>, inode: Inode, taken: seq<nat>, blocks: seq<Block>,
             image: seq<Block>)
    ensures Took(before, after, taken) && Indirect(inode, taken, blocks, image)
    ensures Freed(after, last, Names(inode, blocks)) && |before| == |last| == 16 && !before[14] && last[14]
  {
    hide Names, Pointer, SetPointer, DirectUpTo, IndirectWords, Took;
    var zeros: Block := seq(BLOCK_SIZE, _ => 0);
    var old13 := SetPointer(zeros, 1, 15);
    image := seq(16, _ => zeros)[13 := old13];
    blocks := image[13 := SetPointer(old13, 0, 14)];
    before, after, taken := seq(16, i => i < 14), seq(16, _ => false), seq(14, i => i + 1);
    TookFirst(before, after, taken);
    inode := any.(block := seq(TOTAL_BLOCK_COUNT, i => if i <= 12 then i + 1 else 0));
    last := seq(16, i => (i + 1) in Names(inode, blocks));
    forall k | 0 <= k < POINTERS ensures Pointer(blocks[13], k) == if k < 1 then 14 else Pointer(image[13], k) {
      PointerAfter(old13, 0, 14, k);
    }
    IndirectNamesTaken(inode, taken, blocks, image);
    PointerAfter(zeros, 1, 15, 1);
    assert Pointer(image[13], 1) in StaleWords(image[13], 1);
  }

  /** No word of the block is the number of a block without a bit in the bitmap block. */
  predicate WordsAtMost(b: Block, size: nat) {
    forall k :: 0 <= k < POINTERS ==> Pointer(b, k) <= size
  }

  ghost predicate OldWordsInBitmap(d: Disk)
    reads d, d.blockBitmap, d.blocks
  {
    forall n :: 0 < n < d.blocks.Length && n <= 8 * d.blockBitmap.Length && d.BlockBits()[n - 1] ==>
      WordsAtMost(d.blocks[n], 8 * d.blockBitmap.Length)
  }

  lemma NamesInBitmap(inode: Inode, taken: seq<nat>, blocks: seq<Block>, image: seq<Block>, size: nat)
    requires |blocks| > 0 && inode.block[INDIRECT_BLOCK] < |blocks|
    requires if |taken| <= DIRECT_BLOCK_COUNT then Direct(inode, taken) else Indirect(inode, taken, blocks, image)
    requires forall j :: 0 <= j < |taken| ==> 0 < taken[j] <= size
    requires |taken| > DIRECT_BLOCK_COUNT ==> WordsAtMost(image[taken[DIRECT_BLOCK_COUNT]], size)
    ensures forall n :: n in Names(inode, blocks) ==> n <= size
  {
    hide Names, Pointer, StaleWords;
    if |taken| <= DIRECT_BLOCK_COUNT {
      DirectNamesTaken(inode, taken, blocks);
    } else {
      IndirectNamesTaken(inode, taken, blocks, image);
      StaleAtMost(image[taken[DIRECT_BLOCK_COUNT]], |taken| - DIRECT_BLOCK_COUNT - 1, size);
    }
  }

  lemma StaleAtMost(b: Block, n: nat, size: nat)
    requires WordsAtMost(b, size)
    ensures forall w :: w in StaleWords(b, n) ==> w <= size
  {
    hide Pointer;
  }

  lemma PointersOf(inode: Inode, taken: seq<nat>, blocks: seq<Block>, image: seq<Block>)
    requires |blocks| > 0
    requires if |taken| <= DIRECT_BLOCK_COUNT then Direct(inode, taken) else Indirect(inode, taken, blocks, image)
    ensures inode.block[INDIRECT_BLOCK] < |blocks|
    ensures inode.block[DBLE_INDIRECT_BLOCK] == inode.block[TPLE_INDIRECT_BLOCK] == 0
  {
    hide Pointer;
  }

  /** Bits that were clear are clear: the bytes are the same if the clear bits are, and so if their number is. */
  lemma Restored(bitmap: seq<bv8>, bitmap': seq<bv8>, count: int, count': int)
    requires |bitmap| == |bitmap'|
    requires var free, free' := Free(bitmap, 8 * |bitmap|), Free(bitmap', 8 * |bitmap|);
             count' - Count(free') == count - Count(free) && forall i :: 0 <= i < |free| && free[i] ==> free'[i]
    ensures bitmap' == bitmap <==> Free(bitmap', 8 * |bitmap|) == Free(bitmap, 8 * |bitmap|)
    ensures bitmap' == bitmap <==> count' == count
  {
    hide Free, Count;
    var free, free' := Free(bitmap, 8 * |bitmap|), Free(bitmap', 8 * |bitmap|);
    if free' == free {
      SameFree(bitmap, bitmap');
    } else {
      CountMore(free, free');
    }
  }

  /**
   cp as it fails for want of a block for the directory: the file is written, then all its blocks are given back. The
   bytes of the bitmap and both copies of the count are as before if and only if the words of the pointer block that
   the file does not use are harmless.
   */
  method CopyAndRollBack(d: Disk, idx: nat, file: seq<byte>, now: nat) returns (ok: bool, ghost taken: seq<nat>)
    requires d.Valid() && Sealed(d) && OldWordsInBitmap(d) && idx < d.inodes.Length
    modifies d.blockBitmap, d.inodeBitmap, d.blocks, d.inodes,
             d`sFreeBlocks, d`bgFreeBlocks, d`sFreeInodes, d`bgFreeInodes
    ensures ok <==> BlocksTaken(|file|) + (if |file| == DIRECT_BYTES then 1 else 0) <= old(d.bgFreeBlocks)
    ensures ok ==> |taken| == BlocksTaken(|file|) && forall j :: 0 <= j < |taken| ==>
                     0 < taken[j] <= d.blocksCount && taken[j] < d.blocks.Length && old(d.BlockBits())[taken[j] - 1]
    ensures ok ==> (d.blockBitmap[..] == old(d.blockBitmap[..]) <==>
                      forall n :: n in Unused(taken, old(d.blocks[..])) ==> Harmless(old(d.BlockBits()), n))
    ensures ok ==> (d.blockBitmap[..] == old(d.blockBitmap[..]) <==> d.sFreeBlocks == old(d.sFreeBlocks))
    ensures ok ==> (d.blockBitmap[..] == old(d.blockBitmap[..]) <==> d.bgFreeBlocks == old(d.bgFreeBlocks))
    ensures d.inodeBitmap[..] == old(d.inodeBitmap[..])
  {
    hide Free, Count, Names, Pointer, Harmless, StaleWords, Indirect, Direct, ReadsBack, Freed, BlocksTaken, WordsAtMost;
    ghost var bytes, before, image := d.blockBitmap[..], d.BlockBits(), d.blocks[..];
    ok, taken := CopyFile(d, idx, file, now);
    if ok {
      ghost var after, inode, blocks := d.BlockBits(), d.inodes[idx], d.blocks[..];
      PointersOf(inode, taken, blocks, image);
      if |taken| > DIRECT_BLOCK_COUNT {
        assert WordsAtMost(old(d.blocks[taken[DIRECT_BLOCK_COUNT]]), |before|);
      }
      NamesInBitmap(inode, taken, blocks, image, |before|);
      FreeAllBlocks(d, idx);
      GivesBack(before, after, d.BlockBits(), inode, taken, blocks, image);
      Restored(bytes, d.blockBitmap[..], old(d.sFreeBlocks), d.sFreeBlocks);
      Restored(bytes, d.blockBitmap[..], old(d.bgFreeBlocks), d.bgFreeBlocks);
    }
    SameFree(old(d.inodeBitmap[..]), d.inodeBitmap[..]);
  }
}
