/**
 Directories: in each of their blocks, records of variable length tile the 1024 bytes. The bytes are read as a
 listing of records, and inserting a name changes one listing in one place.
 */
module DirBlock {
  import opened DiskBits
  import opened Ext2Disk

  /** Bytes before the name in a record; the program takes the size of a pointer, which is the same. */
  const HEADER: nat := 8

  datatype Rec = Rec(inode: nat, recLen: nat, nameLen: nat, fileType: nat, name: seq<byte>)

  // ---------- bytes of one record ----------

  function Word16(b: Block, o: nat): nat
    requires o + 2 <= BLOCK_SIZE
  {
    b[o] as int + 0x100 * (b[o + 1] as int)
  }

  function Word32(b: Block, o: nat): nat
    requires o + 4 <= BLOCK_SIZE
  {
    b[o] as int + 0x100 * (b[o + 1] as int) + 0x1_0000 * (b[o + 2] as int) + 0x100_0000 * (b[o + 3] as int)
  }

  function RecLen(b: Block, o: nat): nat
    requires o + HEADER <= BLOCK_SIZE
  {
    Word16(b, o + 4)
  }

  function NameLen(b: Block, o: nat): nat
    requires o + HEADER <= BLOCK_SIZE
  {
    b[o + 6]
  }

  /** Four times the words that a record with a name of this length takes. */
  function Room(nameLen: nat): (r: nat)
    ensures HEADER + nameLen <= r < HEADER + nameLen + 4 && r % 4 == 0
  {
    (HEADER + nameLen) / 4 * 4 + if (HEADER + nameLen) % 4 != 0 then 4 else 0
  }

  /** A record at o stays inside the block; a live one has room for its name. */
  predicate RecordAt(b: Block, o: nat) {
    && o + HEADER <= BLOCK_SIZE && RecLen(b, o) >= HEADER && RecLen(b, o) % 4 == 0 && o + RecLen(b, o) <= BLOCK_SIZE
    && (Word32(b, o) != 0 ==> HEADER + NameLen(b, o) <= RecLen(b, o))
  }

  function Record(b: Block, o: nat): Rec
    requires RecordAt(b, o)
  {
    Rec(Word32(b, o), RecLen(b, o), NameLen(b, o), b[o + 7],
        if HEADER + NameLen(b, o) <= RecLen(b, o) then b[o + HEADER..o + HEADER + NameLen(b, o)] else [])
  }

  // ---------- the listing ----------

  predicate Tiles(b: Block, o: nat)
    decreases BLOCK_SIZE - o
  {
    o == BLOCK_SIZE || (RecordAt(b, o) && Tiles(b, o + RecLen(b, o)))
  }

  function Listing(b: Block, o: nat): (list: seq<Rec>)
    requires Tiles(b, o)
    ensures o < BLOCK_SIZE <==> list != []
    decreases BLOCK_SIZE - o
  {
    if o == BLOCK_SIZE then [] else [Record(b, o)] + Listing(b, o + RecLen(b, o))
  }

  /** The offset of record i of the listing. */
  function Offset(b: Block, o: nat, i: nat): (at: nat)
    requires Tiles(b, o) && i <= |Listing(b, o)|
    ensures o <= at <= BLOCK_SIZE
    decreases i
  {
    if i == 0 then o else Offset(b, o + RecLen(b, o), i - 1)
  }

  lemma {:induction false} OffsetRecord(b: Block, o: nat, i: nat)
    requires Tiles(b, o) && i < |Listing(b, o)|
    ensures RecordAt(b, Offset(b, o, i)) && Listing(b, o)[i] == Record(b, Offset(b, o, i))
    ensures Offset(b, o, i + 1) == Offset(b, o, i) + Listing(b, o)[i].recLen
    ensures Tiles(b, Offset(b, o, i)) && Listing(b, Offset(b, o, i)) == Listing(b, o)[i..]
    decreases i
  {
    hide RecordAt, Record, RecLen;
    OffsetStep(b, o);
    if i > 0 {
      OffsetRecord(b, o + RecLen(b, o), i - 1);
    } else {
      assert Offset(b, o, 1) == Offset(b, o + RecLen(b, o), 0);
    }
  }

  lemma OffsetStep(b: Block, o: nat)
    requires Tiles(b, o) && Listing(b, o) != []
    ensures RecordAt(b, o) && o + HEADER <= BLOCK_SIZE && o + RecLen(b, o) <= BLOCK_SIZE
    ensures Record(b, o).recLen == RecLen(b, o) && Tiles(b, o + RecLen(b, o))
    ensures Listing(b, o) == [Record(b, o)] + Listing(b, o + RecLen(b, o))
  {
  }

  lemma {:induction false} OffsetEnd(b: Block, o: nat)
    requires Tiles(b, o)
    ensures Offset(b, o, |Listing(b, o)|) == BLOCK_SIZE
    decreases BLOCK_SIZE - o
  {
    if o < BLOCK_SIZE {
      OffsetEnd(b, o + RecLen(b, o));
    }
  }

  function TotalLength(list: seq<Rec>): nat {
    if list == [] then 0 else list[0].recLen + TotalLength(list[1..])
  }

  /** The records tile the block exactly. */
  lemma {:induction false} ListingTiles(b: Block, o: nat)
    requires Tiles(b, o)
    ensures TotalLength(Listing(b, o)) == BLOCK_SIZE - o
    decreases BLOCK_SIZE - o
  {
    if o < BLOCK_SIZE {
      ListingTiles(b, o + RecLen(b, o));
      assert Listing(b, o)[1..] == Listing(b, o + RecLen(b, o));
    }
  }

  // ---------- every such list is the listing of a block ----------

  /** What a record of a directory block may be. */
  predicate Proper(r: Rec) {
    && r.inode < 0x1_0000_0000 && HEADER <= r.recLen < 0x1_0000 && r.recLen % 4 == 0
    && r.nameLen < 0x100 && r.fileType < 0x100
    && (if HEADER + r.nameLen <= r.recLen then |r.name| == r.nameLen else r.inode == 0 && r.name == [])
  }

  function Bytes(r: Rec): (s: seq<byte>)
    requires Proper(r)
    ensures |s| == r.recLen
  {
    [r.inode % 0x100, r.inode / 0x100 % 0x100, r.inode / 0x1_0000 % 0x100, r.inode / 0x100_0000]
    + [r.recLen % 0x100, r.recLen / 0x100, r.nameLen, r.fileType] + r.name + seq(r.recLen - HEADER - |r.name|, _ => 0)
  }

  function AllBytes(list: seq<Rec>): (s: seq<byte>)
    requires forall i :: 0 <= i < |list| ==> Proper(list[i])
    ensures |s| == TotalLength(list)
  {
    if list == [] then [] else Bytes(list[0]) + AllBytes(list[1..])
  }

  lemma RecordRead(b: Block, o: nat, r: Rec)
    requires Proper(r) && o + r.recLen <= BLOCK_SIZE && b[o..o + r.recLen] == Bytes(r)
    ensures RecordAt(b, o) && Record(b, o) == r
  {
    var s := b[o..o + r.recLen];
    assert s[0] == b[o] && s[1] == b[o + 1] && s[2] == b[o + 2] && s[3] == b[o + 3];
    assert s[4] == b[o + 4] && s[5] == b[o + 5] && s[6] == b[o + 6] && s[7] == b[o + 7];
    BytesSay(r);
    if HEADER + r.nameLen <= r.recLen {
      PartOfPart(b, o, r.recLen, HEADER, HEADER + r.nameLen);
    }
  }

  lemma PartOfPart(b: Block, o: nat, n: nat, lo: nat, hi: nat)
    requires lo <= hi <= n && o + n <= BLOCK_SIZE
    ensures b[o..o + n][lo..hi] == b[o + lo..o + hi]
  {
    var inner, outer := b[o..o + n][lo..hi], b[o + lo..o + hi];
    forall k | 0 <= k < |inner| ensures inner[k] == outer[k] {
    }
    assert inner == outer;
  }

  lemma BytesSay(r: Rec)
    requires Proper(r)
    ensures var s := Bytes(r);
            && s[0] as int + 0x100 * (s[1] as int) + 0x1_0000 * (s[2] as int) + 0x100_0000 * (s[3] as int) == r.inode
            && s[4] as int + 0x100 * (s[5] as int) == r.recLen && s[6] == r.nameLen && s[7] == r.fileType
            && s[HEADER..HEADER + |r.name|] == r.name
  {
    FourBytes(r.inode);
  }

  /** Written one after the other, the records read back. */
  lemma {:induction false} ListRead(b: Block, o: nat, list: seq<Rec>)
    requires forall i :: 0 <= i < |list| ==> Proper(list[i])
    requires o + TotalLength(list) == BLOCK_SIZE && b[o..] == AllBytes(list)
    ensures Tiles(b, o) && Listing(b, o) == list
    decreases |list|
  {
    hide RecordAt, Record, Bytes, Proper;
    if list == [] {
    } else {
      var r, next := list[0], o + list[0].recLen;
      assert b[o..next] == b[o..][..r.recLen] == Bytes(r);
      assert b[next..] == b[o..][r.recLen..] == AllBytes(list[1..]);
      RecordRead(b, o, r);
      RecordSpan(b, o);
      ListRead(b, next, list[1..]);
    }
  }

  /** Reading undoes writing: any proper records of 1024 bytes in all are the listing of a block. */
  lemma ListingRoundTrip(list: seq<Rec>)
    requires TotalLength(list) == BLOCK_SIZE && forall i :: 0 <= i < |list| ==> Proper(list[i])
    ensures Tiles(AllBytes(list), 0) && Listing(AllBytes(list), 0) == list
  {
    assert AllBytes(list)[0..] == AllBytes(list);
    ListRead(AllBytes(list), 0, list);
  }

  // ---------- what a change of bytes does to the listing ----------

  predicate Agree(b: Block, b': Block, lo: nat, hi: nat)
    requires hi <= BLOCK_SIZE
  {
    forall x :: lo <= x < hi ==> b[x] == b'[x]
  }

  lemma SameRecord(b: Block, b': Block, o: nat)
    requires RecordAt(b, o) && Agree(b, b', o, o + RecLen(b, o))
    ensures RecordAt(b', o) && Record(b', o) == Record(b, o)
  {
  }

  lemma RecordSpan(b: Block, o: nat)
    requires RecordAt(b, o)
    ensures Record(b, o).recLen == RecLen(b, o) && Record(b, o).nameLen == NameLen(b, o)
    ensures o + HEADER <= BLOCK_SIZE && Record(b, o).fileType == b[o + 7]
    ensures o + HEADER <= BLOCK_SIZE && o < o + RecLen(b, o) <= BLOCK_SIZE
  {
  }

  lemma SameLength(b: Block, b': Block, o: nat)
    requires RecordAt(b, o) && Agree(b, b', o, o + RecLen(b, o))
    ensures RecLen(b', o) == RecLen(b, o)
  {
  }

  lemma {:induction false} SameTail(b: Block, b': Block, o: nat)
    requires Tiles(b, o) && Agree(b, b', o, BLOCK_SIZE)
    ensures Tiles(b', o) && Listing(b', o) == Listing(b, o)
    decreases BLOCK_SIZE - o
  {
    hide RecordAt, Record, RecLen;
    if o != BLOCK_SIZE {
      RecordSpan(b, o);
      SameRecord(b, b', o);
      SameLength(b, b', o);
      SameTail(b, b', o + RecLen(b, o));
    }
  }

  lemma ListingHead(b: Block, o: nat)
    requires RecordAt(b, o)
    ensures o < o + RecLen(b, o) <= BLOCK_SIZE && Record(b, o).recLen == RecLen(b, o)
    ensures Tiles(b, o) <==> Tiles(b, o + RecLen(b, o))
    ensures Tiles(b, o) ==> Listing(b, o) == [Record(b, o)] + Listing(b, o + RecLen(b, o))
  {
  }

  lemma OffsetZero(b: Block, o: nat)
    requires Tiles(b, o)
    ensures Offset(b, o, 0) == o
  {
  }

  lemma AgreeParts(b: Block, b': Block, lo: nat, mid: nat, hi: nat)
    requires lo <= mid <= hi <= BLOCK_SIZE && Agree(b, b', lo, hi)
    ensures Agree(b, b', lo, mid) && Agree(b, b', mid, hi)
  {
  }

  lemma OffsetHead(b: Block, o: nat, i: nat)
    requires Tiles(b, o) && 0 < i <= |Listing(b, o)|
    ensures RecordAt(b, o) && Tiles(b, o + RecLen(b, o)) && i - 1 <= |Listing(b, o + RecLen(b, o))|
    ensures Offset(b, o, i) == Offset(b, o + RecLen(b, o), i - 1)
    ensures Listing(b, o)[..i] == [Record(b, o)] + Listing(b, o + RecLen(b, o))[..i - 1]
  {
    ListingHead(b, o);
  }

  /**
   Up to record i the bytes agree: the new bytes tile exactly if they do from there on, and then the listings
   share the first i records.
   */
  lemma {:induction false} SameFront(b: Block, b': Block, o: nat, i: nat)
    requires Tiles(b, o) && i <= |Listing(b, o)| && Agree(b, b', o, Offset(b, o, i))
    ensures Tiles(b', o) <==> Tiles(b', Offset(b, o, i))
    ensures Tiles(b', o) ==> Listing(b', o) == Listing(b, o)[..i] + Listing(b', Offset(b, o, i))
    decreases i
  {
    hide RecordAt, Record, RecLen, Tiles, Listing, Offset, Agree;
    if i == 0 {
      OffsetZero(b, o);
      assert Tiles(b', o) ==> Listing(b, o)[..0] + Listing(b', o) == Listing(b', o);
    } else {
      OffsetHead(b, o, i);
      RecordSpan(b, o);
      var after := o + RecLen(b, o);
      AgreeParts(b, b', o, after, Offset(b, o, i));
      SameRecord(b, b', o);
      SameLength(b, b', o);
      SameFront(b, b', after, i - 1);
      ListingHead(b', o);
      if Tiles(b', o) {
        Associative([Record(b, o)], Listing(b, after)[..i - 1], Listing(b', Offset(b, o, i)));
      }
    }
  }

  lemma Associative(x: seq<Rec>, y: seq<Rec>, z: seq<Rec>)
    ensures x + (y + z) == x + y + z
  {
  }

  // ---------- insertion and lookup on listings ----------

  /** A free record is taken when it has room for the name it had. */
  predicate Fit(r: Rec) {
    r.inode == 0 && r.recLen >= Room(r.nameLen)
  }

  function FirstFit(list: seq<Rec>): (i: nat)
    ensures i <= |list| && (i < |list| ==> Fit(list[i])) && forall j :: 0 <= j < i ==> !Fit(list[j])
  {
    if list == [] || Fit(list[0]) then 0 else 1 + FirstFit(list[1..])
  }

  lemma {:induction false} FirstFitIs(list: seq<Rec>, i: nat)
    requires i <= |list| && (i < |list| ==> Fit(list[i])) && forall j :: 0 <= j < i ==> !Fit(list[j])
    ensures FirstFit(list) == i
  {
    if i > 0 {
      assert !Fit(list[0]);
      FirstFitIs(list[1..], i - 1);
    }
  }

  /** Where a new name goes: over a free record, into the slack of the last one, or nowhere. */
  datatype Slot = Reuse(i: nat) | Split(i: nat) | Full

  function Choose(list: seq<Rec>, n: nat): (slot: Slot)
    requires list != []
    ensures slot.Reuse? ==> slot.i < |list| && list[slot.i].inode == 0
    ensures slot.Split? ==> slot.i == |list| - 1
  {
    var i, last := FirstFit(list), list[|list| - 1];
    if i < |list| then Reuse(i)
    else if last.recLen >= Room(HEADER + n + last.nameLen) then Split(|list| - 1)
    else Full
  }

  /** The place chosen has room for the new name as well. */
  predicate Roomy(list: seq<Rec>, n: nat)
    requires list != []
  {
    match Choose(list, n)
    case Reuse(i) => HEADER + n <= list[i].recLen
    case Split(i) => Room(list[i].nameLen) + HEADER + n <= list[i].recLen
    case Full => true
  }

  function Inserted(list: seq<Rec>, inode: nat, fileType: nat, name: seq<byte>): seq<Rec>
    requires list != [] && Roomy(list, |name|)
  {
    match Choose(list, |name|)
    case Reuse(i) => list[i := Rec(inode, list[i].recLen, |name|, fileType, name)]
    case Split(i) =>
      list[i := list[i].(recLen := Room(list[i].nameLen))]
      + [Rec(inode, list[i].recLen - Room(list[i].nameLen), |name|, fileType, name)]
    case Full => list
  }

  /** The first live record of that name. */
  function Lookup(list: seq<Rec>, name: seq<byte>): (i: nat)
    ensures i <= |list| && (i < |list| ==> list[i].inode != 0 && list[i].name == name)
    ensures forall j :: 0 <= j < i ==> list[j].inode == 0 || list[j].name != name
  {
    if list == [] || (list[0].inode != 0 && list[0].name == name) then 0 else 1 + Lookup(list[1..], name)
  }

  /** What looking up a name gives: the inode and type of the entry, or 0. */
  function Found(list: seq<Rec>, name: seq<byte>): (nat, nat) {
    var i := Lookup(list, name);
    if i < |list| then (list[i].inode, list[i].fileType) else (0, 0)
  }

  lemma {:induction false} LookupIs(list: seq<Rec>, name: seq<byte>, i: nat)
    requires i <= |list| && (i < |list| ==> list[i].inode != 0 && list[i].name == name)
    requires forall j :: 0 <= j < i ==> list[j].inode == 0 || list[j].name != name
    ensures Lookup(list, name) == i
  {
    if i > 0 {
      assert list[0].inode == 0 || list[0].name != name;
      LookupIs(list[1..], name, i - 1);
    }
  }

  lemma ReusedIsFound(list: seq<Rec>, i: nat, r: Rec, other: seq<byte>)
    requires i < |list| && list[i].inode == 0 && r.inode != 0 && Lookup(list, r.name) == |list| && other != r.name
    ensures Found(list[i := r], r.name) == (r.inode, r.fileType)
    ensures Found(list[i := r], other) == Found(list, other)
  {
    hide Lookup;
    LookupIs(list[i := r], r.name, i);
    LookupIs(list[i := r], other, Lookup(list, other));
  }

  lemma AppendedIsFound(list: seq<Rec>, i: nat, recLen: nat, r: Rec, other: seq<byte>)
    requires i < |list| && r.inode != 0 && Lookup(list, r.name) == |list| && other != r.name
    ensures var list' := list[i := list[i].(recLen := recLen)] + [r];
            Found(list', r.name) == (r.inode, r.fileType) && Found(list', other) == Found(list, other)
  {
    hide Lookup;
    var list', k := list[i := list[i].(recLen := recLen)] + [r], Lookup(list, other);
    LookupIs(list', r.name, |list|);
    LookupIs(list', other, if k < |list| then k else |list| + 1);
  }

  /** The record that is written, in place of a free one or behind the last. */
  lemma InsertedRecord(list: seq<Rec>, inode: nat, fileType: nat, name: seq<byte>) returns (i: nat, recLen: nat, r: Rec)
    requires list != [] && Roomy(list, |name|) && Choose(list, |name|) != Full
    ensures i < |list| && r.inode == inode && r.fileType == fileType && r.name == name
    ensures if Choose(list, |name|).Reuse? then
              list[i].inode == 0 && Inserted(list, inode, fileType, name) == list[i := r]
            else
              Inserted(list, inode, fileType, name) == list[i := list[i].(recLen := recLen)] + [r]
  {
    hide Room, FirstFit, Fit;
    i := Choose(list, |name|).i;
    recLen := Room(list[i].nameLen);
    r := Rec(inode, if Choose(list, |name|).Reuse? then list[i].recLen else list[i].recLen - recLen, |name|, fileType, name);
  }

  /** A new name is found where it was put; every other name is found as before. */
  lemma InsertedIsFound(list: seq<Rec>, inode: nat, fileType: nat, name: seq<byte>, other: seq<byte>)
    requires list != [] && Roomy(list, |name|) && Choose(list, |name|) != Full && inode != 0
    requires Lookup(list, name) == |list| && other != name
    ensures Found(Inserted(list, inode, fileType, name), name) == (inode, fileType)
    ensures Found(Inserted(list, inode, fileType, name), other) == Found(list, other)
  {
    hide Room, Choose, Lookup, Found, Inserted, Roomy;
    var i, recLen, r := InsertedRecord(list, inode, fileType, name);
    if Choose(list, |name|).Reuse? {
      ReusedIsFound(list, i, r, other);
    } else {
      AppendedIsFound(list, i, recLen, r, other);
    }
  }

  /** Room for both names, each rounded up to a word, is enough for the split and for what is written. */
  lemma RoomForBoth(list: seq<Rec>, n: nat)
    requires list != [] && FirstFit(list) == |list|
    requires list[|list| - 1].recLen >= Room(list[|list| - 1].nameLen) + Room(n)
    ensures Choose(list, n) == Split(|list| - 1) && Roomy(list, n)
  {
    hide Room, FirstFit;
    RoomSum(list[|list| - 1].nameLen, n);
  }

  lemma RoomSum(a: nat, c: nat)
    ensures Room(HEADER + a + c) <= Room(a) + Room(c)
    ensures Room(HEADER + c + a) <= Room(a) + Room(c) && HEADER + c <= Room(c)
  {
  }

  /** A block whose last record of 20 bytes is split for two names of one byte: rounded once, the room lacks a byte. */
  lemma SplitWithoutRoom() returns (b: Block)
    ensures Tiles(b, 0) && Listing(b, 0) == [Rec(2, 1004, 1, 2, [46]), Rec(3, 20, 1, 2, [97])]
    ensures Choose(Listing(b, 0), 1) == Split(1) && !Roomy(Listing(b, 0), 1)
  {
    var first, last := Rec(2, 1004, 1, 2, [46]), Rec(3, 20, 1, 2, [97]);
    TwoRecords(first, last);
    ListingRoundTrip([first, last]);
    FirstFitIs([first, last], 2);
    b := AllBytes([first, last]);
  }

  /** A freed record is judged by its old name: one of 12 bytes is reused for any longer name. */
  lemma ReuseWithoutRoom(n: nat) returns (b: Block)
    requires n > 4
    ensures Tiles(b, 0) && Listing(b, 0) == [Rec(0, 12, 1, 1, [97]), Rec(2, 1012, 1, 2, [46])]
    ensures Choose(Listing(b, 0), n) == Reuse(0) && !Roomy(Listing(b, 0), n)
  {
    var free, live := Rec(0, 12, 1, 1, [97]), Rec(2, 1012, 1, 2, [46]);
    TwoRecords(free, live);
    ListingRoundTrip([free, live]);
    b := AllBytes([free, live]);
  }

  lemma TwoRecords(first: Rec, last: Rec)
    ensures TotalLength([first, last]) == first.recLen + last.recLen
  {
    assert [first, last][1..] == [last] && [last][1..] == [];
    assert TotalLength([last]) == last.recLen;
  }

  // ---------- insertion in the bytes ----------

  /**
   An entry for a name of n bytes has been written at o; only the length of its record is still what it was.
   The block has the first bytes of the name, all of them unless the block is too short.
   */
  ghost predicate EntryAt(b: Block, b': Block, o: nat, inode: nat, fileType: nat, n: nat, name: seq<byte>) {
    && o + HEADER + |name| <= BLOCK_SIZE
    && Agree(b, b', 0, o) && Agree(b, b', o + 4, o + 6) && Agree(b, b', o + HEADER + |name|, BLOCK_SIZE)
    && Word32(b', o) == inode && b'[o + 6] == n && b'[o + 7] == fileType
    && b'[o + HEADER..o + HEADER + |name|] == name
  }

  /** No block but number num differs. */
  ghost predicate OnlyBlock(before: seq<Block>, after: seq<Block>, num: nat) {
    |before| == |after| && forall n :: 0 <= n < |before| && n != num ==> after[n] == before[n]
  }

  /** How far a name of n bytes, in an entry at o, goes past the end of the block. */
  function Past(o: nat, n: nat): nat {
    if o + HEADER + n <= BLOCK_SIZE then 0 else o + HEADER + n - BLOCK_SIZE
  }

  /** The bytes of the name that are left in the block. */
  function Stored(o: nat, name: seq<byte>): seq<byte> {
    if o + HEADER + |name| <= BLOCK_SIZE then name
    else if o + HEADER <= BLOCK_SIZE then name[..BLOCK_SIZE - HEADER - o]
    else []
  }

  /** The last `past` bytes of the name are the first of the next block; no other block but number num differs. */
  ghost predicate Spilt(before: seq<Block>, after: seq<Block>, num: nat, past: nat, name: seq<byte>) {
    && |before| == |after| && past <= |name| && past <= BLOCK_SIZE
    && (forall n :: 0 <= n < |before| && n != num && n != num + 1 ==> after[n] == before[n])
    && (num + 1 < |before| ==>
          after[num + 1][..past] == name[|name| - past..] && Agree(before[num + 1], after[num + 1], past, BLOCK_SIZE))
  }

  lemma NoOther(blocks: seq<Block>, num: nat)
    ensures OnlyBlock(blocks, blocks, num)
  {
  }

  lemma NothingSpilt(before: seq<Block>, after: seq<Block>, num: nat, name: seq<byte>)
    requires Spilt(before, after, num, 0, name)
    ensures OnlyBlock(before, after, num)
  {
    assert num + 1 < |before| ==> after[num + 1] == before[num + 1];
  }

  /** Writes inode, type and name; a name that is too long for the block goes on in the next one. */
  method WriteEntry(blocks: array<Block>, num: nat, o: nat, inode: nat, fileType: byte, name: seq<byte>)
    requires num < blocks.Length && o + HEADER <= BLOCK_SIZE && inode < 0x1_0000_0000 && |name| < 0x100
    requires Past(o, |name|) > 0 ==> num + 1 < blocks.Length
    modifies blocks
    ensures EntryAt(old(blocks[num]), blocks[num], o, inode, fileType, |name|, Stored(o, name))
    ensures Spilt(old(blocks[..]), blocks[..], num, Past(o, |name|), name)
  {
    hide HeadAt, Spilt, EntryAt, Stored, Past;
    ghost var before := blocks[..];
    WriteHead(blocks, num, o, inode, |name|);
    ghost var headed := blocks[..];
    CopyName(blocks, num, o + HEADER, name);
    ghost var named := blocks[..];
    blocks[num] := blocks[num][o + 7 := fileType];
    EntryWritten(before[num], headed[num], named[num], o, inode, fileType, |name|, Stored(o, name));
    SpiltAround(before, headed, named, blocks[..], num, Past(o, |name|), name);
  }

  /** The inode and the length of the name have been written at o. */
  ghost predicate HeadAt(b: Block, b': Block, o: nat, inode: nat, n: nat) {
    && o + HEADER <= BLOCK_SIZE && Word32(b', o) == inode && b'[o + 6] == n
    && Agree(b, b', 0, o) && Agree(b, b', o + 4, o + 6) && Agree(b, b', o + 7, BLOCK_SIZE)
  }

  method WriteHead(blocks: array<Block>, num: nat, o: nat, inode: nat, n: nat)
    requires num < blocks.Length && o + HEADER <= BLOCK_SIZE && inode < 0x1_0000_0000 && n < 0x100
    modifies blocks
    ensures HeadAt(old(blocks[num]), blocks[num], o, inode, n) && OnlyBlock(old(blocks[..]), blocks[..], num)
  {
    blocks[num] := blocks[num][o + 6 := n];
    blocks[num] := blocks[num][o := inode % 0x100][o + 1 := inode / 0x100 % 0x100];
    blocks[num] := blocks[num][o + 2 := inode / 0x1_0000 % 0x100][o + 3 := inode / 0x100_0000];
    FourBytes(inode);
  }

  lemma EntryWritten(b: Block, headed: Block, named: Block, o: nat, inode: nat, fileType: byte, n: nat, name: seq<byte>)
    requires HeadAt(b, headed, o, inode, n) && o + HEADER + |name| <= BLOCK_SIZE
    requires named[o + HEADER..o + HEADER + |name|] == name
    requires Agree(headed, named, 0, o + HEADER) && Agree(headed, named, o + HEADER + |name|, BLOCK_SIZE)
    ensures EntryAt(b, named[o + 7 := fileType], o, inode, fileType, n, name)
  {
    var b' := named[o + 7 := fileType];
    assert b'[o + HEADER..o + HEADER + |name|] == named[o + HEADER..o + HEADER + |name|];
  }

  lemma SpiltAround(before: seq<Block>, first: seq<Block>, second: seq<Block>, after: seq<Block>, num: nat, past: nat,
                    name: seq<byte>)
    requires num < |before| && OnlyBlock(before, first, num) && Spilt(first, second, num, past, name)
    requires OnlyBlock(second, after, num)
    ensures Spilt(before, after, num, past, name)
  {
  }

  method CopyName(blocks: array<Block>, num: nat, at: nat, name: seq<byte>)
    requires num < blocks.Length && HEADER <= at <= BLOCK_SIZE && |name| < 0x100
    requires Past(at - HEADER, |name|) > 0 ==> num + 1 < blocks.Length
    modifies blocks
    ensures var stored := Stored(at - HEADER, name);
            && at + |stored| <= BLOCK_SIZE && blocks[num][at..at + |stored|] == stored
            && Agree(old(blocks[num]), blocks[num], 0, at)
            && Agree(old(blocks[num]), blocks[num], at + |stored|, BLOCK_SIZE)
    ensures Spilt(old(blocks[..]), blocks[..], num, Past(at - HEADER, |name|), name)
  {
    for i := 0 to |name|
      invariant forall n :: 0 <= n < blocks.Length && n != num && n != num + 1 ==> blocks[n] == old(blocks[n])
      invariant forall x :: 0 <= x < i && at + x < BLOCK_SIZE ==> blocks[num][at + x] == name[x]
      invariant Agree(old(blocks[num]), blocks[num], 0, at)
      invariant at + i <= BLOCK_SIZE ==> Agree(old(blocks[num]), blocks[num], at + i, BLOCK_SIZE)
      invariant num + 1 < blocks.Length ==>
                  && (forall x :: 0 <= x < i && at + x >= BLOCK_SIZE ==> blocks[num + 1][at + x - BLOCK_SIZE] == name[x])
                  && Agree(old(blocks[num + 1]), blocks[num + 1], if at + i <= BLOCK_SIZE then 0 else at + i - BLOCK_SIZE,
                           BLOCK_SIZE)
    {
      if at + i < BLOCK_SIZE {
        blocks[num] := blocks[num][at + i := name[i]];
      } else {
        blocks[num + 1] := blocks[num + 1][at + i - BLOCK_SIZE := name[i]];
      }
    }
  }

  lemma ReusedRecord(b: Block, b': Block, o: nat, inode: nat, fileType: nat, name: seq<byte>)
    requires RecordAt(b, o) && HEADER + |name| <= RecLen(b, o) && EntryAt(b, b', o, inode, fileType, |name|, name)
    ensures RecordAt(b', o) && RecLen(b', o) == RecLen(b, o)
    ensures Record(b', o) == Rec(inode, RecLen(b, o), |name|, fileType, name)
  {
  }

  /** Writing an entry over record i changes that record only. */
  lemma ReuseListing(b: Block, b': Block, i: nat, inode: nat, fileType: nat, name: seq<byte>)
    requires Tiles(b, 0) && i < |Listing(b, 0)| && HEADER + |name| <= Listing(b, 0)[i].recLen
    requires EntryAt(b, b', Offset(b, 0, i), inode, fileType, |name|, name)
    ensures Tiles(b', 0)
    ensures Listing(b', 0) == Listing(b, 0)[i := Rec(inode, Listing(b, 0)[i].recLen, |name|, fileType, name)]
  {
    hide RecordAt, Record, EntryAt, RecLen, Tiles, Listing;
    var list, o := Listing(b, 0), Offset(b, 0, i);
    OffsetRecord(b, 0, i);
    ListingHead(b, o);
    ReusedRecord(b, b', o, inode, fileType, name);
    TailAfter(b, b', o, inode, fileType, name);
    SameTail(b, b', o + RecLen(b, o));
    ListingHead(b', o);
    SameFront(b, b', 0, i);
    assert list[i + 1..] == list[i..][1..] == Listing(b, o + RecLen(b, o));
  }

  lemma TailAfter(b: Block, b': Block, o: nat, inode: nat, fileType: nat, name: seq<byte>)
    requires RecordAt(b, o) && HEADER + |name| <= RecLen(b, o) && EntryAt(b, b', o, inode, fileType, |name|, name)
    ensures Agree(b, b', 0, o) && Agree(b, b', o + RecLen(b, o), BLOCK_SIZE)
  {
  }

  /** The record at o has been cut to `kept` bytes, and the next record given the rest. */
  ghost predicate CutAt(b: Block, b': Block, o: nat, kept: nat)
    requires RecordAt(b, o)
  {
    && HEADER <= kept && kept + HEADER <= RecLen(b, o)
    && Agree(b, b', 0, o + 4) && Agree(b, b', o + 6, o + kept + 4) && Agree(b, b', o + kept + 6, BLOCK_SIZE)
    && Word16(b', o + 4) == kept && Word16(b', o + kept + 4) == RecLen(b, o) - kept
  }

  method CutRecord(blocks: array<Block>, num: nat, o: nat, kept: nat)
    requires num < blocks.Length && RecordAt(blocks[num], o) && HEADER <= kept && kept + HEADER <= RecLen(blocks[num], o)
    modifies blocks
    ensures CutAt(old(blocks[num]), blocks[num], o, kept) && OnlyBlock(old(blocks[..]), blocks[..], num)
  {
    var remainder := Word16(blocks[num], o + 4) - kept;
    blocks[num] := blocks[num][o + 4 := kept % 0x100][o + 5 := kept / 0x100];
    blocks[num] := blocks[num][o + kept + 4 := remainder % 0x100][o + kept + 5 := remainder / 0x100];
  }

  /** A record cut down to the room its name needs is the same but for its length. */
  lemma KeptRecord(b: Block, b': Block, o: nat, kept: nat)
    requires RecordAt(b, o) && kept == Room(NameLen(b, o)) <= RecLen(b, o)
    requires Agree(b, b', o, o + 4) && Agree(b, b', o + 6, o + kept) && Word16(b', o + 4) == kept
    ensures RecordAt(b', o) && RecLen(b', o) == kept && Record(b', o) == Record(b, o).(recLen := kept)
  {
    var n := NameLen(b, o);
    hide Word16;
    assert b'[o + HEADER..o + HEADER + n] == b[o + HEADER..o + HEADER + n];
  }

  /** The bytes behind the cut, once the entry is written, are a record. */
  lemma NewRecord(b': Block, at: nat, rest: nat, inode: nat, fileType: nat, name: seq<byte>)
    requires HEADER + |name| <= rest && at + rest <= BLOCK_SIZE && rest % 4 == 0
    requires Word32(b', at) == inode && Word16(b', at + 4) == rest && b'[at + 6] == |name| && b'[at + 7] == fileType
    requires b'[at + HEADER..at + HEADER + |name|] == name
    ensures RecordAt(b', at) && RecLen(b', at) == rest && Record(b', at) == Rec(inode, rest, |name|, fileType, name)
  {
    hide Word16, Word32;
  }

  /** Record o shortened, and the new entry behind it. */
  lemma SplitRecords(b: Block, c: Block, b': Block, o: nat, inode: nat, fileType: nat, name: seq<byte>)
    requires RecordAt(b, o)
    requires var kept := Room(NameLen(b, o));
             && kept + HEADER + |name| <= RecLen(b, o)
             && CutAt(b, c, o, kept) && EntryAt(c, b', o + kept, inode, fileType, |name|, name)
    ensures var kept, rest := Room(NameLen(b, o)), RecLen(b, o) - Room(NameLen(b, o));
            && RecordAt(b', o) && Record(b', o) == Record(b, o).(recLen := kept)
            && RecordAt(b', o + kept) && Record(b', o + kept) == Rec(inode, rest, |name|, fileType, name)
            && RecLen(b', o) == kept && RecLen(b', o + kept) == rest
            && Agree(b, b', 0, o)
  {
    hide RecordAt, Record, Word16, Word32, RecLen, NameLen, Room, EntryAt, CutAt, Agree;
    RecordSpan(b, o);
    var kept := Room(NameLen(b, o));
    CutThenWritten(b, c, b', o, kept, inode, fileType, |name|, name);
    KeptRecord(b, b', o, kept);
    NewRecord(b', o + kept, RecLen(b, o) - kept, inode, fileType, name);
  }

  /** The bytes after both writes. */
  lemma CutThenWritten(b: Block, c: Block, b': Block, o: nat, kept: nat, inode: nat, fileType: nat, n: nat,
                       name: seq<byte>)
    requires RecordAt(b, o) && CutAt(b, c, o, kept) && EntryAt(c, b', o + kept, inode, fileType, n, name)
    ensures Agree(b, b', 0, o) && Agree(b, b', o, o + 4) && Agree(b, b', o + 6, o + kept) && Word16(b', o + 4) == kept
    ensures o + HEADER <= BLOCK_SIZE && o + RecLen(b, o) <= BLOCK_SIZE && RecLen(b, o) % 4 == 0
    ensures var at := o + kept;
            && at + HEADER + |name| <= BLOCK_SIZE && Word32(b', at) == inode && Word16(b', at + 4) == RecLen(b, o) - kept
            && b'[at + 6] == n && b'[at + 7] == fileType && b'[at + HEADER..at + HEADER + |name|] == name
  {
    hide Word32, Room;
  }

  /** Cutting the last record and writing an entry behind it adds one record to the listing. */
  lemma SplitListing(b: Block, c: Block, b': Block, inode: nat, fileType: nat, name: seq<byte>)
    requires Tiles(b, 0)
    requires var i := |Listing(b, 0)| - 1; var o := Offset(b, 0, i);
             && RecordAt(b, o) && Room(NameLen(b, o)) + HEADER + |name| <= RecLen(b, o)
             && CutAt(b, c, o, Room(NameLen(b, o)))
             && EntryAt(c, b', o + Room(NameLen(b, o)), inode, fileType, |name|, name)
    ensures Tiles(b', 0)
    ensures var list := Listing(b, 0); var i := |list| - 1; var kept := Room(list[i].nameLen);
            kept <= list[i].recLen && Listing(b', 0)
            == list[i := list[i].(recLen := kept)] + [Rec(inode, list[i].recLen - kept, |name|, fileType, name)]
  {
    hide RecordAt, Record, EntryAt, CutAt, RecLen, NameLen, Tiles, Listing, Offset, Room, Agree;
    var list := Listing(b, 0);
    var i := |list| - 1;
    var o := Offset(b, 0, i);
    OffsetRecord(b, 0, i);
    OffsetEnd(b, 0);
    RecordSpan(b, o);
    var kept := Room(NameLen(b, o));
    SplitRecords(b, c, b', o, inode, fileType, name);
    RecordSpan(b', o + kept);
    EndTiles(b');
    ListingHead(b', o + kept);
    ListingHead(b', o);
    SameFront(b, b', 0, i);
    LastReplaced(list, Record(b', o), Record(b', o + kept));
  }

  /** What writing an entry over record i does: the block is still one of records exactly if the record has room. */
  lemma ReuseTiles(b: Block, b': Block, i: nat, inode: nat, fileType: nat, name: seq<byte>)
    requires Tiles(b, 0) && i < |Listing(b, 0)| && inode != 0
    requires var o := Offset(b, 0, i);
             EntryAt(b, b', o, inode, fileType, |name|, Stored(o, name))
    ensures var list := Listing(b, 0);
            && (Tiles(b', 0) <==> HEADER + |name| <= list[i].recLen)
            && (Tiles(b', 0) ==>
                  && Past(Offset(b, 0, i), |name|) == 0
                  && Listing(b', 0) == list[i := Rec(inode, list[i].recLen, |name|, fileType, name)])
  {
    hide RecordAt, Record, EntryAt, RecLen, Tiles, Listing, Offset;
    var o := Offset(b, 0, i);
    OffsetRecord(b, 0, i);
    RecordSpan(b, o);
    if HEADER + |name| <= Listing(b, 0)[i].recLen {
      ReuseListing(b, b', i, inode, fileType, name);
    } else {
      TooLong(b, b', o, inode, fileType, |name|, Stored(o, name));
      SameFront(b, b', 0, i);
    }
  }

  /** A live record whose name does not fit in it is no record. */
  lemma TooLong(b: Block, b': Block, o: nat, inode: nat, fileType: nat, n: nat, name: seq<byte>)
    requires RecordAt(b, o) && HEADER + n > RecLen(b, o) && inode != 0 && EntryAt(b, b', o, inode, fileType, n, name)
    ensures !Tiles(b', o) && Agree(b, b', 0, o)
  {
  }

  /** What a split does: the block is still one of records exactly if the name does not go past its end. */
  lemma SplitTiles(b: Block, c: Block, b': Block, inode: nat, fileType: nat, name: seq<byte>)
    requires Tiles(b, 0) && inode != 0
    requires var i := |Listing(b, 0)| - 1; var o := Offset(b, 0, i);
             && RecordAt(b, o) && CutAt(b, c, o, Room(NameLen(b, o)))
             && var at := o + Room(NameLen(b, o));
                EntryAt(c, b', at, inode, fileType, |name|, Stored(at, name))
    ensures var list := Listing(b, 0); var i := |list| - 1; var kept := Room(list[i].nameLen);
            && (Tiles(b', 0) <==> kept + HEADER + |name| <= list[i].recLen)
            && (Tiles(b', 0) <==> Past(Offset(b, 0, i) + kept, |name|) == 0)
            && (Tiles(b', 0) ==>
                  Listing(b', 0)
                  == list[i := list[i].(recLen := kept)] + [Rec(inode, list[i].recLen - kept, |name|, fileType, name)])
  {
    hide RecordAt, Record, EntryAt, CutAt, RecLen, NameLen, Tiles, Listing, Offset, Room, Agree;
    var list := Listing(b, 0);
    var i := |list| - 1;
    var o := Offset(b, 0, i);
    OffsetRecord(b, 0, i);
    OffsetEnd(b, 0);
    RecordSpan(b, o);
    var kept := Room(NameLen(b, o));
    if kept + HEADER + |name| <= list[i].recLen {
      SplitListing(b, c, b', inode, fileType, name);
    } else {
      NothingBehind(b, c, b', o, kept, inode, fileType, |name|, Stored(o + kept, name));
      SameFront(b, b', 0, i);
    }
  }

  lemma NothingBehind(b: Block, c: Block, b': Block, o: nat, kept: nat, inode: nat, fileType: nat, n: nat,
                      name: seq<byte>)
    requires RecordAt(b, o) && kept == Room(NameLen(b, o)) && CutAt(b, c, o, kept) && inode != 0
    requires EntryAt(c, b', o + kept, inode, fileType, n, name) && kept + HEADER + n > RecLen(b, o)
    ensures !Tiles(b', o) && Agree(b, b', 0, o)
  {
    hide RecordAt, Record, EntryAt, CutAt, NameLen, Room, Agree, Word32, Word16, Tiles;
    CutThenWritten(b, c, b', o, kept, inode, fileType, n, name);
    CutLeaves(b, c, o, kept);
    KeptRecord(b, b', o, kept);
    ListingHead(b', o);
    NoRecord(b', o + kept, RecLen(b, o) - kept, n);
  }

  lemma CutLeaves(b: Block, c: Block, o: nat, kept: nat)
    requires RecordAt(b, o) && CutAt(b, c, o, kept)
    ensures kept + HEADER <= RecLen(b, o) && o + RecLen(b, o) <= BLOCK_SIZE
  {
  }

  lemma NoRecord(b: Block, o: nat, recLen: nat, n: nat)
    requires o + HEADER <= BLOCK_SIZE && Word32(b, o) != 0 && Word16(b, o + 4) == recLen && b[o + 6] == n
    requires HEADER + n > recLen
    ensures !Tiles(b, o)
  {
  }

  lemma LastReplaced(list: seq<Rec>, r: Rec, s: Rec)
    requires list != []
    ensures list[..|list| - 1] + ([r] + ([s] + [])) == list[|list| - 1 := r] + [s]
  {
  }

  lemma EndTiles(b: Block)
    ensures Tiles(b, BLOCK_SIZE) && Listing(b, BLOCK_SIZE) == []
  {
  }

  // ---------- the program ----------

  /** Where the entry goes in the block. */
  ghost function Place(b: Block, n: nat): nat
    requires Tiles(b, 0)
  {
    match Choose(Listing(b, 0), n)
    case Reuse(i) => Offset(b, 0, i)
    case Split(i) => Offset(b, 0, i) + Room(Listing(b, 0)[i].nameLen)
    case Full => 0
  }

  /** The name goes past the end of the block by that much. */
  ghost function Excess(b: Block, n: nat): nat
    requires Tiles(b, 0)
  {
    if Choose(Listing(b, 0), n) == Full then 0 else Past(Place(b, n), n)
  }

  /** What allocate_space_in_block makes of the blocks. */
  ghost predicate Allocated(before: seq<Block>, after: seq<Block>, num: nat, inode: nat, fileType: nat, name: seq<byte>)
    requires num < |before| && Tiles(before[num], 0)
  {
    var list := Listing(before[num], 0);
    && Spilt(before, after, num, Excess(before[num], |name|), name)
    && (Tiles(after[num], 0) <==> Roomy(list, |name|))
    && (Roomy(list, |name|) ==>
          OnlyBlock(before, after, num) && Listing(after[num], 0) == Inserted(list, inode, fileType, name))
  }

  /**
   allocate_space_in_block: walks to the first free record that fits, else to the last one, and writes the
   entry there if there is room. The block stays one of records exactly if the place chosen is roomy as well; a
   name that goes past the end of the block goes on in the next one, if the image has a next one.
   */
  method AllocateSpaceInBlock(blocks: array<Block>, num: nat, inode: nat, fileType: byte, name: seq<byte>)
    returns (r: bool)
    requires num < blocks.Length && Tiles(blocks[num], 0) && 0 < inode < 0x1_0000_0000 && |name| < 0x100
    requires Excess(blocks[num], |name|) > 0 ==> num + 1 < blocks.Length
    modifies blocks
    ensures r <==> Choose(old(Listing(blocks[num], 0)), |name|) != Full
    ensures Allocated(old(blocks[..]), blocks[..], num, inode, fileType, name)
    ensures !r ==> blocks[..] == old(blocks[..])
  {
    hide RecordAt, Record, RecLen, NameLen, Tiles, Listing, Room, EntryAt, CutAt, Lookup, Word32, Allocated, Spilt;
    ghost var b, list, i := blocks[num], Listing(blocks[num], 0), 0;
    StartWalk(b);
    var dir, prev := 0, 0;
    while dir < BLOCK_SIZE
      invariant blocks[..] == old(blocks[..]) && 0 <= i <= |list| && dir == Offset(b, 0, i) && prev <= BLOCK_SIZE
      invariant i > 0 ==> prev == Offset(b, 0, i - 1)
      invariant i == 0 ==> prev == 0
      invariant forall j :: 0 <= j < i ==> !Fit(list[j])
      invariant dir < BLOCK_SIZE <==> i < |list|
      decreases |list| - i
    {
      assert blocks[num] == b;
      WalkStep(b, i);
      if Word32(blocks[num], dir) == 0 && RecLen(blocks[num], dir) >= Room(NameLen(blocks[num], dir)) {
        FirstFitIs(list, i);
        WriteEntry(blocks, num, dir, inode, fileType, name);
        ReusedPlace(old(blocks[..]), blocks[..], num, i, inode, fileType, name);
        return true;
      }
      prev := dir;
      dir := dir + RecLen(blocks[num], dir);
      i := i + 1;
    }
    assert blocks[num] == b;
    FirstFitIs(list, |list|);
    r := AppendEntry(blocks, num, prev, inode, fileType, name);
  }

  lemma ReusedPlace(before: seq<Block>, after: seq<Block>, num: nat, i: nat, inode: nat, fileType: nat, name: seq<byte>)
    requires num < |before| == |after| && Tiles(before[num], 0) && inode != 0
    requires i < |Listing(before[num], 0)| && Choose(Listing(before[num], 0), |name|) == Reuse(i)
    requires var o := Offset(before[num], 0, i);
             && EntryAt(before[num], after[num], o, inode, fileType, |name|, Stored(o, name))
             && Spilt(before, after, num, Past(o, |name|), name)
    ensures Allocated(before, after, num, inode, fileType, name)
  {
    hide Tiles, Listing, EntryAt, Choose, Spilt, Offset, Past, OnlyBlock, Room;
    ReuseTiles(before[num], after[num], i, inode, fileType, name);
    if Roomy(Listing(before[num], 0), |name|) {
      NothingSpilt(before, after, num, name);
    }
  }

  lemma SplitPlace(before: seq<Block>, c: Block, after: seq<Block>, num: nat, o: nat, kept: nat, inode: nat,
                   fileType: nat, name: seq<byte>)
    requires num < |before| == |after| && Tiles(before[num], 0) && inode != 0 && Listing(before[num], 0) != []
    requires var i := |Listing(before[num], 0)| - 1;
             && Choose(Listing(before[num], 0), |name|) == Split(i) && o == Offset(before[num], 0, i)
             && kept == Room(Listing(before[num], 0)[i].nameLen)
    requires RecordAt(before[num], o) && kept == Room(NameLen(before[num], o)) && CutAt(before[num], c, o, kept)
    requires EntryAt(c, after[num], o + kept, inode, fileType, |name|, Stored(o + kept, name))
    requires Spilt(before, after, num, Past(o + kept, |name|), name)
    ensures Allocated(before, after, num, inode, fileType, name)
  {
    hide RecordAt, NameLen, Tiles, Listing, EntryAt, CutAt, Choose, Spilt, Offset, Past, OnlyBlock, Room;
    SplitTiles(before[num], c, after[num], inode, fileType, name);
    if Roomy(Listing(before[num], 0), |name|) {
      NothingSpilt(before, after, num, name);
    }
  }

  /** A split lacks room exactly if the name goes past the end of the block, and then by three bytes at most. */
  lemma SplitExcess(b: Block, n: nat)
    requires Tiles(b, 0) && Choose(Listing(b, 0), n).Split?
    ensures Excess(b, n) <= 3 && (Excess(b, n) == 0 <==> Roomy(Listing(b, 0), n))
  {
    hide RecordAt, Record, RecLen, NameLen, Tiles, Listing, Offset, FirstFit;
    var i := |Listing(b, 0)| - 1;
    WalkStep(b, i);
    OffsetEnd(b, 0);
  }

  lemma NowhereToGo(blocks: seq<Block>, num: nat, inode: nat, fileType: nat, name: seq<byte>)
    requires num < |blocks| && Tiles(blocks[num], 0) && Choose(Listing(blocks[num], 0), |name|) == Full
    ensures Allocated(blocks, blocks, num, inode, fileType, name)
  {
  }

  /** The slack that a last record is split for has room for the header of a record at least. */
  lemma HeaderFits(recLen: nat, nameLen: nat, n: nat)
    requires recLen % 4 == 0 && recLen >= Room(HEADER + n + nameLen)
    ensures Room(nameLen) + HEADER <= recLen
  {
  }

  lemma WholeWords(b: Block, o: nat)
    requires RecordAt(b, o)
    ensures RecLen(b, o) % 4 == 0
  {
  }

  /** The choice that is left at the last record. */
  lemma LastChosen(b: Block, n: nat, prev: nat)
    requires Tiles(b, 0)
    requires var list := Listing(b, 0); FirstFit(list) == |list| && prev == Offset(b, 0, |list| - 1)
    ensures RecordAt(b, prev) && NameLen(b, prev) == Listing(b, 0)[|Listing(b, 0)| - 1].nameLen
    ensures Choose(Listing(b, 0), n)
         == if RecLen(b, prev) >= Room(HEADER + n + NameLen(b, prev)) then Split(|Listing(b, 0)| - 1) else Full
    ensures Choose(Listing(b, 0), n) != Full ==> Excess(b, n) == Past(prev + Room(NameLen(b, prev)), n)
  {
    hide RecordAt, Record, RecLen, NameLen, Tiles, Listing, Room, FirstFit, Offset, Past;
    StartWalk(b);
    WalkStep(b, |Listing(b, 0)| - 1);
  }

  /** The end of allocate_space_in_block: the slack of the last record, if it is large enough. */
  method AppendEntry(blocks: array<Block>, num: nat, prev: nat, inode: nat, fileType: byte, name: seq<byte>)
    returns (r: bool)
    requires num < blocks.Length && Tiles(blocks[num], 0) && 0 < inode < 0x1_0000_0000 && |name| < 0x100
    requires Excess(blocks[num], |name|) > 0 ==> num + 1 < blocks.Length
    requires var list := Listing(blocks[num], 0);
             list != [] && FirstFit(list) == |list| && prev == Offset(blocks[num], 0, |list| - 1)
    modifies blocks
    ensures r <==> Choose(old(Listing(blocks[num], 0)), |name|) != Full
    ensures Allocated(old(blocks[..]), blocks[..], num, inode, fileType, name)
    ensures !r ==> blocks[..] == old(blocks[..])
  {
    hide RecordAt, Record, RecLen, NameLen, Tiles, Listing, Room, EntryAt, CutAt, FirstFit, Allocated, Spilt;
    hide Choose, Excess, Past, Stored, Offset, OnlyBlock;
    ghost var b := blocks[num];
    LastChosen(b, |name|, prev);
    RecordSpan(b, prev);
    if RecLen(blocks[num], prev) >= Room(HEADER + |name| + NameLen(blocks[num], prev)) {
      var kept := Room(NameLen(blocks[num], prev));
      WholeWords(b, prev);
      HeaderFits(RecLen(b, prev), NameLen(b, prev), |name|);
      CutRecord(blocks, num, prev, kept);
      ghost var middle := blocks[..];
      WriteEntry(blocks, num, prev + kept, inode, fileType, name);
      NoOther(blocks[..], num);
      SpiltAround(old(blocks[..]), middle, blocks[..], blocks[..], num, Past(prev + kept, |name|), name);
      SplitPlace(old(blocks[..]), middle[num], blocks[..], num, prev, kept, inode, fileType, name);
      return true;
    }
    NowhereToGo(blocks[..], num, inode, fileType, name);
    return false;
  }

  lemma StartWalk(b: Block)
    requires Tiles(b, 0)
    ensures Listing(b, 0) != [] && Offset(b, 0, 0) == 0
  {
  }

  /** Record i as the walk sees it. */
  lemma WalkStep(b: Block, i: nat)
    requires Tiles(b, 0) && i < |Listing(b, 0)|
    ensures var o, rec := Offset(b, 0, i), Listing(b, 0)[i];
            && RecordAt(b, o) && o + HEADER <= BLOCK_SIZE && o + RecLen(b, o) <= BLOCK_SIZE
            && Word32(b, o) == rec.inode && RecLen(b, o) == rec.recLen && NameLen(b, o) == rec.nameLen
            && Offset(b, 0, i + 1) == o + RecLen(b, o)
            && (Offset(b, 0, i + 1) < BLOCK_SIZE <==> i + 1 < |Listing(b, 0)|)
  {
    OffsetRecord(b, 0, i);
    OffsetEnd(b, 0);
    if i + 1 < |Listing(b, 0)| {
      OffsetRecord(b, 0, i + 1);
    }
  }

  /** locate_file_by_name within one block: the offset of the first live record of that name. */
  method LocateInBlock(b: Block, name: seq<byte>) returns (found: bool, at: nat)
    requires Tiles(b, 0)
    ensures var list := Listing(b, 0); var i := Lookup(list, name);
            && (found <==> i < |list|) && (found ==> at == Offset(b, 0, i) < BLOCK_SIZE)
  {
    hide RecordAt, RecLen, NameLen, Tiles, Listing, Room, Word32;
    ghost var list, i := Listing(b, 0), 0;
    StartWalk(b);
    var dir := 0;
    while dir < BLOCK_SIZE
      invariant 0 <= i <= |list| && dir == Offset(b, 0, i)
      invariant forall j :: 0 <= j < i ==> list[j].inode == 0 || list[j].name != name
      invariant dir < BLOCK_SIZE <==> i < |list|
      decreases |list| - i
    {
      WalkStep(b, i);
      if list[i].inode != 0 {
        NameStep(b, i);
      }
      if NameLen(b, dir) == |name| && Word32(b, dir) != 0 {
        if b[dir + HEADER..dir + HEADER + |name|] == name {
          LookupIs(list, name, i);
          return true, dir;
        }
      }
      dir := dir + RecLen(b, dir);
      i := i + 1;
    }
    LookupIs(list, name, |list|);
    return false, 0;
  }

  lemma NameStep(b: Block, i: nat)
    requires Tiles(b, 0) && i < |Listing(b, 0)| && Listing(b, 0)[i].inode != 0
    ensures var o, rec := Offset(b, 0, i), Listing(b, 0)[i];
            o + HEADER + rec.nameLen <= BLOCK_SIZE && rec.name == b[o + HEADER..o + HEADER + rec.nameLen]
            && |rec.name| == rec.nameLen
  {
    OffsetRecord(b, 0, i);
  }

  // ---------- directories of several blocks ----------

  /** The blocks that the pointers from number i on name are directory blocks; a pointer of zero names none. */
  ghost predicate Directory(blocks: seq<Block>, block: Pointers, i: nat) {
    forall k :: i <= k < TOTAL_BLOCK_COUNT && block[k] != 0 ==> block[k] < |blocks| && Tiles(blocks[block[k]], 0)
  }

  /** What a directory says of a name: inode and type in the first block that has it, from pointer i on, or 0. */
  ghost function FoundIn(blocks: seq<Block>, block: Pointers, i: nat, name: seq<byte>): (nat, nat)
    requires i <= TOTAL_BLOCK_COUNT && Directory(blocks, block, i)
    decreases TOTAL_BLOCK_COUNT - i
  {
    if i == TOTAL_BLOCK_COUNT then (0, 0)
    else if block[i] != 0 && Found(Listing(blocks[block[i]], 0), name).0 != 0 then
      Found(Listing(blocks[block[i]], 0), name)
    else FoundIn(blocks, block, i + 1, name)
  }

  /** locate_file_by_name: the block and offset of the entry of that name, if the directory has one. */
  method LocateFileByName(blocks: array<Block>, block: Pointers, name: seq<byte>) returns (found: bool, num: nat, at: nat)
    requires Directory(blocks[..], block, 0)
    ensures found <==> FoundIn(blocks[..], block, 0, name).0 != 0
    ensures found ==> num < blocks.Length && at + HEADER <= BLOCK_SIZE
                      && Word32(blocks[num], at) == FoundIn(blocks[..], block, 0, name).0
                      && blocks[num][at + 7] == FoundIn(blocks[..], block, 0, name).1
  {
    hide Tiles, Listing, Found, Word32;
    for i := 0 to TOTAL_BLOCK_COUNT
      invariant FoundIn(blocks[..], block, 0, name) == FoundIn(blocks[..], block, i, name)
    {
      if block[i] != 0 {
        found, at := LocateInBlock(blocks[block[i]], name);
        EntrySays(blocks[block[i]], name);
        if found {
          return true, block[i], at;
        }
      }
    }
    return false, 0, 0;
  }

  /** The record that a lookup finds, read from the bytes. */
  lemma EntrySays(b: Block, name: seq<byte>)
    requires Tiles(b, 0)
    ensures var list := Listing(b, 0); var i := Lookup(list, name);
            && (i < |list| <==> Found(list, name).0 != 0)
            && (i < |list| ==> var o := Offset(b, 0, i);
                               o + HEADER <= BLOCK_SIZE && Word32(b, o) == Found(list, name).0
                               && b[o + 7] == Found(list, name).1)
  {
    hide RecordAt, Record, RecLen, Tiles, Listing;
    var list := Listing(b, 0);
    var i := Lookup(list, name);
    if i < |list| {
      WalkStep(b, i);
      OffsetRecord(b, 0, i);
      RecordSpan(b, Offset(b, 0, i));
    }
  }

  /** The first block of the directory, from pointer i on, with a place for a name of n bytes. */
  ghost function FirstRoom(blocks: seq<Block>, block: Pointers, i: nat, n: nat): (k: nat)
    requires i <= TOTAL_BLOCK_COUNT && Directory(blocks, block, i)
    ensures i <= k <= TOTAL_BLOCK_COUNT
    ensures k < TOTAL_BLOCK_COUNT ==> block[k] != 0 && Choose(Listing(blocks[block[k]], 0), n) != Full
    decreases TOTAL_BLOCK_COUNT - i
  {
    if i == TOTAL_BLOCK_COUNT || (block[i] != 0 && Choose(Listing(blocks[block[i]], 0), n) != Full) then i
    else FirstRoom(blocks, block, i + 1, n)
  }

  /** Block num has the name inserted, and no other block has changed. */
  ghost predicate Added(before: seq<Block>, after: seq<Block>, num: nat, inode: nat, fileType: nat, name: seq<byte>) {
    && OnlyBlock(before, after, num) && num < |before| && Tiles(before[num], 0) && Tiles(after[num], 0)
    && Roomy(Listing(before[num], 0), |name|)
    && Listing(after[num], 0) == Inserted(Listing(before[num], 0), inode, fileType, name)
  }

  /**
   The loop of cp that enters a file in its directory: the first block with a place for the name gets it. The
   directory stays one exactly if that place is roomy.
   */
  method AddEntry(blocks: array<Block>, block: Pointers, inode: nat, fileType: byte, name: seq<byte>) returns (r: bool)
    requires Directory(blocks[..], block, 0) && 0 < inode < 0x1_0000_0000 && |name| < 0x100
    requires var k := FirstRoom(blocks[..], block, 0, |name|);
             k < TOTAL_BLOCK_COUNT && Excess(blocks[block[k]], |name|) > 0 ==> block[k] + 1 < blocks.Length
    modifies blocks
    ensures r <==> FirstRoom(old(blocks[..]), block, 0, |name|) < TOTAL_BLOCK_COUNT
    ensures !r ==> blocks[..] == old(blocks[..])
    ensures r ==> var k := FirstRoom(old(blocks[..]), block, 0, |name|);
                  && Allocated(old(blocks[..]), blocks[..], block[k], inode, fileType, name)
                  && (Directory(blocks[..], block, 0) <==> Roomy(old(Listing(blocks[block[k]], 0)), |name|))
                  && (Directory(blocks[..], block, 0) ==>
                        Added(old(blocks[..]), blocks[..], block[k], inode, fileType, name))
  {
    hide Tiles, Listing, Roomy, Choose, Inserted, Excess, Allocated;
    ghost var before := blocks[..];
    for i := 0 to TOTAL_BLOCK_COUNT
      invariant blocks[..] == before && FirstRoom(before, block, 0, |name|) == FirstRoom(before, block, i, |name|)
    {
      if block[i] != 0 {
        assert blocks[block[i]] == before[block[i]];
        NoPlaceNoExcess(before[block[i]], |name|);
        r := AllocateSpaceInBlock(blocks, block[i], inode, fileType, name);
        if r {
          AddedOrNot(before, blocks[..], block, i, inode, fileType, name);
          return;
        }
      }
    }
    return false;
  }

  lemma NoPlaceNoExcess(b: Block, n: nat)
    requires Tiles(b, 0)
    ensures Choose(Listing(b, 0), n) == Full ==> Excess(b, n) == 0
  {
  }

  lemma AddedOrNot(before: seq<Block>, after: seq<Block>, block: Pointers, k: nat, inode: nat, fileType: nat,
                   name: seq<byte>)
    requires k < TOTAL_BLOCK_COUNT && block[k] != 0 && Directory(before, block, 0) && |after| == |before|
    requires Allocated(before, after, block[k], inode, fileType, name)
    ensures Directory(after, block, 0) <==> Roomy(Listing(before[block[k]], 0), |name|)
    ensures Directory(after, block, 0) ==> Added(before, after, block[k], inode, fileType, name)
  {
    hide Tiles, Listing, Roomy, Choose, Inserted, Excess, Spilt;
  }

  /** A name entered in a directory that did not have it is found there, and every other name as before. */
  lemma {:induction false} AddedIsFound(before: seq<Block>, after: seq<Block>, block: Pointers, i: nat, k: nat,
                                        inode: nat, fileType: nat, name: seq<byte>, other: seq<byte>)
    requires i <= k < TOTAL_BLOCK_COUNT && Directory(before, block, i) && Directory(after, block, i)
    requires k == FirstRoom(before, block, i, |name|) && inode != 0 && other != name
    requires FoundIn(before, block, i, name).0 == 0 && Added(before, after, block[k], inode, fileType, name)
    ensures FoundIn(after, block, i, name) == (inode, fileType)
    ensures FoundIn(after, block, i, other) == FoundIn(before, block, i, other)
    decreases TOTAL_BLOCK_COUNT - i
  {
    hide Tiles, Listing, Roomy, Choose, Inserted, Found;
    if i == k {
      FoundHere(before[block[k]], name);
      InsertedIsFound(Listing(before[block[k]], 0), inode, fileType, name, other);
      OthersAsBefore(before, after, block, k + 1, block[k], inode, fileType, name, other);
    } else {
      AddedIsFound(before, after, block, i + 1, k, inode, fileType, name, other);
    }
  }

  lemma FoundHere(b: Block, name: seq<byte>)
    requires Tiles(b, 0) && Found(Listing(b, 0), name).0 == 0
    ensures Listing(b, 0) != [] && Lookup(Listing(b, 0), name) == |Listing(b, 0)|
  {
    StartWalk(b);
  }

  lemma {:induction false} OthersAsBefore(before: seq<Block>, after: seq<Block>, block: Pointers, i: nat, num: nat,
                                          inode: nat, fileType: nat, name: seq<byte>, other: seq<byte>)
    requires i <= TOTAL_BLOCK_COUNT && Directory(before, block, i) && Directory(after, block, i)
    requires Added(before, after, num, inode, fileType, name) && inode != 0 && other != name
    requires Choose(Listing(before[num], 0), |name|) != Full && Found(Listing(before[num], 0), name).0 == 0
    ensures FoundIn(after, block, i, other) == FoundIn(before, block, i, other)
    decreases TOTAL_BLOCK_COUNT - i
  {
    hide Tiles, Listing, Roomy, Choose, Inserted, Found;
    if i < TOTAL_BLOCK_COUNT {
      FoundHere(before[num], name);
      InsertedIsFound(Listing(before[num], 0), inode, fileType, name, other);
      OthersAsBefore(before, after, block, i + 1, num, inode, fileType, name, other);
    }
  }
}
