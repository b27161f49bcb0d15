/** The swap file as slots of page contents, and which page owns which slot. */
module SwapFile {
  import opened Paging
  import opened PageTable
  import opened SwapBitmap

  const SIMPAGESIZE: nat := 16

  /** What a simulated page holds: a version counter and the page's own address. */
  datatype Contents = Contents(version: nat, vaddr: nat)

  class SwapFile {
    const swapmap: Bitmap
    var slots: map<int, Contents>

    ghost predicate Valid()
      reads this, swapmap, swapmap.v
    {
      swapmap.Valid()
    }

    constructor (swapsize: nat)
      ensures Valid() && fresh(swapmap) && fresh(swapmap.v)
      ensures swapmap.nbits == swapsize && swapmap.Taken() == {} && slots == map[]
    {
      swapmap := new Bitmap.Create(swapsize);
      slots := map[];
    }

    /** Writes a page to its slot, taking the least free slot for a page that has none. */
    method PageOut(data: Contents, swapOffset: int) returns (result: int)
      requires Valid() && swapOffset >= INVALID_SWAP
      modifies this, swapmap.v
      ensures Valid()
      ensures swapOffset != INVALID_SWAP ==> result == swapOffset && swapmap.Taken() == old(swapmap.Taken())
      ensures swapOffset == INVALID_SWAP && result != INVALID_SWAP ==>
                var idx := result / SIMPAGESIZE;
                && result == idx * SIMPAGESIZE && 0 <= idx < swapmap.nbits
                && idx !in old(swapmap.Taken()) && swapmap.Taken() == old(swapmap.Taken()) + {idx}
                && forall i: nat :: i < idx ==> i in old(swapmap.Taken())
      ensures result == INVALID_SWAP <==>
                swapOffset == INVALID_SWAP && forall i: nat :: i < swapmap.nbits ==> i in old(swapmap.Taken())
      ensures result != INVALID_SWAP ==> slots == old(slots)[result := data]
    {
      result := swapOffset;
      if swapOffset == INVALID_SWAP {
        var failed, idx := swapmap.Alloc();
        if failed {
          return INVALID_SWAP;
        }
        result := idx * SIMPAGESIZE;
      }
      slots := slots[result := data];
    }

    /** Reads a page back from its slot. */
    method PageIn(swapOffset: int) returns (data: Contents)
      requires swapOffset != INVALID_SWAP && swapOffset in slots
      ensures data == slots[swapOffset]
    {
      data := slots[swapOffset];
    }
  }

  // ---------- ownership of slots ----------

  /**
   Slot s belongs to page owners[s], and to no other page; the owners are exactly the pages that
   have been put out of memory.
   */
  ghost predicate SlotsOwned(pgdir: seq<seq<Pte>>, taken: set<nat>, owners: map<nat, Page>, gone: set<Page>)
    requires Directory(pgdir)
  {
    && owners.Keys == taken
    && (forall s :: s in owners ==> OwnsSlot(pgdir, s, owners[s]) && owners[s] in gone)
    && (forall p :: PageAddress(p) ==> SlotOf(pgdir, p, owners))
    && forall p :: p in gone ==> HasSlot(pgdir, p)
  }

  predicate HasSlot(pgdir: seq<seq<Pte>>, p: Page)
    requires Directory(pgdir)
  {
    PageAddress(p) && Entry(pgdir, p).swapOff != INVALID_SWAP
  }

  predicate OwnsSlot(pgdir: seq<seq<Pte>>, s: nat, p: Page)
    requires Directory(pgdir)
  {
    PageAddress(p) && Entry(pgdir, p).swapOff == s * SIMPAGESIZE
  }

  predicate SlotOf(pgdir: seq<seq<Pte>>, p: Page, owners: map<nat, Page>)
    requires Directory(pgdir) && PageAddress(p)
  {
    var off := Entry(pgdir, p).swapOff;
    off == INVALID_SWAP || (off >= 0 && off / SIMPAGESIZE in owners && owners[off / SIMPAGESIZE] == p)
  }

  /** Page tables that agree on the swap offsets. */
  ghost predicate SameOffsets(pgdir: seq<seq<Pte>>, pgdir': seq<seq<Pte>>)
    requires Directory(pgdir) && Directory(pgdir')
  {
    forall p :: PageAddress(p) ==> SameOffset(Entry(pgdir, p), Entry(pgdir', p))
  }

  predicate SameOffset(a: Pte, b: Pte) {
    a.swapOff == b.swapOff
  }

  lemma OwnedKept(pgdir: seq<seq<Pte>>, pgdir': seq<seq<Pte>>, taken: set<nat>, owners: map<nat, Page>, gone: set<Page>)
    requires Directory(pgdir) && Directory(pgdir') && SlotsOwned(pgdir, taken, owners, gone)
    requires SameOffsets(pgdir, pgdir')
    ensures SlotsOwned(pgdir', taken, owners, gone)
  {
    forall s | s in owners ensures OwnsSlot(pgdir', s, owners[s]) {
      assert OwnsSlot(pgdir, s, owners[s]);
      assert SameOffset(Entry(pgdir, owners[s]), Entry(pgdir', owners[s]));
    }
    forall p | PageAddress(p) ensures SlotOf(pgdir', p, owners) {
      assert SlotOf(pgdir, p, owners);
      assert SameOffset(Entry(pgdir, p), Entry(pgdir', p));
    }
    forall p | p in gone ensures HasSlot(pgdir', p) {
      assert HasSlot(pgdir, p);
      assert SameOffset(Entry(pgdir, p), Entry(pgdir', p));
    }
  }

  lemma OffsetsKept(before: seq<seq<Pte>>, p: Page, e: Pte)
    requires Directory(before) && PageAddress(p) && |before[PgdirIndex(p)]| != 0
    requires e.swapOff == Entry(before, p).swapOff
    ensures SameOffsets(before, SetEntry(before, p, e))
  {
    forall q | PageAddress(q) ensures SameOffset(Entry(before, q), Entry(SetEntry(before, p, e), q)) {
      EntryAfterSet(before, p, e, q);
    }
  }

  /** A page with a slot has been put out before. */
  lemma OwnerIsGone(pgdir: seq<seq<Pte>>, taken: set<nat>, owners: map<nat, Page>, gone: set<Page>, p: Page)
    requires Directory(pgdir) && SlotsOwned(pgdir, taken, owners, gone) && PageAddress(p)
    ensures p in gone <==> Entry(pgdir, p).swapOff != INVALID_SWAP
    ensures Entry(pgdir, p).swapOff >= INVALID_SWAP
  {
    assert SlotOf(pgdir, p, owners);
    assert p in gone ==> HasSlot(pgdir, p);
  }

  /** A page without a slot is given slot s. */
  lemma OwnedGrown(pgdir: seq<seq<Pte>>, taken: set<nat>, owners: map<nat, Page>, gone: set<Page>,
                   p: Page, s: nat, e: Pte)
    requires Directory(pgdir) && SlotsOwned(pgdir, taken, owners, gone)
    requires PageAddress(p) && |pgdir[PgdirIndex(p)]| != 0
    requires Entry(pgdir, p).swapOff == INVALID_SWAP && s !in taken && e.swapOff == s * SIMPAGESIZE
    ensures s !in owners && SlotsOwned(SetEntry(pgdir, p, e), taken + {s}, owners[s := p], gone + {p})
  {
    var next, owners' := SetEntry(pgdir, p, e), owners[s := p];
    EntryAfterSet(pgdir, p, e, p);
    forall t | t in owners' ensures OwnsSlot(next, t, owners'[t]) {
      if t != s {
        assert OwnsSlot(pgdir, t, owners[t]);
        EntryAfterSet(pgdir, p, e, owners[t]);
      }
    }
    forall q | PageAddress(q) ensures SlotOf(next, q, owners') {
      assert SlotOf(pgdir, q, owners);
      EntryAfterSet(pgdir, p, e, q);
    }
    forall q | q in gone ensures HasSlot(next, q) {
      assert HasSlot(pgdir, q);
      EntryAfterSet(pgdir, p, e, q);
    }
  }

  /** When every slot is taken and a page without one is put out, more pages than slots have been put out. */
  lemma SwapTooSmall(pgdir: seq<seq<Pte>>, taken: set<nat>, owners: map<nat, Page>, gone: set<Page>,
                     nbits: nat, victim: Page)
    requires Directory(pgdir) && SlotsOwned(pgdir, taken, owners, gone)
    requires forall i: nat :: i < nbits ==> i in taken
    requires PageAddress(victim) && Entry(pgdir, victim).swapOff == INVALID_SWAP
    ensures |gone + {victim}| > nbits
  {
    var held := seq(nbits, i requires 0 <= i < nbits => owners[i]);
    forall i, j | 0 <= i < j < nbits ensures held[i] != held[j] {
      assert OwnsSlot(pgdir, i, owners[i]) && OwnsSlot(pgdir, j, owners[j]);
    }
    forall i | 0 <= i < nbits ensures held[i] != victim && held[i] in gone {
      assert OwnsSlot(pgdir, i, owners[i]);
    }
    TooManyPages(held, victim, gone + {victim});
  }

  /** As long as every page put out got a slot, no more pages than slots have been put out. */
  lemma SwapLargeEnough(pgdir: seq<seq<Pte>>, taken: set<nat>, owners: map<nat, Page>, gone: set<Page>, nbits: nat)
    requires Directory(pgdir) && SlotsOwned(pgdir, taken, owners, gone)
    requires forall i :: i in taken ==> i < nbits
    ensures |gone| <= nbits
  {
    forall p | p in gone ensures Owned(owners, p) {
      assert HasSlot(pgdir, p) && SlotOf(pgdir, p, owners);
      assert owners[Entry(pgdir, p).swapOff / SIMPAGESIZE] == p;
    }
    FewerValues(owners, gone, nbits);
  }

  ghost predicate Owned(owners: map<nat, Page>, p: Page) {
    exists s :: s in owners && owners[s] == p
  }

  /** A map whose keys are below n has at most n values. */
  lemma {:induction false} FewerValues(owners: map<nat, Page>, values: set<Page>, n: nat)
    requires forall s :: s in owners ==> s < n
    requires forall p :: p in values ==> Owned(owners, p)
    ensures |values| <= n
  {
    if n == 0 {
      assert values == {};
    } else if n - 1 in owners {
      var fewer := owners - {n - 1};
      forall p | p in values - {owners[n - 1]} ensures Owned(fewer, p) {
        assert Owned(owners, p);
        var s :| s in owners && owners[s] == p;
        assert s in fewer;
      }
      FewerValues(fewer, values - {owners[n - 1]}, n - 1);
      assert values <= values - {owners[n - 1]} + {owners[n - 1]};
      SubsetSize(values, values - {owners[n - 1]} + {owners[n - 1]});
    } else {
      FewerValues(owners, values, n - 1);
    }
  }
}
