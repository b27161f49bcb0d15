/** The two-level page table, its entries, and how it matches the frames of memory. */
module PageTable {
  import opened Paging

  const PAGE_SIZE: nat := 4096
  const PTRS_PER_PGDIR: nat := 4096
  const PTRS_PER_PGTBL: nat := 4096
  const INVALID_SWAP := -1
  const NO_PAGE := -1

  /** A page table entry: the fields packed in its word, and the swap offset. */
  datatype Pte = Pte(number: nat, valid: bool, dirty: bool, referenced: bool, onSwap: bool, swapOff: int)

  const NEW_PTE := Pte(0, false, false, false, false, INVALID_SWAP)

  /** Page addresses of the traces: page-aligned and 36 bits wide. */
  predicate PageAddress(p: nat) {
    p % PAGE_SIZE == 0 && p < 0x10_0000_0000
  }

  function PgdirIndex(p: nat): (idx: nat)
    requires PageAddress(p)
    ensures idx < PTRS_PER_PGDIR
  {
    p / 0x100_0000
  }

  function PgtblIndex(p: nat): (entry: nat)
    ensures entry < PTRS_PER_PGTBL
  {
    p / PAGE_SIZE % PTRS_PER_PGTBL
  }

  /** The two indices are the two groups of 12 bits above the offset in the page. */
  lemma IndexSplit(p: nat)
    requires PageAddress(p)
    ensures p == 0x100_0000 * PgdirIndex(p) + 0x1000 * PgtblIndex(p)
  {
    assert p / PAGE_SIZE / PTRS_PER_PGTBL == PgdirIndex(p);
  }

  lemma IndexInjective(p: nat, q: nat)
    requires PageAddress(p) && PageAddress(q)
    requires PgdirIndex(p) == PgdirIndex(q) && PgtblIndex(p) == PgtblIndex(q)
    ensures p == q
  {
    assert p / PAGE_SIZE / PTRS_PER_PGTBL == PgdirIndex(p);
    assert q / PAGE_SIZE / PTRS_PER_PGTBL == PgdirIndex(q);
  }

  /** A directory entry is empty (not valid) or a whole second-level table. */
  predicate Directory(pgdir: seq<seq<Pte>>) {
    && |pgdir| == PTRS_PER_PGDIR
    && forall i :: 0 <= i < |pgdir| ==> |pgdir[i]| == 0 || |pgdir[i]| == PTRS_PER_PGTBL
  }

  function Entry(pgdir: seq<seq<Pte>>, p: nat): Pte
    requires Directory(pgdir) && PageAddress(p)
  {
    var table := pgdir[PgdirIndex(p)];
    if |table| == 0 then NEW_PTE else table[PgtblIndex(p)]
  }

  function SetEntry(pgdir: seq<seq<Pte>>, p: nat, pte: Pte): (next: seq<seq<Pte>>)
    requires Directory(pgdir) && PageAddress(p) && |pgdir[PgdirIndex(p)]| != 0
    ensures Directory(next)
  {
    var idx := PgdirIndex(p);
    pgdir[idx := pgdir[idx][PgtblIndex(p) := pte]]
  }

  lemma EntryAfterSet(pgdir: seq<seq<Pte>>, p: nat, pte: Pte, q: nat)
    requires Directory(pgdir) && PageAddress(p) && PageAddress(q) && |pgdir[PgdirIndex(p)]| != 0
    ensures Entry(SetEntry(pgdir, p, pte), q) == if q == p then pte else Entry(pgdir, q)
  {
    if PgdirIndex(p) == PgdirIndex(q) && PgtblIndex(p) == PgtblIndex(q) {
      IndexInjective(p, q);
    }
  }

  function NewTable(): (table: seq<Pte>)
    ensures |table| == PTRS_PER_PGTBL
  {
    seq(PTRS_PER_PGTBL, _ => NEW_PTE)
  }

  // ---------- matching the frames ----------

  /**
   Valid entries and in-use frames are in bijection: frame f is in use exactly when it holds a page,
   its back pointer names that page, and that page's entry is valid and names f. One page, `hole`,
   may have been given its frame while its entry is not valid yet.
   */
  ghost predicate Coherent(m: nat, mem: Memory, inUse: seq<bool>, pte: seq<Page>, pgdir: seq<seq<Pte>>, hole: int) {
    && |inUse| == |pte| == m && WellFormed(m, mem) && Directory(pgdir)
    && (forall f :: 0 <= f < m ==> (inUse[f] <==> f < |mem.frames|))
    && (forall f :: 0 <= f < |mem.frames| ==> HoldsPage(f, mem.frames[f], pte, pgdir, hole))
    && forall p :: PageAddress(p) ==> EntryOf(mem, pgdir, p, hole)
  }

  ghost predicate HoldsPage(f: nat, p: Page, pte: seq<Page>, pgdir: seq<seq<Pte>>, hole: int)
    requires f < |pte| && Directory(pgdir)
  {
    && PageAddress(p) && pte[f] == p
    && (p != hole ==> Entry(pgdir, p).valid && Entry(pgdir, p).number == f)
  }

  /** Only resident pages have valid entries, all of them dirty, and no entry is ever marked as being on swap. */
  ghost predicate EntryOf(mem: Memory, pgdir: seq<seq<Pte>>, p: Page, hole: int)
    requires Directory(pgdir) && PageAddress(p)
  {
    && !Entry(pgdir, p).onSwap
    && (Entry(pgdir, p).valid ==> p in mem.frames && p != hole && Entry(pgdir, p).dirty)
  }

  /** Two page tables that agree on where the pages are. */
  ghost predicate SamePlaces(pgdir: seq<seq<Pte>>, pgdir': seq<seq<Pte>>)
    requires Directory(pgdir) && Directory(pgdir')
  {
    forall p :: PageAddress(p) ==> SamePlace(Entry(pgdir, p), Entry(pgdir', p))
  }

  predicate SamePlace(a: Pte, b: Pte) {
    a.valid == b.valid && a.number == b.number && a.onSwap == b.onSwap && a.dirty == b.dirty
  }

  lemma CoherentKept(m: nat, mem: Memory, inUse: seq<bool>, pte: seq<Page>, pgdir: seq<seq<Pte>>,
                     pgdir': seq<seq<Pte>>, hole: int)
    requires Coherent(m, mem, inUse, pte, pgdir, hole)
    requires Directory(pgdir') && SamePlaces(pgdir, pgdir')
    ensures Coherent(m, mem, inUse, pte, pgdir', hole)
  {
    forall f | 0 <= f < |mem.frames| ensures HoldsPage(f, mem.frames[f], pte, pgdir', hole) {
      assert HoldsPage(f, mem.frames[f], pte, pgdir, hole);
      assert SamePlace(Entry(pgdir, mem.frames[f]), Entry(pgdir', mem.frames[f]));
    }
    forall p | PageAddress(p) ensures EntryOf(mem, pgdir', p, hole) {
      assert EntryOf(mem, pgdir, p, hole);
      assert SamePlace(Entry(pgdir, p), Entry(pgdir', p));
    }
  }

  /** Making the entry of the hole valid, with its frame number, closes the hole. */
  lemma CoherentClosed(m: nat, mem: Memory, inUse: seq<bool>, pte: seq<Page>, pgdir: seq<seq<Pte>>, p: Page, e: Pte)
    requires Coherent(m, mem, inUse, pte, pgdir, p) && PageAddress(p) && |pgdir[PgdirIndex(p)]| != 0
    requires e.valid && e.dirty && !e.onSwap && e.number < |mem.frames| && mem.frames[e.number] == p
    ensures Coherent(m, mem, inUse, pte, SetEntry(pgdir, p, e), NO_PAGE)
  {
    var next := SetEntry(pgdir, p, e);
    forall f | 0 <= f < |mem.frames| ensures HoldsPage(f, mem.frames[f], pte, next, NO_PAGE) {
      assert HoldsPage(f, mem.frames[f], pte, pgdir, p);
      EntryAfterSet(pgdir, p, e, mem.frames[f]);
    }
    forall q | PageAddress(q) ensures EntryOf(mem, next, q, NO_PAGE) {
      assert EntryOf(mem, pgdir, q, p);
      EntryAfterSet(pgdir, p, e, q);
    }
  }

  /** Giving page p a free frame opens a hole at p. */
  lemma CoherentFill(m: nat, mem: Memory, mem': Memory, inUse: seq<bool>, pte: seq<Page>, pgdir: seq<seq<Pte>>,
                     p: Page, now: nat)
    requires Coherent(m, mem, inUse, pte, pgdir, NO_PAGE) && PageAddress(p)
    requires p !in mem.frames && |mem.frames| < m
    requires mem' == Reference(m, mem, now, p, 0)
    ensures var f := |mem.frames|; Coherent(m, mem', inUse[f := true], pte[f := p], pgdir, p)
  {
    var f := |mem.frames|;
    forall g | 0 <= g < |mem'.frames| ensures HoldsPage(g, mem'.frames[g], pte[f := p], pgdir, p) {
      assert g < f ==> HoldsPage(g, mem.frames[g], pte, pgdir, NO_PAGE);
    }
    forall q | PageAddress(q) ensures EntryOf(mem', pgdir, q, p) {
      assert EntryOf(mem, pgdir, q, NO_PAGE);
    }
  }

  /** Giving page p the frame of the victim, whose entry is no longer valid, opens a hole at p. */
  lemma CoherentEvict(m: nat, mem: Memory, mem': Memory, inUse: seq<bool>, pte: seq<Page>, pgdir: seq<seq<Pte>>,
                      p: Page, now: nat, f: nat, e: Pte)
    requires Coherent(m, mem, inUse, pte, pgdir, NO_PAGE) && PageAddress(p)
    requires p !in mem.frames && |mem.frames| == m && f < m
    requires mem' == Reference(m, mem, now, p, f)
    requires PageAddress(pte[f]) && |pgdir[PgdirIndex(pte[f])]| != 0 && !e.valid && !e.onSwap
    ensures Coherent(m, mem', inUse[f := true], pte[f := p], SetEntry(pgdir, pte[f], e), p)
  {
    var victim, next := pte[f], SetEntry(pgdir, pte[f], e);
    assert HoldsPage(f, mem.frames[f], pte, pgdir, NO_PAGE);
    forall g | 0 <= g < |mem'.frames| ensures HoldsPage(g, mem'.frames[g], pte[f := p], next, p) {
      if g != f {
        assert HoldsPage(g, mem.frames[g], pte, pgdir, NO_PAGE);
        EntryAfterSet(pgdir, victim, e, mem.frames[g]);
      }
    }
    forall q | PageAddress(q) ensures EntryOf(mem', next, q, p) {
      assert EntryOf(mem, pgdir, q, NO_PAGE);
      EntryAfterSet(pgdir, victim, e, q);
      if q != victim && Entry(pgdir, q).valid {
        var g :| 0 <= g < |mem.frames| && mem.frames[g] == q;
        assert mem'.frames[g] == q;
      }
    }
  }
}
