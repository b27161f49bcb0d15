/**
 Memory transparency, which the paging code documents but does not deliver as written. The pager here is
 find_physpage and allocate_frame with three repairs: eviction marks the victim's entry as being on swap,
 a page is read back into the frame just allocated, and its swap offset survives the read. Victims are
 arbitrary, as for any replacement algorithm.
 */
module Transparency {
  import opened Paging
  import opened PageTable
  import opened SwapFile
  import opened Simulator

  // ---------- where the contents of a page are ----------

  /**
   The contents of page p, at version v: in its frame while its entry is valid, in its slot while its entry
   is only on swap, and nowhere while it is neither. A clean page on swap is in both places.
   */
  predicate Kept(e: Pte, p: Page, inUse: seq<bool>, pte: seq<Page>, physmem: seq<Contents>,
                 slots: map<int, Contents>, v: nat, hole: int)
    requires |inUse| == |pte| == |physmem|
  {
    && (e.onSwap ==> e.swapOff != INVALID_SWAP)
    && (e.valid ==>
          && e.number < |physmem| && e.number != hole && inUse[e.number] && pte[e.number] == p
          && physmem[e.number] == Contents(v, p))
    && (e.onSwap && !(e.valid && e.dirty) ==> e.swapOff in slots && slots[e.swapOff] == Contents(v, p))
    && (!e.valid && !e.onSwap ==> v == 0)
  }

  predicate Backed(pgdir: seq<seq<Pte>>, f: nat, p: Page)
    requires Directory(pgdir)
  {
    PageAddress(p) && Entry(pgdir, p).valid && Entry(pgdir, p).number == f
  }

  /** Frames and swap together hold every page at its version; frame `hole` may be between two pages. */
  ghost predicate Faithful(pgdir: seq<seq<Pte>>, inUse: seq<bool>, pte: seq<Page>, physmem: seq<Contents>,
                           slots: map<int, Contents>, trace: seq<Access>, n: nat, hole: int)
    requires n <= |trace|
  {
    && Directory(pgdir) && |inUse| == |pte| == |physmem|
    && (forall f :: 0 <= f < |inUse| && inUse[f] && f != hole ==> Backed(pgdir, f, pte[f]))
    && forall p :: PageAddress(p) ==>
         Kept(Entry(pgdir, p), p, inUse, pte, physmem, slots, WritesTo(trace, 0, n, p), hole)
  }

  /** The frames in use are the first ones, and hold the pages that memory has there. */
  ghost predicate InFrames(m: nat, mem: Memory, inUse: seq<bool>, pte: seq<Page>) {
    && |inUse| == |pte| == m && WellFormed(m, mem)
    && (forall f :: 0 <= f < m ==> (inUse[f] <==> f < |mem.frames|))
    && forall f :: 0 <= f < |mem.frames| ==> pte[f] == mem.frames[f]
  }

  /** Then the entries that are valid are those of the pages in memory. */
  lemma ValidIsResident(m: nat, mem: Memory, pgdir: seq<seq<Pte>>, inUse: seq<bool>, pte: seq<Page>,
                        physmem: seq<Contents>, slots: map<int, Contents>, trace: seq<Access>, n: nat, p: Page)
    requires n <= |trace| && Faithful(pgdir, inUse, pte, physmem, slots, trace, n, NO_PAGE)
    requires InFrames(m, mem, inUse, pte) && PageAddress(p)
    ensures WellFormed(m, mem) && (Entry(pgdir, p).valid <==> p in mem.frames)
  {
    assert Kept(Entry(pgdir, p), p, inUse, pte, physmem, slots, WritesTo(trace, 0, n, p), NO_PAGE);
    if p in mem.frames {
      var f :| 0 <= f < |mem.frames| && mem.frames[f] == p;
      assert Backed(pgdir, f, pte[f]);
    }
  }

  /** A page that comes into the first free frame, or into the victim's when none is free. */
  lemma FramesNext(m: nat, mem: Memory, inUse: seq<bool>, pte: seq<Page>, now: nat, p: Page, victim: nat, frame: nat)
    requires InFrames(m, mem, inUse, pte) && p !in mem.frames && victim < m && frame < m
    requires if |mem.frames| < m then !inUse[frame] && forall f :: 0 <= f < frame ==> inUse[f] else frame == victim
    ensures InFrames(m, Reference(m, mem, now, p, victim), inUse[frame := true], pte[frame := p])
  {
    assert |mem.frames| < m ==> !inUse[|mem.frames|];
  }

  /** A page may leave its frame once its contents are in its slot, whether just written or clean. */
  lemma LeavesFrame(pgdir: seq<seq<Pte>>, inUse: seq<bool>, pte: seq<Page>, physmem: seq<Contents>,
                    slots: map<int, Contents>, trace: seq<Access>, n: nat, f: nat, e: Pte, slots': map<int, Contents>)
    requires n <= |trace| && Faithful(pgdir, inUse, pte, physmem, slots, trace, n, NO_PAGE)
    requires f < |inUse| && inUse[f] && PageAddress(pte[f]) && |pgdir[PgdirIndex(pte[f])]| != 0
    requires !e.valid && e.onSwap && e.swapOff != INVALID_SWAP
    requires slots' == slots[e.swapOff := physmem[f]]
    requires forall q :: PageAddress(q) && q != pte[f] && Entry(pgdir, q).onSwap ==> Entry(pgdir, q).swapOff != e.swapOff
    ensures Faithful(SetEntry(pgdir, pte[f], e), inUse, pte, physmem, slots', trace, n, f)
  {
    var victim, next := pte[f], SetEntry(pgdir, pte[f], e);
    assert Backed(pgdir, f, victim);
    forall g | 0 <= g < |inUse| && inUse[g] && g != f ensures Backed(next, g, pte[g]) {
      assert Backed(pgdir, g, pte[g]);
      EntryAfterSet(pgdir, victim, e, pte[g]);
    }
    forall p | PageAddress(p)
      ensures Kept(Entry(next, p), p, inUse, pte, physmem, slots', WritesTo(trace, 0, n, p), f)
    {
      EntryAfterSet(pgdir, victim, e, p);
      assert Kept(Entry(pgdir, p), p, inUse, pte, physmem, slots, WritesTo(trace, 0, n, p), NO_PAGE);
    }
  }

  /** A page comes into frame f with its contents, zero-filled or read back. */
  lemma EntersFrame(pgdir: seq<seq<Pte>>, inUse: seq<bool>, pte: seq<Page>, physmem: seq<Contents>,
                    slots: map<int, Contents>, trace: seq<Access>, n: nat, f: nat, p: Page, e: Pte)
    requires n <= |trace| && f < |inUse| && Faithful(pgdir, inUse, pte, physmem, slots, trace, n, f)
    requires PageAddress(p) && |pgdir[PgdirIndex(p)]| != 0 && !Entry(pgdir, p).valid
    requires e.valid && e.number == f && e.onSwap == Entry(pgdir, p).onSwap && e.swapOff == Entry(pgdir, p).swapOff
    ensures Faithful(SetEntry(pgdir, p, e), inUse[f := true], pte[f := p],
                     physmem[f := Contents(WritesTo(trace, 0, n, p), p)], slots, trace, n, NO_PAGE)
  {
    var next, c := SetEntry(pgdir, p, e), Contents(WritesTo(trace, 0, n, p), p);
    var inUse', pte' := inUse[f := true], pte[f := p];
    forall g | 0 <= g < |inUse| && inUse'[g] ensures Backed(next, g, pte'[g]) {
      EntryAfterSet(pgdir, p, e, p);
      if g != f {
        assert Backed(pgdir, g, pte[g]);
        EntryAfterSet(pgdir, p, e, pte[g]);
      }
    }
    forall q | PageAddress(q)
      ensures Kept(Entry(next, q), q, inUse[f := true], pte[f := p], physmem[f := c], slots,
                   WritesTo(trace, 0, n, q), NO_PAGE)
    {
      EntryAfterSet(pgdir, p, e, q);
      assert Kept(Entry(pgdir, q), q, inUse, pte, physmem, slots, WritesTo(trace, 0, n, q), f);
    }
  }

  /** Reference number n reaches its page in frame f, and counts itself there if it writes. */
  lemma Accessed(pgdir: seq<seq<Pte>>, inUse: seq<bool>, pte: seq<Page>, physmem: seq<Contents>,
                 slots: map<int, Contents>, trace: seq<Access>, n: nat, f: nat, e: Pte)
    requires n < |trace| && Faithful(pgdir, inUse, pte, physmem, slots, trace, n, NO_PAGE)
    requires var p := trace[n].vaddr;
             && PageAddress(p) && |pgdir[PgdirIndex(p)]| != 0 && Entry(pgdir, p).valid && Entry(pgdir, p).number == f
             && e == Entry(pgdir, p).(referenced := true, dirty := Entry(pgdir, p).dirty || Writes(trace[n].kind))
    ensures f < |physmem| && physmem[f] == Contents(WritesTo(trace, 0, n, trace[n].vaddr), trace[n].vaddr)
    ensures var c := physmem[f];
            Faithful(SetEntry(pgdir, trace[n].vaddr, e), inUse, pte,
                     if Writes(trace[n].kind) then physmem[f := c.(version := c.version + 1)] else physmem,
                     slots, trace, n + 1, NO_PAGE)
  {
    var p, next, c := trace[n].vaddr, SetEntry(pgdir, trace[n].vaddr, e), physmem[f];
    var physmem' := if Writes(trace[n].kind) then physmem[f := c.(version := c.version + 1)] else physmem;
    assert Kept(Entry(pgdir, p), p, inUse, pte, physmem, slots, WritesTo(trace, 0, n, p), NO_PAGE);
    forall g | 0 <= g < |inUse| && inUse[g] ensures Backed(next, g, pte[g]) {
      assert Backed(pgdir, g, pte[g]);
      EntryAfterSet(pgdir, p, e, pte[g]);
    }
    forall q | PageAddress(q)
      ensures Kept(Entry(next, q), q, inUse, pte, physmem', slots, WritesTo(trace, 0, n + 1, q), NO_PAGE)
    {
      EntryAfterSet(pgdir, p, e, q);
      assert Kept(Entry(pgdir, q), q, inUse, pte, physmem, slots, WritesTo(trace, 0, n, q), NO_PAGE);
    }
  }

  /** Once page p has the slot named by e, no other page has it. */
  lemma SlotIsOwn(pgdir: seq<seq<Pte>>, taken: set<nat>, owners: map<nat, Page>, gone: set<Page>, p: Page, e: Pte)
    requires Directory(pgdir) && PageAddress(p) && |pgdir[PgdirIndex(p)]| != 0
    requires SlotsOwned(SetEntry(pgdir, p, e), taken, owners, gone) && e.swapOff != INVALID_SWAP
    ensures forall q :: PageAddress(q) && q != p && Entry(pgdir, q).onSwap ==> Entry(pgdir, q).swapOff != e.swapOff
  {
    var next := SetEntry(pgdir, p, e);
    forall q | PageAddress(q) && q != p && Entry(pgdir, q).onSwap ensures Entry(pgdir, q).swapOff != e.swapOff {
      EntryAfterSet(pgdir, p, e, p);
      EntryAfterSet(pgdir, p, e, q);
      assert SlotOf(next, p, owners) && SlotOf(next, q, owners);
    }
  }

  /** What is noted in the hole, or in a free frame, does not matter. */
  lemma HoleFree(pgdir: seq<seq<Pte>>, inUse: seq<bool>, pte: seq<Page>, physmem: seq<Contents>,
                 slots: map<int, Contents>, trace: seq<Access>, n: nat, f: nat, p: Page, hole: int)
    requires n <= |trace| && f < |inUse| && (hole == f || (hole == NO_PAGE && !inUse[f]))
    requires Faithful(pgdir, inUse, pte, physmem, slots, trace, n, hole)
    ensures Faithful(pgdir, inUse[f := true], pte[f := p], physmem, slots, trace, n, f)
  {
    var inUse', pte' := inUse[f := true], pte[f := p];
    forall q | PageAddress(q)
      ensures Kept(Entry(pgdir, q), q, inUse', pte', physmem, slots, WritesTo(trace, 0, n, q), f)
    {
      assert Kept(Entry(pgdir, q), q, inUse, pte, physmem, slots, WritesTo(trace, 0, n, q), hole);
    }
  }

  /** Page tables with the same entries are as faithful. */
  lemma SameFaith(pgdir: seq<seq<Pte>>, pgdir': seq<seq<Pte>>, inUse: seq<bool>, pte: seq<Page>,
                  physmem: seq<Contents>, slots: map<int, Contents>, trace: seq<Access>, n: nat)
    requires n <= |trace| && Faithful(pgdir, inUse, pte, physmem, slots, trace, n, NO_PAGE)
    requires Directory(pgdir') && forall p :: PageAddress(p) ==> Entry(pgdir', p) == Entry(pgdir, p)
    ensures Faithful(pgdir', inUse, pte, physmem, slots, trace, n, NO_PAGE)
  {
    forall f | 0 <= f < |inUse| && inUse[f] ensures Backed(pgdir', f, pte[f]) {
      assert Backed(pgdir, f, pte[f]);
    }
    forall p | PageAddress(p)
      ensures Kept(Entry(pgdir', p), p, inUse, pte, physmem, slots, WritesTo(trace, 0, n, p), NO_PAGE)
    {
      assert Kept(Entry(pgdir, p), p, inUse, pte, physmem, slots, WritesTo(trace, 0, n, p), NO_PAGE);
    }
  }

  // ---------- which pages are dirty ----------

  /** Page p has been stored to or modified by one of the references s..n. */
  ghost predicate WrittenSince(trace: seq<Access>, s: nat, n: nat, p: Page)
    requires n <= |trace|
  {
    exists j :: s <= j < n && trace[j].vaddr == p && (trace[j].kind == 'S' || trace[j].kind == 'M')
  }

  /**
   An entry is marked as being on swap exactly if its page has been put out before; the entry of a page in memory is
   dirty exactly if swap has no copy, or the page has been written since it was loaded. Page `hole` is just coming in.
   */
  ghost predicate Tracked(pgdir: seq<seq<Pte>>, mem: Memory, gone: set<Page>, trace: seq<Access>, n: nat, hole: int) {
    && Directory(pgdir) && |mem.loaded| == |mem.frames| && n <= |trace|
    && (forall p :: PageAddress(p) ==> (Entry(pgdir, p).onSwap <==> p in gone))
    && forall f :: 0 <= f < |mem.frames| && mem.frames[f] != hole ==>
         PageTracked(pgdir, mem.frames[f], mem.loaded[f], gone, trace, n)
  }

  ghost predicate PageTracked(pgdir: seq<seq<Pte>>, p: Page, loaded: nat, gone: set<Page>, trace: seq<Access>, n: nat)
    requires Directory(pgdir) && n <= |trace|
  {
    && PageAddress(p) && loaded <= n
    && (Entry(pgdir, p).dirty <==> p !in gone || WrittenSince(trace, loaded, n, p))
  }

  lemma TrackedFill(m: nat, pgdir: seq<seq<Pte>>, mem: Memory, gone: set<Page>, trace: seq<Access>, n: nat, p: Page,
                    victim: nat)
    requires WellFormed(m, mem) && victim < m && p !in mem.frames && |mem.frames| < m
    requires Tracked(pgdir, mem, gone, trace, n, NO_PAGE)
    ensures Tracked(pgdir, Reference(m, mem, n, p, victim), gone, trace, n, p)
  {
    var next := Reference(m, mem, n, p, victim);
    forall f | 0 <= f < |next.frames| && next.frames[f] != p
      ensures PageTracked(pgdir, next.frames[f], next.loaded[f], gone, trace, n)
    {
      assert next.frames[f] == mem.frames[f] && next.loaded[f] == mem.loaded[f];
    }
  }

  lemma TrackedEvict(m: nat, pgdir: seq<seq<Pte>>, mem: Memory, gone: set<Page>, trace: seq<Access>, n: nat, p: Page,
                     f: nat, e: Pte)
    requires WellFormed(m, mem) && f < m && p !in mem.frames && |mem.frames| == m
    requires Tracked(pgdir, mem, gone, trace, n, NO_PAGE)
    requires PageAddress(mem.frames[f]) && |pgdir[PgdirIndex(mem.frames[f])]| != 0 && e.onSwap
    ensures Tracked(SetEntry(pgdir, mem.frames[f], e), Reference(m, mem, n, p, f), gone + {mem.frames[f]}, trace, n, p)
  {
    var victim, next := mem.frames[f], Reference(m, mem, n, p, f);
    var pgdir', gone' := SetEntry(pgdir, victim, e), gone + {victim};
    forall q | PageAddress(q) ensures Entry(pgdir', q).onSwap <==> q in gone' {
      EntryAfterSet(pgdir, victim, e, q);
    }
    forall g | 0 <= g < |next.frames| && next.frames[g] != p
      ensures PageTracked(pgdir', next.frames[g], next.loaded[g], gone', trace, n)
    {
      assert g != f && next.frames[g] == mem.frames[g] != victim && next.loaded[g] == mem.loaded[g];
      assert PageTracked(pgdir, mem.frames[g], mem.loaded[g], gone, trace, n);
      EntryAfterSet(pgdir, victim, e, mem.frames[g]);
    }
  }

  /** The page that came in by reference number n is dirty exactly if swap has no copy of it. */
  lemma TrackedLoad(pgdir: seq<seq<Pte>>, mem: Memory, gone: set<Page>, trace: seq<Access>, n: nat, p: Page, e: Pte)
    requires Tracked(pgdir, mem, gone, trace, n, p) && PageAddress(p) && |pgdir[PgdirIndex(p)]| != 0
    requires e.onSwap == (p in gone) && e.dirty == (p !in gone)
    requires forall f :: 0 <= f < |mem.frames| && mem.frames[f] == p ==> mem.loaded[f] == n
    ensures Tracked(SetEntry(pgdir, p, e), mem, gone, trace, n, NO_PAGE)
  {
    var pgdir' := SetEntry(pgdir, p, e);
    forall q | PageAddress(q) ensures Entry(pgdir', q).onSwap <==> q in gone {
      EntryAfterSet(pgdir, p, e, q);
    }
    forall f | 0 <= f < |mem.frames| ensures PageTracked(pgdir', mem.frames[f], mem.loaded[f], gone, trace, n) {
      if mem.frames[f] != p {
        assert PageTracked(pgdir, mem.frames[f], mem.loaded[f], gone, trace, n);
      }
      EntryAfterSet(pgdir, p, e, mem.frames[f]);
    }
  }

  /** Reference number n makes its page dirty if it is a store or a modify, and leaves it as it was if not. */
  lemma TrackedAccess(pgdir: seq<seq<Pte>>, mem: Memory, gone: set<Page>, trace: seq<Access>, n: nat, e: Pte)
    requires n < |trace| && Tracked(pgdir, mem, gone, trace, n, NO_PAGE)
    requires PageAddress(trace[n].vaddr) && |pgdir[PgdirIndex(trace[n].vaddr)]| != 0
    requires var old' := Entry(pgdir, trace[n].vaddr);
             && e.onSwap == old'.onSwap
             && e.dirty == (old'.dirty || trace[n].kind == 'S' || trace[n].kind == 'M')
    ensures Tracked(SetEntry(pgdir, trace[n].vaddr, e), mem, gone, trace, n + 1, NO_PAGE)
  {
    var p, pgdir' := trace[n].vaddr, SetEntry(pgdir, trace[n].vaddr, e);
    forall q | PageAddress(q) ensures Entry(pgdir', q).onSwap <==> q in gone {
      EntryAfterSet(pgdir, p, e, q);
    }
    forall f | 0 <= f < |mem.frames| ensures PageTracked(pgdir', mem.frames[f], mem.loaded[f], gone, trace, n + 1) {
      var q, l := mem.frames[f], mem.loaded[f];
      assert PageTracked(pgdir, q, l, gone, trace, n);
      EntryAfterSet(pgdir, p, e, q);
      WrittenNext(trace, l, n, q);
    }
  }

  lemma WrittenNext(trace: seq<Access>, s: nat, n: nat, p: Page)
    requires s <= n < |trace|
    ensures WrittenSince(trace, s, n + 1, p) <==>
              WrittenSince(trace, s, n, p) || (trace[n].vaddr == p && (trace[n].kind == 'S' || trace[n].kind == 'M'))
  {
    if trace[n].vaddr == p && (trace[n].kind == 'S' || trace[n].kind == 'M') {
      assert s <= n < n + 1;
    }
    if WrittenSince(trace, s, n, p) {
      var j :| s <= j < n && trace[j].vaddr == p && (trace[j].kind == 'S' || trace[j].kind == 'M');
      assert s <= j < n + 1;
    }
  }

  lemma SameTracks(pgdir: seq<seq<Pte>>, pgdir': seq<seq<Pte>>, mem: Memory, gone: set<Page>, trace: seq<Access>, n: nat)
    requires Tracked(pgdir, mem, gone, trace, n, NO_PAGE)
    requires Directory(pgdir') && forall p :: PageAddress(p) ==> Entry(pgdir', p) == Entry(pgdir, p)
    ensures Tracked(pgdir', mem, gone, trace, n, NO_PAGE)
  {
    forall f | 0 <= f < |mem.frames| ensures PageTracked(pgdir', mem.frames[f], mem.loaded[f], gone, trace, n) {
      assert PageTracked(pgdir, mem.frames[f], mem.loaded[f], gone, trace, n);
    }
  }

  /** A reference to p at position n evicts a page whose copy on swap is up to date. */
  ghost predicate DropsClean(m: nat, mem: Memory, gone: set<Page>, trace: seq<Access>, n: nat, p: Page, victim: nat)
    requires WellFormed(m, mem) && victim < m && n <= |trace|
  {
    && p !in mem.frames && |mem.frames| == m && mem.frames[victim] in gone
    && !WrittenSince(trace, mem.loaded[victim], n, mem.frames[victim])
  }

  /** An empty directory and no frame in use: every page is zero. */
  lemma NothingThere(pgdir: seq<seq<Pte>>, inUse: seq<bool>, pte: seq<Page>, physmem: seq<Contents>,
                     slots: map<int, Contents>, trace: seq<Access>)
    requires |pgdir| == PTRS_PER_PGDIR && forall i :: 0 <= i < |pgdir| ==> pgdir[i] == []
    requires |inUse| == |pte| == |physmem| && forall f :: 0 <= f < |inUse| ==> !inUse[f]
    ensures Faithful(pgdir, inUse, pte, physmem, slots, trace, 0, NO_PAGE)
    ensures Tracked(pgdir, EMPTY, {}, trace, 0, NO_PAGE) && SlotsOwned(pgdir, {}, map[], {})
  {
    forall p | PageAddress(p)
      ensures Kept(Entry(pgdir, p), p, inUse, pte, physmem, slots, WritesTo(trace, 0, 0, p), NO_PAGE)
    {
    }
  }

  // ---------- the repaired pager ----------

  class Pager {
    const memsize: nat
    const trace: seq<Access>
    const inUse: array<bool>
    const pte: array<Page>
    const physmem: array<Contents>
    const pgdir: array<seq<Pte>>
    const swap: SwapFile
    var evictCleanCount: int
    var evictDirtyCount: int

    ghost var done: nat
    ghost var owners: map<nat, Page>
    ghost var gone: set<Page>

    /** Every page is where Faithful says after n references, and the pages put out own the slots in use. */
    ghost predicate Sound(n: nat, hole: int)
      requires n <= |trace|
      reads `owners, `gone, inUse, pte, physmem, pgdir, swap, swap.swapmap, swap.swapmap.v
    {
      var v: object := swap.swapmap.v;
      && inUse.Length == pte.Length == physmem.Length == memsize
      && inUse != v && pte != v && physmem != v && pgdir != v
      && Faithful(pgdir[..], inUse[..], pte[..], physmem[..], swap.slots, trace, n, hole)
      && swap.Valid() && SlotsOwned(pgdir[..], swap.swapmap.Taken(), owners, gone)
    }

    ghost predicate Tracks(mem: Memory, hole: int)
      reads `gone, `done, pgdir
    {
      Tracked(pgdir[..], mem, gone, trace, done, hole)
    }

    ghost predicate Frames(mem: Memory)
      reads inUse, pte
    {
      InFrames(memsize, mem, inUse[..], pte[..])
    }

    constructor (memsize: nat, swapsize: nat, trace: seq<Access>)
      requires memsize > 0
      ensures this.memsize == memsize && this.trace == trace && swap.swapmap.nbits == swapsize
      ensures done == 0 && gone == {} && Sound(0, NO_PAGE) && Frames(EMPTY) && Tracks(EMPTY, NO_PAGE)
      ensures evictCleanCount == evictDirtyCount == 0
      ensures fresh(inUse) && fresh(pte) && fresh(physmem) && fresh(pgdir) && fresh(swap) && fresh(swap.swapmap.v)
    {
      hide Faithful, Tracked, SlotsOwned;
      this.memsize := memsize;
      this.trace := trace;
      inUse := new bool[memsize](_ => false);
      pte := new Page[memsize](_ => 0);
      physmem := new Contents[memsize](_ => Contents(0, 0));
      pgdir := new seq<Pte>[PTRS_PER_PGDIR](_ => []);
      swap := new SwapFile(swapsize);
      evictCleanCount, evictDirtyCount := 0, 0;
      done, owners, gone := 0, map[], {};
      new;
      NothingThere(pgdir[..], inUse[..], pte[..], physmem[..], swap.slots, trace);
    }

    /** What is known of the page in a frame that is in use. */
    lemma VictimHere(frame: nat)
      requires done <= |trace| && Sound(done, NO_PAGE) && frame < memsize && inUse[frame]
      ensures Directory(pgdir[..]) && PageAddress(pte[frame]) && |pgdir[PgdirIndex(pte[frame])]| != 0
      ensures var e := Entry(pgdir[..], pte[frame]);
              && e.valid && e.swapOff >= INVALID_SWAP && (pte[frame] in gone <==> e.swapOff != INVALID_SWAP)
              && (e.onSwap && !e.dirty ==>
                    e.swapOff != INVALID_SWAP && e.swapOff in swap.slots && swap.slots[e.swapOff] == physmem[frame])
    {
      var p := pte[frame];
      assert Backed(pgdir[..], frame, p);
      assert Kept(Entry(pgdir[..], p), p, inUse[..], pte[..], physmem[..], swap.slots,
                  WritesTo(trace, 0, done, p), NO_PAGE);
      OwnerIsGone(pgdir[..], swap.swapmap.Taken(), owners, gone, p);
    }

    /** Writes the victim out to its slot, or to the least free one if it has none. */
    method WriteOut(victim: Page, data: Contents, e: Pte) returns (success: int)
      requires swap.Valid() && Directory(pgdir[..]) && SlotsOwned(pgdir[..], swap.swapmap.Taken(), owners, gone)
      requires PageAddress(victim) && |pgdir[PgdirIndex(victim)]| != 0
      requires e.swapOff == Entry(pgdir[..], victim).swapOff >= INVALID_SWAP
      requires victim in gone <==> e.swapOff != INVALID_SWAP
      requires var v: object := swap.swapmap.v; pgdir != v
      modifies swap, swap.swapmap.v, this`owners
      ensures success == INVALID_SWAP ==> |gone + {victim}| > swap.swapmap.nbits
      ensures success != INVALID_SWAP ==>
                && swap.Valid() && swap.slots == old(swap.slots)[success := data]
                && SlotsOwned(SetEntry(pgdir[..], victim, e.(swapOff := success)),
                              swap.swapmap.Taken(), owners, gone + {victim})
    {
      hide SlotsOwned;
      ghost var taken := swap.swapmap.Taken();
      success := swap.PageOut(data, e.swapOff);
      ghost var e' := e.(swapOff := success);
      if success == INVALID_SWAP {
        SwapTooSmall(pgdir[..], taken, owners, gone, swap.swapmap.nbits, victim);
      } else if e.swapOff == INVALID_SWAP {
        OwnedGrown(pgdir[..], taken, owners, gone, victim, success / SIMPAGESIZE, e');
        owners := owners[success / SIMPAGESIZE := victim];
      } else {
        OffsetsKept(pgdir[..], victim, e');
        OwnedKept(pgdir[..], SetEntry(pgdir[..], victim, e'), taken, owners, gone);
        assert gone + {victim} == gone;
      }
    }

    /**
     The eviction in allocate_frame, repaired to mark the entry as being on swap: a page whose slot has its
     contents already is dropped, any other is written out first.
     */
    method Evict(frame: nat) returns (ok: bool)
      requires done <= |trace| && Sound(done, NO_PAGE) && frame < memsize && inUse[frame]
      modifies pgdir, swap, swap.swapmap.v, this`owners, this`gone, this`evictCleanCount, this`evictDirtyCount
      ensures ok ==> Sound(done, frame) && gone == old(gone) + {pte[frame]}
      ensures ok ==> Directory(pgdir[..]) && PageAddress(pte[frame]) && Entry(pgdir[..], pte[frame]).onSwap
      ensures ok ==> var e := Entry(old(pgdir[..]), pte[frame]); var clean := e.onSwap && !e.dirty;
                     && evictCleanCount == old(evictCleanCount) + (if clean then 1 else 0)
                     && evictDirtyCount == old(evictDirtyCount) + (if clean then 0 else 1)
                     && (clean ==> swap.slots == old(swap.slots))
      ensures ok ==> Directory(old(pgdir[..])) && PageAddress(pte[frame])
                     && old(|pgdir[PgdirIndex(pte[frame])]| != 0) && Entry(old(pgdir[..]), pte[frame]).valid
                     && pgdir[..] == SetEntry(old(pgdir[..]), pte[frame], Entry(pgdir[..], pte[frame]))
      ensures !ok ==> |old(gone) + {pte[frame]}| > swap.swapmap.nbits
    {
      hide SlotsOwned, Faithful;
      var victim := pte[frame];
      VictimHere(frame);
      var e := Entry(pgdir[..], victim);
      ghost var before, slots := pgdir[..], swap.slots;
      if e.onSwap && !e.dirty {
        evictCleanCount := evictCleanCount + 1;
        e := e.(valid := false);
        OffsetsKept(before, victim, e);
        OwnedKept(before, SetEntry(before, victim, e), swap.swapmap.Taken(), owners, gone);
        assert slots == slots[e.swapOff := physmem[frame]] && gone + {victim} == gone;
      } else {
        e := e.(valid := false, dirty := false, onSwap := true);
        var success := WriteOut(victim, physmem[frame], e);
        evictDirtyCount := evictDirtyCount + 1;
        if success == INVALID_SWAP {
          return false;
        }
        e := e.(swapOff := success);
      }
      SlotIsOwn(before, swap.swapmap.Taken(), owners, gone + {victim}, victim, e);
      LeavesFrame(before, inUse[..], pte[..], physmem[..], slots, trace, done, frame, e, swap.slots);
      EntryAfterSet(before, victim, e, victim);
      gone := gone + {victim};
      var idx := PgdirIndex(victim);
      pgdir[idx] := pgdir[idx][PgtblIndex(victim) := e];
      ok := true;
    }

    /** What the entry of a page in memory says of swap. */
    lemma VictimTracked(mem: Memory, frame: nat)
      requires Tracks(mem, NO_PAGE) && frame < |mem.frames| == memsize && WellFormed(memsize, mem)
      ensures Directory(pgdir[..]) && PageAddress(mem.frames[frame]) && done <= |trace|
      ensures var e := Entry(pgdir[..], mem.frames[frame]);
              e.onSwap && !e.dirty <==>
                mem.frames[frame] in gone && !WrittenSince(trace, mem.loaded[frame], done, mem.frames[frame])
    {
      assert PageTracked(pgdir[..], mem.frames[frame], mem.loaded[frame], gone, trace, done);
    }

    /** allocate_frame: the first free frame, or else the frame of whatever victim the policy chose. */
    method Allocate(p: Page, victim: nat, ghost mem: Memory) returns (ok: bool, frame: nat)
      requires done <= |trace| && Sound(done, NO_PAGE) && Frames(mem) && p !in mem.frames && victim < memsize
      requires Tracks(mem, NO_PAGE)
      requires PageAddress(p) && Directory(pgdir[..]) && |pgdir[PgdirIndex(p)]| != 0 && !Entry(pgdir[..], p).valid
      modifies inUse, pte, pgdir, swap, swap.swapmap.v, this`owners, this`gone, this`evictCleanCount, this`evictDirtyCount
      ensures ok ==> frame < memsize && Sound(done, frame) && |pgdir[PgdirIndex(p)]| != 0
      ensures ok ==> inUse.Length == pte.Length == memsize && inUse[frame] && pte[frame] == p
      ensures ok ==> Directory(pgdir[..]) && Entry(pgdir[..], p) == Entry(old(pgdir[..]), p)
      ensures ok ==> Frames(Reference(memsize, mem, done, p, victim))
      ensures ok ==> Tracks(Reference(memsize, mem, done, p, victim), p)
      ensures ok ==> gone == PutOut(memsize, mem, old(gone), p, victim)
      ensures ok ==> evictCleanCount == old(evictCleanCount)
                       + if DropsClean(memsize, mem, old(gone), trace, done, p, victim) then 1 else 0
      ensures ok ==> evictCleanCount + evictDirtyCount == old(evictCleanCount + evictDirtyCount)
                       + if |mem.frames| == memsize then 1 else 0
      ensures !ok ==> |PutOut(memsize, mem, old(gone), p, victim)| > swap.swapmap.nbits
    {
      hide SlotsOwned, Faithful, Tracked;
      ok, frame := true, victim;
      var i := 0;
      while i < memsize && inUse[i]
        invariant 0 <= i <= memsize && forall j :: 0 <= j < i ==> inUse[j]
      {
        i := i + 1;
      }
      ghost var before, hole := pgdir[..], NO_PAGE;
      ghost var used, pages := inUse[..], pte[..];
      assert |mem.frames| < memsize ==> !inUse[|mem.frames|];
      if i < memsize {
        frame := i;
        TrackedFill(memsize, before, mem, gone, trace, done, p, victim);
      } else {
        assert pte[frame] == mem.frames[frame];
        VictimTracked(mem, frame);
        ghost var put := gone;
        ok := Evict(frame);
        if !ok {
          return;
        }
        EntryAfterSet(before, pte[frame], Entry(pgdir[..], pte[frame]), p);
        TrackedEvict(memsize, before, mem, put, trace, done, p, frame, Entry(pgdir[..], pte[frame]));
        hole := frame;
      }
      HoleFree(pgdir[..], inUse[..], pte[..], physmem[..], swap.slots, trace, done, frame, p, hole);
      FramesNext(memsize, mem, used, pages, done, p, victim, frame);
      inUse[frame] := true;
      pte[frame] := p;
      assert inUse[..] == used[frame := true] && pte[..] == pages[frame := p];
    }

    /** Makes sure that the second-level table of p is there. */
    method EnsureTable(p: Page, ghost mem: Memory)
      requires done <= |trace| && Sound(done, NO_PAGE) && Tracks(mem, NO_PAGE) && PageAddress(p)
      modifies pgdir
      ensures Sound(done, NO_PAGE) && Tracks(mem, NO_PAGE) && Directory(pgdir[..]) && |pgdir[PgdirIndex(p)]| != 0
    {
      var idx := PgdirIndex(p);
      if |pgdir[idx]| == 0 {
        ghost var before := pgdir[..];
        pgdir[idx] := NewTable();
        assert pgdir[..] == before[idx := NewTable()];
        forall q | PageAddress(q) ensures Entry(pgdir[..], q) == Entry(before, q) {
        }
        SameFaith(before, pgdir[..], inUse[..], pte[..], physmem[..], swap.slots, trace, done);
        SameTracks(before, pgdir[..], mem, gone, trace, done);
        OwnedKept(before, pgdir[..], swap.swapmap.Taken(), owners, gone);
      }
    }

    /** The miss branches of find_physpage, repaired to read a page back into the frame just allocated. */
    method Fault(p: Page, victim: nat, ghost mem: Memory) returns (ok: bool)
      requires done <= |trace| && Sound(done, NO_PAGE) && Frames(mem) && p !in mem.frames && victim < memsize
      requires Tracks(mem, NO_PAGE)
      requires PageAddress(p) && Directory(pgdir[..]) && |pgdir[PgdirIndex(p)]| != 0 && !Entry(pgdir[..], p).valid
      modifies inUse, pte, physmem, pgdir, swap, swap.swapmap.v,
               this`owners, this`gone, this`evictCleanCount, this`evictDirtyCount
      ensures ok ==> Sound(done, NO_PAGE) && Directory(pgdir[..]) && |pgdir[PgdirIndex(p)]| != 0
      ensures ok ==> Entry(pgdir[..], p).valid
      ensures ok ==> Frames(Reference(memsize, mem, done, p, victim))
      ensures ok ==> Tracks(Reference(memsize, mem, done, p, victim), NO_PAGE)
      ensures ok ==> gone == PutOut(memsize, mem, old(gone), p, victim)
      ensures ok ==> evictCleanCount == old(evictCleanCount)
                       + if DropsClean(memsize, mem, old(gone), trace, done, p, victim) then 1 else 0
      ensures ok ==> evictCleanCount + evictDirtyCount == old(evictCleanCount + evictDirtyCount)
                       + if |mem.frames| == memsize then 1 else 0
      ensures !ok ==> |PutOut(memsize, mem, old(gone), p, victim)| > swap.swapmap.nbits
    {
      hide SlotsOwned, Faithful, Tracked, DropsClean;
      var frame;
      var onSwap := Entry(pgdir[..], p).onSwap;
      ok, frame := Allocate(p, victim, mem);
      if ok {
        AbsentPage(p, frame);
        ghost var next := Reference(memsize, mem, done, p, victim);
        OnSwapIsGone(next, p);
        LoadedNow(mem, p, victim);
        ghost var before, data := pgdir[..], physmem[..];
        var e := Entry(pgdir[..], p);
        if !onSwap {
          physmem[frame] := Contents(0, p);
          e := Pte(frame, true, true, true, false, e.swapOff);
        } else {
          physmem[frame] := swap.PageIn(e.swapOff);
          e := Pte(frame, true, false, true, true, e.swapOff);
        }
        assert inUse[..] == inUse[..][frame := true] && pte[..] == pte[..][frame := p];
        EntersFrame(before, inUse[..], pte[..], data, swap.slots, trace, done, frame, p, e);
        OffsetsKept(before, p, e);
        OwnedKept(before, SetEntry(before, p, e), swap.swapmap.Taken(), owners, gone);
        EntryAfterSet(before, p, e, p);
        TrackedLoad(before, next, gone, trace, done, p, e);
        var idx := PgdirIndex(p);
        pgdir[idx] := pgdir[idx][PgtblIndex(p) := e];
      }
    }

    lemma OnSwapIsGone(mem: Memory, p: Page)
      requires Tracks(mem, p) && PageAddress(p)
      ensures Directory(pgdir[..]) && (Entry(pgdir[..], p).onSwap <==> p in gone)
    {
    }

    lemma LoadedNow(mem: Memory, p: Page, victim: nat)
      requires WellFormed(memsize, mem) && victim < memsize && p !in mem.frames
      ensures var next := Reference(memsize, mem, done, p, victim);
              forall f :: 0 <= f < |next.frames| && next.frames[f] == p ==> next.loaded[f] == done
    {
    }

    /** No more pages than slots have been put out. */
    lemma GoneFits()
      requires done <= |trace| && Sound(done, NO_PAGE)
      ensures |gone| <= swap.swapmap.nbits
    {
      SwapLargeEnough(pgdir[..], swap.swapmap.Taken(), owners, gone, swap.swapmap.nbits);
    }

    /** A page that is not in memory is in its slot, or has never been written. */
    lemma AbsentPage(p: Page, frame: nat)
      requires done <= |trace| && Sound(done, frame) && PageAddress(p) && frame < memsize
      requires Directory(pgdir[..]) && !Entry(pgdir[..], p).valid
      ensures var e := Entry(pgdir[..], p);
              if e.onSwap then
                e.swapOff != INVALID_SWAP && e.swapOff in swap.slots
                && swap.slots[e.swapOff] == Contents(WritesTo(trace, 0, done, p), p)
              else
                WritesTo(trace, 0, done, p) == 0
    {
      assert Kept(Entry(pgdir[..], p), p, inUse[..], pte[..], physmem[..], swap.slots,
                  WritesTo(trace, 0, done, p), frame);
    }

    /** The end of find_physpage, which marks the entry, and access_mem once the page is in memory. */
    method Visit(kind: char, vaddr: Page, ghost mem: Memory) returns (version: nat)
      requires done < |trace| && Sound(done, NO_PAGE) && Frames(mem) && Tracks(mem, NO_PAGE)
      requires trace[done] == Access(kind, vaddr) && PageAddress(vaddr)
      requires Directory(pgdir[..]) && |pgdir[PgdirIndex(vaddr)]| != 0 && Entry(pgdir[..], vaddr).valid
      modifies physmem, pgdir, this`done
      ensures done == old(done) + 1 && Sound(done, NO_PAGE) && Frames(mem) && Tracks(mem, NO_PAGE)
      ensures version == WritesTo(trace, 0, old(done), vaddr)
    {
      hide SlotsOwned, Faithful, InFrames, Tracked;
      var e := Entry(pgdir[..], vaddr);
      var frame := e.number;
      e := e.(referenced := true, dirty := e.dirty || Writes(kind));
      ghost var before, data := pgdir[..], physmem[..];
      Accessed(before, inUse[..], pte[..], data, swap.slots, trace, done, frame, e);
      TrackedAccess(before, mem, gone, trace, done, e);
      OffsetsKept(before, vaddr, e);
      OwnedKept(before, SetEntry(before, vaddr, e), swap.swapmap.Taken(), owners, gone);
      var idx := PgdirIndex(vaddr);
      pgdir[idx] := pgdir[idx][PgtblIndex(vaddr) := e];
      version := physmem[frame].version;
      if Writes(kind) {
        physmem[frame] := Contents(version + 1, physmem[frame].vaddr);
      }
      done := done + 1;
    }

    /** access_mem: the version found is the number of writes made to the page so far. */
    method AccessMem(kind: char, vaddr: Page, victim: nat, ghost mem: Memory) returns (ok: bool, version: nat)
      requires done < |trace| && Sound(done, NO_PAGE) && Frames(mem) && Tracks(mem, NO_PAGE) && victim < memsize
      requires trace[done] == Access(kind, vaddr) && PageAddress(vaddr)
      modifies inUse, pte, physmem, pgdir, swap, swap.swapmap.v,
               this`owners, this`gone, this`evictCleanCount, this`evictDirtyCount, this`done
      ensures ok ==> done == old(done) + 1 && Sound(done, NO_PAGE)
      ensures ok ==> version == WritesTo(trace, 0, old(done), vaddr)
      ensures ok ==> Frames(Reference(memsize, mem, old(done), vaddr, victim))
      ensures ok ==> Tracks(Reference(memsize, mem, old(done), vaddr, victim), NO_PAGE)
      ensures ok ==> gone == PutOut(memsize, mem, old(gone), vaddr, victim)
      ensures ok ==> evictCleanCount == old(evictCleanCount)
                       + if DropsClean(memsize, mem, old(gone), trace, old(done), vaddr, victim) then 1 else 0
      ensures ok ==> evictCleanCount + evictDirtyCount == old(evictCleanCount + evictDirtyCount)
                       + if vaddr !in mem.frames && |mem.frames| == memsize then 1 else 0
      ensures !ok ==> |PutOut(memsize, mem, old(gone), vaddr, victim)| > swap.swapmap.nbits
    {
      hide SlotsOwned, Faithful, InFrames, Tracked;
      EnsureTable(vaddr, mem);
      ValidIsResident(memsize, mem, pgdir[..], inUse[..], pte[..], physmem[..], swap.slots, trace, done, vaddr);
      ok := true;
      if !Entry(pgdir[..], vaddr).valid {
        ok := Fault(vaddr, victim, mem);
        if !ok {
          version := 0;
          return;
        }
      }
      version := Visit(kind, vaddr, Reference(memsize, mem, done, vaddr, victim));
    }
  }

  lemma NothingYet(m: nat, trace: seq<Access>, victims: seq<nat>)
    requires Schedule(m, victims)
    ensures Run(m, Addresses(trace), victims, 0) == EMPTY && EvictedPages(m, Addresses(trace), victims, 0) == {}
    ensures CleanDrops(m, trace, victims, 0) == {}
  {
  }

  lemma OneReference(m: nat, trace: seq<Page>, victims: seq<nat>, n: nat)
    requires Schedule(m, victims) && n < |victims| && n < |trace|
    ensures Run(m, trace, victims, n + 1) == Reference(m, Run(m, trace, victims, n), n, trace[n], victims[n])
    ensures EvictedPages(m, trace, victims, n + 1)
         == PutOut(m, Run(m, trace, victims, n), EvictedPages(m, trace, victims, n), trace[n], victims[n])
  {
  }

  /** The pages put out by then, by the end of the trace, and the pages there are. */
  lemma EndsWhen(m: nat, trace: seq<Page>, victims: seq<nat>, n: nat)
    requires Schedule(m, victims) && n <= |victims| == |trace|
    ensures |EvictedPages(m, trace, victims, n)| <= |EvictedPages(m, trace, victims, |trace|)|
    ensures |EvictedPages(m, trace, victims, |trace|)| <= |Pages(trace, 0, |trace|)|
  {
    EvictedGrow(m, trace, victims, n, |trace|);
    SubsetSize(EvictedPages(m, trace, victims, n), EvictedPages(m, trace, victims, |trace|));
    EvictedWereReferenced(m, trace, victims, |trace|);
    SubsetSize(EvictedPages(m, trace, victims, |trace|), Pages(trace, 0, |trace|));
  }

  ghost predicate DropsCleanAt(m: nat, trace: seq<Access>, victims: seq<nat>, i: nat)
    requires Schedule(m, victims) && i < |victims| && i < |trace|
  {
    DropsClean(m, Run(m, Addresses(trace), victims, i), EvictedPages(m, Addresses(trace), victims, i), trace, i,
               trace[i].vaddr, victims[i])
  }

  /** The references, of the first n, that evict a page whose copy on swap is up to date. */
  ghost function CleanDrops(m: nat, trace: seq<Access>, victims: seq<nat>, n: nat): set<nat>
    requires Schedule(m, victims) && n <= |victims| && n <= |trace|
  {
    set i | 0 <= i < n && DropsCleanAt(m, trace, victims, i)
  }

  lemma CleanDropsNext(m: nat, trace: seq<Access>, victims: seq<nat>, n: nat)
    requires Schedule(m, victims) && n < |victims| && n < |trace|
    ensures |CleanDrops(m, trace, victims, n + 1)|
         == |CleanDrops(m, trace, victims, n)| + if DropsCleanAt(m, trace, victims, n) then 1 else 0
  {
    hide DropsCleanAt;
    var before := CleanDrops(m, trace, victims, n);
    assert CleanDrops(m, trace, victims, n + 1)
        == if DropsCleanAt(m, trace, victims, n) then before + {n} else before;
  }

  /**
   The repaired program behaves as flat memory: whatever is evicted, each reference finds all earlier writes,
   and only the reference that puts out one page more than there are swap slots stops the run. A page is evicted
   clean exactly if it was put out before and has not been written since it was loaded.
   */
  method Replay(memsize: nat, swapsize: nat, trace: seq<Access>, victims: seq<nat>)
    returns (ok: bool, versions: seq<nat>, clean: int, dirty: int)
    requires memsize > 0 && |victims| == |trace| && Schedule(memsize, victims)
    requires forall i :: 0 <= i < |trace| ==> PageAddress(trace[i].vaddr)
    ensures |versions| <= |trace| && (ok <==> |versions| == |trace|)
    ensures forall i :: 0 <= i < |versions| ==>
              versions[i] == |Accesses(trace, 0, i, 'S', trace[i].vaddr)| + |Accesses(trace, 0, i, 'M', trace[i].vaddr)|
    ensures ok <==> |EvictedPages(memsize, Addresses(trace), victims, |trace|)| <= swapsize
    ensures !ok ==> |EvictedPages(memsize, Addresses(trace), victims, |versions|)| <= swapsize
                    < |EvictedPages(memsize, Addresses(trace), victims, |versions| + 1)|
    ensures |Pages(Addresses(trace), 0, |trace|)| <= swapsize ==> ok
    ensures ok ==> clean == |CleanDrops(memsize, trace, victims, |trace|)|
    ensures ok ==> var mem := Run(memsize, Addresses(trace), victims, |trace|); clean + dirty == mem.misses - |mem.frames|
  {
    hide Pager.Sound, Pager.Frames, Pager.Tracks, Pages, PutOut, EvictedPages, Run, Reference, WritesTo, SwapFile.Valid;
    hide DropsClean, CleanDrops, Accesses;
    var pager := new Pager(memsize, swapsize, trace);
    ghost var pages := Addresses(trace);
    ok, versions := true, [];
    NothingYet(memsize, trace, victims);
    while ok && |versions| < |trace|
      invariant |versions| <= |trace| && pager.swap.swapmap.nbits == swapsize
      invariant |EvictedPages(memsize, pages, victims, |versions|)| <= swapsize
      invariant ok ==> |versions| == pager.done && pager.Sound(pager.done, NO_PAGE)
      invariant ok ==> pager.Frames(Run(memsize, pages, victims, |versions|))
      invariant ok ==> pager.Tracks(Run(memsize, pages, victims, |versions|), NO_PAGE)
      invariant ok ==> pager.gone == EvictedPages(memsize, pages, victims, |versions|)
      invariant ok ==> pager.evictCleanCount == |CleanDrops(memsize, trace, victims, |versions|)|
      invariant ok ==> pager.evictCleanCount + pager.evictDirtyCount == Evictions(Run(memsize, pages, victims, |versions|))
      invariant !ok ==> |versions| < |trace| && |EvictedPages(memsize, pages, victims, |versions| + 1)| > swapsize
      invariant fresh(pager)
      invariant forall i :: 0 <= i < |versions| ==> versions[i] == WritesTo(trace, 0, i, trace[i].vaddr)
      decreases ok, |trace| - |versions|
    {
      var n, version := |versions|, 0;
      OneReference(memsize, pages, victims, n);
      CleanDropsNext(memsize, trace, victims, n);
      EvictionsNext(memsize, Run(memsize, pages, victims, n), n, pages[n], victims[n]);
      ok, version := pager.AccessMem(trace[n].kind, trace[n].vaddr, victims[n], Run(memsize, pages, victims, n));
      if ok {
        pager.GoneFits();
        versions := versions + [version];
      }
    }
    clean, dirty := pager.evictCleanCount, pager.evictDirtyCount;
    EndsWhen(memsize, pages, victims, if ok then |trace| else |versions| + 1);
    forall i | 0 <= i < |versions|
      ensures versions[i] == |Accesses(trace, 0, i, 'S', trace[i].vaddr)| + |Accesses(trace, 0, i, 'M', trace[i].vaddr)|
    {
      WritesAre(trace, 0, i, trace[i].vaddr);
    }
  }

  function Evictions(mem: Memory): int {
    mem.misses - |mem.frames|
  }

  lemma EvictionsNext(m: nat, mem: Memory, now: nat, p: Page, victim: nat)
    requires WellFormed(m, mem) && victim < m
    ensures Evictions(Reference(m, mem, now, p, victim))
         == Evictions(mem) + if p !in mem.frames && |mem.frames| == m then 1 else 0
  {
  }
}
