/**
 The demand-paging simulator: the reference trace is replayed through the page table, the
 coremap, the swap file and one replacement policy. Every run is a run of Paging on the same
 trace, with the victims that the policy chose.
 */
module Simulator {
  import opened Distinctness
  import opened Paging
  import opened Belady
  import opened Recency
  import opened Competitive
  import opened SecondChance
  import opened PolicyViews
  import opened PageTable
  import opened SwapFile
  import LruList
  import OptPolicy
  import OptLists

  /** One line of the trace: the access type and the address. */
  datatype Access = Access(kind: char, vaddr: nat)

  predicate Writes(kind: char) {
    kind == 'S' || kind == 'M'
  }

  /** Random replacement takes its numbers from a sequence given beforehand, one per reference. */
  datatype Algorithm = Rand(numbers: seq<nat>) | Lru | Fifo | Clock | Opt

  function Addresses(trace: seq<Access>): (pages: seq<Page>)
    ensures |pages| == |trace|
    ensures forall i :: 0 <= i < |trace| ==> pages[i] == trace[i].vaddr
  {
    seq(|trace|, i requires 0 <= i < |trace| => trace[i].vaddr)
  }

  /** Write accesses to p among references s..n. */
  function WritesTo(trace: seq<Access>, s: nat, n: nat, p: Page): nat
    requires s <= n <= |trace|
    decreases n
  {
    if s == n then 0
    else WritesTo(trace, s, n - 1, p) + (if trace[n - 1].vaddr == p && Writes(trace[n - 1].kind) then 1 else 0)
  }

  /** The references s..n of that kind to that page. */
  function Accesses(trace: seq<Access>, s: nat, n: nat, kind: char, p: Page): set<nat>
    requires s <= n <= |trace|
  {
    set j | s <= j < n && trace[j] == Access(kind, p)
  }

  /** What counts as a write is a store or a modify, and nothing else. */
  lemma {:induction false} WritesAre(trace: seq<Access>, s: nat, n: nat, p: Page)
    requires s <= n <= |trace|
    ensures WritesTo(trace, s, n, p) == |Accesses(trace, s, n, 'S', p)| + |Accesses(trace, s, n, 'M', p)|
    decreases n
  {
    if s < n {
      WritesAre(trace, s, n - 1, p);
      AccessesNext(trace, s, n, 'S', p);
      AccessesNext(trace, s, n, 'M', p);
    }
  }

  lemma AccessesNext(trace: seq<Access>, s: nat, n: nat, kind: char, p: Page)
    requires s < n <= |trace|
    ensures |Accesses(trace, s, n, kind, p)|
         == |Accesses(trace, s, n - 1, kind, p)| + if trace[n - 1] == Access(kind, p) then 1 else 0
  {
    var before := Accesses(trace, s, n - 1, kind, p);
    assert Accesses(trace, s, n, kind, p) == if trace[n - 1] == Access(kind, p) then before + {n - 1} else before;
  }

  /** The version counter that reference number i meets: the writes to its page since it was last loaded. */
  ghost function Found(m: nat, trace: seq<Access>, victims: seq<nat>, i: nat): nat
    requires m > 0 && Schedule(m, victims) && i < |victims| && i < |trace|
  {
    var mem := Run(m, Addresses(trace), victims, i + 1);
    var f := IndexOf(mem.frames, trace[i].vaddr);
    ResidentWasReferenced(m, Addresses(trace), victims, i + 1, f);
    WritesTo(trace, mem.loaded[f], i, trace[i].vaddr)
  }

  lemma FoundIn(m: nat, trace: seq<Access>, victims: seq<nat>, i: nat, next: Memory, f: nat)
    requires m > 0 && Schedule(m, victims) && i < |victims| && i < |trace|
    requires next == Run(m, Addresses(trace), victims, i + 1)
    requires f < |next.frames| && next.frames[f] == trace[i].vaddr && next.loaded[f] <= i
    ensures Found(m, trace, victims, i) == WritesTo(trace, next.loaded[f], i, trace[i].vaddr)
  {
    assert IndexOf(next.frames, trace[i].vaddr) == f;
  }

  /** Reference number l loaded the page that reference number i finds, and it has been in memory since. */
  ghost predicate LastLoad(m: nat, trace: seq<Access>, victims: seq<nat>, i: nat, l: nat)
    requires m > 0 && Schedule(m, victims) && i < |victims| && i < |trace|
  {
    && l <= i && trace[l].vaddr == trace[i].vaddr && trace[l].vaddr !in Run(m, Addresses(trace), victims, l).frames
    && forall j :: l < j <= i ==> trace[i].vaddr in Run(m, Addresses(trace), victims, j).frames
  }

  /** The version is the number of stores and modifies of the page from when it was last loaded. */
  ghost predicate CountsSinceLoad(m: nat, trace: seq<Access>, victims: seq<nat>, i: nat, version: nat)
    requires m > 0 && Schedule(m, victims) && i < |victims| && i < |trace|
  {
    exists l ::
      && LastLoad(m, trace, victims, i, l)
      && version == |Accesses(trace, l, i, 'S', trace[i].vaddr)| + |Accesses(trace, l, i, 'M', trace[i].vaddr)|
  }

  lemma FoundCounts(m: nat, trace: seq<Access>, victims: seq<nat>, i: nat)
    requires m > 0 && Schedule(m, victims) && i < |victims| && i < |trace|
    ensures CountsSinceLoad(m, trace, victims, i, Found(m, trace, victims, i))
  {
    hide WritesTo, Accesses;
    var pages := Addresses(trace);
    var mem := Run(m, pages, victims, i + 1);
    var f := IndexOf(mem.frames, trace[i].vaddr);
    var l := mem.loaded[f];
    LoadedByMiss(m, pages, victims, i + 1, f);
    forall j | l < j <= i ensures trace[i].vaddr in Run(m, pages, victims, j).frames {
      ResidentSince(m, pages, victims, i + 1, f, j);
    }
    assert LastLoad(m, trace, victims, i, l);
    WritesAre(trace, l, i, trace[i].vaddr);
  }

  /** There is only one such load. */
  lemma LastLoadIsOne(m: nat, trace: seq<Access>, victims: seq<nat>, i: nat, l: nat, l': nat)
    requires m > 0 && Schedule(m, victims) && i < |victims| && i < |trace|
    requires LastLoad(m, trace, victims, i, l) && LastLoad(m, trace, victims, i, l')
    ensures l == l'
  {
  }

  /** A reference of any other kind leaves the version of every page that stays in memory alone. */
  lemma OthersLeaveVersions(m: nat, trace: seq<Access>, victims: seq<nat>, n: nat, physmem: seq<Contents>,
                            physmem': seq<Contents>)
    requires Schedule(m, victims) && n < |victims| && n < |trace|
    requires Carries(trace, Run(m, Addresses(trace), victims, n), physmem, n)
    requires Carries(trace, Run(m, Addresses(trace), victims, n + 1), physmem', n + 1)
    ensures var mem, next := Run(m, Addresses(trace), victims, n), Run(m, Addresses(trace), victims, n + 1);
            forall f :: 0 <= f < |mem.frames| && next.frames[f] == mem.frames[f] ==>
              physmem'[f].version == physmem[f].version
                + if trace[n].vaddr == mem.frames[f] && (trace[n].kind == 'S' || trace[n].kind == 'M') then 1 else 0
  {
    var mem, next := Run(m, Addresses(trace), victims, n), Run(m, Addresses(trace), victims, n + 1);
    forall f | 0 <= f < |mem.frames| && next.frames[f] == mem.frames[f]
      ensures physmem'[f].version == physmem[f].version
                + if trace[n].vaddr == mem.frames[f] && (trace[n].kind == 'S' || trace[n].kind == 'M') then 1 else 0
    {
      assert next.loaded[f] == mem.loaded[f];
    }
  }

  /** The version counters met so far are those that the references find. */
  ghost predicate Met(m: nat, trace: seq<Access>, victims: seq<nat>, versions: seq<nat>) {
    && m > 0 && Schedule(m, victims) && |versions| <= |victims| && |versions| <= |trace|
    && forall i :: 0 <= i < |versions| ==> versions[i] == Found(m, trace, victims, i)
  }

  /** More victims do not change what was found. */
  lemma MetBefore(m: nat, trace: seq<Access>, victims: seq<nat>, versions: seq<nat>, more: seq<nat>)
    requires Met(m, trace, victims, versions) && Schedule(m, more) && victims <= more
    ensures Met(m, trace, more, versions)
  {
    forall i | 0 <= i < |versions| ensures Found(m, trace, more, i) == Found(m, trace, victims, i) {
      assert more[..i + 1] == victims[..i + 1];
      RunPrefix(m, Addresses(trace), victims, more, i + 1);
    }
  }

  // ---------- views of the simulator's arrays ----------

  /** The frames as the CLOCK hand sees them, reference bits read through the page table. */
  function Slots(mem: Memory, pgdir: seq<seq<Pte>>): (slots: seq<Slot>)
    requires |mem.loaded| == |mem.frames|
    ensures |slots| == |mem.frames|
    ensures forall f :: 0 <= f < |slots| ==>
              slots[f] == Slot(mem.frames[f], RefBit(pgdir, mem.frames[f]), mem.loaded[f])
  {
    seq(|mem.frames|, f requires 0 <= f < |mem.frames| =>
      Slot(mem.frames[f], RefBit(pgdir, mem.frames[f]), mem.loaded[f]))
  }

  predicate RefBit(pgdir: seq<seq<Pte>>, p: Page) {
    Directory(pgdir) && PageAddress(p) && Entry(pgdir, p).referenced
  }

  /** Changing the reference bit of the page in frame f changes slot f. */
  lemma SlotsAfterSet(mem: Memory, pgdir: seq<seq<Pte>>, f: nat, e: Pte)
    requires |mem.loaded| == |mem.frames| && f < |mem.frames| && Distinct(mem.frames)
    requires Directory(pgdir) && forall g :: 0 <= g < |mem.frames| ==> PageAddress(mem.frames[g])
    requires |pgdir[PgdirIndex(mem.frames[f])]| != 0
    ensures Slots(mem, SetEntry(pgdir, mem.frames[f], e))
         == Slots(mem, pgdir)[f := Slots(mem, pgdir)[f].(referenced := e.referenced)]
  {
    forall g | 0 <= g < |mem.frames|
      ensures RefBit(SetEntry(pgdir, mem.frames[f], e), mem.frames[g])
           == if g == f then e.referenced else RefBit(pgdir, mem.frames[g])
    {
      EntryAfterSet(pgdir, mem.frames[f], e, mem.frames[g]);
    }
  }

  lemma SlotsDistinct(mem: Memory, pgdir: seq<seq<Pte>>)
    requires |mem.loaded| == |mem.frames| && Distinct(mem.frames)
    ensures DistinctSlots(Slots(mem, pgdir))
  {
  }

  /** Marking the entry of the page referenced marks or makes its slot and touches no other. */
  lemma SlotsAfterReference(m: nat, mem: Memory, pgdir: seq<seq<Pte>>, now: nat, p: Page, frame: nat, e: Pte)
    requires WellFormed(m, mem) && frame < m && Directory(pgdir) && PageAddress(p) && |pgdir[PgdirIndex(p)]| != 0
    requires forall f :: 0 <= f < |mem.frames| ==> PageAddress(mem.frames[f])
    requires if p in mem.frames then frame < |mem.frames| && mem.frames[frame] == p
             else |mem.frames| < m ==> frame == |mem.frames|
    requires e.referenced
    ensures var slots := Slots(mem, pgdir);
            Slots(Reference(m, mem, now, p, frame), SetEntry(pgdir, p, e))
            == if p in mem.frames then slots[frame := slots[frame].(referenced := true)]
               else if |mem.frames| < m then slots + [Slot(p, true, now)]
               else slots[frame := Slot(p, true, now)]
  {
    var next, pgdir' := Reference(m, mem, now, p, frame), SetEntry(pgdir, p, e);
    forall f | 0 <= f < |next.frames|
      ensures RefBit(pgdir', next.frames[f]) == if f == frame then true else RefBit(pgdir, next.frames[f])
    {
      assert f < |mem.frames| && f != frame ==> next.frames[f] == mem.frames[f];
      EntryAfterSet(pgdir, p, e, next.frames[f]);
    }
  }

  /** One reference moves the frames under the hand as it moves the second-chance queue. */
  lemma ClockAfterReference(m: nat, slots: seq<Slot>, hand: int, queue: seq<Slot>, now: nat, p: Page, frame: nat)
    requires 0 < m && |slots| <= m && frame < m && -1 <= hand < |slots| && DistinctSlots(slots)
    requires |slots| < m ==> hand == -1
    requires |queue| == |slots|
    requires if Holds(slots, p) then frame < |slots| && slots[frame].page == p && View(slots, hand) == queue
             else if |slots| < m then frame == |slots| && View(slots, hand) == queue
             else frame == hand && View(slots, hand) == Sweep(queue)[1..] + [Sweep(queue)[0]]
    ensures View(if Holds(slots, p) then slots[frame := slots[frame].(referenced := true)]
                 else if |slots| < m then slots + [Slot(p, true, now)]
                 else slots[frame := Slot(p, true, now)], hand)
         == Step(m, queue, now, p)
  {
    hide Sweep, Mark, View, DistinctSlots;
    ViewHolds(slots, hand, p);
    if Holds(slots, p) {
      ViewMark(slots, hand, frame);
    } else if |slots| < m {
      ViewFill(slots, Slot(p, true, now));
    } else {
      BackHolds(Sweep(queue), p);
      if Holds(queue, p) {
        StillHeld(queue, p);
      }
      ViewReplace(slots, hand, Sweep(queue), Slot(p, true, now));
    }
  }

  /** Each frame in use carries its page's address and counts the writes to it since it was loaded. */
  ghost predicate Carries(trace: seq<Access>, mem: Memory, physmem: seq<Contents>, n: nat)
    requires n <= |trace|
  {
    && |mem.loaded| == |mem.frames| <= |physmem|
    && forall f :: 0 <= f < |mem.frames| ==>
         && mem.loaded[f] <= n
         && physmem[f] == Contents(WritesTo(trace, mem.loaded[f], n, mem.frames[f]), mem.frames[f])
  }

  /** A freshly initialised frame carries its page's address and no writes. */
  lemma CarriedLoad(trace: seq<Access>, m: nat, mem: Memory, physmem: seq<Contents>, n: nat, p: Page, frame: nat)
    requires n <= |trace| && WellFormed(m, mem) && |physmem| == m && frame < m && Carries(trace, mem, physmem, n)
    requires p !in mem.frames && (|mem.frames| < m ==> frame == |mem.frames|)
    ensures Carries(trace, Reference(m, mem, n, p, frame), physmem[frame := Contents(0, p)], n)
  {
    assert WritesTo(trace, n, n, p) == 0;
  }

  /** What each policy promises of the frame it evicts at reference n. */
  ghost predicate GoodVictim(alg: Algorithm, m: nat, pages: seq<Page>, mem: Memory, n: nat, victim: nat)
    requires m > 0 && n <= |pages|
  {
    && victim < |mem.frames|
    && match alg
       case Rand(numbers) => n < |numbers| ==> victim == numbers[n] % m
       case Lru => LeastRecentFrame(pages, n, mem.frames, victim)
       case Fifo => OldestFrame(mem.loaded, victim)
       case Clock => SweptFrame(mem.frames, Queue(m, pages, n), victim)
       case Opt => FurthestFrame(pages, n, mem.frames, victim)
  }

  /** All the victims chosen so far were the policy's. */
  ghost predicate GoodVictims(alg: Algorithm, m: nat, pages: seq<Page>, victims: seq<nat>, n: nat)
    requires m > 0 && Schedule(m, victims) && n <= |victims| && n <= |pages|
  {
    forall i :: 0 <= i < n ==> GoodVictimAt(alg, m, pages, victims, i)
  }

  ghost predicate GoodVictimAt(alg: Algorithm, m: nat, pages: seq<Page>, victims: seq<nat>, i: nat)
    requires m > 0 && Schedule(m, victims) && i < |victims| && i < |pages|
  {
    Evicts(m, pages, victims, i) ==> GoodVictim(alg, m, pages, Run(m, pages, victims, i), i, victims[i])
  }

  /** One more reference, with its victim a good one, leaves the earlier victims good. */
  lemma GoodVictimsNext(alg: Algorithm, m: nat, pages: seq<Page>, victims: seq<nat>, frame: nat)
    requires m > 0 && Schedule(m, victims) && |victims| < |pages| && frame < m
    requires GoodVictims(alg, m, pages, victims, |victims|)
    requires var mem := Run(m, pages, victims, |victims|);
             pages[|victims|] !in mem.frames && |mem.frames| == m ==> GoodVictim(alg, m, pages, mem, |victims|, frame)
    ensures GoodVictims(alg, m, pages, victims + [frame], |victims| + 1)
    ensures Run(m, pages, victims + [frame], |victims| + 1)
         == Reference(m, Run(m, pages, victims, |victims|), |victims|, pages[|victims|], frame)
  {
    hide GoodVictim;
    var victims' := victims + [frame];
    forall i | 0 <= i <= |victims| ensures GoodVictimAt(alg, m, pages, victims', i) {
      assert victims'[..i] == victims[..i];
      RunPrefix(m, pages, victims, victims', i);
      assert i < |victims| ==> GoodVictimAt(alg, m, pages, victims, i);
    }
    assert victims'[..|victims|] == victims[..|victims|];
    RunPrefix(m, pages, victims, victims', |victims|);
  }

  /** Frame `frame` holds the page referenced: counting the write, if it is one, keeps the counts exact. */
  lemma CarriedNext(trace: seq<Access>, mem: Memory, physmem: seq<Contents>, n: nat, frame: nat)
    requires n < |trace| && Carries(trace, mem, physmem, n) && Distinct(mem.frames)
    requires frame < |mem.frames| && mem.frames[frame] == trace[n].vaddr
    ensures var c := physmem[frame];
            && c.vaddr == trace[n].vaddr
            && mem.loaded[frame] <= n && c.version == WritesTo(trace, mem.loaded[frame], n, trace[n].vaddr)
            && Carries(trace, mem, if Writes(trace[n].kind) then physmem[frame := c.(version := c.version + 1)] else physmem,
                       n + 1)
  {
  }

  predicate EqualButReferenced(a: Pte, b: Pte) {
    a.(referenced := false) == b.(referenced := false)
  }

  class Simulator {
    const memsize: nat
    const alg: Algorithm
    const trace: seq<Access>

    // coremap
    const inUse: array<bool>
    const pte: array<Page>
    const physmem: array<Contents>

    // page table and swap
    const pgdir: array<seq<Pte>>
    const swap: SwapFile

    // event counters
    var hitCount: int
    var missCount: int
    var refCount: int
    var evictCleanCount: int
    var evictDirtyCount: int

    // policies
    const lru: LruList.LruList
    var opt: OptPolicy.OptPolicy?
    var fifoHand: int
    var oldestPage: int

    // the run so far
    ghost var done: nat
    ghost var victims: seq<nat>
    ghost var owners: map<nat, Page>
    ghost var optNodes: set<OptLists.Vaddr>

    ghost predicate Table(mem: Memory, hole: int)
      reads inUse, pte, pgdir
    {
      Coherent(memsize, mem, inUse[..], pte[..], pgdir[..], hole)
    }

    ghost predicate Carried(mem: Memory, n: nat)
      requires n <= |trace|
      reads physmem
    {
      physmem.Length == memsize && Carries(trace, mem, physmem[..], n)
    }

    /** The objects written when pages move are not those that list the frames for LRU. */
    ghost predicate Apart()
      reads swap
    {
      var v: object, n: object, p: object, l: object := swap.swapmap.v, lru.next, lru.previous, lru;
      var s: object, t: object := swap, this;
      && pgdir != v && pgdir != n && pgdir != p && pgdir != l && inUse != v && inUse != n && inUse != p && inUse != l
      && pte != v && pte != n && pte != p && pte != l && physmem != v && physmem != n && physmem != p && physmem != l
      && v != n && v != p && v != l && s != n && s != p && s != l
      && t != n && t != p && t != l && t != v && t != s && t != pgdir && t != inUse && t != pte && t != physmem
    }

    /** None of the arrays belongs to OPT. */
    ghost predicate OptApart()
      reads `opt, `optNodes, swap
    {
      var r := OptReads();
      && this !in r && inUse !in r && pte !in r && physmem !in r && pgdir !in r && lru !in r && lru.next !in r
      && lru.previous !in r && swap !in r && swap.swapmap !in r && swap.swapmap.v !in r
    }

    /** The slots in use belong one each to the pages that have been put out of memory. */
    ghost predicate Swapped(gone: set<Page>)
      reads `owners, pgdir, swap, swap.swapmap, swap.swapmap.v
    {
      && swap.Valid() && Directory(pgdir[..]) && Apart()
      && SlotsOwned(pgdir[..], swap.swapmap.Taken(), owners, gone)
    }

    ghost predicate Counted(mem: Memory, n: nat)
      reads `hitCount, `missCount, `refCount, `evictCleanCount, `evictDirtyCount
    {
      && refCount == n && hitCount + missCount == refCount && missCount == mem.misses
      && evictCleanCount == 0 && evictDirtyCount == missCount - |mem.frames|
    }

    ghost predicate OptOwned()
      reads `opt, `optNodes, OptReads()
    {
      && opt != null && opt.trace == Addresses(trace)
      && (forall x :: x in opt.referenceString ==> x in optNodes)
      && (forall j :: 0 <= j < |opt.resident.chain| ==> opt.resident.chain[j] in optNodes)
    }

    ghost function OptReads(): set<object>
      reads `opt, `optNodes
    {
      (if opt == null then {} else {opt, opt.resident}) + optNodes
    }

    ghost predicate LruListed(frames: seq<Page>, order: seq<nat>, n: nat)
      requires memsize > 0 && n <= |trace|
      reads lru, lru.next, lru.previous
    {
      && lru.Valid() && lru.next.Length == memsize
      && ListsPages(frames, order, Order(memsize, Addresses(trace), n))
    }

    ghost predicate OptTracks(frames: seq<Page>, n: nat, hole: int)
      reads `opt, `optNodes, OptReads()
    {
      && OptOwned() && opt.Valid() && opt.position == n && opt.Tracks(frames, hole)
    }

    ghost predicate ClockHand(mem: Memory, n: nat)
      requires memsize > 0 && n <= |trace| && |mem.loaded| == |mem.frames|
      reads `oldestPage, pgdir
    {
      && -1 <= oldestPage < |mem.frames| && (|mem.frames| < memsize ==> oldestPage == -1)
      && View(Slots(mem, pgdir[..]), oldestPage) == Queue(memsize, Addresses(trace), n)
    }

    /** The policy's data after n references, none of them pending. */
    ghost predicate Policy(mem: Memory, n: nat)
      requires memsize > 0 && n <= |trace| && |mem.loaded| == |mem.frames|
      reads `fifoHand, `oldestPage, `opt, `optNodes, pgdir, lru, lru.next, lru.previous, OptReads()
    {
      match alg
      case Rand(_) => true
      case Lru => LruListed(mem.frames, lru.order, n)
      case Fifo => LoadedInTurn(memsize, mem.loaded, fifoHand, n)
      case Clock => ClockHand(mem, n)
      case Opt => OptTracks(mem.frames, n, -1)
    }

    ghost predicate State(n: nat)
      requires memsize > 0 && n <= |trace| && n <= |victims| && Schedule(memsize, victims)
      reads this, inUse, pte, pgdir, physmem, swap, swap.swapmap, swap.swapmap.v, lru, lru.next, lru.previous, OptReads()
    {
      var mem := Run(memsize, Addresses(trace), victims, n);
      var gone := EvictedPages(memsize, Addresses(trace), victims, n);
      Carried(mem, n) && Standing(mem, gone, n) && GoodVictims(alg, memsize, Addresses(trace), victims, n)
    }

    /** The part of the state that a write to a frame's contents leaves alone. */
    ghost predicate Standing(mem: Memory, gone: set<Page>, n: nat)
      requires memsize > 0 && n <= |trace| && |mem.loaded| == |mem.frames|
      reads `hitCount, `missCount, `refCount, `evictCleanCount, `evictDirtyCount, `owners,
            `fifoHand, `oldestPage, `opt, `optNodes, inUse, pte, pgdir,
            swap, swap.swapmap, swap.swapmap.v, lru, lru.next, lru.previous, OptReads()
    {
      Table(mem, NO_PAGE) && Swapped(gone) && Counted(mem, n) && Policy(mem, n) && OptApart()
    }

    /** Initialisation by main: empty memory, empty page directory, and the policy's own. */
    constructor (memsize: nat, swapsize: nat, alg: Algorithm, trace: seq<Access>)
      requires 0 < memsize < 0x10_0000
      ensures this.memsize == memsize && this.alg == alg && this.trace == trace
      ensures swap.swapmap.nbits == swapsize && Blank() && opt == null && optNodes == {} && done == 0 && victims == []
      ensures fresh(inUse) && fresh(pte) && fresh(physmem) && fresh(pgdir) && fresh(swap) && fresh(swap.swapmap.v)
      ensures fresh(lru) && fresh(lru.next) && fresh(lru.previous)
    {
      hide SwapFile.Valid, SwapBitmap.Bitmap.Valid, SwapBitmap.Bitmap.Taken, LruList.LruList.Valid;
      this.memsize := memsize;
      this.alg := alg;
      this.trace := trace;
      inUse := new bool[memsize](_ => false);
      pte := new Page[memsize](_ => 0);
      physmem := new Contents[memsize](_ => Contents(0, 0));
      pgdir := new seq<Pte>[PTRS_PER_PGDIR](_ => []);
      swap := new SwapFile(swapsize);
      lru := new LruList.LruList.Init(memsize);
      hitCount, missCount, refCount, evictCleanCount, evictDirtyCount := 0, 0, 0, 0, 0;
      fifoHand, oldestPage := -1, -1;
      done, victims, owners := 0, [], map[];
      opt := null;
      optNodes := {};
      new;
      assert Apart();
    }

    /** Nothing in use, nothing on swap, nothing counted. */
    ghost predicate Blank()
      reads `done, `victims, `owners, `hitCount, `missCount, `refCount, `evictCleanCount, `evictDirtyCount,
            `fifoHand, `oldestPage, inUse, pgdir, swap, swap.swapmap, swap.swapmap.v, lru, lru.next, lru.previous
    {
      && 0 < memsize && done == 0 && victims == [] && owners == map[]
      && inUse.Length == pte.Length == physmem.Length == memsize && pgdir.Length == PTRS_PER_PGDIR
      && (forall f :: 0 <= f < memsize ==> !inUse[f])
      && (forall i :: 0 <= i < PTRS_PER_PGDIR ==> pgdir[i] == [])
      && swap.Valid() && swap.swapmap.Taken() == {} && Apart()
      && hitCount == missCount == refCount == evictCleanCount == evictDirtyCount == 0
      && fifoHand == oldestPage == -1
      && lru.Valid() && lru.next.Length == memsize && lru.order == []
    }

    /** The policy's init function; only opt_init has more to do than reset hands and links. */
    method InitFcn()
      requires Blank() && opt == null && optNodes == {}
      modifies this`opt, this`optNodes
      ensures State(0) && fresh(OptReads())
    {
      assert memsize > 0;
      hide State, Blank;
      if alg == Opt {
        OptInit();
      }
      EmptyState();
    }

    method OptInit()
      requires memsize > 0
      modifies this`opt, this`optNodes
      ensures fresh(OptReads()) && OptOwned() && OptApart() && opt.Valid() && opt.position == 0 && opt.resident.chain == []
    {
      opt := new OptPolicy.OptPolicy(Addresses(trace), memsize);
      optNodes := set x | x in opt.referenceString;
    }

    lemma EmptyState()
      requires Blank() && OptApart()
      requires alg == Opt ==> OptOwned() && opt.Valid() && opt.position == 0 && opt.resident.chain == []
      ensures State(0)
    {
    }

    // ---------- victim selection ----------

    method RandEvict() returns (frame: nat)
      requires memsize > 0
      ensures frame < memsize
      ensures alg.Rand? && 0 <= refCount < |alg.numbers| ==> frame == alg.numbers[refCount] % memsize
    {
      var number := if alg.Rand? && 0 <= refCount < |alg.numbers| then alg.numbers[refCount] else 0;
      frame := number % memsize;
    }

    method FifoEvict(ghost mem: Memory) returns (frame: nat)
      requires memsize > 0 && done < |trace| && |mem.loaded| == memsize
      requires LoadedInTurn(memsize, mem.loaded, fifoHand, done)
      modifies this`fifoHand
      ensures frame < memsize && OldestFrame(mem.loaded, frame)
      ensures LoadedInTurn(memsize, mem.loaded[frame := done], fifoHand, done + 1)
    {
      LoadedInTurnOldest(memsize, mem.loaded, fifoHand, done);
      LoadedInTurnEvict(memsize, mem.loaded, fifoHand, done);
      fifoHand := (fifoHand + 1) % memsize;
      frame := fifoHand;
    }

    method LruEvict(ghost mem: Memory) returns (frame: nat)
      requires memsize > 0 && done < |trace| && |mem.frames| == memsize && Table(mem, NO_PAGE)
      requires LruListed(mem.frames, lru.order, done)
      modifies lru, lru.next, lru.previous
      ensures frame < memsize && LeastRecentFrame(Addresses(trace), done, mem.frames, frame)
      ensures LruListed(mem.frames, [frame] + lru.order, done) && frame !in lru.order
    {
      hide Coherent, Entry, LeastRecentFrame, ListsPages;
      HeadIsLeastRecent(mem);
      frame := lru.Evict(Entry(pgdir[..], pte[lru.head]).number);
      assert [frame] + lru.order == old(lru.order);
    }

    /** The head of the list is the least recently referenced frame, and its entry says so. */
    lemma HeadIsLeastRecent(mem: Memory)
      requires memsize > 0 && done < |trace| && |mem.frames| == memsize && Table(mem, NO_PAGE)
      requires LruListed(mem.frames, lru.order, done)
      ensures lru.order != [] && lru.head == lru.order[0] < memsize && pte.Length == memsize && Directory(pgdir[..])
      ensures PageAddress(pte[lru.head]) && Entry(pgdir[..], pte[lru.head]).number == lru.order[0]
      ensures LeastRecentFrame(Addresses(trace), done, mem.frames, lru.order[0])
      ensures lru.order[0] !in lru.order[1..] && [lru.order[0]] + lru.order[1..] == lru.order
    {
      var pages := Order(memsize, Addresses(trace), done);
      OrderSorted(memsize, Addresses(trace), done);
      ListsSame(mem.frames, lru.order, pages);
      OldestIsFirst(Addresses(trace), done, mem.frames, pages, lru.order[0]);
      assert HoldsPage(lru.order[0], mem.frames[lru.order[0]], pte[..], pgdir[..], NO_PAGE);
    }

    method OptEvict(ghost mem: Memory) returns (frame: nat)
      requires done < |trace| && mem.frames != [] && OptTracks(mem.frames, done, -1)
      modifies opt, opt.resident, optNodes
      ensures frame < |mem.frames| && FurthestFrame(Addresses(trace), done, mem.frames, frame)
      ensures OptTracks(mem.frames, done, frame)
    {
      frame := opt.Evict(mem.frames);
    }

    /** Sets the page table entry of p. */
    method Put(p: Page, e: Pte)
      requires Directory(pgdir[..]) && PageAddress(p) && |pgdir[PgdirIndex(p)]| != 0
      modifies pgdir
      ensures pgdir[..] == SetEntry(old(pgdir[..]), p, e)
    {
      var idx := PgdirIndex(p);
      pgdir[idx] := pgdir[idx][PgtblIndex(p) := e];
    }

    /** The same second-level tables are present. */
    ghost predicate TablesKept(before: seq<seq<Pte>>)
      reads pgdir
    {
      pgdir.Length == |before| && forall i :: 0 <= i < |before| ==> |pgdir[i]| == |before[i]|
    }

    /** A page table that differs at most in reference bits. */
    ghost predicate SameButReferenced(before: seq<seq<Pte>>)
      requires Directory(before)
      reads pgdir
    {
      && Directory(pgdir[..]) && TablesKept(before)
      && forall p :: PageAddress(p) ==>
           EqualButReferenced(Entry(before, p), Entry(pgdir[..], p))
    }

    /**
     clock_evict: the hand goes round until it meets a page whose reference bit is clear, clearing
     the bits it passes. `passed` pages were passed, at most one round.
     */
    method ClockEvict(ghost mem: Memory) returns (frame: nat, ghost passed: nat)
      requires memsize > 0 && |mem.frames| == memsize && Table(mem, NO_PAGE) && -1 <= oldestPage < memsize
      modifies this`oldestPage, pgdir
      ensures SameButReferenced(old(pgdir[..])) && Table(mem, NO_PAGE)
      ensures frame == oldestPage < memsize && passed <= memsize
      ensures var queue := View(Slots(mem, old(pgdir[..])), old(oldestPage));
              (forall j :: 0 <= j < passed ==> queue[j].referenced) && StoppedAt(mem, queue, passed)
    {
      hide Coherent, View, Slots, AfterPassing;
      TableSize(mem);
      SameAsItself();
      passed := 0;
      ghost var queue := View(Slots(mem, pgdir[..]), oldestPage);
      PassedNone(queue);
      var found := false;
      while !found
        invariant passed <= memsize && if found then 0 <= oldestPage < memsize else -1 <= oldestPage < memsize
        invariant SameButReferenced(old(pgdir[..])) && Table(mem, NO_PAGE)
        invariant forall j :: 0 <= j < passed ==> queue[j].referenced
        invariant !found ==> View(Slots(mem, pgdir[..]), oldestPage) == AfterPassing(queue, passed)
        invariant found ==> StoppedAt(mem, queue, passed)
        decreases !found, memsize - passed
      {
        ghost var before := pgdir[..];
        found := ClockTurn(mem, queue, passed);
        if !found {
          passed := passed + 1;
        }
        SameTwice(old(pgdir[..]), before);
      }
      frame := oldestPage;
    }

    lemma TableSize(mem: Memory)
      requires Table(mem, NO_PAGE)
      ensures inUse.Length == pte.Length == memsize && |mem.loaded| == |mem.frames| && Directory(pgdir[..])
    {
    }

    lemma PassedNone(queue: seq<Slot>)
      ensures AfterPassing(queue, 0) == queue
    {
      assert queue[..0] == [] && queue[0..] == queue;
    }

    lemma SameAsItself()
      requires Directory(pgdir[..])
      ensures SameButReferenced(pgdir[..])
    {
    }

    lemma SameTwice(before: seq<seq<Pte>>, between: seq<seq<Pte>>)
      requires Directory(before) && Directory(between) && SameButReferenced(between)
      requires |before| == |between| && forall i :: 0 <= i < |before| ==> |between[i]| == |before[i]|
      requires forall p :: PageAddress(p) ==> EqualButReferenced(Entry(before, p), Entry(between, p))
      ensures SameButReferenced(before)
    {
      forall p | PageAddress(p) ensures EqualButReferenced(Entry(before, p), Entry(pgdir[..], p)) {
        assert EqualButReferenced(Entry(before, p), Entry(between, p));
        assert EqualButReferenced(Entry(between, p), Entry(pgdir[..], p));
      }
    }

    /** The hand is at the first page of the queue that it did not pass. */
    ghost predicate StoppedAt(mem: Memory, queue: seq<Slot>, passed: nat)
      requires |mem.loaded| == |mem.frames| == |queue| && passed <= |queue| && 0 <= oldestPage < |queue|
      reads `oldestPage, pgdir
    {
      && (passed < |queue| ==> !queue[passed].referenced)
      && AfterPassing(queue, passed)[0].page == mem.frames[oldestPage]
      && View(Slots(mem, pgdir[..]), oldestPage)
         == AfterPassing(queue, passed)[1..] + [AfterPassing(queue, passed)[0]]
    }

    /** One turn of the hand. */
    method ClockTurn(ghost mem: Memory, ghost queue: seq<Slot>, ghost passed: nat) returns (found: bool)
      requires memsize > 0 && |mem.frames| == |queue| == memsize && passed <= memsize
      requires Table(mem, NO_PAGE) && -1 <= oldestPage < memsize
      requires View(Slots(mem, pgdir[..]), oldestPage) == AfterPassing(queue, passed)
      modifies this`oldestPage, pgdir
      ensures SameButReferenced(old(pgdir[..])) && Table(mem, NO_PAGE) && 0 <= oldestPage < memsize
      ensures found ==> StoppedAt(mem, queue, passed)
      ensures !found ==> passed < memsize && queue[passed].referenced
                         && View(Slots(mem, pgdir[..]), oldestPage) == AfterPassing(queue, passed + 1)
    {
      hide Coherent, SameButReferenced, View, AfterPassing, Slots;
      TableSize(mem);
      ghost var slots := Slots(mem, pgdir[..]);
      HandMeets(slots, oldestPage, queue, passed);
      oldestPage := (oldestPage + 1) % memsize;
      found := ClockLook(mem);
      if found {
        assert Slots(mem, pgdir[..]) == slots;
      }
    }

    /** Looks at the page under the hand, and takes away its reference bit if it has one. */
    method ClockLook(ghost mem: Memory) returns (found: bool)
      requires memsize > 0 && |mem.frames| == memsize && Table(mem, NO_PAGE) && 0 <= oldestPage < memsize
      modifies pgdir
      ensures SameButReferenced(old(pgdir[..])) && Table(mem, NO_PAGE)
      ensures var slots := Slots(mem, old(pgdir[..]));
              && found == !slots[oldestPage].referenced
              && Slots(mem, pgdir[..]) == slots[oldestPage := slots[oldestPage].(referenced := false)]
    {
      assert HoldsPage(oldestPage, mem.frames[oldestPage], pte[..], pgdir[..], NO_PAGE);
      var victim := pte[oldestPage];
      var e := Entry(pgdir[..], victim);
      found := !e.referenced;
      if !found {
        SlotsAfterSet(mem, pgdir[..], oldestPage, e.(referenced := false));
        Put(victim, e.(referenced := false));
      }
      forall p | PageAddress(p)
        ensures EqualButReferenced(Entry(old(pgdir[..]), p), Entry(pgdir[..], p))
      {
        if !found {
          EntryAfterSet(old(pgdir[..]), victim, e.(referenced := false), p);
        }
      }
      CoherentKept(memsize, mem, inUse[..], pte[..], old(pgdir[..]), pgdir[..], NO_PAGE);
    }

    ghost function OptObject(): set<OptPolicy.OptPolicy>
      reads this
    {
      if opt == null then {} else {opt}
    }

    ghost function OptChainObject(): set<OptLists.OptChain>
      reads this
    {
      if opt == null then {} else {opt.resident}
    }

    /** The policy's data between its eviction of frame v and the reference that follows. */
    ghost predicate Evicted(mem: Memory, v: nat)
      requires memsize > 0 && done < |trace| && |mem.loaded| == |mem.frames| == memsize && v < memsize
      reads `done, `fifoHand, `oldestPage, `opt, `optNodes, pgdir, lru, lru.next, lru.previous, OptReads()
    {
      EvictedLists(mem, v) && (alg == Clock ==> ClockStopped(mem, pgdir[..], v))
    }

    /** The part of Evicted that does not depend on the page table. */
    ghost predicate EvictedLists(mem: Memory, v: nat)
      requires memsize > 0 && done < |trace| && |mem.loaded| == |mem.frames| == memsize && v < memsize
      reads `done, `fifoHand, `opt, `optNodes, lru, lru.next, lru.previous, OptReads()
    {
      match alg
      case Rand(_) => true
      case Lru => v !in lru.order && LruListed(mem.frames, [v] + lru.order, done)
      case Fifo => LoadedInTurn(memsize, mem.loaded[v := done], fifoHand, done + 1)
      case Clock => true
      case Opt => OptTracks(mem.frames, done, v)
    }

    ghost predicate ClockStopped(mem: Memory, table: seq<seq<Pte>>, v: nat)
      requires memsize > 0 && done < |trace| && |mem.loaded| == |mem.frames| == memsize && v < memsize
      reads `done, `oldestPage
    {
      var queue := Queue(memsize, Addresses(trace), done);
      oldestPage == v && queue != [] && View(Slots(mem, table), v) == Sweep(queue)[1..] + [Sweep(queue)[0]]
    }

    /** clock_evict stops at the page that the second-chance queue puts out. */
    method ClockVictim(ghost mem: Memory) returns (frame: nat)
      requires memsize > 0 && done < |trace| && |mem.frames| == |mem.loaded| == memsize && Table(mem, NO_PAGE)
      requires ClockHand(mem, done)
      modifies this`oldestPage, pgdir
      ensures frame < memsize && SameButReferenced(old(pgdir[..])) && Table(mem, NO_PAGE)
      ensures SweptFrame(mem.frames, Queue(memsize, Addresses(trace), done), frame)
      ensures ClockStopped(mem, pgdir[..], frame)
    {
      hide Coherent, SameButReferenced, AfterPassing, View, Slots, Queue, Sweep;
      ghost var queue := View(Slots(mem, pgdir[..]), oldestPage);
      ghost var passed;
      frame, passed := ClockEvict(mem);
      SweepStops(queue, passed);
    }

    /** evict_fcn: the policy's choice among full frames. */
    method EvictFcn(ghost mem: Memory) returns (frame: nat)
      requires memsize > 0 && done < |trace| && |mem.frames| == |mem.loaded| == memsize && Table(mem, NO_PAGE)
      requires Directory(pgdir[..])
      requires Policy(mem, done) && refCount == done
      modifies this`fifoHand, this`oldestPage, pgdir, lru, lru.next, lru.previous,
               OptObject(), OptChainObject(), optNodes
      ensures frame < memsize && SameButReferenced(old(pgdir[..])) && Table(mem, NO_PAGE)
      ensures GoodVictim(alg, memsize, Addresses(trace), mem, done, frame) && Evicted(mem, frame)
    {
      hide LruListed, ClockHand, LoadedInTurn, ClockStopped, LeastRecentFrame, OldestFrame, SweptFrame,
           FurthestFrame, Coherent, Queue, SameButReferenced;
      SameAsItself();
      match alg {
        case Rand(_) =>
          frame := RandEvict();
        case Lru =>
          frame := LruEvict(mem);
        case Fifo =>
          frame := FifoEvict(mem);
        case Clock =>
          frame := ClockVictim(mem);
        case Opt =>
          frame := OptEvict(mem);
      }
    }

    // ---------- page faults ----------

    ghost predicate Current(mem: Memory)
      reads `done, `victims
    {
      && memsize > 0 && Schedule(memsize, victims) && |victims| == done <= |trace|
      && mem == Run(memsize, Addresses(trace), victims, done)
    }

    /** All frames are taken, and the policy's victim would be one page more on swap than there are slots. */
    ghost predicate OutOfSwap(mem: Memory, gone: set<Page>, victim: nat)
      requires memsize > 0 && done < |trace|
      reads `done, swap, swap.swapmap
    {
      && |mem.frames| == memsize && GoodVictim(alg, memsize, Addresses(trace), mem, done, victim)
      && |gone + {mem.frames[victim]}| > swap.swapmap.nbits
    }

    /** Owned slots stay owned by the same pages. */
    ghost predicate KeepsSlots(before: map<nat, Page>)
      reads `owners
    {
      forall s :: s in before ==> s in owners && owners[s] == before[s]
    }

    /**
     The victim's entry stops being valid; its contents go to its swap slot unless the entry says that
     the slot has them already. Fails when the page needs a slot and none is left.
     */
    method PageOutVictim(frame: nat, ghost gone: set<Page>) returns (ok: bool)
      requires frame < memsize && pte.Length == physmem.Length == memsize
      requires Swapped(gone) && PageAddress(pte[frame]) && |pgdir[PgdirIndex(pte[frame])]| != 0
      requires !Entry(pgdir[..], pte[frame]).onSwap
      modifies pgdir, swap, swap.swapmap.v, this`evictCleanCount, this`evictDirtyCount, this`owners
      ensures evictCleanCount == old(evictCleanCount) && evictDirtyCount == old(evictDirtyCount) + 1
      ensures !ok ==> |gone + {pte[frame]}| > swap.swapmap.nbits
      ensures ok ==> Swapped(gone + {pte[frame]}) && KeepsSlots(old(owners))
      ensures ok ==> swap.slots == old(swap.slots)[Entry(pgdir[..], pte[frame]).swapOff := physmem[frame]]
      ensures ok ==> var e, e' := Entry(old(pgdir[..]), pte[frame]), Entry(pgdir[..], pte[frame]);
                     && pgdir[..] == SetEntry(old(pgdir[..]), pte[frame], e')
                     && !e'.valid && e'.onSwap == e.onSwap && e'.referenced == e.referenced
      ensures TablesKept(old(pgdir[..]))
    {
      var victim := pte[frame];
      var e := Entry(pgdir[..], victim);
      if e.onSwap && !e.dirty {
        assert false;
      } else {
        if e.dirty {
          e := e.(dirty := false);
        }
        var success := WriteVictim(victim, physmem[frame], e, gone);
        evictDirtyCount := evictDirtyCount + 1;
        if success == INVALID_SWAP {
          return false;
        }
        e := e.(swapOff := success);
      }
      e := e.(valid := false);
      EntryAfterSet(pgdir[..], victim, e, victim);
      Put(victim, e);
      ok := true;
    }

    /** swap_pageout for a page of the trace: it keeps the slot it has, or is given the least free one. */
    method WriteVictim(victim: Page, data: Contents, e: Pte, ghost gone: set<Page>) returns (success: int)
      requires Swapped(gone) && PageAddress(victim) && |pgdir[PgdirIndex(victim)]| != 0
      requires e.swapOff == Entry(pgdir[..], victim).swapOff
      modifies swap, swap.swapmap.v, this`owners
      ensures success == INVALID_SWAP ==> |gone + {victim}| > swap.swapmap.nbits
      ensures pgdir[..] == old(pgdir[..])
      ensures success != INVALID_SWAP ==>
                && swap.Valid() && KeepsSlots(old(owners)) && swap.slots == old(swap.slots)[success := data]
                && SlotsOwned(SetEntry(pgdir[..], victim, e.(swapOff := success, valid := false)),
                              swap.swapmap.Taken(), owners, gone + {victim})
    {
      hide SlotsOwned;
      ghost var taken := swap.swapmap.Taken();
      OwnerIsGone(pgdir[..], taken, owners, gone, victim);
      success := swap.PageOut(data, e.swapOff);
      ghost var e' := e.(swapOff := success, valid := false);
      if success == INVALID_SWAP {
        SwapTooSmall(pgdir[..], taken, owners, gone, swap.swapmap.nbits, victim);
      } else if e.swapOff == INVALID_SWAP {
        OwnedGrown(pgdir[..], taken, owners, gone, victim, success / SIMPAGESIZE, e');
        owners := owners[success / SIMPAGESIZE := victim];
      } else {
        OffsetsKept(pgdir[..], victim, e');
        OwnedKept(pgdir[..], SetEntry(pgdir[..], victim, e'), taken, owners, gone);
        assert gone + {victim} == gone;
      }
    }

    /** The frame that a page not in memory gets, with the policy's data as the choice left them. */
    ghost predicate Chosen(mem: Memory, frame: nat)
      requires memsize > 0 && done < |trace| && WellFormed(memsize, mem) && frame < memsize
      reads `done, `fifoHand, `oldestPage, `opt, `optNodes, pgdir, lru, lru.next, lru.previous, OptReads()
    {
      if |mem.frames| < memsize then
        frame == |mem.frames| && Policy(mem, done)
      else
        GoodVictim(alg, memsize, Addresses(trace), mem, done, frame) && Evicted(mem, frame)
    }

    /** No swap offset changes when a victim is chosen. */
    method ChooseVictim(ghost mem: Memory, ghost gone: set<Page>) returns (frame: nat)
      requires Current(mem) && done < |trace| && |mem.frames| == memsize && refCount == done
      requires Table(mem, NO_PAGE) && Swapped(gone) && Policy(mem, done) && OptApart()
      modifies this`fifoHand, this`oldestPage, pgdir, lru, lru.next, lru.previous,
               OptObject(), OptChainObject(), optNodes
      ensures frame < memsize && Table(mem, NO_PAGE) && Swapped(gone) && TablesKept(old(pgdir[..])) && OptApart()
      ensures GoodVictim(alg, memsize, Addresses(trace), mem, done, frame) && Evicted(mem, frame)
    {
      frame := EvictFcn(mem);
      OwnedKept(old(pgdir[..]), pgdir[..], swap.swapmap.Taken(), owners, gone);
    }

    /** All frames are in use: page p is to take the victim's. */
    method EvictPage(p: Page, ghost mem: Memory, ghost gone: set<Page>) returns (ok: bool, frame: nat)
      requires Current(mem) && done < |trace| && |mem.frames| == memsize && physmem.Length == memsize
      requires PageAddress(p) && p !in mem.frames && refCount == done
      requires Table(mem, NO_PAGE) && Swapped(gone) && Policy(mem, done) && OptApart()
      modifies pgdir, swap, swap.swapmap.v, this`evictCleanCount, this`evictDirtyCount, this`owners,
               this`fifoHand, this`oldestPage, lru, lru.next, lru.previous,
               OptObject(), OptChainObject(), optNodes
      ensures frame < memsize
      ensures evictCleanCount == old(evictCleanCount) && evictDirtyCount == old(evictDirtyCount) + 1
      ensures !ok ==> OutOfSwap(mem, gone, frame)
      ensures ok ==> Swapped(gone + {mem.frames[frame]}) && KeepsSlots(old(owners)) && TablesKept(old(pgdir[..]))
      ensures ok ==> Chosen(mem, frame)
      ensures ok ==> Coherent(memsize, Reference(memsize, mem, done, p, frame),
                              inUse[..][frame := true], pte[..][frame := p], pgdir[..], p)
    {
      hide Evicted, GoodVictim, Coherent, SlotsOwned, Policy;
      frame := ChooseVictim(mem, gone);
      ok := PageOutChosen(p, mem, gone, frame);
    }

    /** The first frames are in use: page p is to take the next one. */
    lemma FillFrame(p: Page, mem: Memory)
      requires Current(mem) && done < |trace| && |mem.frames| < memsize
      requires PageAddress(p) && p !in mem.frames && Table(mem, NO_PAGE) && Policy(mem, done)
      ensures Chosen(mem, |mem.frames|)
      ensures Coherent(memsize, Reference(memsize, mem, done, p, |mem.frames|),
                       inUse[..][|mem.frames| := true], pte[..][|mem.frames| := p], pgdir[..], p)
    {
      hide Policy;
      CoherentFill(memsize, mem, Reference(memsize, mem, done, p, 0), inUse[..], pte[..], pgdir[..], p, done);
    }

    method Occupy(p: Page, frame: nat, ghost mem: Memory)
      requires memsize > 0 && done < |trace| && WellFormed(memsize, mem)
      requires frame < inUse.Length == pte.Length == memsize && Chosen(mem, frame) && Apart() && OptApart()
      modifies inUse, pte
      ensures inUse[..] == old(inUse[..])[frame := true] && pte[..] == old(pte[..])[frame := p]
      ensures Chosen(mem, frame)
    {
      hide Chosen;
      inUse[frame] := true;
      pte[frame] := p;
    }

    method PageOutChosen(p: Page, ghost mem: Memory, ghost gone: set<Page>, frame: nat) returns (ok: bool)
      requires PageAddress(p) && p !in mem.frames && memsize > 0 && done < |trace| && |mem.frames| == memsize && frame < memsize
      requires physmem.Length == memsize && Table(mem, NO_PAGE) && Swapped(gone) && Evicted(mem, frame) && OptApart()
      modifies pgdir, swap, swap.swapmap.v, this`evictCleanCount, this`evictDirtyCount, this`owners
      ensures evictCleanCount == old(evictCleanCount) && evictDirtyCount == old(evictDirtyCount) + 1
      ensures !ok ==> |gone + {mem.frames[frame]}| > swap.swapmap.nbits
      ensures ok ==> Swapped(gone + {mem.frames[frame]}) && KeepsSlots(old(owners)) && Evicted(mem, frame)
      ensures TablesKept(old(pgdir[..]))
      ensures ok ==> Coherent(memsize, Reference(memsize, mem, done, p, frame),
                              inUse[..][frame := true], pte[..][frame := p], pgdir[..], p)
    {
      hide Coherent, SlotsOwned, EvictedLists, View, Queue, Sweep, KeepsSlots, TablesKept, Slots;
      VictimEntry(mem, frame);
      ok := PageOutVictim(frame, gone);
      if ok {
        assert inUse[..] == old(inUse[..]) && pte[..] == old(pte[..]);
        VictimGone(mem, old(pgdir[..]), frame, Entry(pgdir[..], pte[frame]), p);
      }
    }

    /** The victim's entry is valid, so its second-level table is present. */
    lemma VictimEntry(mem: Memory, frame: nat)
      requires Table(mem, NO_PAGE) && frame < |mem.frames|
      ensures pte[frame] == mem.frames[frame] && PageAddress(pte[frame]) && |pgdir[PgdirIndex(pte[frame])]| != 0
      ensures !Entry(pgdir[..], pte[frame]).onSwap && pte.Length == memsize
    {
      assert HoldsPage(frame, mem.frames[frame], pte[..], pgdir[..], NO_PAGE);
      assert EntryOf(mem, pgdir[..], pte[frame], NO_PAGE);
    }

    /** With the victim's entry no longer valid, its frame is the hole for page p, and no slot has changed. */
    lemma VictimGone(mem: Memory, before: seq<seq<Pte>>, frame: nat, e: Pte, p: Page)
      requires PageAddress(p) && p !in mem.frames && done < |trace| && |mem.frames| == memsize && frame < memsize
      requires Coherent(memsize, mem, inUse[..], pte[..], before, NO_PAGE) && pte[frame] == mem.frames[frame]
      requires PageAddress(pte[frame]) && |before[PgdirIndex(pte[frame])]| != 0
      requires !e.valid && !e.onSwap && e.referenced == Entry(before, pte[frame]).referenced
      ensures var next := SetEntry(before, pte[frame], e);
              && Slots(mem, next) == Slots(mem, before)
              && Coherent(memsize, Reference(memsize, mem, done, p, frame),
                          inUse[..][frame := true], pte[..][frame := p], next, p)
    {
      ClockKept(mem, before, frame, e);
      CoherentEvict(memsize, mem, Reference(memsize, mem, done, p, frame), inUse[..], pte[..], before, p, done, frame, e);
    }

    /** Replacing the victim's entry by one with the same reference bit changes no slot. */
    lemma ClockKept(mem: Memory, between: seq<seq<Pte>>, frame: nat, e: Pte)
      requires Coherent(memsize, mem, inUse[..], pte[..], between, NO_PAGE) && frame < |mem.frames|
      requires |between[PgdirIndex(mem.frames[frame])]| != 0
      requires e.referenced == Entry(between, mem.frames[frame]).referenced
      ensures Slots(mem, SetEntry(between, mem.frames[frame], e)) == Slots(mem, between)
    {
      forall f | 0 <= f < |mem.frames| ensures PageAddress(mem.frames[f]) {
        assert HoldsPage(f, mem.frames[f], pte[..], between, NO_PAGE);
      }
      SlotsAfterSet(mem, between, frame, e);
    }

    /** The least free frame, or -1: frames are filled in index order. */
    method FreeFrame(ghost mem: Memory) returns (frame: int)
      requires Table(mem, NO_PAGE)
      ensures frame == if |mem.frames| < memsize then |mem.frames| else -1
    {
      frame := -1;
      var i := 0;
      while i < memsize
        invariant 0 <= i <= |mem.frames| && frame == -1
      {
        if !inUse[i] {
          frame := i;
          break;
        }
        i := i + 1;
      }
    }

    /** allocate_frame: a free frame while there is one, the policy's victim afterwards. */
    method AllocateFrame(p: Page, ghost mem: Memory, ghost gone: set<Page>) returns (ok: bool, frame: nat)
      requires Current(mem) && done < |trace| && PageAddress(p) && p !in mem.frames && OptApart() && refCount == done
      requires physmem.Length == memsize && Table(mem, NO_PAGE) && Swapped(gone) && Policy(mem, done)
      modifies inUse, pte, pgdir, swap, swap.swapmap.v, this`evictCleanCount, this`evictDirtyCount, this`owners,
               this`fifoHand, this`oldestPage, lru, lru.next, lru.previous,
               OptObject(), OptChainObject(), optNodes
      ensures !ok ==> OutOfSwap(mem, gone, frame)
      ensures frame < memsize && (|mem.frames| < memsize ==> frame == |mem.frames|)
      ensures evictCleanCount == old(evictCleanCount)
      ensures evictDirtyCount == old(evictDirtyCount) + (if |mem.frames| == memsize then 1 else 0)
      ensures ok ==> Table(Reference(memsize, mem, done, p, frame), p)
                     && Swapped(PutOut(memsize, mem, gone, p, frame)) && KeepsSlots(old(owners))
      ensures ok ==> Chosen(mem, frame) && TablesKept(old(pgdir[..]))
    {
      hide Chosen, Policy, SlotsOwned, Coherent, OutOfSwap, Reference, Run;
      TableSize(mem);
      var free := FreeFrame(mem);
      if free == -1 {
        ok, frame := EvictPage(p, mem, gone);
      } else {
        ok, frame := true, free;
        FillFrame(p, mem);
      }
      if ok {
        Occupy(p, frame, mem);
      }
    }

    // ---------- references ----------

    /** The page of reference number `done`. */
    ghost function Wanted(): Page
      requires done < |trace|
      reads `done
    {
      trace[done].vaddr
    }

    /** The policy's data once the wanted page is in `frame` and its entry marked, before ref_fcn. */
    ghost predicate Pending(mem: Memory, frame: nat)
      requires memsize > 0 && done < |trace| && WellFormed(memsize, mem) && frame < memsize
      reads `done, `fifoHand, `oldestPage, `opt, `optNodes, pgdir, lru, lru.next, lru.previous, OptReads()
    {
      && PendingLists(mem, frame)
      && (alg == Clock ==> ClockHand(Reference(memsize, mem, done, Wanted(), frame), done + 1))
    }

    /** The part of Pending that does not depend on the page table. */
    ghost predicate PendingLists(mem: Memory, frame: nat)
      requires memsize > 0 && done < |trace| && WellFormed(memsize, mem) && frame < memsize
      reads `done, `fifoHand, `opt, `optNodes, lru, lru.next, lru.previous, OptReads()
    {
      var kept := Wanted() in mem.frames || |mem.frames| < memsize;
      match alg
      case Rand(_) => true
      case Lru =>
        if kept then LruListed(mem.frames, lru.order, done)
        else frame !in lru.order && LruListed(mem.frames, [frame] + lru.order, done)
      case Fifo => LoadedInTurn(memsize, Reference(memsize, mem, done, Wanted(), frame).loaded, fifoHand, done + 1)
      case Clock => true
      case Opt => OptTracks(mem.frames, done, if kept then -1 else frame)
    }

    /** The frame of the wanted page: where it is, or where it goes. */
    ghost predicate Lands(mem: Memory, frame: nat)
      requires memsize > 0 && done < |trace| && WellFormed(memsize, mem) && frame < memsize
      reads `done, `fifoHand, `oldestPage, `opt, `optNodes, pgdir, lru, lru.next, lru.previous, OptReads()
    {
      if Wanted() in mem.frames then
        frame < |mem.frames| && mem.frames[frame] == Wanted() && Policy(mem, done)
      else
        Chosen(mem, frame)
    }

    method RefFcn(frame: nat, ghost mem: Memory)
      requires memsize > 0 && done < |trace| && WellFormed(memsize, mem) && frame < memsize
      requires Pending(mem, frame)
      requires if Wanted() in mem.frames then frame < |mem.frames| && mem.frames[frame] == Wanted()
               else |mem.frames| < memsize ==> frame == |mem.frames|
      modifies lru, lru.next, lru.previous, OptObject(), OptChainObject(), optNodes
      ensures Policy(Reference(memsize, mem, done, Wanted(), frame), done + 1)
    {
      match alg {
        case Rand(_) =>
        case Fifo =>
        case Clock =>
        case Lru =>
          LruRef(frame, mem);
        case Opt =>
          OptRef(frame, mem);
      }
    }

    method LruRef(frame: nat, ghost mem: Memory)
      requires memsize > 0 && done < |trace| && WellFormed(memsize, mem) && frame < memsize
      requires if Wanted() in mem.frames then frame < |mem.frames| && mem.frames[frame] == Wanted()
               else |mem.frames| < memsize ==> frame == |mem.frames|
      requires if Wanted() in mem.frames || |mem.frames| < memsize then LruListed(mem.frames, lru.order, done)
               else frame !in lru.order && LruListed(mem.frames, [frame] + lru.order, done)
      modifies lru, lru.next, lru.previous
      ensures LruListed(Reference(memsize, mem, done, Wanted(), frame).frames, lru.order, done + 1)
    {
      LruNext(mem, lru.order, frame);
      hide ListsPages;
      lru.Ref(frame);
    }

    /** Moving the page's frame to the end of the list is one step of the recency list. */
    lemma LruNext(mem: Memory, order: seq<nat>, frame: nat)
      requires memsize > 0 && done < |trace| && WellFormed(memsize, mem) && frame < memsize && Distinct(order)
      requires if Wanted() in mem.frames then frame < |mem.frames| && mem.frames[frame] == Wanted()
               else |mem.frames| < memsize ==> frame == |mem.frames|
      requires var pages := Order(memsize, Addresses(trace), done);
               if Wanted() in mem.frames || |mem.frames| < memsize then ListsPages(mem.frames, order, pages)
               else frame !in order && ListsPages(mem.frames, [frame] + order, pages)
      ensures ListsPages(Reference(memsize, mem, done, Wanted(), frame).frames, MoveToEnd(order, frame),
                         Order(memsize, Addresses(trace), done + 1))
    {
      var pages, p := Order(memsize, Addresses(trace), done), Wanted();
      assert Order(memsize, Addresses(trace), done + 1) == Touch(memsize, pages, p);
      if p in mem.frames {
        ListsSame(mem.frames, order, pages);
        ListsHit(mem.frames, order, pages, frame);
      } else if |mem.frames| < memsize {
        ListsSame(mem.frames, order, pages);
        ListsFill(mem.frames, order, pages, p);
      } else {
        ListsSame(mem.frames, [frame] + order, pages);
        ListsEvict(mem.frames, [frame] + order, pages, p);
        assert ([frame] + order)[1..] == order;
      }
    }

    method OptRef(frame: nat, ghost mem: Memory)
      requires memsize > 0 && done < |trace| && WellFormed(memsize, mem) && frame < memsize
      requires if Wanted() in mem.frames then frame < |mem.frames| && mem.frames[frame] == Wanted()
               else |mem.frames| < memsize ==> frame == |mem.frames|
      requires OptTracks(mem.frames, done, if Wanted() in mem.frames || |mem.frames| < memsize then -1 else frame)
      modifies OptObject(), OptChainObject(), optNodes
      ensures OptTracks(Reference(memsize, mem, done, Wanted(), frame).frames, done + 1, -1)
    {
      ghost var frames := Reference(memsize, mem, done, Wanted(), frame).frames;
      opt.Lands(mem.frames, frames, frame);
      opt.Ref(frame, frames);
    }

    /** Makes sure the second-level table of p is there; an absent table read as new entries anyway. */
    method EnsureTable(p: Page, ghost mem: Memory, ghost gone: set<Page>)
      requires Current(mem) && PageAddress(p) && Table(mem, NO_PAGE) && Swapped(gone) && Policy(mem, done)
      requires OptApart()
      modifies pgdir
      ensures Table(mem, NO_PAGE) && Swapped(gone) && Policy(mem, done) && |pgdir[PgdirIndex(p)]| != 0
    {
      var idx := PgdirIndex(p);
      if |pgdir[idx]| == 0 {
        ghost var before := pgdir[..];
        pgdir[idx] := NewTable();
        assert pgdir[..] == before[idx := NewTable()];
        forall q | PageAddress(q) ensures Entry(pgdir[..], q) == Entry(before, q) {
        }
        SameEntries(mem, gone, before);
      }
    }

    lemma SameEntries(mem: Memory, gone: set<Page>, before: seq<seq<Pte>>)
      requires memsize > 0 && done <= |trace| && Coherent(memsize, mem, inUse[..], pte[..], before, NO_PAGE)
      requires swap.Valid() && SlotsOwned(before, swap.swapmap.Taken(), owners, gone)
      requires Directory(pgdir[..]) && forall q :: PageAddress(q) ==> Entry(pgdir[..], q) == Entry(before, q)
      ensures Table(mem, NO_PAGE) && Slots(mem, pgdir[..]) == Slots(mem, before)
      ensures SlotsOwned(pgdir[..], swap.swapmap.Taken(), owners, gone)
    {
      CoherentKept(memsize, mem, inUse[..], pte[..], before, pgdir[..], NO_PAGE);
      OwnedKept(before, pgdir[..], swap.swapmap.Taken(), owners, gone);
    }

    /** init_frame: zero-fills the frame and records the address. */
    method InitFrame(frame: nat, vaddr: Page)
      requires frame < physmem.Length
      modifies physmem
      ensures physmem[..] == old(physmem[..])[frame := Contents(0, vaddr)]
    {
      physmem[frame] := Contents(0, vaddr);
    }

    /** The miss branch of find_physpage for a page that is not on swap. */
    method Fault(p: Page, ghost mem: Memory, ghost gone: set<Page>) returns (ok: bool, frame: nat)
      requires Current(mem) && done < |trace| && p == Wanted() && PageAddress(p) && p !in mem.frames && OptApart()
      requires Carried(mem, done) && Table(mem, NO_PAGE) && Swapped(gone) && Policy(mem, done)
      requires Counted(mem, done)
      modifies inUse, pte, physmem, pgdir, swap, swap.swapmap.v, this`evictCleanCount, this`evictDirtyCount,
               this`missCount, this`refCount, this`owners, this`fifoHand, this`oldestPage,
               lru, lru.next, lru.previous, OptObject(), OptChainObject(), optNodes
      ensures !ok ==> frame < memsize && OutOfSwap(mem, gone, frame)
      ensures ok ==> frame < memsize && Chosen(mem, frame) && TablesKept(old(pgdir[..]))
                     && (|mem.frames| < memsize ==> frame == |mem.frames|)
      ensures ok ==> var next := Reference(memsize, mem, done, p, frame);
                     && Table(next, p) && Carried(next, done) && Counted(next, done + 1)
                     && Swapped(PutOut(memsize, mem, gone, p, frame)) && KeepsSlots(old(owners))
    {
      hide Chosen, Policy, SlotsOwned, Coherent, Carries, Table, TablesKept, KeepsSlots;
      ok, frame := AllocateFrame(p, mem, gone);
      if ok {
        LoadFrame(p, mem, frame);
      }
    }

    /** The frame is initialised and the miss counted. */
    method LoadFrame(p: Page, ghost mem: Memory, frame: nat)
      requires memsize > 0 && done < |trace| && WellFormed(memsize, mem) && frame < memsize
      requires p !in mem.frames && (|mem.frames| < memsize ==> frame == |mem.frames|)
      requires Carried(mem, done) && refCount == done && hitCount + missCount == refCount && missCount == mem.misses
      modifies physmem, this`missCount, this`refCount
      ensures Carried(Reference(memsize, mem, done, p, frame), done)
      ensures refCount == old(refCount) + 1 && missCount == old(missCount) + 1
    {
      CarriedLoad(trace, memsize, mem, physmem[..], done, p, frame);
      InitFrame(frame, p);
      missCount := missCount + 1;
      refCount := refCount + 1;
    }

    lemma LandsPending(mem: Memory, frame: nat)
      requires memsize > 0 && done < |trace| && WellFormed(memsize, mem) && frame < memsize && Lands(mem, frame)
      ensures PendingLists(mem, frame)
    {
      hide LruListed, OptTracks;
      if alg == Fifo && (Wanted() in mem.frames || |mem.frames| < memsize) {
        LoadedInTurnNext(memsize, mem, fifoHand, done, Wanted(), frame);
      }
    }

    /** What Lands says of the CLOCK hand. */
    ghost predicate ClockLanded(mem: Memory, frame: nat)
      requires memsize > 0 && done < |trace| && WellFormed(memsize, mem) && frame < memsize
      reads `done, `oldestPage, pgdir
    {
      var queue := Queue(memsize, Addresses(trace), done);
      if Wanted() in mem.frames then
        frame < |mem.frames| && mem.frames[frame] == Wanted() && ClockHand(mem, done)
      else if |mem.frames| < memsize then
        frame == |mem.frames| && ClockHand(mem, done)
      else
        oldestPage == frame && queue != [] && View(Slots(mem, pgdir[..]), frame) == Sweep(queue)[1..] + [Sweep(queue)[0]]
    }

    lemma LandsClock(mem: Memory, frame: nat)
      requires memsize > 0 && done < |trace| && WellFormed(memsize, mem) && frame < memsize && Lands(mem, frame)
      requires alg == Clock
      ensures ClockLanded(mem, frame)
    {
      hide GoodVictim, View, Sweep, Queue;
    }

    /** Marking the wanted page's entry takes the CLOCK queue one step on. */
    lemma ClockMarked(mem: Memory, frame: nat, e: Pte)
      requires memsize > 0 && done < |trace| && WellFormed(memsize, mem) && frame < memsize
      requires ClockLanded(mem, frame) && Directory(pgdir[..]) && PageAddress(Wanted())
      requires forall f :: 0 <= f < |mem.frames| ==> PageAddress(mem.frames[f])
      requires |pgdir[PgdirIndex(Wanted())]| != 0 && e.referenced
      ensures var next := Reference(memsize, mem, done, Wanted(), frame);
              && -1 <= oldestPage < |next.frames| && (|next.frames| < memsize ==> oldestPage == -1)
              && View(Slots(next, SetEntry(pgdir[..], Wanted(), e)), oldestPage)
                 == Queue(memsize, Addresses(trace), done + 1)
    {
      hide View, Sweep, Queue, SetEntry, Step, Slots, Entry, DistinctSlots;
      var slots, queue, p := Slots(mem, pgdir[..]), Queue(memsize, Addresses(trace), done), Wanted();
      QueueNext();
      SlotsAfterReference(memsize, mem, pgdir[..], done, p, frame, e);
      HoldsSlot(mem, pgdir[..], p);
      SlotsDistinct(mem, pgdir[..]);
      ClockAfterReference(memsize, slots, oldestPage, queue, done, p, frame);
    }

    lemma QueueNext()
      requires memsize > 0 && done < |trace|
      ensures Queue(memsize, Addresses(trace), done + 1)
           == Step(memsize, Queue(memsize, Addresses(trace), done), done, Wanted())
    {
    }

    lemma HoldsSlot(mem: Memory, table: seq<seq<Pte>>, p: Page)
      requires |mem.loaded| == |mem.frames|
      ensures Holds(Slots(mem, table), p) <==> p in mem.frames
    {
      if p in mem.frames {
        var f :| 0 <= f < |mem.frames| && mem.frames[f] == p;
        assert Slots(mem, table)[f].page == p;
      }
    }

    /** Marks the entry of the wanted page valid and referenced, and dirty when it is written. */
    method MarkEntry(p: Page, e: Pte, ghost mem: Memory, ghost gone: set<Page>, frame: nat)
      requires Current(mem) && done < |trace| && p == Wanted() && PageAddress(p) && frame < memsize && Lands(mem, frame)
      requires Table(Reference(memsize, mem, done, p, frame), if p in mem.frames then NO_PAGE else p)
      requires Swapped(gone) && OptApart() && |pgdir[PgdirIndex(p)]| != 0
      requires e.valid && e.dirty && e.referenced && !e.onSwap && e.number == frame
      requires e.swapOff == Entry(pgdir[..], p).swapOff
      requires forall f :: 0 <= f < |mem.frames| ==> PageAddress(mem.frames[f])
      requires p !in mem.frames && |mem.frames| < memsize ==> frame == |mem.frames|
      modifies pgdir
      ensures Table(Reference(memsize, mem, done, p, frame), NO_PAGE)
      ensures Swapped(gone) && Pending(mem, frame)
    {
      hide Lands, PendingLists, ClockLanded, SlotsOwned, Coherent, View, Slots;
      ghost var next := Reference(memsize, mem, done, p, frame);
      LandsPending(mem, frame);
      LandsFrame(mem, frame);
      if alg == Clock {
        LandsClock(mem, frame);
        ClockMarked(mem, frame, e);
      }
      TableMarked(next, pgdir[..], e, if p in mem.frames then NO_PAGE else p);
      SwapMarked(gone, p, e);
      Put(p, e);
      assert inUse[..] == old(inUse[..]) && pte[..] == old(pte[..]);
    }

    lemma LandsFrame(mem: Memory, frame: nat)
      requires memsize > 0 && done < |trace| && WellFormed(memsize, mem) && frame < memsize && Lands(mem, frame)
      ensures var next := Reference(memsize, mem, done, Wanted(), frame);
              frame < |next.frames| && next.frames[frame] == Wanted()
    {
      hide Policy, Evicted, GoodVictim;
    }

    lemma SwapMarked(gone: set<Page>, p: Page, e: Pte)
      requires Swapped(gone) && PageAddress(p) && |pgdir[PgdirIndex(p)]| != 0
      requires e.swapOff == Entry(pgdir[..], p).swapOff
      ensures SlotsOwned(SetEntry(pgdir[..], p, e), swap.swapmap.Taken(), owners, gone)
    {
      OffsetsKept(pgdir[..], p, e);
      OwnedKept(pgdir[..], SetEntry(pgdir[..], p, e), swap.swapmap.Taken(), owners, gone);
    }

    lemma TableMarked(next: Memory, before: seq<seq<Pte>>, e: Pte, hole: int)
      requires done < |trace| && PageAddress(Wanted()) && Directory(before)
      requires Coherent(memsize, next, inUse[..], pte[..], before, hole) && hole in {NO_PAGE, Wanted()}
      requires |before[PgdirIndex(Wanted())]| != 0
      requires e.valid && e.dirty && !e.onSwap && e.number < |next.frames| && next.frames[e.number] == Wanted()
      ensures Coherent(memsize, next, inUse[..], pte[..], SetEntry(before, Wanted(), e), NO_PAGE)
    {
      if hole == Wanted() {
        CoherentClosed(memsize, next, inUse[..], pte[..], before, Wanted(), e);
      } else {
        assert HoldsPage(e.number, Wanted(), pte[..], before, hole);
        forall p | PageAddress(p) ensures SamePlace(Entry(before, p), Entry(SetEntry(before, Wanted(), e), p)) {
          EntryAfterSet(before, Wanted(), e, p);
          assert EntryOf(next, before, p, hole);
        }
        CoherentKept(memsize, next, inUse[..], pte[..], before, SetEntry(before, Wanted(), e), NO_PAGE);
      }
    }

    /** What the entry of a page says of where it is. */
    lemma EntrySays(mem: Memory, p: Page)
      requires Table(mem, NO_PAGE) && PageAddress(p)
      ensures !Entry(pgdir[..], p).onSwap && (Entry(pgdir[..], p).valid ==> Entry(pgdir[..], p).dirty)
      ensures Entry(pgdir[..], p).valid <==> p in mem.frames
      ensures Entry(pgdir[..], p).valid ==>
                Entry(pgdir[..], p).number < |mem.frames| && mem.frames[Entry(pgdir[..], p).number] == p
      ensures forall f :: 0 <= f < |mem.frames| ==> PageAddress(mem.frames[f])
    {
      assert EntryOf(mem, pgdir[..], p, NO_PAGE);
      forall f | 0 <= f < |mem.frames|
        ensures PageAddress(mem.frames[f])
        ensures mem.frames[f] == p ==> Entry(pgdir[..], p).valid && Entry(pgdir[..], p).number == f
      {
        assert HoldsPage(f, mem.frames[f], pte[..], pgdir[..], NO_PAGE);
      }
    }

    /** The hit and miss branches of find_physpage; the branch for a page on swap is never taken. */
    method Locate(vaddr: Page, ghost mem: Memory, ghost gone: set<Page>) returns (ok: bool, frame: nat, e: Pte)
      requires Current(mem) && done < |trace| && vaddr == Wanted() && PageAddress(vaddr) && OptApart()
      requires Carried(mem, done) && Table(mem, NO_PAGE) && Swapped(gone) && Policy(mem, done)
      requires Counted(mem, done) && |pgdir[PgdirIndex(vaddr)]| != 0
      modifies inUse, pte, physmem, pgdir, swap, swap.swapmap.v, this`evictCleanCount, this`evictDirtyCount,
               this`hitCount, this`missCount, this`refCount, this`owners, this`fifoHand, this`oldestPage,
               lru, lru.next, lru.previous, OptObject(), OptChainObject(), optNodes
      ensures !ok ==> frame < memsize && vaddr !in mem.frames && OutOfSwap(mem, gone, frame)
      ensures ok ==> frame < memsize && Lands(mem, frame) && OptApart()
                     && (vaddr !in mem.frames && |mem.frames| < memsize ==> frame == |mem.frames|)
      ensures ok ==> var next := Reference(memsize, mem, done, vaddr, frame);
                     && Table(next, if vaddr in mem.frames then NO_PAGE else vaddr)
                     && Carried(next, done) && Counted(next, done + 1)
                     && Swapped(PutOut(memsize, mem, gone, vaddr, frame)) && KeepsSlots(old(owners))
      ensures ok ==> |pgdir[PgdirIndex(vaddr)]| != 0 && e.number == frame && e.dirty && !e.onSwap
                     && e.swapOff == Entry(pgdir[..], vaddr).swapOff
    {
      hide Chosen, Policy, SlotsOwned, Coherent, Carries, OutOfSwap, Run;
      EntrySays(mem, vaddr);
      e := Entry(pgdir[..], vaddr);
      if !e.valid && !e.onSwap {
        ok, frame := Fault(vaddr, mem, gone);
        if ok {
          e := Pte(frame, false, true, false, false, Entry(pgdir[..], vaddr).swapOff);
        }
      } else if !e.valid && e.onSwap {
        assert false;
      } else {
        ok, frame := true, e.number;
        CountHit(mem);
      }
    }

    /** The valid branch: a hit, and nothing else changes. */
    method CountHit(ghost mem: Memory)
      requires done < |trace| && Counted(mem, done)
      modifies this`hitCount, this`refCount
      ensures Counted(mem, done + 1)
    {
      hitCount := hitCount + 1;
      refCount := refCount + 1;
    }

    /** find_physpage: the frame of the page, its entry marked valid and referenced, dirty when written. */
    method FindPhysPage(vaddr: Page, kind: char, ghost mem: Memory, ghost gone: set<Page>) returns (ok: bool, frame: nat)
      requires Current(mem) && done < |trace| && vaddr == Wanted() && PageAddress(vaddr) && OptApart()
      requires Carried(mem, done) && Table(mem, NO_PAGE) && Swapped(gone) && Policy(mem, done)
      requires Counted(mem, done)
      modifies inUse, pte, physmem, pgdir, swap, swap.swapmap.v, this`evictCleanCount, this`evictDirtyCount,
               this`hitCount, this`missCount, this`refCount, this`owners, this`fifoHand, this`oldestPage,
               lru, lru.next, lru.previous, OptObject(), OptChainObject(), optNodes
      ensures !ok ==> frame < memsize && vaddr !in mem.frames && OutOfSwap(mem, gone, frame)
      ensures ok ==> frame < memsize && OptApart() && Finds(mem, frame)
      ensures ok ==> Served(Reference(memsize, mem, done, vaddr, frame), PutOut(memsize, mem, gone, vaddr, frame))
                     && KeepsSlots(old(owners))
    {
      hide Lands, Policy, SlotsOwned, Coherent, Carries, KeepsSlots, Counted, Finds, Table, Swapped, OptApart, Served, Run;
      EntrySays(mem, vaddr);
      EnsureTable(vaddr, mem, gone);
      var e;
      ok, frame, e := Locate(vaddr, mem, gone);
      if ok {
        MarkReferenced(vaddr, kind, e, mem, PutOut(memsize, mem, gone, vaddr, frame), frame);
      }
    }

    /** The common end of find_physpage: marks the entry and calls ref_fcn. */
    method MarkReferenced(vaddr: Page, kind: char, located: Pte, ghost mem: Memory, ghost gone: set<Page>, frame: nat)
      requires Current(mem) && done < |trace| && vaddr == Wanted() && PageAddress(vaddr) && OptApart()
      requires frame < memsize && Lands(mem, frame)
      requires Table(Reference(memsize, mem, done, vaddr, frame), if vaddr in mem.frames then NO_PAGE else vaddr)
      requires Swapped(gone) && |pgdir[PgdirIndex(vaddr)]| != 0 && located.number == frame && located.dirty && !located.onSwap
      requires located.swapOff == Entry(pgdir[..], vaddr).swapOff
      requires forall f :: 0 <= f < |mem.frames| ==> PageAddress(mem.frames[f])
      requires Carried(Reference(memsize, mem, done, vaddr, frame), done)
      requires Counted(Reference(memsize, mem, done, vaddr, frame), done + 1)
      modifies pgdir, lru, lru.next, lru.previous, OptObject(), OptChainObject(), optNodes
      ensures OptApart() && Finds(mem, frame) && Served(Reference(memsize, mem, done, vaddr, frame), gone)
    {
      hide Lands, Pending, Policy, SlotsOwned, Coherent, Finds, Counted, Carries;
      var e := located.(valid := true, referenced := true);
      if Writes(kind) {
        e := e.(dirty := true);
      }
      LandsFinds(mem, frame);
      MarkEntry(vaddr, e, mem, gone, frame);
      RefFcn(frame, mem);
    }

    /** The page is in memory; only a write to it is still to be counted in its frame. */
    ghost predicate Served(next: Memory, gone: set<Page>)
      requires memsize > 0 && done < |trace| && WellFormed(memsize, next)
      reads this, inUse, pte, pgdir, physmem, swap, swap.swapmap, swap.swapmap.v, lru, lru.next, lru.previous, OptReads()
    {
      && Table(next, NO_PAGE) && Policy(next, done + 1)
      && Carried(next, done) && Counted(next, done + 1) && Swapped(gone)
    }

    /** The frame found holds the page, is the next free one, or was the policy's choice. */
    ghost predicate Finds(mem: Memory, frame: nat)
      requires memsize > 0 && done < |trace| && WellFormed(memsize, mem)
      reads `done
    {
      if Wanted() in mem.frames then frame < |mem.frames| && mem.frames[frame] == Wanted()
      else if |mem.frames| < memsize then frame == |mem.frames|
      else GoodVictim(alg, memsize, Addresses(trace), mem, done, frame)
    }

    lemma LandsFinds(mem: Memory, frame: nat)
      requires memsize > 0 && done < |trace| && WellFormed(memsize, mem) && frame < memsize && Lands(mem, frame)
      ensures Finds(mem, frame)
      ensures if Wanted() in mem.frames then frame < |mem.frames| && mem.frames[frame] == Wanted()
              else |mem.frames| < memsize ==> frame == |mem.frames|
    {
      hide Policy, Evicted, GoodVictim;
    }

    // ---------- the driver ----------

    /** Reference number `done` makes the policy put out `victim`, one page more than there are slots. */
    ghost predicate NoSlotLeft(victim: nat)
      requires memsize > 0 && done < |trace| && |victims| == done && Schedule(memsize, victims)
      reads `done, `victims, swap, swap.swapmap
    {
      && victim < memsize && Wanted() !in Run(memsize, Addresses(trace), victims, done).frames
      && OutOfSwap(Run(memsize, Addresses(trace), victims, done),
                   EvictedPages(memsize, Addresses(trace), victims, done), victim)
    }

    /** One line of the trace has been processed. */
    lemma OneMore(frame: nat, mem: Memory)
      requires Current(mem) && done < |trace| && frame < memsize && OptApart() && Finds(mem, frame)
      requires GoodVictims(alg, memsize, Addresses(trace), victims, done)
      requires var gone := EvictedPages(memsize, Addresses(trace), victims, done);
               Served(Reference(memsize, mem, done, Wanted(), frame), PutOut(memsize, mem, gone, Wanted(), frame))
      ensures GoodVictims(alg, memsize, Addresses(trace), victims + [frame], done + 1)
      ensures Run(memsize, Addresses(trace), victims + [frame], done + 1)
           == Reference(memsize, mem, done, Wanted(), frame)
      ensures var next := Reference(memsize, mem, done, Wanted(), frame);
              && frame < |next.frames| && next.frames[frame] == Wanted()
              && Carried(next, done)
              && Standing(next, EvictedPages(memsize, Addresses(trace), victims + [frame], done + 1), done + 1)
    {
      hide Policy, Coherent, Counted, Carries, GoodVictim, GoodVictims, EvictedPages, PutOut, Swapped, OptApart, Run;
      GoodVictimsNext(alg, memsize, Addresses(trace), victims, frame);
      EvictedNext(memsize, Addresses(trace), victims, frame);
    }

    /**
     access_mem: finds the page's frame, compares the address kept in it, and counts a write.
     Fails only where the program exits for want of a swap slot.
     */
    method AccessMem(kind: char, vaddr: Page) returns (ok: bool, intact: bool, version: nat, ghost victim: nat)
      requires memsize > 0 && Schedule(memsize, victims) && |victims| == done < |trace| && State(done)
      requires Access(kind, vaddr) == trace[done] && PageAddress(vaddr)
      modifies inUse, pte, physmem, pgdir, swap, swap.swapmap.v, this`evictCleanCount, this`evictDirtyCount,
               this`hitCount, this`missCount, this`refCount, this`owners, this`fifoHand, this`oldestPage,
               lru, lru.next, lru.previous, OptObject(), OptChainObject(), optNodes, this`done, this`victims
      ensures !ok ==> intact && done == old(done) && victims == old(victims) && NoSlotLeft(victim)
      ensures ok ==> intact && done == old(done) + 1 && Schedule(memsize, victims) && |victims| == done
      ensures ok ==> State(done) && KeepsSlots(old(owners)) && victims[..done - 1] == old(victims)
      ensures ok ==> version == Found(memsize, trace, victims, done - 1)
      ensures ok ==> Counts(old(physmem[..]), done - 1)
    {
      hide Policy, SlotsOwned, Coherent, Carries, Counted, GoodVictims, Finds, Served, KeepsSlots, Table, Carried, Swapped, Found;
      hide State, Counts, EvictedPages, PutOut, Run;
      StateParts();
      ghost var before := physmem[..];
      ghost var mem := Run(memsize, Addresses(trace), victims, done);
      var frame;
      ok, frame := FindPhysPage(vaddr, kind, mem, EvictedPages(memsize, Addresses(trace), victims, done));
      intact, version, victim := true, 0, frame;
      if ok {
        intact, version := CheckAndCount(kind, vaddr, frame, mem);
        CountsNext(before, mem);
      }
    }

    lemma StateParts()
      requires memsize > 0 && Schedule(memsize, victims) && |victims| == done < |trace| && State(done)
      ensures var mem, gone := Run(memsize, Addresses(trace), victims, done), EvictedPages(memsize, Addresses(trace), victims, done);
              && Current(mem) && OptApart() && Carried(mem, done) && Table(mem, NO_PAGE) && Swapped(gone) && Policy(mem, done)
              && Counted(mem, done) && GoodVictims(alg, memsize, Addresses(trace), victims, done)
              && physmem.Length == memsize && Carries(trace, mem, physmem[..], done)
    {
      hide Policy, Coherent, Carries, Counted, GoodVictims, EvictedPages, Run;
    }

    /** Reference number n has counted itself if it is a store or a modify, and no page that stays has another version. */
    ghost predicate Counts(before: seq<Contents>, n: nat)
      requires memsize > 0 && n < |victims| && n < |trace| && Schedule(memsize, victims)
      reads `victims, physmem
    {
      var mem, next := Run(memsize, Addresses(trace), victims, n), Run(memsize, Addresses(trace), victims, n + 1);
      && |before| == physmem.Length == memsize
      && forall f :: 0 <= f < |mem.frames| && next.frames[f] == mem.frames[f] ==>
           physmem[f].version == before[f].version
             + if trace[n].vaddr == mem.frames[f] && (trace[n].kind == 'S' || trace[n].kind == 'M') then 1 else 0
    }

    lemma CountsNext(before: seq<Contents>, mem: Memory)
      requires memsize > 0 && Schedule(memsize, victims) && 0 < done == |victims| <= |trace| && State(done)
      requires mem == Run(memsize, Addresses(trace), victims[..done - 1], done - 1)
      requires |before| == memsize && Carries(trace, mem, before, done - 1)
      ensures Counts(before, done - 1)
    {
      hide Carries, Standing, GoodVictims, Run, EvictedPages, WritesTo;
      RunPrefix(memsize, Addresses(trace), victims[..done - 1], victims, done - 1);
      OthersLeaveVersions(memsize, trace, victims, done - 1, before, physmem[..]);
    }

    /** The rest of access_mem, with which the reference is done. */
    method CheckAndCount(kind: char, vaddr: Page, frame: nat, ghost mem: Memory) returns (intact: bool, version: nat)
      requires Current(mem) && done < |trace| && frame < memsize && OptApart() && Finds(mem, frame)
      requires Access(kind, vaddr) == trace[done]
      requires GoodVictims(alg, memsize, Addresses(trace), victims, done)
      requires var gone := EvictedPages(memsize, Addresses(trace), victims, done);
               Served(Reference(memsize, mem, done, Wanted(), frame), PutOut(memsize, mem, gone, Wanted(), frame))
      modifies physmem, this`done, this`victims
      ensures intact && done == old(done) + 1 && victims == old(victims) + [frame] && Schedule(memsize, victims)
      ensures State(done) && version == Found(memsize, trace, victims, done - 1)
    {
      hide GoodVictims, Finds, Served, Table, Carried, Swapped, Policy, Counted, Standing, EvictedPages, PutOut, Found;
      OneMore(frame, mem);
      intact, version := CountWrite(kind, vaddr, frame, Reference(memsize, mem, done, vaddr, frame),
                           EvictedPages(memsize, Addresses(trace), victims + [frame], done + 1));
      victims := victims + [frame];
      FoundIn(memsize, trace, victims, done, Reference(memsize, mem, done, vaddr, frame), frame);
      done := done + 1;
    }

    lemma StandingApart(next: Memory, gone: set<Page>)
      requires memsize > 0 && done < |trace| && WellFormed(memsize, next) && Standing(next, gone, done + 1)
      ensures Apart() && OptApart()
    {
    }

    /** The check and the version counter of access_mem. */
    method CountWrite(kind: char, vaddr: Page, frame: nat, ghost next: Memory, ghost gone: set<Page>)
      returns (intact: bool, version: nat)
      requires done < |trace| && trace[done] == Access(kind, vaddr) && frame < memsize && Distinct(next.frames)
      requires Carried(next, done) && frame < |next.frames| && next.frames[frame] == vaddr
      requires memsize > 0 && WellFormed(memsize, next) && Standing(next, gone, done + 1)
      modifies physmem
      ensures intact && Carried(next, done + 1) && Standing(next, gone, done + 1) && OptApart()
      ensures frame < |next.loaded| && next.loaded[frame] <= done
              && version == WritesTo(trace, next.loaded[frame], done, vaddr)
    {
      hide Standing, Carries;
      StandingApart(next, gone);
      CarriedNext(trace, next, physmem[..], done, frame);
      intact, version := physmem[frame].vaddr == vaddr, physmem[frame].version;
      if Writes(kind) {
        physmem[frame] := physmem[frame].(version := physmem[frame].version + 1);
      }
    }

    /** replay_trace: one memory access a line, up to the end or to the reference that finds swap full. */
    method ReplayTrace() returns (ok: bool, intact: bool, versions: seq<nat>, ghost schedule: seq<nat>)
      requires memsize > 0 && done == 0 && victims == [] && State(0)
      requires forall i :: 0 <= i < |trace| ==> PageAddress(trace[i].vaddr)
      modifies inUse, pte, physmem, pgdir, swap, swap.swapmap.v, this`evictCleanCount, this`evictDirtyCount,
               this`hitCount, this`missCount, this`refCount, this`owners, this`fifoHand, this`oldestPage,
               lru, lru.next, lru.previous, OptObject(), OptChainObject(), optNodes, this`done, this`victims
      ensures intact && Schedule(memsize, schedule) && |schedule| <= |trace|
      ensures GoodVictims(alg, memsize, Addresses(trace), schedule, |schedule|)
      ensures ok <==> |EvictedPages(memsize, Addresses(trace), schedule, |schedule|)| <= swap.swapmap.nbits
      ensures ok ==> done == |trace| && schedule == victims && |victims| == done && State(done)
      ensures Met(memsize, trace, schedule, versions) && |versions| == if ok then |schedule| else |schedule| - 1
    {
      hide State, EvictedPages, GoodVictims, NoSlotLeft, Met, Found, Counts;
      ok, intact, versions := true, true, [];
      NoneMet();
      ghost var victim := 0;
      StateGood();
      var i := 0;
      while ok && i < |trace|
        invariant 0 <= i <= |trace| && intact && Schedule(memsize, victims) && |victims| == done == i
        invariant ok ==> State(done)
        invariant GoodVictims(alg, memsize, Addresses(trace), victims, done)
        invariant Met(memsize, trace, victims, versions) && |versions| == done
        invariant !ok ==> done < |trace| && NoSlotLeft(victim)
        decreases ok, |trace| - i
      {
        StateGood();
        var version;
        ghost var before := victims;
        ok, intact, version, victim := AccessMem(trace[i].kind, trace[i].vaddr);
        if ok {
          StateGood();
          MetNext(before, versions, version);
          versions := versions + [version];
          i := i + 1;
        }
      }
      schedule := victims;
      if ok {
        StateFits();
      } else {
        NoSlotNext(victim);
        schedule := victims + [victim];
        MetBefore(memsize, trace, victims, versions, schedule);
      }
    }

    lemma NoneMet()
      requires memsize > 0 && victims == []
      ensures Met(memsize, trace, victims, [])
    {
    }

    lemma MetNext(before: seq<nat>, versions: seq<nat>, version: nat)
      requires memsize > 0 && Schedule(memsize, victims) && 0 < |victims| == done <= |trace| && before == victims[..done - 1]
      requires Met(memsize, trace, before, versions) && |versions| == done - 1
      requires version == Found(memsize, trace, victims, done - 1)
      ensures Met(memsize, trace, victims, versions + [version])
    {
      hide Found;
      MetBefore(memsize, trace, before, versions, victims);
    }

    lemma StateGood()
      requires memsize > 0 && Schedule(memsize, victims) && |victims| == done <= |trace| && State(done)
      ensures GoodVictims(alg, memsize, Addresses(trace), victims, done)
    {
    }

    lemma StateFits()
      requires memsize > 0 && Schedule(memsize, victims) && |victims| == done <= |trace| && State(done)
      ensures |EvictedPages(memsize, Addresses(trace), victims, done)| <= swap.swapmap.nbits
    {
      SwapLargeEnough(pgdir[..], swap.swapmap.Taken(), owners,
                      EvictedPages(memsize, Addresses(trace), victims, done), swap.swapmap.nbits);
    }

    lemma NoSlotNext(victim: nat)
      requires memsize > 0 && Schedule(memsize, victims) && |victims| == done < |trace| && NoSlotLeft(victim)
      requires GoodVictims(alg, memsize, Addresses(trace), victims, done)
      ensures victim < memsize && GoodVictims(alg, memsize, Addresses(trace), victims + [victim], done + 1)
      ensures |EvictedPages(memsize, Addresses(trace), victims + [victim], done + 1)| > swap.swapmap.nbits
    {
      GoodVictimsNext(alg, memsize, Addresses(trace), victims, victim);
      EvictedNext(memsize, Addresses(trace), victims, victim);
    }

    /** What the counters and the frames say at the end of the trace. */
    lemma Counters()
      requires memsize > 0 && Schedule(memsize, victims) && |victims| == done == |trace| && State(done)
      ensures missCount == Run(memsize, Addresses(trace), victims, done).misses
      ensures refCount == done && hitCount + missCount == refCount
      ensures evictCleanCount == 0 && evictDirtyCount == if missCount <= memsize then 0 else missCount - memsize
      ensures Carries(trace, Run(memsize, Addresses(trace), victims, done), physmem[..], done)
    {
    }
  }
}
