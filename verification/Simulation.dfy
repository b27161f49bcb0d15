/**
 Whole simulations: what the counters printed at the end say about the trace, the number of frames,
 the size of the swap file and the replacement algorithm.
 */
module Simulation {
  import opened Paging
  import opened Belady
  import opened Recency
  import opened Competitive
  import opened SecondChance
  import opened PageTable
  import opened SwapFile
  import opened Simulator

  // ---------- replacement algorithms ----------

  /** A simulation's victims are those that its algorithm is named for. */
  lemma AsNamed(alg: Algorithm, m: nat, pages: seq<Page>, victims: seq<nat>, n: nat)
    requires m > 0 && Schedule(m, victims) && n <= |victims| && n <= |pages|
    requires GoodVictims(alg, m, pages, victims, n)
    ensures alg.Opt? ==> Furthest(m, pages, victims, n)
    ensures alg.Lru? ==> LeastRecent(m, pages, victims, n)
    ensures alg.Fifo? ==> LongestResident(m, pages, victims, n)
    ensures alg.Clock? ==> ClockVictims(m, pages, victims, n)
    ensures alg.Rand? ==> forall i :: 0 <= i < n && i < |alg.numbers| && Evicts(m, pages, victims, i) ==>
              victims[i] == alg.numbers[i] % m
  {
    forall i | 0 <= i < n
      ensures alg.Opt? ==> FurthestAt(m, pages, victims, i)
      ensures alg.Lru? ==> LeastRecentAt(m, pages, victims, i)
      ensures alg.Fifo? ==> LongestResidentAt(m, pages, victims, i)
      ensures alg.Clock? ==> ClockVictimAt(m, pages, victims, i)
      ensures alg.Rand? && i < |alg.numbers| && Evicts(m, pages, victims, i) ==> victims[i] == alg.numbers[i] % m
    {
      assert GoodVictimAt(alg, m, pages, victims, i);
    }
  }

  /** LRU, FIFO and CLOCK spare the pages loaded in a stretch that has no more pages than frames. */
  lemma AllSpareFresh(alg: Algorithm, m: nat, pages: seq<Page>, victims: seq<nat>, n: nat)
    requires m > 0 && Schedule(m, victims) && n <= |victims| && n <= |pages|
    requires GoodVictims(alg, m, pages, victims, n) && (alg.Lru? || alg.Fifo? || alg.Clock?)
    ensures SparesFresh(m, pages, victims, n)
  {
    AsNamed(alg, m, pages, victims, n);
    match alg {
      case Lru => LruSparesFresh(m, pages, victims, n);
      case Fifo => FifoSparesFresh(m, pages, victims, n);
      case Clock => ClockSparesFresh(m, pages, victims, n);
    }
  }

  /** No schedule of victims at all misses less often than OPT. */
  lemma OptBeatsAny(alg: Algorithm, m: nat, pages: seq<Page>, victims: seq<nat>, n: nat, other: seq<nat>)
    requires m > 0 && Schedule(m, victims) && n <= |victims| && n <= |pages| && n <= |other| && Schedule(m, other)
    requires GoodVictims(alg, m, pages, victims, n) && alg.Opt?
    ensures Run(m, pages, victims, n).misses <= Run(m, pages, other, n).misses
  {
    AsNamed(alg, m, pages, victims, n);
    Optimal(m, pages, victims, other, n);
  }

  /** Against any schedule of victims for h of the m frames. */
  lemma AgainstAny(alg: Algorithm, m: nat, pages: seq<Page>, victims: seq<nat>, n: nat, h: nat, other: seq<nat>)
    requires 0 < h <= m && Schedule(m, victims) && n <= |victims| && n <= |pages| && n <= |other| && Schedule(h, other)
    requires GoodVictims(alg, m, pages, victims, n) && (alg.Lru? || alg.Fifo? || alg.Clock?)
    ensures (m - h + 1) * Run(m, pages, victims, n).misses <= m * (Run(h, pages, other, n).misses + m - h)
  {
    AllSpareFresh(alg, m, pages, victims, n);
    AgainstLessMemory(m, h, pages, victims, other, n);
  }

  /** Two LRU simulations of the same trace: what the smaller memory holds, the larger holds too. */
  lemma LruMoreMemory(m: nat, m': nat, pages: seq<Page>, v: seq<nat>, v': seq<nat>, n: nat)
    requires 0 < m <= m' && Schedule(m, v) && Schedule(m', v') && n <= |v| && n <= |v'| && n <= |pages|
    requires GoodVictims(Lru, m, pages, v, n) && GoodVictims(Lru, m', pages, v', n)
    ensures forall p :: p in Run(m, pages, v, n).frames ==> p in Run(m', pages, v', n).frames
    ensures Run(m', pages, v', n).misses <= Run(m, pages, v, n).misses
  {
    AsNamed(Lru, m, pages, v, n);
    AsNamed(Lru, m', pages, v', n);
    Inclusion(m, m', pages, v, v', n);
    MoreMemory(m, m', pages, v, v', n);
  }

  // ---------- version counters ----------

  lemma {:induction false} WritesSplit(trace: seq<Access>, s: nat, t: nat, n: nat, p: Page)
    requires s <= t <= n <= |trace|
    ensures WritesTo(trace, s, n, p) == WritesTo(trace, s, t, p) + WritesTo(trace, t, n, p)
    decreases n
  {
    if t < n {
      WritesSplit(trace, s, t, n - 1, p);
    }
  }

  /**
   Every reference meets all earlier writes to its page if and only if no reference misses a page that has
   been written: as the code is, what an evicted page held is not read back.
   */
  lemma MeetsAllWrites(m: nat, trace: seq<Access>, victims: seq<nat>, n: nat)
    requires m > 0 && Schedule(m, victims) && n <= |victims| && n <= |trace|
    ensures (forall i :: 0 <= i < n ==> MeetsWrites(m, trace, victims, i))
       <==> forall i :: 0 <= i < n ==> !LosesWrites(m, trace, victims, i)
  {
    forall i | 0 <= i < n
      ensures MeetsWrites(m, trace, victims, i) ==> !LosesWrites(m, trace, victims, i)
    {
      if LosesWrites(m, trace, victims, i) {
        MissMeetsNone(m, trace, victims, i);
      }
    }
    if forall i :: 0 <= i < n ==> !LosesWrites(m, trace, victims, i) {
      forall i | 0 <= i < n ensures MeetsWrites(m, trace, victims, i) {
        var mem := Run(m, Addresses(trace), victims, i + 1);
        var f := IndexOf(mem.frames, trace[i].vaddr);
        LoadedByMiss(m, Addresses(trace), victims, i + 1, f);
        assert !LosesWrites(m, trace, victims, mem.loaded[f]);
        WritesSplit(trace, 0, mem.loaded[f], i, trace[i].vaddr);
      }
    }
  }

  ghost predicate MeetsWrites(m: nat, trace: seq<Access>, victims: seq<nat>, i: nat)
    requires m > 0 && Schedule(m, victims) && i < |victims| && i < |trace|
  {
    Found(m, trace, victims, i) == WritesTo(trace, 0, i, trace[i].vaddr)
  }

  /** Reference number i misses, and its page was written before. */
  ghost predicate LosesWrites(m: nat, trace: seq<Access>, victims: seq<nat>, i: nat)
    requires m > 0 && Schedule(m, victims) && i < |victims| && i < |trace|
  {
    && trace[i].vaddr !in Run(m, Addresses(trace), victims, i).frames
    && WritesTo(trace, 0, i, trace[i].vaddr) > 0
  }

  lemma MissMeetsNone(m: nat, trace: seq<Access>, victims: seq<nat>, i: nat)
    requires m > 0 && Schedule(m, victims) && i < |victims| && i < |trace|
    requires trace[i].vaddr !in Run(m, Addresses(trace), victims, i).frames
    ensures Found(m, trace, victims, i) == 0
  {
    var mem, next := Run(m, Addresses(trace), victims, i), Run(m, Addresses(trace), victims, i + 1);
    assert next == Reference(m, mem, i, trace[i].vaddr, victims[i]);
    var f := IndexOf(next.frames, trace[i].vaddr);
    assert next.loaded[f] == i;
  }

  /** One frame, a write to page 0, another page, and page 0 again: its write is gone. */
  lemma WriteIsLost()
    ensures var trace := [Access('S', 0), Access('L', 4096), Access('L', 0)];
            Found(1, trace, [0, 0, 0], 2) == 0 && WritesTo(trace, 0, 2, 0) == 1
  {
    var trace := [Access('S', 0), Access('L', 4096), Access('L', 0)];
    var pages, victims := Addresses(trace), [0, 0, 0];
    assert Run(1, pages, victims, 0) == EMPTY;
    assert Run(1, pages, victims, 1).frames == [0];
    assert Run(1, pages, victims, 2).frames == [4096];
    MissMeetsNone(1, trace, victims, 2);
    assert WritesTo(trace, 0, 0, 0) == 0 && WritesTo(trace, 0, 1, 0) == 1;
  }

  // ---------- the program ----------

  /**
   main, with its arguments parsed and the trace read: the counters it prints, and the version counter that each
   reference meets.
   */
  method Simulate(memsize: nat, swapsize: nat, alg: Algorithm, trace: seq<Access>)
    returns (ok: bool, intact: bool, hits: int, misses: int, refs: int, clean: int, dirty: int,
             physmem: seq<Contents>, versions: seq<nat>, ghost schedule: seq<nat>)
    requires 0 < memsize < 0x10_0000
    requires forall i :: 0 <= i < |trace| ==> PageAddress(trace[i].vaddr)
    // every address found in memory is the page's own
    ensures intact
    // the victims are the algorithm's, and only running out of swap slots stops the run
    ensures Schedule(memsize, schedule) && |schedule| <= |trace|
    ensures GoodVictims(alg, memsize, Addresses(trace), schedule, |schedule|)
    ensures ok <==> |EvictedPages(memsize, Addresses(trace), schedule, |schedule|)| <= swapsize
    ensures ok ==> |schedule| == |trace|
    ensures |Pages(Addresses(trace), 0, |trace|)| <= swapsize ==> ok
    // the counters
    ensures ok ==> misses == Run(memsize, Addresses(trace), schedule, |trace|).misses
    ensures ok ==> refs == |trace| && hits + misses == refs
    ensures ok ==> clean == 0 && dirty == if misses <= memsize then 0 else misses - memsize
    ensures ok ==> Carries(trace, Run(memsize, Addresses(trace), schedule, |trace|), physmem, |trace|)
    // the versions met, and when they count all earlier writes
    ensures Met(memsize, trace, schedule, versions) && |versions| == if ok then |schedule| else |schedule| - 1
    ensures forall i :: 0 <= i < |versions| ==> CountsSinceLoad(memsize, trace, schedule, i, versions[i])
    ensures (forall i :: 0 <= i < |versions| ==> versions[i] == WritesTo(trace, 0, i, trace[i].vaddr))
       <==> forall i :: 0 <= i < |versions| ==> !LosesWrites(memsize, trace, schedule, i)
    // against other choices of victims
    ensures ok && alg.Opt? ==> forall other ::
              |other| == |trace| && Schedule(memsize, other) ==>
              misses <= Run(memsize, Addresses(trace), other, |trace|).misses
    ensures ok && (alg.Lru? || alg.Fifo? || alg.Clock?) ==> forall h: nat, other ::
              0 < h <= memsize && |other| == |trace| && Schedule(h, other) ==>
              (memsize - h + 1) * misses <= memsize * (Run(h, Addresses(trace), other, |trace|).misses + memsize - h)
  {
    hide GoodVictims, Carries, EvictedPages, Pages, Run, Met, LosesWrites, WritesTo, Schedule, CountsSinceLoad;
    ok, intact, hits, misses, refs, clean, dirty, physmem, versions, schedule := Execute(memsize, swapsize, alg, trace);
    FewPages(memsize, Addresses(trace), schedule);
    AllMet(memsize, trace, schedule, versions);
    AllCount(memsize, trace, schedule, versions);
    if ok && alg.Opt? {
      LeastMisses(alg, memsize, Addresses(trace), schedule);
    }
    if ok && (alg.Lru? || alg.Fifo? || alg.Clock?) {
      WithinFactor(alg, memsize, Addresses(trace), schedule);
    }
  }

  lemma LeastMisses(alg: Algorithm, m: nat, pages: seq<Page>, schedule: seq<nat>)
    requires m > 0 && alg.Opt? && |schedule| == |pages| && Schedule(m, schedule)
    requires GoodVictims(alg, m, pages, schedule, |schedule|)
    ensures forall other :: |other| == |pages| && Schedule(m, other) ==>
              Run(m, pages, schedule, |pages|).misses <= Run(m, pages, other, |pages|).misses
  {
    hide GoodVictims;
    forall other | |other| == |pages| && Schedule(m, other)
      ensures Run(m, pages, schedule, |pages|).misses <= Run(m, pages, other, |pages|).misses
    {
      OptBeatsAny(alg, m, pages, schedule, |pages|, other);
    }
  }

  lemma WithinFactor(alg: Algorithm, m: nat, pages: seq<Page>, schedule: seq<nat>)
    requires m > 0 && (alg.Lru? || alg.Fifo? || alg.Clock?) && |schedule| == |pages| && Schedule(m, schedule)
    requires GoodVictims(alg, m, pages, schedule, |schedule|)
    ensures forall h: nat, other :: 0 < h <= m && |other| == |pages| && Schedule(h, other) ==>
              (m - h + 1) * Run(m, pages, schedule, |pages|).misses
              <= m * (Run(h, pages, other, |pages|).misses + m - h)
  {
    hide GoodVictims;
    forall h: nat, other | 0 < h <= m && |other| == |pages| && Schedule(h, other)
      ensures (m - h + 1) * Run(m, pages, schedule, |pages|).misses
           <= m * (Run(h, pages, other, |pages|).misses + m - h)
    {
      AgainstAny(alg, m, pages, schedule, |pages|, h, other);
    }
  }

  lemma AllCount(m: nat, trace: seq<Access>, schedule: seq<nat>, versions: seq<nat>)
    requires Met(m, trace, schedule, versions)
    ensures |versions| <= |schedule| && |versions| <= |trace| && m > 0 && Schedule(m, schedule)
    ensures forall i :: 0 <= i < |versions| ==> CountsSinceLoad(m, trace, schedule, i, versions[i])
  {
    hide Found, CountsSinceLoad;
    forall i | 0 <= i < |versions| ensures CountsSinceLoad(m, trace, schedule, i, versions[i]) {
      FoundCounts(m, trace, schedule, i);
    }
  }

  /** The versions met count all earlier writes exactly if no reference misses a page written before. */
  lemma AllMet(m: nat, trace: seq<Access>, schedule: seq<nat>, versions: seq<nat>)
    requires Met(m, trace, schedule, versions)
    ensures (forall i :: 0 <= i < |versions| ==> versions[i] == WritesTo(trace, 0, i, trace[i].vaddr))
       <==> forall i :: 0 <= i < |versions| ==> !LosesWrites(m, trace, schedule, i)
  {
    hide LosesWrites, Found;
    MeetsAllWrites(m, trace, schedule, |versions|);
    assert forall i :: 0 <= i < |versions| ==>
      (MeetsWrites(m, trace, schedule, i) <==> versions[i] == WritesTo(trace, 0, i, trace[i].vaddr));
  }

  lemma FewPages(m: nat, pages: seq<Page>, schedule: seq<nat>)
    requires Schedule(m, schedule) && |schedule| <= |pages|
    ensures |EvictedPages(m, pages, schedule, |schedule|)| <= |Pages(pages, 0, |pages|)|
  {
    EvictedWereReferenced(m, pages, schedule, |schedule|);
    PagesGrow(pages, 0, |schedule|, |pages|);
    SubsetSize(EvictedPages(m, pages, schedule, |schedule|), Pages(pages, 0, |pages|));
  }

  method Execute(memsize: nat, swapsize: nat, alg: Algorithm, trace: seq<Access>)
    returns (ok: bool, intact: bool, hits: int, misses: int, refs: int, clean: int, dirty: int,
             physmem: seq<Contents>, versions: seq<nat>, ghost schedule: seq<nat>)
    requires 0 < memsize < 0x10_0000
    requires forall i :: 0 <= i < |trace| ==> PageAddress(trace[i].vaddr)
    ensures intact && Schedule(memsize, schedule) && |schedule| <= |trace|
    ensures GoodVictims(alg, memsize, Addresses(trace), schedule, |schedule|)
    ensures ok <==> |EvictedPages(memsize, Addresses(trace), schedule, |schedule|)| <= swapsize
    ensures ok ==> |schedule| == |trace|
    ensures ok ==> misses == Run(memsize, Addresses(trace), schedule, |trace|).misses
    ensures ok ==> refs == |trace| && hits + misses == refs
    ensures ok ==> clean == 0 && dirty == if misses <= memsize then 0 else misses - memsize
    ensures ok ==> Carries(trace, Run(memsize, Addresses(trace), schedule, |trace|), physmem, |trace|)
    ensures Met(memsize, trace, schedule, versions) && |versions| == if ok then |schedule| else |schedule| - 1
  {
    hide Simulator.State, Simulator.Blank, GoodVictims, Carries, EvictedPages, Run, Met;
    var sim := new Simulator(memsize, swapsize, alg, trace);
    sim.InitFcn();
    ok, intact, versions, schedule := sim.ReplayTrace();
    if ok {
      sim.Counters();
    }
    hits, misses, refs, clean, dirty :=
      sim.hitCount, sim.missCount, sim.refCount, sim.evictCleanCount, sim.evictDirtyCount;
    physmem := sim.physmem[..];
  }
}
