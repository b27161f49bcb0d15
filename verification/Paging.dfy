/**
 Demand paging seen from outside: which page each frame holds, when it was loaded
 and how many references missed. A replacement policy only decides the victim frame
 of each reference, so a run is fixed by the trace and a schedule of victims.
 */
module Paging {

  type Page = nat

  /** Frames 0..|frames| are in use; frame f holds frames[f], loaded by reference number loaded[f]. */
  datatype Memory = Memory(frames: seq<Page>, loaded: seq<nat>, misses: nat)

  const EMPTY := Memory([], [], 0)

  predicate WellFormed(m: nat, mem: Memory) {
    && |mem.loaded| == |mem.frames|
    && |mem.frames| == (if mem.misses < m then mem.misses else m)
    && forall f, g :: 0 <= f < g < |mem.frames| ==> mem.frames[f] != mem.frames[g]
  }

  /** The effect of reference number `now` to page p when `victim` is what the policy would evict. */
  function Reference(m: nat, mem: Memory, now: nat, p: Page, victim: nat): (next: Memory)
    requires WellFormed(m, mem) && victim < m
    ensures WellFormed(m, next) && p in next.frames
  {
    if p in mem.frames then
      mem
    else if |mem.frames| < m then
      Memory(mem.frames + [p], mem.loaded + [now], mem.misses + 1)
    else
      assert mem.frames[victim := p][victim] == p;
      Memory(mem.frames[victim := p], mem.loaded[victim := now], mem.misses + 1)
  }

  /** A schedule names one victim frame per reference; it is used only when that reference evicts. */
  predicate Schedule(m: nat, victims: seq<nat>) {
    forall i :: 0 <= i < |victims| ==> victims[i] < m
  }

  /** Memory after the first n references of the trace, starting from empty memory. */
  function Run(m: nat, trace: seq<Page>, victims: seq<nat>, n: nat): (mem: Memory)
    requires Schedule(m, victims) && n <= |victims| && n <= |trace|
    ensures WellFormed(m, mem)
  {
    if n == 0 then EMPTY
    else Reference(m, Run(m, trace, victims, n - 1), n - 1, trace[n - 1], victims[n - 1])
  }

  /** Reference number i of the run finds its page missing and every frame taken. */
  predicate Evicts(m: nat, trace: seq<Page>, victims: seq<nat>, i: nat)
    requires Schedule(m, victims) && i < |victims| && i < |trace|
  {
    var mem := Run(m, trace, victims, i);
    trace[i] !in mem.frames && |mem.frames| == m
  }

  /** The pages that the first n references put out of memory. */
  function EvictedPages(m: nat, trace: seq<Page>, victims: seq<nat>, n: nat): set<Page>
    requires Schedule(m, victims) && n <= |victims| && n <= |trace|
  {
    if n == 0 then {}
    else PutOut(m, Run(m, trace, victims, n - 1), EvictedPages(m, trace, victims, n - 1), trace[n - 1], victims[n - 1])
  }

  /** The pages put out so far, once p has been referenced. */
  function PutOut(m: nat, mem: Memory, gone: set<Page>, p: Page, victim: nat): set<Page>
    requires WellFormed(m, mem) && victim < m
  {
    if p !in mem.frames && |mem.frames| == m then gone + {mem.frames[victim]} else gone
  }

  /** Later victims do not influence earlier memory. */
  lemma {:induction false} RunPrefix(m: nat, trace: seq<Page>, v: seq<nat>, w: seq<nat>, n: nat)
    requires Schedule(m, v) && Schedule(m, w)
    requires n <= |v| && n <= |w| && n <= |trace| && v[..n] == w[..n]
    ensures Run(m, trace, v, n) == Run(m, trace, w, n)
  {
    if n > 0 {
      assert v[..n - 1] == v[..n][..n - 1] == w[..n][..n - 1] == w[..n - 1];
      assert v[n - 1] == v[..n][n - 1] == w[..n][n - 1] == w[n - 1];
      RunPrefix(m, trace, v, w, n - 1);
    }
  }

  lemma {:induction false} EvictedPrefix(m: nat, trace: seq<Page>, v: seq<nat>, w: seq<nat>, n: nat)
    requires Schedule(m, v) && Schedule(m, w)
    requires n <= |v| && n <= |w| && n <= |trace| && v[..n] == w[..n]
    ensures EvictedPages(m, trace, v, n) == EvictedPages(m, trace, w, n)
  {
    if n > 0 {
      assert v[..n - 1] == v[..n][..n - 1] == w[..n][..n - 1] == w[..n - 1];
      assert v[n - 1] == v[..n][n - 1] == w[..n][n - 1] == w[n - 1];
      RunPrefix(m, trace, v, w, n - 1);
      EvictedPrefix(m, trace, v, w, n - 1);
    }
  }

  lemma EvictedNext(m: nat, trace: seq<Page>, victims: seq<nat>, victim: nat)
    requires Schedule(m, victims) && |victims| < |trace| && victim < m
    ensures EvictedPages(m, trace, victims + [victim], |victims| + 1)
         == PutOut(m, Run(m, trace, victims, |victims|), EvictedPages(m, trace, victims, |victims|),
                   trace[|victims|], victim)
  {
    assert (victims + [victim])[..|victims|] == victims[..|victims|];
    RunPrefix(m, trace, victims, victims + [victim], |victims|);
    EvictedPrefix(m, trace, victims, victims + [victim], |victims|);
  }

  /** Only pages of the trace are put out of memory. */
  lemma {:induction false} EvictedWereReferenced(m: nat, trace: seq<Page>, victims: seq<nat>, n: nat)
    requires Schedule(m, victims) && n <= |victims| && n <= |trace|
    ensures EvictedPages(m, trace, victims, n) <= Pages(trace, 0, n)
  {
    if n > 0 {
      EvictedWereReferenced(m, trace, victims, n - 1);
      var mem := Run(m, trace, victims, n - 1);
      if trace[n - 1] !in mem.frames && |mem.frames| == m {
        ResidentWasReferenced(m, trace, victims, n - 1, victims[n - 1]);
        assert mem.frames[victims[n - 1]] in Pages(trace, 0, n - 1);
      }
      assert Pages(trace, 0, n - 1) <= Pages(trace, 0, n);
    }
  }

  /** Later references put out no fewer pages. */
  lemma {:induction false} EvictedGrow(m: nat, trace: seq<Page>, victims: seq<nat>, s: nat, n: nat)
    requires Schedule(m, victims) && s <= n <= |victims| && n <= |trace|
    ensures EvictedPages(m, trace, victims, s) <= EvictedPages(m, trace, victims, n)
    decreases n - s
  {
    if s < n {
      EvictedGrow(m, trace, victims, s, n - 1);
    }
  }

  /** A page is resident only if an earlier reference asked for it, and not before it was loaded. */
  lemma {:induction false} ResidentWasReferenced(m: nat, trace: seq<Page>, victims: seq<nat>, n: nat, f: nat)
    requires Schedule(m, victims) && n <= |victims| && n <= |trace|
    requires f < |Run(m, trace, victims, n).frames|
    ensures Run(m, trace, victims, n).loaded[f] < n
    ensures trace[Run(m, trace, victims, n).loaded[f]] == Run(m, trace, victims, n).frames[f]
  {
    var before := Run(m, trace, victims, n - 1);
    if f < |before.frames| {
      ResidentWasReferenced(m, trace, victims, n - 1, f);
    }
  }

  /** The reference that loaded a resident page found it missing. */
  lemma {:induction false} LoadedByMiss(m: nat, trace: seq<Page>, victims: seq<nat>, n: nat, f: nat)
    requires Schedule(m, victims) && n <= |victims| && n <= |trace|
    requires f < |Run(m, trace, victims, n).frames|
    ensures Run(m, trace, victims, n).loaded[f] < n
    ensures var l := Run(m, trace, victims, n).loaded[f];
            trace[l] == Run(m, trace, victims, n).frames[f] && trace[l] !in Run(m, trace, victims, l).frames
  {
    ResidentWasReferenced(m, trace, victims, n, f);
    var before, mem := Run(m, trace, victims, n - 1), Run(m, trace, victims, n);
    if f < |before.frames| && before.loaded[f] == mem.loaded[f] {
      ResidentWasReferenced(m, trace, victims, n - 1, f);
      LoadedByMiss(m, trace, victims, n - 1, f);
    }
  }

  /** A page found in a frame has been there since it was loaded. */
  lemma {:induction false} ResidentSince(m: nat, trace: seq<Page>, victims: seq<nat>, n: nat, f: nat, j: nat)
    requires Schedule(m, victims) && n <= |victims| && n <= |trace|
    requires f < |Run(m, trace, victims, n).frames| && Run(m, trace, victims, n).loaded[f] < j <= n
    ensures f < |Run(m, trace, victims, j).frames|
    ensures Run(m, trace, victims, j).frames[f] == Run(m, trace, victims, n).frames[f]
    decreases n
  {
    if j < n {
      ResidentWasReferenced(m, trace, victims, n, f);
      ResidentSince(m, trace, victims, n - 1, f, j);
    }
  }

  /** The count rises by one exactly at a reference whose page is not resident. */
  lemma MissStep(m: nat, trace: seq<Page>, victims: seq<nat>, i: nat)
    requires Schedule(m, victims) && i < |victims| && i < |trace|
    ensures Run(m, trace, victims, i + 1).misses
         == Run(m, trace, victims, i).misses
            + (if trace[i] in Run(m, trace, victims, i).frames then 0 else 1)
  {
  }

  lemma {:induction false} MissesMonotone(m: nat, trace: seq<Page>, victims: seq<nat>, s: nat, n: nat)
    requires Schedule(m, victims) && s <= n <= |victims| && n <= |trace|
    ensures Run(m, trace, victims, s).misses <= Run(m, trace, victims, n).misses
    decreases n - s
  {
    if s < n {
      MissesMonotone(m, trace, victims, s, n - 1);
    }
  }

  // ---------- next and last use of a page ----------

  /** The first reference to p at position i or later, or |trace| when there is none. */
  function NextUse(trace: seq<Page>, i: nat, p: Page): (next: nat)
    requires i <= |trace|
    ensures i <= next <= |trace|
    ensures next < |trace| ==> trace[next] == p
    ensures forall j :: i <= j < next ==> trace[j] != p
    decreases |trace| - i
  {
    if i == |trace| || trace[i] == p then i else NextUse(trace, i + 1, p)
  }

  /** One more than the last reference to p before position n, or 0 when there is none. */
  function LastUse(trace: seq<Page>, n: nat, p: Page): (last: nat)
    requires n <= |trace|
    ensures last <= n
    ensures last > 0 ==> trace[last - 1] == p
    ensures forall j :: last <= j < n ==> trace[j] != p
  {
    if n == 0 || trace[n - 1] == p then n else LastUse(trace, n - 1, p)
  }

  /** The pages referenced at positions s..n. */
  function Pages(trace: seq<Page>, s: nat, n: nat): set<Page>
    requires s <= n <= |trace|
  {
    set j | s <= j < n :: trace[j]
  }

  /** Any m distinct resident pages together with a page outside memory are m + 1 pages. */
  lemma TooManyPages(frames: seq<Page>, p: Page, pages: set<Page>)
    requires forall f, g :: 0 <= f < g < |frames| ==> frames[f] != frames[g]
    requires p !in frames && p in pages
    requires forall f :: 0 <= f < |frames| ==> frames[f] in pages
    ensures |pages| >= |frames| + 1
  {
    var held := FrameSet(frames);
    FrameSetSize(frames);
    assert held + {p} <= pages;
    SubsetSize(held + {p}, pages);
  }

  function FrameSet(frames: seq<Page>): set<Page> {
    set p | p in frames
  }

  /** The set of pages held is as large as the number of frames holding them. */
  lemma {:induction false} FrameSetSize(frames: seq<Page>)
    requires forall f, g :: 0 <= f < g < |frames| ==> frames[f] != frames[g]
    ensures |FrameSet(frames)| == |frames|
  {
    if frames != [] {
      var rest, last := frames[..|frames| - 1], frames[|frames| - 1];
      FrameSetSize(rest);
      assert frames == rest + [last];
      assert FrameSet(frames) == FrameSet(rest) + {last};
    }
  }

  lemma {:induction false} SubsetSize(a: set<Page>, b: set<Page>)
    requires a <= b
    ensures |a| <= |b|
  {
    if a != {} {
      var x :| x in a;
      SubsetSize(a - {x}, b - {x});
    }
  }
}
