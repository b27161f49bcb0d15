/**
 Competitiveness. A policy that never evicts a page loaded during a stretch of the trace
 while that stretch has at most m distinct pages misses at most m times in the stretch,
 and therefore at most m times as often as any other choice of victims.
 */
module Competitive {
  import opened Counting
  import opened Paging
  import opened Recency

  /** No eviction at i throws out a page loaded since s while s..i has at most m distinct pages. */
  ghost predicate SparesFresh(m: nat, trace: seq<Page>, victims: seq<nat>, n: nat)
    requires Schedule(m, victims) && n <= |victims| && n <= |trace|
  {
    forall i :: 0 <= i < n ==> SparesFreshAt(m, trace, victims, i)
  }

  ghost predicate SparesFreshAt(m: nat, trace: seq<Page>, victims: seq<nat>, i: nat)
    requires Schedule(m, victims) && i < |victims| && i < |trace|
  {
    Evicts(m, trace, victims, i) ==>
      forall s :: 0 <= s <= i ==> Spared(m, trace, Run(m, trace, victims, i).loaded, victims[i], s, i)
  }

  predicate Spared(m: nat, trace: seq<Page>, loaded: seq<nat>, victim: nat, s: nat, i: nat)
    requires s <= i < |trace| && victim < |loaded|
  {
    |Pages(trace, s, i + 1)| <= m ==> loaded[victim] < s
  }

  /** At every eviction the schedule picks the frame whose page was loaded first. */
  ghost predicate LongestResident(m: nat, trace: seq<Page>, victims: seq<nat>, n: nat)
    requires Schedule(m, victims) && n <= |victims| && n <= |trace|
  {
    forall i :: 0 <= i < n ==> LongestResidentAt(m, trace, victims, i)
  }

  predicate LongestResidentAt(m: nat, trace: seq<Page>, victims: seq<nat>, i: nat)
    requires Schedule(m, victims) && i < |victims| && i < |trace|
  {
    Evicts(m, trace, victims, i) ==> OldestFrame(Run(m, trace, victims, i).loaded, victims[i])
  }

  predicate OldestFrame(loaded: seq<nat>, victim: nat) {
    victim < |loaded| && forall f :: 0 <= f < |loaded| ==> loaded[victim] <= loaded[f]
  }

  /** If every resident page was referenced in s..i, the missing page makes the stretch too wide. */
  lemma StretchTooWide(m: nat, trace: seq<Page>, victims: seq<nat>, s: nat, i: nat)
    requires Schedule(m, victims) && s <= i < |victims| && i < |trace|
    requires Evicts(m, trace, victims, i)
    requires forall p :: p in Run(m, trace, victims, i).frames ==> p in Pages(trace, s, i)
    ensures |Pages(trace, s, i + 1)| > m
  {
    var frames := Run(m, trace, victims, i).frames;
    forall f | 0 <= f < |frames| ensures frames[f] in Pages(trace, s, i + 1) {
      assert frames[f] in Pages(trace, s, i);
    }
    assert trace[i] in Pages(trace, s, i + 1);
    TooManyPages(frames, trace[i], Pages(trace, s, i + 1));
  }

  lemma LruSparesFresh(m: nat, trace: seq<Page>, victims: seq<nat>, n: nat)
    requires Schedule(m, victims) && n <= |victims| && n <= |trace|
    requires LeastRecent(m, trace, victims, n)
    ensures SparesFresh(m, trace, victims, n)
  {
    forall i | 0 <= i < n ensures SparesFreshAt(m, trace, victims, i) {
      var mem := Run(m, trace, victims, i);
      var v := victims[i];
      assert LeastRecentAt(m, trace, victims, i);
      forall s | Evicts(m, trace, victims, i) && 0 <= s <= i ensures Spared(m, trace, mem.loaded, v, s, i) {
        if mem.loaded[v] >= s {
          ResidentWasReferenced(m, trace, victims, i, v);
          forall p | p in mem.frames ensures p in Pages(trace, s, i) {
            var f :| 0 <= f < |mem.frames| && mem.frames[f] == p;
            assert s < LastUse(trace, i, p);
            assert trace[LastUse(trace, i, p) - 1] == p;
          }
          StretchTooWide(m, trace, victims, s, i);
        }
      }
    }
  }

  lemma FifoSparesFresh(m: nat, trace: seq<Page>, victims: seq<nat>, n: nat)
    requires Schedule(m, victims) && n <= |victims| && n <= |trace|
    requires LongestResident(m, trace, victims, n)
    ensures SparesFresh(m, trace, victims, n)
  {
    forall i | 0 <= i < n ensures SparesFreshAt(m, trace, victims, i) {
      var mem := Run(m, trace, victims, i);
      assert LongestResidentAt(m, trace, victims, i);
      forall s | Evicts(m, trace, victims, i) && 0 <= s <= i ensures Spared(m, trace, mem.loaded, victims[i], s, i) {
        if mem.loaded[victims[i]] >= s {
          forall p | p in mem.frames ensures p in Pages(trace, s, i) {
            var f :| 0 <= f < |mem.frames| && mem.frames[f] == p;
            ResidentWasReferenced(m, trace, victims, i, f);
            assert trace[mem.loaded[f]] == p;
          }
          StretchTooWide(m, trace, victims, s, i);
        }
      }
    }
  }

  // ---------- conservative: at most m misses per stretch of m pages ----------

  function Fresh(loaded: seq<nat>, s: nat): (marks: seq<bool>)
    ensures |marks| == |loaded|
    ensures forall f :: 0 <= f < |loaded| ==> marks[f] == (loaded[f] >= s)
  {
    seq(|loaded|, f requires 0 <= f < |loaded| => loaded[f] >= s)
  }

  lemma PagesGrow(trace: seq<Page>, s: nat, n: nat, n': nat)
    requires s <= n <= n' <= |trace|
    ensures |Pages(trace, s, n)| <= |Pages(trace, s, n')|
  {
    SubsetSize(Pages(trace, s, n), Pages(trace, s, n'));
  }

  lemma FreshStep(m: nat, mem: Memory, now: nat, p: Page, victim: nat, s: nat)
    requires WellFormed(m, mem) && victim < m && s <= now
    requires p !in mem.frames && |mem.frames| == m ==> mem.loaded[victim] < s
    ensures Count(Fresh(Reference(m, mem, now, p, victim).loaded, s))
         == Count(Fresh(mem.loaded, s)) + Reference(m, mem, now, p, victim).misses - mem.misses
  {
    var next, marks := Reference(m, mem, now, p, victim), Fresh(mem.loaded, s);
    if p !in mem.frames {
      if |mem.frames| < m {
        assert Fresh(next.loaded, s) == marks + [true];
        CountAppend(marks, true);
      } else {
        assert Fresh(next.loaded, s) == marks[victim := true];
        CountUpdate(marks, victim, true);
      }
    }
  }

  lemma NothingFresh(m: nat, trace: seq<Page>, victims: seq<nat>, s: nat)
    requires Schedule(m, victims) && s <= |victims| && s <= |trace|
    ensures Count(Fresh(Run(m, trace, victims, s).loaded, s)) == 0
  {
    var mem := Run(m, trace, victims, s);
    forall f | 0 <= f < |mem.loaded| ensures mem.loaded[f] < s {
      ResidentWasReferenced(m, trace, victims, s, f);
    }
    CountNone(Fresh(mem.loaded, s));
  }

  /** Every miss of the stretch leaves one more frame with a page loaded in the stretch. */
  lemma {:induction false} FreshPerMiss(m: nat, trace: seq<Page>, victims: seq<nat>, s: nat, n: nat)
    requires Schedule(m, victims) && s <= n <= |victims| && n <= |trace|
    requires SparesFresh(m, trace, victims, n) && |Pages(trace, s, n)| <= m
    ensures Run(m, trace, victims, n).misses - Run(m, trace, victims, s).misses
         == Count(Fresh(Run(m, trace, victims, n).loaded, s))
    decreases n - s
  {
    if s == n {
      NothingFresh(m, trace, victims, s);
    } else {
      var i := n - 1;
      var mem := Run(m, trace, victims, i);
      assert Run(m, trace, victims, n) == Reference(m, mem, i, trace[i], victims[i]);
      PagesGrow(trace, s, i, n);
      FreshPerMiss(m, trace, victims, s, i);
      assert SparesFreshAt(m, trace, victims, i);
      assert Evicts(m, trace, victims, i) ==> Spared(m, trace, mem.loaded, victims[i], s, i);
      FreshStep(m, mem, i, trace[i], victims[i], s);
    }
  }

  /** In any stretch with at most m distinct pages the policy misses at most m times. */
  lemma Conservative(m: nat, trace: seq<Page>, victims: seq<nat>, s: nat, n: nat)
    requires Schedule(m, victims) && s <= n <= |victims| && n <= |trace|
    requires SparesFresh(m, trace, victims, n) && |Pages(trace, s, n)| <= m
    ensures Run(m, trace, victims, n).misses <= Run(m, trace, victims, s).misses + m
  {
    FreshPerMiss(m, trace, victims, s, n);
  }

  // ---------- any schedule misses in a wide stretch ----------

  lemma NoPages(trace: seq<Page>, s: nat)
    requires s <= |trace|
    ensures Pages(trace, s, s) == {}
  {
  }

  /** Every page of the stretch is resident at its start or costs a miss in it. */
  lemma {:induction false} PagesCostMisses(h: nat, trace: seq<Page>, victims: seq<nat>, s: nat, n: nat)
    requires Schedule(h, victims) && s <= n <= |victims| && n <= |trace|
    ensures |FrameSet(Run(h, trace, victims, s).frames) + Pages(trace, s, n) + FrameSet(Run(h, trace, victims, n).frames)|
         <= |Run(h, trace, victims, s).frames| + Run(h, trace, victims, n).misses - Run(h, trace, victims, s).misses
    decreases n - s
  {
    hide Run, Pages;
    var start := FrameSet(Run(h, trace, victims, s).frames);
    if s == n {
      NoPages(trace, s);
      assert start + Pages(trace, s, n) + start == start;
      FrameSetSize(Run(h, trace, victims, s).frames);
    } else {
      PagesCostMisses(h, trace, victims, s, n - 1);
      PagesCostMiss(h, trace, victims, start, s, n - 1);
    }
  }

  lemma PagesCostMiss(h: nat, trace: seq<Page>, victims: seq<nat>, start: set<Page>, s: nat, i: nat)
    requires Schedule(h, victims) && s <= i < |victims| && i < |trace|
    ensures |start + Pages(trace, s, i + 1) + FrameSet(Run(h, trace, victims, i + 1).frames)|
         <= |start + Pages(trace, s, i) + FrameSet(Run(h, trace, victims, i).frames)|
            + Run(h, trace, victims, i + 1).misses - Run(h, trace, victims, i).misses
  {
    var mem, next := Run(h, trace, victims, i), Run(h, trace, victims, i + 1);
    assert next == Reference(h, mem, i, trace[i], victims[i]);
    HeldGrows(start + Pages(trace, s, i), mem, next, trace[i]);
    assert start + Pages(trace, s, i + 1) == start + Pages(trace, s, i) + {trace[i]};
  }

  /** A reference to p adds p, if anything, to the pages seen or held, and only when it misses. */
  lemma HeldGrows(seen: set<Page>, mem: Memory, next: Memory, p: Page)
    requires forall q :: q in next.frames ==> q in mem.frames || q == p
    requires next.misses == mem.misses + (if p in mem.frames then 0 else 1)
    ensures |seen + {p} + FrameSet(next.frames)| <= |seen + FrameSet(mem.frames)| + next.misses - mem.misses
  {
    var all := seen + FrameSet(mem.frames);
    assert seen + {p} + FrameSet(next.frames) <= all + {p};
    SubsetSize(seen + {p} + FrameSet(next.frames), all + {p});
    assert p in all ==> all + {p} == all;
  }

  lemma JustHeld(h: nat, trace: seq<Page>, victims: seq<nat>, s: nat)
    requires Schedule(h, victims) && s < |victims| && s < |trace|
    ensures trace[s] in FrameSet(Run(h, trace, victims, s + 1).frames)
  {
  }

  /** After reference s, h frames cannot serve a stretch of more than h distinct pages without a miss for each extra page. */
  lemma WideStretchMisses(h: nat, trace: seq<Page>, victims: seq<nat>, s: nat, n: nat)
    requires Schedule(h, victims) && s < n <= |victims| && n <= |trace|
    ensures |Pages(trace, s, n)| <= h + Run(h, trace, victims, n).misses - Run(h, trace, victims, s + 1).misses
  {
    hide Run;
    var t := s + 1;
    PagesCostMisses(h, trace, victims, t, n);
    var held := FrameSet(Run(h, trace, victims, t).frames);
    JustHeld(h, trace, victims, s);
    var all := held + Pages(trace, t, n) + FrameSet(Run(h, trace, victims, n).frames);
    assert Pages(trace, s, n) <= all;
    SubsetSize(Pages(trace, s, n), all);
  }

  // ---------- phases ----------

  lemma FirstMiss(h: nat, trace: seq<Page>, any: seq<nat>)
    requires 0 < h && Schedule(h, any) && 0 < |any| && 0 < |trace|
    ensures Run(h, trace, any, 1).misses == 1
  {
    assert Run(h, trace, any, 0) == EMPTY;
  }

  lemma NoMisses(m: nat, trace: seq<Page>, alg: seq<nat>)
    requires Schedule(m, alg)
    ensures Run(m, trace, alg, 0).misses == 0
  {
  }

  lemma OnePage(trace: seq<Page>, s: nat)
    requires s < |trace|
    ensures |Pages(trace, s, s + 1)| == 1
  {
    assert Pages(trace, s, s + 1) == {trace[s]};
  }

  /**
   Cutting the trace into phases of at most m distinct pages. The other run has h <= m frames; when the
   current phase began at s, each of its misses up to s but the first had paid for m / (m - h + 1) misses.
   */
  lemma {:induction false} PhaseStart(m: nat, h: nat, trace: seq<Page>, alg: seq<nat>, any: seq<nat>, n: nat)
    returns (s: nat)
    requires 0 < h <= m && Schedule(m, alg) && Schedule(h, any)
    requires 0 < n <= |alg| && n <= |any| && n <= |trace|
    requires SparesFresh(m, trace, alg, n)
    ensures s < n && |Pages(trace, s, n)| <= m
    ensures (m - h + 1) * Run(m, trace, alg, s).misses <= m * (Run(h, trace, any, s + 1).misses - 1)
  {
    hide Run, Pages;
    if n == 1 {
      s := 0;
      OnePage(trace, 0);
      FirstMiss(h, trace, any);
      NoMisses(m, trace, alg);
    } else {
      s := PhaseStart(m, h, trace, alg, any, n - 1);
      if |Pages(trace, s, n)| > m {
        NextPhase(m, h, trace, alg, any, s, n - 1);
        s := n - 1;
        OnePage(trace, s);
      }
    }
  }

  lemma NextPhase(m: nat, h: nat, trace: seq<Page>, alg: seq<nat>, any: seq<nat>, s: nat, n: nat)
    requires 0 < h <= m && Schedule(m, alg) && Schedule(h, any)
    requires s < n < |alg| && n < |any| && n < |trace|
    requires SparesFresh(m, trace, alg, n) && |Pages(trace, s, n)| <= m < |Pages(trace, s, n + 1)|
    requires (m - h + 1) * Run(m, trace, alg, s).misses <= m * (Run(h, trace, any, s + 1).misses - 1)
    ensures (m - h + 1) * Run(m, trace, alg, n).misses <= m * (Run(h, trace, any, n + 1).misses - 1)
  {
    hide Run, Pages;
    var a, a' := Run(m, trace, alg, s).misses, Run(m, trace, alg, n).misses;
    var o, o' := Run(h, trace, any, s + 1).misses, Run(h, trace, any, n + 1).misses;
    assert a' <= a + m by { Conservative(m, trace, alg, s, n); }
    assert o' >= o + (m - h + 1) by { WideStretchMisses(h, trace, any, s, n + 1); }
    PhaseCost(m, m - h + 1, a, a', o, o');
  }

  /** A phase adds at most m misses to one run and at least c to the other. */
  lemma PhaseCost(m: nat, c: nat, a: nat, a': nat, o: nat, o': nat)
    requires c * a <= m * (o - 1) && a' <= a + m && o' >= o + c
    ensures c * a' <= m * (o' - 1)
  {
    assert c * a' <= c * (a + m) == c * a + c * m;
    assert m * (o - 1) + m * c == m * (o + c - 1) <= m * (o' - 1);
  }

  lemma LastPhase(m: nat, h: nat, trace: seq<Page>, alg: seq<nat>, any: seq<nat>, s: nat, n: nat)
    requires 0 < h <= m && Schedule(m, alg) && Schedule(h, any)
    requires s < n <= |alg| && n <= |any| && n <= |trace|
    requires SparesFresh(m, trace, alg, n) && |Pages(trace, s, n)| <= m
    requires (m - h + 1) * Run(m, trace, alg, s).misses <= m * (Run(h, trace, any, s + 1).misses - 1)
    ensures (m - h + 1) * Run(m, trace, alg, n).misses <= m * (Run(h, trace, any, n).misses + m - h)
  {
    hide Run, Pages;
    var a, a' := Run(m, trace, alg, s).misses, Run(m, trace, alg, n).misses;
    var o, o' := Run(h, trace, any, s + 1).misses, Run(h, trace, any, n).misses;
    assert a' <= a + m by { Conservative(m, trace, alg, s, n); }
    assert o <= o' by { MissesMonotone(h, trace, any, s + 1, n); }
    PhaseCost(m, m - h + 1, a, a', o, o' + (m - h + 1));
  }

  /**
   The policy with m frames against any schedule with h <= m frames, both from empty memory:
   its misses are at most m / (m - h + 1) times theirs, up to one phase.
   */
  lemma AgainstLessMemory(m: nat, h: nat, trace: seq<Page>, alg: seq<nat>, any: seq<nat>, n: nat)
    requires 0 < h <= m && Schedule(m, alg) && Schedule(h, any)
    requires n <= |alg| && n <= |any| && n <= |trace|
    requires SparesFresh(m, trace, alg, n)
    ensures (m - h + 1) * Run(m, trace, alg, n).misses <= m * (Run(h, trace, any, n).misses + m - h)
  {
    if n > 0 {
      var s := PhaseStart(m, h, trace, alg, any, n);
      LastPhase(m, h, trace, alg, any, s, n);
    }
  }

  /** With equal memory the policy misses at most m times as often as any other schedule. */
  lemma AtMostMTimes(m: nat, trace: seq<Page>, alg: seq<nat>, any: seq<nat>, n: nat)
    requires m > 0 && Schedule(m, alg) && Schedule(m, any)
    requires n <= |alg| && n <= |any| && n <= |trace|
    requires SparesFresh(m, trace, alg, n)
    ensures Run(m, trace, alg, n).misses <= m * Run(m, trace, any, n).misses
  {
    AgainstLessMemory(m, m, trace, alg, any, n);
  }
}
