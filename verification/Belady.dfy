/**
 Belady's theorem for the demand-paging simulator: a run that always evicts a page whose
 next use is furthest in the future misses no more often than any other run.
 */
module Belady {
  import opened Counting
  import opened Paging

  /** At every eviction the schedule picks a frame whose page is used again last, or never. */
  ghost predicate Furthest(m: nat, trace: seq<Page>, victims: seq<nat>, n: nat)
    requires Schedule(m, victims) && n <= |victims| && n <= |trace|
  {
    forall i :: 0 <= i < n ==> FurthestAt(m, trace, victims, i)
  }

  predicate FurthestAt(m: nat, trace: seq<Page>, victims: seq<nat>, i: nat)
    requires Schedule(m, victims) && i < |victims| && i < |trace|
  {
    Evicts(m, trace, victims, i) ==>
      FurthestFrame(trace, i, Run(m, trace, victims, i).frames, victims[i])
  }

  predicate FurthestFrame(trace: seq<Page>, i: nat, frames: seq<Page>, victim: nat)
    requires i <= |trace|
  {
    victim < |frames| &&
    forall f :: 0 <= f < |frames| ==> NextUse(trace, i, frames[f]) <= NextUse(trace, i, frames[victim])
  }

  /** Which frames hold a page that is used again at position x or earlier. */
  function Due(trace: seq<Page>, i: nat, frames: seq<Page>, x: nat): (due: seq<bool>)
    requires i <= |trace|
    ensures |due| == |frames|
    ensures forall f :: 0 <= f < |frames| ==> due[f] == (NextUse(trace, i, frames[f]) <= x)
  {
    seq(|frames|, f requires 0 <= f < |frames| => NextUse(trace, i, frames[f]) <= x)
  }

  /** How far the other run is ahead: it holds more pages due by x than the furthest-use run does. */
  function Lead(trace: seq<Page>, i: nat, opt: seq<Page>, other: seq<Page>, x: nat): int
    requires i <= |trace|
  {
    Count(Due(trace, i, other, x)) - Count(Due(trace, i, opt, x))
  }

  /** The lead of the other run is always paid for by misses it has had already. */
  ghost predicate Paid(trace: seq<Page>, i: nat, opt: Memory, other: Memory)
    requires i <= |trace|
  {
    && opt.misses <= other.misses
    && forall x: nat :: PaidBy(trace, i, opt, other, x)
  }

  predicate PaidBy(trace: seq<Page>, i: nat, opt: Memory, other: Memory, x: nat)
    requires i <= |trace|
  {
    opt.misses + Lead(trace, i, opt.frames, other.frames, x) <= other.misses
  }

  ghost predicate Comparable(m: nat, opt: Memory, other: Memory) {
    && WellFormed(m, opt) && WellFormed(m, other)
    && |opt.frames| == |other.frames|
    && (|opt.frames| < m ==> forall p :: p in opt.frames <==> p in other.frames)
  }

  /** Replacing frame f by the page referenced at i moves exactly one flag. */
  lemma DueReplace(trace: seq<Page>, i: nat, frames: seq<Page>, f: nat, x: nat)
    requires i < |trace| && f < |frames|
    requires forall g :: 0 <= g < |frames| && g != f ==> frames[g] != trace[i]
    ensures Count(Due(trace, i + 1, frames[f := trace[i]], x))
         == Count(Due(trace, i, frames, x))
            - (if NextUse(trace, i, frames[f]) <= x then 1 else 0)
            + (if NextUse(trace, i + 1, trace[i]) <= x then 1 else 0)
  {
    var mark := NextUse(trace, i + 1, trace[i]) <= x;
    assert Due(trace, i + 1, frames[f := trace[i]], x) == Due(trace, i, frames, x)[f := mark];
    CountUpdate(Due(trace, i, frames, x), f, mark);
  }

  lemma DueAppend(trace: seq<Page>, i: nat, frames: seq<Page>, x: nat)
    requires i < |trace| && trace[i] !in frames
    ensures Count(Due(trace, i + 1, frames + [trace[i]], x))
         == Count(Due(trace, i, frames, x)) + (if NextUse(trace, i + 1, trace[i]) <= x then 1 else 0)
  {
    var mark := NextUse(trace, i + 1, trace[i]) <= x;
    assert Due(trace, i + 1, frames + [trace[i]], x) == Due(trace, i, frames, x) + [mark];
    CountAppend(Due(trace, i, frames, x), mark);
  }

  /** The frame that the reference touches: the page's own frame on a hit, the victim otherwise. */
  lemma Touched(m: nat, mem: Memory, p: Page, now: nat, victim: nat) returns (f: nat)
    requires WellFormed(m, mem) && victim < m
    requires p in mem.frames || |mem.frames| == m
    ensures f < |mem.frames|
    ensures p in mem.frames ==> mem.frames[f] == p
    ensures p !in mem.frames ==> f == victim
    ensures Reference(m, mem, now, p, victim).frames == mem.frames[f := p]
    ensures forall g :: 0 <= g < |mem.frames| && g != f ==> mem.frames[g] != p
  {
    if p in mem.frames {
      f :| 0 <= f < |mem.frames| && mem.frames[f] == p;
      assert mem.frames[f := p] == mem.frames;
    } else {
      f := victim;
    }
  }

  lemma NextUseNow(trace: seq<Page>, i: nat)
    requires i < |trace|
    ensures NextUse(trace, i, trace[i]) == i
  {
  }

  /** The furthest-use run misses while the other run hits: the other run was ahead, and loses it. */
  lemma PaidHit(trace: seq<Page>, i: nat, opt: seq<Page>, other: seq<Page>, victim: nat, hit: nat, x: nat)
    requires i < |trace| && |opt| == |other|
    requires trace[i] !in opt && FurthestFrame(trace, i, opt, victim)
    requires hit < |other| && other[hit] == trace[i]
    ensures var gone := if NextUse(trace, i, opt[victim]) <= x then 1 else 0;
            var moved := if i <= x then 1 else 0;
            || Lead(trace, i, opt, other, x) + gone - moved <= Lead(trace, i, opt, other, x) - 1
            || Lead(trace, i, opt, other, x) + gone - moved <= 0
    ensures Lead(trace, i, opt, other, i) >= 1
  {
    hide NextUse, Count;
    assert NextUse(trace, i, trace[i]) == i by { NextUseNow(trace, i); }
    CountPresent(Due(trace, i, other, i), hit);
    CountNone(Due(trace, i, opt, i));
    if x < i {
      CountNone(Due(trace, i, other, x));
      CountNone(Due(trace, i, opt, x));
    } else if NextUse(trace, i, opt[victim]) <= x {
      CountFull(Due(trace, i, opt, x));
    }
  }

  /** Both runs miss: past the furthest next use the other run cannot be ahead. */
  lemma PaidMiss(trace: seq<Page>, i: nat, opt: seq<Page>, other: seq<Page>, v: nat, w: nat, x: nat)
    requires i < |trace| && |opt| == |other|
    requires FurthestFrame(trace, i, opt, v) && w < |other|
    ensures var gone := if NextUse(trace, i, opt[v]) <= x then 1 else 0;
            var left := if NextUse(trace, i, other[w]) <= x then 1 else 0;
            || Lead(trace, i, opt, other, x) + gone - left <= Lead(trace, i, opt, other, x)
            || Lead(trace, i, opt, other, x) + gone - left <= 0
  {
    if NextUse(trace, i, opt[v]) <= x < NextUse(trace, i, other[w]) {
      CountFull(Due(trace, i, opt, x));
      CountMissing(Due(trace, i, other, x), w);
    }
  }

  /** Filling a free frame in both runs leaves the lead alone. */
  lemma PaidFill(trace: seq<Page>, i: nat, opt: Memory, other: Memory, opt': Memory, other': Memory, x: nat)
    requires i < |trace| && trace[i] !in opt.frames && trace[i] !in other.frames
    requires opt'.frames == opt.frames + [trace[i]] && opt'.misses == opt.misses + 1
    requires other'.frames == other.frames + [trace[i]] && other'.misses == other.misses + 1
    requires PaidBy(trace, i, opt, other, x)
    ensures PaidBy(trace, i + 1, opt', other', x)
  {
    DueAppend(trace, i, opt.frames, x);
    DueAppend(trace, i, other.frames, x);
  }

  /** When both runs have all frames in use, a reference rewrites one frame f of one and one frame g of the other. */
  lemma PaidReplace(trace: seq<Page>, i: nat, opt: Memory, other: Memory, opt': Memory, other': Memory,
                    f: nat, g: nat, x: nat)
    requires i < |trace| && |opt.frames| == |other.frames| && f < |opt.frames| && g < |other.frames|
    requires forall h :: 0 <= h < |opt.frames| && h != f ==> opt.frames[h] != trace[i]
    requires forall h :: 0 <= h < |other.frames| && h != g ==> other.frames[h] != trace[i]
    requires opt'.frames == opt.frames[f := trace[i]]
    requires other'.frames == other.frames[g := trace[i]]
    requires opt'.misses == opt.misses + (if opt.frames[f] == trace[i] then 0 else 1)
    requires other'.misses == other.misses + (if other.frames[g] == trace[i] then 0 else 1)
    requires opt.frames[f] != trace[i] ==> FurthestFrame(trace, i, opt.frames, f)
    requires Paid(trace, i, opt, other)
    ensures PaidBy(trace, i + 1, opt', other', x)
  {
    var p := trace[i];
    DueReplace(trace, i, opt.frames, f, x);
    DueReplace(trace, i, other.frames, g, x);
    assert PaidBy(trace, i, opt, other, x);
    if opt.frames[f] != p {
      assert p !in opt.frames;
      if other.frames[g] == p {
        PaidHit(trace, i, opt.frames, other.frames, f, g, x);
        assert PaidBy(trace, i, opt, other, i);
      } else {
        PaidMiss(trace, i, opt.frames, other.frames, f, g, x);
      }
    }
  }

  /** One reference keeps the lead paid for. */
  lemma PaidStep(m: nat, trace: seq<Page>, i: nat, opt: Memory, other: Memory, v: nat, w: nat)
    requires i < |trace| && v < m && w < m
    requires Comparable(m, opt, other) && Paid(trace, i, opt, other)
    requires trace[i] !in opt.frames && |opt.frames| == m ==> FurthestFrame(trace, i, opt.frames, v)
    ensures Comparable(m, Reference(m, opt, i, trace[i], v), Reference(m, other, i, trace[i], w))
    ensures Paid(trace, i + 1, Reference(m, opt, i, trace[i], v), Reference(m, other, i, trace[i], w))
  {
    var p, next := trace[i], i + 1;
    var opt', other' := Reference(m, opt, i, p, v), Reference(m, other, i, p, w);
    if |opt.frames| < m {
      if p !in opt.frames {
        forall x: nat ensures PaidBy(trace, next, opt', other', x) {
          assert PaidBy(trace, i, opt, other, x);
          PaidFill(trace, i, opt, other, opt', other', x);
        }
      } else {
        PaidInPlace(m, trace, i, opt, other, v, w);
      }
    } else {
      PaidInPlace(m, trace, i, opt, other, v, w);
    }
  }

  lemma PaidInPlace(m: nat, trace: seq<Page>, i: nat, opt: Memory, other: Memory, v: nat, w: nat)
    requires i < |trace| && v < m && w < m
    requires Comparable(m, opt, other) && Paid(trace, i, opt, other)
    requires |opt.frames| == m || trace[i] in opt.frames
    requires trace[i] !in opt.frames ==> FurthestFrame(trace, i, opt.frames, v)
    ensures Paid(trace, i + 1, Reference(m, opt, i, trace[i], v), Reference(m, other, i, trace[i], w))
  {
    var p, next := trace[i], i + 1;
    var opt', other' := Reference(m, opt, i, p, v), Reference(m, other, i, p, w);
    var f := Touched(m, opt, p, i, v);
    var g := Touched(m, other, p, i, w);
    if p !in opt.frames && p in other.frames {
      PaidHit(trace, i, opt.frames, other.frames, v, g, i);
      assert PaidBy(trace, i, opt, other, i);
    }
    forall x: nat ensures PaidBy(trace, next, opt', other', x) {
      PaidReplace(trace, i, opt, other, opt', other', f, g, x);
    }
  }

  lemma {:induction false} AlwaysPaid(m: nat, trace: seq<Page>, opt: seq<nat>, other: seq<nat>, n: nat)
    requires Schedule(m, opt) && Schedule(m, other)
    requires n <= |opt| && n <= |other| && n <= |trace| && Furthest(m, trace, opt, n)
    ensures Comparable(m, Run(m, trace, opt, n), Run(m, trace, other, n))
    ensures Paid(trace, n, Run(m, trace, opt, n), Run(m, trace, other, n))
  {
    if n > 0 {
      var i := n - 1;
      AlwaysPaid(m, trace, opt, other, i);
      assert FurthestAt(m, trace, opt, i);
      PaidStep(m, trace, i, Run(m, trace, opt, i), Run(m, trace, other, i), opt[i], other[i]);
    }
  }

  /** Belady optimality: at every point of the trace, evicting the furthest next use has missed least. */
  lemma {:induction false} Optimal(m: nat, trace: seq<Page>, opt: seq<nat>, other: seq<nat>, n: nat)
    requires Schedule(m, opt) && Schedule(m, other)
    requires n <= |opt| && n <= |other| && n <= |trace| && Furthest(m, trace, opt, n)
    ensures Run(m, trace, opt, n).misses <= Run(m, trace, other, n).misses
  {
    AlwaysPaid(m, trace, opt, other, n);
  }
}
