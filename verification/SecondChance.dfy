/**
 CLOCK as a queue. Read the frames in circular order from just after the hand: the sweep
 sends referenced pages to the back with their bit cleared until the front page is
 unreferenced, evicts it, and the new page joins the back.
 */
module SecondChance {
  import opened Paging
  import opened Competitive

  /** One frame as the hand sees it: its page, the page's reference bit, and when it was loaded. */
  datatype Slot = Slot(page: Page, referenced: bool, loaded: nat)

  function Referenced(queue: seq<Slot>): nat {
    if queue == [] then 0
    else (if queue[0].referenced then 1 else 0) + Referenced(queue[1..])
  }

  /** Giving the front page its second chance. */
  function Pass(queue: seq<Slot>): (next: seq<Slot>)
    requires queue != []
    ensures |next| == |queue|
  {
    queue[1..] + [queue[0].(referenced := false)]
  }

  lemma {:induction false} ReferencedAppend(queue: seq<Slot>, slot: Slot)
    ensures Referenced(queue + [slot]) == Referenced(queue) + (if slot.referenced then 1 else 0)
  {
    if queue != [] {
      ReferencedAppend(queue[1..], slot);
      assert (queue + [slot])[1..] == queue[1..] + [slot];
    }
  }

  lemma PassClears(queue: seq<Slot>)
    requires queue != [] && queue[0].referenced
    ensures Referenced(Pass(queue)) == Referenced(queue) - 1
  {
    ReferencedAppend(queue[1..], queue[0].(referenced := false));
  }

  /** The queue when the hand stops: its front page is the victim. */
  function Sweep(queue: seq<Slot>): (next: seq<Slot>)
    requires queue != []
    ensures |next| == |queue| && !next[0].referenced
    decreases Referenced(queue)
  {
    if queue[0].referenced then
      PassClears(queue);
      Sweep(Pass(queue))
    else
      queue
  }

  ghost predicate Holds(queue: seq<Slot>, p: Page) {
    exists j :: 0 <= j < |queue| && queue[j].page == p
  }

  /** A hit sets the reference bit of the page. */
  function Mark(queue: seq<Slot>, p: Page): (next: seq<Slot>)
    ensures |next| == |queue|
    ensures forall j :: 0 <= j < |queue| ==>
              next[j] == if queue[j].page == p then queue[j].(referenced := true) else queue[j]
  {
    seq(|queue|, j requires 0 <= j < |queue| =>
      if queue[j].page == p then queue[j].(referenced := true) else queue[j])
  }

  ghost function Step(m: nat, queue: seq<Slot>, now: nat, p: Page): (next: seq<Slot>)
    requires 0 < m && |queue| <= m
    ensures |next| <= m
  {
    if Holds(queue, p) then Mark(queue, p)
    else if |queue| < m then queue + [Slot(p, true, now)]
    else Sweep(queue)[1..] + [Slot(p, true, now)]
  }

  /** The queue after the first n references. */
  ghost function Queue(m: nat, trace: seq<Page>, n: nat): (queue: seq<Slot>)
    requires 0 < m && n <= |trace|
    ensures |queue| <= m
  {
    if n == 0 then [] else Step(m, Queue(m, trace, n - 1), n - 1, trace[n - 1])
  }

  // ---------- runs that evict the second-chance victim ----------

  /** The queue and the memory hold the same pages, loaded at the same time. */
  ghost predicate Mirrors(mem: Memory, queue: seq<Slot>) {
    && |mem.loaded| == |mem.frames| == |queue|
    && (forall f :: 0 <= f < |mem.frames| ==> HoldsSince(queue, mem.frames[f], mem.loaded[f]))
    && DistinctSlots(queue)
  }

  ghost predicate HoldsSince(queue: seq<Slot>, p: Page, since: nat) {
    exists j :: 0 <= j < |queue| && queue[j].page == p && queue[j].loaded == since
  }

  /** At every eviction the schedule picks the frame of the page at which the sweep stops. */
  ghost predicate ClockVictims(m: nat, trace: seq<Page>, victims: seq<nat>, n: nat)
    requires 0 < m && Schedule(m, victims) && n <= |victims| && n <= |trace|
  {
    forall i :: 0 <= i < n ==> ClockVictimAt(m, trace, victims, i)
  }

  ghost predicate ClockVictimAt(m: nat, trace: seq<Page>, victims: seq<nat>, i: nat)
    requires 0 < m && Schedule(m, victims) && i < |victims| && i < |trace|
  {
    Evicts(m, trace, victims, i) ==>
      SweptFrame(Run(m, trace, victims, i).frames, Queue(m, trace, i), victims[i])
  }

  ghost predicate SweptFrame(frames: seq<Page>, queue: seq<Slot>, victim: nat) {
    victim < |frames| && queue != [] && frames[victim] == Sweep(queue)[0].page
  }

  /** The pages of the queue that the sweep leaves in place, up to order and reference bits. */
  lemma {:induction false} SweepKeeps(queue: seq<Slot>, p: Page, since: nat)
    requires queue != []
    ensures HoldsSince(Sweep(queue), p, since) <==> HoldsSince(queue, p, since)
    decreases Referenced(queue)
  {
    if queue[0].referenced {
      var next := Pass(queue);
      PassClears(queue);
      SweepKeeps(next, p, since);
      if HoldsSince(queue, p, since) {
        var j :| 0 <= j < |queue| && queue[j].page == p && queue[j].loaded == since;
        var j' := if j == 0 then |queue| - 1 else j - 1;
        assert next[j'].page == p && next[j'].loaded == since;
      }
      if HoldsSince(next, p, since) {
        var j :| 0 <= j < |next| && next[j].page == p && next[j].loaded == since;
        var j' := if j == |queue| - 1 then 0 else j + 1;
        assert queue[j'].page == p && queue[j'].loaded == since;
      }
    }
  }

  /** The sweep loses no page. */
  lemma StillHeld(queue: seq<Slot>, p: Page)
    requires queue != [] && Holds(queue, p)
    ensures Holds(Sweep(queue), p)
  {
    var j :| 0 <= j < |queue| && queue[j].page == p;
    assert HoldsSince(queue, p, queue[j].loaded);
    SweepKeeps(queue, p, queue[j].loaded);
  }

  ghost predicate DistinctSlots(queue: seq<Slot>) {
    forall j, k :: 0 <= j < k < |queue| ==> queue[j].page != queue[k].page
  }

  lemma {:induction false} SweepDistinct(queue: seq<Slot>)
    requires queue != [] && DistinctSlots(queue)
    ensures DistinctSlots(Sweep(queue))
    decreases Referenced(queue)
  {
    if queue[0].referenced {
      PassClears(queue);
      var next := Pass(queue);
      assert forall j :: 0 <= j < |queue| - 1 ==> next[j] == queue[j + 1];
      SweepDistinct(next);
    }
  }

  lemma MirrorsHolds(mem: Memory, queue: seq<Slot>, p: Page)
    requires Mirrors(mem, queue)
    requires forall f, g :: 0 <= f < g < |mem.frames| ==> mem.frames[f] != mem.frames[g]
    ensures Holds(queue, p) <==> p in mem.frames
  {
    if p in mem.frames {
      var f :| 0 <= f < |mem.frames| && mem.frames[f] == p;
      assert HoldsSince(queue, mem.frames[f], mem.loaded[f]);
    } else if Holds(queue, p) {
      // The queue holds every resident page and p besides, which is one page too many.
      var pages := set j | 0 <= j < |queue| :: queue[j].page;
      forall f | 0 <= f < |mem.frames| ensures mem.frames[f] in pages {
        assert HoldsSince(queue, mem.frames[f], mem.loaded[f]);
      }
      TooManyPages(mem.frames, p, pages);
      SlotPages(queue);
    }
  }

  lemma {:induction false} SlotPages(queue: seq<Slot>)
    ensures |set j | 0 <= j < |queue| :: queue[j].page| <= |queue|
  {
    if queue != [] {
      var rest, last := queue[..|queue| - 1], queue[|queue| - 1];
      SlotPages(rest);
      var all := set j | 0 <= j < |queue| :: queue[j].page;
      var some := set j | 0 <= j < |rest| :: rest[j].page;
      assert all == some + {last.page} by {
        forall p | p in all ensures p in some + {last.page} {
          var j :| 0 <= j < |queue| && queue[j].page == p;
          assert j < |rest| ==> rest[j].page == p;
        }
        forall p | p in some ensures p in all {
          var j :| 0 <= j < |rest| && rest[j].page == p;
          assert queue[j].page == p;
        }
        assert queue[|queue| - 1].page == last.page;
      }
    }
  }

  lemma MirrorsEvict(m: nat, mem: Memory, queue: seq<Slot>, now: nat, p: Page, victim: nat)
    requires 0 < m && victim < m && WellFormed(m, mem) && Mirrors(mem, queue)
    requires p !in mem.frames && |mem.frames| == m && SweptFrame(mem.frames, queue, victim)
    ensures Mirrors(Reference(m, mem, now, p, victim), Sweep(queue)[1..] + [Slot(p, true, now)])
  {
    var mem', swept := Reference(m, mem, now, p, victim), Sweep(queue);
    var queue' := swept[1..] + [Slot(p, true, now)];
    forall f | 0 <= f < |mem'.frames| ensures HoldsSince(queue', mem'.frames[f], mem'.loaded[f]) {
      if f == victim {
        assert queue'[|queue'| - 1] == Slot(p, true, now);
      } else {
        SweepKeeps(queue, mem.frames[f], mem.loaded[f]);
        assert HoldsSince(queue, mem.frames[f], mem.loaded[f]);
        var j :| 0 <= j < |swept| && swept[j].page == mem.frames[f] && swept[j].loaded == mem.loaded[f];
        assert j != 0;
        assert queue'[j - 1] == swept[j];
      }
    }
    SweepDistinct(queue);
    MirrorsHolds(mem, queue, p);
    forall j | 0 <= j < |swept| ensures swept[j].page != p {
      SweepKeeps(queue, swept[j].page, swept[j].loaded);
      assert HoldsSince(swept, swept[j].page, swept[j].loaded);
    }
  }

  lemma MirrorsStep(m: nat, mem: Memory, queue: seq<Slot>, now: nat, p: Page, victim: nat)
    requires 0 < m && victim < m && WellFormed(m, mem) && Mirrors(mem, queue)
    requires p !in mem.frames && |mem.frames| == m ==> SweptFrame(mem.frames, queue, victim)
    ensures Mirrors(Reference(m, mem, now, p, victim), Step(m, queue, now, p))
  {
    MirrorsHolds(mem, queue, p);
    if p in mem.frames {
      var queue' := Mark(queue, p);
      forall f | 0 <= f < |mem.frames| ensures HoldsSince(queue', mem.frames[f], mem.loaded[f]) {
        assert HoldsSince(queue, mem.frames[f], mem.loaded[f]);
        var j :| 0 <= j < |queue| && queue[j].page == mem.frames[f] && queue[j].loaded == mem.loaded[f];
        assert queue'[j].page == queue[j].page && queue'[j].loaded == queue[j].loaded;
      }
    } else if |mem.frames| < m {
      var mem', queue' := Reference(m, mem, now, p, victim), queue + [Slot(p, true, now)];
      forall f | 0 <= f < |mem'.frames| ensures HoldsSince(queue', mem'.frames[f], mem'.loaded[f]) {
        if f == |mem.frames| {
          assert queue'[|queue|] == Slot(p, true, now);
        } else {
          assert HoldsSince(queue, mem.frames[f], mem.loaded[f]);
          var j :| 0 <= j < |queue| && queue[j].page == mem.frames[f] && queue[j].loaded == mem.loaded[f];
          assert queue'[j] == queue[j];
        }
      }
    } else {
      MirrorsEvict(m, mem, queue, now, p, victim);
    }
  }

  lemma MirrorsNext(m: nat, trace: seq<Page>, victims: seq<nat>, i: nat)
    requires 0 < m && Schedule(m, victims) && i < |victims| && i < |trace|
    requires Mirrors(Run(m, trace, victims, i), Queue(m, trace, i))
    requires ClockVictimAt(m, trace, victims, i)
    ensures Mirrors(Run(m, trace, victims, i + 1), Queue(m, trace, i + 1))
  {
    MirrorsStep(m, Run(m, trace, victims, i), Queue(m, trace, i), i, trace[i], victims[i]);
  }

  lemma NothingMirrored(m: nat, trace: seq<Page>, victims: seq<nat>)
    requires 0 < m && Schedule(m, victims)
    ensures Mirrors(Run(m, trace, victims, 0), Queue(m, trace, 0))
  {
  }

  /** A CLOCK run holds exactly the pages of the second-chance queue. */
  lemma {:induction false} RunIsQueue(m: nat, trace: seq<Page>, victims: seq<nat>, n: nat)
    requires 0 < m && Schedule(m, victims) && n <= |victims| && n <= |trace|
    requires ClockVictims(m, trace, victims, n)
    ensures Mirrors(Run(m, trace, victims, n), Queue(m, trace, n))
  {
    hide Mirrors, ClockVictimAt, Evicts, SweptFrame;
    if n == 0 {
      NothingMirrored(m, trace, victims);
    } else {
      RunIsQueue(m, trace, victims, n - 1);
      MirrorsNext(m, trace, victims, n - 1);
    }
  }

  // ---------- CLOCK never evicts a page loaded in a narrow stretch ----------

  /** Passed once since the stretch began: in the stretch or unreferenced, and not evicted yet if loaded in it. */
  predicate PassedOnce(slot: Slot, pages: set<Page>, s: nat) {
    && (slot.page in pages || !slot.referenced)
    && (slot.loaded >= s ==> slot.referenced)
  }

  /**
   The first u slots lie ahead of the hand. On the first round since position s they were all loaded
   before s and those behind were passed once; on the second round those ahead were passed once
   and those behind hold pages of the stretch.
   */
  ghost predicate Stage(queue: seq<Slot>, u: nat, second: bool, pages: set<Page>, s: nat) {
    && u <= |queue|
    && (forall j :: 0 <= j < |queue| && queue[j].loaded >= s ==> queue[j].page in pages)
    && (forall j :: 0 <= j < u ==> if second then PassedOnce(queue[j], pages, s) else queue[j].loaded < s)
    && (forall j :: u <= j < |queue| ==> if second then queue[j].page in pages else PassedOnce(queue[j], pages, s))
  }

  ghost predicate Outsider(queue: seq<Slot>, pages: set<Page>) {
    exists j :: 0 <= j < |queue| && queue[j].page !in pages
  }

  lemma StagePass(queue: seq<Slot>, u: nat, second: bool, pages: set<Page>, s: nat)
    requires 0 < u && Stage(queue, u, second, pages, s) && queue[0].referenced && Outsider(queue, pages)
    ensures Stage(Pass(queue), u - 1, second, pages, s) && Outsider(Pass(queue), pages)
  {
    var next := Pass(queue);
    assert forall j :: 0 <= j < |queue| - 1 ==> next[j] == queue[j + 1];
    var j :| 0 <= j < |queue| && queue[j].page !in pages;
    assert next[if j == 0 then |queue| - 1 else j - 1].page == queue[j].page;
  }

  /** While some page lies outside the stretch, the sweep stops at a page loaded before it. */
  lemma {:induction false} StageSweep(queue: seq<Slot>, u: nat, second: bool, pages: set<Page>, s: nat)
    returns (u': nat, second': bool)
    requires Stage(queue, u, second, pages, s) && Outsider(queue, pages)
    ensures u' > 0 && Stage(Sweep(queue), u', second', pages, s) && Sweep(queue)[0].loaded < s
    decreases Referenced(queue)
  {
    u', second' := u, second;
    if u == 0 {
      assert !second;
      u', second' := |queue|, true;
    }
    if queue[0].referenced {
      PassClears(queue);
      StagePass(queue, u', second', pages, s);
      u', second' := StageSweep(Pass(queue), u' - 1, second', pages, s);
    }
  }

  lemma {:induction false} QueueLoaded(m: nat, trace: seq<Page>, n: nat)
    requires 0 < m && n <= |trace|
    ensures forall j :: 0 <= j < |Queue(m, trace, n)| ==> Queue(m, trace, n)[j].loaded < n
  {
    if n > 0 {
      QueueLoaded(m, trace, n - 1);
      var queue := Queue(m, trace, n - 1);
      if !Holds(queue, trace[n - 1]) && |queue| == m {
        var swept := Sweep(queue);
        forall j | 0 <= j < |swept| ensures swept[j].loaded < n - 1 {
          SweepKeeps(queue, swept[j].page, swept[j].loaded);
          assert HoldsSince(swept, swept[j].page, swept[j].loaded);
        }
      }
    }
  }

  /** The missing page and a full queue of pages of the stretch would be too many pages. */
  lemma SomeOutsider(m: nat, queue: seq<Slot>, p: Page, pages: set<Page>)
    requires |queue| == m && DistinctSlots(queue) && !Holds(queue, p) && p in pages && |pages| <= m
    ensures Outsider(queue, pages)
  {
    var held := seq(|queue|, j requires 0 <= j < |queue| => queue[j].page);
    if !Outsider(queue, pages) {
      TooManyPages(held, p, pages);
    }
  }

  lemma StageMark(queue: seq<Slot>, u: nat, second: bool, pages: set<Page>, s: nat, p: Page)
    requires Stage(queue, u, second, pages, s) && p in pages
    ensures Stage(Mark(queue, p), u, second, pages, s)
  {
  }

  lemma StageAppend(queue: seq<Slot>, u: nat, second: bool, pages: set<Page>, s: nat, slot: Slot)
    requires Stage(queue, u, second, pages, s) && slot.page in pages && slot.referenced
    ensures Stage(queue + [slot], u, second, pages, s)
  {
  }

  lemma StageDrop(queue: seq<Slot>, u: nat, second: bool, pages: set<Page>, s: nat)
    requires 0 < u && Stage(queue, u, second, pages, s)
    ensures Stage(queue[1..], u - 1, second, pages, s)
  {
  }

  lemma StageStep(m: nat, queue: seq<Slot>, u: nat, second: bool, pages: set<Page>, s: nat, now: nat, p: Page)
    returns (u': nat, second': bool)
    requires 0 < m && |queue| <= m && s <= now && DistinctSlots(queue)
    requires Stage(queue, u, second, pages, s) && p in pages && |pages| <= m
    ensures Stage(Step(m, queue, now, p), u', second', pages, s)
  {
    u', second' := u, second;
    if Holds(queue, p) {
      StageMark(queue, u, second, pages, s, p);
    } else if |queue| < m {
      StageAppend(queue, u, second, pages, s, Slot(p, true, now));
    } else {
      SomeOutsider(m, queue, p, pages);
      u', second' := StageSweep(queue, u, second, pages, s);
      StageDrop(Sweep(queue), u', second', pages, s);
      u' := u' - 1;
      StageAppend(Sweep(queue)[1..], u', second', pages, s, Slot(p, true, now));
    }
  }

  lemma StageNext(m: nat, trace: seq<Page>, s: nat, i: nat, u: nat, second: bool) returns (u': nat, second': bool)
    requires 0 < m && s <= i < |trace| && |Pages(trace, s, i + 1)| <= m
    requires DistinctSlots(Queue(m, trace, i)) && Stage(Queue(m, trace, i), u, second, Pages(trace, s, i), s)
    ensures Stage(Queue(m, trace, i + 1), u', second', Pages(trace, s, i + 1), s)
  {
    assert Stage(Queue(m, trace, i), u, second, Pages(trace, s, i + 1), s);
    u', second' := StageStep(m, Queue(m, trace, i), u, second, Pages(trace, s, i + 1), s, i, trace[i]);
  }

  /** The stage of the queue at n, for a stretch from s to n with at most m distinct pages. */
  lemma {:induction false} StageAt(m: nat, trace: seq<Page>, victims: seq<nat>, s: nat, n: nat)
    returns (u: nat, second: bool)
    requires 0 < m && Schedule(m, victims) && s <= n <= |victims| && n <= |trace|
    requires ClockVictims(m, trace, victims, n) && |Pages(trace, s, n)| <= m
    ensures Stage(Queue(m, trace, n), u, second, Pages(trace, s, n), s)
    decreases n - s
  {
    if s == n {
      QueueLoaded(m, trace, s);
      u, second := |Queue(m, trace, s)|, false;
    } else {
      PagesGrow(trace, s, n - 1, n);
      u, second := StageAt(m, trace, victims, s, n - 1);
      RunIsQueue(m, trace, victims, n - 1);
      u, second := StageNext(m, trace, s, n - 1, u, second);
    }
  }

  lemma ClockSparesFresh(m: nat, trace: seq<Page>, victims: seq<nat>, n: nat)
    requires 0 < m && Schedule(m, victims) && n <= |victims| && n <= |trace|
    requires ClockVictims(m, trace, victims, n)
    ensures SparesFresh(m, trace, victims, n)
  {
    forall i | 0 <= i < n ensures SparesFreshAt(m, trace, victims, i) {
      var loaded := Run(m, trace, victims, i).loaded;
      forall s | Evicts(m, trace, victims, i) && 0 <= s <= i ensures Spared(m, trace, loaded, victims[i], s, i) {
        if |Pages(trace, s, i + 1)| <= m {
          ClockSpares(m, trace, victims, s, i);
        }
      }
    }
  }

  lemma ClockSpares(m: nat, trace: seq<Page>, victims: seq<nat>, s: nat, i: nat)
    requires 0 < m && Schedule(m, victims) && s <= i < |victims| && i < |trace|
    requires ClockVictims(m, trace, victims, i + 1) && Evicts(m, trace, victims, i)
    requires |Pages(trace, s, i + 1)| <= m
    ensures Run(m, trace, victims, i).loaded[victims[i]] < s
  {
    var mem, queue, v := Run(m, trace, victims, i), Queue(m, trace, i), victims[i];
    PagesGrow(trace, s, i, i + 1);
    var u, second := StageAt(m, trace, victims, s, i);
    RunIsQueue(m, trace, victims, i);
    MirrorsHolds(mem, queue, trace[i]);
    assert ClockVictimAt(m, trace, victims, i);
    SomeOutsider(m, queue, trace[i], Pages(trace, s, i + 1));
    assert Stage(queue, u, second, Pages(trace, s, i + 1), s);
    u, second := StageSweep(queue, u, second, Pages(trace, s, i + 1), s);
    SweepKeeps(queue, mem.frames[v], mem.loaded[v]);
    assert HoldsSince(queue, mem.frames[v], mem.loaded[v]);
    SweepDistinct(queue);
  }
}
