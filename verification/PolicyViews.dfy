/**
 How the data of each policy reads as a statement about the pages in memory: the frames listed by
 LRU as the recency list, the FIFO hand as the longest resident page, and the CLOCK hand with the
 reference bits as the second-chance queue.
 */
module PolicyViews {
  import opened Distinctness
  import opened Paging
  import opened Recency
  import opened Competitive
  import opened SecondChance

  // ---------- LRU ----------

  /** The listed frames, read as pages, are the recency list, and every frame in use is listed. */
  ghost predicate ListsPages(frames: seq<Page>, order: seq<nat>, pages: seq<Page>) {
    && |order| == |pages| == |frames|
    && (forall j :: 0 <= j < |order| ==> order[j] < |frames| && frames[order[j]] == pages[j])
    && forall f :: 0 <= f < |frames| ==> f in order
  }

  lemma ListsSame(frames: seq<Page>, order: seq<nat>, pages: seq<Page>)
    requires ListsPages(frames, order, pages)
    ensures SamePages(frames, pages)
  {
    forall p ensures p in frames <==> p in pages {
      if p in frames {
        var f :| 0 <= f < |frames| && frames[f] == p;
        assert f in order;
        assert pages[IndexOf(order, f)] == p;
      }
      if p in pages {
        var j :| 0 <= j < |pages| && pages[j] == p;
        assert frames[order[j]] == p;
      }
    }
  }

  lemma ListsHit(frames: seq<Page>, order: seq<nat>, pages: seq<Page>, f: nat)
    requires ListsPages(frames, order, pages) && f < |frames| && Distinct(frames) && Distinct(order)
    ensures ListsPages(frames, MoveToEnd(order, f), MoveToEnd(pages, frames[f]))
  {
    var k := IndexOf(order, f);
    assert pages[k] == frames[f];
    var i := IndexOf(pages, frames[f]);
    assert frames[order[i]] == frames[f];
    assert i == k;
    var order', pages' := MoveToEnd(order, f), MoveToEnd(pages, frames[f]);
    forall j | 0 <= j < |order'| ensures order'[j] < |frames| && frames[order'[j]] == pages'[j] {
      if j < |order| - 1 {
        var j' := if j < k then j else j + 1;
        assert order'[j] == order[j'] && pages'[j] == pages[j'];
      }
    }
    MovedStillListed(order, f, |frames|);
  }

  lemma MovedStillListed(order: seq<nat>, f: nat, n: nat)
    requires f in order && forall g :: 0 <= g < n ==> g in order
    ensures forall g :: 0 <= g < n ==> g in MoveToEnd(order, f)
  {
    var k, order' := IndexOf(order, f), MoveToEnd(order, f);
    forall g | 0 <= g < n ensures g in order' {
      assert g in order;
      var j := IndexOf(order, g);
      assert j != k ==> order'[if j < k then j else j - 1] == g;
      assert order'[|order| - 1] == f;
    }
  }

  lemma ListsFill(frames: seq<Page>, order: seq<nat>, pages: seq<Page>, p: Page)
    requires ListsPages(frames, order, pages) && p !in frames
    ensures ListsPages(frames + [p], MoveToEnd(order, |frames|), MoveToEnd(pages, p))
  {
    ListsSame(frames, order, pages);
    var order' := order + [|frames|];
    assert MoveToEnd(order, |frames|) == order' && MoveToEnd(pages, p) == pages + [p];
    forall g | 0 <= g <= |frames| ensures g in order' {
      assert g < |frames| ==> g in order;
      assert order'[|order|] == |frames|;
    }
  }

  lemma ListsEvict(frames: seq<Page>, order: seq<nat>, pages: seq<Page>, p: Page)
    requires ListsPages(frames, order, pages) && frames != [] && Distinct(order)
    ensures ListsPages(frames[order[0] := p], MoveToEnd(order[1..], order[0]), pages[1..] + [p])
  {
    var v := order[0];
    var order' := order[1..] + [v];
    assert v !in order[1..];
    assert MoveToEnd(order[1..], v) == order';
    forall g | 0 <= g < |frames| ensures g in order' {
      assert g in order;
      var j := IndexOf(order, g);
      assert order'[if j == 0 then |order| - 1 else j - 1] == g;
    }
  }

  // ---------- FIFO ----------

  /** The frames after the hand were loaded in index order, and before those up to the hand. */
  ghost predicate LoadedInTurn(m: nat, loaded: seq<nat>, hand: int, now: nat) {
    && |loaded| <= m && -1 <= hand < m
    && (|loaded| < m ==> hand == -1)
    && (forall f :: 0 <= f < |loaded| ==> loaded[f] < now)
    && forall f, g :: 0 <= f < g < |loaded| ==>
         if f <= hand < g then loaded[g] < loaded[f] else loaded[f] < loaded[g]
  }

  function NextFrame(m: nat, hand: int): (frame: nat)
    requires m > 0 && -1 <= hand < m
    ensures frame < m
  {
    (hand + 1) % m
  }

  lemma LoadedInTurnOldest(m: nat, loaded: seq<nat>, hand: int, now: nat)
    requires m > 0 && LoadedInTurn(m, loaded, hand, now) && |loaded| == m
    ensures OldestFrame(loaded, NextFrame(m, hand))
  {
    var v := NextFrame(m, hand);
    assert v == if hand + 1 == m then 0 else hand + 1;
  }

  lemma LoadedInTurnEvict(m: nat, loaded: seq<nat>, hand: int, now: nat)
    requires m > 0 && LoadedInTurn(m, loaded, hand, now) && |loaded| == m
    ensures var v := NextFrame(m, hand); LoadedInTurn(m, loaded[v := now], v, now + 1)
  {
    var v := NextFrame(m, hand);
    assert v == if hand + 1 == m then 0 else hand + 1;
  }

  lemma LoadedInTurnNext(m: nat, mem: Memory, hand: int, now: nat, p: Page, victim: nat)
    requires m > 0 && WellFormed(m, mem) && victim < m && LoadedInTurn(m, mem.loaded, hand, now)
    requires p in mem.frames || |mem.frames| < m
    ensures LoadedInTurn(m, Reference(m, mem, now, p, victim).loaded, hand, now + 1)
  {
  }

  // ---------- CLOCK ----------

  /** The frames in circular order from just after the hand. */
  function View(slots: seq<Slot>, hand: int): (queue: seq<Slot>)
    requires -1 <= hand < |slots|
    ensures |queue| == |slots|
  {
    slots[hand + 1..] + slots[..hand + 1]
  }

  function Cleared(slots: seq<Slot>): (cleared: seq<Slot>)
    ensures |cleared| == |slots|
    ensures forall j :: 0 <= j < |slots| ==> cleared[j] == slots[j].(referenced := false)
  {
    seq(|slots|, j requires 0 <= j < |slots| => slots[j].(referenced := false))
  }

  /** The queue once the hand has passed k slots, clearing them. */
  function AfterPassing(queue: seq<Slot>, k: nat): (next: seq<Slot>)
    requires k <= |queue|
    ensures |next| == |queue|
  {
    queue[k..] + Cleared(queue[..k])
  }

  /** The sweep stops at the first unreferenced slot, having cleared exactly those before it. */
  lemma {:induction false} SweepStops(queue: seq<Slot>, k: nat)
    requires queue != [] && k <= |queue|
    requires forall j :: 0 <= j < k ==> queue[j].referenced
    requires k < |queue| ==> !queue[k].referenced
    ensures Sweep(queue) == AfterPassing(queue, k)
    decreases k
  {
    SweepPasses(queue, [], k);
    assert queue + [] == queue;
  }

  lemma SweepHere(queue: seq<Slot>)
    requires queue != [] && !queue[0].referenced
    ensures Sweep(queue) == queue
  {
  }

  lemma SweepPast(queue: seq<Slot>)
    requires queue != [] && queue[0].referenced
    ensures Pass(queue) != [] && Sweep(queue) == Sweep(Pass(queue))
  {
    PassClears(queue);
  }

  lemma {:induction false} SweepPasses(front: seq<Slot>, back: seq<Slot>, k: nat)
    requires front + back != [] && k <= |front|
    requires forall j :: 0 <= j < k ==> front[j].referenced
    requires if k < |front| then !front[k].referenced else back == [] || !back[0].referenced
    ensures Sweep(front + back) == front[k..] + back + Cleared(front[..k])
    decreases k
  {
    hide Sweep;
    var queue := front + back;
    if k == 0 {
      assert front[..0] == [] && front[0..] == front;
      SweepHere(queue);
    } else {
      var slot := front[0].(referenced := false);
      var rest := front[1..];
      SweepPast(queue);
      assert Pass(queue) == rest + (back + [slot]);
      SweepPasses(rest, back + [slot], k - 1);
      assert Cleared(front[..k]) == [slot] + Cleared(rest[..k - 1]);
      assert rest[k - 1..] == front[k..];
    }
  }

  /** Turning the hand one frame on moves the front slot to the back. */
  lemma ViewTurn(slots: seq<Slot>, hand: int, slot: Slot)
    requires -1 <= hand < |slots| && slots != []
    ensures var v := NextFrame(|slots|, hand);
            && View(slots, hand)[0] == slots[v]
            && View(slots[v := slot], v) == View(slots, hand)[1..] + [slot]
  {
    var v := NextFrame(|slots|, hand);
    assert v == if hand + 1 == |slots| then 0 else hand + 1;
  }

  /** The hand meets the front of the queue, and passing it moves it, cleared, to the back. */
  lemma HandMeets(slots: seq<Slot>, hand: int, queue: seq<Slot>, k: nat)
    requires -1 <= hand < |slots| == |queue| && slots != [] && k <= |queue|
    requires View(slots, hand) == AfterPassing(queue, k)
    ensures var v := NextFrame(|slots|, hand);
            && slots[v] == AfterPassing(queue, k)[0]
            && View(slots, v) == AfterPassing(queue, k)[1..] + [AfterPassing(queue, k)[0]]
            && (slots[v].referenced ==>
                  k < |queue| && queue[k].referenced
                  && View(slots[v := slots[v].(referenced := false)], v) == AfterPassing(queue, k + 1))
            && (!slots[v].referenced && k < |queue| ==> !queue[k].referenced)
  {
    var v := NextFrame(|slots|, hand);
    ViewTurn(slots, hand, slots[v]);
    assert slots[v := slots[v]] == slots;
    if slots[v].referenced {
      var slot := slots[v].(referenced := false);
      ViewTurn(slots, hand, slot);
      assert Cleared(queue[..k + 1]) == Cleared(queue[..k]) + [slot];
    }
  }

  lemma ViewFill(slots: seq<Slot>, slot: Slot)
    ensures View(slots, -1) == slots && View(slots + [slot], -1) == slots + [slot]
  {
  }

  lemma BackHolds(swept: seq<Slot>, p: Page)
    requires swept != []
    ensures Holds(swept[1..] + [swept[0]], p) <==> Holds(swept, p)
  {
    ViewHolds(swept, 0, p);
    assert View(swept, 0) == swept[1..] + [swept[0]];
  }

  /** A new page in the frame under the hand is at the back of the queue. */
  lemma ViewReplace(slots: seq<Slot>, hand: int, swept: seq<Slot>, slot: Slot)
    requires 0 <= hand < |slots| == |swept| && View(slots, hand) == swept[1..] + [swept[0]]
    ensures View(slots[hand := slot], hand) == swept[1..] + [slot]
  {
    assert View(slots, hand) == slots[hand + 1..] + slots[..hand] + [slots[hand]];
    assert View(slots[hand := slot], hand) == slots[hand + 1..] + slots[..hand] + [slot];
    assert swept[1..] == View(slots, hand)[..|slots| - 1] == slots[hand + 1..] + slots[..hand];
  }

  /** A page is in the queue exactly when it is in a frame. */
  lemma ViewHolds(slots: seq<Slot>, hand: int, p: Page)
    requires -1 <= hand < |slots|
    ensures Holds(View(slots, hand), p) <==> Holds(slots, p)
  {
    var queue, k := View(slots, hand), hand + 1;
    if Holds(slots, p) {
      var f :| 0 <= f < |slots| && slots[f].page == p;
      assert queue[if f >= k then f - k else |slots| - k + f] == slots[f];
    }
    if Holds(queue, p) {
      var j :| 0 <= j < |queue| && queue[j].page == p;
      assert queue[j] == slots[if j < |slots| - k then j + k else j - (|slots| - k)];
    }
  }

  /** Marking one page in the frames marks it in the queue. */
  lemma ViewMark(slots: seq<Slot>, hand: int, f: nat)
    requires -1 <= hand < |slots| && f < |slots| && DistinctSlots(slots)
    ensures View(slots[f := slots[f].(referenced := true)], hand) == Mark(View(slots, hand), slots[f].page)
  {
  }
}
