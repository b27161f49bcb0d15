/**
 LRU as a recency list: the resident pages from least to most recently referenced.
 Runs that evict a least recently referenced page hold exactly the pages of this list,
 and the list for less memory is always the tail of the list for more memory.
 */
module Recency {
  import opened Distinctness
  import opened Paging

  ghost function IndexOf(order: seq<Page>, p: Page): (k: nat)
    requires p in order
    ensures k < |order| && order[k] == p
  {
    var k :| 0 <= k < |order| && order[k] == p;
    k
  }

  function Remove(order: seq<Page>, k: nat): seq<Page>
    requires k < |order|
  {
    order[..k] + order[k + 1..]
  }

  ghost function MoveToEnd(order: seq<Page>, p: Page): (next: seq<Page>) {
    (if p in order then Remove(order, IndexOf(order, p)) else order) + [p]
  }

  /** A reference to p moves p to the recent end, dropping the oldest page when there is no room. */
  ghost function Touch(m: nat, order: seq<Page>, p: Page): (next: seq<Page>)
    requires m > 0 && |order| <= m
    ensures |next| <= m
  {
    if p in order || |order| < m then MoveToEnd(order, p) else order[1..] + [p]
  }

  /** The recency list after the first n references. */
  ghost function Order(m: nat, trace: seq<Page>, n: nat): (order: seq<Page>)
    requires m > 0 && n <= |trace|
    ensures |order| <= m
  {
    if n == 0 then [] else Touch(m, Order(m, trace, n - 1), trace[n - 1])
  }

  predicate SortedByUse(trace: seq<Page>, n: nat, order: seq<Page>)
    requires n <= |trace|
  {
    && (forall j :: 0 <= j < |order| ==> LastUse(trace, n, order[j]) > 0)
    && forall j, k :: 0 <= j < k < |order| ==> LastUse(trace, n, order[j]) < LastUse(trace, n, order[k])
  }

  lemma RemoveSorted(trace: seq<Page>, n: nat, order: seq<Page>, k: nat)
    requires n <= |trace| && SortedByUse(trace, n, order) && k < |order|
    ensures SortedByUse(trace, n, Remove(order, k)) && order[k] !in Remove(order, k)
  {
    var rest := Remove(order, k);
    forall i, j | 0 <= i < j < |rest| ensures LastUse(trace, n, rest[i]) < LastUse(trace, n, rest[j]) {
      var i', j' := if i < k then i else i + 1, if j < k then j else j + 1;
      assert rest[i] == order[i'] && rest[j] == order[j'];
    }
    forall j | 0 <= j < |rest| ensures LastUse(trace, n, rest[j]) > 0 && rest[j] != order[k] {
      var j' := if j < k then j else j + 1;
      assert rest[j] == order[j'];
    }
  }

  lemma AdvanceSorted(trace: seq<Page>, n: nat, order: seq<Page>)
    requires n < |trace| && SortedByUse(trace, n, order) && trace[n] !in order
    ensures SortedByUse(trace, n + 1, order + [trace[n]])
  {
    var next := order + [trace[n]];
    forall j | 0 <= j < |order| ensures LastUse(trace, n + 1, next[j]) == LastUse(trace, n, order[j]) {
      assert next[j] == order[j];
    }
  }

  lemma TouchSorted(m: nat, trace: seq<Page>, n: nat, order: seq<Page>)
    requires 0 < m && |order| <= m && n < |trace| && SortedByUse(trace, n, order)
    ensures SortedByUse(trace, n + 1, Touch(m, order, trace[n]))
  {
    if trace[n] in order {
      var k := IndexOf(order, trace[n]);
      RemoveSorted(trace, n, order, k);
      AdvanceSorted(trace, n, Remove(order, k));
    } else if |order| < m {
      AdvanceSorted(trace, n, order);
    } else {
      AdvanceSorted(trace, n, order[1..]);
    }
  }

  /** The recency list is sorted by last reference: oldest first, no page twice. */
  lemma {:induction false} OrderSorted(m: nat, trace: seq<Page>, n: nat)
    requires m > 0 && n <= |trace|
    ensures SortedByUse(trace, n, Order(m, trace, n))
  {
    if n > 0 {
      var i := n - 1;
      var order := Order(m, trace, i);
      OrderSorted(m, trace, i);
      TouchSorted(m, trace, i, order);
      assert Order(m, trace, n) == Touch(m, order, trace[i]);
    }
  }

  // ---------- LRU runs ----------

  predicate LeastRecentFrame(trace: seq<Page>, i: nat, frames: seq<Page>, victim: nat)
    requires i <= |trace|
  {
    victim < |frames| &&
    forall f :: 0 <= f < |frames| ==> LastUse(trace, i, frames[victim]) <= LastUse(trace, i, frames[f])
  }

  /** At every eviction the schedule picks a frame whose page was referenced longest ago. */
  ghost predicate LeastRecent(m: nat, trace: seq<Page>, victims: seq<nat>, n: nat)
    requires Schedule(m, victims) && n <= |victims| && n <= |trace|
  {
    forall i :: 0 <= i < n ==> LeastRecentAt(m, trace, victims, i)
  }

  predicate LeastRecentAt(m: nat, trace: seq<Page>, victims: seq<nat>, i: nat)
    requires Schedule(m, victims) && i < |victims| && i < |trace|
  {
    Evicts(m, trace, victims, i) ==>
      LeastRecentFrame(trace, i, Run(m, trace, victims, i).frames, victims[i])
  }

  ghost predicate SamePages(frames: seq<Page>, order: seq<Page>) {
    |frames| == |order| && forall p :: p in frames <==> p in order
  }

  /** Among the pages of a sorted list, only its first page is least recently referenced. */
  lemma OldestIsFirst(trace: seq<Page>, n: nat, frames: seq<Page>, order: seq<Page>, victim: nat)
    requires n <= |trace| && SortedByUse(trace, n, order) && SamePages(frames, order) && victim < |frames|
    ensures LeastRecentFrame(trace, n, frames, victim) <==> frames[victim] == order[0]
  {
    if frames[victim] == order[0] {
      forall f | 0 <= f < |frames| ensures LastUse(trace, n, order[0]) <= LastUse(trace, n, frames[f]) {
        assert frames[f] in order;
      }
    } else {
      assert frames[victim] in order && order[0] in frames;
      var f :| 0 <= f < |frames| && frames[f] == order[0];
      assert LastUse(trace, n, frames[f]) < LastUse(trace, n, frames[victim]);
    }
  }

  lemma TouchSamePages(m: nat, mem: Memory, order: seq<Page>, p: Page, now: nat, victim: nat)
    requires 0 < m && victim < m && WellFormed(m, mem) && SamePages(mem.frames, order)
    requires Distinct(order)
    requires p !in mem.frames && |mem.frames| == m ==> mem.frames[victim] == order[0]
    ensures SamePages(Reference(m, mem, now, p, victim).frames, Touch(m, order, p))
  {
    if p !in mem.frames && |mem.frames| == m {
      var frames, next := mem.frames[victim := p], order[1..] + [p];
      forall q ensures q in frames <==> q in next {
        if q in frames && q != p {
          var f :| 0 <= f < |frames| && frames[f] == q;
          assert f != victim && mem.frames[f] == q;
          assert q in order && q != order[0];
        }
        if q in next && q != p {
          assert q in order[1..] && q in order;
          var f :| 0 <= f < |mem.frames| && mem.frames[f] == q;
          assert frames[f] == q;
        }
        if q == p {
          assert frames[victim] == p;
        }
      }
    }
  }

  lemma OrderNext(m: nat, trace: seq<Page>, victims: seq<nat>, i: nat)
    requires m > 0 && Schedule(m, victims) && i < |victims| && i < |trace|
    requires SamePages(Run(m, trace, victims, i).frames, Order(m, trace, i))
    requires LeastRecentAt(m, trace, victims, i)
    ensures SamePages(Run(m, trace, victims, i + 1).frames, Order(m, trace, i + 1))
  {
    hide SamePages, SortedByUse, LeastRecentFrame;
    var mem, order := Run(m, trace, victims, i), Order(m, trace, i);
    OrderSorted(m, trace, i);
    if Evicts(m, trace, victims, i) {
      OldestIsFirst(trace, i, mem.frames, order, victims[i]);
    }
    SortedDistinct(trace, i, order);
    TouchSamePages(m, mem, order, trace[i], i, victims[i]);
  }

  lemma SortedDistinct(trace: seq<Page>, n: nat, order: seq<Page>)
    requires n <= |trace| && SortedByUse(trace, n, order)
    ensures Distinct(order)
  {
  }

  /** An LRU run holds exactly the pages of the recency list. */
  lemma {:induction false} RunIsOrder(m: nat, trace: seq<Page>, victims: seq<nat>, n: nat)
    requires m > 0 && Schedule(m, victims) && n <= |victims| && n <= |trace|
    requires LeastRecent(m, trace, victims, n)
    ensures SamePages(Run(m, trace, victims, n).frames, Order(m, trace, n))
  {
    if n > 0 {
      RunIsOrder(m, trace, victims, n - 1);
      assert LeastRecentAt(m, trace, victims, n - 1);
      OrderNext(m, trace, victims, n - 1);
    }
  }

  // ---------- inclusion ----------

  /** The list a for m frames is the tail of the list b for m' frames, whole until a is full. */
  ghost predicate Tail(m: nat, a: seq<Page>, b: seq<Page>) {
    && |a| <= m && |a| <= |b|
    && a == b[|b| - |a|..]
    && (|a| < m ==> a == b)
  }

  lemma IndexInTail(u: seq<Page>, a: seq<Page>, p: Page)
    requires Distinct(u + a) && p in a
    ensures p in u + a && IndexOf(u + a, p) == |u| + IndexOf(a, p)
  {
    assert (u + a)[|u| + IndexOf(a, p)] == p;
  }

  lemma IndexInFront(u: seq<Page>, a: seq<Page>, p: Page)
    requires p in u + a && p !in a
    ensures IndexOf(u + a, p) < |u|
  {
    assert forall j :: |u| <= j < |u + a| ==> (u + a)[j] in a;
  }

  lemma TouchInTail(m: nat, u: seq<Page>, a: seq<Page>, p: Page)
    requires 0 < m && |u + a| <= m && Distinct(u + a) && p in a
    ensures Touch(m, u + a, p) == u + (Remove(a, IndexOf(a, p)) + [p])
  {
    hide Distinct, IndexOf, Remove;
    IndexInTail(u, a, p);
    RemoveInTail(u, a, IndexOf(a, p));
    assert u + Remove(a, IndexOf(a, p)) + [p] == u + (Remove(a, IndexOf(a, p)) + [p]);
  }

  lemma RemoveInTail(u: seq<Page>, a: seq<Page>, k: nat)
    requires k < |a|
    ensures Remove(u + a, |u| + k) == u + Remove(a, k)
  {
  }

  lemma TouchOutsideTail(m: nat, u: seq<Page>, a: seq<Page>, p: Page) returns (v: seq<Page>)
    requires 0 < m && |u + a| <= m && u != [] && a != [] && p !in a
    ensures |v| > 0 && Touch(m, u + a, p) == v + (a[1..] + [p])
  {
    if p in u + a {
      IndexInFront(u, a, p);
      v := Remove(u, IndexOf(u + a, p)) + [a[0]];
    } else if |u + a| < m {
      v := u + [a[0]];
    } else {
      v := u[1..] + [a[0]];
    }
  }

  lemma TouchTail(m: nat, m': nat, a: seq<Page>, b: seq<Page>, p: Page)
    requires 0 < m <= m' && Tail(m, a, b) && |b| <= m' && Distinct(b)
    ensures Tail(m, Touch(m, a, p), Touch(m', b, p))
  {
    if a != b {
      var u := b[..|b| - |a|];
      assert b == u + a;
      if p in a {
        TouchInTail(m', u, a, p);
      } else {
        var v := TouchOutsideTail(m', u, a, p);
      }
    }
  }

  lemma EmptyTail(m: nat)
    ensures Tail(m, [], [])
  {
  }

  /** LRU is a stack algorithm. */
  lemma {:induction false} OrderTail(m: nat, m': nat, trace: seq<Page>, n: nat)
    requires 0 < m <= m' && n <= |trace|
    ensures Tail(m, Order(m, trace, n), Order(m', trace, n))
  {
    hide Tail, Touch, Distinct, SortedByUse;
    if n == 0 {
      EmptyTail(m);
    } else {
      OrderTail(m, m', trace, n - 1);
      OrderSorted(m', trace, n - 1);
      TouchTail(m, m', Order(m, trace, n - 1), Order(m', trace, n - 1), trace[n - 1]);
    }
  }

  /** LRU inclusion: after any prefix, the pages resident with m frames are resident with m' >= m frames. */
  lemma Inclusion(m: nat, m': nat, trace: seq<Page>, v: seq<nat>, v': seq<nat>, n: nat)
    requires 0 < m <= m' && Schedule(m, v) && Schedule(m', v')
    requires n <= |v| && n <= |v'| && n <= |trace|
    requires LeastRecent(m, trace, v, n) && LeastRecent(m', trace, v', n)
    ensures forall p :: p in Run(m, trace, v, n).frames ==> p in Run(m', trace, v', n).frames
  {
    RunIsOrder(m, trace, v, n);
    RunIsOrder(m', trace, v', n);
    OrderTail(m, m', trace, n);
  }

  /** More memory never costs LRU a miss (no Belady anomaly). */
  lemma {:induction false} MoreMemory(m: nat, m': nat, trace: seq<Page>, v: seq<nat>, v': seq<nat>, n: nat)
    requires 0 < m <= m' && Schedule(m, v) && Schedule(m', v')
    requires n <= |v| && n <= |v'| && n <= |trace|
    requires LeastRecent(m, trace, v, n) && LeastRecent(m', trace, v', n)
    ensures Run(m', trace, v', n).misses <= Run(m, trace, v, n).misses
  {
    if n > 0 {
      var i := n - 1;
      MissStep(m, trace, v, i);
      MissStep(m', trace, v', i);
      MoreMemory(m, m', trace, v, v', i);
      Inclusion(m, m', trace, v, v', i);
    }
  }
}
