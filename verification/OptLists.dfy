/**
 The OPT policy: one node per page of the trace, carrying the positions at which the page is
 still to be referenced, and a chain of the resident pages from never or furthest used again
 to soonest used again.
 */
module OptLists {
  import opened Paging
  import opened Belady

  /** The positions start..end at which p is referenced, in increasing order. */
  function Occurrences(trace: seq<Page>, start: nat, end: nat, p: Page): seq<nat>
    requires start <= end <= |trace|
    decreases end
  {
    if start == end then []
    else Occurrences(trace, start, end - 1, p) + (if trace[end - 1] == p then [end - 1] else [])
  }

  lemma {:induction false} OccurrencesExact(trace: seq<Page>, start: nat, end: nat, p: Page)
    requires start <= end <= |trace|
    ensures var positions := Occurrences(trace, start, end, p);
            && (forall j :: 0 <= j < |positions| ==> start <= positions[j] < end && trace[positions[j]] == p)
            && (forall j, k :: 0 <= j < k < |positions| ==> positions[j] < positions[k])
            && forall i :: start <= i < end && trace[i] == p ==> i in positions
    decreases end
  {
    if start < end {
      OccurrencesExact(trace, start, end - 1, p);
      var earlier, positions := Occurrences(trace, start, end - 1, p), Occurrences(trace, start, end, p);
      assert forall j :: 0 <= j < |earlier| ==> positions[j] == earlier[j];
      assert |positions| > |earlier| ==> positions[|earlier|] == end - 1 && |positions| == |earlier| + 1;
      forall i | start <= i < end && trace[i] == p ensures i in positions {
        if i < end - 1 {
          assert i in earlier;
          var j :| 0 <= j < |earlier| && earlier[j] == i;
          assert positions[j] == i;
        }
      }
    }
  }

  /** Passing position `start` takes it off the front of its own page's queue and no other. */
  lemma {:induction false} OccurrencesPop(trace: seq<Page>, start: nat, end: nat, p: Page)
    requires start < end <= |trace|
    ensures Occurrences(trace, start, end, p)
         == (if trace[start] == p then [start] else []) + Occurrences(trace, start + 1, end, p)
    decreases end
  {
    if start + 1 < end {
      OccurrencesPop(trace, start, end - 1, p);
    } else {
      assert Occurrences(trace, start, start, p) == [];
    }
  }

  /** The front of the queue is the next use of the page. */
  lemma OccurrencesNext(trace: seq<Page>, start: nat, p: Page)
    requires start <= |trace|
    ensures var positions := Occurrences(trace, start, |trace|, p);
            NextUse(trace, start, p) == if positions == [] then |trace| else positions[0]
  {
    var positions, next := Occurrences(trace, start, |trace|, p), NextUse(trace, start, p);
    OccurrencesExact(trace, start, |trace|, p);
    if next < |trace| {
      assert next in positions;
      assert trace[positions[0]] == p;
    }
  }

  class Vaddr {
    const virtualAddr: Page
    var nextInFrame: Vaddr?
    var frameNumber: int
    var occurrences: seq<nat>

    constructor (virtualAddr: Page)
      ensures this.virtualAddr == virtualAddr && nextInFrame == null && frameNumber == -1 && occurrences == []
    {
      this.virtualAddr := virtualAddr;
      nextInFrame := null;
      frameNumber := -1;
      occurrences := [];
    }
  }

  ghost predicate DistinctNodes(chain: seq<Vaddr>) {
    forall j, k :: 0 <= j < k < |chain| ==> chain[j] != chain[k]
  }

  ghost predicate Chained(chain: seq<Vaddr>, head: Vaddr?)
    reads chain`nextInFrame
  {
    && DistinctNodes(chain)
    && head == (if chain == [] then null else chain[0])
    && forall j :: 0 <= j < |chain| ==> Links(chain, j)
  }

  ghost predicate Links(chain: seq<Vaddr>, j: nat)
    requires j < |chain|
    reads chain`nextInFrame
  {
    chain[j].nextInFrame == Successor(chain, j)
  }

  ghost function Successor(chain: seq<Vaddr>, j: nat): Vaddr?
    requires j < |chain|
  {
    if j + 1 < |chain| then chain[j + 1] else null
  }

  /** x may stand before y in the chain: x is never used again, or is used again later than y is. */
  ghost predicate Before(x: Vaddr, y: Vaddr)
    reads x`occurrences, y`occurrences
  {
    x.occurrences == [] || (y.occurrences != [] && x.occurrences[0] > y.occurrences[0])
  }

  ghost predicate Sorted(chain: seq<Vaddr>)
    reads chain`occurrences
  {
    forall j, k :: 0 <= j < k < |chain| ==> Before(chain[j], chain[k])
  }

  ghost function Insert(chain: seq<Vaddr>, k: nat, node: Vaddr): seq<Vaddr>
    requires k <= |chain|
  {
    chain[..k] + [node] + chain[k..]
  }

  ghost function Delete(chain: seq<Vaddr>, k: nat): seq<Vaddr>
    requires k < |chain|
  {
    chain[..k] + chain[k + 1..]
  }

  twostate lemma SortedKept(chain: seq<Vaddr>)
    requires old(Sorted(chain))
    requires forall j :: 0 <= j < |chain| ==> chain[j].occurrences == old(chain[j].occurrences)
    ensures Sorted(chain)
  {
    forall j, k | 0 <= j < k < |chain| ensures Before(chain[j], chain[k]) {
      assert old(Before(chain[j], chain[k]));
    }
  }

  /** Sorted but for where `node` stands. */
  ghost predicate SortedBut(chain: seq<Vaddr>, node: Vaddr)
    reads chain`occurrences
  {
    forall j, k :: 0 <= j < k < |chain| && chain[j] != node && chain[k] != node ==> Before(chain[j], chain[k])
  }

  lemma DeleteDistinct(chain: seq<Vaddr>, k: nat)
    requires k < |chain| && DistinctNodes(chain)
    ensures DistinctNodes(Delete(chain, k))
  {
    var shorter := Delete(chain, k);
    assert forall j :: 0 <= j < k ==> shorter[j] == chain[j];
    assert forall j :: k <= j < |shorter| ==> shorter[j] == chain[j + 1];
  }

  lemma DeleteSorted(chain: seq<Vaddr>, k: nat)
    requires k < |chain| && DistinctNodes(chain) && SortedBut(chain, chain[k])
    ensures Sorted(Delete(chain, k))
    ensures forall x :: x in Delete(chain, k) <==> x in chain && x != chain[k]
  {
    var shorter := Delete(chain, k);
    forall i, j | 0 <= i < j < |shorter| ensures Before(shorter[i], shorter[j]) {
      var i', j' := if i < k then i else i + 1, if j < k then j else j + 1;
      assert shorter[i] == chain[i'] && shorter[j] == chain[j'];
    }
    assert chain == chain[..k] + [chain[k]] + chain[k + 1..];
  }

  lemma InsertMembers(chain: seq<Vaddr>, k: nat, node: Vaddr)
    requires k <= |chain|
    ensures forall x :: x in Insert(chain, k, node) <==> x in chain || x == node
  {
    assert chain == chain[..k] + chain[k..];
  }

  lemma InsertDistinct(chain: seq<Vaddr>, k: nat, node: Vaddr)
    requires DistinctNodes(chain) && k <= |chain| && node !in chain
    ensures DistinctNodes(Insert(chain, k, node))
  {
    var longer := Insert(chain, k, node);
    assert forall j :: 0 <= j < k ==> longer[j] == chain[j];
    assert forall j :: k < j < |longer| ==> longer[j] == chain[j - 1];
  }

  lemma InsertSorted(chain: seq<Vaddr>, k: nat, node: Vaddr)
    requires Sorted(chain) && k <= |chain|
    requires forall j :: 0 <= j < k ==> Before(chain[j], node)
    requires forall j :: k <= j < |chain| ==> Before(node, chain[j])
    ensures Sorted(Insert(chain, k, node))
  {
    var longer := Insert(chain, k, node);
    assert forall j :: 0 <= j < k ==> longer[j] == chain[j];
    assert forall j :: k < j < |longer| ==> longer[j] == chain[j - 1];
  }

  lemma LinksAfterHead(chain: seq<Vaddr>)
    requires chain != [] && DistinctNodes(chain) && forall j :: 0 <= j < |chain| ==> Links(chain, j)
    ensures Chained(chain[1..], chain[0].nextInFrame)
  {
    assert Links(chain, 0);
    forall j | 0 <= j < |chain| - 1 ensures Links(chain[1..], j) {
      assert Links(chain, j + 1);
    }
  }

  class OptChain {
    var coremapHead: Vaddr?
    ghost var chain: seq<Vaddr>

    ghost predicate Valid()
      reads this, chain
    {
      Chained(chain, coremapHead)
    }

    constructor ()
      ensures Valid() && chain == []
    {
      coremapHead := null;
      chain := [];
    }

    method Evict() returns (result: int)
      requires Valid() && chain != []
      modifies this, chain`frameNumber
      ensures Valid() && chain == old(chain)[1..]
      ensures result == old(chain[0].frameNumber) && old(chain)[0].frameNumber == -1
      ensures forall j :: 1 <= j < |old(chain)| ==> old(chain)[j].frameNumber == old(chain[j].frameNumber)
    {
      assert Links(chain, 0);
      result := coremapHead.frameNumber;
      coremapHead.frameNumber := -1;
      coremapHead := coremapHead.nextInFrame;
      LinksAfterHead(chain);
      chain := chain[1..];
    }

    /** Sorted insertion: the node goes before the first page that is used again later than it is not. */
    method AddToCoremap(node: Vaddr)
      requires Valid() && Sorted(chain) && node !in chain
      requires forall x :: x in chain && x.occurrences != [] && node.occurrences != [] ==>
                 x.occurrences[0] != node.occurrences[0]
      modifies this, node`nextInFrame, chain`nextInFrame
      ensures Valid() && Sorted(chain)
      ensures forall x :: x in chain <==> x in old(chain) || x == node
    {
      if coremapHead == null || node.occurrences == [] {
        PushFront(node);
      } else if coremapHead.occurrences != [] && node.occurrences[0] > coremapHead.occurrences[0] {
        assert forall j :: 0 < j < |chain| ==> Before(chain[0], chain[j]);
        PushFront(node);
      } else {
        AddBehindHead(node);
      }
    }

    /** The head stays ahead of the node; keep looking. */
    method AddBehindHead(node: Vaddr)
      requires Valid() && Sorted(chain) && node !in chain && chain != [] && Before(chain[0], node)
      requires node.occurrences != []
      requires forall x :: x in chain && x.occurrences != [] ==> x.occurrences[0] != node.occurrences[0]
      modifies this, node`nextInFrame, chain`nextInFrame
      ensures Valid() && Sorted(chain)
      ensures forall x :: x in chain <==> x in old(chain) || x == node
    {
      var current := coremapHead;
      ghost var k := 0;
      assert Links(chain, k);
      while current.nextInFrame != null
            && (current.nextInFrame.occurrences == []
                || current.nextInFrame.occurrences[0] > node.occurrences[0])
        invariant 0 <= k < |chain| && current == chain[k]
        invariant current.nextInFrame == Successor(chain, k)
        invariant forall j :: 0 <= j <= k ==> Before(chain[j], node)
        decreases |chain| - k
      {
        assert Links(chain, k);
        current := current.nextInFrame;
        k := k + 1;
        assert Links(chain, k);
      }
      assert Links(chain, k);
      assert forall j :: k + 1 < j < |chain| ==> Before(chain[k + 1], chain[j]);
      InsertAfter(current, k, node);
    }

    method PushFront(node: Vaddr)
      requires Valid() && Sorted(chain) && node !in chain
      requires forall j :: 0 <= j < |chain| ==> Before(node, chain[j])
      modifies this, node`nextInFrame
      ensures Valid() && Sorted(chain)
      ensures forall x :: x in chain <==> x in old(chain) || x == node
    {
      InsertSorted(chain, 0, node);
      InsertMembers(chain, 0, node);
      node.nextInFrame := coremapHead;
      coremapHead := node;
      ghost var longer := Insert(chain, 0, node);
      chain := longer;
      forall j | 0 <= j < |longer| ensures Links(chain, j) {
        if j > 0 {
          assert old(Links(chain, j - 1)) && longer[j] == old(chain)[j - 1];
        }
      }
    }

    method InsertAfter(current: Vaddr, ghost k: nat, node: Vaddr)
      requires Valid() && Sorted(chain) && node !in chain
      requires k < |chain| && current == chain[k]
      requires forall j :: 0 <= j <= k ==> Before(chain[j], node)
      requires forall j :: k < j < |chain| ==> Before(node, chain[j])
      modifies this, node`nextInFrame, current`nextInFrame
      ensures Valid() && Sorted(chain)
      ensures forall x :: x in chain <==> x in old(chain) || x == node
    {
      ghost var longer := Insert(chain, k + 1, node);
      InsertSorted(chain, k + 1, node);
      InsertMembers(chain, k + 1, node);
      LinkAfter(current, k, node);
      SortedKept(longer);
    }

    method LinkAfter(current: Vaddr, ghost k: nat, node: Vaddr)
      requires Valid() && node !in chain
      requires k < |chain| && current == chain[k]
      modifies this, node`nextInFrame, current`nextInFrame
      ensures Valid() && chain == Insert(old(chain), k + 1, node)
    {
      ghost var longer := Insert(chain, k + 1, node);
      InsertDistinct(chain, k + 1, node);
      ghost var successor := Successor(chain, k);
      assert Links(chain, k);
      node.nextInFrame := current.nextInFrame;
      current.nextInFrame := node;
      chain := longer;
      forall j | 0 <= j < |longer| ensures Links(chain, j) {
        if j < k {
          assert old(Links(chain, j)) && longer[j] == old(chain)[j] && longer[j + 1] == old(chain)[j + 1];
        } else if j > k + 1 {
          assert old(Links(chain, j - 1)) && longer[j] == old(chain)[j - 1];
        } else if j == k {
          assert longer[j] == current && Successor(longer, j) == node;
        } else {
          assert longer[j] == node && Successor(longer, j) == successor;
        }
      }
    }

    /** Nodes are told apart by their address, which no two nodes of the chain share. */
    method RemoveFromCoremap(node: Vaddr, ghost at: nat)
      requires Valid() && at < |chain| && chain[at] == node
      requires forall x :: x in chain && x.virtualAddr == node.virtualAddr ==> x == node
      modifies this, chain`nextInFrame
      ensures Valid() && chain == Delete(old(chain), at)
    {
      if coremapHead.virtualAddr == node.virtualAddr {
        assert Links(chain, 0);
        coremapHead := coremapHead.nextInFrame;
        chain := Delete(chain, 0);
        forall j | 0 <= j < |chain| ensures Links(chain, j) {
          assert old(Links(chain, j + 1));
        }
      } else {
        var current := coremapHead;
        ghost var k := 0;
        assert Links(chain, k);
        while current.nextInFrame.virtualAddr != node.virtualAddr
          invariant 0 <= k < at && current == chain[k] && current.nextInFrame == chain[k + 1]
          decreases |chain| - k
        {
          current := current.nextInFrame;
          k := k + 1;
          assert Links(chain, k);
        }
        DeleteAfter(current, k, node);
      }
    }

    /** Removal puts a chain in order when only the removed node was out of place. */
    method TakeOut(node: Vaddr)
      requires Valid() && node in chain && SortedBut(chain, node)
      requires forall x :: x in chain && x.virtualAddr == node.virtualAddr ==> x == node
      modifies this, chain`nextInFrame
      ensures Valid() && Sorted(chain)
      ensures forall x :: x in chain <==> x in old(chain) && x != node
    {
      ghost var k :| 0 <= k < |chain| && chain[k] == node;
      ghost var shorter := Delete(chain, k);
      DeleteSorted(chain, k);
      RemoveFromCoremap(node, k);
      SortedKept(shorter);
    }

    method DeleteAfter(current: Vaddr, ghost k: nat, node: Vaddr)
      requires Valid() && k + 1 < |chain| && current == chain[k] && node == chain[k + 1]
      modifies this, chain`nextInFrame
      ensures Valid() && chain == Delete(old(chain), k + 1)
    {
      assert Links(chain, k) && Links(chain, k + 1);
      current.nextInFrame := current.nextInFrame.nextInFrame;
      node.nextInFrame := null;
      DeleteDistinct(chain, k + 1);
      ghost var shorter := Delete(chain, k + 1);
      chain := shorter;
      forall j | 0 <= j < |shorter| ensures Links(chain, j) {
        if j < k {
          assert old(Links(chain, j)) && shorter[j] == old(chain)[j] && shorter[j + 1] == old(chain)[j + 1];
        } else if j > k {
          assert old(Links(chain, j + 1)) && shorter[j] == old(chain)[j + 1];
        } else {
          assert shorter[k] == current && Successor(shorter, k) == Successor(old(chain), k + 1);
        }
      }
    }
  }
}
