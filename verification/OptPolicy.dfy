/**
 The OPT policy as a whole: it reads the trace ahead of the run, then keeps the chain of
 resident pages in step with the references.
 */
module OptPolicy {
  import opened Paging
  import opened Belady
  import opened OptLists

  /** One node per page: nodes[i] stands for the page referenced at i. */
  ghost predicate NodePerPage(nodes: seq<Vaddr>, trace: seq<Page>)
    requires |nodes| <= |trace|
  {
    && (forall i :: 0 <= i < |nodes| ==> nodes[i].virtualAddr == trace[i])
    && forall i, j :: 0 <= i < |nodes| && 0 <= j < |nodes| ==> SameNode(nodes, trace, i, j)
  }

  ghost predicate SameNode(nodes: seq<Vaddr>, trace: seq<Page>, i: nat, j: nat)
    requires i < |nodes| && j < |nodes| <= |trace|
  {
    trace[i] == trace[j] ==> nodes[i] == nodes[j]
  }

  /** Every node's queue holds exactly the positions start..end of its page. */
  ghost predicate Queued(nodes: seq<Vaddr>, trace: seq<Page>, start: nat, end: nat)
    requires start <= end <= |trace|
    reads nodes`occurrences
  {
    forall x :: x in nodes ==> QueueOf(x, trace, start, end)
  }

  ghost predicate QueueOf(x: Vaddr, trace: seq<Page>, start: nat, end: nat)
    requires start <= end <= |trace|
    reads x`occurrences
  {
    x.occurrences == Occurrences(trace, start, end, x.virtualAddr)
  }

  ghost predicate Buckets(hashmap: seq<seq<Vaddr>>, nodes: seq<Vaddr>) {
    && |hashmap| > 0
    && (forall b, x :: 0 <= b < |hashmap| && x in hashmap[b] ==> x in nodes)
    && forall x :: x in nodes ==> x in hashmap[x.virtualAddr % |hashmap|]
  }

  lemma OneNodePerPage(nodes: seq<Vaddr>, trace: seq<Page>, node: Vaddr)
    requires |nodes| < |trace| && NodePerPage(nodes, trace) && node.virtualAddr == trace[|nodes|]
    requires node in nodes || forall x :: x in nodes ==> x.virtualAddr != node.virtualAddr
    ensures NodePerPage(nodes + [node], trace)
  {
    forall i | 0 <= i < |nodes| && trace[i] == trace[|nodes|] ensures nodes[i] == node {
      assert nodes[i] in nodes && nodes[i].virtualAddr == node.virtualAddr;
      var j :| 0 <= j < |nodes| && nodes[j] == node;
      assert SameNode(nodes, trace, i, j);
    }
    var all := nodes + [node];
    forall i, j | 0 <= i < |all| && 0 <= j < |all| ensures SameNode(all, trace, i, j) {
      assert i < |nodes| && j < |nodes| ==> SameNode(nodes, trace, i, j);
    }
  }

  /** The node read last is the only one of its page. */
  lemma OnlyNode(nodes: seq<Vaddr>, trace: seq<Page>, node: Vaddr)
    requires |nodes| < |trace| && NodePerPage(nodes + [node], trace)
    ensures forall x :: x in nodes && x.virtualAddr == node.virtualAddr ==> x == node
    ensures forall i :: 0 <= i < |nodes| && trace[i] == node.virtualAddr ==> node in nodes
  {
    var all := nodes + [node];
    forall i | 0 <= i < |nodes| && trace[i] == trace[|nodes|] ensures nodes[i] == node {
      assert SameNode(all, trace, i, |nodes|);
    }
    forall i | 0 <= i < |nodes| ensures nodes[i].virtualAddr == trace[i] {
      assert all[i] == nodes[i];
    }
    assert all[|nodes|] == node;
  }

  lemma NoOccurrences(trace: seq<Page>, n: nat, p: Page)
    requires n <= |trace| && forall i :: 0 <= i < n ==> trace[i] != p
    ensures Occurrences(trace, 0, n, p) == []
  {
    OccurrencesExact(trace, 0, n, p);
  }

  class OptPolicy {
    const hashmap: array<seq<Vaddr>>
    const resident: OptChain
    var referenceString: seq<Vaddr>
    var position: nat
    ghost const trace: seq<Page>

    /** The queues hold what is still to come from `position` on. */
    ghost predicate Readable()
      reads this`referenceString, this`position, referenceString`occurrences
    {
      && |referenceString| == |trace| && position <= |trace|
      && NodePerPage(referenceString, trace)
      && Queued(referenceString, trace, position, |trace|)
    }

    /** The chain holds nodes of the trace, sorted; a node names a frame exactly when it is on the chain. */
    ghost predicate Valid()
      reads this, resident, resident.chain, referenceString
    {
      && Readable()
      && resident.Valid() && Sorted(resident.chain)
      && (forall j :: 0 <= j < |resident.chain| ==> resident.chain[j] in referenceString)
      && forall x :: x in referenceString ==> (x.frameNumber == -1 <==> x !in resident.chain)
    }

    /** The chain lists every frame but `hole`, each under the node of the page it holds. */
    ghost predicate Tracks(frames: seq<Page>, hole: int)
      reads this, resident, resident.chain
    {
      && (forall x :: x in resident.chain ==>
            0 <= x.frameNumber < |frames| && x.frameNumber != hole && frames[x.frameNumber] == x.virtualAddr)
      && forall f :: 0 <= f < |frames| && f != hole ==> Listed(f)
    }

    ghost predicate Listed(f: nat)
      reads this, resident, resident.chain
    {
      exists x :: x in resident.chain && x.frameNumber == f
    }

    // ---------- building ----------

    /** opt_init: an empty hash map, then one pass over the trace. */
    constructor (trace: seq<Page>, memsize: nat)
      requires memsize > 0
      ensures Valid() && this.trace == trace && position == 0 && resident.chain == []
      ensures fresh(hashmap) && fresh(resident) && fresh(set x | x in referenceString)
    {
      this.trace := trace;
      hashmap := new seq<Vaddr>[memsize](_ => []);
      resident := new OptChain();
      referenceString := [];
      position := 0;
      new;
      while position < |trace|
        invariant Building(position) && hashmap.Length == memsize
        invariant fresh(hashmap) && fresh(resident) && fresh(set x | x in referenceString)
        decreases |trace| - position
      {
        Record(trace[position]);
      }
      position := 0;
    }

    /** What holds while the trace is read: the first n references are recorded. */
    ghost predicate Building(n: nat)
      reads this, hashmap, resident, resident.chain, referenceString
    {
      && n <= |trace| && |referenceString| == n == position && hashmap.Length > 0
      && NodePerPage(referenceString, trace)
      && Queued(referenceString, trace, 0, n)
      && Buckets(hashmap[..], referenceString)
      && resident.Valid() && resident.chain == []
      && forall x :: x in referenceString ==> x.frameNumber == -1
    }

    method AddOccuranceSequence(node: Vaddr, position: nat)
      modifies node`occurrences
      ensures node.occurrences == old(node.occurrences) + [position]
    {
      node.occurrences := node.occurrences + [position];
    }

    /** Where the chain walk of one bucket stops. */
    method Search(bucket: seq<Vaddr>, vaddrNumber: Page) returns (j: nat)
      requires bucket != []
      ensures j < |bucket|
      ensures bucket[j].virtualAddr != vaddrNumber ==> forall x :: x in bucket ==> x.virtualAddr != vaddrNumber
    {
      j := 0;
      while j + 1 < |bucket| && bucket[j].virtualAddr != vaddrNumber
        invariant 0 <= j < |bucket|
        invariant forall i :: 0 <= i < j ==> bucket[i].virtualAddr != vaddrNumber
      {
        j := j + 1;
      }
    }

    /** The node of an address: the recorded one if there is one, else a new one, put in the hash bucket. */
    method VaddrRecord(position: nat, vaddrNumber: Page, index: nat) returns (node: Vaddr)
      requires hashmap.Length > 0 && Buckets(hashmap[..], referenceString)
      requires index == vaddrNumber % hashmap.Length
      modifies hashmap, referenceString`occurrences
      ensures node.virtualAddr == vaddrNumber && (fresh(node) ==> node.frameNumber == -1)
      ensures fresh(node) || node in referenceString
      ensures fresh(node) ==> forall x :: x in referenceString ==> x.virtualAddr != vaddrNumber
      ensures node.occurrences == (if fresh(node) then [] else old(node.occurrences)) + [position]
      ensures forall x :: x in referenceString && x != node ==> x.occurrences == old(x.occurrences)
      ensures Buckets(hashmap[..], referenceString + [node])
    {
      var bucket := hashmap[index];
      var j := 0;
      if bucket != [] {
        j := Search(bucket, vaddrNumber);
      }
      if bucket == [] || bucket[j].virtualAddr != vaddrNumber {
        node := new Vaddr(vaddrNumber);
        AddOccuranceSequence(node, position);
        hashmap[index] := bucket + [node];
        NewInBucket(old(hashmap[..]), referenceString, index, node);
        assert hashmap[..] == old(hashmap[..])[index := bucket + [node]];
      } else {
        node := bucket[j];
        assert node in old(hashmap[..])[index] && node in referenceString;
        AddOccuranceSequence(node, position);
        assert forall x :: x in referenceString + [node] ==> x in referenceString;
      }
    }

    lemma NewInBucket(buckets: seq<seq<Vaddr>>, nodes: seq<Vaddr>, index: nat, node: Vaddr)
      requires Buckets(buckets, nodes) && index == node.virtualAddr % |buckets|
      ensures Buckets(buckets[index := buckets[index] + [node]], nodes + [node])
    {
      var next, all := buckets[index := buckets[index] + [node]], nodes + [node];
      assert all[|nodes|] == node && forall x :: x in nodes ==> x in all;
      assert next[index][|buckets[index]|] == node;
      forall b, x | 0 <= b < |next| && x in next[b] ensures x in all {
        assert x != node ==> x in buckets[b];
      }
      forall x | x in all ensures x in next[x.virtualAddr % |next|] {
        assert x != node ==> x in buckets[x.virtualAddr % |buckets|];
      }
    }

    /** Reading reference number `position`: its node is found or made, and goes into the reference string. */
    method Record(virtualAddr: Page)
      requires Building(position) && position < |trace| && virtualAddr == trace[position]
      modifies this`referenceString, this`position, hashmap, referenceString`occurrences
      ensures Building(position) && position == old(position) + 1
      ensures fresh(set x | x in referenceString && x !in old(referenceString))
    {
      hide NodePerPage, Buckets, Queued;
      ghost var nodes := referenceString;
      var node := VaddrRecord(position, virtualAddr, virtualAddr % hashmap.Length);
      OneNodePerPage(nodes, trace, node);
      OnlyNode(nodes, trace, node);
      NodesQueued(nodes, node);
      referenceString := referenceString + [node];
      position := position + 1;
    }

    /** Appending position n to the queue of its own page's node accounts for one more reference. */
    twostate lemma NodesQueued(nodes: seq<Vaddr>, new node: Vaddr)
      requires old(position) < |trace| && old(Queued(nodes, trace, 0, position))
      requires node.virtualAddr == trace[old(position)]
      requires forall i :: 0 <= i < old(position) && trace[i] == node.virtualAddr ==> node in nodes
      requires forall x :: x in nodes && x != node ==>
                 x.occurrences == old(x.occurrences) && x.virtualAddr != node.virtualAddr
      requires node.occurrences == (if fresh(node) then [] else old(node.occurrences)) + [old(position)]
      requires fresh(node) <==> node !in nodes
      ensures Queued(nodes + [node], trace, 0, old(position) + 1)
    {
      forall x | x in nodes + [node] ensures QueueOf(x, trace, 0, old(position) + 1) {
        if x in nodes {
          assert old(QueueOf(x, trace, 0, position));
        } else {
          NoOccurrences(trace, old(position), node.virtualAddr);
        }
      }
    }

    // ---------- running ----------

    lemma NodeNextUse(x: Vaddr)
      requires Readable() && x in referenceString
      ensures NextUse(trace, position, x.virtualAddr) == if x.occurrences == [] then |trace| else x.occurrences[0]
    {
      assert QueueOf(x, trace, position, |trace|);
      OccurrencesNext(trace, position, x.virtualAddr);
    }

    /** The head of the chain is used again last. */
    lemma HeadIsFurthest(frames: seq<Page>)
      requires Valid() && Tracks(frames, -1) && resident.chain != []
      ensures FurthestFrame(trace, position, frames, resident.chain[0].frameNumber)
    {
      var head := resident.chain[0];
      NodeNextUse(head);
      forall f | 0 <= f < |frames|
        ensures NextUse(trace, position, frames[f]) <= NextUse(trace, position, head.virtualAddr)
      {
        assert Listed(f);
        var x :| x in resident.chain && x.frameNumber == f;
        NodeNextUse(x);
        var j :| 0 <= j < |resident.chain| && resident.chain[j] == x;
        assert j > 0 ==> Before(head, x);
      }
    }

    lemma NodesDiffer(x: Vaddr, y: Vaddr)
      requires Readable() && x in referenceString && y in referenceString && x.virtualAddr == y.virtualAddr
      ensures x == y
    {
      var i :| 0 <= i < |referenceString| && referenceString[i] == x;
      var j :| 0 <= j < |referenceString| && referenceString[j] == y;
      assert SameNode(referenceString, trace, i, j);
    }

    method Evict(ghost frames: seq<Page>) returns (result: int)
      requires Valid() && Tracks(frames, -1) && frames != []
      modifies resident, resident.chain`frameNumber
      ensures Valid() && position == old(position) && referenceString == old(referenceString)
      ensures 0 <= result < |frames| && FurthestFrame(trace, position, frames, result)
      ensures Tracks(frames, result)
    {
      assert Listed(0);
      ghost var head := resident.chain[0];
      HeadIsFurthest(frames);
      forall x | x in resident.chain && x.frameNumber == head.frameNumber ensures x == head {
        NodesDiffer(x, head);
      }
      result := EvictHead();
      forall f | 0 <= f < |frames| && f != result ensures Listed(f) {
        assert old(Listed(f));
        var x :| x in old(resident.chain) && old(x.frameNumber) == f;
        assert x in resident.chain && x.frameNumber == f;
      }
    }

    method EvictHead() returns (result: int)
      requires Valid() && resident.chain != []
      modifies resident, resident.chain`frameNumber
      ensures Valid() && position == old(position) && referenceString == old(referenceString)
      ensures result == old(resident.chain[0].frameNumber)
      ensures forall x :: x in resident.chain <==> x in old(resident.chain) && x != old(resident.chain)[0]
      ensures forall x :: x in resident.chain ==> x.frameNumber == old(x.frameNumber)
    {
      ghost var chain := resident.chain;
      result := resident.Evict();
      assert forall x :: x in chain <==> x in resident.chain || x == chain[0];
    }

    /** As Valid, with `node` taken out of the chain and waiting to be put in its place. */
    ghost predicate Ready(node: Vaddr)
      reads this, resident, resident.chain, referenceString
    {
      && Readable()
      && resident.Valid() && Sorted(resident.chain)
      && (forall j :: 0 <= j < |resident.chain| ==> resident.chain[j] in referenceString)
      && node in referenceString && node !in resident.chain && node.frameNumber != -1
      && forall x :: x in referenceString && x != node ==> (x.frameNumber == -1 <==> x !in resident.chain)
    }

    /** No two pages are used next at the same position. */
    lemma NextUsesDiffer(x: Vaddr, y: Vaddr)
      requires Readable() && x in referenceString && y in referenceString && x != y
      requires x.occurrences != [] && y.occurrences != []
      ensures x.occurrences[0] != y.occurrences[0]
    {
      assert QueueOf(x, trace, position, |trace|) && QueueOf(y, trace, position, |trace|);
      OccurrencesExact(trace, position, |trace|, x.virtualAddr);
      OccurrencesExact(trace, position, |trace|, y.virtualAddr);
      if x.virtualAddr == y.virtualAddr {
        NodesDiffer(x, y);
      }
    }

    lemma UsesDiffer(node: Vaddr)
      requires Ready(node)
      ensures forall x :: x in resident.chain && x.occurrences != [] && node.occurrences != [] ==>
                x.occurrences[0] != node.occurrences[0]
    {
      forall x | x in resident.chain && x.occurrences != [] && node.occurrences != []
        ensures x.occurrences[0] != node.occurrences[0]
      {
        NextUsesDiffer(x, node);
      }
    }

    method Place(node: Vaddr)
      requires Ready(node)
      modifies resident, referenceString`nextInFrame
      ensures Valid() && position == old(position) && referenceString == old(referenceString)
      ensures forall x :: x in resident.chain <==> x in old(resident.chain) || x == node
    {
      UsesDiffer(node);
      resident.AddToCoremap(node);
      assert forall j :: 0 <= j < |resident.chain| ==> resident.chain[j] in resident.chain;
    }

    /** The reference at `position` leaves its page's queue. */
    method Advance() returns (node: Vaddr)
      requires Readable() && position < |trace|
      modifies this`position, referenceString`occurrences
      ensures Readable() && position == old(position) + 1 && node == referenceString[old(position)]
      ensures forall x :: x in referenceString && x != node ==> x.occurrences == old(x.occurrences)
    {
      node := referenceString[position];
      ghost var i := position;
      forall x | x in referenceString
        ensures x.occurrences == (if x == node then [i] else []) + Occurrences(trace, i + 1, |trace|, x.virtualAddr)
      {
        assert QueueOf(x, trace, i, |trace|);
        OccurrencesPop(trace, i, |trace|, x.virtualAddr);
        if x.virtualAddr == trace[i] {
          NodesDiffer(x, node);
        }
      }
      position := position + 1;
      if node.occurrences != [] {
        node.occurrences := node.occurrences[1..];
      }
      forall x | x in referenceString ensures QueueOf(x, trace, position, |trace|) {
      }
    }

    method TakeOut(node: Vaddr)
      requires Readable() && resident.Valid() && node in resident.chain && SortedBut(resident.chain, node)
      requires forall j :: 0 <= j < |resident.chain| ==> resident.chain[j] in referenceString
      requires forall x :: x in referenceString ==> (x.frameNumber == -1 <==> x !in resident.chain)
      modifies resident, referenceString`nextInFrame
      ensures Ready(node) && position == old(position) && referenceString == old(referenceString)
      ensures forall x :: x in resident.chain <==> x in old(resident.chain) && x != node
    {
      forall x | x in resident.chain && x.virtualAddr == node.virtualAddr ensures x == node {
        NodesDiffer(x, node);
      }
      resident.TakeOut(node);
      assert forall j :: 0 <= j < |resident.chain| ==> resident.chain[j] in resident.chain;
    }

    /** Puts the node of the page just referenced where its next use says, on the chain or not before. */
    method Reposition(node: Vaddr, frame: nat)
      requires Readable() && resident.Valid() && node in referenceString && SortedBut(resident.chain, node)
      requires forall j :: 0 <= j < |resident.chain| ==> resident.chain[j] in referenceString
      requires forall x :: x in referenceString ==> (x.frameNumber == -1 <==> x !in resident.chain)
      modifies resident, referenceString`nextInFrame, node`frameNumber
      ensures Valid() && position == old(position) && referenceString == old(referenceString)
      ensures forall x :: x in resident.chain <==> x in old(resident.chain) || x == node
      ensures node.frameNumber == if node in old(resident.chain) then old(node.frameNumber) else frame
    {
      if node.frameNumber == -1 {
        node.frameNumber := frame;
        SortedKept(resident.chain);
      } else {
        TakeOut(node);
      }
      Place(node);
    }

    /** opt_ref: `frame` is the frame the page table entry of the referenced page names. */
    method Ref(frame: nat, ghost frames: seq<Page>)
      requires Valid() && position < |trace| && frame < |frames| && frames[frame] == trace[position]
      requires Tracks(frames, Hole(frame))
      modifies this`position, referenceString, resident
      ensures Valid() && Tracks(frames, -1)
      ensures position == old(position) + 1 && referenceString == old(referenceString)
    {
      hide Queued;
      ghost var hole := Hole(frame);
      assert referenceString[position] in referenceString;
      var node := Advance();
      Reposition(node, frame);
      forall f | 0 <= f < |frames| ensures Listed(f) {
        if f == hole {
          assert node in resident.chain && node.frameNumber == f;
        } else {
          assert old(Listed(f));
          var x :| x in old(resident.chain) && old(x.frameNumber) == f;
          assert x in resident.chain && x.frameNumber == f;
        }
      }
    }

    /** The chain tracks the frames after the referenced page has been put in its frame, too. */
    lemma Lands(frames: seq<Page>, next: seq<Page>, frame: nat)
      requires Valid() && position < |trace| && frame < |next| && next[frame] == trace[position]
      requires if trace[position] in frames then next == frames && Tracks(frames, -1)
               else if frame == |frames| then next == frames + [trace[position]] && Tracks(frames, -1)
               else frame < |frames| && next == frames[frame := trace[position]] && Tracks(frames, frame)
      ensures Tracks(next, Hole(frame))
    {
      var node := referenceString[position];
      assert node in referenceString;
      if trace[position] in frames {
        assert Listed(frame);
        var x :| x in resident.chain && x.frameNumber == frame;
        NodesDiffer(x, node);
      }
    }

    /** A page that is not on the chain has just been put in `frame`, which the chain does not list yet. */
    ghost function Hole(frame: nat): int
      requires position < |referenceString|
      reads this, resident
    {
      if referenceString[position] in resident.chain then -1 else frame
    }
  }
}
