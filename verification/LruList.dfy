/**
 The exact-LRU policy: a doubly linked list threaded through the page frames, from the least
 recently referenced frame at the head to the most recently referenced one at the tail.
 Frames point to each other by index, NULL being no frame.
 */
module LruList {
  import opened Distinctness
  import opened Recency

  const NULL := -1

  /** The links spell out `order`. The head may point back to nothing or to itself. */
  ghost predicate Linked(order: seq<nat>, head: int, tail: int, next: seq<int>, previous: seq<int>) {
    && LinkedBut(order, head, tail, next, previous, NULL)
    && head == (if order == [] then NULL else order[0])
  }

  /** As Linked, save that frame x, not on the list, may still carry old links. */
  ghost predicate LinkedBut(order: seq<nat>, head: int, tail: int, next: seq<int>, previous: seq<int>, x: int) {
    && |next| == |previous|
    && (forall j :: 0 <= j < |order| ==> order[j] < |next|)
    && Distinct(order) && x !in order
    && head == (if order == [] then NULL else order[0])
    && tail == (if order == [] then NULL else order[|order| - 1])
    && (forall j :: 0 <= j < |order| - 1 ==> next[order[j]] == order[j + 1])
    && (forall j :: 1 <= j < |order| ==> previous[order[j]] == order[j - 1])
    && (order != [] ==> next[tail] == NULL && previous[head] in {NULL, head})
    && (forall f :: 0 <= f < |next| && f !in order && f != x ==> next[f] == NULL && previous[f] == NULL)
  }

  lemma DropKeeps(order: seq<nat>, head: int, tail: int, next: seq<int>, previous: seq<int>)
    requires Linked(order, head, tail, next, previous) && |order| > 1
    ensures |next| == |previous| && order[1] < |next|
  {
  }

  lemma DropHead(order: seq<nat>, head: int, tail: int, next: seq<int>, previous: seq<int>)
    requires Linked(order, head, tail, next, previous) && |order| > 1
    ensures next[head] == order[1]
    ensures LinkedBut(order[1..], order[1], tail, next, previous[order[1] := NULL], head)
  {
    var rest := order[1..];
    assert next[order[0]] == order[1];
    assert forall j :: 0 <= j < |rest| ==> rest[j] == order[j + 1];
    forall f | 0 <= f < |next| && f !in rest && f != head ensures next[f] == NULL && previous[f] == NULL {
      assert f !in order;
    }
  }

  /** Clearing the links of the frame taken off completes its removal; the last frame leaves nothing linked. */
  lemma Unlink(order: seq<nat>, head: int, tail: int, next: seq<int>, previous: seq<int>, x: nat)
    requires LinkedBut(order, head, tail, next, previous, x) && x < |next|
    ensures Linked(order, head, tail, next[x := NULL], previous[x := NULL])
  {
    hide Distinct;
    forall j | 0 <= j < |order| ensures order[j] != x {
      assert order[j] in order;
    }
  }

  lemma UnlinkLast(order: seq<nat>, head: int, tail: int, next: seq<int>, previous: seq<int>)
    requires Linked(order, head, tail, next, previous) && |order| == 1
    ensures head < |next| && Linked([], NULL, NULL, next[head := NULL], previous[head := NULL])
  {
  }

  lemma LoneLinked(head: int, tail: int, next: seq<int>, previous: seq<int>, x: nat)
    requires Linked([x], head, tail, next, previous)
    ensures tail == x < |next| == |previous|
    ensures Linked([x], head, x, next[x := x][x := NULL], previous[x := x])
  {
  }

  lemma Unlisted(order: seq<nat>, head: int, tail: int, next: seq<int>, previous: seq<int>, x: int)
    requires Linked(order, head, tail, next, previous) && x !in order
    ensures LinkedBut(order, head, tail, next, previous, x)
  {
  }

  lemma HeadOf(order: seq<nat>, head: int, tail: int, next: seq<int>, previous: seq<int>)
    requires Linked(order, head, tail, next, previous) && order != []
    ensures |next| == |previous| && 0 <= head < |next| && 0 <= tail < |next| && head == order[0]
    ensures head == tail <==> |order| == 1
  {
    assert |order| > 1 ==> order[0] != order[|order| - 1];
  }

  lemma DropMiddle(order: seq<nat>, head: int, tail: int, next: seq<int>, previous: seq<int>, k: nat)
    requires Linked(order, head, tail, next, previous) && 0 < k < |order| - 1
    ensures next[order[k]] == order[k + 1] && previous[order[k]] == order[k - 1]
    ensures LinkedBut(Remove(order, k), head, tail,
                      next[order[k - 1] := order[k + 1]], previous[order[k + 1] := order[k - 1]], order[k])
  {
    DropMiddleRest(order, k, |next|);
    DropForward(order, next, k);
    DropBackward(order, previous, k);
  }

  lemma DropForward(order: seq<nat>, next: seq<int>, k: nat)
    requires Distinct(order) && 0 < k < |order| - 1 && forall j :: 0 <= j < |order| ==> order[j] < |next|
    requires forall j :: 0 <= j < |order| - 1 ==> next[order[j]] == order[j + 1]
    ensures var rest, next' := Remove(order, k), next[order[k - 1] := order[k + 1]];
            forall j :: 0 <= j < |rest| - 1 ==> rest[j] < |next| && next'[rest[j]] == rest[j + 1]
  {
    var rest, next' := Remove(order, k), next[order[k - 1] := order[k + 1]];
    forall j | 0 <= j < |rest| - 1 ensures rest[j] < |next| && next'[rest[j]] == rest[j + 1] {
      var j' := if j < k then j else j + 1;
      assert rest[j] == order[j'];
      assert next[order[j']] == order[j' + 1];
    }
  }

  lemma DropBackward(order: seq<nat>, previous: seq<int>, k: nat)
    requires Distinct(order) && 0 < k < |order| - 1 && forall j :: 0 <= j < |order| ==> order[j] < |previous|
    requires forall j :: 1 <= j < |order| ==> previous[order[j]] == order[j - 1]
    ensures var rest, previous' := Remove(order, k), previous[order[k + 1] := order[k - 1]];
            forall j :: 1 <= j < |rest| ==> rest[j] < |previous| && previous'[rest[j]] == rest[j - 1]
  {
    var rest, previous' := Remove(order, k), previous[order[k + 1] := order[k - 1]];
    forall j | 1 <= j < |rest| ensures rest[j] < |previous| && previous'[rest[j]] == rest[j - 1] {
      var j' := if j < k then j else j + 1;
      assert rest[j] == order[j'];
      assert previous[order[j']] == order[j' - 1];
    }
  }

  lemma DropMiddleRest(order: seq<nat>, k: nat, size: nat)
    requires Distinct(order) && k < |order| && forall j :: 0 <= j < |order| ==> order[j] < size
    ensures Distinct(Remove(order, k)) && order[k] !in Remove(order, k)
    ensures forall j :: 0 <= j < |order| - 1 ==> Remove(order, k)[j] < size
    ensures forall f :: f in order && f != order[k] ==> f in Remove(order, k)
  {
    var rest := Remove(order, k);
    assert forall j :: 0 <= j < k ==> rest[j] == order[j];
    assert forall j :: k <= j < |rest| ==> rest[j] == order[j + 1];
    forall f | f in order && f != order[k] ensures f in rest {
      var j :| 0 <= j < |order| && order[j] == f;
      assert rest[if j < k then j else j - 1] == f;
    }
  }

  lemma Append(order: seq<nat>, head: int, tail: int, next: seq<int>, previous: seq<int>, x: nat)
    requires LinkedBut(order, head, tail, next, previous, x) && order != [] && x < |next|
    ensures Linked(order + [x], head, x, next[tail := x][x := NULL], previous[x := tail])
  {
    var all := order + [x];
    assert forall j :: 0 <= j < |order| ==> all[j] == order[j];
    assert forall f :: f in order ==> f in all;
  }

  lemma HeadToTail(order: seq<nat>, head: int, tail: int, next: seq<int>, previous: seq<int>)
    requires Linked(order, head, tail, next, previous) && |order| > 1
    ensures next[head] == order[1]
    ensures Linked(MoveToEnd(order, head), order[1], head,
                   next[tail := head][head := NULL], previous[order[1] := NULL][head := tail])
  {
    assert IndexOf(order, head) == 0;
    assert MoveToEnd(order, head) == order[1..] + [head];
    DropHead(order, head, tail, next, previous);
    Append(order[1..], order[1], tail, next, previous[order[1] := NULL], head);
  }

  class LruList {
    const next: array<int>
    const previous: array<int>
    var head: int
    var tail: int
    ghost var order: seq<nat>

    ghost predicate Valid()
      reads this, next, previous
    {
      && next != previous
      && Linked(order, head, tail, next[..], previous[..])
    }

    constructor Init(memsize: nat)
      ensures Valid() && fresh(next) && fresh(previous)
      ensures next.Length == memsize && order == []
    {
      next := new int[memsize];
      previous := new int[memsize];
      head := NULL;
      tail := NULL;
      order := [];
      new;
      for i := 0 to memsize
        invariant head == NULL && tail == NULL && order == []
        invariant forall f :: 0 <= f < i ==> next[f] == NULL && previous[f] == NULL
      {
        next[i] := NULL;
        previous[i] := NULL;
      }
    }

    /** Takes the head off the list; `frame` is what the head's page table entry says its number is. */
    method Evict(frame: nat) returns (victim: nat)
      requires Valid() && order != [] && frame == order[0]
      modifies this, next, previous
      ensures Valid()
      ensures victim == old(order)[0] && order == old(order)[1..]
    {
      hide Linked, LinkedBut;
      victim := frame;
      ghost var forward, back := next[..], previous[..];
      HeadOf(order, head, tail, forward, back);
      if head != tail {
        DropHead(order, head, tail, forward, back);
        DropKeeps(order, head, tail, forward, back);
        Unlink(order[1..], order[1], tail, forward, back[order[1] := NULL], head);
        head := next[head];
        previous[head] := NULL;
        back := back[head := NULL];
      } else {
        UnlinkLast(order, head, tail, forward, back);
        assert order[1..] == [];
        head := NULL;
        tail := NULL;
      }
      next[victim] := NULL;
      previous[victim] := NULL;
      order := order[1..];
      assert next[..] == forward[victim := NULL] && previous[..] == back[victim := NULL];
    }

    /** A reference to a frame makes it the tail. */
    method Ref(frame: nat)
      requires Valid() && frame < next.Length
      modifies this, next, previous
      ensures Valid() && order == MoveToEnd(old(order), frame)
    {
      if next[frame] == NULL && previous[frame] == NULL {
        if head == NULL {
          head := frame;
          tail := frame;
          order := [frame];
        } else {
          RefNew(frame);
        }
      } else if head == tail {
        LoneOrder(frame);
      } else if head == frame {
        RefHead(frame);
      } else if tail == frame {
        TailIsLast(frame);
      } else {
        RefMiddle(frame);
      }
    }

    lemma LoneOrder(frame: nat)
      requires Valid() && frame < next.Length && head == tail && head != NULL && frame in order
      ensures order == [frame] == MoveToEnd(order, frame)
    {
    }

    lemma TailIsLast(frame: nat)
      requires Valid() && tail == frame && frame in order
      ensures order == MoveToEnd(order, frame)
    {
      assert IndexOf(order, frame) == |order| - 1;
    }

    /** A frame without links goes to the end; the only listed frame comes to point back to itself. */
    method RefNew(frame: nat)
      requires Valid() && frame < next.Length && order != []
      requires next[frame] == NULL && previous[frame] == NULL
      modifies this, next, previous
      ensures Valid() && order == MoveToEnd(old(order), frame)
    {
      hide Linked, LinkedBut, Distinct;
      HeadOf(order, head, tail, next[..], previous[..]);
      if frame in order {
        NoLinksIsLone(frame);
        LoneLinked(head, tail, next[..], previous[..], frame);
      } else {
        Unlisted(order, head, tail, next[..], previous[..], frame);
        Append(order, head, tail, next[..], previous[..], frame);
      }
      LinkAtTail(frame);
      order := MoveToEnd(order, frame);
    }

    lemma NoLinksIsLone(frame: nat)
      requires Valid() && frame in order && frame < next.Length
      requires next[frame] == NULL && previous[frame] == NULL
      ensures order == [frame] == MoveToEnd(order, frame)
    {
      forall j | 0 <= j < |order| - 1 ensures order[j] != frame {
        assert next[order[j]] == order[j + 1];
      }
      forall j | 1 <= j < |order| ensures order[j] != frame {
        assert previous[order[j]] == order[j - 1];
      }
    }

    method LinkAtTail(frame: nat)
      requires next != previous && next.Length == previous.Length
      requires frame < next.Length && 0 <= tail < next.Length
      modifies this`tail, next, previous
      ensures next[..] == old(next[..])[old(tail) := frame][frame := NULL]
      ensures previous[..] == old(previous[..])[frame := old(tail)]
      ensures tail == frame
    {
      next[tail] := frame;
      previous[frame] := tail;
      next[frame] := NULL;
      tail := frame;
    }

    method RefHead(frame: nat)
      requires Valid() && |order| > 1 && order[0] == frame && frame < next.Length
      modifies this, next, previous
      ensures Valid() && order == MoveToEnd(old(order), frame)
    {
      HeadToTail(order, head, tail, next[..], previous[..]);
      head := next[head];
      previous[head] := NULL;
      assert previous[..] == old(previous[..])[order[1] := NULL];
      LinkAtTail(frame);
      order := MoveToEnd(order, frame);
    }

    method RefMiddle(frame: nat)
      requires Valid() && frame in order && frame < next.Length && head != frame && tail != frame
      modifies this, next, previous
      ensures Valid() && order == MoveToEnd(old(order), frame)
    {
      ghost var k := IndexOf(order, frame);
      DropMiddle(order, head, tail, next[..], previous[..], k);
      previous[next[frame]] := previous[frame];
      next[previous[frame]] := next[frame];
      assert previous[..] == old(previous[..])[order[k + 1] := order[k - 1]];
      assert next[..] == old(next[..])[order[k - 1] := order[k + 1]];
      order := Remove(order, k);
      Append(order, head, tail, next[..], previous[..], frame);
      LinkAtTail(frame);
      order := order + [frame];
    }
  }
}
