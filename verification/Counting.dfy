/** Counting the true entries of a sequence of flags, one flag per page frame. */
module Counting {

  function Count(marks: seq<bool>): (c: nat)
    ensures c <= |marks|
  {
    if marks == [] then 0
    else Count(marks[..|marks| - 1]) + (if marks[|marks| - 1] then 1 else 0)
  }

  lemma {:induction false} CountUpdate(marks: seq<bool>, k: nat, mark: bool)
    requires k < |marks|
    ensures Count(marks[k := mark])
         == Count(marks) - (if marks[k] then 1 else 0) + (if mark then 1 else 0)
    decreases |marks|
  {
    var n := |marks| - 1;
    if k == n {
      assert marks[k := mark][..n] == marks[..n];
    } else {
      CountUpdate(marks[..n], k, mark);
      assert marks[k := mark][..n] == marks[..n][k := mark];
    }
  }

  lemma CountAppend(marks: seq<bool>, mark: bool)
    ensures Count(marks + [mark]) == Count(marks) + (if mark then 1 else 0)
  {
    assert (marks + [mark])[..|marks|] == marks;
  }

  lemma {:induction false} CountFull(marks: seq<bool>)
    requires forall k :: 0 <= k < |marks| ==> marks[k]
    ensures Count(marks) == |marks|
    decreases |marks|
  {
    if marks != [] {
      CountFull(marks[..|marks| - 1]);
    }
  }

  lemma CountMissing(marks: seq<bool>, k: nat)
    requires k < |marks| && !marks[k]
    ensures Count(marks) <= |marks| - 1
  {
    CountUpdate(marks, k, true);
  }

  lemma CountPresent(marks: seq<bool>, k: nat)
    requires k < |marks| && marks[k]
    ensures Count(marks) >= 1
  {
    CountUpdate(marks, k, false);
  }

  lemma {:induction false} CountNone(marks: seq<bool>)
    requires forall k :: 0 <= k < |marks| ==> !marks[k]
    ensures Count(marks) == 0
    decreases |marks|
  {
    if marks != [] {
      CountNone(marks[..|marks| - 1]);
    }
  }

  /** More flags set is a larger count. */
  lemma {:induction false} CountMore(a: seq<bool>, b: seq<bool>)
    requires |a| == |b| && forall k :: 0 <= k < |a| && a[k] ==> b[k]
    ensures Count(a) <= Count(b) && (Count(a) == Count(b) ==> a == b)
    decreases |a|
  {
    var n := |a| - 1;
    if a != [] {
      CountMore(a[..n], b[..n]);
      assert a == a[..n] + [a[n]] && b == b[..n] + [b[n]];
    }
  }
}
