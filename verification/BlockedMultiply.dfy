/**
 Matrix multiplication over blocked storage, and the plain triple loop it is a faster form of. Nothing is
 asked of addition and multiplication, so the results agree under rounding too.
 */
module BlockedMultiply {
  import opened BlockLayout

  /** What is done with matrix entries. */
  datatype Arithmetic<!T> = Arithmetic(zero: T, plus: (T, T) -> T, times: (T, T) -> T)

  // ---------- moving pointers ----------

  lemma BlkSteps(nb: nat, b: nat, p: nat, q: nat, i: nat, j: nat)
    ensures Blk(nb, b, p, q, i, j + 1) == Blk(nb, b, p, q, i, j) + 1
    ensures Blk(nb, b, p, q, i, b) == Blk(nb, b, p, q, i + 1, 0)
    ensures Blk(nb, b, p, q, b, 0) == Blk(nb, b, p, q + 1, 0, 0)
    ensures Blk(nb, b, p, nb, 0, 0) == Blk(nb, b, p + 1, 0, 0, 0)
  {
    JoinCarry(Join(Join(p, nb, q), b, i), b);
    JoinCarry(Join(p, nb, q), b);
    JoinCarry(p, nb);
  }

  lemma JoinCarry(q: nat, r: nat)
    ensures Join(q, r, r) == Join(q + 1, r, 0)
  {
  }

  lemma RowSteps(nb: nat, b: nat, p: nat, q: nat, i: nat, j: nat)
    ensures Row(nb, b, p, q, i, j + 1) == Row(nb, b, p, q, i, j) + 1
    ensures Row(nb, b, p, q, i, b) + nb * b == Row(nb, b, p, q, i + 1, 0) + b
  {
    var row := Join(p, b, i);
    assert Join(p, b, i + 1) == row + 1;
    RowForm(nb, b, row, q, b);
    RowForm(nb, b, row + 1, q, 0);
    assert (row + 1) * (nb * b) == row * (nb * b) + nb * b;
  }

  lemma BlockStart(nb: nat, b: nat, p: nat, q: nat)
    ensures p * b * (nb * b) + q * b == Row(nb, b, p, q, 0, 0)
    ensures Blk(nb, b, 0, 0, 0, 0) == 0
  {
    RowForm(nb, b, p * b, q, 0);
  }

  lemma LastBlock(nb: nat, b: nat)
    ensures Blk(nb, b, nb, 0, 0, 0) == Size(nb, b)
  {
    SizeForms(nb, b);
  }

  /** What To_blocked puts at the element it has reached. */
  lemma BlockedElement<T>(nb: nat, b: nat, rows: seq<T>, p: nat, q: nat, i: nat, j: nat)
    requires p < nb && q < nb && i < b && j < b && |rows| == Size(nb, b)
    ensures Row(nb, b, p, q, i, j) < |rows| && Blk(nb, b, p, q, i, j) < |rows|
    ensures ToBlocked(nb, b, rows)[Blk(nb, b, p, q, i, j)] == rows[Row(nb, b, p, q, i, j)]
    ensures FromBlocked(nb, b, rows)[Row(nb, b, p, q, i, j)] == rows[Blk(nb, b, p, q, i, j)]
  {
    hide Row, Blk, RowAt, BlkAt, Size;
    OffsetBounds(nb, b, p, q, i, j);
    AtDigits(nb, b, p, q, i, j);
  }

  /** Copies block (p, q) from row-major a to the next locations of t. */
  method CopyBlock<T>(a: array<T>, t: array<T>, nb: nat, b: nat, p: nat, q: nat, start: nat) returns (tp: nat)
    requires p < nb && q < nb && b > 0 && a != t && a.Length == t.Length == Size(nb, b)
    requires start == Blk(nb, b, p, q, 0, 0) <= t.Length
    requires forall x :: 0 <= x < start ==> t[x] == ToBlocked(nb, b, a[..])[x]
    modifies t
    ensures tp == Blk(nb, b, p, q + 1, 0, 0) <= t.Length
    ensures forall x :: 0 <= x < tp ==> t[x] == ToBlocked(nb, b, a[..])[x]
  {
    hide Row, Blk, Size, ToBlocked;
    ghost var blocks := ToBlocked(nb, b, a[..]);
    tp := start;
    var ap: int := p * b * (nb * b) + q * b;
    BlockStart(nb, b, p, q);
    for i := 0 to b
      invariant tp == Blk(nb, b, p, q, i, 0) <= t.Length && ap == Row(nb, b, p, q, i, 0)
      invariant forall x :: 0 <= x < tp ==> t[x] == blocks[x]
    {
      for j := 0 to b
        invariant tp == Blk(nb, b, p, q, i, j) <= t.Length && ap == Row(nb, b, p, q, i, j)
        invariant forall x :: 0 <= x < tp ==> t[x] == blocks[x]
      {
        BlockedElement(nb, b, a[..], p, q, i, j);
        BlkSteps(nb, b, p, q, i, j);
        RowSteps(nb, b, p, q, i, j);
        t[tp] := a[ap];
        tp := tp + 1;
        ap := ap + 1;
      }
      BlkSteps(nb, b, p, q, i, 0);
      RowSteps(nb, b, p, q, i, 0);
      ap := ap + (nb * b - b);
    }
    BlkSteps(nb, b, p, q, 0, 0);
  }

  /** The blocks of an n x n matrix cover it. */
  lemma WholeMatrix(n: nat, b: nat)
    requires b > 0 && n % b == 0
    ensures n / b * b == n && Size(n / b, b) == n * n
  {
  }

  /** To_blocked: from row-major to blocked storage, by way of a temporary. */
  method ToBlockedInPlace<T(0)>(a: array<T>, n: nat, b: nat)
    requires b > 0 && n % b == 0 && a.Length == n * n
    modifies a
    ensures a.Length == Size(n / b, b) && a[..] == ToBlocked(n / b, b, old(a[..]))
  {
    hide Row, Blk, Size, ToBlocked;
    var nb := n / b;
    WholeMatrix(n, b);
    var t := new T[n * n];
    var tp := 0;
    BlockStart(nb, b, 0, 0);
    for p := 0 to nb
      invariant tp == Blk(nb, b, p, 0, 0, 0) <= t.Length
      invariant forall x :: 0 <= x < tp ==> t[x] == ToBlocked(nb, b, a[..])[x]
      modifies t
    {
      for q := 0 to nb
        invariant tp == Blk(nb, b, p, q, 0, 0) <= t.Length
        invariant forall x :: 0 <= x < tp ==> t[x] == ToBlocked(nb, b, a[..])[x]
        modifies t
      {
        tp := CopyBlock(a, t, nb, b, p, q, tp);
      }
      BlkSteps(nb, b, p, 0, 0, 0);
    }
    LastBlock(nb, b);
    assert a[..] == old(a[..]);
    ghost var blocks := ToBlocked(nb, b, a[..]);
    assert t[..] == blocks;
    forall x | 0 <= x < a.Length {
      a[x] := t[x];
    }
    assert a[..] == blocks;
  }

  /** Copies the next locations of c into block (p, q) of row-major t. */
  method PlaceBlock<T>(c: array<T>, t: array<T>, nb: nat, b: nat, p: nat, q: nat, start: nat) returns (cp: nat)
    requires p < nb && q < nb && b > 0 && c != t && c.Length == t.Length == Size(nb, b)
    requires start == Blk(nb, b, p, q, 0, 0) <= t.Length
    requires Placed(nb, b, c[..], t[..], start)
    modifies t
    ensures cp == Blk(nb, b, p, q + 1, 0, 0) <= t.Length
    ensures Placed(nb, b, c[..], t[..], cp)
  {
    hide Row, Blk, Size, FromBlocked, Placed;
    cp := start;
    var tp: int := p * b * (nb * b) + q * b;
    BlockStart(nb, b, p, q);
    for i := 0 to b
      invariant cp == Blk(nb, b, p, q, i, 0) <= t.Length && tp == Row(nb, b, p, q, i, 0)
      invariant Placed(nb, b, c[..], t[..], cp)
    {
      for j := 0 to b
        invariant cp == Blk(nb, b, p, q, i, j) <= t.Length && tp == Row(nb, b, p, q, i, j)
        invariant Placed(nb, b, c[..], t[..], cp)
      {
        BlockedElement(nb, b, c[..], p, q, i, j);
        PlacedNext(nb, b, c[..], t[..], p, q, i, j);
        BlkSteps(nb, b, p, q, i, j);
        RowSteps(nb, b, p, q, i, j);
        ghost var before := t[..];
        t[tp] := c[cp];
        assert t[..] == before[tp := c[cp]];
        cp := cp + 1;
        tp := tp + 1;
      }
      BlkSteps(nb, b, p, q, i, 0);
      RowSteps(nb, b, p, q, i, 0);
      tp := tp + (nb * b - b);
    }
    BlkSteps(nb, b, p, q, 0, 0);
  }

  /** The first `done` blocked locations are in their row-major places. */
  ghost predicate Placed<T>(nb: nat, b: nat, blocks: seq<T>, rows: seq<T>, done: nat)
    requires nb > 0 && b > 0 && |blocks| == |rows| == Size(nb, b)
  {
    forall s :: 0 <= s < |rows| && BlkAt(nb, b, s) < done ==> rows[s] == FromBlocked(nb, b, blocks)[s]
  }

  lemma PlacedNext<T>(nb: nat, b: nat, blocks: seq<T>, rows: seq<T>, p: nat, q: nat, i: nat, j: nat)
    requires p < nb && q < nb && i < b && j < b && |blocks| == |rows| == Size(nb, b)
    requires Placed(nb, b, blocks, rows, Blk(nb, b, p, q, i, j))
    ensures Row(nb, b, p, q, i, j) < |rows| && Blk(nb, b, p, q, i, j) < |rows|
    ensures Placed(nb, b, blocks, rows[Row(nb, b, p, q, i, j) := blocks[Blk(nb, b, p, q, i, j)]],
                   Blk(nb, b, p, q, i, j) + 1)
  {
    hide Row, Blk, Size, FromBlocked, BlkAt, RowAt;
    BlockedElement(nb, b, blocks, p, q, i, j);
    AtDigits(nb, b, p, q, i, j);
    forall s | 0 <= s < |rows| && BlkAt(nb, b, s) == Blk(nb, b, p, q, i, j) ensures s == Row(nb, b, p, q, i, j) {
      OffsetRoundTrip(nb, b, s);
    }
  }

  lemma AllPlaced<T>(nb: nat, b: nat, blocks: seq<T>, rows: seq<T>)
    requires nb > 0 && b > 0 && |blocks| == |rows| == Size(nb, b) && Placed(nb, b, blocks, rows, Size(nb, b))
    ensures rows == FromBlocked(nb, b, blocks)
  {
    hide BlkAt, Size, FromBlocked;
    forall s | 0 <= s < |rows| ensures rows[s] == FromBlocked(nb, b, blocks)[s] {
      OffsetRoundTrip(nb, b, s);
    }
  }

  /** From_blocked: from blocked to row-major storage, by way of a temporary. */
  method FromBlockedInPlace<T(0)>(c: array<T>, n: nat, b: nat)
    requires b > 0 && n % b == 0 && c.Length == n * n
    modifies c
    ensures c.Length == Size(n / b, b) && c[..] == FromBlocked(n / b, b, old(c[..]))
  {
    hide Row, Blk, Size, FromBlocked, BlkAt, RowAt;
    var nb := n / b;
    WholeMatrix(n, b);
    var t := new T[n * n];
    var cp := 0;
    BlockStart(nb, b, 0, 0);
    for p := 0 to nb
      invariant cp == Blk(nb, b, p, 0, 0, 0) <= t.Length
      invariant nb > 0 ==> Placed(nb, b, c[..], t[..], cp)
      modifies t
    {
      for q := 0 to nb
        invariant cp == Blk(nb, b, p, q, 0, 0) <= t.Length
        invariant Placed(nb, b, c[..], t[..], cp)
        modifies t
      {
        cp := PlaceBlock(c, t, nb, b, p, q, cp);
      }
      BlkSteps(nb, b, p, 0, 0, 0);
    }
    LastBlock(nb, b);
    assert c[..] == old(c[..]);
    ghost var rows := FromBlocked(nb, b, c[..]);
    if nb > 0 {
      AllPlaced(nb, b, c[..], t[..]);
    }
    assert t[..] == rows;
    forall x | 0 <= x < c.Length {
      c[x] := t[x];
    }
    assert c[..] == rows;
  }

  // ---------- products ----------

  /** The offset of row i, column j. */
  function At(n: nat, i: nat, j: nat): (s: nat)
    requires i < n && j < n
    ensures s < n * n && Quot(s, n) == i && Rem(s, n) == j
  {
    JoinBound(i, n, n, j);
    Split(i, n, j);
    i * n + j
  }

  lemma Place(n: nat, s: nat)
    requires s < n * n
    ensures n > 0 && Quot(s, n) < n && Rem(s, n) < n && At(n, Quot(s, n), Rem(s, n)) == s
  {
    QuotBound(s, n, n);
    Joined(s, n);
  }

  /** Row i of x times column j of y, as far as the first k terms, added up in order. */
  function Dot<T>(ar: Arithmetic<T>, n: nat, x: seq<T>, y: seq<T>, i: nat, j: nat, k: nat): T
    requires |x| == |y| == n * n && i < n && j < n && k <= n
  {
    if k == 0 then ar.zero
    else ar.plus(Dot(ar, n, x, y, i, j, k - 1), ar.times(x[At(n, i, k - 1)], y[At(n, k - 1, j)]))
  }

  function Product<T>(ar: Arithmetic<T>, n: nat, x: seq<T>, y: seq<T>): (z: seq<T>)
    requires |x| == |y| == n * n
    ensures |z| == n * n
    ensures forall s :: 0 <= s < |z| ==> z[s] == DotAt(ar, n, x, y, s, n)
  {
    seq(n * n, s requires 0 <= s < n * n => DotAt(ar, n, x, y, s, n))
  }

  /** The first k terms of the entry at row-major offset s. */
  function DotAt<T>(ar: Arithmetic<T>, n: nat, x: seq<T>, y: seq<T>, s: nat, k: nat): T
    requires |x| == |y| == n * n && s < n * n && k <= n
  {
    Place(n, s);
    Dot(ar, n, x, y, Quot(s, n), Rem(s, n), k)
  }

  /** Mat_mult: the triple loop on row-major storage. */
  method MatMult<T>(ar: Arithmetic<T>, n: nat, a: array<T>, b: array<T>, c: array<T>)
    requires a.Length == b.Length == c.Length == n * n && a != c && b != c
    modifies c
    ensures c[..] == Product(ar, n, a[..], b[..])
  {
    hide At, Quot, Rem;
    ghost var x, y := a[..], b[..];
    for i := 0 to n
      invariant forall s :: 0 <= s < n * n && Quot(s, n) < i ==> c[s] == DotAt(ar, n, x, y, s, n)
    {
      for j := 0 to n
        invariant forall s :: 0 <= s < n * n && (Quot(s, n) < i || (Quot(s, n) == i && Rem(s, n) < j)) ==>
                    c[s] == DotAt(ar, n, x, y, s, n)
      {
        ghost var before := c[..];
        ghost var at := At(n, i, j);
        c[At(n, i, j)] := ar.zero;
        for k := 0 to n
          invariant c[at] == Dot(ar, n, x, y, i, j, k)
          invariant forall s :: 0 <= s < n * n && s != at ==> c[s] == before[s]
        {
          c[At(n, i, j)] := ar.plus(c[At(n, i, j)], ar.times(a[At(n, i, k)], b[At(n, k, j)]));
        }
        forall s | 0 <= s < n * n && Quot(s, n) == i && Rem(s, n) == j ensures s == at {
          Place(n, s);
        }
      }
    }
    forall s | 0 <= s < n * n ensures Quot(s, n) < n {
      Place(n, s);
    }
  }

  // ---------- the blocked product ----------

  /** The first k terms of the entry stored at blocked offset t. */
  function Partial<T>(ar: Arithmetic<T>, nb: nat, b: nat, x: seq<T>, y: seq<T>, t: nat, k: nat): T
    requires b > 0 && |x| == |y| == Size(nb, b) && t < Size(nb, b) && k <= nb * b
  {
    NotEmpty(nb, b);
    OffsetRoundTrip(nb, b, t);
    DotAt(ar, nb * b, x, y, RowAt(nb, b, t), k)
  }

  /** Digit i of block row p is row p * b + i. */
  function Line(b: nat, p: nat, i: nat): nat {
    p * b + i
  }

  lemma LineBelow(nb: nat, b: nat, p: nat, i: nat)
    requires p < nb && i < b
    ensures Line(b, p, i) < nb * b
  {
    JoinBound(p, nb, b, i);
  }

  lemma RowIsAt(nb: nat, b: nat, p: nat, q: nat, i: nat, j: nat)
    requires p < nb && q < nb && i < b && j < b
    ensures Line(b, p, i) < nb * b && Line(b, q, j) < nb * b
    ensures Row(nb, b, p, q, i, j) == At(nb * b, Line(b, p, i), Line(b, q, j))
  {
    LineBelow(nb, b, p, i);
    LineBelow(nb, b, q, j);
    RowForm(nb, b, Line(b, p, i), q, j);
  }

  lemma PartialIsDot<T>(ar: Arithmetic<T>, nb: nat, b: nat, x: seq<T>, y: seq<T>,
                        p: nat, q: nat, i: nat, j: nat, k: nat)
    requires p < nb && q < nb && i < b && j < b && |x| == |y| == Size(nb, b) && k <= nb * b
    ensures Blk(nb, b, p, q, i, j) < Size(nb, b) && Line(b, p, i) < nb * b && Line(b, q, j) < nb * b
    ensures Partial(ar, nb, b, x, y, Blk(nb, b, p, q, i, j), k) == Dot(ar, nb * b, x, y, Line(b, p, i), Line(b, q, j), k)
  {
    hide Row, Blk, At, RowAt, Quot, Rem, Line;
    OffsetBounds(nb, b, p, q, i, j);
    AtDigits(nb, b, p, q, i, j);
    RowIsAt(nb, b, p, q, i, j);
  }

  /** One more term, read from the blocked factors. */
  lemma NextTerm<T>(ar: Arithmetic<T>, nb: nat, b: nat, x: seq<T>, y: seq<T>,
                    p: nat, q: nat, r: nat, i: nat, j: nat, k: nat)
    requires p < nb && q < nb && r < nb && i < b && j < b && k < b && |x| == |y| == Size(nb, b)
    ensures Line(b, r, k) < nb * b && Line(b, p, i) < nb * b && Line(b, q, j) < nb * b
    ensures Blk(nb, b, p, r, i, k) < Size(nb, b) && Blk(nb, b, r, q, k, j) < Size(nb, b)
    ensures Dot(ar, nb * b, x, y, Line(b, p, i), Line(b, q, j), Line(b, r, k) + 1)
         == ar.plus(Dot(ar, nb * b, x, y, Line(b, p, i), Line(b, q, j), Line(b, r, k)),
                    ar.times(ToBlocked(nb, b, x)[Blk(nb, b, p, r, i, k)], ToBlocked(nb, b, y)[Blk(nb, b, r, q, k, j)]))
  {
    hide Row, Blk, At, ToBlocked, Line;
    BlockedElement(nb, b, x, p, r, i, k);
    BlockedElement(nb, b, y, r, q, k, j);
    RowIsAt(nb, b, p, r, i, k);
    RowIsAt(nb, b, r, q, k, j);
    RowIsAt(nb, b, p, q, i, j);
  }

  lemma LineCarry(b: nat, r: nat)
    ensures Line(b, r, b) == Line(b, r + 1, 0)
  {
  }

  /** The address of the first entry of block (p, q), and of entry (i, j) of the block that starts at base. */
  function Base(nb: nat, b: nat, p: nat, q: nat): nat {
    (p * nb + q) * (b * b)
  }

  function Within(base: nat, b: nat, i: nat, j: nat): nat {
    base + i * b + j
  }

  /** Where block (p, q) begins and ends. */
  lemma BlockSpan(nb: nat, b: nat, p: nat, q: nat)
    requires b > 0 && p < nb && q < nb
    ensures Base(nb, b, p, q) == Blk(nb, b, p, q, 0, 0) <= Blk(nb, b, p, q + 1, 0, 0) <= Size(nb, b)
    ensures Blk(nb, b, p, q, 0, 0) + b * b == Blk(nb, b, p, q + 1, 0, 0)
  {
    BlkForm(nb, b, p, q, 0, 0);
    BlkForm(nb, b, p, q + 1, 0, 0);
    assert (p * nb + q + 1) * (b * b) == (p * nb + q) * (b * b) + b * b;
    BlkForm(nb, b, p, q, b - 1, b - 1);
    assert (b - 1) * b + b == b * b;
    OffsetBounds(nb, b, p, q, b - 1, b - 1);
  }

  lemma InBlock(nb: nat, b: nat, p: nat, q: nat, i: nat, j: nat)
    requires p < nb && q < nb && i < b && j < b
    ensures Within(Base(nb, b, p, q), b, i, j) == Blk(nb, b, p, q, i, j) < Size(nb, b)
    ensures Blk(nb, b, p, q, i, j) < Blk(nb, b, p, q + 1, 0, 0)
  {
    BlkForm(nb, b, p, q, i, j);
    BlkForm(nb, b, p, q + 1, 0, 0);
    JoinBound(i, b, b, j);
    assert (p * nb + q + 1) * (b * b) == (p * nb + q) * (b * b) + b * b;
    OffsetBounds(nb, b, p, q, i, j);
  }

  /** The program's global matrices, in blocked storage, and its pointer to the current block of the result. */
  class Matrices<T> {
    const ar: Arithmetic<T>
    const nb: nat
    const b: nat
    const left: array<T>
    const right: array<T>
    const result: array<T>
    var cp: nat

    constructor (ar: Arithmetic<T>, n: nat, b: nat, left: array<T>, right: array<T>, result: array<T>)
      requires b > 0 && n % b == 0 && left.Length == right.Length == result.Length == n * n && left != result && right != result
      ensures Valid() && this.ar == ar && this.nb == n / b && this.b == b
      ensures this.left == left && this.right == right && this.result == result
    {
      this.ar, this.nb, this.b, this.left, this.right, this.result := ar, n / b, b, left, right, result;
      cp := 0;
      WholeMatrix(n, b);
    }

    ghost predicate Valid() {
      b > 0 && left.Length == right.Length == result.Length == Size(nb, b) && left != result && right != result
    }

    /** The factors are x and y, in blocked storage. */
    ghost predicate Factors(x: seq<T>, y: seq<T>)
      reads left, right
    {
      && Valid() && |x| == |y| == Size(nb, b)
      && left[..] == ToBlocked(nb, b, x) && right[..] == ToBlocked(nb, b, y)
    }

    /** Entries lo..hi of the result hold the first k terms. */
    ghost predicate Holds(x: seq<T>, y: seq<T>, lo: nat, hi: nat, k: nat)
      reads result
    {
      && Valid() && |x| == |y| == Size(nb, b) && hi <= Size(nb, b) && k <= nb * b
      && forall t :: lo <= t < hi ==> result[t] == Partial(ar, nb, b, x, y, t, k)
    }

    /** Zero_C: points cp at block (p, q) of the result and clears the block. */
    method ZeroC(p: nat, q: nat, ghost x: seq<T>, ghost y: seq<T>)
      requires Factors(x, y) && p < nb && q < nb
      modifies this`cp, result
      ensures cp == Blk(nb, b, p, q, 0, 0) && Holds(x, y, cp, Blk(nb, b, p, q + 1, 0, 0), 0)
      ensures forall t :: 0 <= t < cp && t < result.Length ==> result[t] == old(result[t])
    {
      hide Blk, Size, ToBlocked, Base;
      BlockSpan(nb, b, p, q);
      cp := Base(nb, b, p, q);
      forall t | cp <= t < cp + b * b {
        result[t] := ar.zero;
      }
      NoTerms(ar, nb, b, x, y);
    }

    /** Mult_add: adds the product of block (p, r) of the left factor and block (r, q) of the right to the current block. */
    method MultAdd(p: nat, q: nat, r: nat, ghost x: seq<T>, ghost y: seq<T>)
      requires Factors(x, y) && p < nb && q < nb && r < nb && cp == Blk(nb, b, p, q, 0, 0)
      requires Holds(x, y, cp, Blk(nb, b, p, q + 1, 0, 0), Line(b, r, 0))
      modifies result
      ensures Holds(x, y, cp, Blk(nb, b, p, q + 1, 0, 0), Line(b, r + 1, 0))
      ensures forall t :: 0 <= t < cp && t < result.Length ==> result[t] == old(result[t])
    {
      hide Blk, Size, ToBlocked, Line, Partial, Dot;
      LineCarry(b, r);
      RestOfLine(nb, b, r);
      BlockSpan(nb, b, p, q);
      ghost var end := Blk(nb, b, p, q + 1, 0, 0);
      BlkSteps(nb, b, p, q, 0, 0);
      for i := 0 to b
        invariant cp <= Blk(nb, b, p, q, i, 0) <= end
        invariant Holds(x, y, cp, Blk(nb, b, p, q, i, 0), Line(b, r, b))
        invariant Holds(x, y, Blk(nb, b, p, q, i, 0), end, Line(b, r, 0))
        invariant forall t :: 0 <= t < cp ==> result[t] == old(result[t])
      {
        for j := 0 to b
          invariant cp <= Blk(nb, b, p, q, i, j) <= end
          invariant Holds(x, y, cp, Blk(nb, b, p, q, i, j), Line(b, r, b))
          invariant Holds(x, y, Blk(nb, b, p, q, i, j), end, Line(b, r, 0))
          invariant forall t :: 0 <= t < cp ==> result[t] == old(result[t])
        {
          InBlock(nb, b, p, q, i, j);
          AddRow(p, q, r, i, j, x, y);
          BlkSteps(nb, b, p, q, i, j);
        }
        BlkSteps(nb, b, p, q, i, 0);
      }
      BlkSteps(nb, b, p, q, 0, 0);
    }

    /** The innermost loop: b more terms for one entry. */
    method AddRow(p: nat, q: nat, r: nat, i: nat, j: nat, ghost x: seq<T>, ghost y: seq<T>)
      requires Factors(x, y) && p < nb && q < nb && r < nb && i < b && j < b
      requires cp == Blk(nb, b, p, q, 0, 0) && Blk(nb, b, p, q, i, j) < Size(nb, b)
      requires Line(b, r, 0) <= nb * b && Line(b, r, b) <= nb * b
      requires result[Blk(nb, b, p, q, i, j)] == Partial(ar, nb, b, x, y, Blk(nb, b, p, q, i, j), Line(b, r, 0))
      modifies result
      ensures result[Blk(nb, b, p, q, i, j)] == Partial(ar, nb, b, x, y, Blk(nb, b, p, q, i, j), Line(b, r, b))
      ensures forall t :: 0 <= t < result.Length && t != Blk(nb, b, p, q, i, j) ==> result[t] == old(result[t])
    {
      hide Blk, ToBlocked, Line, Partial, Dot, Base, Within;
      var ap, bp := Base(nb, b, p, r), Base(nb, b, r, q);
      BlockSpan(nb, b, p, q);
      InBlock(nb, b, p, q, i, j);
      PartialIsDot(ar, nb, b, x, y, p, q, i, j, Line(b, r, 0));
      ghost var row, col, at := Line(b, p, i), Line(b, q, j), Blk(nb, b, p, q, i, j);
      for k := 0 to b
        invariant Line(b, r, k) <= nb * b && result[at] == Dot(ar, nb * b, x, y, row, col, Line(b, r, k))
        invariant forall t :: 0 <= t < result.Length && t != at ==> result[t] == old(result[t])
      {
        NextTerm(ar, nb, b, x, y, p, q, r, i, j, k);
        InBlock(nb, b, p, r, i, k);
        InBlock(nb, b, r, q, k, j);
        LineStep(b, r, k);
        var c := Within(cp, b, i, j);
        result[c] := ar.plus(result[c], ar.times(left[Within(ap, b, i, k)], right[Within(bp, b, k, j)]));
      }
      PartialIsDot(ar, nb, b, x, y, p, q, i, j, Line(b, r, b));
    }

    /** Blocked_mat_mult: the product of the factors, in blocked storage. */
    method BlockedMatMult(ghost x: seq<T>, ghost y: seq<T>)
      requires Factors(x, y)
      modifies this`cp, result
      ensures result[..] == ToBlocked(nb, b, Product(ar, nb * b, x, y))
    {
      hide Blk, Size, ToBlocked, Line, Partial, Product, RowAt;
      BlockStart(nb, b, 0, 0);
      for p := 0 to nb
        invariant Holds(x, y, 0, Blk(nb, b, p, 0, 0, 0), nb * b)
      {
        for q := 0 to nb
          invariant Holds(x, y, 0, Blk(nb, b, p, q, 0, 0), nb * b)
        {
          ZeroC(p, q, x, y);
          LineStart(nb, b);
          for r := 0 to nb
            invariant cp == Blk(nb, b, p, q, 0, 0)
            invariant Holds(x, y, 0, cp, nb * b) && Holds(x, y, cp, Blk(nb, b, p, q + 1, 0, 0), Line(b, r, 0))
          {
            MultAdd(p, q, r, x, y);
          }
        }
        BlkSteps(nb, b, p, 0, 0, 0);
      }
      LastBlock(nb, b);
      AllHeld(ar, nb, b, x, y, result[..]);
    }
  }

  lemma LineStart(nb: nat, b: nat)
    ensures Line(b, 0, 0) == 0 && Line(b, nb, 0) == nb * b
  {
  }

  lemma NoTerms<T>(ar: Arithmetic<T>, nb: nat, b: nat, x: seq<T>, y: seq<T>)
    requires b > 0 && |x| == |y| == Size(nb, b)
    ensures 0 <= nb * b && forall t :: 0 <= t < Size(nb, b) ==> Partial(ar, nb, b, x, y, t, 0) == ar.zero
  {
    hide RowAt, Size;
    forall t | 0 <= t < Size(nb, b) ensures Partial(ar, nb, b, x, y, t, 0) == ar.zero {
      NotEmpty(nb, b);
      OffsetRoundTrip(nb, b, t);
    }
  }

  /** When every entry has all its terms, the blocked product is there. */
  lemma AllHeld<T>(ar: Arithmetic<T>, nb: nat, b: nat, x: seq<T>, y: seq<T>, c: seq<T>)
    requires b > 0 && |x| == |y| == |c| == Size(nb, b)
    requires forall t :: 0 <= t < |c| ==> c[t] == Partial(ar, nb, b, x, y, t, nb * b)
    ensures c == ToBlocked(nb, b, Product(ar, nb * b, x, y))
  {
    hide RowAt, Dot, DotAt;
    forall t | 0 <= t < |c| ensures c[t] == ToBlocked(nb, b, Product(ar, nb * b, x, y))[t] {
      NotEmpty(nb, b);
      OffsetRoundTrip(nb, b, t);
    }
  }

  lemma LineStep(b: nat, r: nat, k: nat)
    ensures Line(b, r, k + 1) == Line(b, r, k) + 1
  {
  }

  lemma RestOfLine(nb: nat, b: nat, r: nat)
    requires r < nb
    ensures Line(b, r, b) <= nb * b && Line(b, r, 0) <= nb * b
  {
    Monotone(r + 1, nb, b);
  }

  /**
   The whole blocked program: factors and product converted to blocked storage and back. The result is
   that of the plain triple loop, entry for entry.
   */
  method Multiply<T(0)>(ar: Arithmetic<T>, n: nat, b: nat, left: array<T>, right: array<T>, result: array<T>)
    requires b > 0 && n % b == 0 && left.Length == right.Length == result.Length == n * n
    requires left != right && left != result && right != result
    modifies left, right, result
    ensures result[..] == Product(ar, n, old(left[..]), old(right[..]))
  {
    hide Size, ToBlocked, FromBlocked, Product;
    ghost var x, y := left[..], right[..];
    WholeMatrix(n, b);
    ToBlockedInPlace(left, n, b);
    ToBlockedInPlace(right, n, b);
    var program := new Matrices(ar, n, b, left, right, result);
    program.BlockedMatMult(x, y);
    FromBlockedInPlace(result, n, b);
    LayoutRoundTrip(n / b, b, Product(ar, n, x, y));
  }
}
