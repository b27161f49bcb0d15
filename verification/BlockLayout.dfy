/**
 Row-major and blocked storage of an n x n matrix with n = nb * b. Element (i, j) of block (p, q) has the
 digits p, i, q, j in its row-major offset and p, q, i, j in its blocked one.
 */
module BlockLayout {

  // ---------- digits ----------

  function Join(q: nat, r: nat, d: nat): nat {
    q * r + d
  }

  function Quot(x: nat, r: nat): nat
    requires r > 0
  {
    x / r
  }

  function Rem(x: nat, r: nat): (d: nat)
    requires r > 0
    ensures d < r
  {
    x % r
  }

  function Times(a: nat, c: nat): nat {
    a * c
  }

  /** The digit joined last comes off again. */
  lemma Split(q: nat, r: nat, d: nat)
    requires d < r
    ensures Quot(Join(q, r, d), r) == q && Rem(Join(q, r, d), r) == d
  {
    var k := (q * r + d) / r;
    if k < q {
      Monotone(k + 1, q, r);
    } else if k > q {
      Monotone(q + 1, k, r);
    }
  }

  lemma Monotone(a: nat, c: nat, r: nat)
    requires a <= c
    ensures a * r <= c * r
  {
  }

  lemma Joined(x: nat, r: nat)
    requires r > 0
    ensures Join(Quot(x, r), r, Rem(x, r)) == x
  {
  }

  /** One more digit stays below one more radix. */
  lemma JoinBound(q: nat, top: nat, r: nat, d: nat)
    requires q < top && d < r
    ensures Join(q, r, d) < Times(top, r)
  {
    Monotone(q + 1, top, r);
  }

  lemma QuotBound(x: nat, top: nat, r: nat)
    requires r > 0 && x < Times(top, r)
    ensures Quot(x, r) < top
  {
    if top <= x / r {
      Monotone(top, x / r, r);
      assert false;
    }
  }

  // ---------- offsets ----------

  function Row(nb: nat, b: nat, p: nat, q: nat, i: nat, j: nat): nat {
    Join(Join(Join(p, b, i), nb, q), b, j)
  }

  function Blk(nb: nat, b: nat, p: nat, q: nat, i: nat, j: nat): nat {
    Join(Join(Join(p, nb, q), b, i), b, j)
  }

  /** The number of elements, n * n. */
  function Size(nb: nat, b: nat): nat {
    nb * b * (nb * b)
  }

  lemma SizeForms(nb: nat, b: nat)
    ensures Size(nb, b) == Times(Times(Times(nb, b), nb), b) == Times(Times(Times(nb, nb), b), b)
  {
  }

  lemma OffsetBounds(nb: nat, b: nat, p: nat, q: nat, i: nat, j: nat)
    requires p < nb && q < nb && i < b && j < b
    ensures Row(nb, b, p, q, i, j) < Size(nb, b)
    ensures Blk(nb, b, p, q, i, j) < Size(nb, b)
  {
    hide Join, Times, Size;
    JoinBound(p, nb, b, i);
    JoinBound(Join(p, b, i), Times(nb, b), nb, q);
    JoinBound(Join(Join(p, b, i), nb, q), Times(Times(nb, b), nb), b, j);
    JoinBound(p, nb, nb, q);
    JoinBound(Join(p, nb, q), Times(nb, nb), b, i);
    JoinBound(Join(Join(p, nb, q), b, i), Times(Times(nb, nb), b), b, j);
    SizeForms(nb, b);
  }

  // ---------- from one layout to the other ----------

  /** The row-major offset of what is at blocked offset t. */
  function RowAt(nb: nat, b: nat, t: nat): (s: nat)
    requires nb > 0 && b > 0
  {
    var block := Quot(Quot(t, b), b);
    Row(nb, b, Quot(block, nb), Rem(block, nb), Rem(Quot(t, b), b), Rem(t, b))
  }

  /** The blocked offset of what is at row-major offset s. */
  function BlkAt(nb: nat, b: nat, s: nat): (t: nat)
    requires nb > 0 && b > 0
  {
    var row := Quot(Quot(s, b), nb);
    Blk(nb, b, Quot(row, b), Rem(Quot(s, b), nb), Rem(row, b), Rem(s, b))
  }

  lemma AtDigits(nb: nat, b: nat, p: nat, q: nat, i: nat, j: nat)
    requires q < nb && i < b && j < b
    ensures RowAt(nb, b, Blk(nb, b, p, q, i, j)) == Row(nb, b, p, q, i, j)
    ensures BlkAt(nb, b, Row(nb, b, p, q, i, j)) == Blk(nb, b, p, q, i, j)
  {
    hide Join, Quot, Rem;
    Split(Join(Join(p, nb, q), b, i), b, j);
    Split(Join(p, nb, q), b, i);
    Split(p, nb, q);
    Split(Join(Join(p, b, i), nb, q), b, j);
    Split(Join(p, b, i), nb, q);
    Split(p, b, i);
  }

  /** Every blocked offset has its digits. */
  lemma BlkDigits(nb: nat, b: nat, t: nat) returns (p: nat, q: nat, i: nat, j: nat)
    requires nb > 0 && b > 0 && t < Size(nb, b)
    ensures p < nb && q < nb && i < b && j < b && t == Blk(nb, b, p, q, i, j)
  {
    hide Join, Quot, Rem, Times, Size;
    var block := Quot(Quot(t, b), b);
    p, q, i, j := Quot(block, nb), Rem(block, nb), Rem(Quot(t, b), b), Rem(t, b);
    SizeForms(nb, b);
    QuotBound(t, Times(Times(nb, nb), b), b);
    QuotBound(Quot(t, b), Times(nb, nb), b);
    QuotBound(block, nb, nb);
    Joined(t, b);
    Joined(Quot(t, b), b);
    Joined(block, nb);
  }

  /** Every row-major offset has its digits. */
  lemma RowDigits(nb: nat, b: nat, s: nat) returns (p: nat, q: nat, i: nat, j: nat)
    requires nb > 0 && b > 0 && s < Size(nb, b)
    ensures p < nb && q < nb && i < b && j < b && s == Row(nb, b, p, q, i, j)
  {
    hide Join, Quot, Rem, Times, Size;
    var row := Quot(Quot(s, b), nb);
    p, q, i, j := Quot(row, b), Rem(Quot(s, b), nb), Rem(row, b), Rem(s, b);
    SizeForms(nb, b);
    QuotBound(s, Times(Times(nb, b), nb), b);
    QuotBound(Quot(s, b), Times(nb, b), nb);
    QuotBound(row, nb, b);
    Joined(s, b);
    Joined(Quot(s, b), nb);
    Joined(row, b);
  }

  /** The two conversions of offsets undo each other and stay inside the matrix. */
  lemma OffsetRoundTrip(nb: nat, b: nat, x: nat)
    requires nb > 0 && b > 0 && x < Size(nb, b)
    ensures RowAt(nb, b, x) < Size(nb, b) && BlkAt(nb, b, RowAt(nb, b, x)) == x
    ensures BlkAt(nb, b, x) < Size(nb, b) && RowAt(nb, b, BlkAt(nb, b, x)) == x
  {
    hide Row, Blk, RowAt, BlkAt, Size;
    var p, q, i, j := BlkDigits(nb, b, x);
    OffsetBounds(nb, b, p, q, i, j);
    AtDigits(nb, b, p, q, i, j);
    p, q, i, j := RowDigits(nb, b, x);
    OffsetBounds(nb, b, p, q, i, j);
    AtDigits(nb, b, p, q, i, j);
  }

  lemma NotEmpty(nb: nat, b: nat)
    requires Size(nb, b) > 0
    ensures nb > 0
  {
  }

  function ToBlocked<T>(nb: nat, b: nat, rows: seq<T>): (blocks: seq<T>)
    requires b > 0 && |rows| == Size(nb, b)
    ensures |blocks| == |rows|
  {
    seq(|rows|, t requires 0 <= t < |rows| =>
      NotEmpty(nb, b); OffsetRoundTrip(nb, b, t); rows[RowAt(nb, b, t)])
  }

  function FromBlocked<T>(nb: nat, b: nat, blocks: seq<T>): (rows: seq<T>)
    requires b > 0 && |blocks| == Size(nb, b)
    ensures |rows| == |blocks|
  {
    seq(|blocks|, s requires 0 <= s < |blocks| =>
      NotEmpty(nb, b); OffsetRoundTrip(nb, b, s); blocks[BlkAt(nb, b, s)])
  }

  /** The two conversions undo each other. */
  lemma LayoutRoundTrip<T>(nb: nat, b: nat, m: seq<T>)
    requires b > 0 && |m| == Size(nb, b)
    ensures FromBlocked(nb, b, ToBlocked(nb, b, m)) == m
    ensures ToBlocked(nb, b, FromBlocked(nb, b, m)) == m
  {
    hide RowAt, BlkAt, Size;
    forall s | 0 <= s < |m|
      ensures FromBlocked(nb, b, ToBlocked(nb, b, m))[s] == m[s]
      ensures ToBlocked(nb, b, FromBlocked(nb, b, m))[s] == m[s]
    {
      NotEmpty(nb, b);
      OffsetRoundTrip(nb, b, s);
    }
  }

  /** Row i0, column j0 of the matrix is in block (i0 / b, j0 / b), at (i0 % b, j0 % b). */
  lemma ElementDigits(nb: nat, b: nat, i0: nat, j0: nat)
    requires nb > 0 && b > 0 && i0 < nb * b && j0 < nb * b
    ensures i0 / b < nb && j0 / b < nb
    ensures Row(nb, b, i0 / b, j0 / b, i0 % b, j0 % b) == i0 * (nb * b) + j0
  {
    QuotBound(i0, nb, b);
    QuotBound(j0, nb, b);
    Joined(i0, b);
    Joined(j0, b);
    RowForm(nb, b, i0, j0 / b, j0 % b);
  }

  lemma RowForm(nb: nat, b: nat, row: nat, q: nat, j: nat)
    ensures Join(Join(row, nb, q), b, j) == row * (nb * b) + (q * b + j)
  {
    assert row * nb * b == row * (nb * b);
  }

  lemma BlkForm(nb: nat, b: nat, p: nat, q: nat, i: nat, j: nat)
    ensures Blk(nb, b, p, q, i, j) == (p * nb + q) * (b * b) + i * b + j
  {
    assert (p * nb + q) * b * b == (p * nb + q) * (b * b);
    assert ((p * nb + q) * b + i) * b == (p * nb + q) * b * b + i * b;
  }

  /** Element (i0, j0) lands where the layout says. */
  lemma ElementLands<T>(nb: nat, b: nat, rows: seq<T>, i0: nat, j0: nat, s: nat, t: nat)
    requires b > 0 && |rows| == Size(nb, b) && i0 < nb * b && j0 < nb * b
    requires s == i0 * (nb * b) + j0
    requires t == (i0 / b * nb + j0 / b) * (b * b) + i0 % b * b + j0 % b
    ensures s < |rows| && t < |rows| && ToBlocked(nb, b, rows)[t] == rows[s]
  {
    hide Row, Blk, RowAt, Size;
    var p, q, i, j := i0 / b, j0 / b, i0 % b, j0 % b;
    assert nb > 0;
    ElementDigits(nb, b, i0, j0);
    BlkForm(nb, b, p, q, i, j);
    OffsetBounds(nb, b, p, q, i, j);
    AtDigits(nb, b, p, q, i, j);
  }
}
