/** Single bits of 32-bit words, set, cleared and tested with shifted masks. */
module WordBits {

  const WORD_ALLBITS: bv32 := 0xffffffff

  /** A bit offset as the word type. */
  function Offset(i: nat): (b: bv32)
    requires i < 32
    ensures b as int == i && b < 32
  {
    i as bv32
  }

  lemma OffsetInjective(i: nat, j: nat)
    requires i < 32 && j < 32
    ensures i == j <==> Offset(i) == Offset(j)
  {
  }

  lemma OffsetInverse(b: bv32)
    requires b < 32
    ensures 0 <= b as int < 32 && Offset(b as int) == b
  {
  }

  predicate Has(w: bv32, b: bv32)
    requires b < 32
  {
    w & (1 << b) != 0
  }

  function Put(w: bv32, b: bv32): bv32
    requires b < 32
  {
    w | (1 << b)
  }

  function Drop(w: bv32, b: bv32): bv32
    requires b < 32
  {
    w & !(1 << b)
  }

  lemma HasOther(w: bv32, a: bv32, b: bv32)
    requires a < 32 && b < 32 && a != b
    ensures Has(Put(w, a), b) == Has(w, b)
  {
    assert (w | (1 << a)) & (1 << b) == w & (1 << b);
  }

  lemma DropOther(w: bv32, a: bv32, b: bv32)
    requires a < 32 && b < 32 && a != b
    ensures Has(Drop(w, a), b) == Has(w, b)
  {
    assert (w & !(1 << a)) & (1 << b) == w & (1 << b);
  }

  lemma HasSame(w: bv32, a: bv32)
    requires a < 32
    ensures Has(Put(w, a), a) && !Has(Drop(w, a), a)
  {
  }

  /** Bit i of the word, by number. */
  predicate Bit(w: bv32, i: nat)
    requires i < 32
  {
    Has(w, Offset(i))
  }

  /** Setting or clearing bit i changes no other bit. */
  lemma BitPut(w: bv32, i: nat, j: nat)
    requires i < 32 && j < 32
    ensures Bit(Put(w, Offset(i)), j) == (j == i || Bit(w, j))
    ensures Bit(Drop(w, Offset(i)), j) == (j != i && Bit(w, j))
  {
    hide Has, Put, Drop, Offset;
    if i == j {
      HasSame(w, Offset(i));
    } else {
      OffsetInjective(i, j);
      HasOther(w, Offset(i), Offset(j));
      DropOther(w, Offset(i), Offset(j));
    }
  }

  /** The b low bits of w are all set. */
  predicate LowBits(w: bv32, b: bv32)
    requires b <= 32
  {
    w & ((1 << b) - 1) == (1 << b) - 1
  }

  lemma LowBitsStep(w: bv32, b: bv32)
    requires b < 32 && LowBits(w, b) && Has(w, b)
    ensures LowBits(w, b + 1)
  {
  }

  lemma LowBitsRun(w: bv32, b: bv32)
    requires b <= 32 && forall c: bv32 :: c < 32 ==> Has(w, c)
    ensures LowBits(w, b)
    decreases b
  {
    if b > 0 {
      hide LowBits, Has;
      LowBitsRun(w, b - 1);
      LowBitsStep(w, b - 1);
    }
  }

  lemma LowBitsAll(w: bv32)
    requires LowBits(w, 32)
    ensures w == WORD_ALLBITS
  {
  }

  /** The only word with every bit set is WORD_ALLBITS. */
  lemma AllBitsOnly(w: bv32)
    requires forall i: nat :: i < 32 ==> Bit(w, i)
    ensures w == WORD_ALLBITS
  {
    forall c: bv32 | c < 32 ensures Has(w, c) {
      OffsetInverse(c);
      assert Bit(w, c as int);
    }
    LowBitsRun(w, 32);
    LowBitsAll(w);
  }

  lemma AllBits(i: nat)
    requires i < 32
    ensures Bit(WORD_ALLBITS, i)
  {
    var b := Offset(i);
    assert (0xffffffff as bv32) & (1 << b) != 0;
  }

  lemma NoBits(i: nat)
    requires i < 32
    ensures !Bit(0, i)
  {
    var b := Offset(i);
    assert (0 as bv32) & (1 << b) == 0;
  }
}
