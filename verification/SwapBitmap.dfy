/** The bitmap of swap slots: 32-bit words whose spare bits past nbits are marked at creation. */
module SwapBitmap {
  import opened WordBits

  const BITS_PER_WORD: nat := 32

  function DivRoundUp(a: nat, b: nat): nat
    requires b > 0
  {
    (a + b - 1) / b
  }

  /** Slot i in the words of a bitmap. */
  predicate SlotSet(words: seq<bv32>, i: nat)
    requires i < |words| * BITS_PER_WORD
  {
    Bit(words[i / BITS_PER_WORD], i % BITS_PER_WORD)
  }

  lemma SlotIndex(ix: nat, bit: nat)
    requires bit < BITS_PER_WORD
    ensures (ix * BITS_PER_WORD + bit) / BITS_PER_WORD == ix && (ix * BITS_PER_WORD + bit) % BITS_PER_WORD == bit
  {
  }

  lemma SlotPut(words: seq<bv32>, k: nat, i: nat)
    requires k < |words| * BITS_PER_WORD && i < |words| * BITS_PER_WORD
    ensures var ix := k / BITS_PER_WORD;
            SlotSet(words[ix := Put(words[ix], Offset(k % BITS_PER_WORD))], i) == (i == k || SlotSet(words, i))
    ensures var ix := k / BITS_PER_WORD;
            SlotSet(words[ix := Drop(words[ix], Offset(k % BITS_PER_WORD))], i) == (i != k && SlotSet(words, i))
  {
    hide Bit, Put, Drop, Offset;
    BitPut(words[k / BITS_PER_WORD], k % BITS_PER_WORD, i % BITS_PER_WORD);
  }

  /** If the words before ix are full and so are the first bits of word ix, so are all those slots. */
  lemma FullSlots(words: seq<bv32>, ix: nat, bits: nat)
    requires ix < |words| && bits <= BITS_PER_WORD
    requires forall i: nat :: i < ix * BITS_PER_WORD ==> SlotSet(words, i)
    requires words[ix] == WORD_ALLBITS || forall j: nat :: j < bits ==> Bit(words[ix], j)
    ensures forall i: nat :: i < ix * BITS_PER_WORD + bits ==> SlotSet(words, i)
  {
    forall i: nat | ix * BITS_PER_WORD <= i < ix * BITS_PER_WORD + bits ensures SlotSet(words, i) {
      SlotIndex(ix, i - ix * BITS_PER_WORD);
      AllBits(i % BITS_PER_WORD);
    }
  }

  class Bitmap {
    const nbits: nat
    const v: array<bv32>

    ghost predicate Valid()
      reads this, v
    {
      && v.Length == DivRoundUp(nbits, BITS_PER_WORD)
      && forall i :: nbits <= i < v.Length * BITS_PER_WORD ==> SlotSet(v[..], i)
    }

    /** The slots in use. */
    ghost function Taken(): (taken: set<nat>)
      requires Valid()
      reads this, v
      ensures forall i: nat :: i in taken <==> i < nbits && SlotSet(v[..], i)
    {
      set i: nat | i < nbits && SlotSet(v[..], i)
    }

    constructor Create(nbits: nat)
      ensures Valid() && fresh(v) && this.nbits == nbits && Taken() == {}
    {
      var words := DivRoundUp(nbits, BITS_PER_WORD);
      this.nbits := nbits;
      v := new bv32[words](_ => 0);
      new;
      forall i: nat | i < words * BITS_PER_WORD ensures !SlotSet(v[..], i) {
        NoBits(i % BITS_PER_WORD);
      }
      if words > nbits / BITS_PER_WORD {
        var ix := words - 1;
        var j := nbits - ix * BITS_PER_WORD;
        assert nbits / BITS_PER_WORD == words - 1;
        assert 0 < j < BITS_PER_WORD;
        while j < BITS_PER_WORD
          invariant nbits - ix * BITS_PER_WORD <= j <= BITS_PER_WORD
          invariant forall i: nat :: i < words * BITS_PER_WORD ==>
                      (SlotSet(v[..], i) <==> nbits <= i < ix * BITS_PER_WORD + j)
        {
          PutBit(ix, j, ix * BITS_PER_WORD + j);
          j := j + 1;
        }
      }
    }

    /** The first clear bit of a word that has one. */
    method FirstClear(w: bv32) returns (offset: nat)
      requires w != WORD_ALLBITS
      ensures offset < BITS_PER_WORD && !Bit(w, offset)
      ensures forall j: nat :: j < offset ==> Bit(w, j)
    {
      hide Has, Offset;
      offset := 0;
      while offset < BITS_PER_WORD
        invariant offset <= BITS_PER_WORD
        invariant forall j: nat :: j < offset ==> Bit(w, j)
      {
        if !Has(w, Offset(offset)) {
          return;
        }
        offset := offset + 1;
      }
      AllBitsOnly(w);
      assert false;
    }

    /** Takes the least free slot; fails exactly when there is none. */
    method Alloc() returns (failed: bool, index: nat)
      requires Valid()
      modifies v
      ensures Valid()
      ensures failed <==> forall i: nat :: i < nbits ==> i in old(Taken())
      ensures failed ==> Taken() == old(Taken())
      ensures !failed ==> index < nbits && index !in old(Taken()) && Taken() == old(Taken()) + {index}
      ensures !failed ==> forall i: nat :: i < index ==> i in old(Taken())
    {
      hide Has, Offset;
      var maxix := DivRoundUp(nbits, BITS_PER_WORD);
      var ix := 0;
      while ix < maxix
        invariant 0 <= ix <= maxix && v[..] == old(v[..]) && Valid()
        invariant forall i: nat :: i < ix * BITS_PER_WORD ==> SlotSet(v[..], i)
      {
        if v[ix] != WORD_ALLBITS {
          var offset := FirstClear(v[ix]);
          assert v[..] == old(v[..]) && Taken() == old(Taken());
          index := ix * BITS_PER_WORD + offset;
          FullSlots(v[..], ix, offset);
          SetSlot(index, ix, offset);
          return false, index;
        }
        FullSlots(v[..], ix, BITS_PER_WORD);
        ix := ix + 1;
      }
      failed, index := true, 0;
    }

    /** v[ix] |= mask: sets the one slot the word and offset stand for. */
    method PutBit(ix: nat, offset: nat, ghost index: nat)
      requires ix < v.Length && offset < BITS_PER_WORD && index == ix * BITS_PER_WORD + offset
      modifies v
      ensures forall i: nat :: i < v.Length * BITS_PER_WORD ==>
                (SlotSet(v[..], i) <==> i == index || SlotSet(old(v[..]), i))
    {
      hide Has, Put, Offset, Bit, SlotSet;
      SlotIndex(ix, offset);
      v[ix] := Put(v[ix], Offset(offset));
      assert v[..] == old(v[..])[ix := Put(old(v[..])[ix], Offset(offset))];
      forall i: nat | i < v.Length * BITS_PER_WORD
        ensures SlotSet(v[..], i) == (i == index || SlotSet(old(v[..]), i))
      {
        SlotPut(old(v[..]), index, i);
      }
    }

    /** v[ix] &= ~mask. */
    method DropBit(ix: nat, offset: nat, ghost index: nat)
      requires ix < v.Length && offset < BITS_PER_WORD && index == ix * BITS_PER_WORD + offset
      modifies v
      ensures forall i: nat :: i < v.Length * BITS_PER_WORD ==>
                (SlotSet(v[..], i) <==> i != index && SlotSet(old(v[..]), i))
    {
      hide Has, Drop, Offset, Bit, SlotSet;
      SlotIndex(ix, offset);
      v[ix] := Drop(v[ix], Offset(offset));
      assert v[..] == old(v[..])[ix := Drop(old(v[..])[ix], Offset(offset))];
      forall i: nat | i < v.Length * BITS_PER_WORD
        ensures SlotSet(v[..], i) == (i != index && SlotSet(old(v[..]), i))
      {
        SlotPut(old(v[..]), index, i);
      }
    }

    /** Setting a clear bit adds its slot, which the spare bits never are. */
    method SetSlot(index: nat, ix: nat, offset: nat)
      requires Valid() && ix < v.Length && offset < BITS_PER_WORD && index == ix * BITS_PER_WORD + offset
      requires !Bit(v[ix], offset)
      modifies v
      ensures Valid() && index < nbits && index !in old(Taken()) && Taken() == old(Taken()) + {index}
    {
      hide Has, Put, Offset, Bit;
      SlotIndex(ix, offset);
      assert !SlotSet(v[..], index);
      PutBit(ix, offset, index);
    }

    method Mark(index: nat)
      requires Valid() && index < nbits && index !in Taken()
      modifies v
      ensures Valid() && Taken() == old(Taken()) + {index}
    {
      var ix, offset := index / BITS_PER_WORD, index % BITS_PER_WORD;
      assert !SlotSet(v[..], index);
      PutBit(ix, offset, index);
    }

    method Unmark(index: nat)
      requires Valid() && index < nbits && index in Taken()
      modifies v
      ensures Valid() && Taken() == old(Taken()) - {index}
    {
      var ix, offset := index / BITS_PER_WORD, index % BITS_PER_WORD;
      DropBit(ix, offset, index);
    }

    /** Tells whether a slot is in use; the spare bits of the last word always read as set. */
    method IsSet(index: nat) returns (isset: bool)
      requires Valid() && index < v.Length * BITS_PER_WORD
      ensures isset <==> index >= nbits || index in Taken()
    {
      var ix, offset := index / BITS_PER_WORD, index % BITS_PER_WORD;
      assert Has(v[ix], Offset(offset)) == SlotSet(v[..], index);
      isset := Has(v[ix], Offset(offset));
    }
  }
}
