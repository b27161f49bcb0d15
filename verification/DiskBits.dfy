/** Bits of the bytes of an on-disk bitmap, and 32-bit pointers stored low byte first in a block. */
module DiskBits {

  type byte = x: int | 0 <= x < 256

  // ---------- bits ----------

  function Shift(i: nat): (b: bv8)
    requires i < 8
    ensures b as int == i && b < 8
  {
    i as bv8
  }

  predicate HasBit(w: bv8, b: bv8)
    requires b < 8
  {
    (w >> b) & 1 != 0
  }

  function PutBit(w: bv8, b: bv8): bv8
    requires b < 8
  {
    w | (1 << b)
  }

  function ClearBit(w: bv8, b: bv8): bv8
    requires b < 8
  {
    w & !(1 << b)
  }

  lemma OneBit(w: bv8, a: bv8, b: bv8)
    requires a < 8 && b < 8
    ensures HasBit(PutBit(w, a), b) == (a == b || HasBit(w, b))
    ensures HasBit(ClearBit(w, a), b) == (a != b && HasBit(w, b))
  {
  }

  /** Bit i of a bitmap. */
  predicate Marked(bitmap: seq<bv8>, i: nat)
    requires i < 8 * |bitmap|
  {
    HasBit(bitmap[i / 8], Shift(i % 8))
  }

  /** The value of bit b of a byte. */
  function Weight(b: nat): (w: nat)
    requires b < 8
    ensures w > 0
  {
    [1, 2, 4, 8, 16, 32, 64, 128][b]
  }

  /** The bits of a byte, the lowest first. */
  function Digits(w: bv8): (d: seq<int>)
    ensures |d| == 8 && forall k :: 0 <= k < 8 ==> d[k] == if HasBit(w, Shift(k)) then 1 else 0
  {
    seq(8, k requires 0 <= k < 8 => if HasBit(w, Shift(k)) then 1 else 0)
  }

  function Sum(d: seq<int>): int
    requires |d| == 8
  {
    d[0] + 2 * d[1] + 4 * d[2] + 8 * d[3] + 16 * d[4] + 32 * d[5] + 64 * d[6] + 128 * d[7]
  }

  /** A byte as a number is the sum of its bits, weighted. */
  lemma Binary(w: bv8)
    ensures w as int == Sum(Digits(w))
  {
    Shifts();
    LowBit(w);
    MiddleBits(w);
    BinarySum(w);
  }

  lemma Shifts()
    ensures Shift(0) == 0 && Shift(1) == 1 && Shift(2) == 2 && Shift(3) == 3
    ensures Shift(4) == 4 && Shift(5) == 5 && Shift(6) == 6 && Shift(7) == 7
  {
  }

  lemma LowBit(w: bv8)
    ensures HasBit(w, 0) == (w & 1 != 0) && HasBit(w, 1) == (w & 2 != 0)
  {
  }

  lemma MiddleBits(w: bv8)
    ensures HasBit(w, 2) == (w & 4 != 0) && HasBit(w, 3) == (w & 8 != 0) && HasBit(w, 4) == (w & 16 != 0)
    ensures HasBit(w, 5) == (w & 32 != 0) && HasBit(w, 6) == (w & 64 != 0) && HasBit(w, 7) == (w & 128 != 0)
  {
  }

  lemma BinarySum(w: bv8)
    ensures w as int == (if w & 1 != 0 then 1 else 0) + (if w & 2 != 0 then 2 else 0) + (if w & 4 != 0 then 4 else 0)
                        + (if w & 8 != 0 then 8 else 0) + (if w & 16 != 0 then 16 else 0) + (if w & 32 != 0 then 32 else 0)
                        + (if w & 64 != 0 then 64 else 0) + (if w & 128 != 0 then 128 else 0)
  {
  }

  lemma Multiple(w: int, d: int)
    requires w > 0
    ensures (d >= 1 ==> w * d >= w) && (d <= -1 ==> w * d <= -w)
  {
  }

  lemma Quotient(lo: int, w: int, q: int)
    requires 0 <= lo < w
    ensures (lo + w * q) / w == q && (lo + w * q) % w == lo
  {
    var x := lo + w * q;
    assert w * (x / w - q) == lo - x % w;
    Multiple(w, x / w - q);
  }

  /** The digit of weight w of lo + w * (d + 2 * hi). */
  lemma Pick(lo: int, w: int, d: int, hi: int)
    requires 0 <= lo < w && 0 <= d <= 1
    ensures (lo + w * (d + 2 * hi)) / w % 2 == d
  {
    Quotient(lo, w, d + 2 * hi);
    Quotient(d, 2, hi);
  }

  lemma DigitOf(d: seq<int>, i: nat)
    requires i < 8 && |d| == 8 && forall k :: 0 <= k < 8 ==> 0 <= d[k] <= 1
    ensures Sum(d) / Weight(i) % 2 == d[i]
  {
    match i {
      case 0 => Pick(0, 1, d[0], d[1] + 2 * d[2] + 4 * d[3] + 8 * d[4] + 16 * d[5] + 32 * d[6] + 64 * d[7]);
      case 1 => Pick(d[0], 2, d[1], d[2] + 2 * d[3] + 4 * d[4] + 8 * d[5] + 16 * d[6] + 32 * d[7]);
      case 2 => Pick(d[0] + 2 * d[1], 4, d[2], d[3] + 2 * d[4] + 4 * d[5] + 8 * d[6] + 16 * d[7]);
      case 3 => Pick(d[0] + 2 * d[1] + 4 * d[2], 8, d[3], d[4] + 2 * d[5] + 4 * d[6] + 8 * d[7]);
      case 4 => Pick(d[0] + 2 * d[1] + 4 * d[2] + 8 * d[3], 16, d[4], d[5] + 2 * d[6] + 4 * d[7]);
      case 5 => Pick(d[0] + 2 * d[1] + 4 * d[2] + 8 * d[3] + 16 * d[4], 32, d[5], d[6] + 2 * d[7]);
      case 6 => Pick(d[0] + 2 * d[1] + 4 * d[2] + 8 * d[3] + 16 * d[4] + 32 * d[5], 64, d[6], d[7]);
      case 7 => Pick(d[0] + 2 * d[1] + 4 * d[2] + 8 * d[3] + 16 * d[4] + 32 * d[5] + 64 * d[6], 128, d[7], 0);
    }
  }

  /** A bit is set exactly if the byte, as a number, has its weight. */
  lemma BitValue(w: bv8, i: nat)
    requires i < 8
    ensures HasBit(w, Shift(i)) <==> w as int / Weight(i) % 2 == 1
  {
    hide HasBit, Shift, Weight, Sum, Digits;
    Binary(w);
    DigitOf(Digits(w), i);
  }

  /** Setting or clearing a bit adds or takes its weight, if that changes the bit. */
  lemma ValueAfter(w: bv8, i: nat)
    requires i < 8
    ensures PutBit(w, Shift(i)) as int == w as int + if w as int / Weight(i) % 2 == 1 then 0 else Weight(i)
    ensures ClearBit(w, Shift(i)) as int == w as int - if w as int / Weight(i) % 2 == 1 then Weight(i) else 0
  {
    hide HasBit, PutBit, ClearBit, Shift, Weight, Sum, Digits;
    BitValue(w, i);
    var put, clear := PutBit(w, Shift(i)), ClearBit(w, Shift(i));
    Binary(w);
    Binary(put);
    Binary(clear);
    forall k: nat | k < 8
      ensures Digits(put)[k] == if k == i then 1 else Digits(w)[k]
      ensures Digits(clear)[k] == if k == i then 0 else Digits(w)[k]
    {
      SameShift(k, i);
      OneBit(w, Shift(i), Shift(k));
    }
    SumChanged(Digits(w), Digits(put), i, 1);
    SumChanged(Digits(w), Digits(clear), i, 0);
  }

  lemma SumChanged(d: seq<int>, d': seq<int>, i: nat, digit: int)
    requires i < 8 && |d| == |d'| == 8 && forall k :: 0 <= k < 8 ==> d'[k] == if k == i then digit else d[k]
    ensures Sum(d') == Sum(d) + (digit - d[i]) * Weight(i)
  {
  }

  /** Bit i of a bitmap is marked exactly if byte i / 8, as a number, has the weight of bit i % 8. */
  lemma MarkedValue(bitmap: seq<bv8>, i: nat)
    requires i < 8 * |bitmap|
    ensures Marked(bitmap, i) <==> bitmap[i / 8] as int / Weight(i % 8) % 2 == 1
  {
    hide HasBit, Shift, Weight;
    BitValue(bitmap[i / 8], i % 8);
  }

  lemma MarkedAfter(bitmap: seq<bv8>, k: nat, i: nat)
    requires k < 8 * |bitmap| && i < 8 * |bitmap|
    ensures var at := k / 8; Marked(bitmap[at := PutBit(bitmap[at], Shift(k % 8))], i) == (i == k || Marked(bitmap, i))
    ensures var at := k / 8; Marked(bitmap[at := ClearBit(bitmap[at], Shift(k % 8))], i) == (i != k && Marked(bitmap, i))
  {
    hide HasBit, PutBit, ClearBit, Shift;
    if i / 8 == k / 8 {
      OneBit(bitmap[k / 8], Shift(k % 8), Shift(i % 8));
      SameShift(k, i);
    }
  }

  /** A byte is its eight bits. */
  lemma SameByte(v: bv8, w: bv8)
    requires forall i: nat :: i < 8 ==> HasBit(v, Shift(i)) == HasBit(w, Shift(i))
    ensures v == w
  {
    assert Shift(0) == 0 && Shift(1) == 1 && Shift(2) == 2 && Shift(3) == 3;
    assert Shift(4) == 4 && Shift(5) == 5 && Shift(6) == 6 && Shift(7) == 7;
    BitsDecide(v, w);
  }

  lemma BitsDecide(v: bv8, w: bv8)
    requires HasBit(v, 0) == HasBit(w, 0) && HasBit(v, 1) == HasBit(w, 1) && HasBit(v, 2) == HasBit(w, 2)
    requires HasBit(v, 3) == HasBit(w, 3) && HasBit(v, 4) == HasBit(w, 4) && HasBit(v, 5) == HasBit(w, 5)
    requires HasBit(v, 6) == HasBit(w, 6) && HasBit(v, 7) == HasBit(w, 7)
    ensures v == w
  {
  }

  lemma SameShift(k: nat, i: nat)
    requires i / 8 == k / 8
    ensures Shift(k % 8) == Shift(i % 8) <==> i == k
  {
  }

  // ---------- pointers ----------

  const POINTERS: nat := 256
  const BLOCK_SIZE: nat := 1024

  type Block = b: seq<byte> | |b| == BLOCK_SIZE witness seq(BLOCK_SIZE, _ => 0)

  function Pointer(b: Block, k: nat): nat
    requires k < POINTERS
  {
    b[4 * k] as int + 0x100 * (b[4 * k + 1] as int) + 0x1_0000 * (b[4 * k + 2] as int) + 0x100_0000 * (b[4 * k + 3] as int)
  }

  function SetPointer(b: Block, k: nat, v: nat): Block
    requires k < POINTERS && v < 0x1_0000_0000
  {
    b[4 * k := v % 0x100][4 * k + 1 := v / 0x100 % 0x100][4 * k + 2 := v / 0x1_0000 % 0x100][4 * k + 3 := v / 0x100_0000]
  }

  lemma PointerAfter(b: Block, k: nat, v: nat, i: nat)
    requires k < POINTERS && i < POINTERS && v < 0x1_0000_0000
    ensures Pointer(SetPointer(b, k, v), i) == if i == k then v else Pointer(b, i)
  {
    FourBytes(v);
  }

  /** Low byte first: the four bytes of a stored pointer, and what four bytes say. */
  lemma PointerBytes(b: Block, k: nat, v: nat)
    requires k < POINTERS && v < 0x1_0000_0000
    ensures var s := SetPointer(b, k, v);
            && s[4 * k] == v % 0x100 && s[4 * k + 1] == v / 0x100 % 0x100
            && s[4 * k + 2] == v / 0x1_0000 % 0x100 && s[4 * k + 3] == v / 0x100_0000
            && s[..4 * k] == b[..4 * k] && s[4 * k + 4..] == b[4 * k + 4..]
    ensures var p := Pointer(b, k);
            && p % 0x100 == b[4 * k] && p / 0x100 % 0x100 == b[4 * k + 1]
            && p / 0x1_0000 % 0x100 == b[4 * k + 2] && p / 0x100_0000 == b[4 * k + 3]
  {
    FourDigits(b[4 * k], b[4 * k + 1], b[4 * k + 2], b[4 * k + 3]);
  }

  lemma FourDigits(d0: byte, d1: byte, d2: byte, d3: byte)
    ensures var p := d0 as int + 0x100 * (d1 as int) + 0x1_0000 * (d2 as int) + 0x100_0000 * (d3 as int);
            p % 0x100 == d0 && p / 0x100 % 0x100 == d1 && p / 0x1_0000 % 0x100 == d2 && p / 0x100_0000 == d3
  {
    Quotient(d0, 0x100, d1 + 0x100 * (d2 + 0x100 * d3));
    Quotient(d1, 0x100, d2 + 0x100 * d3);
    Quotient(d0 + 0x100 * d1, 0x1_0000, d2 + 0x100 * d3);
    Quotient(d2, 0x100, d3);
    Quotient(d0 + 0x100 * d1 + 0x1_0000 * d2, 0x100_0000, d3);
  }

  lemma FourBytes(v: nat)
    ensures v % 0x100 + 0x100 * (v / 0x100 % 0x100) + 0x1_0000 * (v / 0x1_0000 % 0x100) + 0x100_0000 * (v / 0x100_0000) == v
  {
    var hi := v / 0x100;
    var hi2 := hi / 0x100;
    assert v / 0x1_0000 == hi2 && v / 0x100_0000 == hi2 / 0x100;
  }
}
