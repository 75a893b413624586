/** The free-block bitmap of fs.c: BPB bits to a block, bit b set when disk block b is in use. */
module Bitmap {
  import opened Words

  const BPB := BSIZE * 8

  type BitBlock = b: seq<bv8> | |b| == BSIZE witness seq(BSIZE, _ => 0)

  /** `1 << k` for a bit position within a byte. */
  function Mask(k: nat): (m: bv8)
    requires k < 8
    ensures m != 0
  {
    if k == 0 then 1 else if k == 1 then 2 else if k == 2 then 4 else if k == 3 then 8
    else if k == 4 then 16 else if k == 5 then 32 else if k == 6 then 64 else 128
  }

  predicate Bit(x: bv8, k: nat)
    requires k < 8
  {
    x & Mask(k) != 0
  }

  function WithBit(x: bv8, k: nat): (y: bv8)
    requires k < 8
  {
    x | Mask(k)
  }

  function WithoutBit(x: bv8, k: nat): (y: bv8)
    requires k < 8
  {
    x & !Mask(k)
  }

  lemma ByteBits(x: bv8, k: nat, j: nat)
    requires k < 8 && j < 8
    ensures Bit(WithBit(x, k), j) <==> j == k || Bit(x, j)
    ensures Bit(WithoutBit(x, k), j) <==> j != k && Bit(x, j)
  {
  }

  /** The coefficient of 2 to the power k in a byte. */
  predicate Digit(x: bv8, k: nat)
    requires k < 8
  {
    x / [1, 2, 4, 8, 16, 32, 64, 128][k] % 2 == 1
  }

  lemma BitIsDigit(x: bv8, k: nat)
    requires k < 8
    ensures Bit(x, k) <==> Digit(x, k)
  {
    hide Bit, Digit;
    if k < 4 { LowDigit(x, k); } else { HighDigit(x, k); }
  }

  lemma LowDigit(x: bv8, k: nat)
    requires k < 4
    ensures Bit(x, k) <==> Digit(x, k)
  {
  }

  lemma HighDigit(x: bv8, k: nat)
    requires 4 <= k < 8
    ensures Bit(x, k) <==> Digit(x, k)
  {
  }

  lemma ByteIndex(b: nat)
    ensures b / 8 % 512 == b % 4096 / 8
  {
    var q, r := b / 4096, b % 4096;
    assert b == 8 * (512 * q + r / 8) + r % 8;
    assert b / 8 == 512 * q + r / 8;
  }

  /** The bitmap spans the first `size` disk blocks. */
  predicate Spans(bitmap: seq<BitBlock>, size: nat) {
    size <= |bitmap| * BPB
  }

  /** Is disk block b marked in use? */
  predicate Used(bitmap: seq<BitBlock>, b: nat)
    requires b < |bitmap| * BPB
  {
    Bit(GetByte(bitmap, b), b % 8)
  }

  /** Disk block b has digit b % 8 of byte b / 8 of the bitmap, 512 bytes to a bitmap block. */
  lemma UsedDigit(bitmap: seq<BitBlock>, b: nat)
    requires b < |bitmap| * BPB
    ensures b / 4096 < |bitmap|
    ensures Used(bitmap, b) <==> Digit(bitmap[b / 4096][b / 8 % 512], b % 8)
  {
    hide Bit, Digit;
    ByteIndex(b);
    BitIsDigit(GetByte(bitmap, b), b % 8);
  }

  /** The bitmap with the byte that holds bit b replaced. */
  function SetByte(bitmap: seq<BitBlock>, b: nat, y: bv8): (r: seq<BitBlock>)
    requires b < |bitmap| * BPB
    ensures |r| == |bitmap|
  {
    bitmap[b / BPB := bitmap[b / BPB][b % BPB / 8 := y]]
  }

  function GetByte(bitmap: seq<BitBlock>, b: nat): (y: bv8)
    requires b < |bitmap| * BPB
  {
    bitmap[b / BPB][b % BPB / 8]
  }

  lemma SetByteAt(bitmap: seq<BitBlock>, b: nat, y: bv8, c: nat)
    requires b < |bitmap| * BPB && c < |bitmap| * BPB
    ensures GetByte(SetByte(bitmap, b, y), c) == if c / 8 == b / 8 then y else GetByte(bitmap, c)
  {
    assert b / BPB == b / 8 / BSIZE && b % BPB / 8 == b / 8 % BSIZE;
    assert c / BPB == c / 8 / BSIZE && c % BPB / 8 == c / 8 % BSIZE;
  }

  function Mark(bitmap: seq<BitBlock>, b: nat): (r: seq<BitBlock>)
    requires b < |bitmap| * BPB
    ensures |r| == |bitmap|
  {
    SetByte(bitmap, b, WithBit(GetByte(bitmap, b), b % 8))
  }

  function Clear(bitmap: seq<BitBlock>, b: nat): (r: seq<BitBlock>)
    requires b < |bitmap| * BPB
    ensures |r| == |bitmap|
  {
    SetByte(bitmap, b, WithoutBit(GetByte(bitmap, b), b % 8))
  }

  /** Marking changes one bit. */
  lemma MarkOne(bitmap: seq<BitBlock>, b: nat, c: nat)
    requires b < |bitmap| * BPB && c < |bitmap| * BPB
    ensures Used(Mark(bitmap, b), c) <==> c == b || Used(bitmap, c)
  {
    hide Bit, WithBit, WithoutBit, SetByte, GetByte;
    var x := GetByte(bitmap, b);
    SetByteAt(bitmap, b, WithBit(x, b % 8), c);
    if c / 8 == b / 8 {
      SameByte(bitmap, b, c);
      ByteBits(x, b % 8, c % 8);
    }
  }

  /** Clearing changes one bit. */
  lemma ClearOne(bitmap: seq<BitBlock>, b: nat, c: nat)
    requires b < |bitmap| * BPB && c < |bitmap| * BPB
    ensures Used(Clear(bitmap, b), c) <==> c != b && Used(bitmap, c)
  {
    hide Bit, WithBit, WithoutBit, SetByte, GetByte;
    var x := GetByte(bitmap, b);
    SetByteAt(bitmap, b, WithoutBit(x, b % 8), c);
    if c / 8 == b / 8 {
      SameByte(bitmap, b, c);
      ByteBits(x, b % 8, c % 8);
    }
  }

  lemma SameByte(bitmap: seq<BitBlock>, b: nat, c: nat)
    requires b < |bitmap| * BPB && c < |bitmap| * BPB && c / 8 == b / 8
    ensures GetByte(bitmap, c) == GetByte(bitmap, b)
  {
    assert b / BPB == b / 8 / BSIZE && b % BPB / 8 == b / 8 % BSIZE;
    assert c / BPB == c / 8 / BSIZE && c % BPB / 8 == c / 8 % BSIZE;
  }

  /** Bit bi of bitmap block b / BPB is the bit of disk block b + bi. */
  lemma BitPosition(b: nat, bi: nat)
    requires b % BPB == 0 && bi < BPB
    ensures (b + bi) / BPB == b / BPB && (b + bi) % BPB == bi && (b + bi) % 8 == bi % 8
  {
    var q := b / BPB;
    assert b == BPB * q;
    assert (BPB * q + bi) / BPB == q && (BPB * q + bi) % BPB == bi;
    assert (8 * (512 * q) + bi) % 8 == bi % 8;
  }

  /** No block is in use. */
  function NoneUsed(n: nat): (bitmap: seq<BitBlock>)
    ensures |bitmap| == n
  {
    seq(n, _ => seq(BSIZE, _ => 0))
  }

  lemma NoneUsedAt(n: nat, b: nat)
    requires b < n * BPB
    ensures !Used(NoneUsed(n), b)
  {
    assert GetByte(NoneUsed(n), b) == 0;
  }

  /** The loop of mkfs that marks the first `used` blocks. */
  method MarkFirst(used: nat, n: nat) returns (bitmap: seq<BitBlock>)
    requires used <= n * BPB
    ensures |bitmap| == n && forall b: nat :: b < n * BPB ==> (Used(bitmap, b) <==> b < used)
  {
    hide Used, Mark;
    bitmap := NoneUsed(n);
    forall b: nat | b < n * BPB ensures !Used(bitmap, b) { NoneUsedAt(n, b); }
    var i := 0;
    while i < used
      invariant 0 <= i <= used && |bitmap| == n
      invariant forall b: nat :: b < n * BPB ==> (Used(bitmap, b) <==> b < i)
    {
      forall b: nat | b < n * BPB ensures Used(Mark(bitmap, i), b) <==> b < i + 1 { MarkOne(bitmap, i, b); }
      bitmap := Mark(bitmap, i);
      i := i + 1;
    }
  }
}
