/**
 The two bitmaps of an image: which of their bits are set, and that the superblock's counters say
 how many.
 */
module MkfsBitmaps {
  import opened Bytes
  import opened Mkfs
  import opened MkfsReader

  /** Bit `b` of a run of bytes. */
  predicate BitOf(bytes: seq<byte>, b: nat)
    requires b / 8 < |bytes|
  {
    Bit(bytes[b / 8], b % 8)
  }

  /** How many of the first `k` bits are set. */
  function CountSet(bytes: seq<byte>, k: nat): nat
    requires k <= 8 * |bytes|
  {
    if k == 0 then 0 else CountSet(bytes, k - 1) + if BitOf(bytes, k - 1) then 1 else 0
  }

  // ---------- words as bytes ----------

  lemma {:induction false} ByteOfWords(ws: seq<nat>, i: nat, t: nat)
    requires i < |ws| && t < 8
    ensures WordsBytes(ws)[8 * i + t] == LittleEndian(ws[i], 8)[t]
  {
    if i < |ws| - 1 {
      ByteOfWords(ws[..|ws| - 1], i, t);
    }
  }

  /** Bit `b` of an array of words in memory is bit b mod 64 of word b / 64. */
  lemma BitOfWords(ws: seq<nat>, b: nat)
    requires b < 64 * |ws|
    ensures BitOf(WordsBytes(ws), b) == Bit(ws[b / 64], b % 64)
  {
    var i, t, r := b / 64, b / 8 % 8, b % 8;
    assert b / 8 == 8 * i + t && b % 64 == 8 * t + r;
    ByteOfWords(ws, i, t);
    BitsOfLittleEndian(ws[i], 8, t, r);
  }

  lemma BitOfOnes(n: nat, b: nat)
    requires b / 8 < n
    ensures BitOf(OnesBytes(n), b)
  {
    BitLowOnes(8, b % 8);
    assert Pow2(4) == 16;
    assert Pow2(8) == 256;
  }

  lemma BitOfConcat(a: seq<byte>, c: seq<byte>, b: nat)
    requires b / 8 < |a| + |c|
    ensures BitOf(a + c, b) == if b / 8 < |a| then BitOf(a, b) else BitOf(c, b - 8 * |a|)
  {
  }

  /** A first block and then blocks of ones. */
  lemma FirstAndFree(first: seq<byte>, n: nat, b: nat)
    requires |first| == BLOCK_SIZE && b < 8 * |first + FreeBlocks(n)|
    ensures BitOf(first + FreeBlocks(n), b) <==> b >= BITS_PER_BLOCK || BitOf(first, b)
  {
    BitOfConcat(first, FreeBlocks(n), b);
    if b >= BITS_PER_BLOCK {
      BitOfOnes(BLOCK_SIZE * n, b - BITS_PER_BLOCK);
    }
  }

  // ---------- which bits are set ----------

  lemma {:induction false} BitOfLowClear(k: nat, j: nat)
    requires k <= 64 && j < 64
    ensures Bit(LowClear(k), j) <==> j >= k
  {
    if k == 0 {
      BitAllOnes(j);
    } else {
      BitOfLowClear(k - 1, j);
      BitAndNot(LowClear(k - 1), Pow2(k - 1), j);
      BitPow2(k - 1, j);
    }
  }

  lemma BitOfUsedWord(used: nat, w: nat, j: nat)
    requires j < 64
    ensures Bit(UsedWord(used, w), j) <==> 64 * w + j >= used
  {
    if used <= 64 * w {
      BitAllOnes(j);
    } else {
      BitOfLowClear(AtMost64(used - 64 * w), j);
    }
  }

  /** The bits of the block bitmap that are clear are just those of the used blocks. */
  lemma BfreeBits(sb: Superblock, b: nat)
    requires UsedBlocks(sb) <= BITS_PER_BLOCK && b < 8 * |BfreeBytes(sb)|
    ensures BitOf(BfreeBytes(sb), b) <==> b >= UsedBlocks(sb)
  {
    var ws, used := FirstBfreeWords(UsedBlocks(sb)), UsedBlocks(sb);
    FirstAndFree(WordsBytes(ws), OneLess(sb.nrBfreeBlocks), b);
    if b < BITS_PER_BLOCK {
      FirstBfreeBits(ws, used, b);
    }
  }

  lemma FirstBfreeBits(ws: seq<nat>, used: nat, b: nat)
    requires ws == FirstBfreeWords(used) && b < BITS_PER_BLOCK
    ensures BitOf(WordsBytes(ws), b) <==> b >= used
  {
    BitOfWords(ws, b);
    BitOfUsedWord(used, b / 64, b % 64);
  }

  lemma TwoLowBitsClear(j: nat)
    requires j < 64
    ensures Bit(0xffff_ffff_ffff_fffc, j) <==> j >= 2
  {
    if j >= 2 {
      assert Bit(0xffff_ffff_ffff_fffc, j) == Bit(0x7fff_ffff_ffff_fffe, j - 1) == Bit(0x3fff_ffff_ffff_ffff, j - 2);
      assert Bit(ALL_ONES, j) == Bit(0x7fff_ffff_ffff_ffff, j - 1) == Bit(0x3fff_ffff_ffff_ffff, j - 2);
      BitAllOnes(j);
    }
  }

  /** The bits of the inode bitmap that are clear are just those of inodes 0 and 1. */
  lemma IfreeBits(sb: Superblock, b: nat)
    requires b < 8 * |IfreeBytes(sb)|
    ensures BitOf(IfreeBytes(sb), b) <==> b >= 2
  {
    FirstAndFree(WordsBytes(FirstIfreeWords()), OneLess(sb.nrIfreeBlocks), b);
    if b < BITS_PER_BLOCK {
      FirstIfreeBits(b);
    }
  }

  lemma FirstIfreeBits(b: nat)
    requires b < BITS_PER_BLOCK
    ensures BitOf(WordsBytes(FirstIfreeWords()), b) <==> b >= 2
  {
    var ws, w := FirstIfreeWords(), b / 64;
    BitOfWords(ws, b);
    if w == 0 {
      TwoLowBitsClear(b);
    } else {
      assert ws[w] == ALL_ONES;
      BitAllOnes(b % 64);
    }
  }

  // ---------- the counters ----------

  lemma {:induction false} CountFrom(bytes: seq<byte>, k: nat, used: nat)
    requires k <= 8 * |bytes|
    requires forall b {:trigger BitOf(bytes, b)} | 0 <= b < k :: BitOf(bytes, b) <==> b >= used
    ensures CountSet(bytes, k) == if k <= used then 0 else k - used
  {
    if k > 0 {
      assert BitOf(bytes, k - 1) <==> k - 1 >= used;
      CountFrom(bytes, k - 1, used);
    }
  }

  /**
   Of every image the program accepts and can write, each bitmap covers all it should, and the
   counter in the superblock is the number of its bits that are set.
   */
  lemma CountersAgree(size: nat)
    requires Accepted(size) && FitsFirstBitmapBlock(size)
    ensures var sb := Layout(size);
      && sb.nrBlocks <= 8 * |BfreeBytes(sb)| && CountSet(BfreeBytes(sb), sb.nrBlocks) == sb.nrFreeBlocks
      && sb.nrInodes <= 8 * |IfreeBytes(sb)| && CountSet(IfreeBytes(sb), sb.nrInodes) == sb.nrFreeInodes
  {
    var sb := Layout(size);
    LayoutSound(size);
    forall b {:trigger BitOf(BfreeBytes(sb), b)} | 0 <= b < sb.nrBlocks
      ensures BitOf(BfreeBytes(sb), b) <==> b >= UsedBlocks(sb)
    {
      BfreeBits(sb, b);
    }
    forall b {:trigger BitOf(IfreeBytes(sb), b)} | 0 <= b < sb.nrInodes
      ensures BitOf(IfreeBytes(sb), b) <==> b >= 2
    {
      IfreeBits(sb, b);
    }
    CountFrom(BfreeBytes(sb), sb.nrBlocks, UsedBlocks(sb));
    CountFrom(IfreeBytes(sb), sb.nrInodes, 2);
  }

  /** A reader that goes by the layout sees those bits whenever the store ends on a block. */
  lemma BitmapsReadBack(sb: Superblock, b: nat)
    requires Sound(sb) && Aligned(sb)
    ensures b < BITS_PER_BLOCK * sb.nrBfreeBlocks ==>
      BfreeStart(sb) + b / 8 < |Image(sb)| &&
      (BitmapBit(Image(sb), BfreeStart(sb), b) <==> b >= UsedBlocks(sb))
    ensures b < BITS_PER_BLOCK * sb.nrIfreeBlocks ==>
      IfreeStart(sb) + b / 8 < |Image(sb)| &&
      (BitmapBit(Image(sb), IfreeStart(sb), b) <==> b >= 2)
  {
    var img := Image(sb);
    AlignedStarts(sb);
    Regions(sb);
    if b < BITS_PER_BLOCK * sb.nrBfreeBlocks {
      assert img[BfreeAt(sb)..DataAt(sb)][b / 8] == img[BfreeAt(sb) + b / 8];
      BfreeBits(sb, b);
    }
    if b < BITS_PER_BLOCK * sb.nrIfreeBlocks {
      assert img[IfreeAt(sb)..BfreeAt(sb)][b / 8] == img[IfreeAt(sb) + b / 8];
      IfreeBits(sb, b);
    }
  }
}
