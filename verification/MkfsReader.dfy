/**
 A reader of pnlfs images that knows only the on-disk layout of projet_pnl/include/pnlfs.h:14-30 and
 the structures declared there, and what it makes of the images the formatter writes.
 */
module MkfsReader {
  import opened Bytes
  import opened Mkfs
  import opened Options

  // ---------- the reader ----------

  function Le32(img: seq<byte>, at: nat): nat
    requires at + 4 <= |img|
  {
    Value(img[at..at + 4])
  }

  function SuperblockOf(img: seq<byte>): Superblock
    requires |img| >= BLOCK_SIZE
  {
    Superblock(Le32(img, 0), Le32(img, 4), Le32(img, 8), Le32(img, 12), Le32(img, 16), Le32(img, 20),
               Le32(img, 24), Le32(img, 28))
  }

  /** The inode store starts at block 1. */
  function InodeStart(k: nat): nat {
    BLOCK_SIZE + INODE_SIZE * k
  }

  function InodeOf(img: seq<byte>, k: nat): Inode
    requires InodeStart(k) + INODE_SIZE <= |img|
  {
    var at := InodeStart(k);
    Inode(Le32(img, at), Le32(img, at + 4), Le32(img, at + 8), Le32(img, at + 12))
  }

  /** The bitmaps follow the inode store, at whole blocks. */
  function IfreeStart(sb: Superblock): nat {
    BLOCK_SIZE * (1 + sb.nrIstoreBlocks)
  }

  function BfreeStart(sb: Superblock): nat {
    BLOCK_SIZE * (1 + sb.nrIstoreBlocks + sb.nrIfreeBlocks)
  }

  predicate BitmapBit(img: seq<byte>, start: nat, b: nat)
    requires start + b / 8 < |img|
  {
    Bit(img[start + b / 8], b % 8)
  }

  /** A directory entry: 4 bytes of inode number, then a name padded with zeros. */
  predicate IsNamed(img: seq<byte>, at: nat, name: seq<byte>)
    requires at + 32 <= |img| && |name| < 28
  {
    img[at + 4..at + 4 + |name|] == name && img[at + 4 + |name|] == 0
  }

  /** The inode number beside the first entry of that name, from entry `e` on. */
  function Lookup(img: seq<byte>, dir: nat, name: seq<byte>, e: nat): Option<nat>
    requires dir + BLOCK_SIZE <= |img| && |name| < 28 && e <= 128
    decreases 128 - e
  {
    if e == 128 then None
    else if IsNamed(img, dir + 32 * e, name) then Some(Le32(img, dir + 32 * e))
    else Lookup(img, dir, name, e + 1)
  }

  /** The contents of a one-block file in the root directory. */
  function ReadFile(img: seq<byte>, name: seq<byte>): Option<seq<byte>>
    requires |name| < 28
  {
    if |img| < 2 * BLOCK_SIZE then None
    else
      var dir := BLOCK_SIZE * InodeOf(img, 0).indexBlock;
      if dir + BLOCK_SIZE > |img| then None
      else
        match Lookup(img, dir, name, 0)
        case None => None
        case Some(k) =>
          if InodeStart(k) + INODE_SIZE > |img| then None
          else
            var inode := InodeOf(img, k);
            var index := BLOCK_SIZE * inode.indexBlock;
            if index + BLOCK_SIZE > |img| || inode.filesize > BLOCK_SIZE then None
            else
              var data := BLOCK_SIZE * Le32(img, index);
              if data + BLOCK_SIZE > |img| then None else Some(img[data..data + inode.filesize])
  }

  // ---------- where the formatter puts things ----------

  predicate Ordinary(sb: Superblock) {
    sb.nrInodes >= 2 && sb.nrIfreeBlocks > 0 && sb.nrBfreeBlocks > 0
  }

  /** Where the regions really start: right after the inodes written, wherever that is. */
  function IfreeAt(sb: Superblock): nat {
    BLOCK_SIZE + INODE_SIZE * sb.nrInodes
  }

  function BfreeAt(sb: Superblock): nat {
    IfreeAt(sb) + BLOCK_SIZE * sb.nrIfreeBlocks
  }

  function DataAt(sb: Superblock): nat {
    BfreeAt(sb) + BLOCK_SIZE * sb.nrBfreeBlocks
  }

  lemma Regions(sb: Superblock)
    requires Ordinary(sb)
    ensures var img := Image(sb);
      && |img| == DataAt(sb) + 3 * BLOCK_SIZE
      && img[..BLOCK_SIZE] == SuperblockBytes(sb)
      && img[BLOCK_SIZE..IfreeAt(sb)] == StoreBytes(sb)
      && img[IfreeAt(sb)..BfreeAt(sb)] == IfreeBytes(sb)
      && img[BfreeAt(sb)..DataAt(sb)] == BfreeBytes(sb)
      && img[DataAt(sb)..] == DataBytes(sb)
  {
    var p1 := SuperblockBytes(sb);
    var p2 := p1 + StoreBytes(sb);
    var p3 := p2 + IfreeBytes(sb);
    var p4 := p3 + BfreeBytes(sb);
    assert Image(sb) == p4 + DataBytes(sb);
    Tail(p1, StoreBytes(sb));
    Tail(p2, IfreeBytes(sb));
    Tail(p3, BfreeBytes(sb));
    Tail(p4, DataBytes(sb));
    Front(p1, StoreBytes(sb), 0, |p1|);
    Front(p2, IfreeBytes(sb), 0, |p1|);
    Front(p2, IfreeBytes(sb), |p1|, |p2|);
    Front(p3, BfreeBytes(sb), 0, |p1|);
    Front(p3, BfreeBytes(sb), |p1|, |p2|);
    Front(p3, BfreeBytes(sb), |p2|, |p3|);
    Front(p4, DataBytes(sb), 0, |p1|);
    Front(p4, DataBytes(sb), |p1|, |p2|);
    Front(p4, DataBytes(sb), |p2|, |p3|);
    Front(p4, DataBytes(sb), |p3|, |p4|);
  }

  lemma Tail(a: seq<byte>, b: seq<byte>)
    ensures (a + b)[|a|..|a| + |b|] == b && (a + b)[|a|..] == b && (a + b)[..|a|] == (a + b)[0..|a|] == a
  {
  }

  lemma Front(a: seq<byte>, b: seq<byte>, lo: nat, hi: nat)
    requires lo <= hi <= |a|
    ensures (a + b)[lo..hi] == a[lo..hi]
  {
  }

  lemma SliceOfSlice(b: seq<byte>, lo: nat, hi: nat, i: nat, j: nat)
    requires lo <= hi <= |b| && i <= j <= hi - lo
    ensures b[lo + i..lo + j] == b[lo..hi][i..j]
  {
    forall k | 0 <= k < j - i ensures b[lo + i..lo + j][k] == b[lo..hi][i..j][k] {
    }
  }

  /** Field `k` of a run of fields in an image. */
  lemma {:induction false} FieldAt(img: seq<byte>, at: nat, end: nat, xs: seq<nat>, k: nat, pos: nat)
    requires at + 4 * |xs| == end <= |img| && img[at..end] == Fields(xs)
    requires k < |xs| && xs[k] < TWO_32 && pos == at + 4 * k
    ensures Le32(img, pos) == xs[k]
    decreases k
  {
    var rest := xs[1..];
    Parts(img, at, at + 4, end, LittleEndian(xs[0], 4), Fields(rest));
    if k == 0 {
      FieldValue(img, at, xs[0]);
    } else {
      FieldAt(img, at + 4, end, rest, k - 1, pos);
    }
  }

  lemma Parts(img: seq<byte>, at: nat, mid: nat, end: nat, a: seq<byte>, b: seq<byte>)
    requires at + |a| == mid && mid + |b| == end <= |img| && img[at..end] == a + b
    ensures img[at..mid] == a && img[mid..end] == b
  {
    assert img[at..mid] == img[at..end][..|a|] && img[mid..end] == img[at..end][|a|..];
  }

  lemma FieldValue(img: seq<byte>, at: nat, x: nat)
    requires x < TWO_32 && at + 4 <= |img| && img[at..at + 4] == LittleEndian(x, 4)
    ensures Le32(img, at) == x
  {
    ReadBack32(x);
  }

  lemma ValueAt(img: seq<byte>, at: nat, f: seq<byte>, i: nat)
    requires at + |f| <= |img| && img[at..at + |f|] == f && i + 4 <= |f|
    ensures Le32(img, at + i) == Value(f[i..i + 4])
  {
    SliceIs(img, at, f, i, i + 4);
  }

  lemma SliceIs(img: seq<byte>, at: nat, f: seq<byte>, i: nat, j: nat)
    requires at + |f| <= |img| && img[at..at + |f|] == f && i <= j <= |f|
    ensures img[at + i..at + j] == f[i..j]
  {
    SliceOfSlice(img, at, at + |f|, i, j);
  }

  /** Every field is a 32-bit number. */
  predicate InRange(sb: Superblock) {
    && sb.magic < TWO_32 && sb.nrBlocks < TWO_32 && sb.nrInodes < TWO_32 && sb.nrIstoreBlocks < TWO_32
    && sb.nrIfreeBlocks < TWO_32 && sb.nrBfreeBlocks < TWO_32
    && sb.nrFreeInodes < TWO_32 && sb.nrFreeBlocks < TWO_32
  }

  /** Every field of the superblock reads back as the layout has it. */
  lemma SuperblockReadsBack(sb: Superblock)
    requires Ordinary(sb) && InRange(sb)
    ensures |Image(sb)| >= BLOCK_SIZE && SuperblockOf(Image(sb)) == sb
  {
    var img := Image(sb);
    var xs := [sb.magic, sb.nrBlocks, sb.nrInodes, sb.nrIstoreBlocks, sb.nrIfreeBlocks, sb.nrBfreeBlocks,
               sb.nrFreeInodes, sb.nrFreeBlocks];
    Regions(sb);
    assert SuperblockBytes(sb)[0..32] == Fields(xs);
    SliceOfSlice(img, 0, BLOCK_SIZE, 0, 32);
    FieldAt(img, 0, 32, xs, 0, 0);
    FieldAt(img, 0, 32, xs, 1, 4);
    FieldAt(img, 0, 32, xs, 2, 8);
    FieldAt(img, 0, 32, xs, 3, 12);
    FieldAt(img, 0, 32, xs, 4, 16);
    FieldAt(img, 0, 32, xs, 5, 20);
    FieldAt(img, 0, 32, xs, 6, 24);
    FieldAt(img, 0, 32, xs, 7, 28);
  }

  lemma InodeFields(img: seq<byte>, at: nat, inode: Inode)
    requires at + INODE_SIZE <= |img| && img[at..at + INODE_SIZE] == InodeBytes(inode)
    requires inode.mode < TWO_32 && inode.indexBlock < TWO_32 && inode.filesize < TWO_32
    requires inode.nrUsedOrEntries < TWO_32
    ensures Inode(Le32(img, at), Le32(img, at + 4), Le32(img, at + 8), Le32(img, at + 12)) == inode
  {
    var xs := [inode.mode, inode.indexBlock, inode.filesize, inode.nrUsedOrEntries];
    FieldAt(img, at, at + 16, xs, 0, at);
    FieldAt(img, at, at + 16, xs, 1, at + 4);
    FieldAt(img, at, at + 16, xs, 2, at + 8);
    FieldAt(img, at, at + 16, xs, 3, at + 12);
  }

  /** Inodes 0 and 1 are where the layout says, whatever the size. */
  lemma InodesReadBack(sb: Superblock)
    requires Ordinary(sb)
    ensures InodeStart(2) <= |Image(sb)|
    ensures InodeOf(Image(sb), 0) == RootInode(sb) && InodeOf(Image(sb), 1) == FooInode(sb)
  {
    var img, s := Image(sb), StoreBytes(sb);
    Regions(sb);
    SliceOfSlice(img, BLOCK_SIZE, IfreeAt(sb), 0, 16);
    SliceOfSlice(img, BLOCK_SIZE, IfreeAt(sb), 16, 32);
    assert s[0..16] == InodeBytes(RootInode(sb)) && s[16..32] == InodeBytes(FooInode(sb));
    InodeFields(img, BLOCK_SIZE, RootInode(sb));
    InodeFields(img, BLOCK_SIZE + 16, FooInode(sb));
  }

  // ---------- the bytes of an image, one by one ----------

  ghost predicate ZeroIn(img: seq<byte>, lo: nat, hi: nat) {
    lo <= hi <= |img| && forall x | lo <= x < hi :: img[x] == 0
  }

  /** The superblock: eight numbers from the first byte on, and nothing else. */
  lemma SuperblockBytesAre(sb: Superblock)
    requires Ordinary(sb) && InRange(sb)
    ensures var img := Image(sb);
      && |img| >= 4096
      && Le32(img, 0) == sb.magic && Le32(img, 4) == sb.nrBlocks && Le32(img, 8) == sb.nrInodes
      && Le32(img, 12) == sb.nrIstoreBlocks && Le32(img, 16) == sb.nrIfreeBlocks && Le32(img, 20) == sb.nrBfreeBlocks
      && Le32(img, 24) == sb.nrFreeInodes && Le32(img, 28) == sb.nrFreeBlocks
      && ZeroIn(img, 32, 4096)
  {
    var img := Image(sb);
    SuperblockReadsBack(sb);
    Regions(sb);
    forall x | 32 <= x < 4096 ensures img[x] == 0 {
      assert img[..BLOCK_SIZE][x] == SuperblockBytes(sb)[x];
    }
  }

  /** The four numbers of an inode, 16 bytes for each inode from byte 4096 on. */
  ghost predicate InodeAt(img: seq<byte>, k: nat, mode: nat, indexBlock: nat, filesize: nat, entries: nat) {
    var at := 4096 + 16 * k;
    && at + 16 <= |img|
    && Le32(img, at) == mode && Le32(img, at + 4) == indexBlock
    && Le32(img, at + 8) == filesize && Le32(img, at + 12) == entries
  }

  /**
     The inode store: inode 0 is a directory (type 4) that its owner and group may write and all may read and
     search, of one block and one entry; inode 1 is a regular file (type 8) that all may read and write, of four
     bytes in one block; and all others are zero.
   */
  lemma InodesAre(size: nat)
    requires Accepted(size) && FitsFirstBitmapBlock(size)
    ensures var sb := Layout(size); var img, first := Image(sb), FirstDataBlock(sb);
      && InodeAt(img, 0, 4 * 4096 + 509, first, 4096, 1)
      && InodeAt(img, 1, 8 * 4096 + 438, first + 1, 4, 1)
      && forall k {:trigger InodeAt(img, k, 0, 0, 0, 0)} | 2 <= k < sb.nrInodes :: InodeAt(img, k, 0, 0, 0, 0)
    ensures Le32(Image(Layout(size)), 0) == 0x434F5746
  {
    var sb := Layout(size);
    LayoutIsSound(size);
    SuperblockBytesAre(sb);
    InodesReadBack(sb);
    SoundSums(sb);
    forall k | 2 <= k < sb.nrInodes ensures InodeAt(Image(sb), k, 0, 0, 0, 0) {
      UnusedInode(sb, k);
    }
  }

  lemma UnusedInode(sb: Superblock, k: nat)
    requires Ordinary(sb) && 2 <= k < sb.nrInodes
    ensures InodeAt(Image(sb), k, 0, 0, 0, 0)
  {
    UnusedSlice(sb, 16 * k);
    ZeroAt(Image(sb), 4096 + 16 * k);
  }

  lemma UnusedSlice(sb: Superblock, at: nat)
    requires Ordinary(sb) && 32 <= at && at + 16 <= 16 * sb.nrInodes
    ensures 4096 + at + 16 <= |Image(sb)| && Image(sb)[4096 + at..4096 + at + 16] == Zeros(16)
  {
    Regions(sb);
    ZeroSlice(InodeBytes(RootInode(sb)) + InodeBytes(FooInode(sb)), 16 * (sb.nrInodes - 2), at);
    SliceIs(Image(sb), BLOCK_SIZE, StoreBytes(sb), at, at + 16);
  }

  lemma ZeroSlice(front: seq<byte>, n: nat, i: nat)
    requires |front| <= i && i + 16 <= |front| + n
    ensures (front + Zeros(n))[i..i + 16] == Zeros(16)
  {
  }

  /** Sixteen bytes of zero are four numbers of zero. */
  lemma ZeroAt(img: seq<byte>, at: nat)
    requires at + 16 <= |img| && img[at..at + 16] == Zeros(16)
    ensures Le32(img, at) == 0 && Le32(img, at + 4) == 0 && Le32(img, at + 8) == 0 && Le32(img, at + 12) == 0
  {
    ZeroValue(img, at, 0);
    ZeroValue(img, at, 4);
    ZeroValue(img, at, 8);
    ZeroValue(img, at, 12);
  }

  lemma ZeroValue(img: seq<byte>, at: nat, i: nat)
    requires at + 16 <= |img| && img[at..at + 16] == Zeros(16) && i + 4 <= 16
    ensures Le32(img, at + i) == 0
  {
    ValueAt(img, at, Zeros(16), i);
    assert Zeros(16)[i..i + 4] == LittleEndian(0, 4);
    ReadBack32(0);
  }

  /** The last three blocks: an entry "foo" for inode 1, one block number, "foo" with a newline, and nothing else. */
  lemma DataBytesAre(sb: Superblock)
    requires Sound(sb)
    ensures var img := Image(sb); var at := |img| - 12288;
      && at >= 0
      && Le32(img, at) == 1 && img[at + 4..at + 7] == [102, 111, 111]
      && ZeroIn(img, at + 7, at + 4096)
      && Le32(img, at + 4096) == FirstDataBlock(sb) + 2
      && ZeroIn(img, at + 4100, at + 8192)
      && img[at + 8192..at + 8196] == [102, 111, 111, 10]
      && ZeroIn(img, at + 8196, at + 12288)
  {
    var img, at := Image(sb), DataAt(sb);
    DataBlocks(sb);
    IndexNamesData(sb);
    RootEntry(img, at);
    Regions(sb);
    forall y | at + 7 <= y < |img| && !(4096 <= y - at < 4100) && !(8192 <= y - at < 8196) ensures img[y] == 0 {
      assert img[at..][y - at] == DataBytes(sb)[y - at];
    }
  }

  /** The three data blocks, and in which bytes of them anything was written. */
  lemma DataBlocks(sb: Superblock)
    requires Ordinary(sb)
    ensures var img, at := Image(sb), DataAt(sb);
      && |img| == at + 3 * BLOCK_SIZE
      && img[at..at + BLOCK_SIZE] == RootBlock()
      && img[at + BLOCK_SIZE..at + 2 * BLOCK_SIZE] == FooIndexBlock(sb)
      && img[at + 2 * BLOCK_SIZE..at + 3 * BLOCK_SIZE] == FooDataBlock()
  {
    var img, at, d := Image(sb), DataAt(sb), DataBytes(sb);
    Regions(sb);
    assert img[at..] == img[at..|img|];
    SliceOfSlice(img, at, |img|, 0, BLOCK_SIZE);
    SliceOfSlice(img, at, |img|, BLOCK_SIZE, 2 * BLOCK_SIZE);
    SliceOfSlice(img, at, |img|, 2 * BLOCK_SIZE, 3 * BLOCK_SIZE);
    assert d[0..BLOCK_SIZE] == RootBlock();
    assert d[BLOCK_SIZE..2 * BLOCK_SIZE] == FooIndexBlock(sb);
    assert d[2 * BLOCK_SIZE..3 * BLOCK_SIZE] == FooDataBlock();
  }

  // ---------- the read-back theorem ----------

  predicate Aligned(sb: Superblock) {
    INODE_SIZE * sb.nrInodes == BLOCK_SIZE * sb.nrIstoreBlocks
  }

  /** What LayoutSound gives. */
  predicate Sound(sb: Superblock) {
    && Ordinary(sb) && InRange(sb)
    && UsedBlocks(sb) == sb.nrIstoreBlocks + sb.nrIfreeBlocks + sb.nrBfreeBlocks + 4 <= BITS_PER_BLOCK
    && sb.nrInodes % 2 == 0
    && sb.nrInodes <= INODES_PER_BLOCK * sb.nrIstoreBlocks < sb.nrInodes + INODES_PER_BLOCK
  }

  lemma LayoutIsSound(size: nat)
    requires Accepted(size) && FitsFirstBitmapBlock(size)
    ensures Sound(Layout(size))
  {
    LayoutSound(size);
    EvenInodes(Layout(size).nrBlocks);
  }

  lemma EvenInodes(n: nat)
    ensures (n + n % INODES_PER_BLOCK) % 2 == 0
  {
    assert n == 256 * (n / 256) + n % 256;
  }

  /** When the store ends on a block, every region starts where the layout says. */
  lemma AlignedStarts(sb: Superblock)
    requires Sound(sb) && Aligned(sb)
    ensures IfreeStart(sb) == IfreeAt(sb) && BfreeStart(sb) == BfreeAt(sb)
    ensures BLOCK_SIZE * FirstDataBlock(sb) == DataAt(sb)
    ensures RootInode(sb).indexBlock == FirstDataBlock(sb)
    ensures FooInode(sb).indexBlock == FirstDataBlock(sb) + 1
  {
  }

  lemma SoundSums(sb: Superblock)
    requires Sound(sb)
    ensures FirstDataBlock(sb) == 1 + sb.nrIstoreBlocks + sb.nrIfreeBlocks + sb.nrBfreeBlocks
    ensures U32(sb.nrIstoreBlocks + sb.nrIfreeBlocks + sb.nrBfreeBlocks + 3) == FirstDataBlock(sb) + 2
    ensures FirstDataBlock(sb) + 2 < TWO_32
  {
  }

  /** The first entry of the directory block is "foo", inode 1. */
  lemma DirectoryNamesFoo(sb: Superblock)
    requires Ordinary(sb)
    ensures DataAt(sb) + BLOCK_SIZE <= |Image(sb)| && Lookup(Image(sb), DataAt(sb), FOO, 0) == Some(1)
  {
    var img, at := Image(sb), DataAt(sb);
    DataBlocks(sb);
    RootEntry(img, at);
    FirstEntry(img, at, FOO, 1);
  }

  lemma FirstEntry(img: seq<byte>, dir: nat, name: seq<byte>, k: nat)
    requires dir + BLOCK_SIZE <= |img| && |name| < 28 && IsNamed(img, dir, name) && Le32(img, dir) == k
    ensures Lookup(img, dir, name, 0) == Some(k)
  {
  }

  lemma RootEntry(img: seq<byte>, at: nat)
    requires at + BLOCK_SIZE <= |img| && img[at..at + BLOCK_SIZE] == RootBlock()
    ensures IsNamed(img, at, FOO) && Le32(img, at) == 1
  {
    var root := RootBlock();
    RootBlockParts();
    SliceOfSlice(img, at, at + BLOCK_SIZE, 0, 4);
    SliceOfSlice(img, at, at + BLOCK_SIZE, 4, 7);
    assert img[at + 7] == img[at..at + BLOCK_SIZE][7];
    ReadBack32(1);
  }

  lemma RootBlockParts()
    ensures RootBlock()[0..4] == LittleEndian(1, 4) && RootBlock()[4..7] == FOO && RootBlock()[7] == 0
  {
  }

  /** The index block of "foo" points at the block after it, and that holds "foo\n". */
  lemma IndexNamesData(sb: Superblock)
    requires Sound(sb)
    ensures var img, at := Image(sb), DataAt(sb);
      && |img| == at + 3 * BLOCK_SIZE
      && Le32(img, at + BLOCK_SIZE) == FirstDataBlock(sb) + 2
      && img[at + 2 * BLOCK_SIZE..at + 2 * BLOCK_SIZE + 4] == FOO_LINE
  {
    var img, at := Image(sb), DataAt(sb);
    DataBlocks(sb);
    IndexBlockField(img, at + BLOCK_SIZE, sb);
    DataBlockFront(img, at + 2 * BLOCK_SIZE);
  }

  lemma IndexBlockField(img: seq<byte>, at: nat, sb: Superblock)
    requires Sound(sb) && at + BLOCK_SIZE <= |img| && img[at..at + BLOCK_SIZE] == FooIndexBlock(sb)
    ensures Le32(img, at) == FirstDataBlock(sb) + 2
  {
    var first := FirstDataBlock(sb) + 2;
    SoundSums(sb);
    FrontBytes(img, at, LittleEndian(first, 4), Zeros(4092));
    ReadBack32(first);
  }

  lemma DataBlockFront(img: seq<byte>, at: nat)
    requires at + BLOCK_SIZE <= |img| && img[at..at + BLOCK_SIZE] == FooDataBlock()
    ensures img[at..at + 4] == FOO_LINE
  {
    FrontBytes(img, at, FOO_LINE, Zeros(4092));
  }

  lemma FrontBytes(img: seq<byte>, at: nat, front: seq<byte>, rest: seq<byte>)
    requires at + |front| + |rest| <= |img| && img[at..at + |front| + |rest|] == front + rest
    ensures img[at..at + |front|] == front
  {
    SliceOfSlice(img, at, at + |front| + |rest|, 0, |front|);
    assert (front + rest)[0..|front|] == front;
  }

  /** Every block pointer names the block meant. */
  lemma PointersNameBlocks(sb: Superblock)
    requires Sound(sb) && Aligned(sb)
    ensures var img, at := Image(sb), DataAt(sb);
      && |img| == at + 3 * BLOCK_SIZE
      && BLOCK_SIZE * InodeOf(img, 0).indexBlock == at
      && BLOCK_SIZE * InodeOf(img, 1).indexBlock == at + BLOCK_SIZE && InodeOf(img, 1).filesize == 4
      && BLOCK_SIZE * Le32(img, at + BLOCK_SIZE) == at + 2 * BLOCK_SIZE
  {
    AlignedStarts(sb);
    InodesReadBack(sb);
    IndexNamesData(sb);
  }

  /** Then the file is found. */
  lemma AlignedReadsBack(sb: Superblock)
    requires Sound(sb) && Aligned(sb)
    ensures ReadFile(Image(sb), FOO) == Some(FOO_LINE)
  {
    PointersNameBlocks(sb);
    DirectoryNamesFoo(sb);
    IndexNamesData(sb);
    FileFound(Image(sb), DataAt(sb), DataAt(sb) + BLOCK_SIZE, DataAt(sb) + 2 * BLOCK_SIZE);
  }

  lemma FileFound(img: seq<byte>, dir: nat, index: nat, data: nat)
    requires |img| >= 2 * BLOCK_SIZE && dir == BLOCK_SIZE * InodeOf(img, 0).indexBlock
    requires dir + BLOCK_SIZE <= |img| && Lookup(img, dir, FOO, 0) == Some(1)
    requires index == BLOCK_SIZE * InodeOf(img, 1).indexBlock && InodeOf(img, 1).filesize == 4
    requires index + BLOCK_SIZE <= |img| && data == BLOCK_SIZE * Le32(img, index)
    requires data + BLOCK_SIZE <= |img| && img[data..data + 4] == FOO_LINE
    ensures ReadFile(img, FOO) == Some(FOO_LINE)
  {
  }

  /** Past its first entry the data region has no byte set where, counting from its start, a name could be. */
  lemma NoNameThere(sb: Superblock, x: nat)
    requires 32 <= x < 3 * BLOCK_SIZE && x % 32 >= 4
    ensures DataBytes(sb)[x] == 0
  {
  }

  lemma NoName(img: seq<byte>, at: nat)
    requires at + 32 <= |img| && img[at + 4] == 0
    ensures !IsNamed(img, at, FOO)
  {
    assert img[at + 4..at + 7][0] == img[at + 4];
  }

  /** When the store ends within a block, the directory block is looked for too far on, where no entry is named. */
  lemma UnalignedEntry(sb: Superblock, e: nat)
    requires Sound(sb) && !Aligned(sb) && e < 128
    ensures BLOCK_SIZE * FirstDataBlock(sb) + BLOCK_SIZE <= |Image(sb)|
    ensures !IsNamed(Image(sb), BLOCK_SIZE * FirstDataBlock(sb) + 32 * e, FOO)
  {
    var img, at, d := Image(sb), DataAt(sb), Shift(sb);
    UnalignedShift(sb);
    Regions(sb);
    NoNameInEntry(sb, d, e);
    assert img[at + (d + 32 * e + 4)] == img[at..][d + 32 * e + 4];
    NoName(img, at + d + 32 * e);
  }

  lemma NoNameInEntry(sb: Superblock, d: nat, e: nat)
    requires 32 <= d <= BLOCK_SIZE - 32 && d % 32 == 0 && e < 128
    ensures DataBytes(sb)[d + 32 * e + 4] == 0
  {
    assert d + 32 * e + 4 == 32 * (d / 32 + e) + 4;
    NoNameThere(sb, d + 32 * e + 4);
  }

  /** How far short of its last block's end the inode store stops. */
  function Shift(sb: Superblock): int {
    BLOCK_SIZE * sb.nrIstoreBlocks - INODE_SIZE * sb.nrInodes
  }

  lemma UnalignedShift(sb: Superblock)
    requires Sound(sb) && !Aligned(sb)
    ensures 32 <= Shift(sb) <= BLOCK_SIZE - 32 && Shift(sb) % 32 == 0
    ensures BLOCK_SIZE * FirstDataBlock(sb) == DataAt(sb) + Shift(sb)
  {
    SoundSums(sb);
    var h := sb.nrInodes / 2;
    assert sb.nrInodes == 2 * h;
    assert Shift(sb) == 32 * (128 * sb.nrIstoreBlocks - h);
  }

  lemma {:induction false} NothingFound(img: seq<byte>, dir: nat, e: nat)
    requires dir + BLOCK_SIZE <= |img| && e <= 128
    requires forall k {:trigger dir + 32 * k} | e <= k < 128 :: !IsNamed(img, dir + 32 * k, FOO)
    ensures Lookup(img, dir, FOO, e) == None
    decreases 128 - e
  {
    if e < 128 {
      assert !IsNamed(img, dir + 32 * e, FOO);
      NothingFound(img, dir, e + 1);
    }
  }

  lemma UnalignedFindsNothing(sb: Superblock)
    requires Sound(sb) && !Aligned(sb)
    ensures ReadFile(Image(sb), FOO) == None
  {
    var img, dir := Image(sb), BLOCK_SIZE * FirstDataBlock(sb);
    InodesReadBack(sb);
    UnalignedEntry(sb, 0);
    forall e {:trigger dir + 32 * e} | 0 <= e < 128 ensures !IsNamed(img, dir + 32 * e, FOO) {
      UnalignedEntry(sb, e);
    }
    NothingFound(img, dir, 0);
  }

  /**
   The read-back theorem: of every image the program accepts and can write, the file "foo" and its
   contents can be read back exactly when the block count is 0 or 128 modulo 256.
   */
  lemma FooReadsBack(size: nat)
    requires Accepted(size) && FitsFirstBitmapBlock(size)
    ensures var n, found := size / BLOCK_SIZE, ReadFile(Image(Layout(size)), FOO);
      if n % 256 == 0 || n % 256 == 128 then found == Some(FOO_LINE) else found == None
  {
    var sb := Layout(size);
    LayoutSound(size);
    LayoutIsSound(size);
    StoreEndsOnABlock(size);
    if Aligned(sb) {
      AlignedReadsBack(sb);
    } else {
      UnalignedFindsNothing(sb);
    }
  }
}
