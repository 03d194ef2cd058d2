/**
 projet_pnl/src/mkfs-pnlfs.c: works out the layout of a disk image from its size and writes it in
 order: superblock, inode store, the two bitmaps, and three data blocks that hold the file "foo".
 */
module Mkfs {
  import opened Arithmetic
  import opened Bytes

  const MAGIC := 0x434F5746
  const BLOCK_SIZE := 4096
  const INODE_SIZE := 16
  const INODES_PER_BLOCK := 256
  const BITS_PER_BLOCK := 32768
  const WORDS_PER_BLOCK := 512

  /** S_IFDIR with rwxrwxr-x, and S_IFREG with rw-rw-rw-. */
  const ROOT_MODE := 16893
  const FOO_MODE := 33206

  /** "foo" */
  const FOO: seq<byte> := [102, 111, 111]
  /** "foo\n" */
  const FOO_LINE: seq<byte> := [102, 111, 111, 10]

  // ---------- layout ----------

  /** What a uint32_t keeps of a number. */
  function U32(x: int): (r: nat)
    ensures r < TWO_32 && (0 <= x < TWO_32 ==> r == x)
  {
    x % TWO_32
  }

  /** It drops multiples of 2^32. */
  lemma U32Wraps(x: int)
    ensures (x - U32(x)) % 0x1_0000_0000 == 0
  {
    assert x == TWO_32 * (x / TWO_32) + U32(x);
  }

  datatype Superblock = Superblock(
    magic: nat,
    nrBlocks: nat,
    nrInodes: nat,
    nrIstoreBlocks: nat,
    nrIfreeBlocks: nat,
    nrBfreeBlocks: nat,
    nrFreeInodes: nat,
    nrFreeBlocks: nat)

  /** idiv_ceil: the fewest groups of `b` that hold `a`. */
  function IdivCeil(a: nat, b: nat): (r: nat)
    requires b > 0 && a < TWO_32
    ensures a <= r * b < a + b && r < TWO_32
  {
    var ret := a / b;
    assert a == ret * b + a % b;
    assert (ret + 1) * b == ret * b + b;
    if a % b != 0 then ret + 1 else ret
  }

  function Layout(size: nat): (sb: Superblock) {
    var nrBlocks := U32(size / BLOCK_SIZE);
    var mod := nrBlocks % INODES_PER_BLOCK;
    var nrInodes := if mod != 0 then U32(nrBlocks + mod) else nrBlocks;
    var nrIstoreBlocks := IdivCeil(nrInodes, INODES_PER_BLOCK);
    var nrIfreeBlocks := IdivCeil(nrInodes, BITS_PER_BLOCK);
    var nrBfreeBlocks := IdivCeil(nrBlocks, BITS_PER_BLOCK);
    var nrDataBlocks := U32(nrBlocks - 1 - nrIstoreBlocks - nrIfreeBlocks - nrBfreeBlocks);
    Superblock(MAGIC, nrBlocks, nrInodes, nrIstoreBlocks, nrIfreeBlocks, nrBfreeBlocks,
               U32(nrInodes - 2), U32(nrDataBlocks - 3))
  }

  /** The blocks the format itself uses, the three data blocks included. */
  function UsedBlocks(sb: Superblock): nat {
    U32(sb.nrIstoreBlocks + sb.nrIfreeBlocks + sb.nrBfreeBlocks + 4)
  }

  function FirstDataBlock(sb: Superblock): nat {
    U32(1 + sb.nrBfreeBlocks + sb.nrIfreeBlocks + sb.nrIstoreBlocks)
  }

  /** The sizes the program goes on with, its block count fitting the 32 bits it is kept in. */
  predicate Accepted(size: nat) {
    size > 100 * BLOCK_SIZE && size / BLOCK_SIZE < TWO_32
  }

  /** The used blocks are supposed not to go beyond the first block of the bitmap. */
  predicate FitsFirstBitmapBlock(size: nat) {
    UsedBlocks(Layout(size)) <= BITS_PER_BLOCK
  }

  /** The inode count is rounded the wrong way: the store grows by up to two blocks past n / 256. */
  lemma StoreBlocks(n: nat)
    requires n + 256 < TWO_32
    ensures var q, r := n / 256, n % 256;
      IdivCeil(n + r, 256) == if r == 0 then q else if r <= 128 then q + 1 else q + 2
  {
    var q, r := n / 256, n % 256;
    assert n + r == 256 * q + 2 * r;
  }

  /** The counts, short of the top of the 32-bit range. */
  lemma Counts(size: nat)
    requires size / BLOCK_SIZE + 256 < TWO_32
    ensures var n, sb := size / BLOCK_SIZE, Layout(size); var q, r := n / 256, n % 256;
      && sb.nrBlocks == n && sb.nrInodes == n + r
      && sb.nrIstoreBlocks == (if r == 0 then q else if r <= 128 then q + 1 else q + 2)
      && sb.nrIfreeBlocks == IdivCeil(n + r, BITS_PER_BLOCK) && sb.nrBfreeBlocks == IdivCeil(n, BITS_PER_BLOCK)
      && UsedBlocks(sb) == sb.nrIstoreBlocks + sb.nrIfreeBlocks + sb.nrBfreeBlocks + 4
  {
    var n := size / BLOCK_SIZE;
    StoreBlocks(n);
    var i, b := IdivCeil(n + n % 256, BITS_PER_BLOCK), IdivCeil(n, BITS_PER_BLOCK);
    assert i < 200_000 && b < 200_000;
  }

  /** Exactly when they do not. */
  lemma FitsExactly(size: nat)
    requires Accepted(size)
    ensures FitsFirstBitmapBlock(size) <==>
      size / BLOCK_SIZE <= 8_257_920 || size / BLOCK_SIZE == 8_258_048
  {
    var n := size / BLOCK_SIZE;
    if n + 256 < TWO_32 {
      Counts(size);
      CountsFit(n);
    }
  }

  /** At 2^23 blocks they are too many. */
  lemma OverrunsAtTwoTo23(size: nat)
    requires size / BLOCK_SIZE == 0x80_0000
    ensures Accepted(size) && UsedBlocks(Layout(size)) == 33_284 && !FitsFirstBitmapBlock(size)
  {
    Counts(size);
  }

  lemma CountsFit(n: nat)
    requires n + 256 < TWO_32
    ensures var q, r := n / 256, n % 256;
      var store := if r == 0 then q else if r <= 128 then q + 1 else q + 2;
      (store + IdivCeil(n + r, BITS_PER_BLOCK) + IdivCeil(n, BITS_PER_BLOCK) + 4 <= BITS_PER_BLOCK) ==
      (n <= 8_257_920 || n == 8_258_048)
  {
    var i, b := IdivCeil(n + n % 256, BITS_PER_BLOCK), IdivCeil(n, BITS_PER_BLOCK);
    if n <= 8_257_536 {
      assert i <= 253 && b <= 252;
    } else if n <= 8_290_048 {
      assert i == 253 && b == 253;
    } else {
      assert i >= 253 && b >= 253;
    }
  }

  /** For every size that is accepted and fits, no count wraps, and every region has the capacity it needs. */
  lemma LayoutSound(size: nat)
    requires Accepted(size) && FitsFirstBitmapBlock(size)
    ensures var sb := Layout(size);
      && sb.nrBlocks == size / BLOCK_SIZE
      && sb.nrInodes == sb.nrBlocks + sb.nrBlocks % INODES_PER_BLOCK
      && sb.nrFreeInodes == sb.nrInodes - 2
      && sb.nrFreeBlocks == sb.nrBlocks - UsedBlocks(sb)
      && UsedBlocks(sb) == 1 + sb.nrIstoreBlocks + sb.nrIfreeBlocks + sb.nrBfreeBlocks + 3
      && FirstDataBlock(sb) == UsedBlocks(sb) - 3
      && 0 < sb.nrIfreeBlocks && 0 < sb.nrBfreeBlocks && UsedBlocks(sb) < sb.nrBlocks
      && sb.nrInodes <= INODES_PER_BLOCK * sb.nrIstoreBlocks < sb.nrInodes + INODES_PER_BLOCK
      && sb.nrInodes <= BITS_PER_BLOCK * sb.nrIfreeBlocks < sb.nrInodes + BITS_PER_BLOCK
      && sb.nrBlocks <= BITS_PER_BLOCK * sb.nrBfreeBlocks < sb.nrBlocks + BITS_PER_BLOCK
  {
    FitsExactly(size);
    Counts(size);
  }

  /** The inodes written fill the inode store to the end of its last block for just two sizes in 256. */
  lemma StoreEndsOnABlock(size: nat)
    requires Accepted(size) && FitsFirstBitmapBlock(size)
    ensures var sb := Layout(size);
      INODE_SIZE * sb.nrInodes == BLOCK_SIZE * sb.nrIstoreBlocks <==>
        sb.nrBlocks % 256 == 0 || sb.nrBlocks % 256 == 128
  {
    LayoutSound(size);
    var sb := Layout(size);
    StoreEnds(sb.nrBlocks / 256, sb.nrBlocks % 256, sb.nrInodes, sb.nrIstoreBlocks);
  }

  lemma StoreEnds(q: nat, r: nat, inodes: nat, blocks: nat)
    requires r < 256 && inodes == 256 * q + r + r && inodes <= 256 * blocks < inodes + 256
    ensures 16 * inodes == 4096 * blocks <==> r == 0 || r == 128
  {
  }

  // ---------- what is written ----------

  /** A run of 32-bit fields. */
  function Fields(xs: seq<nat>): (r: seq<byte>)
    ensures |r| == 4 * |xs|
  {
    if xs == [] then [] else LittleEndian(xs[0], 4) + Fields(xs[1..])
  }

  function SuperblockBytes(sb: Superblock): (r: seq<byte>)
    ensures |r| == BLOCK_SIZE
  {
    Fields([sb.magic, sb.nrBlocks, sb.nrInodes, sb.nrIstoreBlocks, sb.nrIfreeBlocks, sb.nrBfreeBlocks,
            sb.nrFreeInodes, sb.nrFreeBlocks]) + Zeros(4064)
  }

  datatype Inode = Inode(mode: nat, indexBlock: nat, filesize: nat, nrUsedOrEntries: nat)

  function InodeBytes(inode: Inode): (r: seq<byte>)
    ensures |r| == INODE_SIZE
  {
    Fields([inode.mode, inode.indexBlock, inode.filesize, inode.nrUsedOrEntries])
  }

  function RootInode(sb: Superblock): Inode {
    Inode(ROOT_MODE, FirstDataBlock(sb), BLOCK_SIZE, 1)
  }

  function FooInode(sb: Superblock): Inode {
    Inode(FOO_MODE, U32(FirstDataBlock(sb) + 1), |FOO_LINE|, 1)
  }

  function UnusedInodes(sb: Superblock): nat {
    if sb.nrInodes < 2 then 0 else sb.nrInodes - 2
  }

  function StoreBytes(sb: Superblock): (r: seq<byte>)
    ensures |r| == INODE_SIZE * (2 + UnusedInodes(sb))
  {
    InodeBytes(RootInode(sb)) + InodeBytes(FooInode(sb)) + Zeros(INODE_SIZE * UnusedInodes(sb))
  }

  /** An array of 64-bit words as it lies in memory. */
  function WordsBytes(ws: seq<nat>): (r: seq<byte>)
    ensures |r| == 8 * |ws|
  {
    if ws == [] then [] else WordsBytes(ws[..|ws| - 1]) + LittleEndian(ws[|ws| - 1], 8)
  }

  /** Bitmap blocks all of whose bits are set. */
  function FreeBlocks(n: nat): (r: seq<byte>)
    ensures |r| == BLOCK_SIZE * n
  {
    OnesBytes(BLOCK_SIZE * n)
  }

  function FirstIfreeWords(): (r: seq<nat>)
    ensures |r| == WORDS_PER_BLOCK && r[0] == 0xffff_ffff_ffff_fffc
    ensures forall w {:trigger r[w]} | 0 < w < WORDS_PER_BLOCK :: r[w] == ALL_ONES
  {
    seq(WORDS_PER_BLOCK, i => if i == 0 then 0xffff_ffff_ffff_fffc else ALL_ONES)
  }

  /** A word of all ones whose `k` lowest bits were then cleared one by one. */
  function LowClear(k: nat): (r: nat)
    ensures r <= ALL_ONES
  {
    if k == 0 then ALL_ONES else AndNot(LowClear(k - 1), Pow2(k - 1))
  }

  function AtMost64(n: nat): nat {
    if n < 64 then n else 64
  }

  /** Word `w` of a bitmap whose first `used` bits are clear. */
  function UsedWord(used: nat, w: nat): (r: nat)
    ensures r <= ALL_ONES
  {
    if used <= 64 * w then ALL_ONES else LowClear(AtMost64(used - 64 * w))
  }

  function FirstBfreeWords(used: nat): (r: seq<nat>)
    ensures |r| == WORDS_PER_BLOCK && forall w {:trigger r[w]} | 0 <= w < |r| :: r[w] == UsedWord(used, w)
  {
    seq(WORDS_PER_BLOCK, w requires 0 <= w < WORDS_PER_BLOCK => UsedWord(used, w))
  }

  function OneLess(n: nat): nat {
    if n == 0 then 0 else n - 1
  }

  function IfreeBytes(sb: Superblock): (r: seq<byte>)
    ensures |r| == BLOCK_SIZE * (1 + OneLess(sb.nrIfreeBlocks))
  {
    WordsBytes(FirstIfreeWords()) + FreeBlocks(OneLess(sb.nrIfreeBlocks))
  }

  function BfreeBytes(sb: Superblock): (r: seq<byte>)
    ensures |r| == BLOCK_SIZE * (1 + OneLess(sb.nrBfreeBlocks))
  {
    WordsBytes(FirstBfreeWords(UsedBlocks(sb))) + FreeBlocks(OneLess(sb.nrBfreeBlocks))
  }

  function RootBlock(): (r: seq<byte>)
    ensures |r| == BLOCK_SIZE
  {
    LittleEndian(1, 4) + FOO + Zeros(4089)
  }

  function FooIndexBlock(sb: Superblock): (r: seq<byte>)
    ensures |r| == BLOCK_SIZE
  {
    LittleEndian(U32(sb.nrIstoreBlocks + sb.nrIfreeBlocks + sb.nrBfreeBlocks + 3), 4) + Zeros(4092)
  }

  function FooDataBlock(): (r: seq<byte>)
    ensures |r| == BLOCK_SIZE
  {
    FOO_LINE + Zeros(4092)
  }

  function DataBytes(sb: Superblock): (r: seq<byte>)
    ensures |r| == 3 * BLOCK_SIZE
  {
    RootBlock() + FooIndexBlock(sb) + FooDataBlock()
  }

  function Image(sb: Superblock): seq<byte> {
    SuperblockBytes(sb) + StoreBytes(sb) + IfreeBytes(sb) + BfreeBytes(sb) + DataBytes(sb)
  }

  // ---------- the program ----------

  /** The open disk image, written in order from its start. */
  class Disk {
    var bytes: seq<byte>

    constructor ()
      ensures bytes == []
    {
      bytes := [];
    }

    method Write(b: seq<byte>)
      modifies this
      ensures bytes == old(bytes) + b
    {
      bytes := bytes + b;
    }
  }

  method WriteSuperblock(disk: Disk, size: nat) returns (sb: Superblock)
    modifies disk
    ensures sb == Layout(size) && disk.bytes == old(disk.bytes) + SuperblockBytes(sb)
  {
    sb := Layout(size);
    disk.Write(SuperblockBytes(sb));
  }

  method WriteInodeStore(disk: Disk, sb: Superblock)
    modifies disk
    ensures disk.bytes == old(disk.bytes) + StoreBytes(sb)
  {
    var firstDataBlock := FirstDataBlock(sb);
    disk.Write(InodeBytes(Inode(ROOT_MODE, firstDataBlock, BLOCK_SIZE, 1)));
    firstDataBlock := U32(firstDataBlock + 1);
    disk.Write(InodeBytes(Inode(FOO_MODE, firstDataBlock, |FOO_LINE|, 1)));
    ghost var start := disk.bytes;
    var i := 2;
    while i < sb.nrInodes
      invariant 2 <= i <= UnusedInodes(sb) + 2
      invariant disk.bytes == start + Zeros(INODE_SIZE * (i - 2))
    {
      disk.Write(Zeros(INODE_SIZE));
      ZerosAdd(INODE_SIZE * (i - 2), INODE_SIZE);
      Joined(start, Zeros(INODE_SIZE * (i - 2)), Zeros(INODE_SIZE));
      i := i + 1;
    }
    StoreJoined(old(disk.bytes), sb);
  }

  lemma StoreJoined(before: seq<byte>, sb: Superblock)
    ensures before + InodeBytes(RootInode(sb)) + InodeBytes(FooInode(sb)) + Zeros(INODE_SIZE * UnusedInodes(sb))
      == before + StoreBytes(sb)
  {
    var root, foo := InodeBytes(RootInode(sb)), InodeBytes(FooInode(sb));
    Joined(before, root, foo);
    Joined(before, root + foo, Zeros(INODE_SIZE * UnusedInodes(sb)));
  }

  lemma Joined(a: seq<byte>, b: seq<byte>, c: seq<byte>)
    ensures a + b + c == a + (b + c)
  {
  }

  lemma ZerosAdd(a: nat, b: nat)
    ensures Zeros(a) + Zeros(b) == Zeros(a + b)
  {
  }

  method WriteIfreeBlocks(disk: Disk, sb: Superblock)
    modifies disk
    ensures disk.bytes == old(disk.bytes) + IfreeBytes(sb)
  {
    var ifree := new nat[WORDS_PER_BLOCK](_ => ALL_ONES);
    ifree[0] := 0xffff_ffff_ffff_fffc;
    assert ifree[..] == FirstIfreeWords();
    disk.Write(WordsBytes(ifree[..]));
    ghost var start := disk.bytes;
    ifree[0] := ALL_ONES;
    AllOnesBytes(ifree[..]);
    var i := 1;
    while i < sb.nrIfreeBlocks
      invariant 1 <= i <= 1 + OneLess(sb.nrIfreeBlocks)
      invariant forall w | 0 <= w < WORDS_PER_BLOCK :: ifree[w] == ALL_ONES
      invariant WordsBytes(ifree[..]) == FreeBlocks(1)
      invariant disk.bytes == start + FreeBlocks(i - 1)
    {
      disk.Write(WordsBytes(ifree[..]));
      FreeBlocksAdd(i - 1);
      i := i + 1;
    }
  }

  lemma FreeBlocksAdd(n: nat)
    ensures FreeBlocks(n) + FreeBlocks(1) == FreeBlocks(n + 1)
  {
  }

  lemma {:induction false} AllOnesBytes(ws: seq<nat>)
    requires forall i | 0 <= i < |ws| :: ws[i] == ALL_ONES
    ensures WordsBytes(ws) == OnesBytes(8 * |ws|)
  {
    if ws != [] {
      AllOnesBytes(ws[..|ws| - 1]);
      AllOnesWord();
    }
  }

  lemma AllOnesWord()
    ensures LittleEndian(ALL_ONES, 8) == OnesBytes(8)
  {
    OnesInBytes(8);
    assert Pow256(2) == 0x1_0000;
    assert Pow256(4) == TWO_32;
    assert Pow256(6) == 0x1_0000_0000_0000;
    assert Pow256(8) == TWO_64;
  }

  lemma {:induction false} OnesInBytes(n: nat)
    ensures Pow256(n) > 0 && LittleEndian(Pow256(n) - 1, n) == OnesBytes(n)
  {
    if n > 0 {
      OnesInBytes(n - 1);
      assert (Pow256(n) - 1) % 256 == 255 && (Pow256(n) - 1) / 256 == Pow256(n - 1) - 1;
      assert [255] + OnesBytes(n - 1) == OnesBytes(n);
    }
  }

  /** The inner loop: clears the low bits of a word with a mask that is shifted until it falls out of it. */
  method ClearWord(nrUsed: nat) returns (line: nat, rest: nat)
    requires nrUsed > 0
    ensures line == LowClear(AtMost64(nrUsed)) && rest == nrUsed - AtMost64(nrUsed)
  {
    line, rest := ALL_ONES, nrUsed;
    var mask := 1;
    ghost var k := 0;
    while mask != 0
      invariant k <= 64 && k < nrUsed && rest == nrUsed - k && line == LowClear(k)
      invariant mask == if k == 64 then 0 else Pow2(k)
      decreases 64 - k
    {
      line := AndNot(line, mask);
      rest := rest - 1;
      k := k + 1;
      if rest == 0 {
        break;
      }
      ShiftMask(k - 1);
      mask := mask * 2 % TWO_64;
    }
  }

  /**
     The loop that clears a bit for each used block, word by word. With more used blocks than the buffer has
     bits it goes on past its end; here it stops and says so.
   */
  method ClearUsed(bfree: array<nat>, used: nat) returns (overran: bool)
    requires bfree.Length == WORDS_PER_BLOCK
    requires forall w | 0 <= w < WORDS_PER_BLOCK :: bfree[w] == ALL_ONES
    modifies bfree
    ensures overran <==> used > BITS_PER_BLOCK
    ensures bfree[..] == FirstBfreeWords(used)
  {
    var nrUsed, i := used, 0;
    overran := false;
    while nrUsed != 0
      invariant i <= WORDS_PER_BLOCK && !overran
      invariant ClearedUpTo(used, i, nrUsed) && PartlyCleared(bfree[..], used, i)
      decreases nrUsed
    {
      if i == WORDS_PER_BLOCK {
        overran := true;
        break;
      }
      nrUsed := ClearOneWord(bfree, i, used, nrUsed);
      i := i + 1;
    }
    WordsCleared(bfree[..], used, i, nrUsed);
  }

  /** One turn of that loop. */
  method ClearOneWord(bfree: array<nat>, i: nat, ghost used: nat, nrUsed: nat) returns (rest: nat)
    requires bfree.Length == WORDS_PER_BLOCK && i < WORDS_PER_BLOCK && nrUsed > 0
    requires ClearedUpTo(used, i, nrUsed) && PartlyCleared(bfree[..], used, i)
    modifies bfree
    ensures rest < nrUsed && ClearedUpTo(used, i + 1, rest) && PartlyCleared(bfree[..], used, i + 1)
  {
    var line;
    line, rest := ClearWord(nrUsed);
    WordDone(used, i, nrUsed, line, rest);
    OneMoreWord(bfree[..], used, i);
    bfree[i] := line;
    assert bfree[..] == old(bfree[..])[i := line];
  }

  /** The first `i` words are what they should be, and the others are still as they were. */
  predicate PartlyCleared(ws: seq<nat>, used: nat, i: nat) {
    && |ws| == WORDS_PER_BLOCK
    && (forall w | 0 <= w < WORDS_PER_BLOCK && w < i :: ws[w] == UsedWord(used, w))
    && (forall w | i <= w < WORDS_PER_BLOCK :: ws[w] == ALL_ONES)
  }

  lemma OneMoreWord(ws: seq<nat>, used: nat, i: nat)
    requires PartlyCleared(ws, used, i) && i < WORDS_PER_BLOCK
    ensures PartlyCleared(ws[i := UsedWord(used, i)], used, i + 1)
  {
  }

  lemma WordsCleared(ws: seq<nat>, used: nat, i: nat, nrUsed: nat)
    requires PartlyCleared(ws, used, i) && ClearedUpTo(used, i, nrUsed) && (nrUsed > 0 ==> i == WORDS_PER_BLOCK)
    ensures ws == FirstBfreeWords(used)
  {
    forall w | 0 <= w < WORDS_PER_BLOCK ensures ws[w] == UsedWord(used, w) {
    }
  }

  /** The bits still to be cleared, after `i` words. */
  predicate ClearedUpTo(used: nat, i: nat, nrUsed: nat) {
    if nrUsed == 0 then used <= 64 * i else used == 64 * i + nrUsed
  }

  lemma WordDone(used: nat, i: nat, nrUsed: nat, line: nat, rest: nat)
    requires nrUsed > 0 && ClearedUpTo(used, i, nrUsed)
    requires line == LowClear(AtMost64(nrUsed)) && rest == nrUsed - AtMost64(nrUsed)
    ensures line == UsedWord(used, i) && ClearedUpTo(used, i + 1, rest)
  {
  }

  lemma ShiftMask(k: nat)
    requires k < 64
    ensures Pow2(k) * 2 % TWO_64 == if k == 63 then 0 else Pow2(k + 1)
  {
    Pow2Of64();
    Pow2Grows(k + 1, 64);
    if k < 63 {
      Pow2Grows(k + 1, 63);
    }
  }

  method WriteBfreeBlocks(disk: Disk, sb: Superblock) returns (overran: bool)
    modifies disk
    ensures overran <==> UsedBlocks(sb) > BITS_PER_BLOCK
    ensures !overran ==> disk.bytes == old(disk.bytes) + BfreeBytes(sb)
  {
    var bfree := new nat[WORDS_PER_BLOCK](_ => ALL_ONES);
    overran := ClearUsed(bfree, UsedBlocks(sb));
    if overran {
      return;
    }
    disk.Write(WordsBytes(bfree[..]));
    forall w | 0 <= w < WORDS_PER_BLOCK {
      bfree[w] := ALL_ONES;
    }
    WriteFreeBlocks(disk, bfree, sb.nrBfreeBlocks);
  }

  /** The blocks of a bitmap after the first, from a buffer of ones. */
  method WriteFreeBlocks(disk: Disk, bfree: array<nat>, nrBlocks: nat)
    requires bfree.Length == WORDS_PER_BLOCK && forall w | 0 <= w < WORDS_PER_BLOCK :: bfree[w] == ALL_ONES
    modifies disk
    ensures disk.bytes == old(disk.bytes) + FreeBlocks(OneLess(nrBlocks))
  {
    AllOnesBytes(bfree[..]);
    var i := 1;
    while i < nrBlocks
      invariant 1 <= i <= 1 + OneLess(nrBlocks)
      invariant WordsBytes(bfree[..]) == FreeBlocks(1)
      invariant disk.bytes == old(disk.bytes) + FreeBlocks(i - 1)
    {
      disk.Write(WordsBytes(bfree[..]));
      FreeBlocksAdd(i - 1);
      i := i + 1;
    }
  }

  method WriteDataBlocks(disk: Disk, sb: Superblock)
    modifies disk
    ensures disk.bytes == old(disk.bytes) + DataBytes(sb)
  {
    var firstBlock := U32(sb.nrIstoreBlocks + sb.nrIfreeBlocks + sb.nrBfreeBlocks + 3);
    disk.Write(LittleEndian(1, 4) + FOO + Zeros(4089));
    disk.Write(LittleEndian(firstBlock, 4) + Zeros(4092));
    disk.Write(FOO_LINE + Zeros(4092));
  }

  /** How the program ends: with a message, past the end of a buffer, or with an image. */
  datatype Outcome = Refused | Overran | Formatted

  /** main, once the image is open and its size known. */
  method Format(disk: Disk, size: nat) returns (r: Outcome)
    requires disk.bytes == []
    modifies disk
    ensures r.Refused? <==> size <= 100 * BLOCK_SIZE
    ensures r.Overran? <==> size > 100 * BLOCK_SIZE && !FitsFirstBitmapBlock(size)
    ensures r.Refused? ==> disk.bytes == []
    ensures r.Formatted? ==> disk.bytes == Image(Layout(size))
  {
    if size <= 100 * BLOCK_SIZE {
      return Refused;
    }
    var sb := WriteSuperblock(disk, size);
    WriteInodeStore(disk, sb);
    WriteIfreeBlocks(disk, sb);
    var overran := WriteBfreeBlocks(disk, sb);
    if overran {
      return Overran;
    }
    WriteDataBlocks(disk, sb);
    assert [] + SuperblockBytes(sb) == SuperblockBytes(sb);
    return Formatted;
  }
}
