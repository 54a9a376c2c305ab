/** Mounting: which layouts are accepted, and where an accepted layout keeps each inode. */
module InodeTable {
  import opened Geometry

  const EXT2_ROOT_INO: nat := 2
  const GOOD_OLD_INODE_SIZE: nat := 128
  const GOOD_OLD_FIRST_INO: nat := 11

  /** The fields of the on-disk superblock that fix the layout. */
  datatype SuperBlock = SuperBlock(
    revLevel: u32, inodeSize: u32, firstIno: u32, blocksPerGroup: u32, inodesPerGroup: u32,
    blocksCount: u32, firstDataBlock: u32, inodesCount: u32)

  datatype Mount = Mounted(geo: Geo) | Refused

  predicate BlockSizeOk(bs: nat) { bs == 1024 || bs == 2048 || bs == 4096 }

  predicate IsPow2(n: nat) { exists e: nat :: e <= 12 && Pow2(e) == n }

  /** Revision 0 has fixed inodes; later ones name a size, a power of two from 128 up to the block size. */
  predicate InodeSizeOk(es: SuperBlock, blockSize: nat)
  {
    es.revLevel == 0 || (IsPow2(es.inodeSize) && GOOD_OLD_INODE_SIZE <= es.inodeSize <= blockSize)
  }

  /** Bitmaps of one block cover a group, and no group is empty. */
  predicate GroupSizesOk(es: SuperBlock, blockSize: nat)
  {
    0 < es.blocksPerGroup <= 8 * blockSize && 0 < es.inodesPerGroup <= 8 * blockSize
  }

  /** The layout that the superblock describes. */
  function Layout(es: SuperBlock, blockSize: nat, sbBlock: nat, gdb: nat, descs: seq<Desc>): (geo: Geo)
    requires BlockSizeOk(blockSize) && InodeSizeOk(es, blockSize)
    ensures geo.inodeSize > 0 && geo.InodesPerBlock() > 0
  {
    var early := es.revLevel == 0;
    var geo := Geo(blockSize, es.blocksPerGroup, es.firstDataBlock, es.blocksCount, sbBlock, gdb, es.inodesPerGroup,
                   if early then GOOD_OLD_INODE_SIZE else es.inodeSize,
                   if early then GOOD_OLD_FIRST_INO else es.firstIno, es.inodesCount, descs);
    DivMod(blockSize, geo.inodeSize);
    geo
  }

  /** `s_groups_count`; the subtraction is one on 32 bits (super.c:653-655). */
  function GroupCount(es: SuperBlock): nat
    requires es.blocksPerGroup > 0
  {
    DivMod((es.blocksCount - es.firstDataBlock - 1) % 0x1_0000_0000, es.blocksPerGroup);
    (es.blocksCount - es.firstDataBlock - 1) % 0x1_0000_0000 / es.blocksPerGroup + 1
  }

  /** What a mount asks for. */
  predicate Mountable(es: SuperBlock, blockSize: nat, sbBlock: nat, gdb: nat, descs: seq<Desc>)
    requires BlockSizeOk(blockSize)
  {
    && InodeSizeOk(es, blockSize) && GroupSizesOk(es, blockSize)
    && var geo := Layout(es, blockSize, sbBlock, gdb, descs); forall k :: 0 <= k < |descs| ==> Passes(geo, k)
  }

  /** In numbers: a power of two from 128 up to the block size, groups that one bitmap block covers, and in every group
      bitmaps and table between the group's first and last block, the table's end taken on 32 bits. */
  lemma MountableMeans(es: SuperBlock, blockSize: nat, sbBlock: nat, gdb: nat, descs: seq<Desc>)
    requires blockSize == 1024 || blockSize == 2048 || blockSize == 4096
    ensures var inodeSize: nat := if es.revLevel == 0 then 128 else es.inodeSize;
            Mountable(es, blockSize, sbBlock, gdb, descs) <==>
              && inodeSize in {128, 256, 512, 1024, 2048, 4096} && inodeSize <= blockSize
              && 0 < es.blocksPerGroup <= 8 * blockSize && 0 < es.inodesPerGroup <= 8 * blockSize
              && forall k :: 0 <= k < |descs| ==>
                   var first := k * es.blocksPerGroup + es.firstDataBlock;
                   var last := if k + 1 == |descs| then (es.blocksCount - 1) % 0x1_0000_0000
                               else first + es.blocksPerGroup - 1;
                   && first <= descs[k].blockBitmap <= last && first <= descs[k].inodeBitmap <= last
                   && first <= descs[k].inodeTable && blockSize / inodeSize > 0
                   && (descs[k].inodeTable + es.inodesPerGroup / (blockSize / inodeSize) - 1) % 0x1_0000_0000 <= last
  {
    SizesArePowers(es.inodeSize);
    hide IsPow2, Passes, Layout;
    if InodeSizeOk(es, blockSize) {
      forall k | 0 <= k < |descs|
        ensures var inodeSize: nat := if es.revLevel == 0 then 128 else es.inodeSize;
                var first := k * es.blocksPerGroup + es.firstDataBlock;
                var last := if k + 1 == |descs| then (es.blocksCount - 1) % 0x1_0000_0000
                            else first + es.blocksPerGroup - 1;
                blockSize / inodeSize > 0 &&
                (Passes(Layout(es, blockSize, sbBlock, gdb, descs), k) <==>
                   && first <= descs[k].blockBitmap <= last && first <= descs[k].inodeBitmap <= last
                   && first <= descs[k].inodeTable
                   && (descs[k].inodeTable + es.inodesPerGroup / (blockSize / inodeSize) - 1) % 0x1_0000_0000 <= last)
      {
        PassesMeans(es, blockSize, sbBlock, gdb, descs, k);
      }
    }
  }

  lemma PassesMeans(es: SuperBlock, blockSize: nat, sbBlock: nat, gdb: nat, descs: seq<Desc>, k: nat)
    requires BlockSizeOk(blockSize) && InodeSizeOk(es, blockSize) && k < |descs|
    ensures var inodeSize: nat := if es.revLevel == 0 then 128 else es.inodeSize;
            var first := k * es.blocksPerGroup + es.firstDataBlock;
            var last := if k + 1 == |descs| then (es.blocksCount - 1) % 0x1_0000_0000
                        else first + es.blocksPerGroup - 1;
            inodeSize > 0 && blockSize / inodeSize > 0 &&
            (Passes(Layout(es, blockSize, sbBlock, gdb, descs), k) <==>
               && first <= descs[k].blockBitmap <= last && first <= descs[k].inodeBitmap <= last
               && first <= descs[k].inodeTable
               && (descs[k].inodeTable + es.inodesPerGroup / (blockSize / inodeSize) - 1) % 0x1_0000_0000 <= last)
  {
    hide IsPow2;
    assert Layout(es, blockSize, sbBlock, gdb, descs).InodesPerBlock() > 0;
  }

  lemma SizesArePowers(n: nat)
    ensures IsPow2(n) && n >= 128 <==> n in {128, 256, 512, 1024, 2048, 4096}
  {
    assert Pow2(7) == 128 && Pow2(8) == 256 && Pow2(9) == 512 && Pow2(10) == 1024 && Pow2(11) == 2048
           && Pow2(12) == 4096;
    if IsPow2(n) && n >= 128 {
      var e: nat :| e <= 12 && Pow2(e) == n;
      PowersUpTo(e);
    }
  }

  /** The geometry part of `ext2_fill_super` (super.c:603-655, 676). */
  method FillSuper(es: SuperBlock, blockSize: nat, sbBlock: nat, gdb: nat, descs: seq<Desc>) returns (r: Mount)
    requires BlockSizeOk(blockSize)
    requires es.blocksPerGroup > 0 ==>
               |descs| == (es.blocksCount - es.firstDataBlock - 1) % 0x1_0000_0000 / es.blocksPerGroup + 1
    ensures r.Mounted? <==> Mountable(es, blockSize, sbBlock, gdb, descs)
    // Revision 0 has inodes of 128 bytes and numbers from 11 on; later superblocks say what theirs are.
    ensures r.Mounted? ==>
              && r.geo.inodeSize == (if es.revLevel == 0 then 128 else es.inodeSize)
              && r.geo.firstIno == (if es.revLevel == 0 then 11 else es.firstIno)
              && r.geo.blockSize == blockSize && r.geo.sbBlock == sbBlock && r.geo.gdbCount == gdb
              && r.geo.descs == descs && r.geo.blocksPerGroup == es.blocksPerGroup
              && r.geo.inodesPerGroup == es.inodesPerGroup && r.geo.blocksCount == es.blocksCount
              && r.geo.firstDataBlock == es.firstDataBlock && r.geo.inodesCount == es.inodesCount
    ensures r.Mounted? ==> r.geo == Layout(es, blockSize, sbBlock, gdb, descs) && Even(r.geo)
    // Only a superblock that counts no blocks at all can be mounted without describing a disk.
    ensures r.Mounted? && es.blocksCount > 0 ==>
              r.geo.SizesOk() && forall k :: 0 <= k < |descs| ==> (r.geo.DescOk(k) <==> TableFits(r.geo, k))
  {
    var inodeSize, firstIno := GOOD_OLD_INODE_SIZE, GOOD_OLD_FIRST_INO;
    assert Pow2(7) == 128;
    if es.revLevel != 0 {
      inodeSize, firstIno := es.inodeSize, es.firstIno;
      if inodeSize < GOOD_OLD_INODE_SIZE || !IsPow2(inodeSize) || inodeSize > blockSize { return Refused; }
    }
    if es.inodesPerGroup == 0 { return Refused; }
    if es.blocksPerGroup > blockSize * 8 { return Refused; }
    if es.inodesPerGroup > blockSize * 8 { return Refused; }
    if es.blocksPerGroup == 0 { return Refused; }
    var geo := Geo(blockSize, es.blocksPerGroup, es.firstDataBlock, es.blocksCount, sbBlock, gdb, es.inodesPerGroup,
                   inodeSize, firstIno, es.inodesCount, descs);
    assert geo == Layout(es, blockSize, sbBlock, gdb, descs);
    var ok := CheckDescriptors(geo);
    if !ok { return Refused; }
    PowersAreEven(geo);
    if es.blocksCount > 0 {
      BlocksBehindFirst(geo);
      forall k | 0 <= k < |descs|
        ensures geo.DescOk(k) <==> TableFits(geo, k)
      {
        PassesIsOwn(geo, k);
      }
    }
    return Mounted(geo);
  }

  /** The end of the inode table of group `k` does not wrap at 32 bits. */
  predicate TableFits(geo: Geo, k: nat)
    requires k < geo.Groups() && geo.inodeSize > 0 && geo.InodesPerBlock() > 0
  {
    geo.descs[k].inodeTable + geo.TableBlocks() <= 0x1_0000_0000
  }

  /** What one round of `ext2_check_descriptors` lets pass; the end of the table is computed on 32 bits. */
  predicate Passes(geo: Geo, k: nat)
    requires k < geo.Groups() && geo.inodeSize > 0 && geo.InodesPerBlock() > 0
  {
    var d := geo.descs[k];
    && geo.First(k) <= d.blockBitmap <= geo.Last(k)
    && geo.First(k) <= d.inodeBitmap <= geo.Last(k)
    && geo.First(k) <= d.inodeTable && (d.inodeTable + geo.TableBlocks() - 1) % 0x1_0000_0000 <= geo.Last(k)
  }

  /** A group that passes keeps bitmaps and table to itself if and only if the end of its table does not wrap; and a
      group that does so, with a table that has an end, passes. */
  lemma PassesIsOwn(geo: Geo, k: nat)
    requires geo.SizesOk() && geo.blocksCount < 0x1_0000_0000 && k < geo.Groups() && geo.InodesPerBlock() > 0
    ensures Passes(geo, k) ==> (geo.DescOk(k) <==> TableFits(geo, k))
    ensures Passes(geo, k) && TableFits(geo, k) <==> geo.DescOk(k) && geo.descs[k].inodeTable + geo.TableBlocks() > 0
  {
    hide Geo.First, Geo.TableBlocks, Geo.InodesPerBlock, Geo.SizesOk;
    GroupsInOrder(geo, k);
    assert geo.Last(k) == geo.End(k) - 1 by { InLastBlock(geo, k); }
  }

  lemma InLastBlock(geo: Geo, k: nat)
    requires geo.SizesOk() && geo.blocksCount < 0x1_0000_0000 && k < geo.Groups()
    ensures geo.Last(k) == geo.End(k) - 1
  {
    hide Geo.First;
  }

  /** The bitmap of the last group lies behind `s_first_data_block` and before `s_blocks_count`. */
  lemma BlocksBehindFirst(geo: Geo)
    requires BlockSizeOk(geo.blockSize) && 128 <= geo.inodeSize <= geo.blockSize && geo.InodesPerBlock() > 0
    requires 0 < geo.blocksPerGroup <= 8 * geo.blockSize && 0 < geo.inodesPerGroup <= 8 * geo.blockSize
    requires 0 < geo.blocksCount < 0x1_0000_0000 && geo.firstDataBlock < 0x1_0000_0000
    requires geo.Groups() == (geo.blocksCount - geo.firstDataBlock - 1) % 0x1_0000_0000 / geo.blocksPerGroup + 1
    requires forall k :: 0 <= k < geo.Groups() ==> Passes(geo, k)
    ensures geo.SizesOk()
  {
    hide Geo.InodesPerBlock, Geo.TableBlocks;
    LastGroupBehindFirst(geo);
    NoWrap(geo.blocksCount, geo.firstDataBlock);
  }

  lemma LastGroupBehindFirst(geo: Geo)
    requires geo.inodeSize > 0 && geo.InodesPerBlock() > 0 && geo.Groups() > 0 && Passes(geo, geo.Groups() - 1)
    requires 0 < geo.blocksCount < 0x1_0000_0000
    ensures geo.firstDataBlock < geo.blocksCount
  {
    hide Geo.InodesPerBlock, Geo.TableBlocks, Geo.First;
    NotBefore(geo, geo.Groups() - 1);
  }

  lemma NotBefore(geo: Geo, k: nat)
    ensures geo.firstDataBlock <= geo.First(k)
  {
  }

  lemma NoWrap(count: nat, first: nat)
    requires first < count < 0x1_0000_0000
    ensures (count - first - 1) % 0x1_0000_0000 == count - first - 1
  {
  }

  /** A superblock that counts no blocks passes for one of 2^32: no check of the mount refuses it. */
  lemma NoBlocksMounts() returns (es: SuperBlock, descs: seq<Desc>)
    ensures es.blocksCount == 0 && es.blocksPerGroup > 0 && |descs| == GroupCount(es)
    ensures Mountable(es, 1024, 1, 1, descs)
  {
    es := SuperBlock(0, 128, 11, 8192, 8, 0, 0, 16);
    descs := seq(524288, k requires 0 <= k < 524288 => (FirstOf(k); Desc(k * 8192 + 3, k * 8192 + 4, k * 8192 + 5)));
    var geo := Layout(es, 1024, 1, 1, descs);
    forall k | 0 <= k < |descs|
      ensures Passes(geo, k)
    {
      FirstOf(k);
      assert geo.TableBlocks() == 1 && geo.Groups() == 524288;
    }
  }

  lemma FirstOf(k: nat)
    requires k < 524288
    ensures k * 8192 + 8192 <= 0x1_0000_0000
    ensures k + 1 == 524288 ==> k * 8192 + 8192 == 0x1_0000_0000
  {
  }

  lemma OneGroup(es: SuperBlock)
    requires es.blocksPerGroup == 8192 && es.blocksCount == 64 && es.firstDataBlock == 1
    ensures GroupCount(es) == 1
  {
    DivUnique(62, 0, 62, 0x1_0000_0000);
    DivUnique(62, 0, 62, 8192);
  }

  /** A superblock that is mounted although the inode table of its group has no block for the group's last inode. */
  lemma ShortTableMounts(es: SuperBlock, descs: seq<Desc>)
    requires es == SuperBlock(0, 128, 11, 8192, 9, 64, 1, 9) && descs == [Desc(3, 4, 5)]
    ensures |descs| == GroupCount(es) && Mountable(es, 1024, 1, 1, descs)
    ensures var geo := Layout(es, 1024, 1, 1, descs);
            geo.SizesOk() && geo.inodesPerGroup == 9 && forall bit: nat :: InTable(geo, bit) <==> bit < 8
  {
    OneGroup(es);
    hide GroupCount;
    var geo := Layout(es, 1024, 1, 1, descs);
    DivUnique(1024, 8, 0, 128);
    DivUnique(9, 1, 1, 8);
    assert geo.InodesPerBlock() == 8 && geo.TableBlocks() == 1;
    hide Geo.InodesPerBlock, Geo.TableBlocks, TableBlock;
    assert Passes(geo, 0);
    hide Passes;
    OneTableBlock(geo);
  }

  /** A superblock that is mounted although the inode table of its group ends behind the last 32-bit block number. */
  lemma WrappedTableMounts(es: SuperBlock, descs: seq<Desc>)
    requires es == SuperBlock(0, 128, 11, 8192, 16, 64, 1, 16) && descs == [Desc(3, 4, 0xFFFF_FFFF)]
    ensures |descs| == GroupCount(es) && Mountable(es, 1024, 1, 1, descs)
    ensures var geo := Layout(es, 1024, 1, 1, descs);
            geo.SizesOk() && geo.InodesPerBlock() > 0 && !TableFits(geo, 0) && !geo.DescOk(0)
  {
    OneGroup(es);
    hide GroupCount;
    var geo := Layout(es, 1024, 1, 1, descs);
    DivUnique(1024, 8, 0, 128);
    DivUnique(16, 2, 0, 8);
    assert geo.InodesPerBlock() == 8 && geo.TableBlocks() == 2;
    hide Geo.InodesPerBlock, Geo.TableBlocks;
    assert Passes(geo, 0);
  }

  lemma OneTableBlock(geo: Geo)
    requires geo.SizesOk() && Even(geo) && geo.InodesPerBlock() > 0 && geo.TableBlocks() == 1
    ensures forall bit: nat :: InTable(geo, bit) <==> bit < geo.InodesPerBlock()
  {
    hide Geo.InodesPerBlock, Geo.TableBlocks, Geo.SizesOk, TableBlock;
    forall bit: nat
      ensures InTable(geo, bit) <==> bit < geo.InodesPerBlock()
    {
      InodeInBlock(geo, bit);
      DivMod(bit, geo.InodesPerBlock());
    }
  }

  /** `ext2_check_descriptors` (super.c:177-217). */
  method CheckDescriptors(geo: Geo) returns (ok: bool)
    requires geo.inodeSize > 0 && geo.InodesPerBlock() > 0
    ensures ok <==> forall k :: 0 <= k < geo.Groups() ==> Passes(geo, k)
  {
    hide Geo.First, Geo.Last, Geo.TableBlocks, Geo.InodesPerBlock;
    for i := 0 to geo.Groups()
      invariant forall k :: 0 <= k < i ==> Passes(geo, k)
    {
      var d, first, last := geo.descs[i], geo.First(i), geo.Last(i);
      var tableLast := (d.inodeTable + geo.TableBlocks() - 1) % 0x1_0000_0000;
      assert Passes(geo, i) <==>
               && first <= d.blockBitmap <= last && first <= d.inodeBitmap <= last
               && first <= d.inodeTable && tableLast <= last;
      if d.blockBitmap < first || d.blockBitmap > last { return false; }
      if d.inodeBitmap < first || d.inodeBitmap > last { return false; }
      if d.inodeTable < first || tableLast > last { return false; }
    }
    return true;
  }

  // ----- ext2_get_inode

  datatype Place = Einval | EioPlace | At(block: nat, offset: nat)

  /** Which block of the table, and where in it (inode.c:281-282, 289). */
  function TableBlock(geo: Geo, bit: nat): nat
    requires geo.SizesOk()
  {
    bit * geo.inodeSize / geo.blockSize
  }

  function TableOffset(geo: Geo, bit: nat): nat
    requires geo.SizesOk()
  {
    bit * geo.inodeSize % geo.blockSize
  }

  /** `ext2_get_inode` (inode.c:251-299): the block and the offset in it. */
  function GetInode(geo: Geo, ino: nat): Place
    requires geo.SizesOk() && geo.firstIno > 0
  {
    if (ino != EXT2_ROOT_INO && ino < geo.firstIno) || ino > geo.inodesCount then Einval
    else
      var group, bit := InoGroup(ino, geo.inodesPerGroup), InoBit(ino, geo.inodesPerGroup);
      if group >= geo.Groups() then EioPlace
      else At(geo.descs[group].inodeTable + TableBlock(geo, bit), TableOffset(geo, bit))
  }

  /** Where an inode is, in bytes from the start of the disk: as many inodes into the table of its group as its number
      is behind the group's first.  Refused are reserved numbers other than the root's and those behind the last. */
  lemma InodeAddress(geo: Geo, ino: nat)
    requires geo.SizesOk() && geo.firstIno > 0
    ensures GetInode(geo, ino).Einval? <==> (ino != 2 && ino < geo.firstIno) || ino > geo.inodesCount
    ensures GetInode(geo, ino).EioPlace? <==>
              !GetInode(geo, ino).Einval? && (ino - 1) / geo.inodesPerGroup >= |geo.descs|
    ensures GetInode(geo, ino).At? ==>
              var p, k := GetInode(geo, ino), (ino - 1) / geo.inodesPerGroup;
              && 0 <= k < |geo.descs| && p.offset < geo.blockSize
              && p.block * geo.blockSize + p.offset
                 == geo.descs[k].inodeTable * geo.blockSize + (ino - 1) % geo.inodesPerGroup * geo.inodeSize
  {
    if GetInode(geo, ino).At? {
      var k, bit := InoGroup(ino, geo.inodesPerGroup), InoBit(ino, geo.inodesPerGroup);
      InodeNumber(geo, ino);
      hide InoGroup, InoBit, Geo.SizesOk;
      DivMod(bit * geo.inodeSize, geo.blockSize);
      Distribute(geo.descs[k].inodeTable, TableBlock(geo, bit), geo.blockSize);
    }
  }

  lemma Distribute(a: nat, b: nat, c: nat)
    ensures (a + b) * c == a * c + b * c
  {
  }

  /** Inodes fill blocks evenly: the sizes are powers of two. */
  predicate Even(geo: Geo)
  {
    geo.inodeSize > 0 && geo.InodesPerBlock() * geo.inodeSize == geo.blockSize
  }

  /** An inode size that a mount accepts divides the block size. */
  lemma PowersAreEven(geo: Geo)
    requires BlockSizeOk(geo.blockSize) && 128 <= geo.inodeSize <= geo.blockSize && IsPow2(geo.inodeSize)
    ensures Even(geo)
  {
    var e: nat :| e <= 12 && Pow2(e) == geo.inodeSize;
    PowersUpTo(e);
    var sz := geo.inodeSize;
    assert sz == 128 || sz == 256 || sz == 512 || sz == 1024 || sz == 2048 || sz == 4096;
  }

  lemma PowersUpTo(e: nat)
    requires e <= 12
    ensures Pow2(e) <= 64 || Pow2(e) == 128 || Pow2(e) == 256 || Pow2(e) == 512 || Pow2(e) == 1024 || Pow2(e) == 2048
            || Pow2(e) == 4096
  {
    assert Pow2(3) == 8 && Pow2(6) == 64 && Pow2(9) == 512 && Pow2(12) == 4096;
  }

  /** The `bit`-th inode of a table lies in block `bit / inodesPerBlock` of it, and does not cross its end. */
  lemma InodeInBlock(geo: Geo, bit: nat)
    requires geo.SizesOk() && Even(geo)
    ensures geo.InodesPerBlock() > 0
    ensures TableBlock(geo, bit) == bit / geo.InodesPerBlock()
    ensures TableOffset(geo, bit) == bit % geo.InodesPerBlock() * geo.inodeSize
    ensures TableOffset(geo, bit) + geo.inodeSize <= geo.blockSize
  {
    hide Geo.InodesPerBlock, Geo.SizesOk;
    var n, sz := geo.InodesPerBlock(), geo.inodeSize;
    assert n > 0 by { InodesFit(geo); }
    assert geo.blockSize > 0 by { MulStrict(0, n, sz); }
    DivMod(bit, n);
    var q, r := bit / n, bit % n;
    Regroup(bit, q, n, r, sz);
    MulStrict(r, n, sz);
    DivUnique(bit * sz, q, r * sz, geo.blockSize);
  }

  lemma Regroup(bit: nat, q: nat, n: nat, r: nat, sz: nat)
    requires bit == q * n + r
    ensures bit * sz == q * (n * sz) + r * sz
  {
    assert (q * n + r) * sz == q * n * sz + r * sz;
    assert q * n * sz == q * (n * sz);
  }

  /** Every inode of a group has a block in the group's table if and only if `s_inodes_per_group` is a multiple of the
      inodes per block: the table's size is rounded down (super.c:624). */
  lemma TableHoldsAll(geo: Geo)
    requires geo.SizesOk() && Even(geo)
    ensures geo.InodesPerBlock() > 0
    ensures (forall bit :: 0 <= bit < geo.inodesPerGroup ==> InTable(geo, bit)) <==>
              geo.inodesPerGroup % geo.InodesPerBlock() == 0
  {
    hide Geo.InodesPerBlock;
    var n, ipg := geo.InodesPerBlock(), geo.inodesPerGroup;
    InodeInBlock(geo, 0);
    DivMod(ipg, n);
    if ipg % n == 0 {
      forall bit | 0 <= bit < ipg
        ensures InTable(geo, bit)
      {
        InodeInBlock(geo, bit);
        DivMod(bit, n);
        if ipg / n <= bit / n { MulMono(ipg / n, bit / n, n); }
      }
    } else {
      var bit := ipg / n * n;
      InodeInBlock(geo, bit);
      DivUnique(bit, ipg / n, 0, n);
      assert bit < ipg && !InTable(geo, bit);
    }
  }

  predicate InTable(geo: Geo, bit: nat)
    requires geo.SizesOk() && geo.InodesPerBlock() > 0
  {
    TableBlock(geo, bit) < geo.TableBlocks()
  }

  lemma MulMono(a: nat, b: nat, d: nat)
    requires a <= b
    ensures a * d <= b * d
  {
    if a < b { MulStrict(a, b, d); }
  }

  /** An accepted layout whose tables hold all their inodes. */
  predicate WholeTables(geo: Geo)
  {
    && geo.SizesOk() && Even(geo) && geo.firstIno > 0 && geo.InodesPerBlock() > 0
    && geo.inodesPerGroup % geo.InodesPerBlock() == 0
    && forall k :: 0 <= k < geo.Groups() ==> geo.DescOk(k)
  }

  lemma BitInOwnTable(geo: Geo, k: nat, bit: nat)
    requires WholeTables(geo) && k < geo.Groups() && bit < geo.inodesPerGroup
    ensures var block := geo.descs[k].inodeTable + TableBlock(geo, bit);
            && block < geo.descs[k].inodeTable + geo.TableBlocks() && geo.InRange(block) && geo.GroupOf(block) == k
  {
    hide Geo.InodesPerBlock, Geo.SizesOk, Geo.First, Geo.End, Geo.TableBlocks, Geo.GroupOf, Geo.BitOf, TableBlock;
    TableHoldsAll(geo);
    assert InTable(geo, bit) && geo.DescOk(k);
    LocateOnly(geo, k, geo.descs[k].inodeTable + TableBlock(geo, bit));
  }

  lemma InodeNumber(geo: Geo, ino: nat)
    requires geo.SizesOk() && ino > 0
    ensures InoBit(ino, geo.inodesPerGroup) < geo.inodesPerGroup
    ensures ino == InoGroup(ino, geo.inodesPerGroup) * geo.inodesPerGroup + InoBit(ino, geo.inodesPerGroup) + 1
  {
    DivMod(ino - 1, geo.inodesPerGroup);
  }

  /** Every inode is kept in one block of its own group's table. */
  lemma InodeInOwnTable(geo: Geo, ino: nat)
    requires WholeTables(geo) && GetInode(geo, ino).At?
    ensures ino > 0
    ensures var p, k := GetInode(geo, ino), InoGroup(ino, geo.inodesPerGroup);
            && k < geo.Groups() && geo.descs[k].inodeTable <= p.block < geo.descs[k].inodeTable + geo.TableBlocks()
            && geo.InRange(p.block) && geo.GroupOf(p.block) == k && p.offset + geo.inodeSize <= geo.blockSize
  {
    hide Geo.InodesPerBlock, Geo.SizesOk, Geo.First, Geo.End, Geo.TableBlocks, Geo.GroupOf, Geo.DescOk, Even,
      TableBlock,
      TableOffset, InoGroup, InoBit;
    InodeNumber(geo, ino);
    InodeInBlock(geo, InoBit(ino, geo.inodesPerGroup));
    BitInOwnTable(geo, InoGroup(ino, geo.inodesPerGroup), InoBit(ino, geo.inodesPerGroup));
  }

  /** Every number that is the root's, or neither reserved nor too large, has a place, if the groups have room for
      `s_inodes_count` inodes. */
  lemma EveryInodeHasPlace(geo: Geo, ino: nat)
    requires WholeTables(geo) && geo.inodesCount <= geo.Groups() * geo.inodesPerGroup
    ensures GetInode(geo, ino).At? <==> (ino == 2 || geo.firstIno <= ino) && ino <= geo.inodesCount
  {
    hide Geo.InodesPerBlock, Geo.SizesOk, Geo.First, Geo.End, Geo.DescOk, TableBlock, TableOffset, InoGroup, InoBit;
    if (ino == 2 || geo.firstIno <= ino) && ino <= geo.inodesCount {
      InodeNumber(geo, ino);
      var k := InoGroup(ino, geo.inodesPerGroup);
      if geo.Groups() <= k { MulMono(geo.Groups(), k, geo.inodesPerGroup); }
    }
  }

  /** Distinct inodes do not share a byte. */
  lemma InodesAreDisjoint(geo: Geo, ino: nat, ino': nat)
    requires WholeTables(geo) && GetInode(geo, ino).At? && GetInode(geo, ino').At? && ino != ino'
    ensures var p, p' := GetInode(geo, ino), GetInode(geo, ino');
            p.block != p'.block || p.offset + geo.inodeSize <= p'.offset || p'.offset + geo.inodeSize <= p.offset
  {
    hide Geo.InodesPerBlock, Geo.SizesOk, Geo.First, Geo.End, Geo.TableBlocks, Geo.GroupOf, Geo.DescOk, TableBlock,
      TableOffset, InoGroup, InoBit;
    InodeInOwnTable(geo, ino);
    InodeInOwnTable(geo, ino');
    InodeNumber(geo, ino);
    InodeNumber(geo, ino');
    var bit, bit' := InoBit(ino, geo.inodesPerGroup), InoBit(ino', geo.inodesPerGroup);
    InodeInBlock(geo, bit);
    InodeInBlock(geo, bit');
    if GetInode(geo, ino).block == GetInode(geo, ino').block {
      assert InoGroup(ino, geo.inodesPerGroup) == InoGroup(ino', geo.inodesPerGroup);
      SlotsApart(bit, bit', geo.InodesPerBlock(), geo.inodeSize);
    }
  }

  lemma SlotsApart(x: nat, y: nat, n: nat, sz: nat)
    requires n > 0 && x != y && x / n == y / n
    ensures x % n * sz + sz <= y % n * sz || y % n * sz + sz <= x % n * sz
  {
    DivMod(x, n);
    DivMod(y, n);
    if x % n < y % n { MulStrict(x % n, y % n, sz); } else { MulStrict(y % n, x % n, sz); }
  }
}
