/** The layout of the disk: block groups, their metadata, and where inodes live. */
module Geometry {

  /** A field of 32 bits. */
  type u32 = x: int | 0 <= x < 0x1_0000_0000

  datatype Desc = Desc(blockBitmap: u32, inodeBitmap: u32, inodeTable: u32)

  /** What `ext2_fill_super` computes from the superblock, and the group descriptors. */
  datatype Geo = Geo(
    blockSize: nat,
    blocksPerGroup: nat,
    firstDataBlock: nat,
    blocksCount: nat,
    sbBlock: nat,         // the superblock the mount used
    gdbCount: nat,        // blocks of group descriptors behind every superblock copy
    inodesPerGroup: nat,
    inodeSize: nat,
    firstIno: nat,
    inodesCount: nat,
    descs: seq<Desc>)
  {
    function Groups(): nat { |descs| }

    function InodesPerBlock(): nat
      requires inodeSize > 0
    {
      blockSize / inodeSize
    }

    /** `s_itb_per_group`. */
    function TableBlocks(): nat
      requires inodeSize > 0 && InodesPerBlock() > 0
    {
      inodesPerGroup / InodesPerBlock()
    }

    /** `ext2_group_first_block_no`. */
    function First(k: nat): nat { k * blocksPerGroup + firstDataBlock }

    /** The block after `ext2_group_last_block_no`. */
    function End(k: nat): nat
    {
      if k + 1 == Groups() then blocksCount else First(k) + blocksPerGroup
    }

    /** `ext2_group_last_block_no`, whose subtraction is one on 32 bits. */
    function Last(k: nat): int
    {
      if k + 1 == Groups() then (blocksCount - 1) % 0x1_0000_0000 else First(k) + blocksPerGroup - 1
    }

    function GroupLen(k: nat): int { End(k) - First(k) }

    function GroupOf(b: nat): nat
      requires blocksPerGroup > 0 && firstDataBlock <= b
    {
      (b - firstDataBlock) / blocksPerGroup
    }

    function BitOf(b: nat): nat
      requires blocksPerGroup > 0 && firstDataBlock <= b
    {
      (b - firstDataBlock) % blocksPerGroup
    }

    predicate InRange(b: nat) { firstDataBlock <= b < blocksCount }

    /** The sizes that a mount accepts (super.c:603-655). */
    predicate SizesOk()
    {
      && (blockSize == 1024 || blockSize == 2048 || blockSize == 4096)
      && 128 <= inodeSize <= blockSize
      && 0 < blocksPerGroup <= 8 * blockSize && 0 < inodesPerGroup <= 8 * blockSize
      && firstDataBlock < blocksCount && Groups() == (blocksCount - firstDataBlock - 1) / blocksPerGroup + 1
    }

    /** Superblock copy, descriptors, bitmaps and inode table of group `k`. */
    predicate MetaOf(k: nat, b: nat)
      requires k < Groups() && inodeSize > 0 && InodesPerBlock() > 0
    {
      || First(k) <= b <= First(k) + gdbCount
      || b == descs[k].blockBitmap || b == descs[k].inodeBitmap
      || descs[k].inodeTable <= b < descs[k].inodeTable + TableBlocks()
    }

    /** Some group keeps metadata in block `b`. */
    predicate IsMeta(b: nat)
      requires inodeSize > 0 && InodesPerBlock() > 0
    {
      exists k :: 0 <= k < Groups() && MetaOf(k, b)
    }

    /** Bitmaps and inode table lie in their own group (super.c:177-217). */
    predicate DescOk(k: nat)
      requires k < Groups() && inodeSize > 0 && InodesPerBlock() > 0
    {
      && First(k) <= descs[k].blockBitmap < End(k)
      && First(k) <= descs[k].inodeBitmap < End(k)
      && First(k) <= descs[k].inodeTable && descs[k].inodeTable + TableBlocks() <= End(k)
    }
  }

  /** Inode numbers start at 1, and a group has `perGroup` of them. */
  function InoGroup(ino: nat, perGroup: nat): nat
    requires ino > 0 && perGroup > 0
  {
    (ino - 1) / perGroup
  }

  function InoBit(ino: nat, perGroup: nat): nat
    requires ino > 0 && perGroup > 0
  {
    (ino - 1) % perGroup
  }

  function Pow2(e: nat): nat { if e == 0 then 1 else 2 * Pow2(e - 1) }

  lemma {:induction false} Pow2Grows(d: nat, e: nat)
    requires d <= e
    ensures 0 < Pow2(d) <= Pow2(e)
    decreases e
  {
    if d < e {
      Pow2Grows(d, e - 1);
    } else if e > 0 {
      Pow2Grows(e - 1, e - 1);
    }
  }

  lemma DivMod(x: nat, d: nat)
    requires d > 0
    ensures x == x / d * d + x % d && 0 <= x % d < d
  {
  }

  lemma {:induction false} MulStrict(a: nat, b: nat, d: nat)
    requires a < b
    ensures a * d + d <= b * d
    decreases b - a
  {
    assert (a + 1) * d == a * d + d;
    if a + 1 < b { MulStrict(a + 1, b, d); }
  }

  lemma DivUnique(x: nat, q: nat, r: nat, d: nat)
    requires d > 0 && x == q * d + r && r < d
    ensures x / d == q && x % d == r
  {
    DivMod(x, d);
    if x / d < q { MulStrict(x / d, q, d); }
    if q < x / d { MulStrict(q, x / d, d); }
  }

  lemma NextModulo(x: nat, n: nat)
    requires x < n
    ensures (x + 1) % n == if x + 1 < n then x + 1 else 0
  {
  }

  lemma AddModulo(x: nat, i: nat, n: nat)
    requires 0 < i < n
    ensures (x + i) % n == if x % n + i < n then x % n + i else x % n + i - n
  {
    DivMod(x, n);
    var q, r := x / n, x % n;
    assert (q + 1) * n == q * n + n;
    if r + i < n { DivUnique(x + i, q, r + i, n); } else { DivUnique(x + i, q + 1, r + i - n, n); }
  }

  lemma InodesFit(geo: Geo)
    requires geo.SizesOk()
    ensures geo.InodesPerBlock() > 0
  {
    DivMod(geo.blockSize, geo.inodeSize);
  }

  /** The groups in order: each is non-empty, no longer than `blocksPerGroup`, and ends where the next begins. */
  lemma GroupsInOrder(geo: Geo, k: nat)
    requires geo.SizesOk() && k < geo.Groups()
    ensures 0 < geo.GroupLen(k) <= geo.blocksPerGroup && geo.End(k) <= geo.blocksCount
    ensures k + 1 < geo.Groups() ==> geo.End(k) == geo.First(k + 1)
    ensures geo.First(0) == geo.firstDataBlock && geo.firstDataBlock <= geo.First(k)
  {
    var span, n := geo.blocksCount - geo.firstDataBlock - 1, geo.Groups();
    DivMod(span, geo.blocksPerGroup);
    if k + 1 == n {
      assert geo.First(k) == span / geo.blocksPerGroup * geo.blocksPerGroup + geo.firstDataBlock;
    } else {
      MulStrict(k, n - 1, geo.blocksPerGroup);
      assert geo.First(k + 1) == geo.First(k) + geo.blocksPerGroup;
    }
  }

  /** Every block lies at the bit the code computes, of the group the code computes. */
  lemma Locate(geo: Geo, b: nat)
    requires geo.SizesOk() && geo.InRange(b)
    ensures var k := geo.GroupOf(b);
            k < geo.Groups() && geo.First(k) + geo.BitOf(b) == b && geo.First(k) <= b < geo.End(k)
  {
    var x, span, d := b - geo.firstDataBlock, geo.blocksCount - geo.firstDataBlock - 1, geo.blocksPerGroup;
    DivMod(x, d);
    DivMod(span, d);
    if x / d > span / d { MulStrict(span / d, x / d, d); }
    assert geo.First(geo.GroupOf(b)) == x / d * d + geo.firstDataBlock;
  }

  /** What a group keeps for itself: a superblock copy with the descriptors behind it, two bitmaps and the table. */
  lemma MetadataMeans(geo: Geo, b: nat)
    requires geo.SizesOk() && geo.InodesPerBlock() > 0
    ensures geo.blockSize / geo.inodeSize > 0
    ensures geo.IsMeta(b) <==>
              exists k :: 0 <= k < |geo.descs| &&
                          var first, d := k * geo.blocksPerGroup + geo.firstDataBlock, geo.descs[k];
                          || first <= b <= first + geo.gdbCount || b == d.blockBitmap || b == d.inodeBitmap
                          || d.inodeTable <= b < d.inodeTable + geo.inodesPerGroup / (geo.blockSize / geo.inodeSize)
  {
    if geo.IsMeta(b) {
      var k :| 0 <= k < geo.Groups() && geo.MetaOf(k, b);
      assert geo.descs[k] == geo.descs[k];
    }
    forall k | 0 <= k < |geo.descs|
      ensures var first, d := k * geo.blocksPerGroup + geo.firstDataBlock, geo.descs[k];
              (|| first <= b <= first + geo.gdbCount || b == d.blockBitmap || b == d.inodeBitmap
               || d.inodeTable <= b < d.inodeTable + geo.inodesPerGroup / (geo.blockSize / geo.inodeSize)) ==>
              geo.IsMeta(b)
    {
      assert geo.MetaOf(k, b) ==> geo.IsMeta(b);
    }
  }

  /** And no other group has it. */
  lemma LocateOnly(geo: Geo, k: nat, b: nat)
    requires geo.SizesOk() && k < geo.Groups() && geo.First(k) <= b < geo.End(k)
    ensures geo.InRange(b) && geo.GroupOf(b) == k && geo.BitOf(b) == b - geo.First(k)
  {
    GroupsInOrder(geo, k);
    DivUnique(b - geo.firstDataBlock, k, b - geo.First(k), geo.blocksPerGroup);
  }

  /** The groups partition the block range: each has the `blocksPerGroup` blocks behind those of the groups before it,
      as far as the disk goes. */
  lemma GroupsPartition(geo: Geo, b: nat, k: nat)
    requires geo.SizesOk() && k < geo.Groups()
    ensures geo.First(k) <= b < geo.End(k) <==> geo.InRange(b) && k == geo.GroupOf(b)
    ensures geo.First(k) <= b < geo.End(k) <==>
              k * geo.blocksPerGroup <= b - geo.firstDataBlock < (k + 1) * geo.blocksPerGroup && b < geo.blocksCount
  {
    GroupsInOrder(geo, k);
    assert (k + 1) * geo.blocksPerGroup == k * geo.blocksPerGroup + geo.blocksPerGroup;
    if geo.First(k) <= b < geo.End(k) {
      LocateOnly(geo, k, b);
    } else if geo.InRange(b) {
      Locate(geo, b);
    }
  }
}
