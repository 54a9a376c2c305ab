/** balloc.c: blocks are freed and allocated in the group bitmaps. */
module Balloc {
  import opened Bitmap
  import opened Geometry
  import opened BlockMap

  datatype Kind = Regular | Directory | Symlink | Special

  const N_BLOCKS: nat := 15
  const NDIR_BLOCKS: nat := 12

  /** The in-memory inode, as far as its blocks are concerned: `i_data` and `i_blocks`. */
  class FileInode {
    const kind: Kind
    const group: nat       // i_block_group
    var data: seq<nat>
    var iBlocks: int

    constructor (kind: Kind, group: nat)
      ensures this.kind == kind && this.group == group && iBlocks == 0 && data == seq(N_BLOCKS, _ => 0)
    {
      this.kind, this.group, iBlocks := kind, group, 0;
      data := seq(N_BLOCKS, _ => 0);
    }
  }

  /** `ext2_data_blocks_valid`. */
  predicate DataBlocksValid(geo: Geo, start: nat, count: nat)
  {
    var end := start + count - 1;
    && start <= end && geo.firstDataBlock < start && end < geo.blocksCount
    && !(start <= geo.sbBlock <= end)
  }

  /** `in_range`. */
  predicate Within(b: nat, first: nat, len: nat) { first <= b <= first + len - 1 }

  /** `ext2_data_blocks_valid_bg`. */
  predicate DataBlocksValidBg(geo: Geo, k: nat, start: nat, count: nat)
    requires k < geo.Groups() && geo.inodeSize > 0 && geo.InodesPerBlock() > 0
  {
    var end := start + count - 1;
    && start <= end
    && !Within(geo.descs[k].blockBitmap, start, count) && !Within(geo.descs[k].inodeBitmap, start, count)
    && !Within(start, geo.descs[k].inodeTable, geo.TableBlocks())
    && (end >= 0 ==> !Within(end, geo.descs[k].inodeTable, geo.TableBlocks()))
  }

  /** `i_blocks` counts sectors of 512 bytes. */
  function Sectors(blockSize: nat, n: nat): nat { n * blockSize / 512 }

  /** The outcome of a search in one group: the first bit and how many, or nothing. */
  datatype Grant = Nothing | Granted(bit: nat, num: nat)

  datatype NewBlocksResult = NoSpace | NewRun(block: nat, count: nat)

  lemma FullDisk(geo: Geo) returns (m: seq<Bits>, counts: seq<nat>)
    requires geo.SizesOk()
    ensures Shape(geo, m) && Counted(m, counts, 0) && |counts| == |m|
    ensures forall k :: 0 <= k < |m| ==> counts[k] == 0 && forall i :: 0 <= i < |m[k]| ==> m[k][i]
  {
    hide Geo.First, Geo.End, ClearCount, Sum;
    var n := geo.Groups();
    forall k | 0 <= k < n ensures geo.GroupLen(k) > 0 { GroupsInOrder(geo, k); }
    m := seq(n, k requires 0 <= k < n => seq(geo.GroupLen(k), _ => true));
    counts := seq(n, _ => 0);
    forall k | 0 <= k < n ensures ClearCount(m[k]) == 0 { CountZero(m[k]); }
    SumOfZeros(counts);
  }

  lemma {:induction false} SumOfZeros(s: seq<nat>)
    requires forall i :: 0 <= i < |s| ==> s[i] == 0
    ensures Sum(s) == 0
    decreases |s|
  {
    if |s| > 0 { SumOfZeros(s[..|s| - 1]); }
  }

  class Disk {
    const geo: Geo
    var bitmap: seq<Bits>
    var freeCount: seq<nat>   // bg_free_blocks_count of every group, 16 bits
    var freeBlocks: int       // s_freeblocks_counter
    var padding: seq<Bits>    // the bits of every bitmap block behind those of the group's blocks

    constructor (geo: Geo, bitmap: seq<Bits>, freeCount: seq<nat>, freeBlocks: int, padding: seq<Bits>)
      ensures this.geo == geo && this.bitmap == bitmap && this.freeCount == freeCount && this.freeBlocks == freeBlocks
      ensures this.padding == padding
    {
      this.geo, this.bitmap, this.freeCount, this.freeBlocks := geo, bitmap, freeCount, freeBlocks;
      this.padding := padding;
    }

    /** Group bits and padding fill one block. */
    ghost predicate PaddingOk()
      reads this`padding
    {
      && |padding| == geo.Groups()
      && forall k :: 0 <= k < |padding| ==> geo.GroupLen(k) + |padding[k]| == 8 * geo.blockSize
    }

    ghost predicate Valid()
      reads this
    {
      geo.SizesOk() && Shape(geo, bitmap) && Counted(bitmap, freeCount, freeBlocks) && PaddingOk()
    }

    /** `ext2_free_blocks` passes both of its checks. */
    predicate Accepts(block: nat, count: nat)
      requires geo.SizesOk()
    {
      DataBlocksValid(geo, block, count) &&
      (Locate(geo, block); InodesFit(geo); DataBlocksValidBg(geo, geo.GroupOf(block), block, count))
    }

    /** A run is refused if and only if it is empty, does not lie between the first data block and the disk's end,
        touches the superblock in use or a bitmap of the group it starts in, or has an end in that group's table. */
    lemma AcceptedRuns(block: nat, count: nat)
      requires geo.SizesOk()
      ensures geo.blockSize / geo.inodeSize > 0
      ensures Accepts(block, count) <==>
                && count > 0 && geo.firstDataBlock < block && block + count <= geo.blocksCount
                && !(block <= geo.sbBlock < block + count)
                && var k := (block - geo.firstDataBlock) / geo.blocksPerGroup;
                && 0 <= k < |geo.descs| &&
                var d, table := geo.descs[k], geo.inodesPerGroup / (geo.blockSize / geo.inodeSize);
                && !(block <= d.blockBitmap < block + count) && !(block <= d.inodeBitmap < block + count)
                && !(d.inodeTable <= block < d.inodeTable + table)
                && !(d.inodeTable <= block + count - 1 < d.inodeTable + table)
    {
      InodesFit(geo);
      if geo.InRange(block) { Locate(geo, block); }
      hide Geo.SizesOk, Geo.First, Geo.End;
    }

    /** A run that passes the checks may still reach behind its group: only its ends are checked against the inode
        table, and only against that of the group it starts in. */
    predicate Spills(block: nat, count: nat)
    {
      geo.blocksPerGroup > 0 && geo.firstDataBlock <= block && block + count > geo.End(geo.GroupOf(block))
    }

    /** What becomes of the bitmaps then: the group's own bits from `block` on are cleared, and for the blocks of the
        next groups the bits that follow those of the group. */
    ghost predicate Spilled(before: seq<Bits>, pads: seq<Bits>, behind: Bits, after: Bits, k: nat, block: nat,
                            count: nat)
      reads this`bitmap, this`padding
    {
      && geo.blocksPerGroup > 0 && k < |pads| && k < |before| == |bitmap|
      && block <= geo.End(k) < block + count <= geo.End(k) + |Stray(pads, k, behind)|
      && bitmap == WriteRun(geo, before, block, geo.End(k) - block, false)
      && SameButRow(pads, padding, k)
      && Stray(padding, k, after) == ClearedUpTo(Stray(pads, k, behind), block + count - geo.End(k))
    }

    /** `ext2_free_blocks` (balloc.c:237-298).  Bits that are clear already are not counted again.  A run that reaches
        behind its group clears and counts bits that are none of the group's: `behind` is the memory after the bitmap's
        block, which a long run gets to, and `after` what is left of it.  Such a run keeps the counts right if and only
        if all those bits were clear. */
    method FreeBlocks(inode: FileInode, block: nat, count: nat, behind: Bits) returns (after: Bits)
      requires Valid() && (Accepts(block, count) ==> geo.BitOf(block) + count <= 8 * geo.blockSize + |behind|)
      modifies this, inode`iBlocks
      ensures Accepts(block, count) && !Spills(block, count) ==>
                && Valid() && padding == old(padding) && bitmap == WriteRun(geo, old(bitmap), block, count, false)
                && after == behind
                && ((forall b: nat :: block <= b < block + count ==> Used(geo, old(bitmap), b)) ==>
                      freeBlocks == old(freeBlocks) + count)
      ensures Accepts(block, count) && Spills(block, count) ==>
                var k := geo.GroupOf(block);
                && Spilled(old(bitmap), old(padding), behind, after, k, block, count)
                && k < |old(freeCount)|
                && freeCount == old(freeCount)[k := Add16(old(freeCount)[k], freeBlocks - old(freeBlocks))]
                && freeBlocks - old(freeBlocks) ==
                     Gain(old(bitmap)[k], bitmap[k]) + Gain(Stray(old(padding), k, behind), Stray(padding, k, after))
                && (Valid() <==> NoneSet(Stray(old(padding), k, behind), block + count - geo.End(k)))
      ensures Accepts(block, count) ==>
                freeBlocks >= old(freeBlocks)
                && inode.iBlocks == old(inode.iBlocks) - (freeBlocks - old(freeBlocks)) * geo.blockSize / 512
      ensures !Accepts(block, count) ==>
                Valid() && bitmap == old(bitmap) && freeCount == old(freeCount) && freeBlocks == old(freeBlocks)
                && padding == old(padding) && inode.iBlocks == old(inode.iBlocks) && after == behind
    {
      hide WriteRun, ClearCount, Counted, Shape, Sum, Within, Used, ClearedUpTo, NoneSet, PaddingOk, SameButRow,
        Stray, Geo.First, Geo.End;
      after := behind;
      if !DataBlocksValid(geo, block, count) { return; }
      Locate(geo, block);
      InodesFit(geo);
      var k, bit := geo.GroupOf(block), geo.BitOf(block);
      if !DataBlocksValidBg(geo, k, block, count) { return; }
      if bit + count <= geo.GroupLen(k) { RunOfBits(geo, bitmap, k, bit, count); }
      var freed;
      freed, after := FreeBits(k, bit, count, behind);
      if freed > 0 {
        inode.iBlocks := inode.iBlocks - freed * geo.blockSize / 512;
      }
    }

    /** The loop of `ext2_free_blocks` over the bits from `bit` on, and the counts that follow. */
    method FreeBits(k: nat, bit: nat, count: nat, behind: Bits) returns (freed: nat, after: Bits)
      requires Valid() && k < geo.Groups() && bit < geo.GroupLen(k) && bit + count <= 8 * geo.blockSize + |behind|
      modifies this
      ensures freeBlocks == old(freeBlocks) + freed && k < |old(padding)|
      ensures bit + count <= geo.GroupLen(k) ==>
                && Valid() && padding == old(padding) && after == behind
                && bitmap == WriteRun(geo, old(bitmap), geo.First(k) + bit, count, false)
                && k < |old(bitmap)| && |old(bitmap)[k]| == geo.GroupLen(k)
                && ((forall i :: bit <= i < bit + count ==> old(bitmap)[k][i]) ==> freed == count)
      ensures bit + count > geo.GroupLen(k) ==>
                && Spilled(old(bitmap), old(padding), behind, after, k, geo.First(k) + bit, count)
                && k < |old(freeCount)| && freeCount == old(freeCount)[k := Add16(old(freeCount)[k], freed)]
                && freed == Gain(old(bitmap)[k], bitmap[k])
                            + Gain(Stray(old(padding), k, behind), Stray(padding, k, after))
                && (Valid() <==> NoneSet(Stray(old(padding), k, behind), bit + count - geo.GroupLen(k)))
    {
      hide WriteRun, ClearCount, Counted, Sum, ClearedUpTo, NoneSet, Geo.First, Geo.End, Geo.SizesOk, Shape;
      RowLength(k);
      var inside := if bit + count <= geo.GroupLen(k) then count else geo.GroupLen(k) - bit;
      freed := ClearBits(k, bit, inside);
      var stray;
      stray, after := ClearStray(k, count - inside, behind);
      GroupUpdateFreeBlocks(old(bitmap), k, freed + stray, stray);
      freed := freed + stray;
    }

    lemma RowLength(k: nat)
      requires Valid() && k < geo.Groups()
      ensures k < |bitmap| && |bitmap[k]| == geo.GroupLen(k) && k < |padding| && geo.blocksPerGroup > 0
      ensures geo.GroupLen(k) + |padding[k]| == 8 * geo.blockSize
    {
    }

    /** The loop of `ext2_free_blocks` on bits behind the group's. */
    method ClearStray(k: nat, count: nat, behind: Bits) returns (freed: nat, after: Bits)
      requires geo.SizesOk() && PaddingOk() && k < geo.Groups() && count <= |padding[k]| + |behind|
      modifies this`padding
      ensures PaddingOk() && SameButRow(old(padding), padding, k) && freed <= count
      ensures Stray(padding, k, after) == ClearedUpTo(Stray(old(padding), k, behind), count)
      ensures freed == Gain(Stray(old(padding), k, behind), Stray(padding, k, after))
      ensures freed == 0 <==> NoneSet(Stray(old(padding), k, behind), count)
      ensures count == 0 ==> padding == old(padding) && after == behind
    {
      hide Geo.First, Geo.End, ClearedUpTo, NoneSet, ClearCount;
      freed, after := 0, behind;
      ghost var row := padding[k] + behind;
      NothingCleared(row);
      for i := 0 to count
        invariant PaddingOk() && SameButRow(old(padding), padding, k) && freed <= i
        invariant padding[k] + after == ClearedUpTo(row, i) && (freed == 0 <==> NoneSet(row, i))
        invariant freed == Gain(row, padding[k] + after)
        invariant i == 0 ==> padding == old(padding) && after == behind
      {
        NextCleared(row, i);
        CountUpdate(padding[k] + after, i, false);
        var n := |padding[k]|;
        WriteStray(padding[k], after, i);
        if i < n {
          if padding[k][i] { freed := freed + 1; }
          padding := padding[k := padding[k][i := false]];
        } else {
          if after[i - n] { freed := freed + 1; }
          after := after[i - n := false];
        }
      }
    }

    /** The loop of `ext2_free_blocks`. */
    method ClearBits(k: nat, bit: nat, count: nat) returns (freed: nat)
      requires Valid() && k < geo.Groups() && bit + count <= geo.GroupLen(k)
      modifies this`bitmap
      ensures Shape(geo, bitmap) && bitmap == WriteRun(geo, old(bitmap), geo.First(k) + bit, count, false)
      ensures forall j :: 0 <= j < |bitmap| && j != k ==> bitmap[j] == old(bitmap)[j]
      ensures ClearCount(bitmap[k]) == ClearCount(old(bitmap)[k]) + freed
      ensures (forall i :: bit <= i < bit + count ==> old(bitmap)[k][i]) ==> freed == count
    {
      hide ClearCount, WriteBlock, Counted, Geo.First, Geo.End;
      freed := 0;
      for i := 0 to count
        invariant Shape(geo, bitmap) && bitmap == WriteRun(geo, old(bitmap), geo.First(k) + bit, i, false)
        invariant forall j :: 0 <= j < |bitmap| && j != k ==> bitmap[j] == old(bitmap)[j]
        invariant ClearCount(bitmap[k]) == ClearCount(old(bitmap)[k]) + freed
        invariant forall j :: bit + i <= j < |bitmap[k]| ==> bitmap[k][j] == old(bitmap)[k][j]
        invariant (forall j :: bit <= j < bit + i ==> old(bitmap)[k][j]) ==> freed == i
      {
        CountUpdate(bitmap[k], bit + i, false);
        WriteInGroup(geo, bitmap, k, bit + i, false);
        if bitmap[k][bit + i] { freed := freed + 1; }
        bitmap := bitmap[k := bitmap[k][bit + i := false]];
      }
    }

    /** `group_update_free_blocks` for the group, and the filesystem's counter (balloc.c:121-136, 289-293, 405-406).
        `stray` of the bits that are counted are none of the group's. */
    method GroupUpdateFreeBlocks(ghost before: seq<Bits>, k: nat, delta: int, ghost stray: nat)
      requires geo.SizesOk() && Shape(geo, before) && Shape(geo, bitmap) && k < geo.Groups() && PaddingOk()
      requires Counted(before, freeCount, freeBlocks)
      requires forall j :: 0 <= j < |bitmap| && j != k ==> bitmap[j] == before[j]
      requires ClearCount(bitmap[k]) + stray == ClearCount(before[k]) + delta
      modifies this`freeCount, this`freeBlocks
      ensures k < |old(freeCount)| && freeCount == old(freeCount)[k := Add16(old(freeCount)[k], delta)]
      ensures freeBlocks == old(freeBlocks) + delta && (Valid() <==> stray == 0)
    {
      hide Counted, ClearCount, PaddingOk, Geo.GroupLen, Geo.SizesOk;
      CountsWithStray(geo, before, bitmap, freeCount, freeBlocks, k, delta, stray);
      if delta != 0 {
        freeCount := freeCount[k := Add16(freeCount[k], delta)];
      }
      freeBlocks := freeBlocks + delta;
      assert freeCount == old(freeCount)[k := Add16(old(freeCount)[k], delta)];
    }

    /** `ext2_count_free_blocks` recomputes the counter from the groups. */
    method CountFreeBlocks() returns (n: nat)
      requires Valid()
      ensures n == freeBlocks
    {
      hide ClearCount;
      n := 0;
      assert freeCount[..0] == [];
      for i := 0 to geo.Groups()
        invariant n == Sum(freeCount[..i])
      {
        assert freeCount[..i + 1][..i] == freeCount[..i];
        n := n + freeCount[i];
      }
      assert freeCount[..geo.Groups()] == freeCount;
    }

    /** Other allocators take the bits of `s` that are still clear. */
    method Interfere(k: nat, s: set<nat>)
      requires geo.SizesOk() && Shape(geo, bitmap) && k < geo.Groups()
      modifies this`bitmap
      ensures Shape(geo, bitmap) && forall j :: 0 <= j < |bitmap| && j != k ==> bitmap[j] == old(bitmap)[j]
      ensures forall i :: 0 <= i < |bitmap[k]| ==> (bitmap[k][i] <==> old(bitmap)[k][i] || i in s)
      ensures s == {} ==> bitmap == old(bitmap)
    {
      var row := bitmap[k];
      bitmap := bitmap[k := seq(|row|, i requires 0 <= i < |row| => row[i] || i in s)];
      assert s == {} ==> bitmap[k] == row;
    }

    /** `ext2_allocate_in_bg` (balloc.c:310-340), with `num` starting at zero.  Before its `j`-th test-and-set, other
        allocators take the bits `others[j]` of the group; `theirs` are the bits they actually got.  The search starts
        at the bit whose index is the group's first block number, as the code has it. */
    method AllocateInBg(k: nat, count: nat, others: seq<set<nat>>) returns (r: Grant, ghost theirs: set<nat>)
      requires geo.SizesOk() && Shape(geo, bitmap) && k < geo.Groups()
      modifies this`bitmap
      ensures Shape(geo, bitmap) && forall j :: 0 <= j < |bitmap| && j != k ==> bitmap[j] == old(bitmap)[j]
      ensures TakenBy(old(bitmap)[k], bitmap[k], r, theirs)
      ensures r.Granted? ==> r.num <= count
      ensures others == [] ==> theirs == {}
      ensures others == [] && count > 0 ==>
                (r.Nothing? <==> forall i :: geo.First(k) <= i < geo.GroupLen(k) ==> old(bitmap)[k][i])
      ensures others == [] && r.Granted? ==> FirstFit(old(bitmap)[k], geo.First(k), count, r.bit, r.num)
    {
      hide Geo.First, Geo.End, TakenBy, FirstFit;
      var nblocks := geo.GroupLen(k);
      var bit := FindNextZeroBit(bitmap[k], nblocks, geo.First(k));
      theirs := {};
      NothingTaken(bitmap[k]);
      if bit >= nblocks { return Nothing, {}; }
      ghost var row, start := bitmap[k], bit;
      var num, j := 0, 0;
      while num < count && bit < nblocks
        invariant Shape(geo, bitmap) && forall j :: 0 <= j < |bitmap| && j != k ==> bitmap[j] == old(bitmap)[j]
        invariant start <= bit <= nblocks && num <= count && num <= bit && nblocks == |bitmap[k]|
        invariant TakenBy(row, bitmap[k], if num == 0 then Nothing else Granted(bit - num, num), theirs)
        invariant others == [] ==> theirs == {} && bit - num == start
        decreases nblocks - bit
      {
        ghost var before := bitmap[k];
        ghost var so := if num == 0 then Nothing else Granted(bit - num, num);
        var taking := if j < |others| then others[j] else {};
        Interfere(k, taking);
        ghost var got := set i | 0 <= i < nblocks && i in taking && !before[i];
        Interfered(row, before, bitmap[k], so, theirs, taking, got);
        theirs := theirs + got;
        if others == [] && num == 0 { NoneTaken(row, bitmap[k], theirs); }
        j := j + 1;
        if bitmap[k][bit] {
          if num == 0 {
            bit := bit + 1;
            continue;
          }
          break;
        }
        Claimed(row, bitmap[k], so, theirs, bit);
        bitmap := bitmap[k := bitmap[k][bit := true]];
        num := num + 1;
        bit := bit + 1;
      }
      if num == 0 { return Nothing, theirs; }
      if others == [] { Maximal(row, bitmap[k], geo.First(k), count, bit - num, num); }
      return Granted(bit - num, num), theirs;
    }

    /** `ext2_new_blocks` (balloc.c:348-424), run alone.  It finds a block if and only if the low 16 bits of the counter
        are not zero and group 0 has a clear bit at or behind the index `s_first_data_block`: behind group 0 the search
        starts past the end of the group (balloc.c:320).  The run is the first there, and as long as asked for or as
        can be. */
    method NewBlocks(group: nat, count: nat) returns (r: NewBlocksResult)
      requires Valid() && group < geo.Groups() && count > 0
      modifies this
      ensures Valid() && padding == old(padding)
      ensures |old(bitmap)| > 0
      ensures r.NewRun? <==>
                old(freeBlocks) % 0x1_0000 != 0 &&
                exists i :: geo.firstDataBlock <= i < |old(bitmap)[0]| && !old(bitmap)[0][i]
      ensures r.NewRun? ==>
                && 1 <= r.count <= count && geo.InRange(r.block) && freeBlocks == old(freeBlocks) - r.count
                && r.block + r.count <= geo.End(geo.GroupOf(r.block))
                && (forall b: nat :: r.block <= b < r.block + r.count ==> !Used(geo, old(bitmap), b))
                && forall b: nat ::
                     Used(geo, bitmap, b) <==> Used(geo, old(bitmap), b) || r.block <= b < r.block + r.count
      ensures r.NewRun? ==>
                var row, bit := old(bitmap)[0], r.block - geo.firstDataBlock;
                && geo.firstDataBlock <= bit && bit + r.count <= |row|
                && (forall i :: geo.firstDataBlock <= i < bit ==> row[i])
                && (r.count == count || bit + r.count == |row| || row[bit + r.count])
      ensures r.NoSpace? ==> bitmap == old(bitmap) && freeCount == old(freeCount) && freeBlocks == old(freeBlocks)
    {
      hide Used, ClearCount, Sum, Counted, Geo.First, Geo.End, Taken, FirstOfGroup0;
      var n := geo.Groups();
      if freeBlocks % 0x1_0000 == 0 { return NoSpace; }
      var groupNo := group;
      for bgi := 0 to n
        invariant Valid() && padding == old(padding)
        invariant bitmap == old(bitmap) && freeCount == old(freeCount) && freeBlocks == old(freeBlocks)
        invariant groupNo == if group + bgi < n then group + bgi else group + bgi - n
        invariant group + bgi > n || (group == 0 && bgi > 0) ==>
                    forall i :: geo.firstDataBlock <= i < |bitmap[0]| ==> bitmap[0][i]
      {
        r := AllocateFrom(groupNo, count);
        if r.NewRun? {
          RunMeans(old(bitmap), count, r);
          return;
        }
        NextModulo(groupNo, n);
        groupNo := (groupNo + 1) % n;
      }
      return NoSpace;
    }

    /** The blocks of a new run were free, and are the only ones that were taken. */
    ghost predicate Taken(before: seq<Bits>, r: NewBlocksResult)
      requires geo.SizesOk() && Shape(geo, before) && Shape(geo, bitmap) && r.NewRun?
      reads this
    {
      && 1 <= r.count && geo.InRange(r.block) && r.block + r.count <= geo.End(geo.GroupOf(r.block))
      && (forall b: nat :: r.block <= b < r.block + r.count ==> !Used(geo, before, b))
      && (forall b: nat :: Used(geo, bitmap, b) <==> Used(geo, before, b) || r.block <= b < r.block + r.count)
    }

    /** The run is the first of group 0 behind the index `s_first_data_block`, and as long as asked for or as can be. */
    predicate FirstOfGroup0(before: seq<Bits>, count: nat, block: nat, num: nat)
    {
      |before| > 0 && geo.firstDataBlock <= block
      && FirstFit(before[0], geo.firstDataBlock, count, block - geo.firstDataBlock, num)
    }

    lemma RunMeans(before: seq<Bits>, count: nat, r: NewBlocksResult)
      requires geo.SizesOk() && Shape(geo, before) && Shape(geo, bitmap) && r.NewRun? && Taken(before, r)
      requires FirstOfGroup0(before, count, r.block, r.count)
      ensures 1 <= r.count && geo.InRange(r.block) && r.block + r.count <= geo.End(geo.GroupOf(r.block))
      ensures forall b: nat :: r.block <= b < r.block + r.count ==> !Used(geo, before, b)
      ensures forall b: nat ::
                Used(geo, bitmap, b) <==> Used(geo, before, b) || r.block <= b < r.block + r.count
      ensures |before| > 0
      ensures var row, bit := before[0], r.block - geo.firstDataBlock;
              && geo.firstDataBlock <= bit && bit + r.count <= |row|
              && (forall i :: geo.firstDataBlock <= i < bit ==> row[i])
              && (r.count == count || bit + r.count == |row| || row[bit + r.count])
    {
      hide Used, Shape, Geo.SizesOk, Geo.GroupOf, Geo.End;
    }

    /** One round of the search (balloc.c:376-418). */
    method AllocateFrom(k: nat, count: nat) returns (r: NewBlocksResult)
      requires Valid() && k < geo.Groups() && count > 0
      modifies this
      ensures Valid() && padding == old(padding)
      ensures r.NewRun? ==>
                k == 0 && r.count <= count && Taken(old(bitmap), r) && freeBlocks == old(freeBlocks) - r.count
      ensures r.NewRun? ==> FirstOfGroup0(old(bitmap), count, r.block, r.count)
      ensures r.NoSpace? ==> bitmap == old(bitmap) && freeCount == old(freeCount) && freeBlocks == old(freeBlocks)
      ensures k == 0 ==> (r.NewRun? <==> exists i :: geo.firstDataBlock <= i < |old(bitmap)[0]| && !old(bitmap)[0][i])
    {
      hide Used, ClearCount, Sum, TakenBy, FirstFit, Geo.First, Geo.End;
      CountZero(bitmap[k]);
      if freeCount[k] == 0 { return NoSpace; }
      SearchStart(geo, k);
      var grant, theirs := AllocateInBg(k, count, []);
      match grant {
        case Nothing =>
          NoneTaken(old(bitmap)[k], bitmap[k], theirs);
          assert bitmap == old(bitmap);
          return NoSpace;
        case Granted(bit, num) =>
          RunTaken(geo, old(bitmap), bitmap, k, bit, num, theirs);
          GroupUpdateFreeBlocks(old(bitmap), k, -(num as int), 0);
          r := NewRun(geo.First(k) + bit, num);
          return;
      }
    }
  }

  /** The first `n` bits cleared. */
  function ClearedUpTo(row: Bits, n: nat): (r: Bits)
    requires n <= |row|
    ensures |r| == |row| && forall i :: 0 <= i < |row| ==> r[i] == (n <= i && row[i])
  {
    seq(n, _ => false) + row[n..]
  }

  /** Counts that follow a change are right if and only if they follow no more than it. */
  lemma CountsWithStray(geo: Geo, m: seq<Bits>, m': seq<Bits>, counts: seq<nat>, total: int, k: nat, delta: int,
                        stray: nat)
    requires geo.SizesOk() && Shape(geo, m) && Shape(geo, m') && Counted(m, counts, total) && k < geo.Groups()
    requires k < |m| == |m'| && forall j :: 0 <= j < |m| && j != k ==> m'[j] == m[j]
    requires ClearCount(m'[k]) + stray == ClearCount(m[k]) + delta
    ensures k < |counts| && Add16(counts[k], 0) == counts[k]
    ensures Counted(m', counts[k := Add16(counts[k], delta)], total + delta) <==> stray == 0
  {
    hide ClearCount, Sum;
    CountsFollow(geo, m, m', counts, total, k, delta - stray);
    var right := counts[k := counts[k] + (delta - stray)];
    OneCount(m', right, total + (delta - stray), counts[k := Add16(counts[k], delta)], total + delta);
    if stray == 0 {
      assert counts[k := Add16(counts[k], delta)] == right;
    }
  }

  /** A bitmap has one right count. */
  lemma OneCount(m: seq<Bits>, counts: seq<nat>, total: int, counts': seq<nat>, total': int)
    requires Counted(m, counts, total)
    ensures Counted(m, counts', total') ==> counts' == counts && total' == total
  {
    hide ClearCount, Sum;
    assert Counted(m, counts', total') ==> counts' == counts;
  }

  /** How many more bits are clear. */
  function Gain(before: Bits, now: Bits): int { ClearCount(now) - ClearCount(before) }

  /** None of the first `n` bits is set. */
  predicate NoneSet(row: Bits, n: nat)
    requires n <= |row|
  {
    forall i :: 0 <= i < n ==> !row[i]
  }

  lemma NothingCleared(row: Bits)
    ensures ClearedUpTo(row, 0) == row && NoneSet(row, 0)
  {
  }

  lemma NextCleared(row: Bits, n: nat)
    requires n < |row|
    ensures ClearedUpTo(row, n)[n] == row[n] && ClearedUpTo(row, n + 1) == ClearedUpTo(row, n)[n := false]
    ensures NoneSet(row, n + 1) <==> NoneSet(row, n) && !row[n]
  {
  }

  /** The bits from the end of group `k` on, as `ext2_free_blocks` sees them: the padding of the bitmap's block, and
      then the memory behind it. */
  function Stray(pads: seq<Bits>, k: nat, behind: Bits): Bits
    requires k < |pads|
  {
    pads[k] + behind
  }

  /** The stray bits of group `k`: what is left of its bitmap's block behind the group's own, and then `behind`. */
  lemma StrayMeans(pads: seq<Bits>, k: nat, behind: Bits, n: nat)
    requires k < |pads| && n <= |pads[k]| + |behind|
    ensures n <= |Stray(pads, k, behind)|
    ensures NoneSet(Stray(pads, k, behind), n) <==> forall i :: 0 <= i < n ==> !(pads[k] + behind)[i]
  {
  }

  lemma WriteStray(row: Bits, behind: Bits, i: nat)
    requires i < |row| + |behind|
    ensures (row + behind)[i := false] ==
            if i < |row| then row[i := false] + behind else row + behind[i - |row| := false]
  {
  }

  /** Only row `k` has changed, and not in length. */
  predicate SameButRow(a: seq<Bits>, b: seq<Bits>, k: nat)
  {
    k < |a| && |b| == |a| && |b[k]| == |a[k]| && b == a[k := b[k]]
  }

  /** The search of group `k` starts at the index `First(k)`, which lies inside the group only if `k` is zero. */
  lemma SearchStart(geo: Geo, k: nat)
    requires geo.SizesOk() && k < geo.Groups()
    ensures k == 0 ==> geo.First(k) == geo.firstDataBlock
    ensures k > 0 ==> geo.First(k) >= geo.GroupLen(k)
  {
    GroupsInOrder(geo, k);
    if k > 0 { MulStrict(0, k, geo.blocksPerGroup); }
  }

  /** Blocks of group `k` and their bits. */
  lemma RunOfBits(geo: Geo, m: seq<Bits>, k: nat, bit: nat, n: nat)
    requires geo.SizesOk() && Shape(geo, m) && k < geo.Groups() && bit + n <= geo.GroupLen(k)
    ensures (forall b: nat :: geo.First(k) + bit <= b < geo.First(k) + bit + n ==> Used(geo, m, b)) ==>
              forall i :: bit <= i < bit + n ==> m[k][i]
  {
    hide Geo.First, Geo.End;
    if forall b: nat :: geo.First(k) + bit <= b < geo.First(k) + bit + n ==> Used(geo, m, b) {
      forall i | bit <= i < bit + n
        ensures m[k][i]
      {
        assert Used(geo, m, geo.First(k) + i);
        LocateOnly(geo, k, geo.First(k) + i);
      }
    }
  }

  lemma CountFilled(row: Bits, row': Bits, bit: nat, num: nat)
    requires bit + num <= |row| == |row'|
    requires forall i :: 0 <= i < |row| ==> (row'[i] <==> row[i] || bit <= i < bit + num)
    requires forall i :: bit <= i < bit + num ==> !row[i]
    ensures ClearCount(row') == ClearCount(row) - num
    decreases num
  {
    if num == 0 {
      assert row' == row;
    } else {
      var mid := row[bit := true];
      CountUpdate(row, bit, true);
      CountFilled(mid, row', bit + 1, num - 1);
    }
  }

  /** A granted run of bits is a run of blocks of the group. */
  lemma RunTaken(geo: Geo, m: seq<Bits>, m': seq<Bits>, k: nat, bit: nat, num: nat, theirs: set<nat>)
    requires geo.SizesOk() && Shape(geo, m) && Shape(geo, m') && k < geo.Groups()
    requires TakenBy(m[k], m'[k], Granted(bit, num), theirs) && theirs == {}
    requires forall j :: 0 <= j < |m| && j != k ==> m'[j] == m[j]
    ensures ClearCount(m'[k]) == ClearCount(m[k]) - num
    ensures var b0 := geo.First(k) + bit;
            && num >= 1 && geo.InRange(b0) && b0 + num <= geo.End(geo.GroupOf(b0))
            && (forall b: nat :: b0 <= b < b0 + num ==> !Used(geo, m, b))
            && (forall b: nat :: Used(geo, m', b) <==> Used(geo, m, b) || b0 <= b < b0 + num)
  {
    hide Geo.First, Geo.End, ClearCount;
    CountFilled(m[k], m'[k], bit, num);
    var b0 := geo.First(k) + bit;
    LocateOnly(geo, k, b0);
    forall b: nat
      ensures b0 <= b < b0 + num ==> !Used(geo, m, b)
      ensures Used(geo, m', b) <==> Used(geo, m, b) || b0 <= b < b0 + num
    {
      if geo.InRange(b) { GroupsPartition(geo, b, k); Locate(geo, b); }
      if b0 <= b < b0 + num { LocateOnly(geo, k, b); }
    }
  }

  /** From `row` to `row'`, this call has set exactly the bits of the grant and the others exactly `theirs`; all of them
      were clear, and no bit was given twice. */
  ghost predicate TakenBy(row: Bits, row': Bits, r: Grant, theirs: set<nat>)
  {
    && |row'| == |row|
    && (r.Granted? ==> r.num > 0 && r.bit + r.num <= |row|)
    && (forall i :: i in theirs ==> i < |row| && !row[i] && !(r.Granted? && r.bit <= i < r.bit + r.num))
    && (r.Granted? ==> forall i :: r.bit <= i < r.bit + r.num ==> !row[i])
    && (forall i :: 0 <= i < |row| ==>
          (row'[i] <==> row[i] || i in theirs || (r.Granted? && r.bit <= i < r.bit + r.num)))
  }

  lemma NothingTaken(row: Bits)
    ensures TakenBy(row, row, Nothing, {})
  {
  }

  lemma NoneTaken(row: Bits, row': Bits, theirs: set<nat>)
    requires TakenBy(row, row', Nothing, theirs) && theirs == {}
    ensures row' == row
  {
  }

  /** A successful test-and-set of the bit behind the run so far. */
  lemma Claimed(row: Bits, before: Bits, r: Grant, theirs: set<nat>, bit: nat)
    requires TakenBy(row, before, r, theirs) && bit < |before| && !before[bit] && (r.Granted? ==> r.bit + r.num == bit)
    ensures TakenBy(row, before[bit := true], if r.Nothing? then Granted(bit, 1) else Granted(r.bit, r.num + 1), theirs)
  {
  }

  /** The run starts at the first clear bit from `start` on, and ends only where it must. */
  predicate FirstFit(row: Bits, start: nat, count: nat, bit: nat, num: nat)
  {
    && start <= bit && num <= count && bit + num <= |row|
    && (forall i :: start <= i < bit ==> row[i])
    && (num == count || bit + num == |row| || row[bit + num])
  }

  lemma Maximal(row: Bits, row': Bits, start: nat, count: nat, bit: nat, num: nat)
    requires TakenBy(row, row', Granted(bit, num), {}) && start <= bit && num <= count
    requires forall i :: start <= i < bit ==> row[i]
    requires num == count || bit + num == |row| || row'[bit + num]
    ensures FirstFit(row, start, count, bit, num)
  {
  }

  lemma Interfered(row: Bits, before: Bits, after: Bits, r: Grant, theirs: set<nat>, taking: set<nat>, got: set<nat>)
    requires TakenBy(row, before, r, theirs) && |after| == |before|
    requires forall i :: 0 <= i < |after| ==> (after[i] <==> before[i] || i in taking)
    requires forall i :: i in got <==> i < |before| && i in taking && !before[i]
    ensures TakenBy(row, after, r, theirs + got)
  {
  }
}
