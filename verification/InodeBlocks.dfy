/** inode.c: the block maps of files, and the runs in which their blocks are freed. */
module InodeBlocks {
  import opened Bitmap
  import opened Geometry
  import opened BlockMap
  import opened Balloc
  import opened Ownership

  ghost function NodeOf(x: FileInode): FileNode
    reads x
  {
    FileNode(x.kind, x.data, x.iBlocks)
  }

  /** `data` with the slots `[from, to)` zeroed. */
  function Zeroed(data: seq<nat>, from: nat, to: nat): (r: seq<nat>)
    requires from <= to <= |data|
    ensures |r| == |data|
    ensures forall s :: 0 <= s < |data| ==> r[s] == if from <= s < to then 0 else data[s]
  {
    data[..from] + seq(to - from, _ => 0) + data[to..]
  }

  /** A symlink without blocks is a fast symlink, with text in `i_data`, or a slow one that is still empty. */
  predicate HoldsNoText(n: FileNode)
  {
    n.kind == Symlink && n.iBlocks == 0 ==> forall s :: 0 <= s < |n.data| && s < NDIR_BLOCKS ==> n.data[s] == 0
  }

  /** The slots of the blocks that lie at or behind `offset` as a whole. */
  function Beyond(data: seq<nat>, offset: nat, bs: nat): seq<nat>
    requires |data| == N_BLOCKS && bs > 0
  {
    var from := (offset + bs - 1) / bs;
    if from < NDIR_BLOCKS then data[from..NDIR_BLOCKS] else data[NDIR_BLOCKS..NDIR_BLOCKS]
  }

  datatype GetResult = BlockAt(block: nat) | NewBlockAt(block: nat) | Hole | BadBlock | NoSpaceLeft

  class Volume {
    const disk: Disk
    var inodes: map<nat, FileInode>
    ghost var owner: Owners

    ghost function Nodes(): map<nat, FileNode>
      reads this, inodes.Values
    {
      map i | i in inodes :: NodeOf(inodes[i])
    }

    /** Inode objects are distinct, and belong to existing groups. */
    ghost predicate Objects()
      reads this, inodes.Values
    {
      && (forall i, j :: i in inodes && j in inodes && i != j ==> inodes[i] != inodes[j])
      && (forall i :: i in inodes ==> inodes[i].group < disk.geo.Groups())
    }

    /** The invariant with some of inode `who`'s blocks in flight. */
    ghost predicate InFlight(who: nat, fl: Flight)
      reads this, disk, inodes.Values
    {
      && disk.Valid() && LayoutOk(disk.geo) && Objects()
      && Owned(disk.geo, disk.bitmap, Nodes(), owner, fl) && Accounted(disk.geo, Nodes(), who, fl.Size())
    }

    ghost predicate Valid()
      reads this, disk, inodes.Values
    {
      InFlight(0, NO_FLIGHT)
    }

    /** A filesystem on which only the metadata is in use. */
    constructor (d: Disk)
      requires d.Valid() && LayoutOk(d.geo)
      requires forall b: nat :: d.geo.InRange(b) ==> (Used(d.geo, d.bitmap, b) <==> d.geo.IsMeta(b))
      ensures disk == d && inodes == map[] && Valid()
    {
      disk, inodes, owner := d, map[], map[];
    }

    /** With nothing in flight it does not matter whose blocks are not. */
    lemma NobodyInFlight(i: nat, j: nat)
      requires InFlight(i, NO_FLIGHT)
      ensures InFlight(j, NO_FLIGHT)
    {
      hide Owned, LayoutOk, Accounted;
      NothingExtra(disk.geo, Nodes(), i, j);
    }

    /** Only inode `i` has changed. */
    twostate lemma OneChanged(i: nat)
      requires i in inodes && inodes == old(inodes) && Objects()
      requires forall j :: j in inodes && j != i ==> unchanged(inodes[j])
      ensures Nodes() == old(Nodes())[i := NodeOf(inodes[i])]
    {
    }

    /** A run in flight is freed (inode.c:218, 227). */
    method FreeRun(ino: nat, blk: nat, count: nat, ghost extra: nat)
      requires InFlight(ino, Flight(blk, count, extra)) && ino in inodes && Holds(Nodes()[ino]) && count > 0
      modifies disk, inodes[ino]
      ensures InFlight(ino, Flight(0, 0, extra)) && inodes[ino].data == old(inodes[ino].data)
      ensures disk.bitmap == WriteRun(disk.geo, old(disk.bitmap), blk, count, false)
      ensures Holds(Nodes()[ino]) || (extra == 0 && HeldCount(inodes[ino].data, NDIR_BLOCKS) == 0)
    {
      hide Owned, Accounted, WriteRun, Geo.IsMeta, Geo.InodesPerBlock, Geo.First, Geo.End, HeldCount, Used, Ordinary;
      ghost var fl: Flight, nodes, m := Flight(blk, count, extra), Nodes(), disk.bitmap;
      RunInFlight(disk.geo, m, nodes, owner, fl);
      var _ := disk.FreeBlocks(inodes[ino], blk, count, []);
      OneChanged(ino);
      Land(disk.geo, m, nodes, owner, fl, ino, inodes[ino].iBlocks);
    }

    /** A slot with a block in it is cleared (inode.c:209-211). */
    method ClearSlot(ino: nat, p: nat, ghost fl: Flight) returns (nr: nat)
      requires InFlight(ino, fl) && fl.extra == 0 && ino in inodes && Holds(Nodes()[ino])
      requires p < NDIR_BLOCKS && |inodes[ino].data| == N_BLOCKS && inodes[ino].data[p] != 0
      modifies this`owner, inodes[ino]
      ensures nr == old(inodes[ino].data)[p] && InFlight(ino, fl.(extra := nr)) && Holds(Nodes()[ino])
      ensures inodes[ino].data == old(inodes[ino].data)[p := 0] && disk.geo.InRange(nr) && nr > 0
    {
      hide Owned, Accounted, Geo.IsMeta, Geo.InodesPerBlock, Geo.First, Geo.End, HeldCount, Used;
      Unslot(disk.geo, disk.bitmap, Nodes(), owner, fl, ino, p);
      nr := inodes[ino].data[p];
      inodes[ino].data := inodes[ino].data[p := 0];
      owner := owner - {nr};
      OneChanged(ino);
    }

    /** The run in flight takes in the block off its slot. */
    lemma Joined(ino: nat, fl: Flight)
      requires InFlight(ino, fl) && fl.extra != 0 && (fl.len == 0 || fl.lo + fl.len == fl.extra)
      ensures InFlight(ino, Flight(if fl.len == 0 then fl.extra else fl.lo, fl.len + 1, 0))
    {
      hide Owned, Geo.IsMeta, Geo.InodesPerBlock, HeldCount;
      Join(disk.geo, disk.bitmap, Nodes(), owner, fl);
    }

    /** One round of the loop of `ext2_free_data` on a slot with a block in it (inode.c:211-223). */
    method FreeSlot(ino: nat, p: nat, blk: nat, count: nat) returns (blk': nat, count': nat)
      requires InFlight(ino, Flight(blk, count, 0)) && (count == 0 ==> blk == 0) && ino in inodes && Holds(Nodes()[ino])
      requires p < NDIR_BLOCKS && |inodes[ino].data| == N_BLOCKS && inodes[ino].data[p] != 0
      modifies this`owner, disk, inodes[ino]
      ensures InFlight(ino, Flight(blk', count', 0)) && count' > 0 && Holds(Nodes()[ino])
      ensures inodes[ino].data == old(inodes[ino].data)[p := 0]
      ensures WriteRun(disk.geo, disk.bitmap, blk', count', false)
              == WriteBlock(disk.geo, WriteRun(disk.geo, old(disk.bitmap), blk, count, false),
                            old(inodes[ino].data)[p], false)
    {
      hide Owned, Accounted, Geo.IsMeta, Geo.InodesPerBlock, Geo.First, Geo.End, HeldCount, Used, WriteBlock, Objects;
      var nr := ClearSlot(ino, p, Flight(blk, count, 0));
      if count == 0 {
        blk', count' := nr, 1;
        Joined(ino, Flight(0, 0, nr));
      } else if blk + count == nr {
        blk', count' := blk, count + 1;
        Joined(ino, Flight(blk, count, nr));
      } else {
        FreeRun(ino, blk, count, nr);
        blk', count' := nr, 1;
        Joined(ino, Flight(0, 0, nr));
      }
    }

    /** `ext2_free_data` (inode.c:203-230) on the slots from `from` on.  Coalescing neighbours into runs frees exactly
        what freeing every slot's block on its own would. */
    method FreeData(ino: nat, from: nat)
      requires Valid() && ino in inodes && Holds(Nodes()[ino]) && from <= NDIR_BLOCKS
      modifies this`owner, disk, inodes[ino]
      ensures Valid() && |old(inodes[ino].data)| == N_BLOCKS
      ensures inodes[ino].data == Zeroed(old(inodes[ino].data), from, NDIR_BLOCKS)
      ensures disk.bitmap == FreeEach(disk.geo, old(disk.bitmap), old(inodes[ino].data)[from..NDIR_BLOCKS])
    {
      hide Owned, Accounted, Geo.IsMeta, Geo.InodesPerBlock, Geo.First, Geo.End, HeldCount, Used, WriteBlock, Objects,
        Zeroed,
        FreeEach, WriteRun, Holds;
      DataLength(ino);
      NobodyInFlight(0, ino);
      ghost var data, m := inodes[ino].data, disk.bitmap;
      var blk, count := 0, 0;
      NothingFreed(disk.geo, m, data, from);
      for p := from to NDIR_BLOCKS
        invariant InFlight(ino, Flight(blk, count, 0)) && (count == 0 ==> blk == 0) && ino in inodes
        invariant Holds(Nodes()[ino]) && inodes[ino].data == Zeroed(data, from, p)
        invariant WriteRun(disk.geo, disk.bitmap, blk, count, false) == FreeEach(disk.geo, m, data[from..p])
      {
        OneMoreFreed(disk.geo, m, data, from, p);
        if inodes[ino].data[p] != 0 {
          blk, count := FreeSlot(ino, p, blk, count);
        }
      }
      if count > 0 {
        FreeRun(ino, blk, count, 0);
      } else {
        EmptyRun(disk.geo, disk.bitmap);
      }
      NobodyInFlight(ino, 0);
    }

    /** `ext2_truncate_blocks` (inode.c:233-249): the slots at and beyond `offset` give up their blocks. */
    method TruncateBlocks(ino: nat, offset: nat)
      requires Valid() && ino in inodes
      modifies this`owner, disk, inodes[ino]
      ensures Valid() && |inodes[ino].data| == |old(inodes[ino].data)| == N_BLOCKS
      ensures !old(Holds(Nodes()[ino])) ==> inodes[ino].data == old(inodes[ino].data) && disk.bitmap == old(disk.bitmap)
      ensures old(Holds(Nodes()[ino])) ==>
                && (forall s :: 0 <= s < N_BLOCKS ==>
                     inodes[ino].data[s] == if s < NDIR_BLOCKS && offset <= s * disk.geo.blockSize then 0
                                            else old(inodes[ino].data)[s])
                && disk.bitmap
                   == FreeEach(disk.geo, old(disk.bitmap), Beyond(old(inodes[ino].data), offset, disk.geo.blockSize))
                && (offset == 0 ==> HeldCount(inodes[ino].data, NDIR_BLOCKS) == 0)
    {
      hide Owned, Accounted, Geo.IsMeta, Geo.InodesPerBlock, Geo.First, Geo.End, HeldCount, Used, Objects, FreeEach;
      DataLength(ino);
      ghost var data := inodes[ino].data;
      if inodes[ino].kind == Special { return; }
      if inodes[ino].kind == Symlink && inodes[ino].iBlocks == 0 { return; }
      var iblock := (offset + disk.geo.blockSize - 1) / disk.geo.blockSize;
      RoundUp(offset, disk.geo.blockSize);
      if iblock < NDIR_BLOCKS {
        FreeData(ino, iblock);
      } else {
        NothingFreed(disk.geo, disk.bitmap, data, NDIR_BLOCKS);
      }
      HeldNone(inodes[ino].data, NDIR_BLOCKS);
    }

    /** `ext2_get_blocks` (inode.c:26-73) for block `iblock` of a file.  Only files with block maps come here: regular
        files, directories, and symlinks whose text does not fit in `i_data`. */
    method GetBlocks(ino: nat, iblock: nat, create: bool) returns (r: GetResult)
      requires Valid() && ino in inodes && inodes[ino].kind != Special
      requires HoldsNoText(NodeOf(inodes[ino]))
      modifies this`owner, disk, inodes[ino]
      ensures Valid() && |old(inodes[ino].data)| == N_BLOCKS
      ensures r.BadBlock? <==> iblock >= 12
      ensures r.BlockAt? <==> iblock < 12 && old(inodes[ino].data)[iblock] != 0
      ensures r.BlockAt? ==> r.block == old(inodes[ino].data)[iblock]
      ensures r.Hole? <==> iblock < 12 && old(inodes[ino].data)[iblock] == 0 && !create
      // A new block comes exactly when `ext2_new_blocks` finds one.
      ensures |old(disk.bitmap)| > 0
      ensures r.NewBlockAt? ==>
                && old(disk.freeBlocks) % 0x1_0000 != 0
                && exists i :: disk.geo.firstDataBlock <= i < |old(disk.bitmap)[0]| && !old(disk.bitmap)[0][i]
      ensures r.NoSpaceLeft? ==>
                old(disk.freeBlocks) % 0x1_0000 != 0 ==>
                forall i :: disk.geo.firstDataBlock <= i < |old(disk.bitmap)[0]| ==> old(disk.bitmap)[0][i]
      ensures r.NewBlockAt? ==>
                && !Used(disk.geo, old(disk.bitmap), r.block)
                && (forall b: nat ::
                      Used(disk.geo, disk.bitmap, b) <==> Used(disk.geo, old(disk.bitmap), b) || b == r.block)
                && inodes[ino].data == old(inodes[ino].data)[iblock := r.block]
                && inodes[ino].iBlocks == old(inodes[ino].iBlocks) + disk.geo.blockSize / 512
      ensures !r.NewBlockAt? ==>
                inodes[ino].data == old(inodes[ino].data) && inodes[ino].iBlocks == old(inodes[ino].iBlocks)
                && disk.bitmap == old(disk.bitmap)
    {
      hide Owned, Accounted, Geo.IsMeta, Geo.InodesPerBlock, Geo.First, Geo.End, HeldCount, Used, Shape, Geo.GroupOf,
        Counted;
      DataLength(ino);
      HasGroups();
      if iblock >= NDIR_BLOCKS { return BadBlock; }
      var block := inodes[ino].data[iblock];
      if block > 0 { return BlockAt(block); }
      if !create { return Hole; }
      HeldNone(inodes[ino].data, NDIR_BLOCKS);
      ghost var m := disk.bitmap;
      var got := disk.NewBlocks(inodes[ino].group, 1);
      match got {
        case NoSpace => return NoSpaceLeft;
        case NewRun(b, count) =>
          Install(ino, iblock, b, count, m);
          return NewBlockAt(b);
      }
    }

    lemma HasGroups()
      requires Valid()
      ensures |disk.bitmap| > 0
    {
    }

    /** The new block goes into its slot (inode.c:63-64). */
    method Install(ino: nat, iblock: nat, b: nat, count: nat, ghost m: seq<Bits>)
      requires disk.Valid() && LayoutOk(disk.geo) && Shape(disk.geo, m) && Objects() && count == 1
      requires Owned(disk.geo, m, Nodes(), owner, NO_FLIGHT) && Accounted(disk.geo, Nodes(), 0, 0)
      requires ino in inodes && inodes[ino].kind != Special && |inodes[ino].data| == N_BLOCKS
      requires iblock < NDIR_BLOCKS && inodes[ino].data[iblock] == 0 && disk.geo.InRange(b) && !Used(disk.geo, m, b)
      requires inodes[ino].kind == Symlink && inodes[ino].iBlocks == 0 ==> HeldCount(inodes[ino].data, NDIR_BLOCKS) == 0
      requires forall c: nat :: Used(disk.geo, disk.bitmap, c) <==> Used(disk.geo, m, c) || c == b
      modifies this`owner, inodes[ino]
      ensures Valid() && inodes[ino].data == old(inodes[ino].data)[iblock := b]
      ensures inodes[ino].iBlocks == old(inodes[ino].iBlocks) + disk.geo.blockSize / 512
    {
      hide Owned, Accounted, LayoutOk, Geo.IsMeta, Geo.InodesPerBlock, Geo.First, Geo.End, HeldCount, Used, Shape,
        Geo.GroupOf, Counted;
      ghost var nodes := Nodes();
      NothingExtra(disk.geo, nodes, 0, ino);
      inodes[ino].data := inodes[ino].data[iblock := b];
      inodes[ino].iBlocks := inodes[ino].iBlocks + count * disk.geo.blockSize / 512;
      Acquire(disk.geo, m, disk.bitmap, nodes, owner, ino, iblock, b);
      owner := owner[b := (ino, iblock)];
      OneChanged(ino);
      NothingExtra(disk.geo, Nodes(), ino, 0);
    }

    /** The inode's objects after `ext2_new_inode`. */
    method NewInode(ino: nat, kind: Kind, group: nat)
      requires Valid() && ino !in inodes && group < disk.geo.Groups()
      modifies this`inodes
      ensures Valid() && ino in inodes && fresh(inodes[ino]) && inodes == old(inodes)[ino := inodes[ino]]
      ensures inodes[ino].kind == kind && inodes[ino].iBlocks == 0 && inodes[ino].data == seq(N_BLOCKS, _ => 0)
    {
      hide Owned, Accounted, Geo.IsMeta, Geo.InodesPerBlock, Geo.First, Geo.End, Used, Shape, Counted;
      var x := new FileInode(kind, group);
      ghost var nodes := Nodes();
      inodes := inodes[ino := x];
      assert Nodes() == nodes[ino := NodeOf(x)];
      Enroll(disk.geo, disk.bitmap, nodes, owner, ino, NodeOf(x));
    }

    /** The text of a fast symlink is copied into `i_data` (namei.c:151-156). */
    method WriteFastLink(ino: nat, text: seq<nat>)
      requires Valid() && ino in inodes && inodes[ino].kind == Symlink && inodes[ino].iBlocks == 0 && |text| == N_BLOCKS
      modifies inodes[ino]
      ensures Valid() && inodes[ino].data == text && inodes[ino].iBlocks == 0
    {
      hide Owned, Accounted, Geo.IsMeta, Geo.InodesPerBlock, Geo.First, Geo.End, Used, Shape, Counted;
      ghost var nodes := Nodes();
      inodes[ino].data := text;
      OneChanged(ino);
      Rewrite(disk.geo, disk.bitmap, nodes, owner, ino, NodeOf(inodes[ino]));
    }

    /** The delete path of `ext2_evict_inode` (inode.c:483-499). */
    method Evict(ino: nat)
      requires Valid() && ino in inodes
      modifies this`owner, this`inodes, disk, inodes[ino]
      ensures Valid() && inodes == old(inodes) - {ino} && |old(inodes[ino].data)| == N_BLOCKS
      ensures disk.bitmap == if old(Holds(Nodes()[ino]))
                             then FreeEach(disk.geo, old(disk.bitmap), old(inodes[ino].data)[..NDIR_BLOCKS])
                             else old(disk.bitmap)
    {
      hide Owned, Accounted, Geo.IsMeta, Geo.InodesPerBlock, Geo.First, Geo.End, Used, Shape, Counted, HeldCount,
        FreeEach;
      DataLength(ino);
      if inodes[ino].iBlocks != 0 {
        assert Beyond(inodes[ino].data, 0, disk.geo.blockSize) == inodes[ino].data[..NDIR_BLOCKS];
        TruncateBlocks(ino, 0);
      } else {
        NothingHeld(ino);
        FreeNothing(disk.geo, disk.bitmap, inodes[ino].data[..NDIR_BLOCKS]);
      }
      DropInode(ino);
    }

    /** An inode that holds no blocks is forgotten. */
    method DropInode(ino: nat)
      requires Valid() && ino in inodes && |inodes[ino].data| == N_BLOCKS
      requires !Holds(Nodes()[ino]) || HeldCount(inodes[ino].data, NDIR_BLOCKS) == 0
      modifies this`inodes
      ensures Valid() && inodes == old(inodes) - {ino}
    {
      hide Owned, Accounted, Geo.IsMeta, Geo.InodesPerBlock, Geo.First, Geo.End, Used, Shape, Counted, HeldCount;
      ghost var nodes := Nodes();
      inodes := inodes - {ino};
      assert Nodes() == nodes - {ino};
      Retire(disk.geo, disk.bitmap, nodes, owner, ino);
    }

    lemma NothingHeld(ino: nat)
      requires Valid() && ino in inodes && inodes[ino].iBlocks == 0 && |inodes[ino].data| == N_BLOCKS
      ensures Holds(Nodes()[ino]) ==>
                && HeldCount(inodes[ino].data, NDIR_BLOCKS) == 0
                && forall s :: 0 <= s < NDIR_BLOCKS ==> inodes[ino].data[s] == 0
    {
      hide Owned, Geo.IsMeta, Geo.InodesPerBlock, Geo.First, Geo.End, Used, Shape, Counted, HeldCount, Sectors;
      HeldNone(inodes[ino].data, NDIR_BLOCKS);
      SectorsAdd(disk.geo.blockSize, HeldCount(inodes[ino].data, NDIR_BLOCKS), 0);
    }

    lemma SectorsHeld(ino: nat)
      requires Valid() && ino in inodes && |inodes[ino].data| == 15
      ensures var x := inodes[ino];
              x.kind == Regular || x.kind == Directory || (x.kind == Symlink && x.iBlocks != 0) ==>
                x.iBlocks == |set s | 0 <= s < 12 && x.data[s] != 0| * disk.geo.blockSize / 512
    {
      hide Owned, Accounted, Objects, Disk.Valid, LayoutOk;
      if Holds(Nodes()[ino]) { AccountedMeans(disk.geo, Nodes(), ino); }
    }

    lemma DataLength(ino: nat)
      requires Valid() && ino in inodes
      ensures |inodes[ino].data| == N_BLOCKS
    {
      assert Nodes()[ino].data == inodes[ino].data;
    }
  }

  lemma {:induction false} FreeNothing(geo: Geo, m: seq<Bits>, slots: seq<nat>)
    requires geo.blocksPerGroup > 0
    ensures (forall s :: 0 <= s < |slots| ==> slots[s] == 0) ==> FreeEach(geo, m, slots) == m
    decreases |slots|
  {
    if |slots| > 0 { FreeNothing(geo, m, slots[..|slots| - 1]); }
  }

  /** The first block that starts at or behind `offset`. */
  lemma RoundUp(offset: nat, bs: nat)
    requires bs == 1024 || bs == 2048 || bs == 4096
    ensures forall s: nat :: s < (offset + bs - 1) / bs <==> s * bs < offset
  {
  }

  lemma NothingFreed(geo: Geo, m: seq<Bits>, data: seq<nat>, from: nat)
    requires geo.blocksPerGroup > 0 && from <= |data|
    ensures Zeroed(data, from, from) == data && FreeEach(geo, m, data[from..from]) == m == WriteRun(geo, m, 0, 0, false)
  {
    assert data[from..from] == [];
    assert Zeroed(data, from, from) == data;
  }

  lemma EmptyRun(geo: Geo, m: seq<Bits>)
    requires geo.blocksPerGroup > 0
    ensures forall blk: nat :: WriteRun(geo, m, blk, 0, false) == m
  {
  }

  lemma OneMoreFreed(geo: Geo, m: seq<Bits>, data: seq<nat>, from: nat, p: nat)
    requires geo.blocksPerGroup > 0 && from <= p < |data|
    ensures Zeroed(data, from, p + 1) == Zeroed(data, from, p)[p := 0] && Zeroed(data, from, p)[p] == data[p]
    ensures FreeEach(geo, m, data[from..p + 1])
            == if data[p] == 0 then FreeEach(geo, m, data[from..p])
               else WriteBlock(geo, FreeEach(geo, m, data[from..p]), data[p], false)
  {
    hide WriteBlock;
    assert data[from..p + 1][..p - from] == data[from..p];
    assert Zeroed(data, from, p + 1) == Zeroed(data, from, p)[p := 0];
  }

  /** A run in flight consists of used, ordinary blocks, so it is accepted whole. */
  lemma RunInFlight(geo: Geo, m: seq<Bits>, nodes: map<nat, FileNode>, owner: Owners, fl: Flight)
    requires LayoutOk(geo) && Shape(geo, m) && Owned(geo, m, nodes, owner, fl) && fl.len > 0
    ensures geo.InRange(fl.lo) && fl.lo + fl.len <= geo.End(geo.GroupOf(fl.lo))
    ensures geo.BitOf(fl.lo) + fl.len <= 8 * geo.blockSize
    ensures DataBlocksValid(geo, fl.lo, fl.len) && geo.GroupOf(fl.lo) < geo.Groups()
    ensures DataBlocksValidBg(geo, geo.GroupOf(fl.lo), fl.lo, fl.len)
    ensures forall b: nat :: fl.lo <= b < fl.lo + fl.len ==> Used(geo, m, b)
  {
    hide Geo.IsMeta, Geo.InodesPerBlock, Geo.First, Geo.End, Used, DataBlocksValid, DataBlocksValidBg, HeldAt;
    forall b: nat | fl.lo <= b < fl.lo + fl.len
      ensures Ordinary(geo, b) && Used(geo, m, b)
    {
      assert fl.Has(b);
    }
    assert Ordinary(geo, fl.lo);
    Locate(geo, fl.lo);
    RunOfOrdinary(geo, geo.GroupOf(fl.lo), fl.lo, fl.len);
    FitsBitmap(geo, fl.lo, fl.len);
  }

  lemma FitsBitmap(geo: Geo, b: nat, n: nat)
    requires geo.SizesOk() && geo.InRange(b) && b + n <= geo.End(geo.GroupOf(b))
    ensures geo.BitOf(b) + n <= 8 * geo.blockSize
  {
    hide Geo.First, Geo.End, Geo.GroupOf, Geo.BitOf;
    Locate(geo, b);
    GroupsInOrder(geo, geo.GroupOf(b));
  }

  // ----- Whole runs

  datatype Action =
    | Create(kind: Kind, group: nat)
    | Link(text: seq<nat>)
    | Write(iblock: nat)
    | Truncate(offset: nat)
    | Delete

  /** Any sequence of actions on any inodes keeps the invariant, and with it the ownership of every block: see
      `Ownership.NoBlockHeldTwice`.  Actions that the callers never make are skipped. */
  method Run(v: Volume, actions: seq<(nat, Action)>)
    requires v.Valid()
    modifies v, v.disk, v.inodes.Values
    ensures v.Valid()
    ensures forall i :: i in v.inodes ==>
              var x := v.inodes[i];
              |x.data| == 15 &&
              (x.kind == Regular || x.kind == Directory || (x.kind == Symlink && x.iBlocks != 0) ==>
                 x.iBlocks == |set s | 0 <= s < 12 && x.data[s] != 0| * v.disk.geo.blockSize / 512)
    ensures forall b: nat :: v.disk.geo.InRange(b) ==>
                               (Used(v.disk.geo, v.disk.bitmap, b) <==>
                                v.disk.geo.IsMeta(b) || exists i: nat, s: nat :: HeldAt(v.Nodes(), i, s, b))
    ensures forall b: nat, i: nat, s: nat, i': nat, s': nat ::
              HeldAt(v.Nodes(), i, s, b) && HeldAt(v.Nodes(), i', s', b) ==> i == i' && s == s'
  {
    hide Owned, Accounted, Volume.Objects, Counted, Shape, Geo.SizesOk, HoldsNoText;
    for k := 0 to |actions|
      invariant v.Valid()
      invariant forall i :: i in v.inodes ==> v.inodes[i] in old(v.inodes.Values) || fresh(v.inodes[i])
    {
      Act(v, actions[k].0, actions[k].1);
    }
    NoBlockHeldTwice(v.disk.geo, v.disk.bitmap, v.Nodes(), v.owner);
    forall i | i in v.inodes
      ensures var x := v.inodes[i];
              |x.data| == 15 &&
              (x.kind == Regular || x.kind == Directory || (x.kind == Symlink && x.iBlocks != 0) ==>
                 x.iBlocks == |set s | 0 <= s < 12 && x.data[s] != 0| * v.disk.geo.blockSize / 512)
    {
      v.DataLength(i);
      v.SectorsHeld(i);
    }
  }

  method Act(v: Volume, ino: nat, action: Action)
    requires v.Valid()
    modifies v, v.disk, v.inodes.Values
    ensures v.Valid()
    ensures forall i :: i in v.inodes ==> v.inodes[i] in old(v.inodes.Values) || fresh(v.inodes[i])
  {
    hide Owned, Accounted, Volume.Objects, Disk.Valid, LayoutOk, HoldsNoText, Volume.Valid;
    match action
    case Create(kind, group) =>
      if ino !in v.inodes && group < v.disk.geo.Groups() { v.NewInode(ino, kind, group); }
    case Link(text) =>
      if ino in v.inodes && |text| == N_BLOCKS && v.inodes[ino].kind == Symlink && v.inodes[ino].iBlocks == 0 {
        v.WriteFastLink(ino, text);
      }
    case Write(iblock) =>
      if ino in v.inodes && v.inodes[ino].kind != Special
         && HoldsNoText(FileNode(v.inodes[ino].kind, v.inodes[ino].data, v.inodes[ino].iBlocks))
      {
        var r := v.GetBlocks(ino, iblock, true);
      }
    case Truncate(offset) =>
      if ino in v.inodes { v.TruncateBlocks(ino, offset); }
    case Delete =>
      if ino in v.inodes { v.Evict(ino); }
  }
}
