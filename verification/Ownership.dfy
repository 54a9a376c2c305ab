/** Who owns which block: the invariant that ties the block bitmaps to the block maps of all inodes. */
module Ownership {
  import opened Bitmap
  import opened Geometry
  import opened BlockMap
  import opened Balloc

  /** An inode's blocks as a value. */
  datatype FileNode = FileNode(kind: Kind, data: seq<nat>, iBlocks: int)

  /** `i_data` holds block numbers: regular files, directories and slow symlinks.  A symlink with `i_blocks` zero is a
      fast one, and its `i_data` is text; a special file's is a device number. */
  predicate Holds(n: FileNode)
  {
    n.kind == Regular || n.kind == Directory || (n.kind == Symlink && n.iBlocks != 0)
  }

  /** How many of the first `k` slots hold a block. */
  function HeldCount(data: seq<nat>, k: nat): nat
    requires k <= |data|
  {
    if k == 0 then 0 else HeldCount(data, k - 1) + (if data[k - 1] != 0 then 1 else 0)
  }

  lemma {:induction false} HeldAreSlots(data: seq<nat>, k: nat)
    requires k <= |data|
    ensures HeldCount(data, k) == |set s | 0 <= s < k && data[s] != 0|
    decreases k
  {
    if k > 0 {
      HeldAreSlots(data, k - 1);
      var before, now := set s | 0 <= s < k - 1 && data[s] != 0, set s | 0 <= s < k && data[s] != 0;
      assert now == if data[k - 1] != 0 then before + {k - 1} else before;
    }
  }

  lemma {:induction false} HeldUpdate(data: seq<nat>, k: nat, p: nat, v: nat)
    requires k <= |data| && p < |data|
    ensures HeldCount(data[p := v], k)
            == HeldCount(data, k) + (if p < k && v != 0 then 1 else 0) - (if p < k && data[p] != 0 then 1 else 0)
    decreases k
  {
    if k > 0 { HeldUpdate(data, k - 1, p, v); }
  }

  lemma {:induction false} HeldNone(data: seq<nat>, k: nat)
    requires k <= |data|
    ensures HeldCount(data, k) == 0 <==> forall s :: 0 <= s < k ==> data[s] == 0
    decreases k
  {
    if k > 0 { HeldNone(data, k - 1); }
  }

  /** Blocks on their way out: taken off `i_data` but not yet freed.  A run, and one more block (zero for none). */
  datatype Flight = Flight(lo: nat, len: nat, extra: nat)
  {
    predicate Has(b: nat) { lo <= b < lo + len || (extra != 0 && b == extra) }
    function Size(): nat { len + (if extra != 0 then 1 else 0) }
  }

  const NO_FLIGHT := Flight(0, 0, 0)

  /** What a mount and mkfs guarantee about the layout: the superblock in use is a superblock copy. */
  predicate LayoutOk(geo: Geo)
  {
    && geo.SizesOk() && geo.inodeSize > 0 && geo.blocksPerGroup > 0 && geo.InodesPerBlock() > 0
    && (geo.InRange(geo.sbBlock) ==> geo.IsMeta(geo.sbBlock))
  }

  predicate Ordinary(geo: Geo, b: nat)
    requires LayoutOk(geo)
  {
    geo.InRange(b) && !geo.IsMeta(b)
  }

  type Owners = map<nat, (nat, nat)>

  /** `owner` says for each held block which slot of which inode holds it; the bitmaps' set bits are exactly the
      metadata, the held blocks, and those in flight. */
  ghost predicate Owned(geo: Geo, m: seq<Bits>, nodes: map<nat, FileNode>, owner: Owners, fl: Flight)
    requires LayoutOk(geo) && Shape(geo, m)
  {
    && (forall i :: i in nodes ==> |nodes[i].data| == N_BLOCKS)
    && (forall b: nat :: geo.InRange(b) ==> (Used(geo, m, b) <==> geo.IsMeta(b) || b in owner || fl.Has(b)))
    && (forall b: nat :: b in owner ==> Ordinary(geo, b) && !fl.Has(b) && HeldAt(nodes, owner[b].0, owner[b].1, b))
    && (forall i, s :: i in nodes && Holds(nodes[i]) && 0 <= s < NDIR_BLOCKS && nodes[i].data[s] != 0 ==>
          nodes[i].data[s] in owner && owner[nodes[i].data[s]] == (i, s))
    && (forall b: nat :: fl.Has(b) ==> Ordinary(geo, b))
    && (fl.extra != 0 ==> !(fl.lo <= fl.extra < fl.lo + fl.len))
  }

  /** Slot `s` of inode `i` holds block `b`. */
  predicate HeldAt(nodes: map<nat, FileNode>, i: nat, s: nat, b: nat)
  {
    i in nodes && Holds(nodes[i]) && |nodes[i].data| == N_BLOCKS && s < NDIR_BLOCKS && nodes[i].data[s] == b && b != 0
  }

  /** `i_blocks` of every inode that holds blocks, `more` of inode `who`'s being in flight. */
  predicate Accounted(geo: Geo, nodes: map<nat, FileNode>, who: nat, more: nat)
  {
    forall i :: i in nodes && Holds(nodes[i]) && |nodes[i].data| == N_BLOCKS ==>
                  nodes[i].iBlocks
                  == Sectors(geo.blockSize, HeldCount(nodes[i].data, NDIR_BLOCKS) + (if i == who then more else 0))
  }

  lemma HeldMeans(nodes: map<nat, FileNode>, i: nat, s: nat, b: nat)
    ensures HeldAt(nodes, i, s, b) <==>
              && b != 0 && i in nodes && |nodes[i].data| == 15 && s < 12 && nodes[i].data[s] == b
              && (nodes[i].kind == Regular || nodes[i].kind == Directory
                  || (nodes[i].kind == Symlink && nodes[i].iBlocks != 0))
  {
  }

  /** Sectors of 512 bytes for every nonzero slot among the first twelve. */
  lemma AccountedMeans(geo: Geo, nodes: map<nat, FileNode>, i: nat)
    requires Accounted(geo, nodes, 0, 0) && i in nodes && |nodes[i].data| == 15
    requires nodes[i].kind == Regular || nodes[i].kind == Directory
             || (nodes[i].kind == Symlink && nodes[i].iBlocks != 0)
    ensures nodes[i].iBlocks == |set s | 0 <= s < 12 && nodes[i].data[s] != 0| * geo.blockSize / 512
  {
    HeldAreSlots(nodes[i].data, 12);
    hide HeldCount;
  }

  /** What the invariant means, without the owner map: the blocks in use are the metadata and the held ones, and no
      block is held twice. */
  lemma NoBlockHeldTwice(geo: Geo, m: seq<Bits>, nodes: map<nat, FileNode>, owner: Owners)
    requires LayoutOk(geo) && Shape(geo, m) && Owned(geo, m, nodes, owner, NO_FLIGHT)
    ensures forall b: nat :: geo.InRange(b) ==>
              (Used(geo, m, b) <==> geo.IsMeta(b) || exists i: nat, s: nat :: HeldAt(nodes, i, s, b))
    ensures forall b: nat, i: nat, s: nat :: HeldAt(nodes, i, s, b) ==> geo.InRange(b) && !geo.IsMeta(b)
    ensures forall b: nat, i: nat, s: nat, i': nat, s': nat ::
              HeldAt(nodes, i, s, b) && HeldAt(nodes, i', s', b) ==> i == i' && s == s'
  {
    hide Used, Geo.IsMeta, Geo.SizesOk, Geo.InodesPerBlock, Holds;
    forall b: nat, i: nat, s: nat | HeldAt(nodes, i, s, b)
      ensures b in owner && owner[b] == (i, s)
    {
      assert nodes[i].data[s] == b;
    }
  }

  // ----- Runs of ordinary blocks

  /** The first block of each group is a superblock copy (`ext2_bg_has_super` is 1 for every group). */
  lemma GroupStartIsMeta(geo: Geo, k: nat)
    requires LayoutOk(geo) && k < geo.Groups()
    ensures geo.IsMeta(geo.First(k))
  {
    assert geo.MetaOf(k, geo.First(k));
  }

  lemma OrdinaryIsNotZero(geo: Geo, b: nat)
    requires LayoutOk(geo) && Ordinary(geo, b)
    ensures b != 0
  {
    hide Geo.IsMeta, Geo.InodesPerBlock;
    GroupsInOrder(geo, 0);
    GroupStartIsMeta(geo, 0);
  }

  /** Hence a run of ordinary blocks lies in one group, and `ext2_free_blocks` accepts it. */
  lemma RunOfOrdinary(geo: Geo, k: nat, lo: nat, len: nat)
    requires LayoutOk(geo) && k < geo.Groups() && geo.First(k) <= lo < geo.End(k)
    requires len > 0 && forall b: nat :: lo <= b < lo + len ==> Ordinary(geo, b)
    ensures lo + len <= geo.End(k) && DataBlocksValid(geo, lo, len) && DataBlocksValidBg(geo, k, lo, len)
  {
    hide Geo.First, Geo.End, Geo.IsMeta, Geo.SizesOk, Geo.InodesPerBlock, DataBlocksValidBg;
    var last := lo + len - 1;
    assert Ordinary(geo, lo) && Ordinary(geo, last);
    RunStaysInGroup(geo, k, lo, len);
    GroupsInOrder(geo, 0);
    GroupStartIsMeta(geo, 0);
    assert lo <= geo.sbBlock <= last ==> Ordinary(geo, geo.sbBlock);
    MetaOfGroup(geo, k, lo, len);
  }

  lemma RunStaysInGroup(geo: Geo, k: nat, lo: nat, len: nat)
    requires LayoutOk(geo) && k < geo.Groups() && geo.First(k) <= lo < geo.End(k)
    requires len > 0 && forall b: nat :: lo <= b < lo + len ==> Ordinary(geo, b)
    ensures lo + len <= geo.End(k)
  {
    hide Geo.First, Geo.End, Geo.IsMeta, Geo.SizesOk, Geo.InodesPerBlock;
    if geo.End(k) < lo + len {
      assert Ordinary(geo, geo.End(k));
      GroupsInOrder(geo, k);
      if k + 1 < geo.Groups() { GroupStartIsMeta(geo, k + 1); } else { LastGroupEnds(geo, k); }
    }
  }

  lemma LastGroupEnds(geo: Geo, k: nat)
    requires k + 1 == geo.Groups()
    ensures geo.End(k) == geo.blocksCount
  {
  }

  lemma MetaOfGroup(geo: Geo, k: nat, lo: nat, len: nat)
    requires LayoutOk(geo) && k < geo.Groups() && len > 0 && forall b: nat :: lo <= b < lo + len ==> Ordinary(geo, b)
    ensures DataBlocksValidBg(geo, k, lo, len)
  {
    hide Geo.First, Geo.End, Geo.SizesOk, Geo.InodesPerBlock, Geo.TableBlocks, Geo.IsMeta;
    var d, last := geo.descs[k], lo + len - 1;
    assert Ordinary(geo, lo) && Ordinary(geo, last);
    MetaOfIsMeta(geo, k, d.blockBitmap);
    MetaOfIsMeta(geo, k, d.inodeBitmap);
    MetaOfIsMeta(geo, k, lo);
    MetaOfIsMeta(geo, k, last);
    MetaOutside(geo, lo, len, d.blockBitmap);
    MetaOutside(geo, lo, len, d.inodeBitmap);
  }

  lemma MetaOutside(geo: Geo, lo: nat, len: nat, b: nat)
    requires LayoutOk(geo) && geo.IsMeta(b) && forall c: nat :: lo <= c < lo + len ==> Ordinary(geo, c)
    ensures !(lo <= b < lo + len)
  {
    hide Geo.IsMeta, Geo.SizesOk, Geo.InodesPerBlock;
    assert lo <= b < lo + len ==> Ordinary(geo, b);
  }

  lemma MetaOfIsMeta(geo: Geo, k: nat, b: nat)
    requires LayoutOk(geo) && k < geo.Groups()
    ensures geo.MetaOf(k, b) ==> geo.IsMeta(b)
  {
  }

  lemma SectorsOfNone(bs: nat)
    ensures Sectors(bs, 0) == 0
  {
  }

  lemma SectorsAdd(bs: nat, a: nat, b: nat)
    requires bs == 1024 || bs == 2048 || bs == 4096
    ensures Sectors(bs, a + b) == Sectors(bs, a) + Sectors(bs, b)
    ensures Sectors(bs, a) == 0 <==> a == 0
  {
    hide Sectors;
    WholeSectors(bs, a);
    WholeSectors(bs, b);
    WholeSectors(bs, a + b);
  }

  lemma WholeSectors(bs: nat, n: nat)
    requires bs == 1024 || bs == 2048 || bs == 4096
    ensures Sectors(bs, n) == if bs == 1024 then 2 * n else if bs == 2048 then 4 * n else 8 * n
  {
    DivUnique(n * bs, if bs == 1024 then 2 * n else if bs == 2048 then 4 * n else 8 * n, 0, 512);
  }

  // ----- How the invariant moves

  /** A block is taken off its slot. */
  lemma Unslot(geo: Geo, m: seq<Bits>, nodes: map<nat, FileNode>, owner: Owners, fl: Flight, i: nat, p: nat)
    requires LayoutOk(geo) && Shape(geo, m) && Owned(geo, m, nodes, owner, fl) && Accounted(geo, nodes, i, fl.Size())
    requires i in nodes && Holds(nodes[i]) && p < NDIR_BLOCKS && nodes[i].data[p] != 0 && fl.extra == 0
    ensures var nr := nodes[i].data[p];
            var nodes', fl' := nodes[i := nodes[i].(data := nodes[i].data[p := 0])], fl.(extra := nr);
            && Owned(geo, m, nodes', owner - {nr}, fl') && Accounted(geo, nodes', i, fl'.Size()) && Ordinary(geo, nr)
  {
    hide Used, Geo.IsMeta, Geo.SizesOk, Geo.InodesPerBlock, Shape, Sectors, Ordinary, HeldCount;
    var nr := nodes[i].data[p];
    HeldUpdate(nodes[i].data, NDIR_BLOCKS, p, 0);
    assert nr in owner && owner[nr] == (i, p);
  }

  /** The block off its slot joins the run in flight, or starts one. */
  lemma Join(geo: Geo, m: seq<Bits>, nodes: map<nat, FileNode>, owner: Owners, fl: Flight)
    requires LayoutOk(geo) && Shape(geo, m) && Owned(geo, m, nodes, owner, fl) && fl.extra != 0
    requires fl.len == 0 || fl.lo + fl.len == fl.extra
    ensures Owned(geo, m, nodes, owner, Flight(if fl.len == 0 then fl.extra else fl.lo, fl.len + 1, 0))
  {
    hide Used, Geo.IsMeta, Geo.SizesOk, Geo.InodesPerBlock, Shape, Ordinary, HeldAt;
    var fl' := Flight(if fl.len == 0 then fl.extra else fl.lo, fl.len + 1, 0);
    assert forall b: nat :: fl'.Has(b) <==> fl.Has(b);
  }

  /** The run in flight has been freed, and `i_blocks` lowered. */
  lemma Land(geo: Geo, m: seq<Bits>, nodes: map<nat, FileNode>, owner: Owners, fl: Flight, i: nat, blocks: int)
    requires LayoutOk(geo) && Shape(geo, m) && Owned(geo, m, nodes, owner, fl) && Accounted(geo, nodes, i, fl.Size())
    requires i in nodes && Holds(nodes[i]) && fl.len > 0
    requires blocks == nodes[i].iBlocks - Sectors(geo.blockSize, fl.len)
    ensures var nodes', fl' := nodes[i := nodes[i].(iBlocks := blocks)], Flight(0, 0, fl.extra);
            && Owned(geo, WriteRun(geo, m, fl.lo, fl.len, false), nodes', owner, fl')
            && Accounted(geo, nodes', i, fl'.Size())
            && (Holds(nodes'[i]) || fl'.Size() + HeldCount(nodes[i].data, NDIR_BLOCKS) == 0)
  {
    hide Used, Geo.IsMeta, Geo.InodesPerBlock, Geo.SizesOk, Sectors, WriteRun, Shape, Accounted, HeldCount;
    var nodes', fl' := nodes[i := nodes[i].(iBlocks := blocks)], Flight(0, 0, fl.extra);
    LandAccounts(geo, nodes, fl, i, blocks);
    HeldNone(nodes[i].data, NDIR_BLOCKS);
    LandUsed(geo, m, fl);
    forall b: nat | b in owner
      ensures HeldAt(nodes', owner[b].0, owner[b].1, b)
    {
      assert HeldAt(nodes, owner[b].0, owner[b].1, b);
    }
    forall b: nat | geo.InRange(b)
      ensures Used(geo, WriteRun(geo, m, fl.lo, fl.len, false), b) <==> geo.IsMeta(b) || b in owner || fl'.Has(b)
    {
      assert fl.Has(b) <==> fl'.Has(b) || fl.lo <= b < fl.lo + fl.len;
    }
  }

  lemma LandAccounts(geo: Geo, nodes: map<nat, FileNode>, fl: Flight, i: nat, blocks: int)
    requires LayoutOk(geo) && Accounted(geo, nodes, i, fl.Size()) && i in nodes && Holds(nodes[i])
    requires |nodes[i].data| == N_BLOCKS && blocks == nodes[i].iBlocks - Sectors(geo.blockSize, fl.len)
    ensures var nodes', fl' := nodes[i := nodes[i].(iBlocks := blocks)], Flight(0, 0, fl.extra);
            && Accounted(geo, nodes', i, fl'.Size())
            && (Holds(nodes'[i]) || fl'.Size() + HeldCount(nodes[i].data, NDIR_BLOCKS) == 0)
  {
    hide Geo.IsMeta, Geo.InodesPerBlock, Sectors, HeldCount;
    var held, e := HeldCount(nodes[i].data, NDIR_BLOCKS), Flight(0, 0, fl.extra).Size();
    SectorsAdd(geo.blockSize, held + e, fl.len);
    SectorsAdd(geo.blockSize, held + e, 0);
  }

  lemma LandUsed(geo: Geo, m: seq<Bits>, fl: Flight)
    requires LayoutOk(geo) && Shape(geo, m) && fl.len > 0 && forall b: nat :: fl.Has(b) ==> Ordinary(geo, b)
    ensures Shape(geo, WriteRun(geo, m, fl.lo, fl.len, false))
    ensures forall b: nat :: Used(geo, WriteRun(geo, m, fl.lo, fl.len, false), b) <==>
                               Used(geo, m, b) && !(fl.lo <= b < fl.lo + fl.len)
  {
    hide Used, Geo.IsMeta, Geo.InodesPerBlock, WriteRun;
    assert fl.Has(fl.lo) && fl.Has(fl.lo + fl.len - 1);
    forall b: nat
      ensures Used(geo, WriteRun(geo, m, fl.lo, fl.len, false), b) <==>
                Used(geo, m, b) && !(fl.lo <= b < fl.lo + fl.len)
    {
      UsedAfterRun(geo, m, fl.lo, fl.len, false, b);
    }
  }

  /** With nothing in flight it does not matter whose flight that is. */
  lemma NothingExtra(geo: Geo, nodes: map<nat, FileNode>, i: nat, j: nat)
    requires Accounted(geo, nodes, i, 0)
    ensures Accounted(geo, nodes, j, 0)
  {
  }

  /** The accounting when inode `i` gets a block. */
  lemma AcquireAccounts(geo: Geo, nodes: map<nat, FileNode>, i: nat, p: nat, b0: nat)
    requires LayoutOk(geo) && Accounted(geo, nodes, i, 0) && i in nodes && nodes[i].kind != Special
    requires |nodes[i].data| == N_BLOCKS && p < NDIR_BLOCKS && nodes[i].data[p] == 0 && b0 != 0
    requires nodes[i].kind == Symlink && nodes[i].iBlocks == 0 ==> HeldCount(nodes[i].data, NDIR_BLOCKS) == 0
    ensures var n := FileNode(nodes[i].kind, nodes[i].data[p := b0], nodes[i].iBlocks + Sectors(geo.blockSize, 1));
            Accounted(geo, nodes[i := n], i, 0) && Holds(n)
  {
    hide Geo.InodesPerBlock, Sectors;
    var held := HeldCount(nodes[i].data, NDIR_BLOCKS);
    HeldUpdate(nodes[i].data, NDIR_BLOCKS, p, b0);
    SectorsAdd(geo.blockSize, held, 1);
    SectorsAdd(geo.blockSize, held + 1, 0);
    SectorsAdd(geo.blockSize, 0, 0);
  }

  /** A free block becomes the block of an empty slot. */
  lemma Acquire(geo: Geo, m: seq<Bits>, m': seq<Bits>, nodes: map<nat, FileNode>, owner: Owners, i: nat, p: nat,
                b0: nat)
    requires LayoutOk(geo) && Shape(geo, m) && Shape(geo, m') && Owned(geo, m, nodes, owner, NO_FLIGHT)
    requires Accounted(geo, nodes, i, 0) && i in nodes && nodes[i].kind != Special
    requires p < NDIR_BLOCKS && nodes[i].data[p] == 0 && geo.InRange(b0) && !Used(geo, m, b0)
    requires nodes[i].kind == Symlink && nodes[i].iBlocks == 0 ==> HeldCount(nodes[i].data, NDIR_BLOCKS) == 0
    requires forall b: nat :: Used(geo, m', b) <==> Used(geo, m, b) || b == b0
    ensures var n := FileNode(nodes[i].kind, nodes[i].data[p := b0], nodes[i].iBlocks + Sectors(geo.blockSize, 1));
            Owned(geo, m', nodes[i := n], owner[b0 := (i, p)], NO_FLIGHT) && Accounted(geo, nodes[i := n], i, 0)
  {
    hide Used, Geo.IsMeta, Geo.InodesPerBlock, Geo.SizesOk, Sectors, Shape, HeldCount, Accounted, Geo.First;
    OrdinaryIsNotZero(geo, b0);
    HeldNone(nodes[i].data, NDIR_BLOCKS);
    AcquireAccounts(geo, nodes, i, p, b0);
  }

  /** An inode without blocks comes. */
  lemma Enroll(geo: Geo, m: seq<Bits>, nodes: map<nat, FileNode>, owner: Owners, i: nat, n: FileNode)
    requires LayoutOk(geo) && Shape(geo, m) && Owned(geo, m, nodes, owner, NO_FLIGHT) && Accounted(geo, nodes, 0, 0)
    requires i !in nodes && |n.data| == N_BLOCKS && n.iBlocks == 0 && forall s :: 0 <= s < N_BLOCKS ==> n.data[s] == 0
    ensures Owned(geo, m, nodes[i := n], owner, NO_FLIGHT) && Accounted(geo, nodes[i := n], 0, 0)
  {
    hide Used, Geo.IsMeta, Geo.InodesPerBlock, Geo.SizesOk, Shape, Sectors, HeldCount;
    HeldNone(n.data, NDIR_BLOCKS);
    SectorsOfNone(geo.blockSize);
  }

  /** An inode that holds no blocks goes. */
  lemma Retire(geo: Geo, m: seq<Bits>, nodes: map<nat, FileNode>, owner: Owners, i: nat)
    requires LayoutOk(geo) && Shape(geo, m) && Owned(geo, m, nodes, owner, NO_FLIGHT) && Accounted(geo, nodes, 0, 0)
    requires i in nodes && (!Holds(nodes[i]) || HeldCount(nodes[i].data, NDIR_BLOCKS) == 0)
    ensures Owned(geo, m, nodes - {i}, owner, NO_FLIGHT) && Accounted(geo, nodes - {i}, 0, 0)
  {
    hide Used, Geo.IsMeta, Geo.InodesPerBlock, Geo.SizesOk, Shape, Sectors, HeldCount;
    HeldNone(nodes[i].data, NDIR_BLOCKS);
    forall b: nat | b in owner
      ensures owner[b].0 != i
    {
      assert HeldAt(nodes, owner[b].0, owner[b].1, b);
    }
  }

  /** What an inode that holds no blocks has in `i_data` does not matter. */
  lemma Rewrite(geo: Geo, m: seq<Bits>, nodes: map<nat, FileNode>, owner: Owners, i: nat, n: FileNode)
    requires LayoutOk(geo) && Shape(geo, m) && Owned(geo, m, nodes, owner, NO_FLIGHT) && Accounted(geo, nodes, 0, 0)
    requires i in nodes && !Holds(nodes[i]) && !Holds(n) && |n.data| == N_BLOCKS
    ensures Owned(geo, m, nodes[i := n], owner, NO_FLIGHT) && Accounted(geo, nodes[i := n], 0, 0)
  {
    hide Used, Geo.IsMeta, Geo.InodesPerBlock, Geo.SizesOk, Shape, Sectors, HeldCount;
    forall b: nat | b in owner
      ensures HeldAt(nodes[i := n], owner[b].0, owner[b].1, b)
    {
      assert HeldAt(nodes, owner[b].0, owner[b].1, b);
    }
  }

  // ----- Where the allocator and the checks of balloc.c fall short

  /** The slots of a file of one block. */
  function OneSlot(c: nat): (data: seq<nat>)
    ensures |data| == N_BLOCKS && data[0] == c && forall s :: 0 < s < N_BLOCKS ==> data[s] == 0
  {
    [c] + seq(N_BLOCKS - 1, _ => 0)
  }

  lemma OneSlotHeld(c: nat)
    requires c != 0
    ensures HeldCount(OneSlot(c), NDIR_BLOCKS) == 1
  {
    var none := OneSlot(c)[0 := 0];
    HeldNone(none, NDIR_BLOCKS);
    HeldUpdate(none, NDIR_BLOCKS, 0, c);
    assert none[0 := c] == OneSlot(c);
  }

  /** Files of one block each own every ordinary block but `b`. */
  ghost function Owning(geo: Geo, b: nat): map<nat, FileNode>
    requires LayoutOk(geo)
  {
    map c: nat | c < geo.blocksCount && Ordinary(geo, c) && c != b ::
      FileNode(Regular, OneSlot(c), Sectors(geo.blockSize, 1))
  }

  ghost function OwnedBy(geo: Geo, b: nat): Owners
    requires LayoutOk(geo)
  {
    map c: nat | c < geo.blocksCount && Ordinary(geo, c) && c != b :: (c, 0)
  }

  lemma OwningIsOwned(geo: Geo, m: seq<Bits>, b: nat)
    requires LayoutOk(geo) && Shape(geo, m) && Ordinary(geo, b)
    requires forall c: nat :: geo.InRange(c) ==> (Used(geo, m, c) <==> c != b)
    ensures Owned(geo, m, Owning(geo, b), OwnedBy(geo, b), NO_FLIGHT) && Accounted(geo, Owning(geo, b), 0, 0)
  {
    hide Used, Geo.IsMeta, Geo.InodesPerBlock, Geo.SizesOk, Shape, Sectors, HeldCount;
    forall c: nat | c in Owning(geo, b)
      ensures c != 0 && HeldCount(OneSlot(c), NDIR_BLOCKS) == 1
    {
      OrdinaryIsNotZero(geo, c);
      OneSlotHeld(c);
    }
  }

  /** For every ordinary block behind group 0: a state of the filesystem in which it alone is free, and in which
      `ext2_new_blocks` finds nothing. */
  lemma FreeBlockNotFound(geo: Geo, b: nat) returns (m: seq<Bits>, counts: seq<nat>)
    requires LayoutOk(geo) && Ordinary(geo, b) && geo.GroupOf(b) > 0
    ensures Shape(geo, m) && Counted(m, counts, 1) && |m| > 0
    ensures forall i :: geo.firstDataBlock <= i < |m[0]| ==> m[0][i]
    ensures forall c: nat :: geo.InRange(c) ==> (Used(geo, m, c) <==> c != b)
    ensures Owned(geo, m, Owning(geo, b), OwnedBy(geo, b), NO_FLIGHT) && Accounted(geo, Owning(geo, b), 0, 0)
  {
    hide Owned, Accounted, Geo.First, Geo.End, Geo.GroupOf, Geo.BitOf, Geo.IsMeta, Geo.InodesPerBlock, ClearCount, Sum;
    var full, zeros := FullDisk(geo);
    Locate(geo, b);
    var k, i := geo.GroupOf(b), geo.BitOf(b);
    CountUpdate(full[k], i, false);
    SumUpdate(zeros, k, 1);
    m, counts := full[k := full[k][i := false]], zeros[k := 1];
    forall c: nat | geo.InRange(c)
      ensures Used(geo, m, c) <==> c != b
    {
      Locate(geo, c);
    }
    OwningIsOwned(geo, m, b);
  }

  /** Between groups: the last block of a group together with the superblock copy behind it passes both checks of
      `ext2_free_blocks`, unless that copy is the one the mount uses. */
  lemma SpillIsAccepted(geo: Geo, k: nat, b: nat)
    requires LayoutOk(geo) && k + 1 < geo.Groups() && geo.DescOk(k) && geo.First(k + 1) != geo.sbBlock
    requires b + 1 == geo.First(k + 1) && Ordinary(geo, b)
    ensures geo.GroupOf(b) == k && b + 2 > geo.End(k)
    ensures DataBlocksValid(geo, b, 2) && DataBlocksValidBg(geo, k, b, 2)
  {
    hide Geo.First, Geo.End, Geo.GroupOf, Geo.IsMeta, Geo.InodesPerBlock, Geo.TableBlocks;
    GroupsInOrder(geo, k);
    GroupsInOrder(geo, k + 1);
    LocateOnly(geo, k, b);
    GroupStartIsMeta(geo, 0);
    GroupsInOrder(geo, 0);
    RunOfOrdinary(geo, k, b, 1);
  }
}
