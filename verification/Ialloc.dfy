/** ialloc.c: inodes are allocated and freed in the group bitmaps. */
module Ialloc {
  import opened Bitmap
  import opened Geometry
  import opened BlockMap

  /** A new inode: its number, and the group and bit it came from. */
  datatype NewInodeResult = NewIno(ino: nat, group: nat, bit: nat) | Enospc | Eio

  lemma Add16Undone(x: nat)
    requires x < 0x1_0000
    ensures Add16(Add16(x, 1), -1) == x == Add16(Add16(x, -1), 1)
  {
  }

  /** How many steps a cyclic walk takes from group `from` to group `k`; from a group to itself it takes a full round.
      */
  function Behind(n: nat, from: nat, k: nat): int { if k > from then k - from else k + n - from }

  lemma StepVisits(n: nat, from: nat, group: nat, i: nat)
    requires from < n && group < n && i < n
    requires group == if from + i < n then from + i else from + i - n
    ensures var next := (group + 1) % n;
            && next < n && next == (if from + (i + 1) < n then from + (i + 1) else from + (i + 1) - n)
            && Behind(n, from, next) == i + 1
            && forall k :: 0 <= k < n && Behind(n, from, k) == i + 1 ==> k == next
  {
    NextModulo(group, n);
  }

  /** The `j`th group of the quadratic walk: the steps 1, 2, 4, ... add up to a power of two less one. */
  function Probe(n: nat, from: nat, j: nat): (g: nat)
    requires n > 0
    ensures g < n
  {
    Pow2Grows(0, j + 1);
    DivMod(from + Pow2(j + 1) - 1, n);
    (from + Pow2(j + 1) - 1) % n
  }

  lemma NextProbe(n: nat, from: nat, j: nat)
    requires 0 < Pow2(j) < n
    ensures var g := (from + Pow2(j) - 1) % n;
            Probe(n, from, j) == if g + Pow2(j) < n then g + Pow2(j) else g + Pow2(j) - n
    ensures Pow2(j + 1) == 2 * Pow2(j) && Probe(n, from, j) == (from + 2 * Pow2(j) - 1) % n
  {
    AddModulo(from + Pow2(j) - 1, Pow2(j), n);
  }

  lemma ProbeMeans(n: nat, from: nat, j: nat)
    requires n > 0
    ensures Pow2(j) > 0 && Probe(n, from, j) == (from + 2 * Pow2(j) - 1) % n
    ensures 0 <= (from + 2 * Pow2(j) - 1) % n < n
  {
    Pow2Grows(0, j);
    assert Pow2(j + 1) == 2 * Pow2(j);
  }

  lemma BehindMeans(n: nat, from: nat, k: nat)
    requires from < n && k < n
    ensures Behind(n, from, k) == (k + n - from - 1) % n + 1
  {
    if k > from { DivUnique(k + n - from - 1, 1, k - from - 1, n); }
  }

  lemma Pow2OfZero()
    ensures Pow2(0) == 1
  {
  }

  class InodeGroups {
    const inodesPerGroup: nat
    const firstIno: nat
    const inodesCount: nat
    var bitmap: seq<Bits>
    var freeInodes: seq<nat>    // bg_free_inodes_count
    var usedDirs: seq<nat>      // bg_used_dirs_count
    var freeBlocks: seq<nat>    // bg_free_blocks_count, only looked at here
    var freeCounter: int        // s_freeinodes_counter
    var dirsCounter: int        // s_dirs_counter

    function Groups(): nat
      reads this
    {
      |bitmap|
    }

    /** Shape of the tables, and free counts equal to clear bits. */
    ghost predicate Valid()
      reads this
    {
      && 0 < inodesPerGroup <= 0x8000 && Groups() > 0 && firstIno > 0
      && (forall k :: 0 <= k < Groups() ==> |bitmap[k]| == inodesPerGroup)
      && |usedDirs| == |freeBlocks| == Groups() && (forall k :: 0 <= k < Groups() ==> usedDirs[k] < 0x1_0000)
      && Counted(bitmap, freeInodes, freeCounter)
    }

    function InoOf(k: nat, bit: nat): nat { k * inodesPerGroup + bit + 1 }

    predicate Usable(ino: nat) { firstIno <= ino <= inodesCount }

    /** The bits of reserved and of nonexistent inodes are set. */
    ghost predicate Reserved()
      requires Valid()
      reads this
    {
      forall k, bit :: 0 <= k < Groups() && 0 <= bit < inodesPerGroup && !bitmap[k][bit] ==> Usable(InoOf(k, bit))
    }

    ghost predicate Full()
      requires Valid()
      reads this
    {
      forall k :: 0 <= k < Groups() ==> forall bit :: 0 <= bit < inodesPerGroup ==> bitmap[k][bit]
    }

    constructor (ipg: nat, firstIno: nat, inodesCount: nat, bitmap: seq<Bits>, free: seq<nat>, dirs: seq<nat>,
                 freeBlocks: seq<nat>, freeCounter: int, dirsCounter: int)
      ensures this.inodesPerGroup == ipg && this.firstIno == firstIno && this.inodesCount == inodesCount
      ensures this.bitmap == bitmap && freeInodes == free && usedDirs == dirs && this.freeBlocks == freeBlocks
      ensures this.freeCounter == freeCounter && this.dirsCounter == dirsCounter
    {
      this.inodesPerGroup, this.firstIno, this.inodesCount := ipg, firstIno, inodesCount;
      this.bitmap, freeInodes, usedDirs, this.freeBlocks := bitmap, free, dirs, freeBlocks;
      this.freeCounter, this.dirsCounter := freeCounter, dirsCounter;
    }

    predicate Attractive(k: nat)
      requires k < |freeInodes| && k < |freeBlocks|
      reads this
    {
      freeInodes[k] != 0 && freeBlocks[k] != 0
    }

    /** The quadratic walk passes no attractive group. */
    ghost predicate NoneHashed(from: nat)
      requires 0 < Groups() && |freeInodes| == |freeBlocks| == Groups()
      reads this
    {
      forall j: nat :: Pow2(j) < Groups() ==> !Attractive(Probe(Groups(), from, j))
    }

    /** `g` is the first attractive group of the quadratic walk. */
    ghost predicate Hashed(from: nat, g: nat)
      requires 0 < Groups() && |freeInodes| == |freeBlocks| == Groups()
      reads this
    {
      exists j: nat ::
        && Pow2(j) < Groups() && g == Probe(Groups(), from, j) && Attractive(g)
        && forall i: nat :: i < j ==> !Attractive(Probe(Groups(), from, i))
    }

    /** `g` is the first group behind `from` with a free inode. */
    ghost predicate NextFree(from: nat, g: nat)
      requires |freeInodes| == Groups() && g < Groups()
      reads this
    {
      freeInodes[g] != 0 &&
      forall k :: 0 <= k < Groups() && freeInodes[k] != 0 ==> Behind(Groups(), from, g) <= Behind(Groups(), from, k)
    }

    /** The policy of `find_group`: the parent's group if it has a free inode and a free block; else the first such
        group of the quadratic walk; else the first group behind the parent's with a free inode. */
    ghost predicate Chosen(parentGroup: nat, parentIno: nat, g: nat)
      requires parentGroup < Groups() && g < Groups() && |freeInodes| == |freeBlocks| == Groups()
      reads this
    {
      if Attractive(parentGroup) then g == parentGroup
      else if NoneHashed(parentGroup + parentIno) then NextFree(parentGroup, g)
      else Hashed(parentGroup + parentIno, g)
    }

    lemma AttractiveMeans(from: nat, j: nat)
      requires 0 < Groups() && |freeInodes| == |freeBlocks| == Groups()
      ensures 0 <= (from + 2 * Pow2(j) - 1) % |bitmap| < |bitmap|
      ensures Probe(Groups(), from, j) == (from + 2 * Pow2(j) - 1) % |bitmap|
      ensures !Attractive(Probe(Groups(), from, j)) <==>
                freeInodes[(from + 2 * Pow2(j) - 1) % |bitmap|] == 0
                || freeBlocks[(from + 2 * Pow2(j) - 1) % |bitmap|] == 0
    {
      hide Pow2, Probe;
      ProbeMeans(Groups(), from, j);
    }

    lemma NoneHashedMeans(from: nat)
      requires 0 < Groups() && |freeInodes| == |freeBlocks| == Groups()
      ensures NoneHashed(from) <==>
                forall j: nat :: Pow2(j) < |bitmap| ==>
                  freeInodes[(from + 2 * Pow2(j) - 1) % |bitmap|] == 0
                  || freeBlocks[(from + 2 * Pow2(j) - 1) % |bitmap|] == 0
    {
      hide Pow2, Probe, Attractive;
      if NoneHashed(from) {
        forall j: nat | Pow2(j) < |bitmap|
          ensures freeInodes[(from + 2 * Pow2(j) - 1) % |bitmap|] == 0
                  || freeBlocks[(from + 2 * Pow2(j) - 1) % |bitmap|] == 0
        {
          AttractiveMeans(from, j);
        }
      } else {
        var j: nat :| Pow2(j) < Groups() && Attractive(Probe(Groups(), from, j));
        AttractiveMeans(from, j);
      }
    }

    lemma NoneBefore(from: nat, j: nat)
      requires 0 < Groups() && |freeInodes| == |freeBlocks| == Groups()
      ensures (forall i: nat :: i < j ==> !Attractive(Probe(Groups(), from, i))) <==>
                forall k: nat :: k < j ==>
                  freeInodes[(from + 2 * Pow2(k) - 1) % |bitmap|] == 0
                  || freeBlocks[(from + 2 * Pow2(k) - 1) % |bitmap|] == 0
    {
      hide Pow2, Probe, Attractive;
      if forall i: nat :: i < j ==> !Attractive(Probe(Groups(), from, i)) {
        forall k: nat | k < j
          ensures freeInodes[(from + 2 * Pow2(k) - 1) % |bitmap|] == 0
                  || freeBlocks[(from + 2 * Pow2(k) - 1) % |bitmap|] == 0
        {
          AttractiveMeans(from, k);
        }
      } else {
        var k: nat :| k < j && Attractive(Probe(Groups(), from, k));
        AttractiveMeans(from, k);
      }
    }

    lemma NextFreeMeans(p: nat, g: nat)
      requires p < Groups() && |freeInodes| == Groups() && g < Groups()
      ensures NextFree(p, g) <==>
                freeInodes[g] != 0 &&
                forall k :: 0 <= k < |bitmap| && freeInodes[k] != 0 ==>
                  (g + |bitmap| - p - 1) % |bitmap| <= (k + |bitmap| - p - 1) % |bitmap|
    {
      hide Behind;
      forall k | 0 <= k < |bitmap|
        ensures Behind(Groups(), p, k) == (k + |bitmap| - p - 1) % |bitmap| + 1
      {
        BehindMeans(Groups(), p, k);
      }
    }

    /** The policy in numbers, for parent group `p` and parent number `i`.  The parent's group, if it has a free inode
        and a free block; ... */
    lemma ParentFirst(p: nat, i: nat, g: nat)
      requires p < |bitmap| && g < |bitmap| && |freeInodes| == |freeBlocks| == |bitmap|
      requires freeInodes[p] != 0 && freeBlocks[p] != 0
      ensures Chosen(p, i, g) <==> g == p
    {
    }

    /** ... else the first group with both among p + i + 1, p + i + 3, p + i + 7, ... (here behind `j` doublings), ...
        */
    lemma WalkSecond(p: nat, i: nat, j: nat, g: nat)
      requires p < |bitmap| && g < |bitmap| && |freeInodes| == |freeBlocks| == |bitmap|
      requires (freeInodes[p] == 0 || freeBlocks[p] == 0) && Pow2(j) < |bitmap|
      requires var k := (p + i + 2 * Pow2(j) - 1) % |bitmap|; 0 <= k && freeInodes[k] != 0 && freeBlocks[k] != 0
      requires forall h: nat :: h < j ==>
                 freeInodes[(p + i + 2 * Pow2(h) - 1) % |bitmap|] == 0
                 || freeBlocks[(p + i + 2 * Pow2(h) - 1) % |bitmap|] == 0
      ensures Chosen(p, i, g) <==> g == (p + i + 2 * Pow2(j) - 1) % |bitmap|
    {
      hide Pow2, Probe, Attractive;
      AttractiveMeans(p + i, j);
      NoneBefore(p + i, j);
      assert !Attractive(p) by { IsAttractive(p); }
      FirstIsOnly(p + i, j, g);
    }

    lemma FirstIsOnly(from: nat, j: nat, g: nat)
      requires 0 < Groups() && |freeInodes| == |freeBlocks| == Groups() && g < Groups()
      requires Pow2(j) < Groups() && Attractive(Probe(Groups(), from, j))
      requires forall i: nat :: i < j ==> !Attractive(Probe(Groups(), from, i))
      ensures !NoneHashed(from) && (Hashed(from, g) <==> g == Probe(Groups(), from, j))
    {
      hide Pow2, Probe, Attractive;
    }

    /** ... and else, when the walk meets none, the first group behind `p` with a free inode. */
    lemma LinearLast(p: nat, i: nat, g: nat)
      requires p < |bitmap| && g < |bitmap| && |freeInodes| == |freeBlocks| == |bitmap|
      requires freeInodes[p] == 0 || freeBlocks[p] == 0
      requires forall j: nat :: Pow2(j) < |bitmap| ==>
                 freeInodes[(p + i + 2 * Pow2(j) - 1) % |bitmap|] == 0
                 || freeBlocks[(p + i + 2 * Pow2(j) - 1) % |bitmap|] == 0
      ensures Chosen(p, i, g) <==>
                freeInodes[g] != 0 &&
                forall k :: 0 <= k < |bitmap| && freeInodes[k] != 0 ==>
                  (g + |bitmap| - p - 1) % |bitmap| <= (k + |bitmap| - p - 1) % |bitmap|
    {
      hide NoneHashed, Hashed, NextFree, Pow2;
      NoneHashedMeans(p + i);
      NextFreeMeans(p, g);
    }

    /** `find_group` (ialloc.c:114-166); -1 exactly if no group counts a free inode. */
    method FindGroup(parentGroup: nat, parentIno: nat) returns (g: int)
      requires Valid() && parentGroup < Groups()
      ensures -1 <= g < Groups() == |freeInodes|
      ensures g == -1 <==> forall k :: 0 <= k < Groups() ==> freeInodes[k] == 0
      ensures g >= 0 ==> freeInodes[g] != 0 && Chosen(parentGroup, parentIno, g)
    {
      hide Counted, Hashed, NoneHashed, NextFree;
      CountedLength(bitmap, freeInodes, freeCounter);
      if Attractive(parentGroup) { return parentGroup; }
      g := QuadraticWalk(parentGroup, parentIno);
      if g == -1 { g := LinearWalk(parentGroup); }
    }

    /** ialloc.c:140-150. */
    method QuadraticWalk(parentGroup: nat, parentIno: nat) returns (g: int)
      requires parentGroup < Groups() && |freeInodes| == |freeBlocks| == Groups()
      ensures -1 <= g < Groups() && (g >= 0 ==> freeInodes[g] != 0)
      ensures g == -1 <==> NoneHashed(parentGroup + parentIno)
      ensures g >= 0 ==> Hashed(parentGroup + parentIno, g)
    {
      hide Attractive, Probe, Pow2;
      var n := Groups();
      var from := parentGroup + parentIno;
      DivMod(from, n);
      var group, i := from % n, 1;
      ghost var j := 0;
      assert i == Pow2(j) by { Pow2OfZero(); }
      while i < n
        invariant i == Pow2(j) && 0 < i && group == (from + i - 1) % n
        invariant forall k: nat :: k < j ==> !Attractive(Probe(n, from, k))
        decreases n - i
      {
        NextProbe(n, from, j);
        group := group + i;
        if group >= n { group := group - n; }
        if freeInodes[group] != 0 && freeBlocks[group] != 0 {
          IsAttractive(group);
          return group;
        }
        IsAttractive(group);
        i := 2 * i;
        j := j + 1;
      }
      forall k: nat | Pow2(k) < n
        ensures k < j
      {
        if j <= k { Pow2Grows(j, k); }
      }
      return -1;
    }

    lemma IsAttractive(k: nat)
      requires k < |freeInodes| && k < |freeBlocks|
      ensures Attractive(k) <==> freeInodes[k] != 0 && freeBlocks[k] != 0
    {
    }

    /** ialloc.c:156-165. */
    method LinearWalk(parentGroup: nat) returns (g: int)
      requires parentGroup < Groups() && |freeInodes| == Groups()
      ensures -1 <= g < Groups() && (g >= 0 ==> NextFree(parentGroup, g))
      ensures g == -1 <==> forall k :: 0 <= k < Groups() ==> freeInodes[k] == 0
    {
      var n, group := Groups(), parentGroup;
      for j := 0 to n
        invariant group < n && group == if parentGroup + j < n then parentGroup + j else parentGroup + j - n
        invariant forall k :: 0 <= k < n && Behind(n, parentGroup, k) <= j ==> freeInodes[k] == 0
      {
        StepVisits(n, parentGroup, group, j);
        group := (group + 1) % n;
        if freeInodes[group] != 0 { return group; }
      }
      return -1;
    }

    /** The search of `ext2_new_inode` for a clear bit, run alone (ialloc.c:196-243): the bit found is set. */
    method TakeBit(start: nat) returns (k: nat, bit: nat, found: bool)
      requires Valid() && start < Groups()
      modifies this`bitmap
      ensures found <==> !old(Full())
      ensures !found ==> bitmap == old(bitmap)
      ensures found ==>
                && k < |old(bitmap)| && bit < inodesPerGroup && !old(bitmap)[k][bit]
                && bitmap == old(bitmap)[k := old(bitmap)[k][bit := true]]
                && (forall b :: 0 <= b < bit ==> old(bitmap)[k][b])
                && ((exists b :: 0 <= b < inodesPerGroup && !old(bitmap)[start][b]) ==> k == start)
    {
      hide Counted;
      var n := Groups();
      k := start;
      for i := 0 to n
        invariant k < n && bitmap == old(bitmap) && k == if start + i < n then start + i else start + i - n
        invariant forall j, b :: 0 <= j < n && Passed(n, start, j, i) && 0 <= b < inodesPerGroup ==> bitmap[j][b]
      {
        bit := FindNextZeroBit(bitmap[k], inodesPerGroup, 0);
        if bit < inodesPerGroup {
          bitmap := bitmap[k := bitmap[k][bit := true]];
          return k, bit, true;
        }
        StepPasses(n, start, k, i);
        k := (k + 1) % n;
      }
      return 0, 0, false;
    }

    /** Bit and number determine each other; numbers start at 1. */
    lemma NumberOfBit(k: nat, bit: nat)
      requires inodesPerGroup > 0 && bit < inodesPerGroup
      ensures InoOf(k, bit) == k * inodesPerGroup + bit + 1
      ensures InoOf(k, bit) > 0 && InoGroup(InoOf(k, bit), inodesPerGroup) == k
      ensures InoBit(InoOf(k, bit), inodesPerGroup) == bit
    {
      DivUnique(k * inodesPerGroup + bit, k, bit, inodesPerGroup);
    }

    /** The state after inode (`k`, `bit`) has been marked `used` and counted. */
    twostate predicate Marked(k: nat, bit: nat, used: bool, dir: bool)
      requires old(k < Groups() && bit < |bitmap[k]| && k < |freeInodes| && k < |usedDirs|)
      reads this
    {
      var d := if used then 1 else -1;
      && bitmap == old(bitmap)[k := old(bitmap)[k][bit := used]]
      && freeInodes == old(freeInodes)[k := Add16(old(freeInodes)[k], -d)] && freeCounter == old(freeCounter) - d
      && usedDirs == (if dir then old(usedDirs)[k := Add16(old(usedDirs)[k], d)] else old(usedDirs))
      && dirsCounter == old(dirsCounter) + (if dir then d else 0)
    }

    /** Of a freed inode the bit is cleared, and each count takes it back. */
    twostate lemma FreedMeans(k: nat, bit: nat, dir: bool)
      requires old(k < Groups() && bit < |bitmap[k]| && k < |freeInodes| && k < |usedDirs|)
      ensures Marked(k, bit, false, dir) <==>
                && bitmap == old(bitmap)[k := old(bitmap)[k][bit := false]]
                && freeInodes == old(freeInodes)[k := (old(freeInodes)[k] + 1) % 0x1_0000]
                && freeCounter == old(freeCounter) + 1
                && usedDirs == (if dir then old(usedDirs)[k := (old(usedDirs)[k] + 0xFFFF) % 0x1_0000]
                                else old(usedDirs))
                && dirsCounter == old(dirsCounter) - (if dir then 1 else 0)
    {
    }

    /** The bookkeeping of `ext2_new_inode` (ialloc.c:259-267) and of `ext2_release_inode` (:49-71). */
    method Account(k: nat, used: bool, dir: bool)
      requires k < |freeInodes| && k < |usedDirs|
      modifies this`freeInodes, this`usedDirs, this`freeCounter, this`dirsCounter
      ensures var d := if used then 1 else -1;
              && freeInodes == old(freeInodes)[k := Add16(old(freeInodes)[k], -d)]
              && freeCounter == old(freeCounter) - d
              && usedDirs == (if dir then old(usedDirs)[k := Add16(old(usedDirs)[k], d)] else old(usedDirs))
              && dirsCounter == old(dirsCounter) + (if dir then d else 0)
    {
      var d := if used then 1 else -1;
      freeCounter := freeCounter - d;
      if dir { dirsCounter := dirsCounter + d; }
      freeInodes := freeInodes[k := Add16(freeInodes[k], -d)];
      if dir { usedDirs := usedDirs[k := Add16(usedDirs[k], d)]; }
    }

    /** The bit that the policy leads to: the least clear one of the chosen group. */
    ghost predicate Offered(parentGroup: nat, parentIno: nat, k: nat, bit: nat)
      requires Valid() && parentGroup < Groups() && k < Groups() && bit < inodesPerGroup
      reads this
    {
      CountedLength(bitmap, freeInodes, freeCounter);
      Chosen(parentGroup, parentIno, k) && !bitmap[k][bit] && forall b :: 0 <= b < bit ==> bitmap[k][b]
    }

    /** The policy leads to the bit of an inode that is reserved or does not exist. */
    ghost predicate Refuses(parentGroup: nat, parentIno: nat)
      requires Valid() && parentGroup < Groups()
      reads this
    {
      exists k, bit :: 0 <= k < Groups() && 0 <= bit < inodesPerGroup &&
                       Offered(parentGroup, parentIno, k, bit) && !Usable(InoOf(k, bit))
    }

    /** A number is refused if and only if it lies outside those from `s_first_ino` to `s_inodes_count`: it is the
        number of the least clear bit of the chosen group. */
    lemma RefusesMeans(p: nat, i: nat)
      requires Valid() && p < |bitmap| == |freeInodes|
      ensures Refuses(p, i) <==>
                exists k, bit :: 0 <= k < |bitmap| && 0 <= bit < inodesPerGroup && Chosen(p, i, k) && !bitmap[k][bit]
                                 && (forall b :: 0 <= b < bit ==> bitmap[k][b])
                                 && !(firstIno <= k * inodesPerGroup + bit + 1 <= inodesCount)
    {
      hide Chosen, Counted;
      if Refuses(p, i) {
        var k, bit :| 0 <= k < Groups() && 0 <= bit < inodesPerGroup && Offered(p, i, k, bit)
                      && !Usable(InoOf(k, bit));
        assert !bitmap[k][bit];
      }
      forall k, bit | 0 <= k < |bitmap| && 0 <= bit < inodesPerGroup && Chosen(p, i, k) && !bitmap[k][bit]
        ensures (forall b :: 0 <= b < bit ==> bitmap[k][b]) ==>
                !(firstIno <= k * inodesPerGroup + bit + 1 <= inodesCount) ==> Refuses(p, i)
      {
        assert Offered(p, i, k, bit) <==> forall b :: 0 <= b < bit ==> bitmap[k][b];
      }
    }

    /** The policy leads to at most one bit. */
    lemma OneOffer(parentGroup: nat, parentIno: nat, k: nat, bit: nat, k': nat, bit': nat)
      requires Valid() && parentGroup < Groups() && k < Groups() && k' < Groups() && bit < inodesPerGroup
      requires bit' < inodesPerGroup
      requires Offered(parentGroup, parentIno, k, bit) && Offered(parentGroup, parentIno, k', bit')
      ensures k == k' && bit == bit'
    {
      hide Counted, Attractive, Probe, Pow2;
      CountedLength(bitmap, freeInodes, freeCounter);
    }

    /** The least clear bit of the chosen group is the one offered. */
    lemma FirstClearIsOffered(parentGroup: nat, parentIno: nat, g: nat)
      requires Valid() && parentGroup < Groups() == |freeInodes| && g < Groups() && Chosen(parentGroup, parentIno, g)
      ensures forall bit ::
                0 <= bit < inodesPerGroup && !bitmap[g][bit] && (forall b :: 0 <= b < bit ==> bitmap[g][b]) ==>
                Offered(parentGroup, parentIno, g, bit) && (Refuses(parentGroup, parentIno) <==> !Usable(InoOf(g, bit)))
    {
      hide Chosen, Counted;
      forall bit | 0 <= bit < inodesPerGroup && !bitmap[g][bit] && (forall b :: 0 <= b < bit ==> bitmap[g][b])
        ensures Offered(parentGroup, parentIno, g, bit) && (Refuses(parentGroup, parentIno) <==> !Usable(InoOf(g, bit)))
      {
        if Refuses(parentGroup, parentIno) {
          var k, b :| 0 <= k < Groups() && 0 <= b < inodesPerGroup &&
                      Offered(parentGroup, parentIno, k, b) && !Usable(InoOf(k, b));
          OneOffer(parentGroup, parentIno, k, b, g, bit);
        }
      }
    }

    /** No bit is offered on full groups: a chosen group counts a clear bit. */
    lemma FullRefusesNothing(parentGroup: nat, parentIno: nat)
      requires Valid() && parentGroup < Groups() && Full()
      ensures !Refuses(parentGroup, parentIno)
    {
    }

    /** `ext2_new_inode` (ialloc.c:171-295), run alone.  It reports ENOSPC exactly when no bit is clear.  A number that
        turns out to be reserved or too large is refused, but its bit stays set; with the bits of such inodes set
        beforehand this does not happen. */
    method NewInode(parentGroup: nat, parentIno: nat, dir: bool) returns (r: NewInodeResult)
      requires Valid() && parentGroup < Groups()
      modifies this`bitmap, this`freeInodes, this`usedDirs, this`freeCounter, this`dirsCounter
      ensures r.Enospc? <==>
                forall k :: 0 <= k < |old(bitmap)| ==>
                  forall bit :: 0 <= bit < |old(bitmap)[k]| ==> old(bitmap)[k][bit]
      ensures r.Enospc? ==> Valid() && bitmap == old(bitmap) && freeInodes == old(freeInodes)
      ensures r.Eio? <==> old(Refuses(parentGroup, parentIno))
      ensures r.Eio? ==>
                && !old(Reserved()) && freeInodes == old(freeInodes) && freeCounter == old(freeCounter)
                && exists k, bit :: 0 <= k < |old(bitmap)| && 0 <= bit < inodesPerGroup
                                    && old(Offered(parentGroup, parentIno, k, bit))
                                    && bitmap == old(bitmap)[k := old(bitmap)[k][bit := true]]
      ensures r.NewIno? ==> Valid() && 0 < r.ino && firstIno <= r.ino <= inodesCount
      ensures r.NewIno? ==>
                && r.group < |old(bitmap)| == |old(freeInodes)| == |old(usedDirs)| && r.bit < inodesPerGroup
                && r.ino == InoOf(r.group, r.bit)
                && !old(bitmap)[r.group][r.bit] && Marked(r.group, r.bit, true, dir)
                && old(Offered(parentGroup, parentIno, r.group, r.bit))
      ensures r.NewIno? ==>
                && bitmap == old(bitmap)[r.group := old(bitmap)[r.group][r.bit := true]]
                && freeInodes == old(freeInodes)[r.group := (old(freeInodes)[r.group] - 1) % 0x1_0000]
                && freeCounter == old(freeCounter) - 1
                && usedDirs == (if dir then old(usedDirs)[r.group := (old(usedDirs)[r.group] + 1) % 0x1_0000]
                                else old(usedDirs))
                && dirsCounter == old(dirsCounter) + (if dir then 1 else 0)
    {
      hide Counted, InoOf, Usable, Chosen, Offered, Refuses;
      CountedLength(bitmap, freeInodes, freeCounter);
      var group := FindGroup(parentGroup, parentIno);
      if group == -1 {
        NoneFree();
        FullRefusesNothing(parentGroup, parentIno);
        return Enospc;
      }
      HasClearBit(group);
      FirstClearIsOffered(parentGroup, parentIno, group);
      var k, bit, found := TakeBit(group);
      if !found { return Enospc; }
      var ino := InoOf(k, bit);
      UsableMeans(ino);
      if !Usable(ino) { return Eio; }
      Account(k, true, dir);
      CountsFollowBit(old(bitmap), old(freeInodes), old(freeCounter), k, bit, true);
      InoPositive(k, bit);
      return NewIno(ino, k, bit);
    }

    lemma UsableMeans(ino: nat)
      ensures Usable(ino) <==> firstIno <= ino <= inodesCount
    {
    }

    lemma InoPositive(k: nat, bit: nat)
      ensures InoOf(k, bit) > 0
    {
    }

    lemma HasClearBit(k: nat)
      requires Valid() && k < Groups() == |freeInodes| && freeInodes[k] != 0
      ensures exists b :: 0 <= b < inodesPerGroup && !bitmap[k][b]
    {
      hide Sum;
      CountZero(bitmap[k]);
    }

    lemma NoneFree()
      requires Valid() && |freeInodes| == Groups() && forall k :: 0 <= k < Groups() ==> freeInodes[k] == 0
      ensures Full()
    {
      hide ClearCount, Sum;
      forall k | 0 <= k < Groups()
        ensures forall bit :: 0 <= bit < inodesPerGroup ==> bitmap[k][bit]
      {
        CountZero(bitmap[k]);
      }
    }

    /** The number names a bit of a group that exists, and that bit is set. */
    ghost predicate InUse(ino: nat)
      requires Valid()
      reads this
    {
      && Usable(ino) && InoGroup(ino, inodesPerGroup) < Groups()
      && (DivMod(ino - 1, inodesPerGroup); bitmap[InoGroup(ino, inodesPerGroup)][InoBit(ino, inodesPerGroup)])
    }

    /** In use is a number from `s_first_ino` to `s_inodes_count` whose group exists and whose bit there is set. */
    lemma InUseMeans(ino: nat)
      requires Valid()
      ensures InUse(ino) <==>
                && firstIno <= ino <= inodesCount && (ino - 1) / inodesPerGroup < |bitmap|
                && var k, bit := (ino - 1) / inodesPerGroup, (ino - 1) % inodesPerGroup;
                   0 <= k && 0 <= bit < |bitmap[k]| && bitmap[k][bit]
    {
      hide Counted;
      if ino > 0 { DivMod(ino - 1, inodesPerGroup); }
    }

    /** `ext2_free_inode` (ialloc.c:76-109): a reserved or nonexistent number, one whose group has no descriptor, or one
        that is already free, changes nothing. */
    method FreeInode(ino: nat, dir: bool)
      requires Valid()
      modifies this`bitmap, this`freeInodes, this`usedDirs, this`freeCounter, this`dirsCounter
      ensures Valid() && |old(freeInodes)| == |old(bitmap)|
      ensures if old(InUse(ino))
              then Marked(InoGroup(ino, inodesPerGroup), InoBit(ino, inodesPerGroup), false, dir)
              else bitmap == old(bitmap) && freeInodes == old(freeInodes) && usedDirs == old(usedDirs)
                   && freeCounter == old(freeCounter) && dirsCounter == old(dirsCounter)
    {
      hide Counted, InoGroup, InoBit;
      CountedLength(bitmap, freeInodes, freeCounter);
      if !Usable(ino) { return; }
      var k, bit := InoGroup(ino, inodesPerGroup), InoBit(ino, inodesPerGroup);
      if k >= Groups() { return; }
      BitInRange(ino);
      if bitmap[k][bit] {
        bitmap := bitmap[k := bitmap[k][bit := false]];
        Account(k, false, dir);
        CountsFollowBit(old(bitmap), old(freeInodes), old(freeCounter), k, bit, false);
      }
    }

    lemma BitInRange(ino: nat)
      requires ino > 0 && inodesPerGroup > 0
      ensures InoBit(ino, inodesPerGroup) < inodesPerGroup
      ensures InoOf(InoGroup(ino, inodesPerGroup), InoBit(ino, inodesPerGroup)) == ino
    {
      DivMod(ino - 1, inodesPerGroup);
    }

    /** Freeing a new inode restores bitmap and counters; only a refused number leaves a trace. */
    method NewThenFree(parentGroup: nat, parentIno: nat, dir: bool) returns (r: NewInodeResult)
      requires Valid() && parentGroup < Groups()
      modifies this`bitmap, this`freeInodes, this`usedDirs, this`freeCounter, this`dirsCounter
      ensures r.Eio? <==> old(Refuses(parentGroup, parentIno))
      ensures !r.Eio? ==> Valid() && bitmap == old(bitmap) && freeInodes == old(freeInodes)
      ensures r.NewIno? ==>
                usedDirs == old(usedDirs) && freeCounter == old(freeCounter) && dirsCounter == old(dirsCounter)
    {
      hide Counted, InoGroup, InoBit, InoOf, Add16, Offered, Refuses, Reserved, Full;
      CountedLength(bitmap, freeInodes, freeCounter);
      ghost var counts := freeInodes;
      CountsFit(bitmap, freeInodes, freeCounter, inodesPerGroup);
      r := NewInode(parentGroup, parentIno, dir);
      if r.NewIno? {
        NumberOfBit(r.group, r.bit);
        Add16Undone(old(freeInodes)[r.group]);
        Add16Undone(old(usedDirs)[r.group]);
        FreeInode(r.ino, dir);
        assert bitmap[r.group] == old(bitmap)[r.group];
      }
    }
  }

  /** With the bits of the reserved inodes clear, the first inode of a new filesystem is refused, and its bit is lost:
      it stays set although the counts still include it. */
  method ReservedBitIsLost() returns (g: InodeGroups, r: NewInodeResult)
    ensures r.Eio? && |g.bitmap| == 1 && |g.bitmap[0]| == 32 && g.bitmap[0][0] && g.freeInodes == [32]
    ensures g.freeCounter == 32
    ensures !g.Valid()
  {
    var bits := seq(32, _ => false);
    AllClear(bits);
    g := new InodeGroups(32, 11, 32, [bits], [32], [0], [1], 32, 0);
    assert Counted([bits], [32], 32);
    assert g.Attractive(0) && g.Chosen(0, 2, 0) && g.Offered(0, 2, 0, 0) && !g.Usable(g.InoOf(0, 0));
    r := g.NewInode(0, 2, false);
    ghost var bit :| 0 <= bit < 32 && g.bitmap == [bits[bit := true]];
    CountUpdate(bits, bit, true);
  }

  lemma {:induction false} AllClear(b: Bits)
    requires forall i :: 0 <= i < |b| ==> !b[i]
    ensures ClearCount(b) == |b|
    decreases |b|
  {
    if |b| > 0 { AllClear(b[..|b| - 1]); }
  }

  /** Group `k` is one of the first `i` groups from `start` on. */
  predicate Passed(n: nat, start: nat, k: nat, i: nat)
  {
    if k >= start then k - start < i else k + n - start < i
  }

  lemma StepPasses(n: nat, start: nat, k: nat, i: nat)
    requires start < n && k < n && i < n && k == if start + i < n then start + i else start + i - n
    ensures var next := (k + 1) % n;
            && next < n && next == (if start + (i + 1) < n then start + (i + 1) else start + (i + 1) - n)
            && forall j :: 0 <= j < n ==> (Passed(n, start, j, i + 1) <==> Passed(n, start, j, i) || j == k)
  {
    NextModulo(k, n);
    assert Passed(n, start, k, i + 1) && !Passed(n, start, k, i);
    assert forall j :: 0 <= j < n && Passed(n, start, j, i + 1) && !Passed(n, start, j, i) ==> j == k;
  }

  /** One bit changes, and the counts with it; no 16-bit count wraps, as a group has at most 2^15 inodes. */
  lemma CountsFollowBit(m: seq<Bits>, counts: seq<nat>, total: int, k: nat, bit: nat, used: bool)
    requires Counted(m, counts, total) && k < |m| && bit < |m[k]| <= 0x8000 && m[k][bit] != used
    ensures var d := if used then 1 else -1;
            |counts| == |m| && Counted(m[k := m[k][bit := used]], counts[k := Add16(counts[k], -d)], total - d)
  {
    hide ClearCount, Sum, Add16;
    var d: int := if used then -1 else 1;
    CountUpdate(m[k], bit, used);
    assert counts[k] == ClearCount(m[k]) && ClearCount(m[k][bit := used]) == counts[k] + d;
    Add16Small(counts[k], d);
    SumUpdate(counts, k, counts[k] + d);
  }

  lemma CountsFit(m: seq<Bits>, counts: seq<nat>, total: int, len: nat)
    requires Counted(m, counts, total) && len <= 0x8000 && forall k :: 0 <= k < |m| ==> |m[k]| == len
    ensures |counts| == |m| && forall k :: 0 <= k < |counts| ==> counts[k] < 0x1_0000
  {
    hide Sum, ClearCount;
    forall k | 0 <= k < |counts|
      ensures counts[k] < 0x1_0000
    {
      assert counts[k] == ClearCount(m[k]) <= |m[k]|;
    }
  }

  lemma Add16Small(x: nat, d: int)
    requires 0 <= x + d < 0x1_0000
    ensures Add16(x, d) == x + d
  {
  }

  lemma CountedLength(m: seq<Bits>, counts: seq<nat>, total: int)
    requires Counted(m, counts, total)
    ensures |counts| == |m|
  {
  }
}
