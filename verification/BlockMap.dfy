/** The block bitmaps as a whole: which blocks are in use, and the counts kept about them. */
module BlockMap {
  import opened Bitmap
  import opened Geometry

  /** One bitmap per group, with a bit for every block of the group. */
  ghost predicate Shape(geo: Geo, m: seq<Bits>)
  {
    |m| == geo.Groups() && forall k :: 0 <= k < |m| ==> |m[k]| == geo.GroupLen(k)
  }

  ghost predicate Used(geo: Geo, m: seq<Bits>, b: nat)
    requires geo.SizesOk() && Shape(geo, m)
  {
    geo.InRange(b) && (Locate(geo, b); m[geo.GroupOf(b)][geo.BitOf(b)])
  }

  /** The bit of a block: so many blocks behind the first data block, counted in groups. */
  lemma UsedMeans(geo: Geo, m: seq<Bits>, b: nat)
    requires geo.SizesOk() && Shape(geo, m)
    ensures Used(geo, m, b) <==>
              && geo.firstDataBlock <= b < geo.blocksCount
              && var k, i := (b - geo.firstDataBlock) / geo.blocksPerGroup,
                             (b - geo.firstDataBlock) % geo.blocksPerGroup;
                 0 <= k < |m| && 0 <= i < |m[k]| && m[k][i]
  {
    if geo.InRange(b) { Locate(geo, b); }
    hide Geo.SizesOk, Geo.First, Geo.End;
  }

  function WriteBlock(geo: Geo, m: seq<Bits>, b: nat, v: bool): (r: seq<Bits>)
    requires geo.blocksPerGroup > 0
    ensures |r| == |m| && forall k :: 0 <= k < |m| ==> |r[k]| == |m[k]|
  {
    if geo.firstDataBlock <= b && geo.GroupOf(b) < |m| && geo.BitOf(b) < |m[geo.GroupOf(b)]| then
      m[geo.GroupOf(b) := m[geo.GroupOf(b)][geo.BitOf(b) := v]]
    else m
  }

  lemma UsedAfterWrite(geo: Geo, m: seq<Bits>, b: nat, v: bool, c: nat)
    requires geo.SizesOk() && Shape(geo, m) && geo.InRange(b)
    ensures Used(geo, WriteBlock(geo, m, b, v), c) <==> if c == b then v else Used(geo, m, c)
  {
    Locate(geo, b);
    if geo.InRange(c) { Locate(geo, c); }
  }

  /** The block is at bit `i` of group `k`. */
  lemma WriteInGroup(geo: Geo, m: seq<Bits>, k: nat, i: nat, v: bool)
    requires geo.SizesOk() && Shape(geo, m) && k < geo.Groups() && i < geo.GroupLen(k)
    ensures WriteBlock(geo, m, geo.First(k) + i, v) == m[k := m[k][i := v]]
  {
    LocateOnly(geo, k, geo.First(k) + i);
  }

  /** Blocks `[b, b + n)` are marked, one after the other. */
  function WriteRun(geo: Geo, m: seq<Bits>, b: nat, n: nat, v: bool): (r: seq<Bits>)
    requires geo.blocksPerGroup > 0
    ensures |r| == |m| && forall k :: 0 <= k < |m| ==> |r[k]| == |m[k]|
  {
    if n == 0 then m else WriteBlock(geo, WriteRun(geo, m, b, n - 1, v), b + n - 1, v)
  }

  lemma {:induction false} UsedAfterRun(geo: Geo, m: seq<Bits>, b: nat, n: nat, v: bool, c: nat)
    requires geo.SizesOk() && Shape(geo, m) && geo.InRange(b) && b + n <= geo.blocksCount
    ensures Used(geo, WriteRun(geo, m, b, n, v), c) <==> if b <= c < b + n then v else Used(geo, m, c)
    decreases n
  {
    hide WriteBlock, Used;
    if n > 0 {
      UsedAfterRun(geo, m, b, n - 1, v, c);
      UsedAfterWrite(geo, WriteRun(geo, m, b, n - 1, v), b + n - 1, v, c);
    }
  }

  /** Every listed block is freed on its own; zero is no block. */
  function FreeEach(geo: Geo, m: seq<Bits>, slots: seq<nat>): (r: seq<Bits>)
    requires geo.blocksPerGroup > 0
    ensures |r| == |m| && forall k :: 0 <= k < |m| ==> |r[k]| == |m[k]|
    decreases |slots|
  {
    if |slots| == 0 then m
    else
      var r := FreeEach(geo, m, slots[..|slots| - 1]);
      if slots[|slots| - 1] == 0 then r else WriteBlock(geo, r, slots[|slots| - 1], false)
  }

  /** Each group's count is the number of its clear bits, and the counter is their sum. */
  ghost predicate Counted(m: seq<Bits>, counts: seq<nat>, total: int)
  {
    && |counts| == |m| && (forall k :: 0 <= k < |m| ==> counts[k] == ClearCount(m[k]))
    && total == Sum(counts)
  }

  /** Adding to a 16-bit field. */
  function Add16(x: nat, d: int): (r: nat)
    ensures r < 0x1_0000
  {
    (x + d) % 0x1_0000
  }

  /** `group_update_free_blocks` on 16 bits, and the counter along with it, keep the counts right: a group has fewer
      than 2^16 blocks, so nothing wraps. */
  lemma CountsFollow(geo: Geo, m: seq<Bits>, m': seq<Bits>, counts: seq<nat>, total: int, k: nat, delta: int)
    requires geo.SizesOk() && Shape(geo, m) && Counted(m, counts, total) && k < geo.Groups()
    requires |m'| == |m| && |m'[k]| == |m[k]| && (forall j :: 0 <= j < |m| && j != k ==> m'[j] == m[j])
    requires ClearCount(m'[k]) == ClearCount(m[k]) + delta
    ensures counts[k] < 0x1_0000 && 0 <= counts[k] + delta < 0x1_0000
    ensures Counted(m', counts[k := counts[k] + delta], total + delta)
  {
    GroupsInOrder(geo, k);
    SumUpdate(counts, k, counts[k] + delta);
  }
}
