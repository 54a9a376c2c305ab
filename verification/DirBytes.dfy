/** Directory pages and their entries in plain bytes: what the fields of a record are, which pages are accepted, and
    which entries a page holds. */
module DirBytes {
  import opened Bytes
  import opened DirImage
  import opened DirChain
  import opened DirPages

  /** The start of a chunk is the offset without its remainder. */
  lemma {:induction false} BaseIsMultiple(o: nat, c: nat)
    requires ChunkSize(c)
    ensures ChunkBase(o, c) == o - o % c
    decreases o
  {
    if o >= c {
      BaseIsMultiple(o - c, c);
      assert c == 1024 || c == 2048 || c == 4096;
      assert (o - c) % c == o % c;
    }
  }

  /** What is checked of a record, byte by byte (dir.c:89-104): a length that is a multiple of four and holds header and
      name, no chunk boundary inside, and an inode number in range. */
  lemma RecordBytes(b: seq<byte>, f: Format, o: nat)
    requires FormatOk(f) && o + 8 <= |b|
    ensures RecLenAt(b, o) == b[o + 4] as int + 256 * (b[o + 5] as int) && NameLenAt(b, o) == b[o + 6]
    ensures InodeAt(b, o) == b[o] as int + 256 * (b[o + 1] as int) + 65536 * (b[o + 2] as int)
                             + 16777216 * (b[o + 3] as int)
    ensures var len := b[o + 4] as int + 256 * (b[o + 5] as int);
            var ino := b[o] as int + 256 * (b[o + 1] as int) + 65536 * (b[o + 2] as int) + 16777216 * (b[o + 3] as int);
            RecordOk(b, f, o) <==>
              len % 4 == 0 && len >= 12 && len >= 8 + b[o + 6] as int && o % f.chunk + len <= f.chunk && ino <= f.maxIno
  {
    hide ChunkBase;
    BaseIsMultiple(o, f.chunk);
  }

  /** An accepted page is tiled by such records, from its start to its end or to that of the directory, and this end is
      a chunk boundary ... */
  lemma AcceptedPage(b: seq<byte>, f: Format, size: nat, n: nat) returns (cuts: seq<nat>)
    requires FormatOk(f) && PageOk(b, f, size, n)
    ensures |cuts| > 0 && cuts[0] == 4096 * n && cuts[|cuts| - 1] <= |b|
    ensures cuts[|cuts| - 1] == if size < 4096 * (n + 1) then size else 4096 * (n + 1)
    ensures cuts[|cuts| - 1] % f.chunk == 0
    ensures forall i {:trigger cuts[i]} :: 0 <= i < |cuts| - 1 ==>
               var o := cuts[i];
               o + 8 <= |b| &&
               var len := b[o + 4] as int + 256 * (b[o + 5] as int);
               && cuts[i + 1] == o + len && len % 4 == 0 && len >= 12 && len >= 8 + b[o + 6] as int
               && o % f.chunk + len <= f.chunk
               && b[o] as int + 256 * (b[o + 1] as int) + 65536 * (b[o + 2] as int)
                  + 16777216 * (b[o + 3] as int) <= f.maxIno
  {
    hide ChunkBase, RecordOk, Chain, RecLenAt;
    BaseIsMultiple(PageEnd(size, n), f.chunk);
    cuts := ChainIsTiling(b, f, PageStart(n), PageEnd(size, n));
    forall i {:trigger cuts[i]} | 0 <= i < |cuts| - 1
      ensures var o := cuts[i];
              o + 8 <= |b| &&
              var len := b[o + 4] as int + 256 * (b[o + 5] as int);
              && cuts[i + 1] == o + len && len % 4 == 0 && len >= 12 && len >= 8 + b[o + 6] as int
              && o % f.chunk + len <= f.chunk
              && b[o] as int + 256 * (b[o + 1] as int) + 65536 * (b[o + 2] as int)
                 + 16777216 * (b[o + 3] as int) <= f.maxIno
    {
      RecordHeader(b, f, cuts[i]);
      RecordBytes(b, f, cuts[i]);
    }
  }

  lemma RecordHeader(b: seq<byte>, f: Format, o: nat)
    requires RecordOk(b, f, o)
    ensures o + 8 <= |b|
  {
  }

  /** ... and a page that is tiled by them is accepted. */
  lemma TiledPage(b: seq<byte>, f: Format, size: nat, n: nat, cuts: seq<nat>)
    requires FormatOk(f)
    requires |cuts| > 0 && cuts[0] == 4096 * n && cuts[|cuts| - 1] <= |b|
    requires cuts[|cuts| - 1] == if size < 4096 * (n + 1) then size else 4096 * (n + 1)
    requires cuts[|cuts| - 1] % f.chunk == 0
    requires forall i :: 0 <= i < |cuts| - 1 ==>
               var o := cuts[i];
               o + 8 <= |b| &&
               var len := b[o + 4] as int + 256 * (b[o + 5] as int);
               && cuts[i + 1] == o + len && len % 4 == 0 && len >= 12 && len >= 8 + b[o + 6] as int
               && o % f.chunk + len <= f.chunk
               && b[o] as int + 256 * (b[o + 1] as int) + 65536 * (b[o + 2] as int)
                  + 16777216 * (b[o + 3] as int) <= f.maxIno
    ensures PageOk(b, f, size, n)
  {
    hide ChunkBase, RecordOk, Chain, RecLenAt;
    BaseIsMultiple(PageEnd(size, n), f.chunk);
    forall i | 0 <= i < |cuts| - 1
      ensures cuts[i] + 8 <= |b| && RecordOk(b, f, cuts[i]) && cuts[i + 1] == cuts[i] + RecLenAt(b, cuts[i])
    {
      var next := cuts[i + 1];
      RecordBytes(b, f, cuts[i]);
    }
    TilingIsChain(b, f, cuts, PageStart(n), PageEnd(size, n));
  }

  /** Every live entry is read off the bytes at its position ... */
  lemma EntryBytes(b: seq<byte>, f: Format, size: nat, e: Entry)
    requires e in Entries(b, f, size)
    ensures var p := e.pos;
            && p + 8 + |e.name| <= |b| && |e.name| == b[p + 6] as int && e.name == b[p + 8..p + 8 + |e.name|]
            && e.ino != 0
            && e.ino == b[p] as int + 256 * (b[p + 1] as int) + 65536 * (b[p + 2] as int)
                        + 16777216 * (b[p + 3] as int)
  {
    hide Entries, PageOk, PageLive;
    var n := PageOfEntry(b, f, size, e);
  }

  /** ... and every record of an accepted page with an inode number is a live entry. */
  lemma RecordIsEntry(b: seq<byte>, f: Format, size: nat, n: nat, p: nat)
    requires PageOk(b, f, size, n) && Chain(b, f, PageStart(n), p) && p < PageEnd(size, n) && p + 8 <= |b|
    requires exists i :: p <= i < p + 4 && b[i] != 0
    ensures exists e :: e in Entries(b, f, size) && e.pos == p
  {
    hide ChunkBase, Entries, Chain, Live;
    ChainCut(b, f, PageStart(n), p, PageEnd(size, n));
    ChainHead(b, f, p, PageEnd(size, n));
    StartIsLive(b, f, PageStart(n), p, PageEnd(size, n));
    EntryInItsPage(b, f, size, n, EntryAt(b, p));
  }
}
