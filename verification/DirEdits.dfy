/** What the three in-place edits of one page do to the entries of the whole directory. */
module DirEdits {
  import opened Bytes
  import opened DirImage
  import opened DirChain
  import opened DirPages

  /** `[p, r)` is a run of records on page `n`. */
  ghost predicate Run(b: seq<byte>, f: Format, size: nat, n: nat, p: nat, r: nat)
  {
    && size <= |b| && f.chunk > 0 && ChunkBase(PageEnd(size, n), f.chunk) == PageEnd(size, n)
    && Chain(b, f, PageStart(n), p) && Chain(b, f, p, r) && Chain(b, f, r, PageEnd(size, n))
  }

  /** A run rewritten into a run: the page stays acceptable, and the directory's entries change as the run's do. */
  lemma RewriteRun(b: seq<byte>, b': seq<byte>, f: Format, size: nat, n: nat, p: nat, r: nat,
                   gone: set<Entry>, came: set<Entry>)
    requires Run(b, f, size, n, p, r) && ChangedWithin(b, b', p, r) && Chain(b', f, p, r)
    requires gone <= Live(b, f, p, r) && Live(b', f, p, r) == Live(b, f, p, r) - gone + came
    ensures PageOk(b, f, size, n) && PageOk(b', f, size, n) && EditOfPage(b, b', size, n)
    ensures Entries(b', f, size) == Entries(b, f, size) - gone + came
  {
    hide ChunkBase, Chain, Live;
    Splice(b, b', f, PageStart(n), p, r, PageEnd(size, n));
    RunBounds(b, f, PageStart(n), p, r, PageEnd(size, n));
    LiveAtOnePlace(b, f, p, r);
    assert PageLive(b', f, size, n) == PageLive(b, f, size, n) - gone + came;
    EditEntries(b, b', f, size, n, gone, came);
  }

  lemma RunBounds(b: seq<byte>, f: Format, lo: nat, p: nat, r: nat, hi: nat)
    requires Chain(b, f, lo, p) && Chain(b, f, p, r) && Chain(b, f, r, hi)
    ensures lo <= p <= r <= hi <= |b|
  {
  }

  /** Entries positioned in a run are the run's own. */
  lemma EntriesOfRun(b: seq<byte>, f: Format, size: nat, n: nat, p: nat, r: nat, e: Entry)
    requires Run(b, f, size, n, p, r) && e in Entries(b, f, size) && p <= e.pos < r
    ensures e in Live(b, f, p, r)
  {
    hide ChunkBase, Chain, Live;
    RunBounds(b, f, PageStart(n), p, r, PageEnd(size, n));
    Splice(b, b, f, PageStart(n), p, r, PageEnd(size, n));
    var m := PageOfEntry(b, f, size, e);
    assert m == n;
  }

  /** The record at a start of page `n` is a run of its own. */
  lemma RecordIsRun(b: seq<byte>, f: Format, size: nat, n: nat, p: nat)
    requires size <= |b| && PageOk(b, f, size, n)
    requires Chain(b, f, PageStart(n), p) && Chain(b, f, p, PageEnd(size, n)) && p < PageEnd(size, n)
    ensures RecordOk(b, f, p) && Run(b, f, size, n, p, p + RecLenAt(b, p)) && p + 8 + NameLenAt(b, p) <= size
    ensures Live(b, f, p, p + RecLenAt(b, p)) == if InodeAt(b, p) != 0 then {EntryAt(b, p)} else {}
  {
    hide InodeAt, RecLenAt, NameLenAt, ChunkBase, Live;
    ChainHead(b, f, p, PageEnd(size, n));
    OneRecord(b, f, p, p + RecLenAt(b, p));
  }

  /** A dead record is filled. */
  lemma Reuse(b: seq<byte>, b': seq<byte>, f: Format, size: nat, n: nat, p: nat, name: Name, ino: nat)
    requires Run(b, f, size, n, p, p) && p < PageEnd(size, n) && HeaderFits(b, p) && InodeAt(b, p) == 0
    requires 0 < ino <= f.maxIno && Fits(b, p, |name|) && FillOf(b, b', p, name, ino)
    ensures PageOk(b', f, size, n) && EditOfPage(b, b', size, n)
    ensures Entries(b', f, size) == Entries(b, f, size) + {Entry(p, name, ino)}
    ensures forall e :: e in Entries(b, f, size) ==> e.pos != p
  {
    hide InodeAt, RecLenAt, NameLenAt, ChunkBase, Live, DirRecLen;
    Splice(b, b, f, PageStart(n), p, p, PageEnd(size, n));
    RecordIsRun(b, f, size, n, p);
    FillChain(b, b', f, p, name, ino);
    RewriteRun(b, b', f, size, n, p, p + RecLenAt(b, p), {}, {Entry(p, name, ino)});
    forall e | e in Entries(b, f, size)
      ensures e.pos != p
    {
      if e.pos == p { EntriesOfRun(b, f, size, n, p, p + RecLenAt(b, p), e); }
    }
  }

  /** A live record is split; its own entry stays where it is. */
  lemma SplitOne(b: seq<byte>, b': seq<byte>, f: Format, size: nat, n: nat, p: nat, name: Name, ino: nat)
    requires Run(b, f, size, n, p, p) && p < PageEnd(size, n) && HeaderFits(b, p)
    requires InodeAt(b, p) != 0 && NameLenAt(b, p) >= 1
    requires 1 <= |name| && 0 < ino <= f.maxIno && Splittable(b, p, |name|) && SplitOf(b, b', p, name, ino)
    ensures PageOk(b', f, size, n) && EditOfPage(b, b', size, n)
    ensures Entries(b', f, size) == Entries(b, f, size) + {Entry(Rest(b, p), name, ino)}
    ensures forall e :: e in Entries(b, f, size) ==> e.pos != Rest(b, p)
  {
    hide InodeAt, RecLenAt, NameLenAt, ChunkBase, Live;
    Splice(b, b, f, PageStart(n), p, p, PageEnd(size, n));
    RecordIsRun(b, f, size, n, p);
    SplitChain(b, b', f, p, name, ino);
    var q, r := Rest(b, p), p + RecLenAt(b, p);
    assert {EntryAt(b, p), Entry(q, name, ino)} == {EntryAt(b, p)} - {} + {Entry(q, name, ino)};
    RewriteRun(b, b', f, size, n, p, r, {}, {Entry(q, name, ino)});
    forall e | e in Entries(b, f, size)
      ensures e.pos != q
    {
      if e.pos == q { EntriesOfRun(b, f, size, n, p, r, e); }
    }
  }

  /** The inode number of a live record is overwritten; zero removes the entry. */
  lemma Relink(b: seq<byte>, b': seq<byte>, f: Format, size: nat, n: nat, p: nat, ino: nat)
    requires Run(b, f, size, n, p, p) && p < PageEnd(size, n) && HeaderFits(b, p) && InodeAt(b, p) != 0
    requires ino <= f.maxIno && p + 8 + NameLenAt(b, p) <= |b| && RelinkOf(b, b', p, ino)
    ensures PageOk(b', f, size, n) && EditOfPage(b, b', size, n)
    ensures EntryAt(b, p) in Entries(b, f, size)
    ensures Entries(b', f, size)
            == Entries(b, f, size) - {EntryAt(b, p)} + (if ino != 0 then {EntryAt(b, p).(ino := ino)} else {})
  {
    hide InodeAt, RecLenAt, NameLenAt, ChunkBase, Live, DirRecLen, NameAt;
    Splice(b, b, f, PageStart(n), p, p, PageEnd(size, n));
    RecordIsRun(b, f, size, n, p);
    RelinkChain(b, b', f, p, ino);
    var r := p + RecLenAt(b, p);
    assert ChangedWithin(b, b', p, r);
    RewriteRun(b, b', f, size, n, p, r, {EntryAt(b, p)}, if ino != 0 then {EntryAt(b, p).(ino := ino)} else {});
    StartIsLive(b, f, PageStart(n), p, PageEnd(size, n));
    EntryInItsPage(b, f, size, n, EntryAt(b, p));
  }

  /** A live record is swallowed by its predecessor in the chunk. */
  lemma Swallow(b: seq<byte>, b': seq<byte>, f: Format, size: nat, n: nat, q: nat, p: nat)
    requires Run(b, f, size, n, q, p) && p < PageEnd(size, n) && HeaderFits(b, p) && InodeAt(b, p) != 0
    requires RecordOk(b, f, q) && q + RecLenAt(b, q) == p && ChunkBase(p, f.chunk) <= q
    requires p + 8 + NameLenAt(b, p) <= |b| && q + 8 + NameLenAt(b, q) <= p && MergeOf(b, b', q, p)
    ensures PageOk(b', f, size, n) && EditOfPage(b, b', size, n)
    ensures EntryAt(b, p) in Entries(b, f, size)
    ensures Entries(b', f, size) == Entries(b, f, size) - {EntryAt(b, p)}
  {
    hide InodeAt, RecLenAt, NameLenAt, ChunkBase, Live, DirRecLen, NameAt;
    ChainAppend(b, f, PageStart(n), q, p);
    ChainAppend(b, f, PageStart(n), p, PageEnd(size, n));
    RecordIsRun(b, f, size, n, p);
    MergeChain(b, b', f, q, p);
    var r := p + RecLenAt(b, p);
    OneRecord(b, f, q, p);
    ChainAppend(b, f, q, p, r);
    RewriteRun(b, b', f, size, n, q, r, {EntryAt(b, p)}, {});
    StartIsLive(b, f, PageStart(n), p, PageEnd(size, n));
    EntryInItsPage(b, f, size, n, EntryAt(b, p));
  }

  /** The chunk of a record start begins with a record start. */
  lemma ChunkOfStart(b: seq<byte>, f: Format, n: nat, p: nat)
    requires ChunkSize(f.chunk) && Chain(b, f, PageStart(n), p)
    ensures PageStart(n) <= ChunkBase(p, f.chunk)
    ensures Chain(b, f, PageStart(n), ChunkBase(p, f.chunk)) && Chain(b, f, ChunkBase(p, f.chunk), p)
  {
    hide ChunkBase, RecordOk;
    var from := ChunkBase(p, f.chunk);
    PageIsBoundary(n, f.chunk);
    SameChunk(p, from, f.chunk);
    if from < PageStart(n) { BoundaryAbove(from, PageStart(n), f.chunk); }
    BoundaryIsStart(b, f, PageStart(n), from, p);
    ChainCut(b, f, PageStart(n), from, p);
  }

  /** Bytes beyond the directory's size do not matter. */
  lemma BeyondEnd(b: seq<byte>, b': seq<byte>, f: Format, size: nat)
    requires SameBytes(b, b', 0, size)
    ensures Entries(b', f, size) == Entries(b, f, size)
    ensures forall n :: 0 <= n ==> (PageOk(b, f, size, n) <==> PageOk(b', f, size, n))
    ensures forall n :: 0 <= n ==> PageLive(b, f, size, n) == PageLive(b', f, size, n)
  {
    hide Chain, Live, ChunkBase;
    forall n | 0 <= n
      ensures PageOk(b, f, size, n) <==> PageOk(b', f, size, n)
      ensures PageLive(b, f, size, n) == PageLive(b', f, size, n)
    {
      PageFrame(b, b', f, size, size, n);
    }
  }
}
