/** A directory file as pages of records: which pages are acceptable and which entries they hold. */
module DirPages {
  import opened Bytes
  import opened DirImage
  import opened DirChain

  datatype Option<T> = None | Some(value: T)

  function PageStart(n: nat): nat { n * 4096 }

  /** `dir_pages`: how many pages the directory reaches into. */
  function NPages(size: nat): (n: nat)
    ensures forall m: nat :: m < n <==> PageStart(m) < size
    ensures size <= PageStart(n)
  {
    (size + 4095) / 4096
  }

  /** Where the directory's part of page `n` ends. */
  function PageEnd(size: nat, n: nat): nat
  {
    if size < PageStart(n + 1) then size else PageStart(n + 1)
  }

  /** Page `n` holds whole chunks, tiled by acceptable records. */
  ghost predicate PageOk(b: seq<byte>, f: Format, size: nat, n: nat)
  {
    && f.chunk > 0 && ChunkBase(PageEnd(size, n), f.chunk) == PageEnd(size, n)
    && Chain(b, f, PageStart(n), PageEnd(size, n))
  }

  ghost function PageLive(b: seq<byte>, f: Format, size: nat, n: nat): set<Entry>
  {
    if PageOk(b, f, size, n) then Live(b, f, PageStart(n), PageEnd(size, n)) else {}
  }

  /** The live entries of all acceptable pages. */
  ghost function Entries(b: seq<byte>, f: Format, size: nat): set<Entry>
  {
    set n, e | 0 <= n < size && e in PageLive(b, f, size, n) :: e
  }

  ghost predicate AllPagesOk(b: seq<byte>, f: Format, size: nat)
  {
    forall n :: 0 <= n && PageStart(n) < size ==> PageOk(b, f, size, n)
  }

  lemma EntryInItsPage(b: seq<byte>, f: Format, size: nat, n: nat, e: Entry)
    requires e in PageLive(b, f, size, n)
    ensures PageStart(n) <= e.pos < PageEnd(size, n) && e in Entries(b, f, size)
    ensures HeaderFits(b, e.pos) && e.pos + 8 + NameLenAt(b, e.pos) <= |b| && e == EntryAt(b, e.pos)
    ensures 0 < e.ino <= f.maxIno
  {
    LiveIsStart(b, f, PageStart(n), PageEnd(size, n), e);
  }

  lemma PageOfEntry(b: seq<byte>, f: Format, size: nat, e: Entry) returns (n: nat)
    requires e in Entries(b, f, size)
    ensures PageStart(n) <= e.pos < PageEnd(size, n) && PageOk(b, f, size, n) && e in PageLive(b, f, size, n)
    ensures HeaderFits(b, e.pos) && e.pos + 8 + NameLenAt(b, e.pos) <= |b| && e == EntryAt(b, e.pos)
    ensures 0 < e.ino <= f.maxIno
  {
    n :| 0 <= n < size && e in PageLive(b, f, size, n);
    EntryInItsPage(b, f, size, n, e);
  }

  /** An entry is determined by its position. */
  lemma EntryAtOnePlace(b: seq<byte>, f: Format, size: nat, e: Entry, e': Entry)
    requires e in Entries(b, f, size) && e' in Entries(b, f, size) && e.pos == e'.pos
    ensures e == e'
  {
    var n := PageOfEntry(b, f, size, e);
    var n' := PageOfEntry(b, f, size, e');
  }

  lemma {:induction false} BoundarySum(x: nat, y: nat, c: nat)
    requires c > 0 && ChunkBase(x, c) == x
    ensures ChunkBase(x + y, c) == x + ChunkBase(y, c)
    decreases x
  {
    if x >= c {
      BoundarySum(x - c, y, c);
    }
  }

  /** Bytes outside the page do not matter. */
  lemma PageFrame(b: seq<byte>, b': seq<byte>, f: Format, size: nat, size': nat, n: nat)
    requires PageEnd(size, n) == PageEnd(size', n)
    requires SameBytes(b, b', PageStart(n), PageEnd(size, n))
    ensures PageOk(b, f, size, n) <==> PageOk(b', f, size', n)
    ensures PageLive(b, f, size, n) == PageLive(b', f, size', n)
  {
    if Chain(b, f, PageStart(n), PageEnd(size, n)) {
      ChainFrame(b, b', f, PageStart(n), PageEnd(size, n));
    } else if Chain(b', f, PageStart(n), PageEnd(size, n)) {
      ChainFrame(b', b, f, PageStart(n), PageEnd(size, n));
    }
  }

  // ----- One page is edited

  /** `b'` differs from `b` only inside the part of page `n` that belongs to the directory. */
  ghost predicate EditOfPage(b: seq<byte>, b': seq<byte>, size: nat, n: nat)
  {
    size <= |b| && ChangedWithin(b, b', PageStart(n), PageEnd(size, n))
  }

  lemma OtherPages(b: seq<byte>, b': seq<byte>, f: Format, size: nat, n: nat, m: nat)
    requires EditOfPage(b, b', size, n) && m != n
    ensures PageOk(b, f, size, m) <==> PageOk(b', f, size, m)
    ensures PageLive(b, f, size, m) == PageLive(b', f, size, m)
  {
    PageFrame(b, b', f, size, size, m);
  }

  lemma EditEntries(b: seq<byte>, b': seq<byte>, f: Format, size: nat, n: nat, gone: set<Entry>, came: set<Entry>)
    requires EditOfPage(b, b', size, n) && gone <= PageLive(b, f, size, n)
    requires PageLive(b', f, size, n) == PageLive(b, f, size, n) - gone + came
    ensures Entries(b', f, size) == Entries(b, f, size) - gone + came
  {
    hide Chain, Live, ChunkBase;
    forall e | e in Entries(b', f, size)
      ensures e in Entries(b, f, size) - gone + came
    {
      var m := PageOfEntry(b', f, size, e);
      if m != n {
        OtherPages(b, b', f, size, n, m);
        if e in gone { EntryInItsPage(b, f, size, n, e); }
      }
    }
    forall e | e in Entries(b, f, size) - gone + came
      ensures e in Entries(b', f, size)
    {
      if e in came {
        EntryInItsPage(b', f, size, n, e);
      } else {
        var m := PageOfEntry(b, f, size, e);
        if m != n { OtherPages(b, b', f, size, n, m); }
        assert e in PageLive(b', f, size, m);
      }
    }
  }

  lemma EditKeepsPages(b: seq<byte>, b': seq<byte>, f: Format, size: nat, n: nat)
    requires EditOfPage(b, b', size, n) && PageOk(b, f, size, n) && PageOk(b', f, size, n)
    ensures forall m: nat :: PageOk(b', f, size, m) <==> PageOk(b, f, size, m)
  {
    hide PageOk;
    forall m: nat | m != n
      ensures PageOk(b', f, size, m) <==> PageOk(b, f, size, m)
    {
      OtherPages(b, b', f, size, n, m);
    }
  }

  // ----- The directory grows by one chunk

  ghost predicate GrowthOf(b: seq<byte>, b': seq<byte>, f: Format, size: nat, n: nat, e: Entry)
  {
    && ChunkSize(f.chunk) && PageStart(n) <= size < PageStart(n + 1) && PageOk(b, f, size, n)
    && size + f.chunk <= |b| && ChangedWithin(b, b', size, size + f.chunk)
    && Chain(b', f, size, size + f.chunk) && Live(b', f, size, size + f.chunk) == {e}
  }

  /** A new chunk fits in the page that holds the end of the directory. */
  lemma ChunkFits(size: nat, c: nat, n: nat)
    requires ChunkSize(c) && ChunkBase(size, c) == size && PageStart(n) <= size < PageStart(n + 1)
    ensures size + c <= PageStart(n + 1)
    ensures ChunkBase(size + c, c) == size + c
  {
    PageIsBoundary(n + 1, c);
    BoundaryAbove(size, PageStart(n + 1), c);
    NextBoundary(size, c);
  }

  lemma GrowPage(b: seq<byte>, b': seq<byte>, f: Format, size: nat, n: nat, e: Entry)
    requires GrowthOf(b, b', f, size, n, e)
    ensures PageOk(b', f, size + f.chunk, n)
    ensures PageLive(b', f, size + f.chunk, n) == PageLive(b, f, size, n) + {e}
  {
    hide Chain, Live, ChunkBase;
    ChunkFits(size, f.chunk, n);
    ChainFrame(b, b', f, PageStart(n), size);
    ChainAppend(b', f, PageStart(n), size, size + f.chunk);
  }

  lemma GrowOtherPage(b: seq<byte>, b': seq<byte>, f: Format, size: nat, n: nat, e: Entry, m: nat)
    requires GrowthOf(b, b', f, size, n, e) && m < n
    ensures PageOk(b, f, size, m) <==> PageOk(b', f, size + f.chunk, m)
    ensures PageLive(b, f, size, m) == PageLive(b', f, size + f.chunk, m)
  {
    PageFrame(b, b', f, size, size + f.chunk, m);
  }

  lemma GrownHasOnly(b: seq<byte>, b': seq<byte>, f: Format, size: nat, n: nat, e: Entry, x: Entry)
    requires GrowthOf(b, b', f, size, n, e) && x in Entries(b', f, size + f.chunk)
    ensures x == e || x in Entries(b, f, size)
  {
    hide Chain, Live, ChunkBase;
    var m := PageOfEntry(b', f, size + f.chunk, x);
    ChunkFits(size, f.chunk, n);
    if m < n {
      GrowOtherPage(b, b', f, size, n, e, m);
      EntryInItsPage(b, f, size, m, x);
    } else if x != e {
      GrowPage(b, b', f, size, n, e);
      EntryInItsPage(b, f, size, n, x);
    }
  }

  lemma GrownHas(b: seq<byte>, b': seq<byte>, f: Format, size: nat, n: nat, e: Entry, x: Entry)
    requires GrowthOf(b, b', f, size, n, e) && x in Entries(b, f, size)
    ensures x in Entries(b', f, size + f.chunk)
  {
    hide Chain, Live, ChunkBase;
    var m := PageOfEntry(b, f, size, x);
    if m < n {
      GrowOtherPage(b, b', f, size, n, e, m);
    } else {
      GrowPage(b, b', f, size, n, e);
    }
    EntryInItsPage(b', f, size + f.chunk, m, x);
  }

  lemma GrowEntries(b: seq<byte>, b': seq<byte>, f: Format, size: nat, n: nat, e: Entry)
    requires GrowthOf(b, b', f, size, n, e)
    ensures Entries(b', f, size + f.chunk) == Entries(b, f, size) + {e}
  {
    forall x | x in Entries(b', f, size + f.chunk)
      ensures x in Entries(b, f, size) + {e}
    {
      GrownHasOnly(b, b', f, size, n, e, x);
    }
    forall x | x in Entries(b, f, size)
      ensures x in Entries(b', f, size + f.chunk)
    {
      GrownHas(b, b', f, size, n, e, x);
    }
    GrowPage(b, b', f, size, n, e);
    EntryInItsPage(b', f, size + f.chunk, n, e);
  }

  lemma GrowKeepsPages(b: seq<byte>, b': seq<byte>, f: Format, size: nat, n: nat, e: Entry)
    requires GrowthOf(b, b', f, size, n, e)
    ensures forall m: nat :: PageStart(m) <= size ==> (PageOk(b', f, size + f.chunk, m) <==> PageOk(b, f, size, m))
    ensures AllPagesOk(b', f, size + f.chunk) <==> AllPagesOk(b, f, size)
  {
    hide Chain, Live, ChunkBase;
    GrowPage(b, b', f, size, n, e);
    ChunkFits(size, f.chunk, n);
    forall m: nat | PageStart(m) <= size
      ensures PageOk(b', f, size + f.chunk, m) <==> PageOk(b, f, size, m)
    {
      if m < n { GrowOtherPage(b, b', f, size, n, e, m); }
    }
    SamePagesOk(b, b', f, size, size + f.chunk, n);
  }

  lemma SamePagesOk(b: seq<byte>, b': seq<byte>, f: Format, size: nat, size': nat, n: nat)
    requires PageStart(n) <= size <= size' <= PageStart(n + 1) && PageOk(b, f, size, n) && PageOk(b', f, size', n)
    requires forall m: nat :: PageStart(m) <= size ==> (PageOk(b', f, size', m) <==> PageOk(b, f, size, m))
    ensures AllPagesOk(b', f, size') <==> AllPagesOk(b, f, size)
  {
    hide PageOk;
  }
}
