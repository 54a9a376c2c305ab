/** `ext2_readdir`: an enumeration split over any number of calls, with the directory changing in between. */
module ReadDir {
  import opened Bytes
  import opened DirImage
  import opened DirChain
  import opened DirPages
  import opened DirWalk
  import opened DirEdits
  import opened Directories
  import opened DirRuns

  /** `pos` is a record start, or the end, of whichever acceptable pages it touches. */
  ghost predicate AtRecord(b: seq<byte>, f: Format, size: nat, pos: nat)
  {
    forall n: nat :: PageStart(n) <= pos <= PageEnd(size, n) && PageOk(b, f, size, n) ==> Chain(b, f, PageStart(n), pos)
  }

  lemma PageBoundaryAtRecord(b: seq<byte>, f: Format, size: nat, k: nat)
    ensures AtRecord(b, f, size, PageStart(k))
  {
    hide ChunkBase;
    forall n: nat | PageStart(n) <= PageStart(k) <= PageEnd(size, n) && PageOk(b, f, size, n)
      ensures Chain(b, f, PageStart(n), PageStart(k))
    {
      if n == k { LiveNothing(b, f, PageStart(k)); }
    }
  }

  lemma PageFits(b: seq<byte>, f: Format, size: nat, n: nat)
    ensures PageOk(b, f, size, n) ==> PageStart(n) <= PageEnd(size, n) <= |b|
  {
  }

  lemma ChainBounds(b: seq<byte>, f: Format, lo: nat, hi: nat)
    requires Chain(b, f, lo, hi)
    ensures lo <= hi <= |b|
  {
  }

  lemma StartAtRecord(b: seq<byte>, f: Format, size: nat, n: nat, pos: nat)
    requires Chain(b, f, PageStart(n), pos) && pos <= PageEnd(size, n)
    ensures AtRecord(b, f, size, pos)
  {
    hide ChunkBase, Chain;
    forall m: nat | PageStart(m) <= pos <= PageEnd(size, m) && PageOk(b, f, size, m)
      ensures Chain(b, f, PageStart(m), pos)
    {
      if pos == PageStart(m) {
        PageFits(b, f, size, m);
        LiveNothing(b, f, pos);
      } else if m < n {
        assert PageStart(n) <= pos by { ChainBounds(b, f, PageStart(n), pos); }
        assert pos == PageEnd(size, m);
      } else {
        assert m == n;
      }
    }
  }

  lemma AtRecordFrame(b: seq<byte>, b': seq<byte>, f: Format, size: nat, pos: nat)
    requires SameBytes(b, b', 0, size) && AtRecord(b, f, size, pos)
    ensures AtRecord(b', f, size, pos)
  {
    hide ChunkBase, Chain;
    BeyondEnd(b, b', f, size);
    forall n: nat | PageStart(n) <= pos <= PageEnd(size, n) && PageOk(b', f, size, n)
      ensures Chain(b', f, PageStart(n), pos)
    {
      assert PageOk(b, f, size, n);
      ChainFrame(b, b', f, PageStart(n), pos);
    }
  }

  /** The entries at positions in `[lo, hi)`. */
  ghost function Window(s: set<Entry>, lo: nat, hi: nat): set<Entry>
  {
    set e | e in s && lo <= e.pos < hi
  }

  /** What has been emitted, followed by a run of page `n`. */
  lemma WindowExtends(b: seq<byte>, f: Format, size: nat, n: nat, p0: nat, p: nat, r: nat, out: seq<Entry>,
                      more: seq<Entry>)
    requires p0 <= p && Run(b, f, size, n, p, r)
    requires Lists(out, Window(Entries(b, f, size), p0, p)) && Lists(more, Live(b, f, p, r))
    ensures p <= r && Lists(out + more, Window(Entries(b, f, size), p0, r))
  {
    hide ChunkBase, Chain, Live, PageOk, Entries;
    RunBounds(b, f, PageStart(n), p, r, PageEnd(size, n));
    LiveAtOnePlace(b, f, p, r);
    forall e | e in out + more
      ensures e in Window(Entries(b, f, size), p0, r)
    {
      if e in more { RunInEntries(b, f, size, n, p, r, e); }
    }
    forall e | e in Window(Entries(b, f, size), p0, r)
      ensures e in out + more
    {
      if e.pos < p {
        assert e in Window(Entries(b, f, size), p0, p);
      } else {
        EntriesOfRun(b, f, size, n, p, r, e);
      }
    }
    OrderedAppend(out, more, p);
  }

  lemma OrderedAppend(out: seq<Entry>, more: seq<Entry>, p: nat)
    requires Ordered(out) && Ordered(more)
    requires (forall e :: e in out ==> e.pos < p) && (forall e :: e in more ==> p <= e.pos)
    ensures Ordered(out + more)
  {
    forall i, j | 0 <= i < j < |out + more|
      ensures (out + more)[i].pos < (out + more)[j].pos
    {
      assert i < |out| ==> (out + more)[i] in out;
      assert j >= |out| ==> (out + more)[j] in more;
    }
  }

  lemma RunInEntries(b: seq<byte>, f: Format, size: nat, n: nat, p: nat, r: nat, e: Entry)
    requires Run(b, f, size, n, p, r) && e in Live(b, f, p, r)
    ensures e in Entries(b, f, size)
  {
    hide ChunkBase, Chain, Live, Entries;
    Splice(b, b, f, PageStart(n), p, r, PageEnd(size, n));
    EntryInItsPage(b, f, size, n, e);
  }

  /** Positions without entries can be skipped. */
  lemma WindowSkips(s: set<Entry>, p0: nat, p: nat, r: nat)
    requires p <= r && forall e :: e in s && p <= e.pos ==> r <= e.pos
    ensures Window(s, p0, r) == Window(s, p0, p)
  {
  }

  /** A page that fails the check has no entries. */
  lemma BadPageSkipped(b: seq<byte>, f: Format, size: nat, n: nat, pos: nat)
    requires !PageOk(b, f, size, n) && PageStart(n) <= pos
    ensures forall e :: e in Entries(b, f, size) && pos <= e.pos ==> PageStart(n + 1) <= e.pos
  {
    hide ChunkBase, Chain, Live, PageOk, Entries;
    forall e | e in Entries(b, f, size) && pos <= e.pos
      ensures PageStart(n + 1) <= e.pos
    {
      var m := PageOfEntry(b, f, size, e);
    }
  }

  /** The saved position moves to a record start and passes no entry. */
  lemma Revalidated(b: seq<byte>, f: Format, size: nat, n: nat, o: nat, p: nat)
    requires PageOk(b, f, size, n) && PageStart(n) <= o <= p
    requires forall e :: e in Live(b, f, PageStart(n), PageEnd(size, n)) && o <= e.pos ==> p <= e.pos
    requires p <= PageEnd(size, n)
    ensures forall e :: e in Entries(b, f, size) && o <= e.pos ==> p <= e.pos
  {
    hide ChunkBase, Chain, Live, PageOk, Entries;
    forall e | e in Entries(b, f, size) && o <= e.pos
      ensures p <= e.pos
    {
      var m := PageOfEntry(b, f, size, e);
      if m == n { assert e in Live(b, f, PageStart(n), PageEnd(size, n)); }
    }
  }

  lemma PageEndsAreBoundaries(b: seq<byte>, f: Format, size: nat, n: nat)
    requires FormatOk(f) && PageOk(b, f, size, n)
    ensures ChunkBase(PageStart(n), f.chunk) == PageStart(n) && ChunkBase(PageEnd(size, n), f.chunk) == PageEnd(size, n)
    ensures Chain(b, f, PageStart(n), PageEnd(size, n))
  {
    hide ChunkBase;
    PageIsBoundary(n, f.chunk);
  }

  /** An open directory: `ctx->pos` and `file->f_version`. */
  class OpenDir {
    const dir: Directory
    var pos: nat
    var fversion: nat

    /** While no change has been committed since the version was noted, the position is a record boundary. */
    ghost predicate Valid()
      reads this, dir
    {
      && dir.Valid() && fversion <= dir.version
      && (fversion == dir.version ==> AtRecord(dir.data, dir.f, dir.size, pos))
    }

    constructor (d: Directory)
      requires d.Valid()
      ensures dir == d && Valid() && pos == 0
    {
      dir, pos, fversion := d, 0, 0;
      new;
      PageBoundaryAtRecord(d.data, d.f, d.size, 0);
    }

    /** Reading page `n` from `pos` on, once the page has been accepted (dir.c:221-249). */
    method ReadPage(n: nat, revalidate: bool, budget: nat, ghost p0: nat, ghost sofar: seq<Entry>)
      returns (out: seq<Entry>, refused: bool)
      requires dir.Valid() && dir.Good(n) && PageStart(n) <= pos < PageEnd(dir.size, n) && fversion <= dir.version
      requires !revalidate ==> Chain(dir.data, dir.f, PageStart(n), pos)
      requires p0 <= pos && Lists(sofar, Window(dir.Ents(), p0, pos))
      modifies this
      ensures old(pos) <= pos <= PageEnd(dir.size, n) && Chain(dir.data, dir.f, PageStart(n), pos)
      ensures fversion == if revalidate then dir.version else old(fversion)
      ensures Lists(sofar + out, Window(dir.Ents(), p0, pos)) && |out| <= budget
      ensures refused ==> |out| == budget
      ensures !refused ==> pos == PageEnd(dir.size, n)
    {
      hide ChunkBase, Chain, Live, PageOk, Entries, Lists;
      var lo, hi := PageStart(n), PageEnd(dir.size, n);
      PageEndsAreBoundaries(dir.data, dir.f, dir.size, n);
      if revalidate {
        if pos != lo {
          var p := ValidateEntry(dir.data, dir.f, lo, pos, hi);
          Revalidated(dir.data, dir.f, dir.size, n, pos, p);
          WindowSkips(dir.Ents(), p0, pos, p);
          pos := p;
        } else {
          LiveNothing(dir.data, dir.f, lo);
        }
        fversion := dir.version;
      }
      ChainCut(dir.data, dir.f, lo, pos, hi);
      var stop;
      out, stop, refused := EmitPage(dir.data, dir.f, pos, hi, budget);
      WindowExtends(dir.data, dir.f, dir.size, n, p0, pos, stop, sofar, out);
      ChainAppend(dir.data, dir.f, lo, pos, stop);
      pos := stop;
    }

    /** A page that fails the check is skipped (dir.c:216-220). */
    method SkipPage(n: nat, ghost p0: nat, ghost sofar: seq<Entry>)
      requires dir.Valid() && !dir.Good(n) && PageStart(n) <= pos < PageEnd(dir.size, n)
      requires p0 <= pos && Lists(sofar, Window(dir.Ents(), p0, pos))
      modifies this`pos
      ensures pos == PageStart(n + 1) && AtRecord(dir.data, dir.f, dir.size, pos) && !dir.Sound()
      ensures p0 <= pos && Lists(sofar, Window(dir.Ents(), p0, pos))
    {
      hide ChunkBase, Chain, Live, PageOk, Entries, Lists, AtRecord;
      BadPageSkipped(dir.data, dir.f, dir.size, n, pos);
      WindowSkips(dir.Ents(), p0, pos, PageStart(n + 1));
      PageBoundaryAtRecord(dir.data, dir.f, dir.size, n + 1);
      BadPageIsInside(dir.data, dir.f, dir.size, n);
      RestOfPage(n, pos);
      pos := pos + (4096 - pos % 4096);
    }

    /** One round of the loop of `ext2_readdir`. */
    method ReadOne(n: nat, revalidate: bool, budget: nat, ghost p0: nat, ghost sofar: seq<Entry>)
      returns (out: seq<Entry>, refused: bool, failed: bool)
      requires Valid() && (revalidate <==> fversion != dir.version) && PageStart(n) <= pos < PageEnd(dir.size, n)
      requires p0 <= pos && Lists(sofar, Window(dir.Ents(), p0, pos))
      modifies this, dir`data, dir`checked, dir`failed
      ensures Valid() && dir.Ents() == old(dir.Ents()) && dir.Sound() == old(dir.Sound())
      ensures old(pos) <= pos && Lists(sofar + out, Window(dir.Ents(), p0, pos)) && |out| <= budget
      ensures failed ==> !dir.Sound()
      ensures !failed ==> fversion == dir.version && (refused ==> |out| == budget)
      ensures !failed && !refused ==> pos == PageEnd(dir.size, n)
    {
      hide ChunkBase, Chain, Live, PageOk, Entries, Lists, AtRecord, Window;
      out, refused, failed := [], false, false;
      assert sofar + [] == sofar;
      var ok := dir.GetPage(n);
      if !revalidate { AtRecordFrame(old(dir.data), dir.data, dir.f, dir.size, pos); }
      if !ok {
        SkipPage(n, p0, sofar);
        return [], false, true;
      }
      if !revalidate { AtRecordIsStart(dir.data, dir.f, dir.size, n, pos); }
      out, refused := ReadPage(n, revalidate, budget, p0, sofar);
      StartAtRecord(dir.data, dir.f, dir.size, n, pos);
    }

    /** `ext2_readdir` (dir.c:197-253).  `budget` is how many entries `dir_emit` takes before it refuses.  The call
        emits, in order, exactly the live entries between the old and the new position, and unless it was refused
        or met a bad page there are no more. */
    method Read(budget: nat) returns (out: seq<Entry>, failed: bool)
      requires Valid()
      modifies this, dir`data, dir`checked, dir`failed
      ensures Valid() && dir.Ents() == old(dir.Ents()) && dir.Sound() == old(dir.Sound())
      ensures old(pos) <= pos && Lists(out, Window(dir.Ents(), old(pos), pos)) && |out| <= budget
      ensures failed ==> !dir.Sound()
      ensures !failed && |out| < budget ==> forall e :: e in dir.Ents() ==> e.pos < pos
    {
      hide ChunkBase, Chain, Live, PageOk, Entries, Lists, NPages, AtRecord, PageEnd, Window, DirRecLen;
      out, failed := [], false;
      assert Lists(out, Window(dir.Ents(), old(pos), pos)) by { NothingYet(dir.Ents(), pos); }
      if pos + DirRecLen(1) > dir.size {
        EntriesFit(dir.data, dir.f, dir.size);
        return;
      }
      var n, npages := pos / 4096, NPages(dir.size);
      FirstPage(dir.size, pos);
      var revalidate := fversion != dir.version;
      while n < npages
        invariant Valid() && dir.Ents() == old(dir.Ents()) && dir.Sound() == old(dir.Sound())
        invariant revalidate <==> fversion != dir.version
        invariant n < npages ==> PageStart(n) <= pos < PageEnd(dir.size, n)
        invariant n >= npages ==> pos >= dir.size
        invariant old(pos) <= pos && Lists(out, Window(dir.Ents(), old(pos), pos)) && |out| <= budget
      {
        var more, refused, bad := ReadOne(n, revalidate, budget - |out|, old(pos), out);
        revalidate := false;
        out := out + more;
        if bad { return out, true; }
        if refused { return; }
        NextPage(dir.size, n);
        n := n + 1;
      }
      EntriesFit(dir.data, dir.f, dir.size);
    }
  }

  /** What is emitted: strictly in the order of position, every entry from one position up to the other, and no other.
      */
  lemma ListingMeans(out: seq<Entry>, s: set<Entry>, lo: nat, hi: nat)
    ensures Lists(out, Window(s, lo, hi)) <==>
              && (forall i, j :: 0 <= i < j < |out| ==> out[i].pos < out[j].pos)
              && forall e :: e in out <==> e in s && lo <= e.pos < hi
  {
  }

  lemma RestOfPage(n: nat, pos: nat)
    requires PageStart(n) <= pos < PageStart(n + 1)
    ensures pos + (4096 - pos % 4096) == PageStart(n + 1)
  {
  }

  lemma FirstPage(size: nat, pos: nat)
    requires pos < size
    ensures pos / 4096 < NPages(size) && PageStart(pos / 4096) <= pos < PageEnd(size, pos / 4096)
  {
  }

  lemma NothingYet(s: set<Entry>, p: nat)
    ensures Lists([], Window(s, p, p))
  {
  }

  lemma AtRecordIsStart(b: seq<byte>, f: Format, size: nat, n: nat, pos: nat)
    requires AtRecord(b, f, size, pos) && PageOk(b, f, size, n) && PageStart(n) <= pos <= PageEnd(size, n)
    ensures Chain(b, f, PageStart(n), pos)
  {
  }

  lemma NextPage(size: nat, n: nat)
    requires n < NPages(size)
    ensures n + 1 < NPages(size) ==> PageEnd(size, n) == PageStart(n + 1) < PageEnd(size, n + 1)
    ensures n + 1 >= NPages(size) ==> PageEnd(size, n) == size
  {
  }

  /** Every entry leaves room for a header and a one-byte name before the end. */
  lemma EntriesFit(b: seq<byte>, f: Format, size: nat)
    ensures forall e :: e in Entries(b, f, size) ==> e.pos + DirRecLen(1) <= size
  {
    hide ChunkBase, PageOk, Entries;
    forall e | e in Entries(b, f, size)
      ensures e.pos + DirRecLen(1) <= size
    {
      var n := PageOfEntry(b, f, size, e);
      LiveIsStart(b, f, PageStart(n), PageEnd(size, n), e);
      ChainHead(b, f, e.pos, PageEnd(size, n));
    }
  }

  // ----- Whole enumerations

  /** What happens between opening and closing the directory: other users' operations, and calls of readdir. */
  datatype Step = Edit(op: Op) | Call(budget: nat)

  predicate Untouched(steps: seq<Step>, name: Name)
  {
    forall s :: s in steps && s.Edit? ==> s.op.name != name
  }

  /** `e` has been emitted once if the position has passed it, and otherwise not at all; nothing else was emitted
      from its place. */
  ghost predicate EmittedOnce(emitted: seq<Entry>, e: Entry, pos: nat)
  {
    && multiset(emitted)[e] == (if e.pos < pos then 1 else 0)
    && forall x :: x in emitted && x.pos == e.pos ==> x == e
  }

  lemma CountInListing(out: seq<Entry>, e: Entry)
    requires Ordered(out)
    ensures multiset(out)[e] == if e in out then 1 else 0
  {
    if |out| > 0 {
      var init, last := out[..|out| - 1], out[|out| - 1];
      assert out == init + [last];
      CountInListing(init, e);
      assert forall x :: x in init ==> x.pos < last.pos;
    }
  }

  lemma EmittedMore(emitted: seq<Entry>, out: seq<Entry>, s: set<Entry>, e: Entry, pos: nat, pos': nat)
    requires EmittedOnce(emitted, e, pos) && e in s && pos <= pos' && Lists(out, Window(s, pos, pos'))
    requires forall x, y :: x in s && y in s && x.pos == y.pos ==> x == y
    ensures EmittedOnce(emitted + out, e, pos')
  {
    CountInListing(out, e);
    assert e in out <==> pos <= e.pos < pos';
    forall x | x in emitted + out && x.pos == e.pos
      ensures x == e
    {
      if x in out { assert x in Window(s, pos, pos'); }
    }
  }

  lemma OnePlaceEach(b: seq<byte>, f: Format, size: nat)
    ensures forall x, y :: x in Entries(b, f, size) && y in Entries(b, f, size) && x.pos == y.pos ==> x == y
  {
    hide Entries;
    forall x, y | x in Entries(b, f, size) && y in Entries(b, f, size) && x.pos == y.pos
      ensures x == y
    {
      EntryAtOnePlace(b, f, size, x, y);
    }
  }

  /** An enumeration split over any number of calls, with additions, removals and replacements of other names in
      between, emits every entry that stays live exactly once: at most once at any time, and once as soon as some
      call comes back with fewer entries than it had room for. */
  method Enumerate(d: Directory, steps: seq<Step>) returns (emitted: seq<Entry>, complete: bool, file: OpenDir)
    requires Healthy(d) && forall s :: s in steps && s.Edit? ==> OpOk(s.op, d.f.maxIno)
    modifies d
    ensures fresh(file) && Healthy(d)
    ensures forall e :: e in old(d.Ents()) && (forall s :: s in steps && s.Edit? ==> s.op.name != e.name) ==>
              && e in d.Ents() && multiset(emitted)[e] == (if e.pos < file.pos then 1 else 0)
              && (forall x :: x in emitted && x.pos == e.pos ==> x == e)
              && (complete ==> multiset(emitted)[e] == 1)
  {
    hide Entries, PageOk, AtRecord, EmittedOnce, Untouched, Lists, NamesUnique, AllPagesOk, OpOk;
    file := new OpenDir(d);
    emitted, complete := [], false;
    forall e | e in d.Ents() ensures EmittedOnce(emitted, e, file.pos) { NoneEmitted(e); }
    for i := 0 to |steps|
      invariant file.dir == d && fresh(file) && Healthy(d) && file.Valid()
      invariant forall e :: e in old(d.Ents()) && Untouched(steps, e.name) ==>
                              e in d.Ents() && EmittedOnce(emitted, e, file.pos) && (complete ==> e.pos < file.pos)
    {
      match steps[i]
      case Edit(op) =>
        StepTouches(steps, i);
        ghost var bytes := d.data;
        Perform(d, op);
        if file.fversion == d.version { AtRecordFrame(bytes, d.data, d.f, d.size, file.pos); }
      case Call(budget) =>
        ghost var p0, s := file.pos, d.Ents();
        OnePlaceEach(d.data, d.f, d.size);
        var out, failed := file.Read(budget);
        ghost var before := emitted;
        emitted := emitted + out;
        complete := complete || |out| < budget;
        forall e | e in s && EmittedOnce(before, e, p0)
          ensures EmittedOnce(emitted, e, file.pos)
        {
          EmittedMore(before, out, s, e, p0, file.pos);
        }
    }
    forall e | e in old(d.Ents()) && (forall s :: s in steps && s.Edit? ==> s.op.name != e.name)
      ensures Untouched(steps, e.name)
      ensures EmittedOnce(emitted, e, file.pos) ==>
                && multiset(emitted)[e] == (if e.pos < file.pos then 1 else 0)
                && forall x :: x in emitted && x.pos == e.pos ==> x == e
    {
      OnceMeans(steps, emitted, e, file.pos);
    }
  }

  lemma OnceMeans(steps: seq<Step>, emitted: seq<Entry>, e: Entry, pos: nat)
    ensures (forall s :: s in steps && s.Edit? ==> s.op.name != e.name) ==> Untouched(steps, e.name)
    ensures EmittedOnce(emitted, e, pos) ==>
              && multiset(emitted)[e] == (if e.pos < pos then 1 else 0)
              && forall x :: x in emitted && x.pos == e.pos ==> x == e
  {
  }

  lemma NoneEmitted(e: Entry)
    ensures EmittedOnce([], e, 0)
  {
  }

  lemma StepTouches(steps: seq<Step>, i: nat)
    requires i < |steps| && steps[i].Edit?
    ensures forall name :: Untouched(steps, name) ==> steps[i].op.name != name
  {
    assert steps[i] in steps;
  }
}
