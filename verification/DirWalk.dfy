/** The loops of dir.c that walk one page of records. */
module DirWalk {
  import opened Bytes
  import opened DirImage
  import opened DirChain
  import opened DirPages

  // ----- ext2_check_page

  /** A chain reaches past every record on it, and only through acceptable records. */
  lemma BadRecordBreaksChain(b: seq<byte>, f: Format, lo: nat, p: nat, hi: nat)
    requires Chain(b, f, lo, p) && p < hi
    requires !RecordOk(b, f, p) || p + RecLenAt(b, p) > hi
    ensures !Chain(b, f, lo, hi)
  {
    hide InodeAt, RecLenAt, NameLenAt, RecordOk;
    if Chain(b, f, lo, hi) {
      ChainCut(b, f, lo, p, hi);
      ChainHead(b, f, p, hi);
    }
  }

  /** The mask test of dir.c:98 says that the record ends in the chunk it starts in. */
  lemma SpanTest(o: nat, len: nat, c: nat)
    requires c > 0 && len > 0
    ensures ChunkBase(o + len - 1, c) == ChunkBase(o, c) <==> o + len <= ChunkBase(o, c) + c
  {
    if o + len <= ChunkBase(o, c) + c {
      SameChunk(o, o + len - 1, c);
    }
  }

  lemma LimitIsPageEnd(size: nat, n: nat)
    requires PageStart(n) <= size
    ensures PageEnd(size, n) == PageStart(n) + (if size / 4096 == n then size % 4096 else 4096)
  {
  }

  /** dir.c:69-147: accepts exactly the pages that are tiled by acceptable records. */
  method CheckPage(b: seq<byte>, f: Format, size: nat, n: nat) returns (ok: bool)
    requires FormatOk(f) && PageStart(n) <= size && PageStart(n + 1) <= |b|
    ensures ok <==> PageOk(b, f, size, n)
  {
    hide InodeAt, RecLenAt, NameLenAt, DirRecLen, ChunkBase;
    var limit, base := 4096, PageStart(n);
    LimitIsPageEnd(size, n);
    PageIsBoundary(n, f.chunk);
    BoundarySum(base, if size / 4096 == n then size % 4096 else 4096, f.chunk);
    if size / 4096 == n {
      limit := size % 4096;
      if ChunkBase(limit, f.chunk) != limit { return false; }
      if limit == 0 { return true; }
    } else {
      PageIsBoundary(n + 1, f.chunk);
    }
    var hi := base + limit;
    assert hi == PageEnd(size, n) && ChunkBase(hi, f.chunk) == hi;
    var offs := base;
    while offs + DirRecLen(1) <= hi
      invariant base <= offs <= hi && Chain(b, f, base, offs)
      decreases hi - offs
    {
      var recLen := RecLenAt(b, offs);
      if recLen < DirRecLen(1)
      || recLen % 4 != 0
      || recLen < DirRecLen(NameLenAt(b, offs))
      || ChunkBase(offs + recLen - 1, f.chunk) != ChunkBase(offs, f.chunk)
      || InodeAt(b, offs) > f.maxIno
      {
        if recLen > 0 { SpanTest(offs, recLen, f.chunk); }
        BadRecordBreaksChain(b, f, base, offs, hi);
        return false;
      }
      SpanTest(offs, recLen, f.chunk);
      BoundaryAbove(offs, hi, f.chunk);
      Step(b, f, base, offs);
      offs := offs + recLen;
    }
    if offs != hi {
      BadRecordBreaksChain(b, f, base, offs, hi);
      return false;
    }
    return true;
  }

  /** One more record on the chain walked so far. */
  lemma Step(b: seq<byte>, f: Format, lo: nat, p: nat)
    requires Chain(b, f, lo, p) && RecordOk(b, f, p) && p + RecLenAt(b, p) <= |b|
    ensures Chain(b, f, lo, p + RecLenAt(b, p)) && p + 8 + NameLenAt(b, p) <= |b|
    ensures Live(b, f, lo, p + RecLenAt(b, p))
            == Live(b, f, lo, p) + (if InodeAt(b, p) != 0 then {EntryAt(b, p)} else {})
  {
    hide InodeAt, RecLenAt, NameLenAt;
    OneRecord(b, f, p, p + RecLenAt(b, p));
    ChainAppend(b, f, lo, p, p + RecLenAt(b, p));
  }

  /** The walk from an interior record start: the record is acceptable and the next one is a start too. */
  lemma StepInside(b: seq<byte>, f: Format, lo: nat, p: nat, hi: nat)
    requires Chain(b, f, lo, p) && Chain(b, f, p, hi) && p < hi
    ensures RecordOk(b, f, p) && p + 8 + NameLenAt(b, p) <= hi
    ensures var next := p + RecLenAt(b, p);
            && next <= hi && Chain(b, f, lo, next) && Chain(b, f, next, hi)
            && Live(b, f, lo, next) == Live(b, f, lo, p) + (if InodeAt(b, p) != 0 then {EntryAt(b, p)} else {})
            && Live(b, f, p, hi) == (if InodeAt(b, p) != 0 then {EntryAt(b, p)} else {}) + Live(b, f, next, hi)
  {
    hide InodeAt, RecLenAt, NameLenAt;
    ChainHead(b, f, p, hi);
    Step(b, f, lo, p);
  }

  // ----- ext2_find_entry, one page

  /** `ext2_match`. */
  predicate Match(b: seq<byte>, o: nat, name: Name)
    requires HeaderFits(b, o) && o + 8 + NameLenAt(b, o) <= |b|
  {
    |name| == NameLenAt(b, o) && InodeAt(b, o) != 0 && NameAt(b, o) == name
  }

  ghost predicate NoneNamed(s: set<Entry>, name: Name) { forall e :: e in s ==> e.name != name }

  /** The early stop of dir.c:296-297 misses nothing: a record for `name` is at least `DirRecLen(|name|)` long. */
  lemma EarlyStop(b: seq<byte>, f: Format, lo: nat, hi: nat, name: Name)
    requires Chain(b, f, lo, hi) && hi < lo + DirRecLen(|name|)
    ensures NoneNamed(Live(b, f, lo, hi), name)
  {
    hide InodeAt, RecLenAt, DirRecLen, ChunkBase;
    forall e | e in Live(b, f, lo, hi)
      ensures e.name != name
    {
      LiveIsStart(b, f, lo, hi, e);
      ChainHead(b, f, e.pos, hi);
    }
  }

  method FindInPage(b: seq<byte>, f: Format, lo: nat, hi: nat, name: Name) returns (r: Option<nat>)
    requires Chain(b, f, lo, hi)
    ensures r.None? ==> NoneNamed(Live(b, f, lo, hi), name)
    ensures r.Some? ==>
              && HeaderFits(b, r.value) && r.value + 8 + NameLenAt(b, r.value) <= |b|
              && EntryAt(b, r.value) in Live(b, f, lo, hi) && NameAt(b, r.value) == name
  {
    hide InodeAt, RecLenAt, NameLenAt, ChunkBase, Live;
    var recLen := DirRecLen(|name|);
    var de := lo;
    LiveNothing(b, f, lo);
    while de + recLen <= hi
      invariant lo <= de <= hi && Chain(b, f, lo, de) && Chain(b, f, de, hi)
      invariant NoneNamed(Live(b, f, lo, de), name)
      decreases hi - de
    {
      StepInside(b, f, lo, de, hi);
      if Match(b, de, name) {
        StartIsLive(b, f, lo, de, hi);
        return Some(de);
      }
      de := de + RecLenAt(b, de);
    }
    EarlyStop(b, f, de, hi, name);
    ChainAppend(b, f, lo, de, hi);
    return None;
  }

  lemma LiveNothing(b: seq<byte>, f: Format, lo: nat)
    requires lo <= |b|
    ensures Chain(b, f, lo, lo) && Live(b, f, lo, lo) == {}
  {
  }

  // ----- ext2_add_link, one page

  datatype Slot =
    | Taken(pos: nat)   // a record with this name
    | Room(pos: nat)    // a record to reuse or to split
    | AtEnd             // the end of the directory
    | NoRoom

  /** dir.c:431-434. */
  predicate HasRoom(b: seq<byte>, p: nat, n: nat)
    requires HeaderFits(b, p)
  {
    || (InodeAt(b, p) == 0 && RecLenAt(b, p) >= DirRecLen(n))
    || RecLenAt(b, p) >= DirRecLen(NameLenAt(b, p)) + DirRecLen(n)
  }

  lemma RoomMeans(b: seq<byte>, p: nat, n: nat)
    requires HeaderFits(b, p)
    ensures HasRoom(b, p, n) <==>
              || (InodeAt(b, p) == 0 && RecLenAt(b, p) >= DirRecLen(n))
              || RecLenAt(b, p) >= DirRecLen(NameLenAt(b, p)) + DirRecLen(n)
  {
  }

  /** No record between `lo` and `hi` has room for a name of length `n`. */
  ghost predicate Crowded(b: seq<byte>, f: Format, lo: nat, hi: nat, n: nat)
  {
    forall p: nat :: lo <= p < hi && Chain(b, f, lo, p) && HeaderFits(b, p) ==> !HasRoom(b, p, n)
  }

  lemma CrowdedMeans(b: seq<byte>, f: Format, lo: nat, hi: nat, n: nat)
    ensures Crowded(b, f, lo, hi, n) <==>
              forall p: nat :: lo <= p < hi && Chain(b, f, lo, p) && HeaderFits(b, p) ==>
                !(InodeAt(b, p) == 0 && RecLenAt(b, p) >= DirRecLen(n))
                && RecLenAt(b, p) < DirRecLen(NameLenAt(b, p)) + DirRecLen(n)
  {
    hide InodeAt, RecLenAt, NameLenAt, DirRecLen, Chain;
  }

  lemma CrowdedStep(b: seq<byte>, f: Format, lo: nat, de: nat, n: nat)
    requires Chain(b, f, lo, de) && RecordOk(b, f, de) && !HasRoom(b, de, n) && Crowded(b, f, lo, de, n)
    ensures Crowded(b, f, lo, de + RecLenAt(b, de), n)
  {
    hide InodeAt, RecLenAt, NameLenAt, ChunkBase, HasRoom, DirRecLen;
    forall p: nat | de < p < de + RecLenAt(b, de) && Chain(b, f, lo, p)
      ensures false
    {
      NoStartInside(b, f, lo, de, p);
    }
  }

  /** What is shorter than a record for the name has no room for it. */
  lemma CrowdedRest(b: seq<byte>, f: Format, lo: nat, de: nat, hi: nat, n: nat)
    requires Chain(b, f, lo, de) && Chain(b, f, de, hi) && hi < de + DirRecLen(n) && Crowded(b, f, lo, de, n)
    ensures Crowded(b, f, lo, hi, n)
  {
    hide InodeAt, RecLenAt, NameLenAt, ChunkBase, DirRecLen;
    ChainAppend(b, f, lo, de, hi);
    forall p: nat | de <= p < hi && Chain(b, f, lo, p) && HeaderFits(b, p)
      ensures !HasRoom(b, p, n)
    {
      ChainCut(b, f, lo, p, hi);
      ChainHead(b, f, p, hi);
    }
  }

  lemma CrowdedFrame(b: seq<byte>, b': seq<byte>, f: Format, lo: nat, hi: nat, n: nat)
    requires Chain(b, f, lo, hi) && SameBytes(b, b', lo, hi) && Crowded(b, f, lo, hi, n)
    ensures Crowded(b', f, lo, hi, n)
  {
    hide ChunkBase, DirRecLen, NameAt;
    forall p: nat | lo <= p < hi && Chain(b', f, lo, p) && HeaderFits(b', p)
      ensures !HasRoom(b', p, n)
    {
      ChainFrame(b', b, f, lo, p);
      ChainCut(b, f, lo, p, hi);
      ChainHead(b, f, p, hi);
      FieldsFrame(b, b', p, hi);
    }
  }

  /** The scan of one page by `ext2_add_link` (dir.c:411-436); `hi` is `dir_end`.  A page the scan leaves with
      nothing found is full to its last byte, so the scan of a whole directory always ends with a slot. */
  method FindRoom(b: seq<byte>, f: Format, n: nat, hi: nat, name: Name) returns (s: Slot)
    requires FormatOk(f) && 1 <= |name| <= NAME_LEN_MAX
    requires PageStart(n) <= hi <= PageStart(n + 1) && ChunkBase(hi, f.chunk) == hi
    requires Chain(b, f, PageStart(n), hi)
    ensures s.Taken? ==>
              && HeaderFits(b, s.pos) && s.pos + 8 + NameLenAt(b, s.pos) <= |b|
              && EntryAt(b, s.pos) in Live(b, f, PageStart(n), hi) && NameAt(b, s.pos) == name
    ensures s.Room? ==>
              Chain(b, f, PageStart(n), s.pos) && s.pos < hi && Chain(b, f, s.pos, hi)
              && HeaderFits(b, s.pos) && HasRoom(b, s.pos, |name|)
              && Crowded(b, f, PageStart(n), s.pos, |name|)
    ensures s.AtEnd? || s.NoRoom? ==> Crowded(b, f, PageStart(n), hi, |name|)
    // Room is a dead record that is long enough, or slack behind a record's own name; without a slot there is none.
    ensures s.Room? ==>
              || (InodeAt(b, s.pos) == 0 && RecLenAt(b, s.pos) >= DirRecLen(|name|))
              || RecLenAt(b, s.pos) >= DirRecLen(NameLenAt(b, s.pos)) + DirRecLen(|name|)
    ensures s.AtEnd? || s.NoRoom? ==>
              forall p: nat :: PageStart(n) <= p < hi && Chain(b, f, PageStart(n), p) && HeaderFits(b, p) ==>
                !(InodeAt(b, p) == 0 && RecLenAt(b, p) >= DirRecLen(|name|))
                && RecLenAt(b, p) < DirRecLen(NameLenAt(b, p)) + DirRecLen(|name|)
    ensures s.AtEnd? ==> hi < PageStart(n + 1)
    ensures s.AtEnd? || s.NoRoom? ==> NoneNamed(Live(b, f, PageStart(n), hi), name)
    ensures s.NoRoom? ==> hi == PageStart(n + 1)
  {
    hide InodeAt, RecLenAt, NameLenAt, ChunkBase, Live, HasRoom, DirRecLen;
    var recLen, lo, last := DirRecLen(|name|), PageStart(n), PageStart(n + 1);
    if hi < last { PageIsBoundary(n + 1, f.chunk); BoundaryAbove(hi, last, f.chunk); }
    var de := lo;
    LiveNothing(b, f, lo);
    while de + recLen <= last
      invariant lo <= de <= hi && Chain(b, f, lo, de) && Chain(b, f, de, hi)
      invariant NoneNamed(Live(b, f, lo, de), name) && Crowded(b, f, lo, de, |name|)
      decreases hi - de
    {
      if de == hi {
        CrowdedMeans(b, f, lo, hi, |name|);
        return AtEnd;
      }
      StepInside(b, f, lo, de, hi);
      if Match(b, de, name) {
        StartIsLive(b, f, lo, de, hi);
        return Taken(de);
      }
      if HasRoom(b, de, |name|) {
        RoomMeans(b, de, |name|);
        return Room(de);
      }
      CrowdedStep(b, f, lo, de, |name|);
      de := de + RecLenAt(b, de);
    }
    CrowdedRest(b, f, lo, de, hi, |name|);
    CrowdedMeans(b, f, lo, hi, |name|);
    EarlyStop(b, f, de, hi, name);
    ChainAppend(b, f, lo, de, hi);
    return NoRoom;
  }

  // ----- ext2_delete_entry

  /** The predecessor of the record at `p` in its chunk, if it has one (dir.c:478-495). */
  method FindPrevious(b: seq<byte>, f: Format, p: nat) returns (q: Option<nat>)
    requires f.chunk > 0 && Chain(b, f, ChunkBase(p, f.chunk), p)
    ensures q.None? ==> p == ChunkBase(p, f.chunk)
    ensures q.Some? ==>
              && ChunkBase(p, f.chunk) <= q.value < p && Chain(b, f, ChunkBase(p, f.chunk), q.value)
              && RecordOk(b, f, q.value) && HeaderFits(b, q.value) && q.value + RecLenAt(b, q.value) == p
  {
    hide InodeAt, RecLenAt, NameLenAt, ChunkBase, DirRecLen;
    var de, from := ChunkBase(p, f.chunk), ChunkBase(p, f.chunk);
    q := None;
    while de < p
      invariant from <= de <= p && Chain(b, f, from, de) && Chain(b, f, de, p)
      invariant q.None? ==> de == from
      invariant q.Some? ==>
                  && from <= q.value < de && Chain(b, f, from, q.value)
                  && RecordOk(b, f, q.value) && HeaderFits(b, q.value) && q.value + RecLenAt(b, q.value) == de
      decreases p - de
    {
      StepInside(b, f, from, de, p);
      q := Some(de);
      de := de + RecLenAt(b, de);
    }
  }

  // ----- ext2_empty_dir, one page

  /** An entry that an empty directory may have. */
  predicate DotEntry(e: Entry, self: nat)
  {
    && 1 <= |e.name| <= 2 && e.name[0] == 46
    && (|e.name| == 1 ==> e.ino == self) && (|e.name| == 2 ==> e.name[1] == 46)
  }

  lemma DotEntryMeans(e: Entry, self: nat)
    ensures DotEntry(e, self) <==> (e.name == [46] && e.ino == self) || e.name == [46, 46]
  {
  }

  /** dir.c:573-593. */
  method EmptyInPage(b: seq<byte>, f: Format, lo: nat, hi: nat, self: nat) returns (empty: bool)
    requires Chain(b, f, lo, hi)
    requires forall e :: e in Live(b, f, lo, hi) ==> e.name != []
    ensures empty <==> forall e :: e in Live(b, f, lo, hi) ==> DotEntry(e, self)
  {
    hide InodeAt, RecLenAt, NameLenAt, ChunkBase, Live;
    var de := lo;
    LiveNothing(b, f, lo);
    while de + DirRecLen(1) <= hi
      invariant lo <= de <= hi && Chain(b, f, lo, de) && Chain(b, f, de, hi)
      invariant forall e :: e in Live(b, f, lo, de) ==> DotEntry(e, self)
      decreases hi - de
    {
      StepInside(b, f, lo, de, hi);
      ChainAppend(b, f, lo, de, hi);
      if InodeAt(b, de) != 0 {
        StartIsLive(b, f, lo, de, hi);
        assert EntryAt(b, de).name != [];
        assert NameAt(b, de)[0] == b[de + 8];
        if b[de + 8] != 46 { return false; }
        if NameLenAt(b, de) > 2 { return false; }
        if NameLenAt(b, de) < 2 {
          if InodeAt(b, de) != self { return false; }
        } else if b[de + 9] != 46 {
          return false;
        }
        assert DotEntry(EntryAt(b, de), self);
      }
      de := de + RecLenAt(b, de);
    }
    return true;
  }

  // ----- ext2_make_empty

  const DOT: Name := [46]
  const DOTDOT: Name := [46, 46]

  /** The table of a directory with only "." and "..". */
  function EmptyDirTable(self: nat, parent: nat): map<Name, nat> { map[DOT := self, DOTDOT := parent] }

  /** dir.c:531-544: the first chunk of a new directory. */
  method EmptyChunk(b: seq<byte>, f: Format, self: nat, parent: nat) returns (r: seq<byte>)
    requires FormatOk(f) && f.chunk <= |b| && 0 < self <= f.maxIno && 0 < parent <= f.maxIno
    ensures ChangedWithin(b, r, 0, f.chunk)
    ensures Chain(r, f, 0, f.chunk) && Live(r, f, 0, f.chunk) == {Entry(0, DOT, self), Entry(12, DOTDOT, parent)}
  {
    hide Chain, Live, ChunkBase;
    var b0 := Copy(b, 0, Zeros(f.chunk));
    var b1 := FirstRecord(b0, self);
    r := SecondRecord(b1, f.chunk, parent);
    FieldsFrame(b1, r, 0, 12);
    SameChunk(0, 12, f.chunk);
    assert ChunkBase(0, f.chunk) == 0;
    TwoRecords(r, f, 0, 12, f.chunk);
  }

  method FirstRecord(b: seq<byte>, self: nat) returns (r: seq<byte>)
    requires 1024 <= |b| && self < 0x1_0000_0000
    ensures ChangedWithin(b, r, 0, 12)
    ensures RecLenAt(r, 0) == 12 && NameLenAt(r, 0) == 1 && EntryAt(r, 0) == Entry(0, DOT, self)
  {
    r := b[6 := 1];
    r := SetRecLen(r, 0, DirRecLen(1));
    r := Copy(r, 8, DOT + [0, 0, 0]);
    var c := r;
    r := SetInode(r, 0, self);
    r := r[7 := 0];
    assert NameLenAt(r, 0) == 1;
    assert r[8] == c[8..12][0];
    assert NameAt(r, 0) == DOT;
  }

  method SecondRecord(b: seq<byte>, chunk: nat, parent: nat) returns (r: seq<byte>)
    requires 1024 <= chunk <= |b| && chunk <= 4096 && parent < 0x1_0000_0000
    ensures ChangedWithin(b, r, 12, 24)
    ensures RecLenAt(r, 12) == chunk - 12 && NameLenAt(r, 12) == 2 && EntryAt(r, 12) == Entry(12, DOTDOT, parent)
  {
    r := b[18 := 2];
    r := SetRecLen(r, 12, chunk - DirRecLen(1));
    r := SetInode(r, 12, parent);
    r := Copy(r, 20, DOTDOT + [0, 0]);
    r := r[19 := 0];
    assert NameLenAt(r, 12) == 2;
    assert r[20] == r[20..24][0] && r[21] == r[20..24][1];
    assert NameAt(r, 12) == DOTDOT;
  }

  // ----- ext2_readdir, one page

  /** `ext2_validate_entry` (dir.c:184-195): the least record start at or after `o`. */
  method ValidateEntry(b: seq<byte>, f: Format, lo: nat, o: nat, hi: nat) returns (p: nat)
    requires f.chunk > 0 && Chain(b, f, lo, hi) && lo <= o < hi && ChunkBase(lo, f.chunk) == lo
    ensures o <= p <= hi && Chain(b, f, lo, p) && Chain(b, f, p, hi)
    ensures forall e :: e in Live(b, f, lo, hi) && o <= e.pos ==> p <= e.pos
  {
    hide InodeAt, RecLenAt, NameLenAt, ChunkBase, Live;
    p := ChunkBase(o, f.chunk);
    SameChunk(o, p, f.chunk);
    if p < lo { BoundaryAbove(p, lo, f.chunk); }
    BoundaryIsStart(b, f, lo, p, hi);
    ChainCut(b, f, lo, p, hi);
    while p < o
      invariant lo <= p <= hi && Chain(b, f, lo, p) && Chain(b, f, p, hi)
      invariant forall e :: e in Live(b, f, lo, hi) && o <= e.pos ==> p <= e.pos
      decreases hi - p
    {
      StepInside(b, f, lo, p, hi);
      forall e | e in Live(b, f, lo, hi) && o <= e.pos
        ensures p + RecLenAt(b, p) <= e.pos
      {
        LiveIsStart(b, f, lo, hi, e);
        NoStartInside(b, f, lo, p, e.pos);
      }
      p := p + RecLenAt(b, p);
    }
  }

  /** Entries in strictly increasing order of position. */
  ghost predicate Ordered(s: seq<Entry>) { forall i, j :: 0 <= i < j < |s| ==> s[i].pos < s[j].pos }

  /** `out` is `s` in order. */
  ghost predicate Lists(out: seq<Entry>, s: set<Entry>) { Ordered(out) && forall e :: e in out <==> e in s }

  /** The emission of one page from the record start `from` (dir.c:230-249); `dir_emit` takes `budget` entries and
      refuses the next.  Returns the entries emitted and the record start reached. */
  method EmitPage(b: seq<byte>, f: Format, from: nat, hi: nat, budget: nat) returns (out: seq<Entry>, stop: nat,
                  refused: bool)
    requires Chain(b, f, from, hi)
    ensures from <= stop <= hi && Chain(b, f, from, stop) && Chain(b, f, stop, hi)
    ensures Lists(out, Live(b, f, from, stop)) && |out| <= budget
    ensures refused ==> |out| == budget
    ensures !refused ==> stop == hi
  {
    hide InodeAt, RecLenAt, NameLenAt, ChunkBase, Live;
    out, stop := [], from;
    LiveNothing(b, f, from);
    while stop + DirRecLen(1) <= hi
      invariant from <= stop <= hi && Chain(b, f, from, stop) && Chain(b, f, stop, hi)
      invariant Lists(out, Live(b, f, from, stop)) && |out| <= budget
      decreases hi - stop
    {
      StepInside(b, f, from, stop, hi);
      if InodeAt(b, stop) != 0 {
        if |out| == budget { return out, stop, true; }
        LiveAtOnePlace(b, f, from, stop);
        out := out + [EntryAt(b, stop)];
      }
      stop := stop + RecLenAt(b, stop);
    }
    return out, stop, false;
  }
}
