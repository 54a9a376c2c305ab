/** A directory inode and its pages in the page cache: dir.c's operations, in place.

  `data` holds the cached pages, `size` is `i_size`, `checked` and `failed` are the pages whose PageChecked and
  PageError flags are set, `version` is the inode version that every committed chunk increments.  Reads succeed;
  whether `ext2_prepare_chunk` succeeds is the `prepared` parameter of the operations that can survive its failure.
  */
module Directories {
  import opened Bytes
  import opened DirImage
  import opened DirChain
  import opened DirPages
  import opened DirWalk
  import opened DirEdits

  datatype Lookup = Found(pos: nat) | Absent | BadPage

  datatype AddResult = Added(pos: nat) | Exists(pos: nat) | NotPrepared | IoError

  ghost predicate NamesUnique(s: set<Entry>)
  {
    forall e, e' :: e in s && e' in s && e.name == e'.name ==> e == e'
  }

  ghost function Names(s: set<Entry>): set<Name> { set e | e in s :: e.name }

  /** The entry of that name. */
  ghost function Named(s: set<Entry>, name: Name): Entry
    requires name in Names(s)
    ensures Named(s, name) in s && Named(s, name).name == name
  {
    var e :| e in s && e.name == name;
    e
  }

  /** The directory as its users see it. */
  ghost function Table(s: set<Entry>): map<Name, nat>
    requires NamesUnique(s)
  {
    map n | n in Names(s) :: Named(s, n).ino
  }

  class Directory {
    const f: Format
    const self: nat
    var data: seq<byte>
    var size: nat
    var checked: set<nat>
    var failed: set<nat>
    var version: nat

    ghost function Ents(): set<Entry>
      reads this
    {
      Entries(data, f, size)
    }

    ghost predicate Good(n: nat)
      reads this
    {
      PageOk(data, f, size, n)
    }

    ghost function PageEnts(n: nat): set<Entry>
      reads this
    {
      PageLive(data, f, size, n)
    }

    ghost predicate Unique()
      reads this
    {
      NamesUnique(Ents())
    }

    /** The abstract directory. */
    ghost function Dict(): map<Name, nat>
      requires Unique()
      reads this
    {
      Table(Ents())
    }

    /** Every page is acceptable. */
    ghost predicate Sound()
      reads this
    {
      AllPagesOk(data, f, size)
    }

    /** A checked page is acceptable, so the check may be skipped; a page that failed the check still would.
        No live record has an empty name: such a record is one that `ext2_add_link` cannot split safely. */
    ghost predicate Valid()
      reads this
    {
      && FormatOk(f) && 0 < self <= f.maxIno
      && size <= |data| && |data| % 4096 == 0
      && (forall n :: n in checked ==> PageStart(n) <= size && Good(n))
      && (forall n :: n in failed ==> PageStart(n) <= size && !Good(n))
      && (forall e :: e in Ents() ==> e.name != [])
    }

    /** A new, still empty directory inode. */
    constructor (f: Format, self: nat)
      requires FormatOk(f) && 0 < self <= f.maxIno
      ensures Valid() && this.f == f && this.self == self && size == 0 && Ents() == {}
    {
      this.f, this.self := f, self;
      data, size, checked, failed, version := [], 0, {}, {}, 0;
    }

    /** `ext2_get_page`: a page is checked once, and afterwards trusted (dir.c:149-163). */
    method GetPage(n: nat) returns (ok: bool)
      requires Valid() && PageStart(n) <= size
      modifies this`data, this`checked, this`failed
      ensures Valid() && ok == Good(n) && PageStart(n + 1) <= |data|
      ensures SameBytes(old(data), data, 0, size) && Ents() == old(Ents()) && Sound() == old(Sound())
      ensures forall m :: 0 <= m ==> Good(m) == old(Good(m)) && PageEnts(m) == old(PageEnts(m))
      ensures ok ==> n in checked
    {
      hide PageOk, Entries, PageLive;
      if |data| < PageStart(n + 1) {
        BeyondEnd(data, data + Zeros(4096), f, size);
        data := data + Zeros(4096);
      }
      if n !in checked {
        if n in failed { return false; }
        ok := CheckPage(data, f, size, n);
        if !ok { failed := failed + {n}; return false; }
        checked := checked + {n};
      }
      return true;
    }

    /** `ext2_find_entry` (dir.c:261-321): the lookup of one name. */
    method FindEntry(name: Name) returns (r: Lookup)
      requires Valid()
      modifies this`data, this`checked, this`failed
      ensures Valid() && Ents() == old(Ents()) && Sound() == old(Sound()) && SameBytes(old(data), data, 0, size)
      ensures r.Found? ==> exists e :: e in Ents() && e.pos == r.pos && e.name == name
      ensures r.Absent? ==> Sound() && NoneNamed(Ents(), name)
      ensures r.BadPage? ==> !Sound()
    {
      hide PageOk, Chain, Live, ChunkBase, NPages;
      var npages := NPages(size);
      for i := 0 to npages
        invariant Valid() && Ents() == old(Ents()) && Sound() == old(Sound()) && SameBytes(old(data), data, 0, size)
        invariant forall m :: 0 <= m < i ==> Good(m) && NoneNamed(PageEnts(m), name)
      {
        var ok := GetPage(i);
        if !ok { return BadPage; }
        var found := FindOnPage(i, name);
        if found.Some? { return Found(found.value); }
      }
      forall m | 0 <= m < npages
        ensures PageOk(data, f, size, m) && NoneNamed(PageLive(data, f, size, m), name)
      {
        assert Good(m) && NoneNamed(PageEnts(m), name);
      }
      NothingFound(data, f, size, name, npages);
      return Absent;
    }

    /** The inode number of an entry that has been found. */
    method InodeOf(p: nat, ghost e: Entry) returns (ino: nat)
      requires Valid() && e in Ents() && e.pos == p
      ensures ino == e.ino
    {
      hide PageOk, Entries, InodeAt;
      ghost var n := PageOfEntry(data, f, size, e);
      ino := InodeAt(data, p);
    }

    /** The scan of one page that has been read. */
    method FindOnPage(n: nat, name: Name) returns (r: Option<nat>)
      requires Valid() && Good(n)
      ensures r.Some? ==> exists e :: e in Ents() && e.pos == r.value && e.name == name
      ensures r.None? ==> NoneNamed(PageEnts(n), name)
    {
      hide Chain, Live, ChunkBase;
      r := FindInPage(data, f, PageStart(n), PageEnd(size, n), name);
      if r.Some? { EntryInItsPage(data, f, size, n, EntryAt(data, r.value)); }
    }

    /** The committed change of page `n` keeps the invariant. */
    twostate lemma EditIsValid(n: nat)
      requires old(Valid()) && old(Good(n)) && Good(n) && EditOfPage(old(data), data, size, n)
      requires size == old(size) && checked == old(checked) && failed == old(failed)
      requires forall e :: e in Ents() ==> e.name != []
      ensures Valid() && Sound() == old(Sound())
    {
      hide PageOk, Entries, PageLive;
      EditKeepsPages(old(data), data, f, size, n);
    }

    /** `ext2_add_link` once it has found a record to reuse or to split (dir.c:443-460). */
    method AddInRoom(n: nat, p: nat, name: Name, ino: nat, prepared: bool) returns (r: AddResult)
      requires Valid() && 1 <= |name| <= NAME_LEN_MAX && 0 < ino <= f.maxIno
      requires Run(data, f, size, n, p, p) && p < PageEnd(size, n) && HeaderFits(data, p)
      requires HasRoom(data, p, |name|)
      modifies this`data, this`version
      ensures Valid() && Sound() == old(Sound())
      ensures r == if prepared then Added(if old(InodeAt(data, p)) == 0 then p else old(Rest(data, p))) else NotPrepared
      ensures !prepared ==> data == old(data) && version == old(version)
      ensures prepared ==>
                && version == old(version) + 1 && Ents() == old(Ents()) + {Entry(r.pos, name, ino)}
                && forall e :: e in old(Ents()) ==> e.pos != r.pos
    {
      hide InodeAt, RecLenAt, NameLenAt, Entries, PageLive, PageOk, Chain, Live, ChunkBase, DirRecLen;
      if !prepared { return NotPrepared; }
      RoomIsRecord(data, f, size, n, p);
      ghost var b := data;
      if InodeAt(data, p) != 0 {
        r := Added(Rest(data, p));
        assert EntryAt(b, p).name != [];
        data := SplitRecord(data, p, name, ino);
        SplitOne(b, data, f, size, n, p, name, ino);
      } else {
        r := Added(p);
        data := FillRecord(data, p, name, ino);
        Reuse(b, data, f, size, n, p, name, ino);
      }
      version := version + 1;
      EditIsValid(n);
    }

    /** `ext2_add_link` once it has reached the end of the directory: a chunk is added (dir.c:412-418, 443-460).
        The blank header is written before the chunk is prepared; beyond `i_size` it is harmless. */
    method AddAtEnd(n: nat, name: Name, ino: nat, prepared: bool) returns (r: AddResult)
      requires Valid() && 1 <= |name| <= NAME_LEN_MAX && 0 < ino <= f.maxIno
      requires Good(n) && PageStart(n) <= size < PageStart(n + 1) <= |data|
      modifies this`data, this`size, this`version
      ensures Valid() && Sound() == old(Sound())
      ensures r == if prepared then Added(old(size)) else NotPrepared
      ensures !prepared ==>
                && Ents() == old(Ents()) && size == old(size) && version == old(version)
                && SameBytes(old(data), data, 0, size)
      ensures prepared ==>
                && version == old(version) + 1 && size == old(size) + f.chunk
                && Ents() == old(Ents()) + {Entry(r.pos, name, ino)}
                && forall e :: e in old(Ents()) ==> e.pos < r.pos
    {
      hide InodeAt, RecLenAt, NameLenAt, Entries, PageLive, PageOk, Chain, Live, ChunkBase, DirRecLen;
      ghost var b := data;
      var s := size;
      EndOfGoodPage(b, f, s, n);
      data := BlankChunk(data, size, f.chunk);
      if !prepared {
        BeyondEnd(b, data, f, size);
        return NotPrepared;
      }
      ghost var blank := data;
      BlankIsRecord(blank, f, s);
      data := FillRecord(data, size, name, ino);
      FillChain(blank, data, f, s, name, ino);
      ghost var e := Entry(s, name, ino);
      assert GrowthOf(b, data, f, s, n, e);
      size := size + f.chunk;
      version := version + 1;
      GrowEntries(b, data, f, s, n, e);
      GrowKeepsPages(b, data, f, s, n, e);
      EntriesBeforeEnd(b, f, s);
      return Added(s);
    }

    /** `ext2_add_link` looks through page `n` (dir.c:379-439), after the pages before it had no room; no slot is a bad
        page.  `was` is the directory before the scan. */
    method ScanPage(n: nat, name: Name, ghost was: seq<byte>) returns (s: Option<Slot>)
      requires Valid() && PageStart(n) <= size <= |was| && 1 <= |name| <= NAME_LEN_MAX && SameBytes(was, data, 0, size)
      requires forall m: nat :: m < n ==> Crowded(was, f, PageStart(m), PageEnd(size, m), |name|)
      modifies this`data, this`checked, this`failed
      ensures Valid() && Ents() == old(Ents()) && Sound() == old(Sound()) && SameBytes(old(data), data, 0, size)
      ensures s.None? ==> !Sound()
      ensures s.Some? && s.value.Taken? ==> exists e :: e in Ents() && e.pos == s.value.pos && e.name == name
      ensures s.Some? && s.value.Room? ==>
                var p := s.value.pos;
                && Run(data, f, size, n, p, p) && p < PageEnd(size, n) && HeaderFits(data, p)
                && HasRoom(data, p, |name|) && !FullFor(was, f, size, |name|)
      ensures s.Some? && s.value.AtEnd? ==>
                Good(n) && size < PageStart(n + 1) <= |data| && FullFor(was, f, size, |name|)
      ensures s.Some? && s.value.NoRoom? ==>
                PageStart(n + 1) <= size && Crowded(was, f, PageStart(n), PageEnd(size, n), |name|)
    {
      hide PageOk, Chain, Live, ChunkBase, NPages, Run, HasRoom, EntryAt, NameAt, NameLenAt, InodeAt, RecLenAt, Entries,
        PageLive, AllPagesOk, Crowded, FullFor;
      var ok := GetPage(n);
      if !ok {
        BadPageIsInside(data, f, size, n);
        return None;
      }
      PageForScan(data, f, size, n);
      var slot := FindRoom(data, f, n, PageEnd(size, n), name);
      CrowdedBefore(was, data, f, size, n, slot, |name|);
      if slot.Taken? {
        EntryInItsPage(data, f, size, n, EntryAt(data, slot.pos));
        EntryFields(data, slot.pos);
      } else if slot.Room? {
        RoomIsRun(data, f, size, n, slot.pos);
      }
      return Some(slot);
    }

    /** The loop of `ext2_add_link` over the pages, one of them behind the last (dir.c:399-439), and what follows. */
    method AddInFirstSlot(name: Name, ino: nat, prepared: bool) returns (r: AddResult)
      requires Valid() && 1 <= |name| <= NAME_LEN_MAX && 0 < ino <= f.maxIno
      modifies this
      ensures Valid() && Sound() == old(Sound())
      ensures r.Added? ==>
                && prepared && Ents() == old(Ents()) + {Entry(r.pos, name, ino)}
                && (forall e :: e in old(Ents()) ==> e.pos != r.pos)
                && (size == old(size) || (r.pos == old(size) && size == old(size) + f.chunk))
                && version == old(version) + 1
      ensures r.Added? ==> (size > old(size) <==> FullFor(old(data), f, old(size), |name|))
      ensures !r.Added? ==>
                && Ents() == old(Ents()) && size == old(size) && version == old(version)
                && SameBytes(old(data), data, 0, size)
      ensures r.Exists? ==> exists e :: e in Ents() && e.pos == r.pos && e.name == name
      ensures r.NotPrepared? ==> !prepared
      ensures r.IoError? ==> !Sound()
    {
      hide PageOk, Chain, Live, ChunkBase, NPages, Run, HasRoom, EntryAt, NameAt, NameLenAt, InodeAt, RecLenAt, Entries,
        PageLive, AllPagesOk, Crowded, FullFor;
      var npages := NPages(size);
      for n := 0 to npages + 1
        invariant Valid() && Ents() == old(Ents()) && Sound() == old(Sound()) && SameBytes(old(data), data, 0, size)
        invariant size == old(size) && version == old(version) && PageStart(n) <= size
        invariant forall m: nat :: m < n ==> Crowded(old(data), f, PageStart(m), PageEnd(size, m), |name|)
      {
        var s := ScanPage(n, name, old(data));
        if s.None? { return IoError; }
        match s.value
        case Taken(p) => return Exists(p);
        case Room(p) =>
          r := AddInRoom(n, p, name, ino, prepared);
          return;
        case AtEnd =>
          r := AddAtEnd(n, name, ino, prepared);
          return;
        case NoRoom =>
      }
      assert false;
      r := IoError;
    }

    /** `ext2_add_link` (dir.c:378-468).  The name is new: the caller looked it up.  The scan takes the first slot it
        meets, so a duplicate further on would go unseen; on acceptable pages it always ends with a slot. */
    method AddLink(name: Name, ino: nat, prepared: bool) returns (r: AddResult)
      requires Valid() && 1 <= |name| <= NAME_LEN_MAX && 0 < ino <= f.maxIno
      modifies this
      ensures Valid() && Sound() == old(Sound())
      ensures r.Added? ==>
                && prepared && Ents() == old(Ents()) + {Entry(r.pos, name, ino)}
                && (forall e :: e in old(Ents()) ==> e.pos != r.pos)
                && (size == old(size) || (r.pos == old(size) && size == old(size) + f.chunk))
                && version == old(version) + 1
      // A chunk is added exactly when no record had room: neither a dead one in its length nor any in its slack.
      ensures r.Added? ==> (size > old(size) <==>
                forall m: nat, p: nat :: PageStart(m) <= p < PageEnd(old(size), m)
                                         && Chain(old(data), f, PageStart(m), p) && HeaderFits(old(data), p) ==>
                  !(InodeAt(old(data), p) == 0 && RecLenAt(old(data), p) >= DirRecLen(|name|))
                  && RecLenAt(old(data), p) < DirRecLen(NameLenAt(old(data), p)) + DirRecLen(|name|))
      ensures !r.Added? ==>
                && Ents() == old(Ents()) && size == old(size) && version == old(version)
                && SameBytes(old(data), data, 0, size)
      ensures r.Exists? ==> exists e :: e in Ents() && e.pos == r.pos && e.name == name
      ensures r.NotPrepared? ==> !prepared
      ensures r.IoError? ==> !Sound()
    {
      hide PageOk, Chain, Live, Run, InodeAt, RecLenAt, NameLenAt, Entries, AllPagesOk, FullFor, DirRecLen;
      FullMeans(data, f, size, |name|);
      r := AddInFirstSlot(name, ino, prepared);
    }

    /** A record starts at `p`. */
    ghost predicate Start(p: nat)
      reads this
    {
      Chain(data, f, PageStart(p / 4096), p)
    }

    /** `ext2_delete_entry` (dir.c:474-509): the record is merged into its predecessor in the chunk, or, if it is the
        chunk's first, only its inode number is cleared. */
    method DeleteEntry(p: nat, ghost e: Entry)
      requires Valid() && e in Ents() && e.pos == p
      modifies this`data, this`version
      ensures Valid() && Sound() == old(Sound()) && version == old(version) + 1
      ensures Ents() == old(Ents()) - {e}
      ensures Start(p) <==> ChunkBase(p, f.chunk) == p
    {
      hide InodeAt, RecLenAt, NameLenAt, NameAt, Entries, PageLive, PageOk, Chain, Live, ChunkBase, DirRecLen;
      ghost var b := data;
      ghost var n := StartOfEntry(b, f, size, e);
      var q := FindPrevious(data, f, p);
      match q {
        case Some(prev) =>
          PreviousRun(b, f, size, n, prev, p);
          data := MergeRecord(data, prev, p);
          Swallow(b, data, f, size, n, prev, p);
          MergedAway(b, data, f, size, n, prev, p);
        case None =>
          data := ClearRecord(data, p);
          Relink(b, data, f, size, n, p, 0);
          StaysStart(data, f, size, n, p);
      }
      version := version + 1;
      EditIsValid(n);
    }

    /** `ext2_set_link` (dir.c:355-373). */
    method SetLink(p: nat, ino: nat, ghost e: Entry)
      requires Valid() && e in Ents() && e.pos == p && 0 < ino <= f.maxIno
      modifies this`data, this`version
      ensures Valid() && Sound() == old(Sound()) && version == old(version) + 1
      ensures Ents() == old(Ents()) - {e} + {e.(ino := ino)}
    {
      hide InodeAt, RecLenAt, NameLenAt, NameAt, Entries, PageLive, PageOk, Chain, Live, ChunkBase, DirRecLen;
      ghost var b := data;
      ghost var n := StartOfEntry(b, f, size, e);
      data := RelinkRecord(data, p, ino);
      Relink(b, data, f, size, n, p, ino);
      version := version + 1;
      EditIsValid(n);
    }

    /** `ext2_make_empty` (dir.c:514-550) on a new directory inode. */
    method MakeEmpty(parent: nat, prepared: bool) returns (ok: bool)
      requires Valid() && size == 0 && 0 < parent <= f.maxIno
      modifies this`data, this`size, this`version
      ensures ok == prepared && Valid()
      ensures !ok ==> data == old(data) && size == 0 && version == old(version)
      ensures ok ==>
                && Sound() && size == f.chunk && version == old(version) + 1
                && Ents() == {Entry(0, DOT, self), Entry(12, DOTDOT, parent)}
    {
      hide Entries, PageLive, PageOk, Chain, Live, ChunkBase;
      if !prepared { return false; }
      EmptyIsGood(data, f);
      if |data| == 0 { data := Zeros(4096); }
      data := EmptyChunk(data, f, self, parent);
      size := f.chunk;
      version := version + 1;
      OnlyPage(data, f);
      return true;
    }

    /** `ext2_empty_dir` (dir.c:555-601); pages that fail the check are skipped. */
    method EmptyDir() returns (empty: bool)
      requires Valid()
      modifies this`data, this`checked, this`failed
      ensures Valid() && Ents() == old(Ents()) && Sound() == old(Sound()) && SameBytes(old(data), data, 0, size)
      ensures empty <==> forall e :: e in Ents() ==> (e.name == [46] && e.ino == self) || e.name == [46, 46]
    {
      hide PageOk, Chain, Live, ChunkBase, NPages, Entries, PageLive;
      EntriesAreDots(Ents(), self);
      for i := 0 to NPages(size)
        invariant Valid() && Ents() == old(Ents()) && Sound() == old(Sound()) && SameBytes(old(data), data, 0, size)
        invariant forall m, e :: 0 <= m < i && e in PageEnts(m) ==> DotEntry(e, self)
      {
        var ok := GetPage(i);
        if ok {
          var emptyPage := EmptyOnPage(i);
          if !emptyPage { return false; }
        } else {
          BadPageIsEmpty(data, f, size, i);
        }
      }
      forall e | e in Ents()
        ensures DotEntry(e, self)
      {
        var m := PageOfEntry(data, f, size, e);
        assert e in PageEnts(m);
      }
      return true;
    }

    lemma EntriesAreDots(s: set<Entry>, self: nat)
      ensures (forall e :: e in s ==> DotEntry(e, self)) <==>
                forall e :: e in s ==> (e.name == [46] && e.ino == self) || e.name == [46, 46]
    {
      forall e | e in s
        ensures DotEntry(e, self) <==> (e.name == [46] && e.ino == self) || e.name == [46, 46]
      {
        DotEntryMeans(e, self);
      }
    }

    method EmptyOnPage(n: nat) returns (empty: bool)
      requires Valid() && Good(n)
      ensures empty ==> forall e :: e in PageEnts(n) ==> DotEntry(e, self)
      ensures !empty ==> exists e :: e in Ents() && !DotEntry(e, self)
    {
      hide Chain, Live, ChunkBase, Entries, DotEntry;
      forall e | e in PageEnts(n)
        ensures e in Ents()
      {
        EntryInItsPage(data, f, size, n, e);
      }
      empty := EmptyInPage(data, f, PageStart(n), PageEnd(size, n), self);
    }

    /** `ext2_dotdot` (dir.c:323-333): the record after the first one.  While "." and ".." stay live at the places
        `ext2_make_empty` gave them, that is the record of "..". */
    method DotDot() returns (r: Option<nat>)
      requires Valid() && size > 0
      modifies this`data, this`checked, this`failed
      ensures Valid() && Ents() == old(Ents()) && Sound() == old(Sound()) && SameBytes(old(data), data, 0, size)
      ensures r.Some? <==> Good(0)
      ensures (exists e :: e in Ents() && e.pos == 0) && (exists e :: e in Ents() && e.pos == 12) ==> r == Some(12)
    {
      hide PageOk, Chain, Live, ChunkBase, Entries, PageLive, RecLenAt;
      var ok := GetPage(0);
      if (exists e :: e in Ents() && e.pos == 0) && (exists e :: e in Ents() && e.pos == 12) {
        ghost var e :| e in Ents() && e.pos == 0;
        ghost var e' :| e' in Ents() && e'.pos == 12;
        SecondAtTwelve(data, f, size, e');
      }
      if ok { r := Some(RecLenAt(data, 0)); } else { r := None; }
    }
  }

  lemma EmptyIsGood(b: seq<byte>, f: Format)
    requires FormatOk(f)
    ensures forall n: nat :: PageStart(n) <= 0 ==> PageOk(b, f, 0, n)
  {
    assert Chain(b, f, 0, 0);
    assert ChunkBase(0, f.chunk) == 0;
  }

  /** A directory of one chunk is its first page. */
  lemma OnlyPage(b: seq<byte>, f: Format)
    requires FormatOk(f) && Chain(b, f, 0, f.chunk)
    ensures AllPagesOk(b, f, f.chunk) && Entries(b, f, f.chunk) == Live(b, f, 0, f.chunk)
    ensures PageOk(b, f, f.chunk, 0)
  {
    hide Chain, Live, ChunkBase;
    assert ChunkBase(f.chunk, f.chunk) == f.chunk by { assert ChunkBase(0, f.chunk) == 0; NextBoundary(0, f.chunk); }
    forall e | e in Entries(b, f, f.chunk)
      ensures e in Live(b, f, 0, f.chunk)
    {
      var n := PageOfEntry(b, f, f.chunk, e);
    }
    forall e | e in Live(b, f, 0, f.chunk)
      ensures e in Entries(b, f, f.chunk)
    {
      EntryInItsPage(b, f, f.chunk, 0, e);
    }
  }

  lemma BadPageIsEmpty(b: seq<byte>, f: Format, size: nat, n: nat)
    requires !PageOk(b, f, size, n)
    ensures PageLive(b, f, size, n) == {}
  {
  }

  /** No record start lies strictly inside a record, so a first record followed by a start at 12 is 12 long. */
  lemma SecondAtTwelve(b: seq<byte>, f: Format, size: nat, e: Entry)
    requires FormatOk(f) && size <= |b| && e in Entries(b, f, size) && e.pos == 12
    ensures PageOk(b, f, size, 0) && HeaderFits(b, 0) && RecLenAt(b, 0) == 12
  {
    hide ChunkBase, NameLenAt, InodeAt, RecLenAt;
    var n := StartOfEntry(b, f, size, e);
    NoStartInside(b, f, 0, 0, 12);
  }

  /** A live entry sits at a record start of its page. */
  lemma StartOfEntry(b: seq<byte>, f: Format, size: nat, e: Entry) returns (n: nat)
    requires FormatOk(f) && size <= |b| && e in Entries(b, f, size)
    ensures PageOk(b, f, size, n) && Run(b, f, size, n, e.pos, e.pos) && e.pos < PageEnd(size, n)
    ensures HeaderFits(b, e.pos) && e.pos + 8 + NameLenAt(b, e.pos) <= |b| && e == EntryAt(b, e.pos)
    ensures InodeAt(b, e.pos) != 0 && RecordOk(b, f, e.pos) && e.pos + RecLenAt(b, e.pos) <= |b|
    ensures PageStart(n) <= ChunkBase(e.pos, f.chunk)
    ensures Chain(b, f, PageStart(n), ChunkBase(e.pos, f.chunk)) && Chain(b, f, ChunkBase(e.pos, f.chunk), e.pos)
    ensures Chain(b, f, e.pos, PageEnd(size, n))
  {
    hide ChunkBase, RecordOk, RecLenAt, NameLenAt;
    n := PageOfEntry(b, f, size, e);
    LiveIsStart(b, f, PageStart(n), PageEnd(size, n), e);
    RoomIsRun(b, f, size, n, e.pos);
    RoomIsRecord(b, f, size, n, e.pos);
    ChunkOfStart(b, f, n, e.pos);
  }

  lemma PreviousRun(b: seq<byte>, f: Format, size: nat, n: nat, q: nat, p: nat)
    requires FormatOk(f) && Run(b, f, size, n, p, p) && p < PageEnd(size, n)
    requires Chain(b, f, PageStart(n), ChunkBase(p, f.chunk)) && Chain(b, f, ChunkBase(p, f.chunk), q)
    requires RecordOk(b, f, q) && q + RecLenAt(b, q) == p && ChunkBase(p, f.chunk) <= q
    ensures Run(b, f, size, n, q, p) && q + 8 + NameLenAt(b, q) <= p
    ensures HeaderFits(b, p) && p + 8 <= p + RecLenAt(b, p) < q + 0x1_0000
  {
    hide InodeAt, RecLenAt, NameLenAt, ChunkBase;
    ChainAppend(b, f, PageStart(n), ChunkBase(p, f.chunk), q);
    RoomIsRecord(b, f, size, n, p);
    OneRecord(b, f, q, p);
    SameChunk(p, q, f.chunk);
  }

  /** A swallowed record is no record any more, though its bytes are still there ... */
  lemma MergedAway(b: seq<byte>, b': seq<byte>, f: Format, size: nat, n: nat, q: nat, p: nat)
    requires FormatOk(f) && Run(b, f, size, n, q, p) && p < PageEnd(size, n) && HeaderFits(b, p) && HeaderFits(b, q)
    requires ChunkBase(p, f.chunk) <= q && q + 8 + NameLenAt(b, q) <= p
    requires MergeOf(b, b', q, p)
    ensures !Chain(b', f, PageStart(p / 4096), p) && ChunkBase(p, f.chunk) != p
  {
    hide ChunkBase, InodeAt, NameLenAt, RecLenAt;
    RunBounds(b, f, PageStart(n), q, p, PageEnd(size, n));
    StepInside(b, f, p, p, PageEnd(size, n));
    assert p / 4096 == n;
    ChainFrame(b, b', f, PageStart(n), q);
    if Chain(b', f, PageStart(n), p) { NoStartInside(b', f, PageStart(n), q, p); }
  }

  /** ... but the first record of a chunk stays. */
  lemma StaysStart(b: seq<byte>, f: Format, size: nat, n: nat, p: nat)
    requires PageOk(b, f, size, n) && ChunkBase(p, f.chunk) == p && PageStart(n) <= p < PageEnd(size, n)
    ensures Chain(b, f, PageStart(p / 4096), p)
  {
    hide ChunkBase, Chain;
    assert p / 4096 == n;
    BoundaryIsStart(b, f, PageStart(n), p, PageEnd(size, n));
  }

  lemma EntryFields(b: seq<byte>, p: nat)
    requires HeaderFits(b, p) && p + 8 + NameLenAt(b, p) <= |b|
    ensures EntryAt(b, p).pos == p && EntryAt(b, p).name == NameAt(b, p) && EntryAt(b, p).ino == InodeAt(b, p)
  {
  }

  lemma PageForScan(b: seq<byte>, f: Format, size: nat, n: nat)
    requires FormatOk(f) && PageOk(b, f, size, n) && PageStart(n) <= size
    ensures PageStart(n) <= PageEnd(size, n) <= PageStart(n + 1)
    ensures ChunkBase(PageEnd(size, n), f.chunk) == PageEnd(size, n) && Chain(b, f, PageStart(n), PageEnd(size, n))
    ensures PageLive(b, f, size, n) == Live(b, f, PageStart(n), PageEnd(size, n))
  {
  }

  /** The page just past a directory that ends on a page boundary is always accepted. */
  lemma BadPageIsInside(b: seq<byte>, f: Format, size: nat, n: nat)
    requires FormatOk(f) && size <= |b| && PageStart(n) <= size && !PageOk(b, f, size, n)
    ensures !AllPagesOk(b, f, size)
  {
    hide ChunkBase;
    if PageStart(n) == size { PageIsBoundary(n, f.chunk); }
  }

  /** No record of the directory has room for a name of length `n`. */
  ghost predicate FullFor(b: seq<byte>, f: Format, size: nat, n: nat)
  {
    forall m: nat :: PageStart(m) < size ==> Crowded(b, f, PageStart(m), PageEnd(size, m), n)
  }

  lemma FullMeans(b: seq<byte>, f: Format, size: nat, n: nat)
    ensures FullFor(b, f, size, n) <==>
              forall m: nat, p: nat :: PageStart(m) <= p < PageEnd(size, m) && Chain(b, f, PageStart(m), p)
                                       && HeaderFits(b, p) ==>
                !(InodeAt(b, p) == 0 && RecLenAt(b, p) >= DirRecLen(n))
                && RecLenAt(b, p) < DirRecLen(NameLenAt(b, p)) + DirRecLen(n)
  {
    hide Crowded, InodeAt, RecLenAt, NameLenAt, DirRecLen, Chain;
    forall m: nat
      ensures Crowded(b, f, PageStart(m), PageEnd(size, m), n) <==>
                forall p: nat :: PageStart(m) <= p < PageEnd(size, m) && Chain(b, f, PageStart(m), p)
                                 && HeaderFits(b, p) ==>
                  !(InodeAt(b, p) == 0 && RecLenAt(b, p) >= DirRecLen(n))
                  && RecLenAt(b, p) < DirRecLen(NameLenAt(b, p)) + DirRecLen(n)
    {
      CrowdedMeans(b, f, PageStart(m), PageEnd(size, m), n);
    }
  }

  /** What the scan of page `n` says about the directory, as far as it has been scanned. */
  lemma CrowdedBefore(b: seq<byte>, b': seq<byte>, f: Format, size: nat, n: nat, s: Slot, len: nat)
    requires size <= |b| && SameBytes(b, b', 0, size) && PageStart(n) <= size
    requires Chain(b', f, PageStart(n), PageEnd(size, n))
    requires forall m: nat :: m < n ==> Crowded(b, f, PageStart(m), PageEnd(size, m), len)
    requires s.Room? ==>
               && Chain(b', f, PageStart(n), s.pos) && s.pos < PageEnd(size, n)
               && HeaderFits(b', s.pos) && HasRoom(b', s.pos, len)
    requires s.AtEnd? || s.NoRoom? ==> Crowded(b', f, PageStart(n), PageEnd(size, n), len)
    requires s.AtEnd? ==> PageEnd(size, n) < PageStart(n + 1)
    ensures s.NoRoom? ==> Crowded(b, f, PageStart(n), PageEnd(size, n), len)
    ensures s.AtEnd? ==> FullFor(b, f, size, len)
    ensures s.Room? ==> !FullFor(b, f, size, len)
  {
    hide ChunkBase, Chain, HasRoom;
    if s.Room? {
      RoomInOld(b, b', f, PageStart(n), s.pos, PageEnd(size, n), len);
      assert !Crowded(b, f, PageStart(n), PageEnd(size, n), len);
    } else if !s.Taken? {
      hide Crowded;
      CrowdedFrame(b', b, f, PageStart(n), PageEnd(size, n), len);
      forall m: nat | s.AtEnd? && PageStart(m) < size
        ensures Crowded(b, f, PageStart(m), PageEnd(size, m), len)
      {
        assert m <= n;
      }
    }
  }

  lemma RoomInOld(b: seq<byte>, b': seq<byte>, f: Format, lo: nat, p: nat, hi: nat, len: nat)
    requires SameBytes(b, b', lo, hi) && Chain(b', f, lo, hi) && Chain(b', f, lo, p) && p < hi
    requires HeaderFits(b', p) && HasRoom(b', p, len)
    ensures lo <= p && Chain(b, f, lo, p) && HeaderFits(b, p) && HasRoom(b, p, len)
  {
    hide ChunkBase, DirRecLen, NameAt;
    ChainCut(b', f, lo, p, hi);
    ChainHead(b', f, p, hi);
    ChainFrame(b', b, f, lo, p);
    FieldsFrame(b', b, p, hi);
  }

  lemma RoomIsRun(b: seq<byte>, f: Format, size: nat, n: nat, p: nat)
    requires size <= |b| && PageOk(b, f, size, n) && p < PageEnd(size, n)
    requires Chain(b, f, PageStart(n), p) && Chain(b, f, p, PageEnd(size, n))
    ensures Run(b, f, size, n, p, p) && HeaderFits(b, p)
  {
    assert Chain(b, f, p, p);
  }

  lemma EndOfGoodPage(b: seq<byte>, f: Format, size: nat, n: nat)
    requires FormatOk(f) && PageOk(b, f, size, n) && PageStart(n) <= size < PageStart(n + 1) <= |b|
    ensures ChunkBase(size, f.chunk) == size && size + f.chunk <= PageStart(n + 1)
  {
    hide ChunkBase, Chain;
    ChunkFits(size, f.chunk, n);
  }

  /** The blank chunk is one acceptable dead record, whatever its stale `name_len`. */
  lemma BlankIsRecord(b: seq<byte>, f: Format, p: nat)
    requires FormatOk(f) && ChunkBase(p, f.chunk) == p && p + f.chunk <= |b|
    requires RecLenAt(b, p) == f.chunk && InodeAt(b, p) == 0
    ensures RecordOk(b, f, p) && forall n: nat :: n <= NAME_LEN_MAX ==> Fits(b, p, n)
  {
    hide InodeAt, RecLenAt, ChunkBase;
  }

  lemma EntriesBeforeEnd(b: seq<byte>, f: Format, size: nat)
    ensures forall e :: e in Entries(b, f, size) ==> e.pos < size
  {
    hide PageOk, PageLive, Entries;
    forall e | e in Entries(b, f, size)
      ensures e.pos < size
    {
      var n := PageOfEntry(b, f, size, e);
    }
  }

  lemma RoomIsRecord(b: seq<byte>, f: Format, size: nat, n: nat, p: nat)
    requires Run(b, f, size, n, p, p) && p < PageEnd(size, n)
    ensures RecordOk(b, f, p) && p + RecLenAt(b, p) <= |b| && PageOk(b, f, size, n)
    ensures p + 8 + NameLenAt(b, p) <= |b|
    ensures InodeAt(b, p) != 0 ==> EntryAt(b, p) in Entries(b, f, size)
  {
    hide InodeAt, RecLenAt, NameLenAt, ChunkBase;
    Splice(b, b, f, PageStart(n), p, p, PageEnd(size, n));
    RecordIsRun(b, f, size, n, p);
    if InodeAt(b, p) != 0 {
      StartIsLive(b, f, PageStart(n), p, PageEnd(size, n));
      EntryInItsPage(b, f, size, n, EntryAt(b, p));
    }
  }

  /** Every page has been searched. */
  lemma NothingFound(b: seq<byte>, f: Format, size: nat, name: Name, npages: nat)
    requires size <= PageStart(npages)
    requires forall m :: 0 <= m < npages ==> PageOk(b, f, size, m) && NoneNamed(PageLive(b, f, size, m), name)
    ensures AllPagesOk(b, f, size) && NoneNamed(Entries(b, f, size), name)
  {
    hide PageOk, Chain, Live, PageLive;
    forall e | e in Entries(b, f, size)
      ensures e.name != name
    {
      var m := PageOfEntry(b, f, size, e);
    }
  }
}
