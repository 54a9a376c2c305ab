/** The chain of records in a stretch of directory bytes, and what the in-place edits do to it. */
module DirChain {
  import opened Bytes
  import opened DirImage

  /** `chunk` is the block size; `maxIno` is `s_inodes_count`. */
  datatype Format = Format(chunk: nat, maxIno: nat)

  predicate FormatOk(f: Format) { ChunkSize(f.chunk) && f.maxIno < 0x1_0000_0000 }

  /** A live record: where it starts, its name and its inode number. */
  datatype Entry = Entry(pos: nat, name: Name, ino: nat)

  /** What `ext2_check_page` demands of the record at `o`. */
  predicate RecordOk(b: seq<byte>, f: Format, o: nat)
  {
    && f.chunk > 0 && HeaderFits(b, o)
    && RecLenAt(b, o) >= DirRecLen(1)
    && RecLenAt(b, o) % 4 == 0
    && RecLenAt(b, o) >= DirRecLen(NameLenAt(b, o))
    && o + RecLenAt(b, o) <= ChunkBase(o, f.chunk) + f.chunk
    && InodeAt(b, o) <= f.maxIno
  }

  /** Following `rec_len` from `lo` passes only acceptable records and arrives exactly at `hi`. */
  ghost predicate Chain(b: seq<byte>, f: Format, lo: nat, hi: nat)
    decreases hi - lo
  {
    && lo <= hi <= |b|
    && (lo < hi ==> RecordOk(b, f, lo) && Chain(b, f, lo + RecLenAt(b, lo), hi))
  }

  lemma ChainHead(b: seq<byte>, f: Format, lo: nat, hi: nat)
    requires Chain(b, f, lo, hi) && lo < hi
    ensures RecordOk(b, f, lo) && lo + RecLenAt(b, lo) <= hi && lo + 8 + NameLenAt(b, lo) <= hi
    ensures Chain(b, f, lo + RecLenAt(b, lo), hi)
  {
  }

  function EntryAt(b: seq<byte>, o: nat): Entry
    requires HeaderFits(b, o) && o + 8 + NameLenAt(b, o) <= |b|
  {
    Entry(o, NameAt(b, o), InodeAt(b, o))
  }

  /** The live records of the chain from `lo` to `hi`. */
  ghost function Live(b: seq<byte>, f: Format, lo: nat, hi: nat): set<Entry>
    requires Chain(b, f, lo, hi)
    decreases hi - lo
  {
    if lo == hi then {}
    else
      var next := lo + RecLenAt(b, lo);
      assert Chain(b, f, next, hi);
      (if InodeAt(b, lo) != 0 then {EntryAt(b, lo)} else {}) + Live(b, f, next, hi)
  }

  // ----- The chain as a tiling

  /** A declarative reading: consecutive cut points, each one `rec_len` after the one before. */
  ghost predicate Tiling(b: seq<byte>, f: Format, cuts: seq<nat>, lo: nat, hi: nat)
  {
    && hi <= |b|
    && |cuts| > 0 && cuts[0] == lo && cuts[|cuts| - 1] == hi
    && forall i :: 0 <= i < |cuts| - 1 ==> RecordOk(b, f, cuts[i]) && cuts[i + 1] == cuts[i] + RecLenAt(b, cuts[i])
  }

  lemma {:induction false} TilingIsChain(b: seq<byte>, f: Format, cuts: seq<nat>, lo: nat, hi: nat)
    requires Tiling(b, f, cuts, lo, hi)
    ensures Chain(b, f, lo, hi)
    decreases |cuts|
  {
    hide InodeAt, RecLenAt, NameLenAt, NameAt;
    if |cuts| > 1 {
      var rest := cuts[1..];
      assert cuts[1] == cuts[0] + RecLenAt(b, cuts[0]);
      forall i | 0 <= i < |rest| - 1
        ensures RecordOk(b, f, rest[i]) && rest[i + 1] == rest[i] + RecLenAt(b, rest[i])
      {
        assert rest[i] == cuts[i + 1] && rest[i + 1] == cuts[i + 1 + 1];
      }
      TilingIsChain(b, f, rest, cuts[1], hi);
    }
  }

  lemma {:induction false} ChainIsTiling(b: seq<byte>, f: Format, lo: nat, hi: nat) returns (cuts: seq<nat>)
    requires Chain(b, f, lo, hi)
    ensures Tiling(b, f, cuts, lo, hi)
    decreases hi - lo
  {
    hide InodeAt, RecLenAt, NameLenAt, NameAt;
    if lo == hi {
      cuts := [lo];
    } else {
      var rest := ChainIsTiling(b, f, lo + RecLenAt(b, lo), hi);
      cuts := [lo] + rest;
    }
  }

  // ----- Composition, cutting and framing

  lemma {:induction false} ChainAppend(b: seq<byte>, f: Format, lo: nat, mid: nat, hi: nat)
    requires Chain(b, f, lo, mid) && Chain(b, f, mid, hi)
    ensures Chain(b, f, lo, hi)
    ensures Live(b, f, lo, hi) == Live(b, f, lo, mid) + Live(b, f, mid, hi)
    decreases mid - lo
  {
    hide InodeAt, RecLenAt, NameLenAt, NameAt;
    if lo < mid {
      ChainAppend(b, f, lo + RecLenAt(b, lo), mid, hi);
    }
  }

  lemma {:induction false} ChainCut(b: seq<byte>, f: Format, lo: nat, mid: nat, hi: nat)
    requires Chain(b, f, lo, mid) && Chain(b, f, lo, hi) && mid <= hi
    ensures Chain(b, f, mid, hi)
    ensures Live(b, f, lo, hi) == Live(b, f, lo, mid) + Live(b, f, mid, hi)
    decreases mid - lo
  {
    hide InodeAt, RecLenAt, NameLenAt, NameAt;
    if lo < mid {
      ChainCut(b, f, lo + RecLenAt(b, lo), mid, hi);
    }
  }

  lemma FieldsFrame(b: seq<byte>, b': seq<byte>, o: nat, hi: nat)
    requires HeaderFits(b, o) && o + 8 + NameLenAt(b, o) <= hi && SameBytes(b, b', o, hi)
    ensures HeaderFits(b', o) && NameLenAt(b', o) == NameLenAt(b, o)
    ensures RecLenAt(b', o) == RecLenAt(b, o) && InodeAt(b', o) == InodeAt(b, o)
    ensures NameAt(b', o) == NameAt(b, o) && EntryAt(b', o) == EntryAt(b, o)
  {
  }

  lemma {:induction false} ChainFrame(b: seq<byte>, b': seq<byte>, f: Format, lo: nat, hi: nat)
    requires Chain(b, f, lo, hi) && SameBytes(b, b', lo, hi)
    ensures Chain(b', f, lo, hi)
    ensures Live(b', f, lo, hi) == Live(b, f, lo, hi)
    decreases hi - lo
  {
    hide InodeAt, RecLenAt, NameLenAt, NameAt;
    if lo < hi {
      var next := lo + RecLenAt(b, lo);
      ChainHead(b, f, lo, hi);
      FieldsFrame(b, b', lo, hi);
      assert RecordOk(b', f, lo);
      ChainFrame(b, b', f, next, hi);
    }
  }

  /** Two record starts on one chain are a whole record apart. */
  lemma NoStartInside(b: seq<byte>, f: Format, lo: nat, p: nat, q: nat)
    requires Chain(b, f, lo, p) && Chain(b, f, lo, q) && p < q
    ensures RecordOk(b, f, p) && p + RecLenAt(b, p) <= q
  {
    hide InodeAt, RecLenAt, NameLenAt, NameAt;
    ChainCut(b, f, lo, p, q);
  }

  /** Every chunk boundary inside a chain is a record start, since no record crosses one. */
  lemma {:induction false} BoundaryIsStart(b: seq<byte>, f: Format, lo: nat, k: nat, hi: nat)
    requires f.chunk > 0 && ChunkBase(k, f.chunk) == k && Chain(b, f, lo, hi) && lo <= k <= hi
    ensures Chain(b, f, lo, k)
    decreases hi - lo
  {
    hide InodeAt, RecLenAt, NameLenAt, NameAt;
    if lo < k {
      BoundaryAbove(lo, k, f.chunk);
      BoundaryIsStart(b, f, lo + RecLenAt(b, lo), k, hi);
    }
  }

  // ----- Live entries and record starts

  lemma {:induction false} LiveIsStart(b: seq<byte>, f: Format, lo: nat, hi: nat, e: Entry)
    requires Chain(b, f, lo, hi) && e in Live(b, f, lo, hi)
    ensures lo <= e.pos < hi && Chain(b, f, lo, e.pos) && Chain(b, f, e.pos, hi)
    ensures HeaderFits(b, e.pos) && e.pos + 8 + NameLenAt(b, e.pos) <= hi
    ensures e == EntryAt(b, e.pos) && 0 < e.ino <= f.maxIno
    decreases hi - lo
  {
    hide InodeAt, RecLenAt, NameLenAt, NameAt;
    var next := lo + RecLenAt(b, lo);
    if InodeAt(b, lo) != 0 && e == EntryAt(b, lo) {
    } else {
      LiveIsStart(b, f, next, hi, e);
    }
  }

  lemma StartIsLive(b: seq<byte>, f: Format, lo: nat, p: nat, hi: nat)
    requires Chain(b, f, lo, p) && Chain(b, f, p, hi) && p < hi && InodeAt(b, p) != 0
    ensures Chain(b, f, lo, hi) && p + 8 + NameLenAt(b, p) <= hi
    ensures EntryAt(b, p) in Live(b, f, lo, hi)
  {
    hide InodeAt, RecLenAt, NameLenAt, NameAt;
    ChainAppend(b, f, lo, p, hi);
  }

  lemma LiveAtOnePlace(b: seq<byte>, f: Format, lo: nat, hi: nat)
    requires Chain(b, f, lo, hi)
    ensures forall e, e' :: e in Live(b, f, lo, hi) && e' in Live(b, f, lo, hi) && e.pos == e'.pos ==> e == e'
    ensures forall e :: e in Live(b, f, lo, hi) ==> lo <= e.pos < hi
  {
    hide InodeAt, RecLenAt, NameLenAt, NameAt;
    forall e | e in Live(b, f, lo, hi)
      ensures lo <= e.pos < hi && e.pos + 8 <= |b| && e.pos + 8 + NameLenAt(b, e.pos) <= |b| && e == EntryAt(b, e.pos)
    {
      LiveIsStart(b, f, lo, hi, e);
    }
  }

  // ----- Edits of one stretch between two record starts

  /** Rewriting `[p, r)`, itself a run of records, leaves the rest of the chain as it was. */
  lemma Splice(b: seq<byte>, b': seq<byte>, f: Format, lo: nat, p: nat, r: nat, hi: nat)
    requires Chain(b, f, lo, p) && Chain(b, f, p, r) && Chain(b, f, r, hi)
    requires ChangedWithin(b, b', p, r) && Chain(b', f, p, r)
    ensures Chain(b, f, lo, hi) && Chain(b', f, lo, hi)
    ensures Live(b, f, lo, hi) == Live(b, f, lo, p) + Live(b, f, p, r) + Live(b, f, r, hi)
    ensures Live(b', f, lo, hi) == Live(b, f, lo, p) + Live(b', f, p, r) + Live(b, f, r, hi)
    ensures forall e :: e in Live(b, f, lo, p) + Live(b, f, r, hi) ==> !(p <= e.pos < r)
  {
    hide InodeAt, RecLenAt, NameLenAt, NameAt;
    ChainFrame(b, b', f, lo, p);
    ChainFrame(b, b', f, r, hi);
    ChainAppend(b, f, lo, p, r);
    ChainAppend(b, f, lo, r, hi);
    ChainAppend(b', f, lo, p, r);
    ChainAppend(b', f, lo, r, hi);
    LiveAtOnePlace(b, f, lo, p);
    LiveAtOnePlace(b, f, r, hi);
  }

  /** A stretch that is a single record. */
  lemma OneRecord(b: seq<byte>, f: Format, p: nat, end: nat)
    requires RecordOk(b, f, p) && p + RecLenAt(b, p) == end <= |b|
    ensures Chain(b, f, p, end)
    ensures Live(b, f, p, end) == if InodeAt(b, p) != 0 then {EntryAt(b, p)} else {}
  {
    hide InodeAt, RecLenAt, NameLenAt, NameAt;
    assert Chain(b, f, end, end);
  }

  /** A stretch that is two records. */
  lemma TwoRecords(b: seq<byte>, f: Format, p: nat, q: nat, end: nat)
    requires RecordOk(b, f, p) && RecordOk(b, f, q) && p + RecLenAt(b, p) == q && q + RecLenAt(b, q) == end <= |b|
    requires InodeAt(b, p) != 0 && InodeAt(b, q) != 0
    ensures Chain(b, f, p, end) && Live(b, f, p, end) == {EntryAt(b, p), EntryAt(b, q)}
  {
    hide InodeAt, RecLenAt, NameLenAt, NameAt;
    OneRecord(b, f, q, end);
  }

  /** A record can hold its own header and `n` bytes of name. */
  predicate Fits(b: seq<byte>, p: nat, n: nat)
  {
    HeaderFits(b, p) && p + RecLenAt(b, p) <= |b| && RecLenAt(b, p) >= DirRecLen(n)
  }

  /** `r` is `b` with the record at `p` given a new name and inode number; its length stays. */
  ghost predicate FillOf(b: seq<byte>, r: seq<byte>, p: nat, name: Name, ino: nat)
    requires Fits(b, p, |name|)
  {
    && ChangedWithin(b, r, p, p + RecLenAt(b, p))
    && RecLenAt(r, p) == RecLenAt(b, p) && NameLenAt(r, p) == |name|
    && EntryAt(r, p) == Entry(p, name, ino)
  }

  /** dir.c:454-457. */
  method FillRecord(b: seq<byte>, p: nat, name: Name, ino: nat) returns (r: seq<byte>)
    requires 1 <= |name| <= NAME_LEN_MAX && ino < 0x1_0000_0000 && Fits(b, p, |name|)
    ensures FillOf(b, r, p, name, ino)
  {
    r := b[p + 6 := |name|];
    r := Copy(r, p + 8, name);
    r := SetInode(r, p, ino);
    r := r[p + 7 := 0];
    assert NameLenAt(r, p) == |name|;
    assert NameAt(r, p) == name;
  }

  lemma FillChain(b: seq<byte>, r: seq<byte>, f: Format, p: nat, name: Name, ino: nat)
    requires RecordOk(b, f, p) && Fits(b, p, |name|) && 0 < ino <= f.maxIno
    requires FillOf(b, r, p, name, ino)
    ensures Chain(r, f, p, p + RecLenAt(b, p)) && Live(r, f, p, p + RecLenAt(b, p)) == {Entry(p, name, ino)}
  {
    hide InodeAt, RecLenAt, NameLenAt, NameAt;
    OneRecord(r, f, p, p + RecLenAt(b, p));
  }

  /** The record at `p` has room for its own name and for a new record behind it. */
  predicate Splittable(b: seq<byte>, p: nat, n: nat)
  {
    && HeaderFits(b, p) && p + RecLenAt(b, p) <= |b|
    && RecLenAt(b, p) >= DirRecLen(NameLenAt(b, p)) + DirRecLen(n)
  }

  function Rest(b: seq<byte>, p: nat): nat
    requires HeaderFits(b, p)
  {
    p + DirRecLen(NameLenAt(b, p))
  }

  /** `r` is `b` with the record at `p` cut to its own size and a new record in its slack. */
  ghost predicate SplitOf(b: seq<byte>, r: seq<byte>, p: nat, name: Name, ino: nat)
    requires Splittable(b, p, |name|)
  {
    var q := Rest(b, p);
    && ChangedWithin(b, r, p, p + RecLenAt(b, p))
    && NameLenAt(r, p) == NameLenAt(b, p) && EntryAt(r, p) == EntryAt(b, p) && p + RecLenAt(r, p) == q
    && NameLenAt(r, q) == |name| && EntryAt(r, q) == Entry(q, name, ino) && q + RecLenAt(r, q) == p + RecLenAt(b, p)
  }

  /** dir.c:449-457. */
  method SplitRecord(b: seq<byte>, p: nat, name: Name, ino: nat) returns (r: seq<byte>)
    requires 1 <= |name| <= NAME_LEN_MAX && ino < 0x1_0000_0000 && Splittable(b, p, |name|)
    ensures SplitOf(b, r, p, name, ino)
  {
    var q, end := Rest(b, p), p + RecLenAt(b, p);
    var b1 := SetRecLen(b, q, end - q);
    FieldsFrame(b, b1, p, q);
    var b2 := SetRecLen(b1, p, q - p);
    r := FillRecord(b2, q, name, ino);
    FieldsFrame(b2, r, p, q);
  }

  /** The split keeps the chain if and only if the record that is split has a name: splitting a live record whose
      name is empty writes a `rec_len` of eight, which `ext2_check_page` refuses. */
  lemma SplitChain(b: seq<byte>, r: seq<byte>, f: Format, p: nat, name: Name, ino: nat)
    requires RecordOk(b, f, p) && InodeAt(b, p) != 0 && Splittable(b, p, |name|)
    requires 1 <= |name| && 0 < ino <= f.maxIno && SplitOf(b, r, p, name, ino)
    ensures Chain(r, f, p, p + RecLenAt(b, p)) <==> NameLenAt(b, p) >= 1
    ensures NameLenAt(b, p) >= 1 ==>
              Live(r, f, p, p + RecLenAt(b, p)) == {EntryAt(b, p), Entry(Rest(b, p), name, ino)}
  {
    hide InodeAt, RecLenAt, NameAt, ChunkBase, NameLenAt;
    if NameLenAt(b, p) >= 1 {
      var q := Rest(b, p);
      SameChunk(p, q, f.chunk);
      assert RecLenAt(r, q) % 4 == 0;
      assert RecordOk(r, f, q);
      assert RecordOk(r, f, p);
      TwoRecords(r, f, p, Rest(b, p), p + RecLenAt(b, p));
    }
  }

  /** A page that `ext2_check_page` accepts and that no longer passes after one `ext2_add_link`: its first chunk is
      one live record with an empty name. */
  lemma SplitOfEmptyNameBreaksChain() returns (b: seq<byte>, f: Format)
    ensures FormatOk(f) && Chain(b, f, 0, 1024) && InodeAt(b, 0) != 0 && Splittable(b, 0, 1)
    ensures forall r :: SplitOf(b, r, 0, [97], 5) ==> !Chain(r, f, 0, 1024)
  {
    f := Format(1024, 64);
    b := SetInode(SetRecLen(Zeros(4096), 0, 1024), 0, 7);
    OneRecord(b, f, 0, 1024);
    forall r | SplitOf(b, r, 0, [97], 5)
      ensures !Chain(r, f, 0, 1024)
    {
      SplitChain(b, r, f, 0, [97], 5);
    }
  }

  /** dir.c:416-417 at the end of the directory: one dead record as long as a chunk. */
  function BlankChunk(b: seq<byte>, p: nat, chunk: nat): (r: seq<byte>)
    requires HeaderFits(b, p) && chunk < 0x1_0000
    ensures ChangedWithin(b, r, p, p + 6)
    ensures RecLenAt(r, p) == chunk && InodeAt(r, p) == 0 && NameLenAt(r, p) == NameLenAt(b, p)
  {
    SetInode(SetRecLen(b, p, chunk), p, 0)
  }

  /** `r` is `b` with the record at `p` swallowed by its predecessor `q`. */
  ghost predicate MergeOf(b: seq<byte>, r: seq<byte>, q: nat, p: nat)
    requires HeaderFits(b, q) && HeaderFits(b, p) && q + 8 + NameLenAt(b, q) <= p
  {
    && ChangedWithin(b, r, q, p + RecLenAt(b, p))
    && NameLenAt(r, q) == NameLenAt(b, q) && EntryAt(r, q) == EntryAt(b, q)
    && q + RecLenAt(r, q) == p + RecLenAt(b, p)
  }

  /** dir.c:500-502 with a predecessor. */
  method MergeRecord(b: seq<byte>, q: nat, p: nat) returns (r: seq<byte>)
    requires HeaderFits(b, q) && HeaderFits(b, p) && q + 8 + NameLenAt(b, q) <= p
    requires p + 8 <= p + RecLenAt(b, p) < q + 0x1_0000
    ensures MergeOf(b, r, q, p)
  {
    var b1 := SetRecLen(b, q, p + RecLenAt(b, p) - q);
    r := SetInode(b1, p, 0);
    assert NameAt(b1, q) == NameAt(b, q);
    FieldsFrame(b1, r, q, p);
  }

  lemma SumOfFours(x: nat, y: nat)
    requires x % 4 == 0 && y % 4 == 0
    ensures (x + y) % 4 == 0
  {
  }

  lemma MergeChain(b: seq<byte>, r: seq<byte>, f: Format, q: nat, p: nat)
    requires RecordOk(b, f, q) && RecordOk(b, f, p) && q + RecLenAt(b, q) == p
    requires p + RecLenAt(b, p) <= |b| && ChunkBase(p, f.chunk) <= q && MergeOf(b, r, q, p)
    ensures Chain(r, f, q, p + RecLenAt(b, p))
    ensures Live(r, f, q, p + RecLenAt(b, p)) == if InodeAt(b, q) != 0 then {EntryAt(b, q)} else {}
  {
    hide InodeAt, RecLenAt, NameAt, ChunkBase, NameLenAt;
    SameChunk(p, q, f.chunk);
    assert RecLenAt(r, q) == RecLenAt(b, q) + RecLenAt(b, p);
    SumOfFours(RecLenAt(b, q), RecLenAt(b, p));
    OneRecord(r, f, q, p + RecLenAt(b, p));
  }

  /** `r` is `b` with the inode number of the record at `p` overwritten. */
  ghost predicate RelinkOf(b: seq<byte>, r: seq<byte>, p: nat, ino: nat)
    requires HeaderFits(b, p) && p + 8 + NameLenAt(b, p) <= |b|
  {
    && ChangedWithin(b, r, p, p + 8) && NameLenAt(r, p) == NameLenAt(b, p)
    && RecLenAt(r, p) == RecLenAt(b, p) && EntryAt(r, p) == EntryAt(b, p).(ino := ino)
  }

  /** dir.c:366-367. */
  method RelinkRecord(b: seq<byte>, p: nat, ino: nat) returns (r: seq<byte>)
    requires HeaderFits(b, p) && p + 8 + NameLenAt(b, p) <= |b| && ino < 0x1_0000_0000
    ensures RelinkOf(b, r, p, ino)
  {
    r := SetInode(b, p, ino);
    r := r[p + 7 := 0];
    assert NameAt(r, p) == NameAt(b, p);
  }

  /** dir.c:502 without a predecessor. */
  method ClearRecord(b: seq<byte>, p: nat) returns (r: seq<byte>)
    requires HeaderFits(b, p) && p + 8 + NameLenAt(b, p) <= |b|
    ensures RelinkOf(b, r, p, 0)
  {
    r := SetInode(b, p, 0);
    assert NameAt(r, p) == NameAt(b, p);
  }

  lemma RelinkChain(b: seq<byte>, r: seq<byte>, f: Format, p: nat, ino: nat)
    requires RecordOk(b, f, p) && p + RecLenAt(b, p) <= |b| && ino <= f.maxIno && RelinkOf(b, r, p, ino)
    ensures Chain(r, f, p, p + RecLenAt(b, p))
    ensures Live(r, f, p, p + RecLenAt(b, p)) == if ino != 0 then {EntryAt(b, p).(ino := ino)} else {}
  {
    hide RecLenAt, NameLenAt, NameAt;
    OneRecord(r, f, p, p + RecLenAt(b, p));
  }
}
