/** The bytes of a directory file and the fields of the records laid in them.

  An `ext2_dirent` at offset `o` is: inode (4 bytes, little endian), rec_len (2 bytes), name_len (1 byte),
  file_type (1 byte), then the name.  Fields are read and written in place, so a header that has been merged into
  its predecessor keeps its bytes: whether an offset is a record start is a fact about the chain of `rec_len`
  fields, never about the bytes at that offset alone.
  */
module DirImage {
  import opened Bytes

  type Name = seq<byte>

  const PAGE_SIZE: nat := 4096
  const NAME_LEN_MAX: nat := 255

  /** The block sizes the filesystem supports; a directory chunk is one block. */
  predicate ChunkSize(c: nat) { c == 1024 || c == 2048 || c == 4096 }

  /** `EXT2_DIR_REC_LEN`: eight bytes of header and the name, rounded up to a multiple of four. */
  function DirRecLen(nameLen: nat): (r: nat)
    ensures r % 4 == 0 && nameLen + 8 <= r < nameLen + 12
  {
    (nameLen + 11) / 4 * 4
  }

  /** `o & ~(c - 1)` for a power of two `c`: the start of the chunk that `o` lies in. */
  function ChunkBase(o: nat, c: nat): (r: nat)
    requires c > 0
    ensures r <= o < r + c
    ensures c % 4 == 0 ==> r % 4 == 0
    decreases o
  {
    if o < c then 0 else c + ChunkBase(o - c, c)
  }

  /** The offsets of one chunk share its base. */
  lemma {:induction false} SameChunk(o: nat, p: nat, c: nat)
    requires c > 0 && ChunkBase(o, c) <= p < ChunkBase(o, c) + c
    ensures ChunkBase(p, c) == ChunkBase(o, c)
    decreases o
  {
    if o >= c {
      SameChunk(o - c, p - c, c);
    }
  }

  /** No chunk boundary lies strictly inside a chunk. */
  lemma {:induction false} BoundaryAbove(o: nat, k: nat, c: nat)
    requires c > 0 && o < k && ChunkBase(k, c) == k
    ensures ChunkBase(o, c) + c <= k
    decreases o
  {
    if o >= c {
      BoundaryAbove(o - c, k - c, c);
    }
  }

  lemma {:induction false} NextBoundary(k: nat, c: nat)
    requires c > 0 && ChunkBase(k, c) == k
    ensures ChunkBase(k + c, c) == k + c
  {
  }

  /** Pages hold whole chunks. */
  lemma {:induction false} PageIsBoundary(n: nat, c: nat)
    requires ChunkSize(c)
    ensures ChunkBase(n * PAGE_SIZE, c) == n * PAGE_SIZE
  {
    if n > 0 {
      PageIsBoundary(n - 1, c);
      var o := (n - 1) * PAGE_SIZE;
      NextBoundary(o, c);
      if c < 4096 {
        NextBoundary(o + c, c);
        if c < 2048 {
          NextBoundary(o + 2 * c, c);
          NextBoundary(o + 3 * c, c);
        }
      }
    }
  }

  predicate HeaderFits(b: seq<byte>, o: nat) { o + 8 <= |b| }

  function InodeAt(b: seq<byte>, o: nat): nat
    requires HeaderFits(b, o)
  {
    b[o] as int + 0x100 * (b[o + 1] as int) + 0x1_0000 * (b[o + 2] as int) + 0x100_0000 * (b[o + 3] as int)
  }

  function RecLenAt(b: seq<byte>, o: nat): nat
    requires HeaderFits(b, o)
  {
    b[o + 4] as int + 0x100 * (b[o + 5] as int)
  }

  function NameLenAt(b: seq<byte>, o: nat): nat
    requires HeaderFits(b, o)
  {
    b[o + 6]
  }

  function NameAt(b: seq<byte>, o: nat): Name
    requires HeaderFits(b, o) && o + 8 + NameLenAt(b, o) <= |b|
  {
    b[o + 8..o + 8 + NameLenAt(b, o)]
  }

  /** `b` and `b'` have the same bytes in `[lo, hi)`. */
  ghost predicate SameBytes(b: seq<byte>, b': seq<byte>, lo: nat, hi: nat)
  {
    hi <= |b| && hi <= |b'| && forall i :: lo <= i < hi ==> b[i] == b'[i]
  }

  /** Only bytes in `[lo, hi)` may differ. */
  ghost predicate ChangedWithin(b: seq<byte>, b': seq<byte>, lo: nat, hi: nat)
  {
    |b| == |b'| && forall i :: 0 <= i < |b| && !(lo <= i < hi) ==> b[i] == b'[i]
  }

  lemma BaseDigits(v: nat)
    requires v < 0x1_0000_0000
    ensures var v1 := v / 0x100; var v2 := v1 / 0x100; var v3 := v2 / 0x100;
            v3 < 0x100 && v == v % 0x100 + 0x100 * (v1 % 0x100) + 0x1_0000 * (v2 % 0x100) + 0x100_0000 * v3
  {
    var v1 := v / 0x100;
    var v2 := v1 / 0x100;
    assert v == 0x100 * v1 + v % 0x100;
    assert v1 == 0x100 * v2 + v1 % 0x100;
  }

  function SetInode(b: seq<byte>, o: nat, v: nat): (r: seq<byte>)
    requires HeaderFits(b, o) && v < 0x1_0000_0000
    ensures ChangedWithin(b, r, o, o + 4)
    ensures InodeAt(r, o) == v
  {
    BaseDigits(v);
    var v1 := v / 0x100;
    var v2 := v1 / 0x100;
    b[o := v % 0x100][o + 1 := v1 % 0x100][o + 2 := v2 % 0x100][o + 3 := v2 / 0x100]
  }

  function SetRecLen(b: seq<byte>, o: nat, v: nat): (r: seq<byte>)
    requires HeaderFits(b, o) && v < 0x1_0000
    ensures ChangedWithin(b, r, o + 4, o + 6)
    ensures RecLenAt(r, o) == v
  {
    b[o + 4 := v % 0x100][o + 5 := v / 0x100]
  }

  /** `memcpy` of `s` to offset `o`. */
  function Copy(b: seq<byte>, o: nat, s: seq<byte>): (r: seq<byte>)
    requires o + |s| <= |b|
    ensures ChangedWithin(b, r, o, o + |s|)
    ensures r[o..o + |s|] == s
  {
    b[..o] + s + b[o + |s|..]
  }

  /** `memset(..., 0, n)`. */
  function Zeros(n: nat): (r: seq<byte>)
    ensures |r| == n && forall i :: 0 <= i < n ==> r[i] == 0
  {
    seq(n, _ => 0)
  }
}
