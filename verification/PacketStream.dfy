/** XMesh packets as a stream of bytes: a one-byte automaton over the packet memory, and the encoding it inverts.

  A packet is a start byte, a type, two address bytes, the AM type, the AM group, the payload length PL, PL bytes of
  payload, two bytes of checksum and an end byte.  All but the first two and the last are stuffed.
  */
module PacketStream {
  import opened Bytes

  const MAX_PACKET_LEN: nat := 300

  /** What is known of a packet while it arrives: the packet memory with whatever an earlier packet left behind, how
      many bytes of this packet it holds, and the pending escape byte (zero if there is none). */
  datatype Partial = Partial(mem: seq<byte>, pos: nat, escape: byte)

  /** The length of the packet in `mem`, once its payload length is known. */
  function TotalLen(mem: seq<byte>): nat
    requires |mem| == MAX_PACKET_LEN
  {
    10 + (mem[6] as int)
  }

  predicate Complete(a: Partial)
    requires |a.mem| == MAX_PACKET_LEN
  {
    a.pos > 6 && a.pos == TotalLen(a.mem)
  }

  /** The byte at `pos` is not stuffed. */
  predicate Raw(mem: seq<byte>, pos: nat)
    requires |mem| == MAX_PACKET_LEN
  {
    pos < 2 || (pos > 6 && pos + 1 == TotalLen(mem))
  }

  /** A state of the automaton between two bytes. */
  predicate Sane(a: Partial)
  {
    && |a.mem| == MAX_PACKET_LEN && a.pos <= 265
    && (a.pos > 6 ==> a.pos <= TotalLen(a.mem))
    && (a.escape == 0 || a.escape == 0x7D || a.escape == 0x7E)
    && (a.escape != 0 ==> !Raw(a.mem, a.pos) && !Complete(a))
  }

  function Store(a: Partial, c: byte): Partial
    requires a.pos < |a.mem|
  {
    Partial(a.mem[a.pos := c], a.pos + 1, 0)
  }

  /** One byte of the stream. */
  function Feed(a: Partial, c: byte): (r: Partial)
    requires Sane(a) && !Complete(a)
    ensures Sane(r)
  {
    if Raw(a.mem, a.pos) then Store(a, c)
    else if a.escape == 0x7E then Store(a, c)
    else if a.escape == 0x7D then Store(a, Xor20(c))
    else if c == 0x7E || c == 0x7D then a.(escape := c)
    else Store(a, c)
  }

  /** The stream up to and including the byte that completes a packet, or all of it; and how much of it that is. */
  function Consume(a: Partial, s: seq<byte>): (r: (Partial, nat))
    requires Sane(a)
    ensures Sane(r.0) && r.1 <= |s|
    ensures !Complete(r.0) ==> r.1 == |s|
    decreases |s|
  {
    if s == [] || Complete(a) then (a, 0)
    else
      var (b, n) := Consume(Feed(a, s[0]), s[1..]);
      (b, n + 1)
  }

  lemma {:induction false} ConsumeAppend(a: Partial, s: seq<byte>, t: seq<byte>)
    requires Sane(a)
    ensures var (b, n) := Consume(a, s);
            Consume(a, s + t) == if Complete(b) then (b, n) else (Consume(b, t).0, |s| + Consume(b, t).1)
    decreases |s|
  {
    hide Feed, Complete;
    if s == [] || Complete(a) {
      assert [] + t == t;
    } else {
      assert (s + t)[1..] == s[1..] + t;
      ConsumeAppend(Feed(a, s[0]), s[1..], t);
    }
  }

  /** A buffer is consumed whole exactly when no shorter part of it completes a packet. */
  lemma ConsumedWhole(a: Partial, s: seq<byte>)
    requires Sane(a)
    ensures Consume(a, s).1 == |s| <==> forall k :: 0 <= k < |s| ==> !Complete(Consume(a, s[..k]).0)
  {
    hide Feed, Complete, Consume;
    var n := Consume(a, s).1;
    forall k | 0 <= k < |s|
      ensures Complete(Consume(a, s[..k]).0) ==> n <= k
    {
      assert s == s[..k] + s[k..];
      ConsumeAppend(a, s[..k], s[k..]);
    }
    if n < |s| {
      PrefixConsumed(a, s);
    }
  }

  lemma {:induction false} PrefixConsumed(a: Partial, s: seq<byte>)
    requires Sane(a)
    ensures Consume(a, s[..Consume(a, s).1]) == Consume(a, s)
    decreases |s|
  {
    hide Feed, Complete;
    if s != [] && !Complete(a) {
      var n := Consume(a, s).1;
      assert s[..n][0] == s[0] && s[..n][1..] == s[1..][..n - 1];
      PrefixConsumed(Feed(a, s[0]), s[1..]);
    }
  }

  // ----- Stuffing

  /** `e` is one of the ways to send the byte `c` in a stuffed field: as it is, behind 0x7D with bit five flipped, or
      behind 0x7E unchanged. */
  predicate Stuffs(e: seq<byte>, c: byte)
  {
    || (e == [c] && c != 0x7D && c != 0x7E)
    || e == [0x7D, Xor20(c)]
    || e == [0x7E, c]
  }

  /** A logical packet: its length agrees with its payload length. */
  predicate WellFormed(packet: seq<byte>) { |packet| >= 10 && |packet| == 10 + (packet[6] as int) }

  predicate RawAt(packet: seq<byte>, i: nat) { i < 2 || i + 1 == |packet| }

  /** `enc` sends `packet` byte by byte. */
  predicate Encodes(enc: seq<seq<byte>>, packet: seq<byte>)
  {
    && |enc| == |packet|
    && forall i :: 0 <= i < |packet| ==> if RawAt(packet, i) then enc[i] == [packet[i]] else Stuffs(enc[i], packet[i])
  }

  /** What is sent for each byte of a packet: the first two and the last as they are, any other as it is, unless it is
      0x7D or 0x7E, or behind 0x7D with bit five flipped, or behind 0x7E. */
  lemma EncodingBytes(enc: seq<seq<byte>>, packet: seq<byte>)
    ensures Encodes(enc, packet) <==>
              && |enc| == |packet|
              && forall i :: 0 <= i < |packet| ==>
                   || (enc[i] == [packet[i]]
                       && (i < 2 || i == |packet| - 1 || (packet[i] != 0x7D && packet[i] != 0x7E)))
                   || (2 <= i < |packet| - 1
                       && (enc[i] == [0x7D, Xor20(packet[i])] || enc[i] == [0x7E, packet[i]]))
  {
    hide Xor20;
  }

  function Flatten(enc: seq<seq<byte>>): seq<byte>
  {
    if enc == [] then [] else enc[0] + Flatten(enc[1..])
  }

  /** The memory with the first `n` bytes of the packet in it. */
  function Overlay(packet: seq<byte>, n: nat, mem: seq<byte>): (r: seq<byte>)
    requires n <= |packet| && n <= |mem|
    ensures |r| == |mem|
  {
    packet[..n] + mem[n..]
  }

  lemma ConsumeOne(a: Partial, c: byte)
    requires Sane(a) && !Complete(a)
    ensures Consume(a, [c]) == (Feed(a, c), 1)
  {
    assert [c][1..] == [];
  }

  lemma ConsumeTwo(a: Partial, c: byte, d: byte)
    requires Sane(a) && !Complete(a) && !Complete(Feed(a, c))
    ensures Consume(a, [c, d]) == (Feed(Feed(a, c), d), 2)
  {
    hide Feed, Complete;
    assert [c, d][1..] == [d];
    ConsumeOne(Feed(a, c), d);
  }

  /** The automaton's view of a packet that has arrived up to byte `n`. */
  function Arrived(packet: seq<byte>, n: nat, mem: seq<byte>): Partial
    requires n <= |packet| && n <= |mem|
  {
    Partial(Overlay(packet, n, mem), n, 0)
  }

  lemma ArrivedIsSane(packet: seq<byte>, n: nat, mem: seq<byte>)
    requires WellFormed(packet) && |mem| == MAX_PACKET_LEN && n <= |packet|
    ensures Sane(Arrived(packet, n, mem)) && (Complete(Arrived(packet, n, mem)) <==> n == |packet|)
    ensures n < |packet| ==> (Raw(Overlay(packet, n, mem), n) <==> RawAt(packet, n))
  {
    if n > 6 { assert Overlay(packet, n, mem)[6] == packet[6]; }
  }

  lemma NextArrived(packet: seq<byte>, n: nat, mem: seq<byte>)
    requires n < |packet| && n < |mem|
    ensures Store(Arrived(packet, n, mem), packet[n]) == Arrived(packet, n + 1, mem)
  {
    assert Overlay(packet, n, mem)[n := packet[n]] == Overlay(packet, n + 1, mem);
  }

  lemma FeedOne(packet: seq<byte>, n: nat, mem: seq<byte>, e: seq<byte>)
    requires WellFormed(packet) && |mem| == MAX_PACKET_LEN && n < |packet|
    requires if RawAt(packet, n) then e == [packet[n]] else Stuffs(e, packet[n])
    ensures Sane(Arrived(packet, n, mem))
    ensures Consume(Arrived(packet, n, mem), e) == (Arrived(packet, n + 1, mem), |e|)
  {
    hide Overlay, Xor20, RawAt, Raw, Complete, Consume;
    var a := Arrived(packet, n, mem);
    ArrivedIsSane(packet, n, mem);
    NextArrived(packet, n, mem);
    if |e| == 1 {
      ConsumeOne(a, packet[n]);
    } else {
      Xor20Undone(packet[n]);
      EscapeIncomplete(a, e[0]);
      ConsumeTwo(a, e[0], e[1]);
    }
  }

  lemma EscapeIncomplete(a: Partial, c: byte)
    requires Sane(a) && !Complete(a) && !Raw(a.mem, a.pos) && a.escape == 0 && (c == 0x7D || c == 0x7E)
    ensures Feed(a, c) == a.(escape := c) && !Complete(Feed(a, c))
  {
  }

  /** Sending the rest of a packet completes it, and not before its last byte. */
  lemma {:induction false} FeedRest(packet: seq<byte>, n: nat, mem: seq<byte>, enc: seq<seq<byte>>, rest: seq<byte>)
    requires WellFormed(packet) && |mem| == MAX_PACKET_LEN && n <= |packet| && Encodes(enc, packet)
    ensures Sane(Arrived(packet, n, mem))
    ensures Consume(Arrived(packet, n, mem), Flatten(enc[n..]) + rest)
            == (Arrived(packet, |packet|, mem), |Flatten(enc[n..])|)
    decreases |packet| - n
  {
    hide Arrived, Feed, Complete, Stuffs, WellFormed;
    ArrivedIsSane(packet, n, mem);
    if n < |packet| {
      FeedOne(packet, n, mem, enc[n]);
      FeedRest(packet, n + 1, mem, enc, rest);
      ArrivedIsSane(packet, n + 1, mem);
      assert enc[n..][1..] == enc[n + 1..];
      assert Flatten(enc[n..]) + rest == enc[n] + (Flatten(enc[n + 1..]) + rest);
      ConsumeAppend(Arrived(packet, n, mem), enc[n], Flatten(enc[n + 1..]) + rest);
      if n + 1 == |packet| { assert enc[n + 1..] == []; }
    }
  }

  /** Round trip: whatever the stuffing, and whatever an earlier packet left in the memory, the automaton recovers the
      packet, and it consumes exactly the bytes that were sent. */
  lemma RoundTrip(packet: seq<byte>, enc: seq<seq<byte>>, mem: seq<byte>, rest: seq<byte>)
    requires WellFormed(packet) && Encodes(enc, packet) && |mem| == MAX_PACKET_LEN
    ensures var a := Partial(packet + mem[|packet|..], |packet|, 0);
            Sane(a) && Complete(a) && Consume(Partial(mem, 0, 0), Flatten(enc) + rest) == (a, |Flatten(enc)|)
  {
    hide Consume, Complete, Flatten;
    FeedRest(packet, 0, mem, enc, rest);
    assert enc[0..] == enc && Overlay(packet, 0, mem) == mem;
    ArrivedIsSane(packet, |packet|, mem);
    assert packet[..|packet|] == packet;
  }

  /** Hence no stream is the encoding of two packets, nor does one encoding begin another. */
  lemma StuffingIsUnambiguous(p: seq<byte>, enc: seq<seq<byte>>, q: seq<byte>, enc': seq<seq<byte>>, rest: seq<byte>)
    requires WellFormed(p) && Encodes(enc, p) && WellFormed(q) && Encodes(enc', q)
    requires Flatten(enc) + rest == Flatten(enc')
    ensures p == q && rest == []
  {
    hide Consume, Complete, Flatten;
    var mem := seq(MAX_PACKET_LEN, i => 0);
    RoundTrip(p, enc, mem, rest);
    RoundTrip(q, enc', mem, []);
    assert Flatten(enc') + [] == Flatten(enc');
    assert (p + mem[|p|..])[..|p|] == p && (q + mem[|q|..])[..|q|] == q;
  }
}
