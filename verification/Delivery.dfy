/** What the parser does with whole streams: cutting, round trip and delivery. */
module Delivery {
  import opened Bytes
  import opened PacketStream
  import opened Protocol

  // ----- A stream, byte by byte

  function OneByte(l: Line, c: byte): (r: Line)
    requires LineOk(l)
    ensures LineOk(r)
  {
    Delivered(l.(a := Feed(l.a, c)))
  }

  /** The reference: every byte counts, and a packet is delivered as soon as its last byte is there. */
  function Stream(l: Line, s: seq<byte>): (r: Line)
    requires LineOk(l)
    ensures LineOk(r)
    decreases |s|
  {
    if s == [] then l else Stream(OneByte(l, s[0]), s[1..])
  }

  lemma {:induction false} StreamAppend(l: Line, s: seq<byte>, t: seq<byte>)
    requires LineOk(l)
    ensures Stream(l, s + t) == Stream(Stream(l, s), t)
    decreases |s|
  {
    hide OneByte, LineOk;
    if s == [] {
      assert [] + t == t;
    } else {
      assert (s + t)[1..] == s[1..] + t;
      StreamAppend(OneByte(l, s[0]), s[1..], t);
    }
  }

  /** One call is the stream of the part of the buffer it hears. */
  lemma {:induction false} ReceiveIsStream(l: Line, buf: seq<byte>)
    requires LineOk(l)
    ensures Receive(l, buf) == Stream(l, buf[..Consume(l.a, buf).1])
    decreases |buf|
  {
    hide Feed, Complete, Deliver;
    if buf != [] {
      var b, n := Feed(l.a, buf[0]), Consume(l.a, buf).1;
      assert buf[..n][0] == buf[0] && buf[..n][1..] == buf[1..][..n - 1];
      if Complete(b) {
        assert buf[1..][..0] == [];
      } else {
        ReceiveIsStream(l.(a := b), buf[1..]);
      }
    }
  }

  // ----- A stream cut into buffers

  function ReceiveAll(l: Line, bufs: seq<seq<byte>>): Line
    requires LineOk(l)
    decreases |bufs|
  {
    if bufs == [] then l else ReceiveAll(Receive(l, bufs[0]), bufs[1..])
  }

  /** The buffers without what follows a packet's end in them. */
  function Heard(l: Line, bufs: seq<seq<byte>>): seq<seq<byte>>
    requires LineOk(l)
    decreases |bufs|
  {
    if bufs == [] then [] else [bufs[0][..Consume(l.a, bufs[0]).1]] + Heard(Receive(l, bufs[0]), bufs[1..])
  }

  /** Whatever the buffers, the calls amount to the stream of what is heard of them. */
  lemma {:induction false} ReceiveAllIsStream(l: Line, bufs: seq<seq<byte>>)
    requires LineOk(l)
    ensures ReceiveAll(l, bufs) == Stream(l, Flatten(Heard(l, bufs)))
    decreases |bufs|
  {
    hide Feed, Complete, Receive, Consume, Raw;
    if bufs != [] {
      var heard, next := bufs[0][..Consume(l.a, bufs[0]).1], Receive(l, bufs[0]);
      ReceiveIsStream(l, bufs[0]);
      assert Heard(l, bufs)[1..] == Heard(next, bufs[1..]);
      ReceiveAllIsStream(next, bufs[1..]);
      StreamAppend(l, heard, Flatten(Heard(next, bufs[1..])));
    }
  }

  /** No buffer runs past the end of a packet. */
  predicate NoOverrun(l: Line, bufs: seq<seq<byte>>)
    requires LineOk(l)
  {
    Heard(l, bufs) == bufs
  }

  /** Hence cutting does not matter, as long as no buffer runs past the end of a packet. */
  lemma CuttingIsIrrelevant(l: Line, bufs: seq<seq<byte>>, bufs': seq<seq<byte>>)
    requires LineOk(l) && Flatten(bufs) == Flatten(bufs') && NoOverrun(l, bufs) && NoOverrun(l, bufs')
    ensures ReceiveAll(l, bufs) == ReceiveAll(l, bufs') == Stream(l, Flatten(bufs))
  {
    hide LineOk, Stream, ReceiveAll, Flatten;
    ReceiveAllIsStream(l, bufs);
    ReceiveAllIsStream(l, bufs');
  }

  // ----- One packet, stuffed and cut in any way

  /** A cut of a stream that the automaton consumes whole never runs past the end of a packet. */
  lemma {:induction false} WholeStreamNoOverrun(l: Line, bufs: seq<seq<byte>>)
    requires LineOk(l) && Consume(l.a, Flatten(bufs)).1 == |Flatten(bufs)|
    ensures Heard(l, bufs) == bufs && ReceiveAll(l, bufs) == Receive(l, Flatten(bufs))
    decreases |bufs|
  {
    hide Feed, Raw, Deliver;
    if bufs != [] {
      var buf, rest := bufs[0], Flatten(bufs[1..]);
      var (b, n) := Consume(l.a, buf);
      ConsumeAppend(l.a, buf, rest);
      if Complete(b) {
        assert n == |buf| && rest == [];
        EmptyBuffers(Receive(l, buf), bufs[1..]);
        assert buf + rest == buf;
      } else {
        assert Receive(l, buf) == l.(a := b);
        WholeStreamNoOverrun(l.(a := b), bufs[1..]);
      }
      assert bufs[0][..n] == bufs[0];
      assert bufs == [bufs[0]] + bufs[1..];
    }
  }

  lemma {:induction false} EmptyBuffers(l: Line, bufs: seq<seq<byte>>)
    requires LineOk(l) && Flatten(bufs) == []
    ensures Heard(l, bufs) == bufs && ReceiveAll(l, bufs) == l
    decreases |bufs|
  {
    if bufs != [] {
      assert bufs[0] == [] && Flatten(bufs[1..]) == [];
      assert Receive(l, []) == l;
      EmptyBuffers(l, bufs[1..]);
      assert bufs == [bufs[0]] + bufs[1..];
    }
  }

  /** Between two packets. */
  predicate Idle(l: Line) { |l.a.mem| == MAX_PACKET_LEN && l.a.pos == 0 && l.a.escape == 0 }

  /** A packet, however it is stuffed and however its bytes are cut into buffers, is received whole and delivered
      once; the parser is then ready for the next one. */
  lemma PacketIsDelivered(l: Line, packet: seq<byte>, enc: seq<seq<byte>>, bufs: seq<seq<byte>>)
    requires Idle(l) && WellFormed(packet) && Encodes(enc, packet) && Flatten(bufs) == Flatten(enc)
    ensures LineOk(l)
    ensures var mem := packet + l.a.mem[|packet|..];
            ReceiveAll(l, bufs) == Line(Partial(mem, 0, 0), Deliver(l.readings, mem))
  {
    hide Consume, ReceiveAll, Heard, Flatten;
    RoundTrip(packet, enc, l.a.mem, []);
    assert Flatten(enc) + [] == Flatten(enc);
    WholeStreamNoOverrun(l, bufs);
  }

  /** Measurements: a packet of type 0x0B that reaches over the three words updates exactly the sensor it names, with
      the words it carries, whatever earlier packets left in the memory: node number, voltage, temperature and light,
      the low half of each first. */
  lemma MeasurementArrives(l: Line, packet: seq<byte>, enc: seq<seq<byte>>, bufs: seq<seq<byte>>)
    requires Idle(l) && |packet| >= 24 && |packet| == 10 + packet[6] as int && packet[4] == 0x0B
    requires Encodes(enc, packet) && Flatten(bufs) == Flatten(enc)
    ensures LineOk(l)
    ensures var node := packet[9] as int + 256 * (packet[10] as int);
            ReceiveAll(l, bufs).readings ==
              if 0 < node <= |l.readings| then
                l.readings[node - 1 := Reading(packet[18] as int + 256 * (packet[19] as int),
                                               packet[20] as int + 256 * (packet[21] as int),
                                               packet[22] as int + 256 * (packet[23] as int))]
              else l.readings
  {
    hide ReceiveAll, Flatten, Encodes;
    PacketIsDelivered(l, packet, enc, bufs);
  }

  /** Other packets change no sensor: a foreign type, or a node that does not exist. */
  lemma OtherPacketIsIgnored(l: Line, packet: seq<byte>, enc: seq<seq<byte>>, bufs: seq<seq<byte>>)
    requires Idle(l) && |packet| >= 10 && |packet| == 10 + packet[6] as int
    requires Encodes(enc, packet) && Flatten(bufs) == Flatten(enc)
    requires packet[4] != 0x0B
             || (|packet| >= 12 && !(0 < packet[9] as int + 256 * (packet[10] as int) <= |l.readings|))
    ensures LineOk(l) && ReceiveAll(l, bufs).readings == l.readings
  {
    hide ReceiveAll, Flatten, Encodes;
    PacketIsDelivered(l, packet, enc, bufs);
  }

  /** The calls of `lunix_protocol_received_buf` on the parser itself. */
  method Transmit(p: ProtocolState, sensors: SensorBank, bufs: seq<seq<byte>>)
    requires p.Valid()
    modifies p, p.packet, sensors
    ensures p.Valid() && LineOk(Line(old(p.Abs()), old(sensors.readings)))
    ensures Line(p.Abs(), sensors.readings) == ReceiveAll(Line(old(p.Abs()), old(sensors.readings)), bufs)
  {
    hide Receive;
    p.FieldIsSane();
    for i := 0 to |bufs|
      invariant p.Valid() && LineOk(Line(p.Abs(), sensors.readings))
      invariant ReceiveAll(Line(p.Abs(), sensors.readings), bufs[i..])
                == ReceiveAll(Line(old(p.Abs()), old(sensors.readings)), bufs)
    {
      assert bufs[i..][1..] == bufs[i + 1..];
      p.ReceivedBuf(bufs[i], sensors);
    }
  }

  /** The same of the parser itself: between two packets, with the packet cut into buffers in any way. */
  method MeasurementUpdates(p: ProtocolState, sensors: SensorBank, packet: seq<byte>, enc: seq<seq<byte>>,
                            bufs: seq<seq<byte>>)
    requires p.Valid() && p.state == 1 && p.nextIsSpecial == 0
    requires |packet| >= 24 && |packet| == 10 + packet[6] as int && packet[4] == 0x0B
    requires Encodes(enc, packet) && Flatten(bufs) == Flatten(enc)
    modifies p, p.packet, sensors
    ensures p.Valid() && p.state == 1
    ensures var node := packet[9] as int + 256 * (packet[10] as int);
            sensors.readings ==
              if 0 < node <= |old(sensors.readings)| then
                old(sensors.readings)[node - 1 := Reading(packet[18] as int + 256 * (packet[19] as int),
                                                          packet[20] as int + 256 * (packet[21] as int),
                                                          packet[22] as int + 256 * (packet[23] as int))]
              else old(sensors.readings)
  {
    hide Encodes, Flatten, ReceiveAll, Deliver;
    ghost var l := Line(p.Abs(), sensors.readings);
    MeasurementArrives(l, packet, enc, bufs);
    PacketIsDelivered(l, packet, enc, bufs);
    Transmit(p, sensors, bufs);
  }

  // ----- Where the code falls short

  /** One call is the stream of its whole buffer if and only if the stream of what it does not hear would leave parser
      and sensors as they are; a lost tail that does not end with a packet always matters. */
  lemma LostTail(l: Line, buf: seq<byte>)
    requires LineOk(l)
    ensures var n := Consume(l.a, buf).1;
            && (Receive(l, buf) == Stream(l, buf) <==> Stream(Receive(l, buf), buf[n..]) == Receive(l, buf))
            && (n < |buf| && !Idle(Stream(Receive(l, buf), buf[n..])) ==> Receive(l, buf) != Stream(l, buf))
  {
    hide Feed, Deliver, Stream;
    var n := Consume(l.a, buf).1;
    ReceiveIsStream(l, buf);
    assert buf == buf[..n] + buf[n..];
    StreamAppend(l, buf[..n], buf[n..]);
  }

  /** What a packet leaves in the memory. */
  function AfterPacket(l: Line, packet: seq<byte>): (r: Line)
    requires Idle(l) && WellFormed(packet)
    ensures Idle(r) && LineOk(r)
  {
    var mem := packet + l.a.mem[|packet|..];
    Line(Partial(mem, 0, 0), Deliver(l.readings, mem))
  }

  lemma FirstPacket(l: Line, packet: seq<byte>, enc: seq<seq<byte>>, rest: seq<byte>)
    requires Idle(l) && WellFormed(packet) && Encodes(enc, packet)
    ensures LineOk(l)
    ensures Consume(l.a, Flatten(enc) + rest).1 == |Flatten(enc)|
    ensures Receive(l, Flatten(enc) + rest) == Stream(l, Flatten(enc)) == AfterPacket(l, packet)
  {
    hide Consume, Flatten, Deliver, Stream;
    RoundTrip(packet, enc, l.a.mem, rest);
    ReceiveIsStream(l, Flatten(enc) + rest);
    assert (Flatten(enc) + rest)[..|Flatten(enc)|] == Flatten(enc);
  }

  /** A second packet in the buffer is lost without a trace if and only if it repeats the first. */
  lemma LostPacket(l: Line, p: seq<byte>, enc: seq<seq<byte>>, q: seq<byte>, enc': seq<seq<byte>>)
    requires Idle(l) && WellFormed(p) && Encodes(enc, p) && WellFormed(q) && Encodes(enc', q)
    ensures LineOk(l)
    ensures var buf := Flatten(enc) + Flatten(enc'); Receive(l, buf) == Stream(l, buf) <==> q == p
  {
    hide Flatten, Stream, Receive, Encodes, AfterPacket;
    FirstPacket(l, p, enc, Flatten(enc'));
    FirstPacket(AfterPacket(l, p), q, enc', []);
    StreamAppend(l, Flatten(enc), Flatten(enc'));
    AfterTwoPackets(l, p, q);
  }

  lemma AfterTwoPackets(l: Line, p: seq<byte>, q: seq<byte>)
    requires Idle(l) && WellFormed(p) && WellFormed(q)
    ensures AfterPacket(AfterPacket(l, p), q) == AfterPacket(l, p) <==> q == p
  {
    hide Deliver;
    var mem := p + l.a.mem[|p|..];
    if q + mem[|q|..] == mem { OnePacketInMemory(p, q, mem); }
    assert p + mem[|p|..] == mem;
    DeliverTwice(l.readings, mem);
  }

  lemma OnePacketInMemory(p: seq<byte>, q: seq<byte>, mem: seq<byte>)
    requires WellFormed(p) && WellFormed(q) && |mem| == MAX_PACKET_LEN
    requires p + mem[|p|..] == mem == q + mem[|q|..]
    ensures q == p
  {
    assert q[6] == mem[6] == p[6];
    assert mem[..|p|] == p && mem[..|q|] == q;
  }

  /** So a packet that comes twice in one buffer gives what it gives in two. */
  lemma RepetitionIsHarmless(l: Line, packet: seq<byte>, enc: seq<seq<byte>>)
    requires Idle(l) && WellFormed(packet) && Encodes(enc, packet)
    ensures LineOk(l)
    ensures var s := Flatten(enc);
            && NoOverrun(l, [s, s]) && !NoOverrun(l, [s + s])
            && ReceiveAll(l, [s + s]) == ReceiveAll(l, [s, s]) == Stream(l, s + s)
  {
    hide Consume, Flatten, Deliver, Stream, Receive, AfterPacket;
    var s := Flatten(enc);
    PacketHasBytes(packet, enc);
    LostPacket(l, packet, enc, packet, enc);
    FirstPacket(l, packet, enc, []);
    FirstPacket(l, packet, enc, s);
    FirstPacket(AfterPacket(l, packet), packet, enc, []);
    assert s + [] == s;
    HeardTwo(l, s, s);
    HeardOne(l, s + s);
    assert s[..|s|] == s && [s, s] == [s] + [s] && (s + s)[..|s|] == s;
    CuttingIsStream(l, [s, s]);
  }

  lemma PacketHasBytes(packet: seq<byte>, enc: seq<seq<byte>>)
    requires WellFormed(packet) && Encodes(enc, packet)
    ensures Flatten(enc) != []
  {
    assert enc[0] == [packet[0]];
  }

  lemma DeliverTwice(readings: seq<Reading>, mem: seq<byte>)
    requires |mem| == MAX_PACKET_LEN
    ensures Deliver(Deliver(readings, mem), mem) == Deliver(readings, mem)
  {
  }

  lemma HeardTwo(l: Line, s: seq<byte>, t: seq<byte>)
    requires LineOk(l)
    ensures Heard(l, [s, t]) == [s[..Consume(l.a, s).1], t[..Consume(Receive(l, s).a, t).1]]
    ensures ReceiveAll(l, [s, t]) == Receive(Receive(l, s), t)
  {
    hide Consume, Receive;
    assert [s, t][1..] == [t];
    HeardOne(Receive(l, s), t);
  }

  lemma CuttingIsStream(l: Line, bufs: seq<seq<byte>>)
    requires LineOk(l) && NoOverrun(l, bufs) && |bufs| == 2
    ensures ReceiveAll(l, bufs) == Stream(l, bufs[0] + bufs[1])
  {
    hide LineOk, Stream, ReceiveAll;
    ReceiveAllIsStream(l, bufs);
    assert bufs[1..] == [bufs[1]] && bufs[1..][1..] == [];
    assert Flatten(bufs[1..]) == bufs[1] + [] == bufs[1];
  }

  /** Bytes that follow a packet's end in the same buffer are lost: the same stream in one buffer or in two. */
  lemma OverrunLosesBytes() returns (l: Line, s: seq<byte>, t: seq<byte>)
    ensures LineOk(l) && NoOverrun(l, [s, t]) && !NoOverrun(l, [s + t])
    ensures ReceiveAll(l, [s, t]) != ReceiveAll(l, [s + t])
  {
    var packet: seq<byte> := [0x7E, 0, 0, 0, 0, 0, 0, 0, 0, 0x7E];
    var enc := seq(10, i requires 0 <= i < 10 => [packet[i]]);
    l := Line(Partial(seq(MAX_PACKET_LEN, _ => 0), 0, 0), []);
    s, t := Flatten(enc), [0x7E];
    assert Encodes(enc, packet);
    RoundTrip(packet, enc, l.a.mem, []);
    assert s + [] == s;
    RoundTrip(packet, enc, l.a.mem, t);
    LastByteAlone(l, s, t);
  }

  lemma LastByteAlone(l: Line, s: seq<byte>, t: seq<byte>)
    requires Idle(l) && LineOk(l) && |t| == 1 && Consume(l.a, s).1 == |s| && Complete(Consume(l.a, s).0)
    requires Consume(l.a, s + t) == Consume(l.a, s)
    ensures NoOverrun(l, [s, t]) && !NoOverrun(l, [s + t])
    ensures ReceiveAll(l, [s, t]) != ReceiveAll(l, [s + t])
  {
    hide Deliver, Feed, Consume, Complete;
    var l1 := Receive(l, s);
    ByteIntoIdle(l1, t);
    assert s[..|s|] == s && t[..1] == t && (s + t)[..|s|] == s;
    assert [s, t][1..] == [t];
    HeardOne(l1, t);
    HeardOne(l, s + t);
    assert Heard(l, [s, t]) == [s] + [t];
  }

  lemma HeardOne(l: Line, t: seq<byte>)
    requires LineOk(l)
    ensures Heard(l, [t]) == [t[..Consume(l.a, t).1]] && ReceiveAll(l, [t]) == Receive(l, t)
  {
    assert [t][1..] == [];
  }

  lemma ByteIntoIdle(l: Line, t: seq<byte>)
    requires Idle(l) && LineOk(l) && |t| == 1
    ensures Consume(l.a, t).1 == 1 && Receive(l, t).a.pos == 1
  {
    assert t == [t[0]];
    ConsumeOne(l.a, t[0]);
  }

  /** A measurement packet names one of `n` sensors; with an empty payload the upper half of the node number is not its
      own, so some memory may complete it. */
  predicate NamesSensor(packet: seq<byte>, n: nat)
    requires WellFormed(packet)
  {
    exists hi: byte :: (packet[6] > 0 ==> hi == packet[NODE_OFFSET + 1]) && 0 < Le16(packet[NODE_OFFSET], hi) <= n
  }

  /** What is delivered does not depend on what earlier packets left in the memory. */
  ghost predicate OwnBytesOnly(readings: seq<Reading>, packet: seq<byte>)
    requires WellFormed(packet)
  {
    forall mem: seq<byte>, mem': seq<byte> | |mem| == |mem'| == MAX_PACKET_LEN ::
      Deliver(readings, packet + mem[|packet|..]) == Deliver(readings, packet + mem'[|packet|..])
  }

  /** Exactly the measurement packets with fewer than 14 bytes of payload that name a sensor deliver stale bytes. */
  lemma ShortMeasurementReadsStaleBytes(readings: seq<Reading>, packet: seq<byte>)
    requires WellFormed(packet)
    ensures OwnBytesOnly(readings, packet) <==>
              packet[PACKET_SIGNATURE_OFFSET] != 0x0B || packet[6] >= 14 || !NamesSensor(packet, |readings|)
  {
    if packet[PACKET_SIGNATURE_OFFSET] == 0x0B && packet[6] < 14 && NamesSensor(packet, |readings|) {
      var hi: byte :|
        (packet[6] > 0 ==> hi == packet[NODE_OFFSET + 1]) && 0 < Le16(packet[NODE_OFFSET], hi) <= |readings|;
      StaleBytesDiffer(readings, packet, hi);
    } else {
      forall mem: seq<byte>, mem': seq<byte> | |mem| == |mem'| == MAX_PACKET_LEN
        ensures Deliver(readings, packet + mem[|packet|..]) == Deliver(readings, packet + mem'[|packet|..])
      {
        SameDelivery(readings, packet, mem, mem');
      }
    }
  }

  lemma SameDelivery(readings: seq<Reading>, packet: seq<byte>, mem: seq<byte>, mem': seq<byte>)
    requires WellFormed(packet) && |mem| == |mem'| == MAX_PACKET_LEN
    requires packet[PACKET_SIGNATURE_OFFSET] != 0x0B || packet[6] >= 14 || !NamesSensor(packet, |readings|)
    ensures Deliver(readings, packet + mem[|packet|..]) == Deliver(readings, packet + mem'[|packet|..])
  {
    var m, m' := packet + mem[|packet|..], packet + mem'[|packet|..];
    if packet[PACKET_SIGNATURE_OFFSET] == 0x0B && packet[6] < 14 {
      NobodyNamed(readings, packet, m);
      NobodyNamed(readings, packet, m');
    }
  }

  lemma NobodyNamed(readings: seq<Reading>, packet: seq<byte>, m: seq<byte>)
    requires WellFormed(packet) && |m| == MAX_PACKET_LEN && |packet| <= |m| && m[..|packet|] == packet
    requires !NamesSensor(packet, |readings|)
    ensures Deliver(readings, m) == readings
  {
    assert m[NODE_OFFSET] == packet[NODE_OFFSET];
    if packet[6] > 0 { assert m[NODE_OFFSET + 1] == packet[NODE_OFFSET + 1]; }
    assert (packet[6] > 0 ==> m[NODE_OFFSET + 1] == packet[NODE_OFFSET + 1]);
  }

  /** Two memories that differ in the upper half of the light word. */
  lemma StaleBytesDiffer(readings: seq<Reading>, packet: seq<byte>, hi: byte)
    requires WellFormed(packet) && packet[PACKET_SIGNATURE_OFFSET] == 0x0B && packet[6] < 14
    requires (packet[6] > 0 ==> hi == packet[NODE_OFFSET + 1]) && 0 < Le16(packet[NODE_OFFSET], hi) <= |readings|
    ensures !OwnBytesOnly(readings, packet)
  {
    var zeros: seq<byte> := seq(MAX_PACKET_LEN, _ => 0);
    var mem := zeros[NODE_OFFSET + 1 := hi];
    var mem' := mem[LIGHT_OFFSET + 1 := 1];
    var m, m', node := packet + mem[|packet|..], packet + mem'[|packet|..], Le16(packet[NODE_OFFSET], hi);
    assert Word(m, NODE_OFFSET) == node == Word(m', NODE_OFFSET);
    assert m[LIGHT_OFFSET] == m'[LIGHT_OFFSET] && m[LIGHT_OFFSET + 1] == 0 && m'[LIGHT_OFFSET + 1] == 1;
    assert Deliver(readings, m)[node - 1].light != Deliver(readings, m')[node - 1].light;
  }

  /** The bytes that a measurement is read from. */
  const MEASUREMENT := {NODE_OFFSET, NODE_OFFSET + 1, VREF_OFFSET, VREF_OFFSET + 1,
                        TEMPERATURE_OFFSET, TEMPERATURE_OFFSET + 1, LIGHT_OFFSET, LIGHT_OFFSET + 1}

  /** All of them are payload from 17 bytes on; with 14, 15 or 16 the last ones are the packet's checksum and end byte.
      */
  lemma MeasurementInPayload(packet: seq<byte>)
    requires WellFormed(packet)
    ensures (forall o :: o in MEASUREMENT ==> 7 <= o < 7 + (packet[6] as int)) <==> packet[6] >= 17
    ensures (forall o :: o in MEASUREMENT ==> o < |packet|) <==> packet[6] >= 14
  {
    assert LIGHT_OFFSET + 1 in MEASUREMENT;
  }
}
