/** The Lunix protocol parser: a resumable state machine, fed by buffers cut at arbitrary points. */
module Protocol {
  import opened Bytes
  import opened PacketStream

  const SEEKING_START_BYTE := 1
  const SEEKING_PACKET_TYPE := 2
  const SEEKING_DESTINATION_ADDRESS := 3
  const SEEKING_AM_TYPE := 4
  const SEEKING_AM_GROUP := 5
  const SEEKING_PAYLOAD_LENGTH := 6
  const SEEKING_PAYLOAD := 7
  const SEEKING_CRC := 8
  const SEEKING_END_BYTE := 9

  const PACKET_SIGNATURE_OFFSET := 4
  const NODE_OFFSET := 9
  const VREF_OFFSET := 18
  const TEMPERATURE_OFFSET := 20
  const LIGHT_OFFSET := 22

  datatype Reading = Reading(batt: nat, temp: nat, light: nat)

  /** `uint16_from_packet`. */
  function Word(mem: seq<byte>, o: nat): nat
    requires o + 1 < |mem|
  {
    Le16(mem[o], mem[o + 1])
  }

  /** Where a packet in `mem` sends its measurements: sensor index and reading, if it carries any. */
  function Deliver(readings: seq<Reading>, mem: seq<byte>): (r: seq<Reading>)
    requires |mem| == MAX_PACKET_LEN
    ensures |r| == |readings|
  {
    var node := Word(mem, NODE_OFFSET);
    if mem[PACKET_SIGNATURE_OFFSET] == 0x0B && 0 < node <= |readings| then
      readings[node - 1 := Reading(Word(mem, VREF_OFFSET), Word(mem, TEMPERATURE_OFFSET), Word(mem, LIGHT_OFFSET))]
    else readings
  }

  /** The first position of a state's field, given the payload length. */
  function FieldStart(state: int, pl: nat): nat
  {
    if state <= 3 then (if state < 1 then 0 else state - 1)
    else if state <= 7 then state
    else if state == 8 then 7 + pl else 9 + pl
  }

  function FieldLen(state: int, pl: nat): nat
  {
    if state == SEEKING_PAYLOAD then pl
    else if state == SEEKING_DESTINATION_ADDRESS || state == SEEKING_CRC then 2 else 1
  }

  predicate Stuffed(state: int) { SEEKING_DESTINATION_ADDRESS <= state <= SEEKING_CRC }

  /** `lunix_sensors`, with `lunix_sensor_cnt` elements. */
  class SensorBank {
    var readings: seq<Reading>
    constructor (count: nat)
      ensures readings == seq(count, _ => Reading(0, 0, 0))
    {
      readings := seq(count, _ => Reading(0, 0, 0));
    }
  }

  class ProtocolState {
    var state: int
    var bytesRead: nat
    var bytesToRead: nat
    var pos: nat
    var nextIsSpecial: byte
    const packet: array<byte>

    ghost function Abs(): Partial
      reads this, packet
    {
      Partial(packet[..], pos, nextIsSpecial)
    }

    /** The position is the field's start plus what has been read of it; a pending escape is 0x7D or 0x7E and belongs
        to an unfinished stuffed field. */
    ghost predicate InField()
      reads this, packet
    {
      && packet.Length == MAX_PACKET_LEN && 1 <= state <= 9
      && bytesToRead == FieldLen(state, packet[6]) && bytesRead <= bytesToRead
      && pos == FieldStart(state, packet[6]) + bytesRead
      && (nextIsSpecial != 0 ==>
            (nextIsSpecial == 0x7D || nextIsSpecial == 0x7E) && Stuffed(state) && bytesRead < bytesToRead)
    }

    /** Between two calls a field is always unfinished; in particular `pos` stays below 265. */
    ghost predicate Valid()
      reads this, packet
    {
      InField() && bytesRead < bytesToRead
    }

    /** `lunix_protocol_init`; the packet memory is whatever it is. */
    constructor (memory: array<byte>)
      requires memory.Length == MAX_PACKET_LEN
      ensures Valid() && packet == memory && Abs() == Partial(memory[..], 0, 0)
    {
      packet, pos, nextIsSpecial := memory, 0, 0;
      state, bytesToRead, bytesRead := SEEKING_START_BYTE, 1, 0;
    }

    method SetState(s: int, toRead: nat, read: nat)
      modifies this`state, this`bytesToRead, this`bytesRead
      ensures state == s && bytesToRead == toRead && bytesRead == read
    {
      state, bytesToRead, bytesRead := s, toRead, read;
    }

    /** What the automaton sees of a field. */
    lemma FieldIsSane()
      requires InField()
      ensures Sane(Abs()) && (Complete(Abs()) <==> state == SEEKING_END_BYTE && bytesRead == 1)
      ensures bytesRead < bytesToRead ==> (Raw(packet[..], pos) <==> !Stuffed(state)) && pos < 265
    {
      assert packet[..][6] == packet[6];
    }

    /** One round of the loop in `lunix_protocol_parse_state` (lunix-protocol.c:151-193).  The overflow guard at
        :152 would need `pos` to reach `MAX_PACKET_LEN`; it never does. */
    method ReadByte(c: byte, useSpecials: bool)
      requires Valid() && useSpecials == Stuffed(state)
      modifies this`pos, this`bytesRead, this`nextIsSpecial, packet
      ensures InField() && Sane(old(Abs())) && !Complete(old(Abs())) && Abs() == Feed(old(Abs()), c)
    {
      FieldIsSane();
      assert pos < MAX_PACKET_LEN;
      ghost var mem := packet[..];
      if useSpecials {
        if nextIsSpecial != 0 {
          if nextIsSpecial == 0x7E { packet[pos] := c; }
          if nextIsSpecial == 0x7D { packet[pos] := Xor20(c); }
          pos := pos + 1;
          bytesRead := bytesRead + 1;
          nextIsSpecial := 0;
        } else {
          if c == 0x7E || c == 0x7D {
            nextIsSpecial := c;
          } else {
            packet[pos] := c;
            pos := pos + 1;
            bytesRead := bytesRead + 1;
          }
        }
      } else {
        packet[pos] := c;
        pos := pos + 1;
        bytesRead := bytesRead + 1;
      }
      assert pos > old(pos) ==> packet[..] == mem[old(pos) := packet[old(pos)]];
    }

    /** `lunix_protocol_parse_state`: the rest of one field, or all that is left of the buffer. */
    method ParseState(buf: seq<byte>, i0: nat, useSpecials: bool) returns (i: nat, done: bool)
      requires InField() && useSpecials == Stuffed(state) && i0 <= |buf|
      modifies this`pos, this`bytesRead, this`nextIsSpecial, packet
      ensures InField() && i0 <= i <= |buf|
      ensures done <==> bytesRead == bytesToRead
      ensures !done ==> i == |buf|
      ensures done ==> nextIsSpecial == 0
      ensures Ahead(Abs(), buf, i) == old(Ahead(Abs(), buf, i0))
    {
      hide Feed, Complete, Consume;
      i := i0;
      FieldIsSane();
      while i < |buf| && bytesRead < bytesToRead
        invariant InField() && i0 <= i <= |buf| && state == old(state) && bytesToRead == old(bytesToRead)
        invariant Ahead(Abs(), buf, i) == old(Ahead(Abs(), buf, i0))
        decreases |buf| - i
      {
        ghost var a := Abs();
        ReadByte(buf[i], useSpecials);
        AheadStep(a, buf, i);
        i := i + 1;
      }
      done := bytesRead == bytesToRead;
    }

    /** Before the test for state `s`: the parser is at `s` or later, or has used up the buffer.  Only a payload of
        length zero is finished before its own test. */
    ghost predicate Reached(s: int, buf: seq<byte>, i: nat)
      reads this, packet
    {
      && InField() && i <= |buf|
      && (state < s ==> i == |buf|)
      && (bytesRead == bytesToRead ==> state == SEEKING_PAYLOAD && s <= SEEKING_PAYLOAD)
    }

    /** One of the tests of `lunix_protocol_received_buf`: if the parser is in state `s`, the field is read on, and if
        that finishes it the next field is `nextLen` bytes. */
    method Field(s: int, buf: seq<byte>, i0: nat, useSpecials: bool, nextLen: nat) returns (i: nat)
      requires 1 <= s <= 8 && s != SEEKING_PAYLOAD_LENGTH && Reached(s, buf, i0)
      requires useSpecials == Stuffed(s) && nextLen == FieldLen(s + 1, 0)
      modifies this`state, this`bytesToRead, this`pos, this`bytesRead, this`nextIsSpecial, packet
      ensures Reached(s + 1, buf, i) && Ahead(Abs(), buf, i) == old(Ahead(Abs(), buf, i0))
    {
      hide Consume, Feed, Complete, Ahead;
      i := i0;
      if state == s {
        var done;
        i, done := ParseState(buf, i, useSpecials);
        if done { SetState(s + 1, nextLen, 0); }
      }
    }

    /** The test for the payload length (lunix-protocol.c:241-245). */
    method PayloadLength(buf: seq<byte>, i0: nat) returns (i: nat)
      requires Reached(SEEKING_PAYLOAD_LENGTH, buf, i0)
      modifies this`state, this`bytesToRead, this`pos, this`bytesRead, this`nextIsSpecial, packet
      ensures Reached(SEEKING_PAYLOAD, buf, i) && Ahead(Abs(), buf, i) == old(Ahead(Abs(), buf, i0))
    {
      hide Consume, Feed, Complete, Ahead;
      i := i0;
      if state == SEEKING_PAYLOAD_LENGTH {
        var done;
        i, done := ParseState(buf, i, true);
        if done { SetState(SEEKING_PAYLOAD, packet[pos - 1], 0); }
      }
    }

    /** `lunix_protocol_update_sensors`. */
    method UpdateSensors(sensors: SensorBank)
      requires packet.Length == MAX_PACKET_LEN
      modifies sensors
      ensures sensors.readings == Deliver(old(sensors.readings), packet[..])
      // Byte for byte: the type at 4, the node at 9 and 10, then the three words at 18, 20 and 22, low halves first.
      ensures packet.Length == 300
      ensures var node := packet[9] as int + 256 * (packet[10] as int);
              sensors.readings ==
                if packet[4] == 0x0B && 0 < node <= |old(sensors.readings)| then
                  old(sensors.readings)[node - 1 := Reading(packet[18] as int + 256 * (packet[19] as int),
                                                            packet[20] as int + 256 * (packet[21] as int),
                                                            packet[22] as int + 256 * (packet[23] as int))]
                else old(sensors.readings)
    {
      if packet[PACKET_SIGNATURE_OFFSET] == 0x0B {
        var node := Le16(packet[NODE_OFFSET], packet[NODE_OFFSET + 1]);
        var batt := Le16(packet[VREF_OFFSET], packet[VREF_OFFSET + 1]);
        var temp := Le16(packet[TEMPERATURE_OFFSET], packet[TEMPERATURE_OFFSET + 1]);
        var light := Le16(packet[LIGHT_OFFSET], packet[LIGHT_OFFSET + 1]);
        if node > 0 && node <= |sensors.readings| {
          sensors.readings := sensors.readings[node - 1 := Reading(batt, temp, light)];
        }
      }
    }

    /** `lunix_protocol_received_buf`: consumes the buffer up to and including the first byte that completes a packet,
        then updates the sensors and starts afresh; the rest of the buffer is dropped. */
    method ReceivedBuf(buf: seq<byte>, sensors: SensorBank)
      requires Valid()
      modifies this, packet, sensors
      ensures Valid() && Sane(old(Abs()))
      ensures Line(Abs(), sensors.readings) == Receive(Line(old(Abs()), old(sensors.readings)), buf)
    {
      hide Consume, Feed, Complete, Ahead, FieldStart, Deliver;
      FieldIsSane();
      var i := 0;
      i := Field(SEEKING_START_BYTE, buf, i, false, 1);
      i := Field(SEEKING_PACKET_TYPE, buf, i, false, 2);
      i := Field(SEEKING_DESTINATION_ADDRESS, buf, i, true, 1);
      i := Field(SEEKING_AM_TYPE, buf, i, true, 1);
      i := Field(SEEKING_AM_GROUP, buf, i, true, 1);
      i := PayloadLength(buf, i);
      i := Field(SEEKING_PAYLOAD, buf, i, true, 2);
      i := Field(SEEKING_CRC, buf, i, true, 1);
      EndByte(buf, i, sensors, old(Abs()));
    }

    /** The last test (lunix-protocol.c:255-263). */
    method EndByte(buf: seq<byte>, i0: nat, sensors: SensorBank, ghost start: Partial)
      requires Reached(SEEKING_END_BYTE, buf, i0) && Sane(start) && Ahead(Abs(), buf, i0) == Ahead(start, buf, 0)
      modifies this, packet, sensors
      ensures Valid()
      ensures Line(Abs(), sensors.readings) == Receive(Line(start, old(sensors.readings)), buf)
    {
      hide Consume, Feed, Complete, Ahead, Deliver;
      AheadFromStart(start, buf);
      var i := i0;
      if state == SEEKING_END_BYTE {
        var done;
        i, done := ParseState(buf, i, false);
        if done {
          FieldIsSane();
          AheadDone(Abs(), buf, i);
          UpdateSensors(sensors);
          pos := 0;
          nextIsSpecial := 0;
          SetState(SEEKING_START_BYTE, 1, 0);
          return;
        }
      }
      FieldIsSane();
      AheadDone(Abs(), buf, i);
    }
  }

  /** The parser and the sensors together. */
  datatype Line = Line(a: Partial, readings: seq<Reading>)

  predicate LineOk(l: Line) { Sane(l.a) && !Complete(l.a) }

  function Delivered(l: Line): (r: Line)
    requires Sane(l.a)
    ensures LineOk(r)
  {
    if Complete(l.a) then Line(Partial(l.a.mem, 0, 0), Deliver(l.readings, l.a.mem)) else l
  }

  /** One call of `lunix_protocol_received_buf`. */
  function Receive(l: Line, buf: seq<byte>): (r: Line)
    requires Sane(l.a)
    ensures LineOk(r)
  {
    Delivered(l.(a := Consume(l.a, buf).0))
  }

  lemma AheadFromStart(a: Partial, buf: seq<byte>)
    requires Sane(a)
    ensures Ahead(a, buf, 0) == Consume(a, buf)
  {
    hide Consume, Feed, Complete;
    assert buf[0..] == buf;
  }

  lemma AheadDone(a: Partial, buf: seq<byte>, i: nat)
    requires Sane(a) && i <= |buf| && (Complete(a) || i == |buf|)
    ensures Ahead(a, buf, i) == (a, i)
  {
    hide Feed, Complete;
  }

  /** The state in which the automaton will have consumed `buf` from `i` on, and how far it will get. */
  ghost function Ahead(a: Partial, buf: seq<byte>, i: nat): (Partial, nat)
    requires i <= |buf|
  {
    if Sane(a) then (Consume(a, buf[i..]).0, i + Consume(a, buf[i..]).1) else (a, i)
  }

  lemma AheadStep(a: Partial, buf: seq<byte>, i: nat)
    requires Sane(a) && !Complete(a) && i < |buf|
    ensures Ahead(a, buf, i) == Ahead(Feed(a, buf[i]), buf, i + 1)
  {
    hide Feed, Complete;
    assert buf[i..][0] == buf[i] && buf[i..][1..] == buf[i + 1..];
  }
}
