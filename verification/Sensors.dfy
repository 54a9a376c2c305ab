/** The measurement buffers of one sensor (lunix-sensors.c), with their writer taken one store at a time. */
module Sensors {

  const WORD: nat := 0x1_0000_0000
  const BATT: nat := 0
  const TEMP: nat := 1
  const LIGHT: nat := 2

  /** `struct lunix_msr_data_struct`. */
  datatype Msr = Msr(lastUpdate: nat, value: nat)

  /** One call of `lunix_sensor_update`, with the second in which it read the clock. */
  datatype Update = Update(time: nat, values: seq<nat>)

  /** Where `lunix_sensor_update` is: outside its critical section, or inside with `done` stores behind it. */
  datatype Writer = Idle | Busy(values: seq<nat>, time: nat, done: nat)

  /** What can happen beside a reader: time passes, a call of `lunix_sensor_update` begins, or it takes its next step.
      */
  datatype Event = Tick(seconds: nat) | Begin(values: seq<nat>) | Proceed

  predicate ValuesOk(v: seq<nat>) { |v| == 3 && v[0] < 0x1_0000 && v[1] < 0x1_0000 && v[2] < 0x1_0000 }

  predicate EventsOk(es: seq<Event>) { forall e :: e in es && e.Begin? ==> ValuesOk(e.values) }

  /** The light buffer gets its timestamp first, the battery buffer last. */
  predicate Stamped(w: Writer, m: nat) { w.Busy? && m < 3 && w.done >= 6 - m }

  function Latest(h: seq<Update>): Update { if h == [] then Update(0, [0, 0, 0]) else h[|h| - 1] }

  ghost predicate HistoryOk(h: seq<Update>, clock: nat)
  {
    && (forall i :: 0 <= i < |h| ==> h[i].time <= clock && ValuesOk(h[i].values))
    && forall i, j :: 0 <= i <= j < |h| ==> h[i].time <= h[j].time
  }

  /** The time behind the timestamp of buffer `m`. */
  function Stamp(h: seq<Update>, w: Writer, m: nat): nat { if Stamped(w, m) then w.time else Latest(h).time }

  predicate BufferOk(data: seq<Msr>, h: seq<Update>, w: Writer, m: nat)
    requires |data| == 3 && m < 3 && (w.Busy? ==> |w.values| == 3) && |Latest(h).values| == 3
  {
    && data[m].lastUpdate == Stamp(h, w, m) % WORD
    && data[m].value == if w.Busy? && m < w.done then w.values[m] else Latest(h).values[m]
  }

  predicate WriterOk(w: Writer, h: seq<Update>, clock: nat)
  {
    w.Busy? ==> ValuesOk(w.values) && w.done <= 6 && (w.done > 3 ==> Latest(h).time <= w.time <= clock)
  }

  class Sensor {
    var data: seq<Msr>
    var writer: Writer
    var clock: nat
    ghost var history: seq<Update>   // the completed updates

    ghost predicate Valid()
      reads this
    {
      && |data| == 3 && HistoryOk(history, clock) && WriterOk(writer, history, clock)
      && BufferOk(data, history, writer, BATT) && BufferOk(data, history, writer, TEMP)
      && BufferOk(data, history, writer, LIGHT)
    }

    /** History only grows, and so do the clock and the timestamps. */
    twostate predicate Onward()
      requires old(Valid()) && Valid()
      reads this
    {
      && old(history) <= history && old(clock) <= clock
      && forall m :: 0 <= m < 3 ==> Stamp(old(history), old(writer), m) <= Stamp(history, writer, m)
    }

    constructor (now: nat)
      ensures Valid() && history == [] && clock == now && writer == Idle
    {
      data, writer, clock, history := [Msr(0, 0), Msr(0, 0), Msr(0, 0)], Idle, now, [];
    }

    /** One step of the critical section (lunix-sensors.c:82-90), or its end. */
    method WriteNext()
      requires Valid() && writer.Busy?
      modifies this`data, this`writer, this`history
      ensures Valid() && Onward() && clock == old(clock)
      ensures old(writer).done < 6 ==>
                && history == old(history) && writer.Busy? && writer.values == old(writer).values
                && writer.done == old(writer).done + 1
                && writer.time == if old(writer).done == 3 then clock else old(writer).time
      // The three values in order, then the clock and the two timestamps it is copied to.
      ensures |old(data)| == 3 && (old(writer).done < 3 ==> old(writer).done < |old(writer).values|)
      ensures var n, w := old(writer).done, old(writer);
              data == if n < 3 then old(data)[n := Msr(old(data)[n].lastUpdate, w.values[n])]
                      else if n < 6 then
                        old(data)[5 - n := old(data)[5 - n].(
                                             lastUpdate := (if n == 3 then clock else w.time) % 0x1_0000_0000)]
                      else old(data)
      ensures old(writer).done == 6 ==>
                writer == Idle && history == old(history) + [Update(old(writer).time, old(writer).values)]
    {
      var n, v := writer.done, writer.values;
      if n < 3 {
        data := data[n := data[n].(value := v[n])];
        writer := writer.(done := n + 1);
      } else if n < 6 {
        var t := if n == 3 then clock else writer.time;
        var m := 5 - n;
        data := data[m := data[m].(lastUpdate := t % WORD)];
        writer := Busy(v, t, n + 1);
      } else {
        history := history + [Update(writer.time, v)];
        writer := Idle;
      }
    }

    method Step(e: Event)
      requires Valid() && EventsOk([e])
      modifies this
      ensures Valid() && Onward()
    {
      assert e in [e];
      match e
      case Tick(s) => clock := clock + s;
      case Begin(v) => if writer.Idle? { writer := Busy(v, 0, 0); }
      case Proceed => if writer.Busy? { WriteNext(); }
    }

    method Run(events: seq<Event>)
      requires Valid() && EventsOk(events)
      modifies this
      ensures Valid() && Onward()
      ensures events == [] ==> unchanged(this)
    {
      var i := 0;
      while i < |events|
        invariant i <= |events| && Valid() && Onward()
        invariant i == 0 ==> unchanged(this)
      {
        Step(events[i]);
        i := i + 1;
      }
    }

    /** `spin_lock`: the lock is free once the writer has left its critical section. */
    method Lock()
      requires Valid()
      modifies this`data, this`writer, this`history
      ensures Valid() && Onward() && writer == Idle && clock == old(clock)
      ensures old(writer) == Idle ==> unchanged(this)
    {
      while writer.Busy?
        invariant Valid() && Onward() && clock == old(clock) && (old(writer) == Idle ==> unchanged(this))
        decreases if writer.Busy? then 7 - writer.done else 0
      {
        WriteNext();
      }
    }

    /** `lunix_sensor_update`, run alone: all three buffers hold the new values with one timestamp. */
    method UpdateAlone(batt: nat, temp: nat, light: nat)
      requires Valid() && writer == Idle && ValuesOk([batt, temp, light])
      modifies this`data, this`writer, this`history
      ensures Valid() && writer == Idle && clock == old(clock)
      ensures history == old(history) + [Update(clock, [batt, temp, light])]
      ensures var t := clock % 0x1_0000_0000; data == [Msr(t, batt), Msr(t, temp), Msr(t, light)]
    {
      writer := Busy([batt, temp, light], 0, 0);
      while writer.Busy?
        invariant Valid() && clock == old(clock)
        invariant writer.Busy? ==> history == old(history) && writer.values == [batt, temp, light]
        invariant writer.Busy? && writer.done > 3 ==> writer.time == clock
        invariant writer.Idle? ==> history == old(history) + [Update(clock, [batt, temp, light])]
        decreases if writer.Busy? then 7 - writer.done else 0
      {
        WriteNext();
      }
    }
  }
}
