/** An open sensor file (lunix-chrdev.c): its cached text, and reads that interleave with updates of the sensor. */
module CharDev {
  import opened SensorText
  import opened Sensors

  const LUNIX_CHRDEV_BUFSZ := 20

  /** Every text fits the buffer, with its terminator. */
  predicate TextsFit(lookup: seq<int>)
  {
    |lookup| == 0x1_0000 && forall v :: 0 <= v < |lookup| ==> |Text(lookup[v])| < LUNIX_CHRDEV_BUFSZ
  }

  datatype ReadResult = Interrupted | Fault | Count(n: nat, bytes: seq<char>)

  /** A read that returned a count: where it began, how much it returned, and the text it returned it from. */
  datatype Piece = Piece(before: nat, n: nat, text: seq<char>)

  function After(p: Piece): nat { if p.before + p.n == |p.text| then 0 else p.before + p.n }

  ghost predicate IsText(t: seq<char>) { exists v :: t == Text(v) }

  /** What happens in the `k`th pause of a call. */
  function At(env: seq<seq<Event>>, k: nat): seq<Event> { if k < |env| then env[k] else [] }

  predicate EnvOk(env: seq<seq<Event>>) { forall k :: 0 <= k < |env| ==> EventsOk(env[k]) }

  /** The time of the update shown last. */
  function LastTime(r: seq<nat>, h: seq<Update>): nat
  {
    if r != [] && r[|r| - 1] < |h| then h[r[|r| - 1]].time else 0
  }

  /** Each refresh shows one completed update, of a later second than the one before. */
  ghost predicate RefreshesOk(r: seq<nat>, h: seq<Update>)
  {
    && (forall k :: 0 <= k < |r| ==> r[k] < |h|)
    && forall k :: 0 <= k < |r| ==> LastTime(r[..k], h) < h[r[k]].time
  }

  /** Reads follow each other in the text. */
  ghost predicate LogOk(log: seq<Piece>, pos: nat, text: seq<char>)
  {
    && (forall k :: 0 <= k < |log| ==> PieceOk(log[k]))
    && (forall k :: 0 < k < |log| ==> log[k].before == After(log[k - 1]))
    && (forall k :: 0 < k < |log| && log[k].before != 0 ==> log[k].text == log[k - 1].text)
    && (if log == [] then pos == 0
        else pos == After(log[|log| - 1]) && (pos != 0 ==> text == log[|log| - 1].text))
  }

  ghost predicate PieceOk(p: Piece) { p.before < |p.text| && p.before + p.n <= |p.text| && IsText(p.text) }

  class OpenFile {
    const sensor: Sensor
    const kind: nat
    const lookup: seq<int>
    var bufLim: nat
    var bufData: seq<char>
    var bufTimestamp: nat
    var pos: nat
    ghost var refreshes: seq<nat>   // the updates shown, as positions in the sensor's history
    ghost var log: seq<Piece>

    /** The cached text and timestamp belong to one update. */
    ghost predicate Cached()
      reads this`bufLim, this`bufData, this`bufTimestamp, this`refreshes, sensor`history
    {
      && bufLim == |bufData| < LUNIX_CHRDEV_BUFSZ && |lookup| == 0x1_0000
      && bufTimestamp == LastTime(refreshes, sensor.history) % WORD && (bufLim > 0 ==> IsText(bufData))
      && (refreshes != [] ==>
            var u := refreshes[|refreshes| - 1];
            && u < |sensor.history| && ValuesOk(sensor.history[u].values) && kind < 3
            && bufData == Text(lookup[sensor.history[u].values[kind]]))
    }

    ghost predicate Valid()
      reads this, sensor
    {
      && sensor.Valid() && kind < 3 && TextsFit(lookup) && Cached()
      && RefreshesOk(refreshes, sensor.history)
      && (pos == 0 || pos < bufLim) && LogOk(log, pos, bufData)
    }

    /** `lunix_chrdev_open` of a device node of one of the three kinds. */
    constructor (sensor: Sensor, kind: nat, lookup: seq<int>)
      requires sensor.Valid() && kind < 3 && TextsFit(lookup)
      ensures Valid() && this.sensor == sensor && pos == 0 && refreshes == [] && log == []
    {
      this.sensor, this.kind, this.lookup := sensor, kind, lookup;
      bufLim, bufData, bufTimestamp, pos, refreshes, log := 0, [], 0, 0, [], [];
    }

    /** `lunix_chrdev_state_needs_refresh`: looked at without the lock (lunix-chrdev.c:49-57). */
    predicate NeedsRefresh()
      requires |sensor.data| == 3 && kind < 3
      reads this, sensor
    {
      bufTimestamp != sensor.data[kind].lastUpdate
    }

    /** Time passes for the sensor. */
    method Pause(events: seq<Event>)
      requires Valid() && EventsOk(events)
      modifies sensor
      ensures Valid() && sensor.Onward()
      ensures LastTime(refreshes, sensor.history) == old(LastTime(refreshes, sensor.history))
      ensures events == [] ==> unchanged(sensor)
    {
      hide Sensor.Valid, TextsFit, LogOk;
      sensor.Run(events);
    }

    /** `spin_lock_irq` on the sensor. */
    method LockSensor()
      requires Valid()
      modifies sensor
      ensures Valid() && sensor.Onward()
      ensures LastTime(refreshes, sensor.history) == old(LastTime(refreshes, sensor.history))
      ensures sensor.writer == Idle && (old(sensor.writer) == Idle ==> unchanged(sensor))
    {
      hide Sensor.Valid, TextsFit, LogOk;
      sensor.Lock();
    }

    /** `lunix_chrdev_state_update` (lunix-chrdev.c:67-143): `again` is -EAGAIN. The sensor goes on between its steps.
        */
    method StateUpdate(e0: seq<Event>, e1: seq<Event>, e2: seq<Event>) returns (again: bool)
      requires Valid() && pos == 0 && EventsOk(e0) && EventsOk(e1) && EventsOk(e2)
      modifies sensor, this`bufLim, this`bufData, this`bufTimestamp, this`refreshes
      ensures Valid() && old(sensor.history) <= sensor.history
      ensures again ==>
                !NeedsRefresh() && bufLim == old(bufLim) && bufData == old(bufData) && refreshes == old(refreshes)
      ensures !again ==> refreshes == old(refreshes) + [|sensor.history| - 1] && bufLim > 0
      // The text is that of the newest completed update, and so is the timestamp.
      ensures !again ==>
                var u := sensor.history[|sensor.history| - 1];
                && kind < |u.values| && u.values[kind] < |lookup| && bufData == Text(lookup[u.values[kind]])
                && bufTimestamp == u.time % 0x1_0000_0000 && bufLim == |bufData|
      ensures e0 == [] && e1 == [] && e2 == [] && old(sensor.writer) == Idle ==> (again <==> !old(NeedsRefresh()))
    {
      hide TextsFit, LogOk, RefreshesOk, Stamp, HistoryOk, BufferOk, WriterOk, Cached, Text;
      Pause(e0);
      LockSensor();
      var raw := sensor.data[kind];
      Pause(e1);
      if !NeedsRefresh() { return true; }
      ghost var seen := Stamp(sensor.history, sensor.writer, kind);
      LaterThanShown(seen);
      Pause(e2);
      LockSensor();
      Fill(seen);
      return false;
    }

    /** The measurement is read and formatted. */
    method Fill(ghost seen: nat)
      requires Valid() && pos == 0 && sensor.writer == Idle && 0 < seen <= Stamp(sensor.history, sensor.writer, kind)
      requires LastTime(refreshes, sensor.history) < seen
      modifies this`bufLim, this`bufData, this`bufTimestamp, this`refreshes
      ensures Valid() && refreshes == old(refreshes) + [|sensor.history| - 1] && bufLim > 0
      ensures var u := sensor.history[|sensor.history| - 1];
              && kind < |u.values| && u.values[kind] < |lookup| && bufData == Text(lookup[u.values[kind]])
              && bufTimestamp == u.time % 0x1_0000_0000 && bufLim == |bufData|
    {
      hide Sensor.Valid, TextsFit, LogOk, RefreshesOk, Stamp;
      Newest(seen);
      var raw := sensor.data[kind];
      TextFits(raw.value);
      Shown(refreshes, sensor.history);
      NothingRead(log, bufData, Text(lookup[raw.value]));
      bufData := Text(lookup[raw.value]);
      bufLim := |bufData|;
      bufTimestamp := raw.lastUpdate;
      refreshes := refreshes + [|sensor.history| - 1];
    }

    /** The wait of a read at position 0 (lunix-chrdev.c:273-289). Each pause takes the next of `env`; a signal ends
        the wait when they are used up. */
    method AwaitFresh(env: seq<seq<Event>>) returns (ok: bool)
      requires Valid() && pos == 0 && EnvOk(env)
      modifies sensor, this`bufLim, this`bufData, this`bufTimestamp, this`refreshes
      ensures Valid() && old(sensor.history) <= sensor.history
      ensures ok ==> refreshes == old(refreshes) + [|sensor.history| - 1] && bufLim > 0
      ensures !ok ==>
                !NeedsRefresh() && bufLim == old(bufLim) && bufData == old(bufData) && refreshes == old(refreshes)
      ensures env == [] && old(sensor.writer) == Idle ==> (ok <==> old(NeedsRefresh()))
    {
      hide Cached, TextsFit, LogOk, RefreshesOk, EventsOk, Sensor.Onward;
      NoEvents(env);
      var again := StateUpdate(At(env, 0), At(env, 1), At(env, 2));
      var k := 3;
      while again
        invariant Valid() && old(sensor.history) <= sensor.history
        invariant again ==>
                    !NeedsRefresh() && bufLim == old(bufLim) && bufData == old(bufData) && refreshes == old(refreshes)
        invariant !again ==> refreshes == old(refreshes) + [|sensor.history| - 1] && bufLim > 0
        invariant env == [] && old(sensor.writer) == Idle ==> (again <==> !old(NeedsRefresh()))
        decreases |env| - k
      {
        if k >= |env| { return false; }
        k := Sleep(env, k);
        again := StateUpdate(At(env, k), At(env, k + 1), At(env, k + 2));
        k := k + 3;
      }
      return true;
    }

    /** `wait_event_interruptible`: ends with a wake-up that finds a new timestamp, or with a signal. */
    method Sleep(env: seq<seq<Event>>, k0: nat) returns (k: nat)
      requires Valid() && EnvOk(env) && k0 < |env|
      modifies sensor
      ensures Valid() && old(sensor.history) <= sensor.history && k0 < k <= |env|
    {
      hide Cached, TextsFit, LogOk, RefreshesOk, EventsOk;
      Pause(env[k0]);
      k := k0 + 1;
      while k < |env| && !NeedsRefresh()
        invariant Valid() && old(sensor.history) <= sensor.history && k0 < k <= |env|
      {
        Pause(env[k]);
        k := k + 1;
      }
    }

    /** `lunix_chrdev_read` (lunix-chrdev.c:250-320). */
    method Read(cnt: nat, env: seq<seq<Event>>, signal: bool, fault: bool) returns (r: ReadResult)
      requires Valid() && EnvOk(env)
      modifies this, sensor
      ensures Valid() && old(sensor.history) <= sensor.history
      // A text is replaced only at position 0, and then by that of the newest update.
      ensures if old(pos) == 0 && !r.Interrupted?
              then refreshes == old(refreshes) + [|sensor.history| - 1]
              else refreshes == old(refreshes) && bufData == old(bufData)
      ensures r.Count? ==>
                && r.n == (if old(pos) + cnt < bufLim then cnt else bufLim - old(pos)) && r.bytes == bufData[..r.n]
                && pos == (if old(pos) + r.n == bufLim then 0 else old(pos) + r.n)
                && log == old(log) + [Piece(old(pos), r.n, bufData)]
      ensures !r.Count? ==> pos == old(pos) && log == old(log)
      ensures !r.Interrupted? ==> (r.Fault? <==> fault)
      ensures if signal then r.Interrupted? else old(pos) != 0 ==> !r.Interrupted?
      // Only a signal or a file that shows the newest timestamp makes a read come back without a count.
      ensures r.Interrupted? && !signal ==> !NeedsRefresh()
      // Without interference, a read at position 0 waits for a signal only if there is nothing newer.
      ensures !signal && old(pos) == 0 && env == [] && old(sensor.writer) == Idle ==>
                (r.Interrupted? <==> !old(NeedsRefresh()))
    {
      hide Cached, TextsFit, LogOk, RefreshesOk, Sensor.Valid;
      if signal { return Interrupted; }
      if pos == 0 {
        var ok := AwaitFresh(env);
        if !ok { return Interrupted; }
      }
      var n := cnt;
      if pos + cnt >= bufLim { n := bufLim - pos; }
      if fault { return Fault; }
      BufferHolds();
      var bytes := bufData[..n];
      Logged(log, pos, n, bufData);
      log := log + [Piece(pos, n, bufData)];
      pos := pos + n;
      if pos == bufLim { pos := 0; }
      return Count(n, bytes);
    }

    lemma BufferHolds()
      requires Valid()
      ensures |bufData| == bufLim && (bufLim > 0 ==> IsText(bufData))
    {
    }

    /** While nothing is being written, a newer update is noticed if and only if its second differs from that of the
        update shown in the low 32 bits: as long as the clock fits them, if and only if it fell into a later second. */
    lemma NoticedInALaterSecond()
      requires Valid() && sensor.writer == Idle
      ensures var shown, newest := LastTime(refreshes, sensor.history), Latest(sensor.history).time;
              && shown <= newest && (NeedsRefresh() <==> shown % 0x1_0000_0000 != newest % 0x1_0000_0000)
              && (sensor.clock < 0x1_0000_0000 ==> (NeedsRefresh() <==> shown < newest))
    {
      hide TextsFit, LogOk, IsText, Text;
      assert refreshes != [] ==> refreshes[|refreshes| - 1] < |sensor.history|;
    }

    lemma TextFits(v: nat)
      requires TextsFit(lookup) && v < 0x1_0000
      ensures |lookup| == 0x1_0000 && |Text(lookup[v])| < LUNIX_CHRDEV_BUFSZ
    {
    }

    /** A timestamp other than the cached one stands for an update that is later than the one shown. */
    lemma LaterThanShown(seen: nat)
      requires Valid() && NeedsRefresh() && seen == Stamp(sensor.history, sensor.writer, kind)
      ensures seen > 0 && LastTime(refreshes, sensor.history) < seen
    {
      hide TextsFit, LogOk, RefreshesOk, IsText, Text, HistoryOk, WriterOk, Stamp, LastTime;
      ShownIsPast(refreshes, sensor.history, sensor.writer, sensor.clock, kind);
    }

    /** With the lock held the buffer shows the newest completed update. */
    lemma Newest(seen: nat)
      requires Valid() && sensor.writer == Idle && 0 < seen <= Stamp(sensor.history, sensor.writer, kind)
      ensures var h := sensor.history;
              && |sensor.data| == 3 && h != [] && seen <= h[|h| - 1].time
              && sensor.data[kind].lastUpdate == h[|h| - 1].time % WORD
              && sensor.data[kind].value == h[|h| - 1].values[kind] && ValuesOk(h[|h| - 1].values)
    {
    }
  }

  lemma ShownIsPast(r: seq<nat>, h: seq<Update>, w: Writer, clock: nat, m: nat)
    requires HistoryOk(h, clock) && WriterOk(w, h, clock) && m < 3
    ensures LastTime(r, h) <= Stamp(h, w, m)
  {
  }

  lemma Shown(r: seq<nat>, h: seq<Update>)
    requires RefreshesOk(r, h) && h != [] && LastTime(r, h) < h[|h| - 1].time
    ensures RefreshesOk(r + [|h| - 1], h)
  {
    var r' := r + [|h| - 1];
    forall k | 0 <= k < |r'|
      ensures r'[k] < |h| && LastTime(r'[..k], h) < h[r'[k]].time
    {
      assert r'[..k] == if k < |r| then r[..k] else r;
    }
  }

  /** Over the whole life of the file every refresh shows a strictly later update than all those before. */
  lemma {:induction false} RefreshesAdvance(r: seq<nat>, h: seq<Update>, i: nat, j: nat)
    requires RefreshesOk(r, h) && i < j < |r|
    ensures r[i] < |h| && r[j] < |h| && h[r[i]].time < h[r[j]].time
    decreases j
  {
    assert r[j] < |h| && LastTime(r[..j], h) < h[r[j]].time;
    assert r[j - 1] < |h| && r[..j][j - 1] == r[j - 1];
    if i < j - 1 { RefreshesAdvance(r, h, i, j - 1); }
  }

  lemma NothingRead(log: seq<Piece>, text: seq<char>, text': seq<char>)
    requires LogOk(log, 0, text)
    ensures LogOk(log, 0, text')
  {
  }

  lemma NoEvents(env: seq<seq<Event>>)
    requires EnvOk(env)
    ensures forall k: nat :: EventsOk(At(env, k))
  {
  }

  lemma Logged(log: seq<Piece>, pos: nat, n: nat, text: seq<char>)
    requires LogOk(log, pos, text) && pos + n <= |text| && pos < |text| && IsText(text)
    ensures LogOk(log + [Piece(pos, n, text)], After(Piece(pos, n, text)), text)
  {
    hide IsText;
  }

  function Total(log: seq<Piece>): nat { if log == [] then 0 else Total(log[..|log| - 1]) + log[|log| - 1].n }

  /** The reads `[i, j)` begin at position 0, and the file does not rewind before the last of them. */
  ghost predicate OneSession(log: seq<Piece>, i: nat, j: nat)
  {
    i < j <= |log| && log[i].before == 0 && forall k :: i <= k < j - 1 ==> After(log[k]) != 0
  }

  lemma TotalOfSlice(log: seq<Piece>, i: nat, j: nat)
    requires i < j <= |log|
    ensures Total(log[i..j]) == Total(log[i..j - 1]) + log[j - 1].n && (i == j - 1 ==> Total(log[i..j - 1]) == 0)
  {
    assert log[i..j][..j - i - 1] == log[i..j - 1];
  }

  /** From leaving position 0 up to the position reached, the counts add up to that position ... */
  lemma {:induction false} CountsAddUp(log: seq<Piece>, pos: nat, text: seq<char>, i: nat, j: nat)
    requires LogOk(log, pos, text) && OneSession(log, i, j)
    ensures Total(log[i..j]) == log[j - 1].before + log[j - 1].n
    ensures forall k :: i <= k < j ==> log[k].text == log[i].text
    decreases j
  {
    hide PieceOk, Total;
    TotalOfSlice(log, i, j);
    if j - 1 > i {
      CountsAddUp(log, pos, text, i, j - 1);
      assert After(log[j - 2]) != 0 && log[j - 1].before == After(log[j - 2]);
    }
  }

  /** ... and, when the file rewinds, to the length of the text. */
  lemma CountsToRewind(log: seq<Piece>, pos: nat, text: seq<char>, i: nat, j: nat)
    requires LogOk(log, pos, text) && OneSession(log, i, j) && log[j - 1].n > 0 && After(log[j - 1]) == 0
    ensures Total(log[i..j]) == |log[i].text|
  {
    CountsAddUp(log, pos, text, i, j);
  }

  predicate Sized(log: seq<Piece>) { forall k :: 0 <= k < |log| ==> log[k].n <= |log[k].text| }

  /** The bytes that reads have returned: every one of them copies from the start of its text (lunix-chrdev.c:302). */
  function Got(log: seq<Piece>): (bytes: seq<char>)
    requires Sized(log)
    ensures |bytes| == Total(log)
  {
    if log == [] then [] else Got(log[..|log| - 1]) + log[|log| - 1].text[..log[|log| - 1].n]
  }

  predicate AtMostOneCounts(log: seq<Piece>)
  {
    forall i, j :: 0 <= i < j < |log| ==> log[i].n == 0 || log[j].n == 0
  }

  /** However many reads a text is taken in: they return its bytes in order if and only if at most one of them returns
      any at all. */
  lemma ShortReadsLoseText(log: seq<Piece>, pos: nat, text: seq<char>, i: nat, j: nat)
    requires LogOk(log, pos, text) && OneSession(log, i, j)
    ensures var s := log[i..j];
            && Sized(s) && Total(s) <= |log[i].text|
            && (Got(s) == log[i].text[..Total(s)] <==> AtMostOneCounts(s))
  {
    CountsAddUp(log, pos, text, i, j);
    assert PieceOk(log[i]) && PieceOk(log[j - 1]);
    var v :| log[i].text == Text(v);
    var s := log[i..j];
    forall k | 0 <= k < |s|
      ensures s[k].n <= |s[k].text| && s[k].text == Text(v)
    {
      assert PieceOk(log[i + k]);
    }
    assert PiecesOf(v, s);
    hide LogOk, OneSession, PieceOk, IsText, Text;
    PiecesRepeatTheStart(v, s);
  }

  /** Reads of the one text `Text(v)`, and of no more than all of it. */
  ghost predicate PiecesOf(v: int, s: seq<Piece>)
  {
    Sized(s) && (forall k :: 0 <= k < |s| ==> s[k].text == Text(v)) && Total(s) <= |Text(v)|
  }

  lemma {:induction false} PiecesRepeatTheStart(v: int, s: seq<Piece>)
    requires PiecesOf(v, s)
    ensures Got(s) == Text(v)[..Total(s)] <==> AtMostOneCounts(s)
    decreases |s|
  {
    hide Text, AtMostOneCounts, Got;
    if s == [] {
      NothingCounts(s);
      SilentPieces(s);
    } else {
      var init, last := s[..|s| - 1], s[|s| - 1];
      OneMore(v, init, last, s);
      hide PiecesOf, Total;
      PiecesRepeatTheStart(v, init);
      if last.n == 0 {
        SilentLast(init, s);
      } else if Total(init) == 0 {
        OnlyRead(init, last, s);
      } else {
        SecondRead(v, init, last, s);
      }
    }
  }

  /** One read more. */
  lemma OneMore(v: int, init: seq<Piece>, last: Piece, s: seq<Piece>)
    requires PiecesOf(v, s) && s == init + [last]
    ensures PiecesOf(v, init) && Total(s) == Total(init) + last.n && last.text == Text(v)
    ensures Total(s) <= |Text(v)| && Sized(s) && Got(s) == Got(init) + Text(v)[..last.n]
  {
    hide Text;
    assert s[..|s| - 1] == init && s[|init|] == last;
    assert forall k :: 0 <= k < |init| ==> init[k] == s[k];
  }

  lemma SilentPieces(s: seq<Piece>)
    requires forall k :: 0 <= k < |s| - 1 ==> s[k].n == 0
    ensures AtMostOneCounts(s)
  {
  }

  lemma SilentLast(init: seq<Piece>, s: seq<Piece>)
    requires |s| == |init| + 1 && s == init + [s[|init|]] && s[|init|].n == 0
    ensures AtMostOneCounts(s) <==> AtMostOneCounts(init)
  {
    assert forall k :: 0 <= k < |init| ==> init[k] == s[k];
  }

  lemma OnlyRead(init: seq<Piece>, last: Piece, s: seq<Piece>)
    requires s == init + [last] && Total(init) == 0
    ensures AtMostOneCounts(s)
  {
    hide AtMostOneCounts, Total;
    NothingCounts(init);
    SilentPieces(s);
  }

  lemma SecondRead(v: int, init: seq<Piece>, last: Piece, s: seq<Piece>)
    requires s == init + [last] && Sized(s) && Sized(init) && 0 < last.n <= |Text(v)| && 0 < Total(init) < |Text(v)|
    requires Got(s) == Got(init) + Text(v)[..last.n] && Total(s) == Total(init) + last.n <= |Text(v)|
    ensures Got(s) != Text(v)[..Total(s)] && !AtMostOneCounts(s)
  {
    hide Text, Total, Got;
    NothingCounts(init);
    var k :| 0 <= k < |init| && init[k].n > 0;
    assert s[k].n > 0 && s[|init|].n > 0;
    SignOnlyFirst(v, Total(init));
    assert Got(s)[Total(init)] == Text(v)[0];
  }

  lemma {:induction false} NothingCounts(s: seq<Piece>)
    ensures Total(s) == 0 <==> forall k :: 0 <= k < |s| ==> s[k].n == 0
    decreases |s|
  {
    if s != [] {
      var init := s[..|s| - 1];
      NothingCounts(init);
      assert forall k :: 0 <= k < |init| ==> init[k] == s[k];
    }
  }

  /** A measurement of the second that is shown already: there is one update more, and it goes unnoticed. */
  method SameSecondIsMissed(file: OpenFile, batt: nat, temp: nat, light: nat)
    requires file.Valid() && file.sensor.writer == Idle && ValuesOk([batt, temp, light])
    requires LastTime(file.refreshes, file.sensor.history) == file.sensor.clock
    modifies file.sensor
    ensures file.Valid() && !file.NeedsRefresh()
    ensures file.sensor.history == old(file.sensor.history) + [Update(file.sensor.clock, [batt, temp, light])]
  {
    hide LogOk, TextsFit, Text, IsText, RefreshesOk, LastTime, Sensor.Valid;
    ghost var h := file.sensor.history;
    file.sensor.UpdateAlone(batt, temp, light);
    HistoryGrows(file.refreshes, h, file.sensor.history);
  }

  lemma HistoryGrows(r: seq<nat>, h: seq<Update>, h': seq<Update>)
    requires RefreshesOk(r, h) && h <= h'
    ensures RefreshesOk(r, h') && LastTime(r, h') == LastTime(r, h)
  {
  }

  /** Two reads of one byte, with a new measurement there: both return the sign. */
  method SignTwice(file: OpenFile) returns (r: ReadResult, r': ReadResult)
    requires file.Valid() && file.pos == 0 && file.sensor.writer == Idle && file.NeedsRefresh()
    modifies file, file.sensor
    ensures file.Valid() && r.Count? && r'.Count? && r.bytes == r'.bytes && |r.bytes| == 1
    ensures |file.bufData| >= 4 && r.bytes + r'.bytes != file.bufData[..2]
  {
    hide LogOk, RefreshesOk, TextsFit, Sensor.Valid, Text;
    r := file.Read(1, [], false, false);
    file.BufferHolds();
    r' := file.Read(1, [], false, false);
    ghost var v :| file.bufData == Text(v);
    SignOnlyFirst(v, 1);
  }

  lemma SignOnlyFirst(v: int, k: nat)
    requires 0 < k < |Text(v)|
    ensures Text(v)[k] != Text(v)[0]
  {
    var a, b := Decimal(Magnitude(v) / 1000), Decimal(Magnitude(v) % 1000);
    assert Text(v)[0] == '+' || Text(v)[0] == '-';
    if k <= |a| {
      assert Text(v)[k] == a[k - 1];
    } else if k > |a| + 1 {
      assert Text(v)[k] == b[k - |a| - 2];
    }
  }
}
