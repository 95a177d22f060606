/** The client's shared state as a value, and the changes that the
    notification handler, the request/response correlator and the query
    commands make to it. The class in module Client implements each of these
    step by step and is proved equal to the functions here. */
module Protocol {
  import opened Wrappers
  import opened Bytes
  import opened Codec
  import opened RuntimeInfo
  import opened DeviceInfo
  import opened CellVoltages
  import opened TimerInfo

  /** A registered response slot: still waiting, or resolved with a frame. */
  datatype Waiter = Pending | Done(frame: seq<Byte>)

  /** Everything the client keeps between calls. `written` is the log of
      frames handed to the transport, oldest first. */
  datatype State = State(
    connected: bool,
    deviceInfo: Option<Info>,
    runtimeData: Option<RuntimeSnapshot>,
    cellData: Option<CellPack>,
    timerData: Option<TimerSchedule>,
    callbacks: map<Byte, Waiter>,
    written: seq<seq<Byte>>)

  /** A notification and the milliseconds between the request's write and
      its arrival. */
  datatype Arrival = Arrival(atMs: nat, frame: seq<Byte>)

  /** What the transport does during one request: whether the write succeeds
      and which notifications then arrive, in arrival order. */
  datatype Link = Link(writeOk: bool, arrivals: seq<Arrival>)

  /** What a request call returns: False when not connected or when the write
      fails, the ValueError the frame builder raises for an over-long
      payload, True when no response was awaited, the response frame, or
      None on timeout. */
  datatype SendResult = NotConnected | Raised | WriteFailed | Sent | Response(frame: seq<Byte>) | NoResponse

  /** Python truthiness of a request's return value. */
  predicate Truthy(r: SendResult)
  {
    r.Sent? || r.Response?
  }

  const RESPONSE_TIMEOUT_MS: nat := 3000
  const CELL_TIMEOUT_MS: nat := 5000
  /** The pause a query takes after its request before reading its slot. */
  const QUERY_PAUSE_MS: nat := 1000
  /** The pause before the cell-voltage retry, and after the last attempt. */
  const RETRY_PAUSE_MS: nat := 1000
  const CELL_PAUSE_MS: nat := 500
  const CELL_FIRST_PAYLOAD: seq<Byte> := [0x00]
  const CELL_RETRY_PAYLOAD: seq<Byte> := [0x01]

  /** How long a request waits for its response. */
  function TimeoutMs(cmd: Byte): (t: nat)
    ensures t == (if cmd == CMD_CELL_VOLTAGES then 5000 else 3000)
  {
    if cmd == CMD_CELL_VOLTAGES then CELL_TIMEOUT_MS else RESPONSE_TIMEOUT_MS
  }

  /** The client before anything happened. */
  function Initial(connected: bool): State
  {
    State(connected, None, None, None, None, map[], [])
  }

  // ---------------------------------------------------------------------
  // The notification handler

  /** The decoder for the frame's opcode updates its slot when it succeeds;
      every other opcode changes nothing. */
  function Decode(st: State, data: seq<Byte>): (r: State)
    requires |data| >= 4
    ensures r.connected == st.connected && r.callbacks == st.callbacks && r.written == st.written
  {
    var cmd := data[3];
    if cmd == CMD_RUNTIME_INFO then
      (if DecodeRuntime(data).Some? then st.(runtimeData := DecodeRuntime(data)) else st)
    else if cmd == CMD_DEVICE_INFO then
      (if DecodeDeviceInfoFrame(data).Some? then st.(deviceInfo := DecodeDeviceInfoFrame(data)) else st)
    else if cmd == CMD_CELL_VOLTAGES then
      (if DecodeCellsAsWritten(data).Some? then st.(cellData := DecodeCellsAsWritten(data)) else st)
    else if cmd == CMD_GET_TIMERS then
      (if DecodeTimers(data).Some? then st.(timerData := DecodeTimers(data)) else st)
    else st
  }

  /** A waiter registered for the frame's opcode that is still pending is
      resolved with the frame. */
  function Resolve(callbacks: map<Byte, Waiter>, data: seq<Byte>): (r: map<Byte, Waiter>)
    requires |data| >= 4
    ensures r.Keys == callbacks.Keys
  {
    var cmd := data[3];
    if cmd in callbacks && callbacks[cmd].Pending? then callbacks[cmd := Done(data)] else callbacks
  }

  /** One notification: frames under 4 bytes are dropped; otherwise the frame
      is decoded first and the waiter resolved after. */
  function Handle(st: State, data: seq<Byte>): (r: State)
    ensures r.connected == st.connected && r.written == st.written
    ensures r.callbacks.Keys == st.callbacks.Keys
  {
    if |data| < 4 then st
    else
      var d := Decode(st, data);
      d.(callbacks := Resolve(d.callbacks, data))
  }

  /** The slot of the frame's opcode shows the frame's content whenever the
      frame decodes. */
  predicate Reflects(st: State, f: seq<Byte>)
    requires |f| >= 4
  {
    && (f[3] == CMD_RUNTIME_INFO && DecodeRuntime(f).Some? ==> st.runtimeData == DecodeRuntime(f))
    && (f[3] == CMD_DEVICE_INFO && DecodeDeviceInfoFrame(f).Some? ==> st.deviceInfo == DecodeDeviceInfoFrame(f))
    && (f[3] == CMD_CELL_VOLTAGES && DecodeCellsAsWritten(f).Some? ==> st.cellData == DecodeCellsAsWritten(f))
    && (f[3] == CMD_GET_TIMERS && DecodeTimers(f).Some? ==> st.timerData == DecodeTimers(f))
  }

  /** A frame too short to carry an opcode changes nothing. */
  lemma ShortFrameIgnored(st: State, data: seq<Byte>)
    requires |data| < 4
    ensures Handle(st, data) == st
  {
  }

  /** After a notification its decoded content is in its slot. */
  lemma HandleReflects(st: State, f: seq<Byte>)
    requires |f| >= 4
    ensures Reflects(Handle(st, f), f)
  {
  }

  /** A notification touches only the slot of its own opcode, and only when
      the frame decodes: a failed decode keeps the earlier value. */
  lemma HandleTouchesOneSlot(st: State, f: seq<Byte>)
    requires |f| >= 4
    ensures f[3] != CMD_RUNTIME_INFO || DecodeRuntime(f).None? ==> Handle(st, f).runtimeData == st.runtimeData
    ensures f[3] != CMD_DEVICE_INFO || DecodeDeviceInfoFrame(f).None? ==> Handle(st, f).deviceInfo == st.deviceInfo
    ensures f[3] != CMD_CELL_VOLTAGES || DecodeCellsAsWritten(f).None? ==> Handle(st, f).cellData == st.cellData
    ensures f[3] != CMD_GET_TIMERS || DecodeTimers(f).None? ==> Handle(st, f).timerData == st.timerData
  {
  }

  /** Waiter resolution: a pending waiter for the frame's opcode receives the
      frame, a resolved waiter keeps its first frame, and the waiters of
      other opcodes are untouched. */
  lemma HandleResolves(st: State, f: seq<Byte>, c: Byte)
    requires |f| >= 4 && c in st.callbacks
    ensures c == f[3] && st.callbacks[c].Pending? ==> Handle(st, f).callbacks[c] == Done(f)
    ensures st.callbacks[c].Done? ==> Handle(st, f).callbacks[c] == st.callbacks[c]
    ensures c != f[3] ==> Handle(st, f).callbacks[c] == st.callbacks[c]
  {
  }

  // ---------------------------------------------------------------------
  // Waiting for notifications

  /** The frames arriving from index `i` on are handled, in order, while they
      arrive before `until` and, when `watch` names an opcode, while its
      waiter is unresolved. The result is the state, the index of the first
      arrival not handled, and the arrival time of the last one handled
      (`now` when none was). */
  function Pump(st: State, arrivals: seq<Arrival>, i: nat, now: nat, until: nat, watch: Option<Byte>): (r: (State, nat, nat))
    ensures r.0.connected == st.connected && r.0.written == st.written
    ensures r.0.callbacks.Keys == st.callbacks.Keys
    ensures i <= r.1
    decreases |arrivals| - i
  {
    if i >= |arrivals| || arrivals[i].atMs >= until || (watch.Some? && Resolved(st, watch.value)) then (st, i, now)
    else Pump(Handle(st, arrivals[i].frame), arrivals, i + 1, arrivals[i].atMs, until, watch)
  }

  predicate Resolved(st: State, cmd: Byte)
  {
    cmd in st.callbacks && st.callbacks[cmd].Done?
  }

  /** Handles the arrivals `i .. k-1` one after another. */
  function HandleAll(st: State, arrivals: seq<Arrival>, i: nat, k: nat): State
    requires i <= k <= |arrivals|
    decreases k - i
  {
    if i == k then st else HandleAll(Handle(st, arrivals[i].frame), arrivals, i + 1, k)
  }

  /** A frame that carries opcode `cmd`. */
  predicate Answers(f: seq<Byte>, cmd: Byte)
  {
    |f| >= 4 && f[3] == cmd
  }

  /** The arrivals `i .. j` all come before `until`. */
  predicate InWindow(arrivals: seq<Arrival>, i: nat, j: nat, until: nat)
    requires j < |arrivals|
  {
    forall l :: i <= l <= j ==> arrivals[l].atMs < until
  }

  /** The index of the first arrival from `i` on that answers `cmd`, looking
      only at arrivals before the first one at or after `until`. */
  function FirstReply(arrivals: seq<Arrival>, i: nat, until: nat, cmd: Byte): (r: Option<nat>)
    ensures r.Some? ==> i <= r.value < |arrivals|
    ensures r.Some? ==> Answers(arrivals[r.value].frame, cmd) && InWindow(arrivals, i, r.value, until)
    ensures r.Some? ==> forall j :: i <= j < r.value ==> !Answers(arrivals[j].frame, cmd)
    ensures r.None? ==> forall j :: i <= j < |arrivals| && InWindow(arrivals, i, j, until) ==> !Answers(arrivals[j].frame, cmd)
    decreases |arrivals| - i
  {
    if i >= |arrivals| || arrivals[i].atMs >= until then None
    else if Answers(arrivals[i].frame, cmd) then Some(i)
    else FirstReply(arrivals, i + 1, until, cmd)
  }

  /** Waiting on a pending waiter stops right after the first answering
      frame, having handled everything before it; without an answer the
      waiter is still pending when the wait ends. */
  lemma {:induction false} PumpWaits(st: State, arrivals: seq<Arrival>, i: nat, now: nat, until: nat, cmd: Byte)
    requires cmd in st.callbacks && st.callbacks[cmd].Pending?
    requires i <= |arrivals|
    ensures var r := Pump(st, arrivals, i, now, until, Some(cmd));
      match FirstReply(arrivals, i, until, cmd)
      case Some(k) =>
        && r.0 == Handle(HandleAll(st, arrivals, i, k), arrivals[k].frame)
        && r.0.callbacks[cmd] == Done(arrivals[k].frame)
        && r.1 == k + 1 && r.2 == arrivals[k].atMs
      case None =>
        cmd in r.0.callbacks && r.0.callbacks[cmd].Pending?
    decreases |arrivals| - i
  {
    if i >= |arrivals| || arrivals[i].atMs >= until {
    } else {
      var f := arrivals[i].frame;
      var st1 := Handle(st, f);
      if |f| >= 4 {
        HandleResolves(st, f, cmd);
      }
      if |f| >= 4 && f[3] == cmd {
        assert FirstReply(arrivals, i, until, cmd) == Some(i);
        assert HandleAll(st, arrivals, i, i) == st;
        assert Resolved(st1, cmd);
      } else {
        assert st1.callbacks[cmd].Pending?;
        PumpWaits(st1, arrivals, i + 1, arrivals[i].atMs, until, cmd);
        match FirstReply(arrivals, i + 1, until, cmd)
        case Some(k) =>
          assert HandleAll(st, arrivals, i, k) == HandleAll(st1, arrivals, i + 1, k);
        case None =>
      }
    }
  }

  // ---------------------------------------------------------------------
  // One request

  /** The outcome of one request: the new state, what the call returns, the
      index of the first arrival it did not handle, and when (in
      milliseconds after the write) its wait ended. */
  datatype Exchange = Exchange(state: State, result: SendResult, next: nat, endMs: nat)

  /** The request correlator. Not connected: False, nothing done. Payload
      over 250 bytes: the frame builder raises before anything is
      registered or written. With a response awaited, a pending waiter is
      registered for the opcode (replacing any earlier one) before the write;
      a failed write returns False and leaves that waiter registered. After a
      successful write the call waits for the first answering frame or the
      timeout, and the waiter is removed either way. */
  function Send(st: State, cmd: Byte, data: seq<Byte>, wait: bool, link: Link): (e: Exchange)
  {
    if !st.connected then Exchange(st, NotConnected, 0, 0)
    else if |data| > MAX_PAYLOAD then Exchange(st, Raised, 0, 0)
    else
      var st1 := if wait then st.(callbacks := st.callbacks[cmd := Pending]) else st;
      if !link.writeOk then Exchange(st1, WriteFailed, 0, 0)
      else
        var st2 := st1.(written := st1.written + [Frame(cmd, data)]);
        if !wait then Exchange(st2, Sent, 0, 0)
        else
          var r := Pump(st2, link.arrivals, 0, 0, TimeoutMs(cmd), Some(cmd));
          var w := r.0.callbacks[cmd];
          var done := r.0.(callbacks := r.0.callbacks - {cmd});
          if w.Done? then Exchange(done, Response(w.frame), r.1, r.2)
          else Exchange(done, NoResponse, r.1, TimeoutMs(cmd))
  }

  /** The notifications handled during a pause of `ms` milliseconds after a
      request's wait ended. */
  function Pause(e: Exchange, link: Link, ms: nat): State
  {
    Pump(e.state, link.arrivals, e.next, e.endMs, e.endMs + ms, None).0
  }

  /** A query (device info, runtime info, timer settings): the request with
      the default payload, awaited, then a one-second pause. */
  function Query(st: State, cmd: Byte, link: Link): State
  {
    Pause(Send(st, cmd, DEFAULT_PAYLOAD, true, link), link, QUERY_PAUSE_MS)
  }

  /** The cell-voltage query: the request with payload 0x00; when that
      returns nothing truthy, a one-second pause and the request again with
      payload 0x01; then a half-second pause. */
  function CellQuery(st: State, first: Link, second: Link): State
  {
    var e1 := Send(st, CMD_CELL_VOLTAGES, CELL_FIRST_PAYLOAD, true, first);
    if Truthy(e1.result) then Pause(e1, first, CELL_PAUSE_MS)
    else
      var e2 := Send(Pause(e1, first, RETRY_PAUSE_MS), CMD_CELL_VOLTAGES, CELL_RETRY_PAYLOAD, true, second);
      Pause(e2, second, CELL_PAUSE_MS)
  }

  /** A setter: the request with its payload, awaited, with no pause. */
  function Command(st: State, cmd: Byte, data: seq<Byte>, link: Link): State
  {
    Send(st, cmd, data, true, link).state
  }

  /** Without a connection a request returns False and changes nothing. */
  lemma SendNotConnected(st: State, cmd: Byte, data: seq<Byte>, wait: bool, link: Link)
    requires !st.connected
    ensures Send(st, cmd, data, wait, link) == Exchange(st, NotConnected, 0, 0)
  {
  }

  /** A payload over 250 bytes raises before any waiter is registered or any
      byte is written. */
  lemma SendRejectsOversize(st: State, cmd: Byte, data: seq<Byte>, wait: bool, link: Link)
    requires st.connected && |data| > MAX_PAYLOAD
    ensures Send(st, cmd, data, wait, link) == Exchange(st, Raised, 0, 0)
  {
  }

  /** A connected request with a valid payload writes exactly its frame when
      the transport accepts it, and nothing otherwise. */
  lemma SendWrites(st: State, cmd: Byte, data: seq<Byte>, wait: bool, link: Link)
    requires st.connected && |data| <= MAX_PAYLOAD
    ensures Send(st, cmd, data, wait, link).state.written
      == st.written + (if link.writeOk then [Frame(cmd, data)] else [])
  {
    var st1 := if wait then st.(callbacks := st.callbacks[cmd := Pending]) else st;
    if link.writeOk && wait {
      var st2 := st1.(written := st1.written + [Frame(cmd, data)]);
      var r := Pump(st2, link.arrivals, 0, 0, TimeoutMs(cmd), Some(cmd));
      assert r.0.written == st2.written;
    }
  }

  /** A failed write returns False and leaves the registered waiter behind,
      still pending. */
  lemma SendWriteFailure(st: State, cmd: Byte, data: seq<Byte>, link: Link)
    requires st.connected && |data| <= MAX_PAYLOAD && !link.writeOk
    ensures var e := Send(st, cmd, data, true, link);
      e.result == WriteFailed && e.state.callbacks == st.callbacks[cmd := Pending]
  {
  }

  /** A request that is not awaited returns True once written and registers
      no waiter. */
  lemma SendWithoutWait(st: State, cmd: Byte, data: seq<Byte>, link: Link)
    requires st.connected && |data| <= MAX_PAYLOAD && link.writeOk
    ensures var e := Send(st, cmd, data, false, link);
      e.result == Sent && e.state.callbacks == st.callbacks
  {
  }

  /** An awaited request returns the first frame carrying its opcode that
      arrives before the timeout, or None when there is none; either way
      its waiter is gone afterwards and every other waiter is still there. */
  lemma SendCorrelates(st: State, cmd: Byte, data: seq<Byte>, link: Link)
    requires st.connected && |data| <= MAX_PAYLOAD && link.writeOk
    ensures var e := Send(st, cmd, data, true, link);
      && (match FirstReply(link.arrivals, 0, TimeoutMs(cmd), cmd)
          case Some(k) => e.result == Response(link.arrivals[k].frame)
          case None => e.result == NoResponse)
      && e.state.callbacks.Keys == st.callbacks.Keys - {cmd}
  {
    var st1 := st.(callbacks := st.callbacks[cmd := Pending]);
    var st2 := st1.(written := st1.written + [Frame(cmd, data)]);
    PumpWaits(st2, link.arrivals, 0, 0, TimeoutMs(cmd), cmd);
  }

  /** The state a request returns already shows the decoded response: the
      handler updates the slot before it resolves the waiter. */
  lemma SendResponseReflected(st: State, cmd: Byte, data: seq<Byte>, link: Link)
    requires st.connected && |data| <= MAX_PAYLOAD && link.writeOk
    requires Send(st, cmd, data, true, link).result.Response?
    ensures var e := Send(st, cmd, data, true, link);
      |e.result.frame| >= 4 && e.result.frame[3] == cmd && Reflects(e.state, e.result.frame)
  {
    var st1 := st.(callbacks := st.callbacks[cmd := Pending]);
    var st2 := st1.(written := st1.written + [Frame(cmd, data)]);
    PumpWaits(st2, link.arrivals, 0, 0, TimeoutMs(cmd), cmd);
    match FirstReply(link.arrivals, 0, TimeoutMs(cmd), cmd)
    case Some(k) =>
      var f := link.arrivals[k].frame;
      HandleReflects(HandleAll(st2, link.arrivals, 0, k), f);
    case None =>
  }

  /** The cell-voltage query sends 0x00 first and retries with 0x01 exactly
      when the first attempt returned nothing truthy; the written log shows
      one frame per accepted write. */
  lemma CellQueryFrames(st: State, first: Link, second: Link)
    requires st.connected
    ensures var e1 := Send(st, CMD_CELL_VOLTAGES, CELL_FIRST_PAYLOAD, true, first);
      CellQuery(st, first, second).written
        == st.written
          + (if first.writeOk then [Frame(CMD_CELL_VOLTAGES, CELL_FIRST_PAYLOAD)] else [])
          + (if !Truthy(e1.result) && second.writeOk then [Frame(CMD_CELL_VOLTAGES, CELL_RETRY_PAYLOAD)] else [])
  {
    var e1 := Send(st, CMD_CELL_VOLTAGES, CELL_FIRST_PAYLOAD, true, first);
    SendWrites(st, CMD_CELL_VOLTAGES, CELL_FIRST_PAYLOAD, true, first);
    var s1 := Pause(e1, first, RETRY_PAUSE_MS);
    if !Truthy(e1.result) {
      SendWrites(s1, CMD_CELL_VOLTAGES, CELL_RETRY_PAYLOAD, true, second);
    }
  }

  /** A write that fails on the first attempt always leads to the retry. */
  lemma CellQueryRetriesAfterFailure(st: State, first: Link, second: Link)
    requires st.connected && !first.writeOk
    ensures !Truthy(Send(st, CMD_CELL_VOLTAGES, CELL_FIRST_PAYLOAD, true, first).result)
  {
  }

  /** A first attempt that is answered is not retried. */
  lemma CellQueryAnsweredOnce(st: State, first: Link, second: Link)
    requires st.connected && first.writeOk
    requires FirstReply(first.arrivals, 0, CELL_TIMEOUT_MS, CMD_CELL_VOLTAGES).Some?
    ensures CellQuery(st, first, second).written == st.written + [Frame(CMD_CELL_VOLTAGES, CELL_FIRST_PAYLOAD)]
  {
    SendCorrelates(st, CMD_CELL_VOLTAGES, CELL_FIRST_PAYLOAD, first);
    CellQueryFrames(st, first, second);
  }
}
