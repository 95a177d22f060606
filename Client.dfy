/** The BLE client object: its slots, its waiter table and its command API.
    Every method is proved equal to the matching function of module Protocol
    (or Monitoring), so the properties proved there hold of the object. */
module Client {
  import opened Wrappers
  import opened Bytes
  import opened Text
  import opened Codec
  import opened RuntimeInfo
  import opened DeviceInfo
  import opened CellVoltages
  import opened TimerInfo
  import opened Protocol
  import opened Monitoring

  /** What a setter does: return a boolean, or let the frame builder's
      ValueError propagate. */
  datatype Outcome = Returned(ok: bool) | ValueError

  const DOD_MIN: int := 10
  const DOD_MAX: int := 100
  /** The text between the SSID and the password in a Wi-Fi configuration. */
  const WIFI_SEPARATOR: string := "<.,.>"
  const REBOOT_PAYLOAD: seq<Byte> := [0x01]

  /** The payload of a Wi-Fi configuration: the UTF-8 encoding of the SSID,
      the separator and the password. */
  function WifiPayload(ssid: string, password: string): seq<Byte>
  {
    Utf8(ssid + WIFI_SEPARATOR + password)
  }

  class Marstek {
    var connected: bool
    var deviceInfo: Option<Info>
    var runtimeData: Option<RuntimeSnapshot>
    var cellData: Option<CellPack>
    var timerData: Option<TimerSchedule>
    /** The waiter table: one response slot per awaited opcode. */
    var callbacks: map<Byte, Waiter>
    /** The frames handed to the transport, oldest first. */
    var written: seq<seq<Byte>>

    function Snapshot(): State
      reads this
    {
      State(connected, deviceInfo, runtimeData, cellData, timerData, callbacks, written)
    }

    /** A client with empty slots and no waiters; `connected` stands for the
        outcome of the connection attempt, which is not modelled. */
    constructor(connected: bool)
      ensures Snapshot() == Initial(connected)
    {
      this.connected := connected;
      deviceInfo := None;
      runtimeData := None;
      cellData := None;
      timerData := None;
      callbacks := map[];
      written := [];
    }

    /** The notification handler: drop short frames, run the decoder for the
        opcode, then resolve a pending waiter for that opcode. */
    method NotificationHandler(data: seq<Byte>)
      modifies this
      ensures Snapshot() == Handle(old(Snapshot()), data)
    {
      if |data| < 4 {
        return;
      }
      RunDecoder(data);
      var cmd := data[3];
      if cmd in callbacks && callbacks[cmd].Pending? {
        callbacks := callbacks[cmd := Done(data)];
      }
    }

    /** The decoder dispatch: the slot of the frame's opcode is replaced when
        its decoder succeeds. */
    method RunDecoder(data: seq<Byte>)
      requires |data| >= 4
      modifies this
      ensures Snapshot() == Decode(old(Snapshot()), data)
    {
      var cmd := data[3];
      if cmd == CMD_RUNTIME_INFO {
        StoreRuntimeInfo(data);
      } else if cmd == CMD_DEVICE_INFO {
        StoreDeviceInfo(data);
      } else if cmd == CMD_CELL_VOLTAGES {
        StoreCellVoltages(data);
      } else if cmd == CMD_GET_TIMERS {
        StoreTimerInfo(data);
      }
    }

    /** The runtime decoder: the runtime slot takes the readings of a frame
        long enough to hold them and is left alone otherwise. */
    method StoreRuntimeInfo(data: seq<Byte>)
      modifies this
      ensures Snapshot() == old(Snapshot()).(runtimeData := if DecodeRuntime(data).Some? then DecodeRuntime(data) else old(runtimeData))
    {
      var r := DecodeRuntime(data);
      if r.Some? {
        runtimeData := r;
      }
    }

    /** The device-info decoder: the slot takes the parsed fields when the
        three markers are present. */
    method StoreDeviceInfo(data: seq<Byte>)
      modifies this
      ensures Snapshot() == old(Snapshot()).(deviceInfo := if DecodeDeviceInfoFrame(data).Some? then DecodeDeviceInfoFrame(data) else old(deviceInfo))
    {
      var d := DecodeDeviceInfoFrame(data);
      if d.Some? {
        deviceInfo := d;
      }
    }

    /** The cell-voltage decoder: the slot takes whichever form parses. */
    method StoreCellVoltages(data: seq<Byte>)
      modifies this
      ensures Snapshot() == old(Snapshot()).(cellData := if DecodeCellsAsWritten(data).Some? then DecodeCellsAsWritten(data) else old(cellData))
    {
      var c := DecodeCellVoltages(data);
      if c.Some? {
        cellData := c;
      }
    }

    /** The timer decoder: the slot takes the schedule of a frame long enough
        to hold it. */
    method StoreTimerInfo(data: seq<Byte>)
      modifies this
      ensures Snapshot() == old(Snapshot()).(timerData := if DecodeTimers(data).Some? then DecodeTimers(data) else old(timerData))
    {
      var t := DecodeTimers(data);
      if t.Some? {
        timerData := t;
      }
    }

    /** Handles the notifications from index `from` on, in arrival order,
        while they arrive before `until` and, when `watch` names an opcode,
        until its waiter is resolved. */
    method PumpArrivals(arrivals: seq<Arrival>, from: nat, now: nat, until: nat, watch: Option<Byte>)
      returns (next: nat, last: nat)
      modifies this
      ensures (Snapshot(), next, last) == Pump(old(Snapshot()), arrivals, from, now, until, watch)
    {
      next, last := from, now;
      while next < |arrivals| && arrivals[next].atMs < until && !(watch.Some? && Resolved(Snapshot(), watch.value))
        invariant Pump(Snapshot(), arrivals, next, last, until, watch) == Pump(old(Snapshot()), arrivals, from, now, until, watch)
        decreases |arrivals| - next
      {
        NotificationHandler(arrivals[next].frame);
        last := arrivals[next].atMs;
        next := next + 1;
      }
    }

    /** The request correlator: build the frame, register a waiter when a
        response is awaited, write, wait for the response or the timeout,
        and remove the waiter. */
    method SendCommand(cmd: Byte, data: seq<Byte>, wait: bool, link: Link)
      returns (res: SendResult, next: nat, endMs: nat)
      modifies this
      ensures Send(old(Snapshot()), cmd, data, wait, link) == Exchange(Snapshot(), res, next, endMs)
    {
      if !connected {
        return NotConnected, 0, 0;
      }
      if |data| > MAX_PAYLOAD {
        return Raised, 0, 0;
      }
      var packet := CreateCommand(cmd, data);
      if wait {
        callbacks := callbacks[cmd := Pending];
      }
      if !link.writeOk {
        return WriteFailed, 0, 0;
      }
      written := written + [packet];
      if !wait {
        return Sent, 0, 0;
      }
      next, endMs := PumpArrivals(link.arrivals, 0, 0, TimeoutMs(cmd), Some(cmd));
      var w := callbacks[cmd];
      callbacks := callbacks - {cmd};
      if w.Done? {
        res := Response(w.frame);
      } else {
        res := NoResponse;
        endMs := TimeoutMs(cmd);
      }
    }

    /** A query: the request with the default payload, then the pause. */
    method QuerySlot(cmd: Byte, link: Link)
      modifies this
      ensures Snapshot() == Query(old(Snapshot()), cmd, link)
    {
      var res, next, endMs := SendCommand(cmd, DEFAULT_PAYLOAD, true, link);
      next, endMs := PumpArrivals(link.arrivals, next, endMs, endMs + QUERY_PAUSE_MS, None);
    }

    method GetDeviceInfo(link: Link) returns (r: Option<Info>)
      modifies this
      ensures Snapshot() == Query(old(Snapshot()), CMD_DEVICE_INFO, link)
      ensures r == deviceInfo
    {
      QuerySlot(CMD_DEVICE_INFO, link);
      r := deviceInfo;
    }

    method GetRuntimeInfo(link: Link) returns (r: Option<RuntimeSnapshot>)
      modifies this
      ensures Snapshot() == Query(old(Snapshot()), CMD_RUNTIME_INFO, link)
      ensures r == runtimeData
    {
      QuerySlot(CMD_RUNTIME_INFO, link);
      r := runtimeData;
    }

    method GetTimerSettings(link: Link) returns (r: Option<TimerSchedule>)
      modifies this
      ensures Snapshot() == Query(old(Snapshot()), CMD_GET_TIMERS, link)
      ensures r == timerData
    {
      QuerySlot(CMD_GET_TIMERS, link);
      r := timerData;
    }

    /** The cell-voltage query with its retry. */
    method GetCellVoltages(first: Link, second: Link) returns (r: Option<CellPack>)
      modifies this
      ensures Snapshot() == CellQuery(old(Snapshot()), first, second)
      ensures r == cellData
    {
      var res, next, endMs := SendCommand(CMD_CELL_VOLTAGES, CELL_FIRST_PAYLOAD, true, first);
      if Truthy(res) {
        next, endMs := PumpArrivals(first.arrivals, next, endMs, endMs + CELL_PAUSE_MS, None);
      } else {
        next, endMs := PumpArrivals(first.arrivals, next, endMs, endMs + RETRY_PAUSE_MS, None);
        res, next, endMs := SendCommand(CMD_CELL_VOLTAGES, CELL_RETRY_PAYLOAD, true, second);
        next, endMs := PumpArrivals(second.arrivals, next, endMs, endMs + CELL_PAUSE_MS, None);
      }
      r := cellData;
    }

    /** Depth of discharge: only 10..100 is sent; the answer is True for any
        value in range, whatever happened to the request. */
    method SetDod(value: int, link: Link) returns (ok: bool)
      modifies this
      ensures ok <==> DOD_MIN <= value <= DOD_MAX
      ensures ok ==> Snapshot() == Command(old(Snapshot()), CMD_SET_DOD, [value], link)
      ensures !ok ==> Snapshot() == old(Snapshot())
    {
      if !(DOD_MIN <= value <= DOD_MAX) {
        return false;
      }
      var res, next, endMs := SendCommand(CMD_SET_DOD, [value], true, link);
      ok := true;
    }

    /** Region: only 0 (EU), 1 (China) and 2 (non-EU) are sent. */
    method SetRegion(region: int, link: Link) returns (ok: bool)
      modifies this
      ensures ok <==> region in {0, 1, 2}
      ensures ok ==> Snapshot() == Command(old(Snapshot()), CMD_SET_REGION, [region], link)
      ensures !ok ==> Snapshot() == old(Snapshot())
    {
      if region !in {0, 1, 2} {
        return false;
      }
      var res, next, endMs := SendCommand(CMD_SET_REGION, [region], true, link);
      ok := true;
    }

    /** Adaptive mode: 0 enables it, 1 disables it. */
    method EnableAdaptiveMode(enable: bool, link: Link) returns (ok: bool)
      modifies this
      ensures ok
      ensures Snapshot() == Command(old(Snapshot()), CMD_ENABLE_ADAPTIVE, [if enable then 0 else 1], link)
    {
      var value: Byte := if enable then 0x00 else 0x01;
      var res, next, endMs := SendCommand(CMD_ENABLE_ADAPTIVE, [value], true, link);
      ok := true;
    }

    /** Wi-Fi configuration: the encoded SSID, separator and password; a
        payload over 250 bytes raises once the client is connected. */
    method SetWifiConfig(ssid: string, password: string, link: Link) returns (r: Outcome)
      modifies this
      ensures r == (if old(connected) && |WifiPayload(ssid, password)| > MAX_PAYLOAD then ValueError else Returned(true))
      ensures Snapshot() == Command(old(Snapshot()), CMD_SET_WIFI, WifiPayload(ssid, password), link)
    {
      var data := WifiPayload(ssid, password);
      var res, next, endMs := SendCommand(CMD_SET_WIFI, data, true, link);
      if res == Raised {
        return ValueError;
      }
      r := Returned(true);
    }

    method RebootDevice(link: Link) returns (ok: bool)
      modifies this
      ensures ok
      ensures Snapshot() == Command(old(Snapshot()), CMD_REBOOT_DEVICE, REBOOT_PAYLOAD, link)
    {
      var res, next, endMs := SendCommand(CMD_REBOOT_DEVICE, REBOOT_PAYLOAD, true, link);
      ok := true;
    }

    method FactoryReset(link: Link) returns (ok: bool)
      modifies this
      ensures ok
      ensures Snapshot() == Command(old(Snapshot()), CMD_FACTORY_SETTINGS, REBOOT_PAYLOAD, link)
    {
      var res, next, endMs := SendCommand(CMD_FACTORY_SETTINGS, REBOOT_PAYLOAD, true, link);
      ok := true;
    }

    /** One monitoring iteration: the runtime query, then the cell query,
        each reading appended to its list when saving is on and the slot
        holds something. */
    method MonitorIteration(c: Cycle, saveData: bool, runtimeKept: seq<RuntimeSnapshot>, cellKept: seq<CellPack>)
      returns (poll: Poll, runtimeOut: seq<RuntimeSnapshot>, cellOut: seq<CellPack>)
      modifies this
      ensures var it := Iterate(old(Snapshot()), c);
        Snapshot() == it.1 && poll == Poll(it.0.runtimeData, it.1.cellData)
      ensures runtimeOut == runtimeKept + (if saveData && poll.runtime.Some? then [poll.runtime.value] else [])
      ensures cellOut == cellKept + (if saveData && poll.cells.Some? then [poll.cells.value] else [])
    {
      var runtime := GetRuntimeInfo(c.runtime);
      runtimeOut := runtimeKept;
      if runtime.Some? && saveData {
        runtimeOut := runtimeOut + [runtime.value];
      }
      var cells := GetCellVoltages(c.cellFirst, c.cellSecond);
      cellOut := cellKept;
      if cells.Some? && saveData {
        cellOut := cellOut + [cells.value];
      }
      poll := Poll(runtime, cells);
    }

    /** Continuous monitoring: poll runtime and cell data once per cycle
        until the duration is reached or the cycles run out, keep what the
        slots hold when saving is on, save every ten iterations and once
        more on the way out. Returns every save made and every poll. */
    method MonitorContinuous(saveData: bool, duration: nat, cycles: seq<Cycle>)
      returns (saves: seq<Saved>, polls: seq<Poll>)
      modifies this
      ensures (Snapshot(), polls) == Run(old(Snapshot()), cycles, Rounds(cycles, duration))
      ensures saves == Saves(polls, saveData)
    {
      ghost var st0 := Snapshot();
      var runtimeKept: seq<RuntimeSnapshot> := [];
      var cellKept: seq<CellPack> := [];
      saves := [];
      polls := [];
      var iteration := 0;
      while iteration < |cycles|
        invariant iteration <= |cycles|
        invariant RoundsFrom(cycles, duration, iteration) == Rounds(cycles, duration)
        invariant (Snapshot(), polls) == Run(st0, cycles, iteration)
        invariant Saved(runtimeKept, cellKept) == Kept(polls, saveData)
        invariant saves == Periodic(polls, saveData)
      {
        if duration > 0 && cycles[iteration].elapsed >= duration {
          break;
        }
        var previous := polls;
        var poll := Poll(None, None);
        poll, runtimeKept, cellKept := MonitorIteration(cycles[iteration], saveData, runtimeKept, cellKept);
        polls := polls + [poll];
        KeptSnoc(previous, poll, saveData);
        PeriodicSnoc(previous, poll, saveData);
        iteration := iteration + 1;
        if saveData && iteration % SAVE_EVERY == 0 {
          saves := saves + [Saved(runtimeKept, cellKept)];
        }
      }
      if saveData {
        saves := saves + [Saved(runtimeKept, cellKept)];
      }
    }
  }

  /** A setter's frame reaches the transport exactly when the client is
      connected and the write succeeds, and the device can read the opcode
      and the value back from it. */
  lemma CommandWrites(st: State, cmd: Byte, data: seq<Byte>, link: Link)
    requires |data| <= MAX_PAYLOAD
    ensures Command(st, cmd, data, link).written
      == st.written + (if st.connected && link.writeOk then [Frame(cmd, data)] else [])
    ensures ExtractOpcode(Frame(cmd, data)) == Some(cmd) && Payload(Frame(cmd, data)) == data
  {
    if st.connected {
      SendWrites(st, cmd, data, true, link);
    }
  }

  /** The device splits a Wi-Fi payload back into SSID and password at the
      first separator, provided the SSID has no '<' and everything is ASCII. */
  lemma WifiPayloadSplits(ssid: string, password: string)
    requires IsAscii(ssid + WIFI_SEPARATOR + password)
    requires '<' !in ssid
    ensures var t := AsciiText(WifiPayload(ssid, password));
      && Find(t, WIFI_SEPARATOR, 0) == |ssid|
      && t[..|ssid|] == ssid
      && t[|ssid| + |WIFI_SEPARATOR|..] == password
  {
    var t := ssid + WIFI_SEPARATOR + password;
    AsciiRoundTrip(t);
    assert t[|ssid|..|ssid| + |WIFI_SEPARATOR|] == WIFI_SEPARATOR;
    forall j | 0 <= j < |ssid|
      ensures !OccursAt(t, WIFI_SEPARATOR, j)
    {
      NotOccursAt(t, WIFI_SEPARATOR, j, 0);
    }
    FindAt(t, WIFI_SEPARATOR, 0, |ssid|);
    assert t[..|ssid|] == ssid;
    assert t[|ssid| + |WIFI_SEPARATOR|..] == password;
  }
}
