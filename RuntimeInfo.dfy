/** Decoding of the runtime-information response (opcode 0x03): a fixed
    binary layout read from the whole frame, so offsets count from the first
    header byte. Battery percent is kept in tenths of a percent, the raw
    16-bit value, instead of being divided by ten. */
module RuntimeInfo {
  import opened Wrappers
  import opened Bytes
  import opened Codec

  /** Shortest frame the decoder accepts. */
  const RUNTIME_MIN_LEN: nat := 36

  datatype PvInput = PvInput(active: bool, transparent: bool, power: nat)

  datatype Battery = Battery(percentTenths: nat, capacityWh: nat, dod: nat, temp1: nat, temp2: nat)

  datatype Output = Output(active: bool, power: nat)

  datatype Settings = Settings(
    loadFirst: bool,
    powerOutputMode: nat,
    dischargeThreshold: nat,
    sceneMode: nat,
    region: nat)

  datatype Status = Status(firmware: nat, wifi: bool, mqtt: bool, extBattery1: bool, extBattery2: bool)

  datatype RuntimeSnapshot = RuntimeSnapshot(
    pv1: PvInput,
    pv2: PvInput,
    battery: Battery,
    output1: Output,
    output2: Output,
    settings: Settings,
    status: Status)

  /** A solar input from its state byte: any non-zero state is active and
      state 2 is pass-through ("transparent"). */
  function DecodePv(state: Byte, power: nat): PvInput
  {
    PvInput(state > 0, state == 2, power)
  }

  /** Network flags from the combined status byte: 1 is WiFi only, 2 is MQTT
      only, 3 is both. */
  function WifiOn(status: Byte): bool
  {
    status == 1 || status == 3
  }

  function MqttOn(status: Byte): bool
  {
    status == 2 || status == 3
  }

  /** The decoder: nothing for a frame shorter than 36 bytes, otherwise every
      field read at its offset. */
  function DecodeRuntime(frame: seq<Byte>): (r: Option<RuntimeSnapshot>)
    ensures r.Some? <==> |frame| >= RUNTIME_MIN_LEN
    ensures r.Some? ==> Representable(r.value)
  {
    if |frame| < RUNTIME_MIN_LEN then None
    else
      Some(RuntimeSnapshot(
        DecodePv(frame[4], Le16At(frame, 6)),
        DecodePv(frame[5], Le16At(frame, 8)),
        Battery(Le16At(frame, 10), Le16At(frame, 22), frame[18], frame[33], frame[35]),
        Output(frame[16] == 1, Le16At(frame, 24)),
        Output(frame[17] == 1, Le16At(frame, 26)),
        Settings(frame[13] == 1, frame[14], Le16At(frame, 19), frame[21], frame[30]),
        Status(frame[12], WifiOn(frame[15]), MqttOn(frame[15]), frame[28] == 1, frame[29] == 1)))
  }

  // ------------------------------------------------------------ the device side

  predicate IsByte(n: nat) { n < 256 }

  predicate IsWord(n: nat) { n < 0x1_0000 }

  predicate PvRepresentable(p: PvInput)
  {
    (p.transparent ==> p.active) && IsWord(p.power)
  }

  /** The snapshots a runtime frame can carry: pass-through implies active,
      byte fields fit a byte and word fields fit 16 bits. */
  predicate Representable(s: RuntimeSnapshot)
  {
    && PvRepresentable(s.pv1) && PvRepresentable(s.pv2)
    && IsWord(s.battery.percentTenths) && IsWord(s.battery.capacityWh)
    && IsByte(s.battery.dod) && IsByte(s.battery.temp1) && IsByte(s.battery.temp2)
    && IsWord(s.output1.power) && IsWord(s.output2.power)
    && IsByte(s.settings.powerOutputMode) && IsWord(s.settings.dischargeThreshold)
    && IsByte(s.settings.sceneMode) && IsByte(s.settings.region)
    && IsByte(s.status.firmware)
  }

  /** The state byte a device sends for a solar input. */
  function PvStateByte(p: PvInput): (b: Byte)
    requires p.transparent ==> p.active
    ensures b > 0 <==> p.active
    ensures b == 2 <==> p.transparent
  {
    if p.transparent then 2 else if p.active then 1 else 0
  }

  /** The status byte a device sends for the two network flags. */
  function NetworkByte(wifi: bool, mqtt: bool): (b: Byte)
    ensures WifiOn(b) == wifi && MqttOn(b) == mqtt
  {
    (if wifi then 1 else 0) + (if mqtt then 2 else 0)
  }

  /** Every status byte below 4 is the encoding of the flags it decodes to;
      larger values read as neither WiFi nor MQTT. */
  lemma NetworkByteComplete(status: Byte)
    ensures status < 4 ==> NetworkByte(WifiOn(status), MqttOn(status)) == status
    ensures status >= 4 ==> !WifiOn(status) && !MqttOn(status)
  {
  }

  /** The 32 payload bytes (frame offsets 4..35) a device sends for `s`;
      offsets 31, 32 and 34 are not read and are sent as zero. */
  function RuntimePayload(s: RuntimeSnapshot): (p: seq<Byte>)
    requires Representable(s)
    ensures |p| == 32
  {
    var head: seq<Byte> :=
      [PvStateByte(s.pv1), PvStateByte(s.pv2),
       LowByte(s.pv1.power), HighByte(s.pv1.power),
       LowByte(s.pv2.power), HighByte(s.pv2.power),
       LowByte(s.battery.percentTenths), HighByte(s.battery.percentTenths),
       s.status.firmware, FlagByte(s.settings.loadFirst), s.settings.powerOutputMode,
       NetworkByte(s.status.wifi, s.status.mqtt),
       FlagByte(s.output1.active), FlagByte(s.output2.active), s.battery.dod];
    var tail: seq<Byte> :=
      [LowByte(s.settings.dischargeThreshold), HighByte(s.settings.dischargeThreshold),
       s.settings.sceneMode,
       LowByte(s.battery.capacityWh), HighByte(s.battery.capacityWh),
       LowByte(s.output1.power), HighByte(s.output1.power),
       LowByte(s.output2.power), HighByte(s.output2.power),
       FlagByte(s.status.extBattery1), FlagByte(s.status.extBattery2), s.settings.region,
       0, 0, s.battery.temp1, 0, s.battery.temp2];
    head + tail
  }

  /** A runtime response built by the frame codec around the payload of any
      representable snapshot decodes to exactly that snapshot: the offsets
      the decoder reads do not overlap and lose nothing. */
  lemma {:induction false} RuntimeRoundTrip(s: RuntimeSnapshot)
    requires Representable(s)
    ensures DecodeRuntime(Frame(CMD_RUNTIME_INFO, RuntimePayload(s))) == Some(s)
  {
    var p := RuntimePayload(s);
    var f := Frame(CMD_RUNTIME_INFO, p);
    assert forall i :: 0 <= i < 32 ==> f[4 + i] == p[i] by {
      assert f[4..|f| - 1] == p;
    }
    Le16RoundTrip(s.pv1.power);
    Le16RoundTrip(s.pv2.power);
    Le16RoundTrip(s.battery.percentTenths);
    Le16RoundTrip(s.battery.capacityWh);
    Le16RoundTrip(s.settings.dischargeThreshold);
    Le16RoundTrip(s.output1.power);
    Le16RoundTrip(s.output2.power);
  }

}
