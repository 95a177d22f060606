/** Decoding of the timer-settings response (opcode 0x13): three timer blocks,
    the adaptive-mode block and, in frames of 57 bytes or more, two extension
    timers. Offsets count from the first header byte. */
module TimerInfo {
  import opened Wrappers
  import opened Bytes
  import opened Text
  import opened Codec

  /** Shortest frame the decoder accepts. */
  const TIMER_MIN_LEN: nat := 33

  /** Shortest frame that carries timers 4 and 5. */
  const TIMER_EXT_LEN: nat := 57

  /** One timer as stored: times are "HH:MM" text. */
  datatype Timer = Timer(enabled: bool, startTime: string, endTime: string, power: nat)

  datatype Adaptive = Adaptive(enabled: bool, power: nat, meter: nat, time: nat)

  datatype TimerSchedule = TimerSchedule(
    timer1: Timer,
    timer2: Timer,
    timer3: Timer,
    adaptive: Adaptive,
    timer4: Option<Timer>,
    timer5: Option<Timer>)

  /** `f"{hour:02d}:{minute:02d}"`. */
  function ClockText(hour: nat, minute: nat): string
  {
    Pad2(hour) + ":" + Pad2(minute)
  }

  /** Reads "H:M" text back into its two numbers. */
  function ParseClock(s: string): (r: Option<(nat, nat)>)
    ensures r.Some? ==> Count(s, ':') == 1
  {
    var parts := Split(s, ':');
    SplitCount(s, ':');
    if |parts| == 2 && ParseNat(parts[0]).Some? && ParseNat(parts[1]).Some? then
      Some((ParseNat(parts[0]).value, ParseNat(parts[1]).value))
    else None
  }

  /** The clock text loses nothing: it reads back as the hour and minute it
      was printed from, whatever their size. */
  lemma ClockRoundTrip(hour: nat, minute: nat)
    ensures ParseClock(ClockText(hour, minute)) == Some((hour, minute))
  {
    var h, m := Pad2(hour), Pad2(minute);
    Pad2RoundTrip(hour);
    Pad2RoundTrip(minute);
    assert forall i :: 0 <= i < |h| ==> h[i] != ':';
    assert forall i :: 0 <= i < |m| ==> m[i] != ':';
    assert Join([h, m], ':') == ClockText(hour, minute) by {
      assert [h, m][1..] == [m];
    }
    JoinSplit([h, m], ':');
  }

  /** Frame offset of the block of base timer `k` (1 to 3). */
  function BaseTimerOffset(k: nat): nat
    requires 1 <= k <= 3
  {
    5 + 7 * (k - 1)
  }

  const ADAPTIVE_OFFSET: nat := 26
  const TIMER4_OFFSET: nat := 43
  const TIMER5_OFFSET: nat := 50

  /** The timer whose seven-byte block starts at `off`: flag, start hour,
      start minute, end hour, end minute, little-endian power. */
  function DecodeTimerAt(frame: seq<Byte>, off: nat): Timer
    requires off + 6 < |frame|
  {
    Timer(frame[off] == 1,
          ClockText(frame[off + 1], frame[off + 2]),
          ClockText(frame[off + 3], frame[off + 4]),
          Le16At(frame, off + 5))
  }

  /** The decoder: nothing for a frame shorter than 33 bytes; the extension
      timers exactly when the frame has at least 57 bytes. */
  function DecodeTimers(frame: seq<Byte>): (r: Option<TimerSchedule>)
    ensures r.Some? <==> |frame| >= TIMER_MIN_LEN
    ensures r.Some? ==> (r.value.timer4.Some? <==> |frame| >= TIMER_EXT_LEN)
    ensures r.Some? ==> (r.value.timer5.Some? <==> |frame| >= TIMER_EXT_LEN)
  {
    if |frame| < TIMER_MIN_LEN then None
    else
      var extended := |frame| >= TIMER_EXT_LEN;
      Some(TimerSchedule(
        DecodeTimerAt(frame, BaseTimerOffset(1)),
        DecodeTimerAt(frame, BaseTimerOffset(2)),
        DecodeTimerAt(frame, BaseTimerOffset(3)),
        Adaptive(frame[ADAPTIVE_OFFSET] == 1, Le16At(frame, 27), Le16At(frame, 29), Le16At(frame, 31)),
        if extended then Some(DecodeTimerAt(frame, TIMER4_OFFSET)) else None,
        if extended then Some(DecodeTimerAt(frame, TIMER5_OFFSET)) else None))
  }

  // ------------------------------------------------------------ the device side

  /** A timer as the device stores it, before the decoder formats its times. */
  datatype TimerSetting = TimerSetting(
    enabled: bool,
    startHour: Byte,
    startMinute: Byte,
    endHour: Byte,
    endMinute: Byte,
    power: nat)

  predicate SettingOk(t: TimerSetting) { t.power < 0x1_0000 }

  predicate AdaptiveOk(a: Adaptive)
  {
    a.power < 0x1_0000 && a.meter < 0x1_0000 && a.time < 0x1_0000
  }

  /** The timer the decoder should report for a stored setting. */
  function View(t: TimerSetting): Timer
  {
    Timer(t.enabled, ClockText(t.startHour, t.startMinute), ClockText(t.endHour, t.endMinute), t.power)
  }

  function TimerBlock(t: TimerSetting): (b: seq<Byte>)
    requires SettingOk(t)
    ensures |b| == 7
  {
    [FlagByte(t.enabled), t.startHour, t.startMinute, t.endHour, t.endMinute,
     LowByte(t.power), HighByte(t.power)]
  }

  function AdaptiveBlock(a: Adaptive): (b: seq<Byte>)
    requires AdaptiveOk(a)
    ensures |b| == 7
  {
    [FlagByte(a.enabled), LowByte(a.power), HighByte(a.power), LowByte(a.meter), HighByte(a.meter),
     LowByte(a.time), HighByte(a.time)]
  }

  /** Payload (frame offsets 4 onward) a device sends: an unread byte, the
      three timer blocks, the adaptive block and, with the extension, ten
      unread bytes and the blocks of timers 4 and 5. */
  function TimerPayload(t1: TimerSetting, t2: TimerSetting, t3: TimerSetting, a: Adaptive,
                        ext: Option<(TimerSetting, TimerSetting)>): (p: seq<Byte>)
    requires SettingOk(t1) && SettingOk(t2) && SettingOk(t3) && AdaptiveOk(a)
    requires ext.Some? ==> SettingOk(ext.value.0) && SettingOk(ext.value.1)
    ensures |p| == if ext.Some? then 53 else 29
  {
    [0] + TimerBlock(t1) + TimerBlock(t2) + TimerBlock(t3) + AdaptiveBlock(a)
    + (if ext.Some? then [0, 0, 0, 0, 0, 0, 0, 0, 0, 0] + TimerBlock(ext.value.0) + TimerBlock(ext.value.1)
       else [])
  }

  lemma TimerBlockDecodes(frame: seq<Byte>, off: nat, t: TimerSetting)
    requires SettingOk(t) && off + 7 <= |frame| && frame[off..off + 7] == TimerBlock(t)
    ensures DecodeTimerAt(frame, off) == View(t)
  {
    var b := TimerBlock(t);
    var w := frame[off..off + 7];
    assert frame[off] == w[0] == b[0];
    assert frame[off + 1] == w[1] == t.startHour;
    assert frame[off + 2] == w[2] == t.startMinute;
    assert frame[off + 3] == w[3] == t.endHour;
    assert frame[off + 4] == w[4] == t.endMinute;
    assert frame[off + 5] == w[5] == LowByte(t.power);
    assert frame[off + 6] == w[6] == HighByte(t.power);
    Le16RoundTrip(t.power);
  }

  lemma AdaptiveBlockDecodes(frame: seq<Byte>, a: Adaptive)
    requires AdaptiveOk(a) && ADAPTIVE_OFFSET + 7 <= |frame|
    requires frame[ADAPTIVE_OFFSET..ADAPTIVE_OFFSET + 7] == AdaptiveBlock(a)
    ensures Adaptive(frame[ADAPTIVE_OFFSET] == 1, Le16At(frame, 27), Le16At(frame, 29), Le16At(frame, 31)) == a
  {
    var w := frame[ADAPTIVE_OFFSET..ADAPTIVE_OFFSET + 7];
    assert frame[26] == w[0] && frame[27] == w[1] && frame[28] == w[2];
    assert frame[29] == w[3] && frame[30] == w[4] && frame[31] == w[5] && frame[32] == w[6];
    Le16RoundTrip(a.power);
    Le16RoundTrip(a.meter);
    Le16RoundTrip(a.time);
  }

  /** Where each block sits in the payload. */
  lemma PayloadLayout(t1: TimerSetting, t2: TimerSetting, t3: TimerSetting, a: Adaptive,
                      ext: Option<(TimerSetting, TimerSetting)>)
    requires SettingOk(t1) && SettingOk(t2) && SettingOk(t3) && AdaptiveOk(a)
    requires ext.Some? ==> SettingOk(ext.value.0) && SettingOk(ext.value.1)
    ensures var p := TimerPayload(t1, t2, t3, a, ext);
            && p[1..8] == TimerBlock(t1) && p[8..15] == TimerBlock(t2) && p[15..22] == TimerBlock(t3)
            && p[22..29] == AdaptiveBlock(a)
            && (ext.Some? ==> p[39..46] == TimerBlock(ext.value.0) && p[46..53] == TimerBlock(ext.value.1))
  {
    var q1 := [0] + TimerBlock(t1);
    var q2 := q1 + TimerBlock(t2);
    var q3 := q2 + TimerBlock(t3);
    var head := q3 + AdaptiveBlock(a);
    var tail := if ext.Some? then [0, 0, 0, 0, 0, 0, 0, 0, 0, 0] + TimerBlock(ext.value.0) + TimerBlock(ext.value.1)
                else [];
    assert TimerPayload(t1, t2, t3, a, ext) == head + tail;
    WindowLeft(head, tail, 1, 8);
    WindowLeft(q3, AdaptiveBlock(a), 1, 8);
    WindowLeft(q2, TimerBlock(t3), 1, 8);
    WindowLeft(q1, TimerBlock(t2), 1, 8);
    WindowRight([0], TimerBlock(t1), 0, 7);
    WindowLeft(head, tail, 8, 15);
    WindowLeft(q3, AdaptiveBlock(a), 8, 15);
    WindowLeft(q2, TimerBlock(t3), 8, 15);
    WindowRight(q1, TimerBlock(t2), 0, 7);
    WindowLeft(head, tail, 15, 22);
    WindowLeft(q3, AdaptiveBlock(a), 15, 22);
    WindowRight(q2, TimerBlock(t3), 0, 7);
    WindowLeft(head, tail, 22, 29);
    WindowRight(q3, AdaptiveBlock(a), 0, 7);
    if ext.Some? {
      var z := [0, 0, 0, 0, 0, 0, 0, 0, 0, 0] + TimerBlock(ext.value.0);
      WindowRight(head, tail, 10, 17);
      WindowLeft(z, TimerBlock(ext.value.1), 10, 17);
      WindowRight([0, 0, 0, 0, 0, 0, 0, 0, 0, 0], TimerBlock(ext.value.0), 0, 7);
      WindowRight(head, tail, 17, 24);
      WindowRight(z, TimerBlock(ext.value.1), 0, 7);
    }
  }

  /** A window of a built frame's payload is the same window of the frame,
      four bytes further on. */
  lemma FrameWindow(cmd: Byte, p: seq<Byte>, i: nat, j: nat)
    requires |p| <= MAX_PAYLOAD && i <= j <= |p|
    ensures Frame(cmd, p)[4 + i..4 + j] == p[i..j]
  {
    var f := Frame(cmd, p);
    assert f[4..|f| - 1] == p;
    assert f[4 + i..4 + j] == f[4..|f| - 1][i..j];
  }

  /** The blocks every timer response carries decode to their settings. */
  lemma BaseBlocksDecode(t1: TimerSetting, t2: TimerSetting, t3: TimerSetting, a: Adaptive,
                         ext: Option<(TimerSetting, TimerSetting)>)
    requires SettingOk(t1) && SettingOk(t2) && SettingOk(t3) && AdaptiveOk(a)
    requires ext.Some? ==> SettingOk(ext.value.0) && SettingOk(ext.value.1)
    ensures var f := Frame(CMD_GET_TIMERS, TimerPayload(t1, t2, t3, a, ext));
            && DecodeTimerAt(f, 5) == View(t1) && DecodeTimerAt(f, 12) == View(t2)
            && DecodeTimerAt(f, 19) == View(t3)
            && Adaptive(f[ADAPTIVE_OFFSET] == 1, Le16At(f, 27), Le16At(f, 29), Le16At(f, 31)) == a
  {
    var p := TimerPayload(t1, t2, t3, a, ext);
    var f := Frame(CMD_GET_TIMERS, p);
    PayloadLayout(t1, t2, t3, a, ext);
    FrameWindow(CMD_GET_TIMERS, p, 1, 8);
    FrameWindow(CMD_GET_TIMERS, p, 8, 15);
    FrameWindow(CMD_GET_TIMERS, p, 15, 22);
    FrameWindow(CMD_GET_TIMERS, p, 22, 29);
    TimerBlockDecodes(f, 5, t1);
    TimerBlockDecodes(f, 12, t2);
    TimerBlockDecodes(f, 19, t3);
    AdaptiveBlockDecodes(f, a);
  }

  /** The extension blocks decode to timers 4 and 5. */
  lemma ExtensionBlocksDecode(t1: TimerSetting, t2: TimerSetting, t3: TimerSetting, a: Adaptive,
                              t4: TimerSetting, t5: TimerSetting)
    requires SettingOk(t1) && SettingOk(t2) && SettingOk(t3) && AdaptiveOk(a)
    requires SettingOk(t4) && SettingOk(t5)
    ensures var f := Frame(CMD_GET_TIMERS, TimerPayload(t1, t2, t3, a, Some((t4, t5))));
            && |f| >= TIMER_EXT_LEN
            && DecodeTimerAt(f, 43) == View(t4) && DecodeTimerAt(f, 50) == View(t5)
  {
    var p := TimerPayload(t1, t2, t3, a, Some((t4, t5)));
    var f := Frame(CMD_GET_TIMERS, p);
    PayloadLayout(t1, t2, t3, a, Some((t4, t5)));
    FrameWindow(CMD_GET_TIMERS, p, 39, 46);
    FrameWindow(CMD_GET_TIMERS, p, 46, 53);
    TimerBlockDecodes(f, 43, t4);
    TimerBlockDecodes(f, 50, t5);
  }

  /** A timer response built by the frame codec decodes to the stored
      settings, with the extension timers present exactly when sent. */
  lemma TimerRoundTrip(t1: TimerSetting, t2: TimerSetting, t3: TimerSetting, a: Adaptive,
                       ext: Option<(TimerSetting, TimerSetting)>)
    requires SettingOk(t1) && SettingOk(t2) && SettingOk(t3) && AdaptiveOk(a)
    requires ext.Some? ==> SettingOk(ext.value.0) && SettingOk(ext.value.1)
    ensures DecodeTimers(Frame(CMD_GET_TIMERS, TimerPayload(t1, t2, t3, a, ext)))
            == Some(TimerSchedule(View(t1), View(t2), View(t3), a,
                                  if ext.Some? then Some(View(ext.value.0)) else None,
                                  if ext.Some? then Some(View(ext.value.1)) else None))
  {
    BaseBlocksDecode(t1, t2, t3, a, ext);
    if ext.Some? {
      ExtensionBlocksDecode(t1, t2, t3, a, ext.value.0, ext.value.1);
    }
  }

}
