/** The command frame: `[0x73, length, 0x23, opcode] ++ payload ++ [checksum]`,
    where `length` counts every byte of the frame including the checksum and
    the checksum is the XOR of every byte before it. */
module Codec {
  import opened Wrappers
  import opened Bytes
  import opened Text

  const PREFIX: Byte := 0x73
  const MARKER: Byte := 0x23

  /** Longest payload whose frame length still fits in the length byte. */
  const MAX_PAYLOAD: nat := 250

  /** Payload sent when a command is given none. */
  const DEFAULT_PAYLOAD: seq<Byte> := [0x01]

  const CMD_SET_REGION: Byte := 0x02
  const CMD_RUNTIME_INFO: Byte := 0x03
  const CMD_DEVICE_INFO: Byte := 0x04
  const CMD_SET_WIFI: Byte := 0x05
  const CMD_GET_SSID: Byte := 0x09
  const CMD_SET_DOD: Byte := 0x0B
  const CMD_CELL_VOLTAGES: Byte := 0x0F
  const CMD_ENABLE_ADAPTIVE: Byte := 0x11
  const CMD_SET_TIMERS: Byte := 0x12
  const CMD_GET_TIMERS: Byte := 0x13
  const CMD_GET_FC41D_VERSION: Byte := 0x23
  const CMD_REBOOT_DEVICE: Byte := 0x25
  const CMD_FACTORY_SETTINGS: Byte := 0x26

  /** The frame for `cmd` carrying `data`. */
  function Frame(cmd: Byte, data: seq<Byte>): (f: seq<Byte>)
    requires |data| <= MAX_PAYLOAD
    ensures |f| == |data| + 5
    ensures f[0] == PREFIX && f[1] == |f| && f[2] == MARKER && f[3] == cmd
    ensures f[4..|f| - 1] == data
    ensures XorAll(f) == 0
  {
    var body := [PREFIX, |data| + 5, MARKER, cmd] + data;
    ChecksumClosesFrame(body, XorAll(body));
    body + [XorAll(body)]
  }

  /** The frame builder: header and payload, the length byte patched in, then
      the checksum accumulated byte by byte and appended. */
  method CreateCommand(cmd: Byte, data: seq<Byte>) returns (packet: seq<Byte>)
    requires |data| <= MAX_PAYLOAD
    ensures packet == Frame(cmd, data)
  {
    packet := [PREFIX, 0x00, MARKER, cmd] + data;
    packet := packet[1 := |packet| + 1];
    assert packet == [PREFIX, |data| + 5, MARKER, cmd] + data;
    var crc: Byte := 0;
    var i := 0;
    while i < |packet|
      invariant 0 <= i <= |packet|
      invariant crc == XorAll(packet[..i])
    {
      assert packet[..i + 1][..i] == packet[..i];
      crc := XorByte(crc, packet[i]);
      i := i + 1;
    }
    assert packet[..i] == packet;
    packet := packet + [crc];
  }

  /** The bytes between the 4-byte header and the trailing checksum byte. */
  function Payload(frame: seq<Byte>): (p: seq<Byte>)
    ensures |frame| >= 5 ==> p == frame[4..|frame| - 1]
    ensures |frame| < 5 ==> p == []
  {
    if |frame| >= 5 then frame[4..|frame| - 1] else []
  }

  /** The opcode of a received frame, or nothing when the frame is too short
      to carry one. */
  function ExtractOpcode(frame: seq<Byte>): (r: Option<Byte>)
    ensures r.Some? <==> |frame| >= 4
    ensures r.Some? ==> r.value == frame[3]
  {
    if |frame| < 4 then None else Some(frame[3])
  }

  /** A built frame announces the opcode it was built for. */
  lemma OpcodeRoundTrip(cmd: Byte, data: seq<Byte>)
    requires |data| <= MAX_PAYLOAD
    ensures ExtractOpcode(Frame(cmd, data)) == Some(cmd)
  {
  }

  /** A frame is determined by its opcode and payload: different requests
      never share a frame. */
  lemma FrameInjective(cmd1: Byte, data1: seq<Byte>, cmd2: Byte, data2: seq<Byte>)
    requires |data1| <= MAX_PAYLOAD && |data2| <= MAX_PAYLOAD
    requires Frame(cmd1, data1) == Frame(cmd2, data2)
    ensures cmd1 == cmd2 && data1 == data2
  {
    var f := Frame(cmd1, data1);
    assert data1 == f[4..|f| - 1] == data2;
  }

  // The running checksum of `73 06 23 04 01`, one byte at a time.
  lemma XorStep1() ensures Xor(0x73, 0x06) == 0x75
  {
    assert Xor(1, 0) == 1 && Xor(3, 0) == 3 && Xor(7, 0) == 7 && Xor(14, 0) == 14;
    assert Xor(28, 1) == 29 && Xor(57, 3) == 58;
  }

  lemma XorStep2() ensures Xor(0x75, 0x23) == 0x56
  {
    assert Xor(1, 0) == 1 && Xor(3, 1) == 2 && Xor(7, 2) == 5 && Xor(14, 4) == 10;
    assert Xor(29, 8) == 21 && Xor(58, 17) == 43;
  }

  lemma XorStep3() ensures Xor(0x56, 0x04) == 0x52
  {
    assert Xor(1, 0) == 1 && Xor(2, 0) == 2 && Xor(5, 0) == 5 && Xor(10, 0) == 10;
    assert Xor(21, 1) == 20 && Xor(43, 2) == 41;
  }

  lemma XorStep4() ensures Xor(0x52, 0x01) == 0x53
  {
    assert Xor(1, 0) == 1 && Xor(2, 0) == 2 && Xor(5, 0) == 5 && Xor(10, 0) == 10;
    assert Xor(20, 0) == 20 && Xor(41, 0) == 41;
  }

  lemma DeviceInfoChecksum()
    ensures XorAll([0x73, 0x06, 0x23, 0x04, 0x01]) == 0x53
  {
    var b1: seq<Byte> := [0x73];
    var b2: seq<Byte> := [0x73, 0x06];
    var b3: seq<Byte> := [0x73, 0x06, 0x23];
    var b4: seq<Byte> := [0x73, 0x06, 0x23, 0x04];
    var b5: seq<Byte> := [0x73, 0x06, 0x23, 0x04, 0x01];
    XorZero(0x73);
    ChecksumStep([], 0x73, 0, 0x73);
    assert [] + [0x73] == b1;
    XorStep1();
    ChecksumStep(b1, 0x06, 0x73, 0x75);
    assert b1 + [0x06] == b2;
    XorStep2();
    ChecksumStep(b2, 0x23, 0x75, 0x56);
    assert b2 + [0x23] == b3;
    XorStep3();
    ChecksumStep(b3, 0x04, 0x56, 0x52);
    assert b3 + [0x04] == b4;
    XorStep4();
    ChecksumStep(b4, 0x01, 0x52, 0x53);
    assert b4 + [0x01] == b5;
  }

  /** One more byte folded into a known running checksum. */
  lemma ChecksumStep(s: seq<Byte>, c: Byte, before: Byte, after: nat)
    requires XorAll(s) == before && Xor(before, c) == after
    ensures XorAll(s + [c]) == after
  {
    assert (s + [c])[..|s|] == s;
  }

  /** The device-info request with the default payload is `73 06 23 04 01 53`. */
  lemma DeviceInfoRequestBytes()
    ensures Frame(CMD_DEVICE_INFO, DEFAULT_PAYLOAD) == [0x73, 0x06, 0x23, 0x04, 0x01, 0x53]
  {
    var body: seq<Byte> := [0x73, 0x06, 0x23, 0x04, 0x01];
    assert [PREFIX, |DEFAULT_PAYLOAD| + 5, MARKER, CMD_DEVICE_INFO] + DEFAULT_PAYLOAD == body;
    DeviceInfoChecksum();
  }

  /** A frame whose payload and length are ASCII has an ASCII checksum. */
  lemma AsciiChecksum(cmd: Byte, s: string)
    requires IsAscii(s) && |Utf8(s)| <= MAX_PAYLOAD && cmd < 0x80
    requires |Frame(cmd, Utf8(s))| < 0x80
    ensures var f := Frame(cmd, Utf8(s));
            f[|f| - 1] == XorAll(f[..|f| - 1]) && f[|f| - 1] < 0x80
  {
    var f := Frame(cmd, Utf8(s));
    var n := |f| - 1;
    AsciiBytes(s);
    forall k | 0 <= k < n
      ensures f[..n][k] < 0x80
    {
      if 4 <= k {
        assert f[k] == f[4..n][k - 4];
      }
    }
    XorAllBelow(f[..n]);
    assert f == f[..n] + [f[n]];
    ChecksumClosesFrame(f[..n], f[n]);
  }

  /** Everything after the header is the payload and then the checksum. */
  lemma FrameTail(cmd: Byte, data: seq<Byte>)
    requires |data| <= MAX_PAYLOAD
    ensures var f := Frame(cmd, data);
            f[4..] == data + [f[|f| - 1]]
  {
    var f := Frame(cmd, data);
    assert f[4..] == f[4..|f| - 1] + [f[|f| - 1]];
  }

  /** The text of a frame: the header's characters, the payload's, and the
      checksum's. */
  lemma FrameText(cmd: Byte, s: string)
    requires IsAscii(s) && |Utf8(s)| <= MAX_PAYLOAD
    ensures var f := Frame(cmd, Utf8(s));
            AsciiText(f) == AsciiText(f[..4]) + s + AsciiText([f[|f| - 1]])
  {
    var f := Frame(cmd, Utf8(s));
    AsciiRoundTrip(s);
    ThreeParts(f, 4);
    AsciiTextThree(f[..4], f[4..|f| - 1], [f[|f| - 1]]);
  }

  /** A sequence is its first `k` elements, the middle, and its last one. */
  lemma ThreeParts<T>(f: seq<T>, k: nat)
    requires k < |f|
    ensures f == f[..k] + f[k..|f| - 1] + [f[|f| - 1]]
  {
  }

  lemma AsciiTextThree(a: seq<Byte>, b: seq<Byte>, c: seq<Byte>)
    ensures AsciiText(a + b + c) == AsciiText(a) + AsciiText(b) + AsciiText(c)
  {
    AsciiTextAppend(a + b, c);
    AsciiTextAppend(a, b);
  }
}
