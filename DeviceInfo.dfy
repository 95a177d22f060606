/** Decoding of the device-information response (opcode 0x04): the frame is
    read as text and the fields are cut out around the markers `type=`,
    `id=`, `mac=` and the optional `version=`. */
module DeviceInfo {
  import opened Wrappers
  import opened Bytes
  import opened Text
  import opened Codec

  datatype Info = Info(deviceType: string, id: string, mac: string, firmware: string)

  /** Firmware reported when the response carries no `version=` marker. */
  const UNKNOWN_FIRMWARE: string := "Unknown"

  /** The three markers without which the response is ignored. */
  predicate HasMarkers(s: string)
  {
    Contains(s, "type=") && Contains(s, "id=") && Contains(s, "mac=")
  }

  /** Start of the value that follows the first occurrence of `marker`. */
  function ValueStart(s: string, marker: string): (r: nat)
    requires Contains(s, marker)
    ensures r == Find(s, marker, 0) + |marker| && r <= |s|
  {
    Find(s, marker, 0) + |marker|
  }

  /** A type or id value: from `start` up to the next comma. Without one the
      slice end is -1 and the last character of the text is cut off. */
  function UpToComma(s: string, start: nat): string
  {
    Slice(s, start, Find(s, ",", start))
  }

  /** The mac value: from `start` up to the next comma, or to the end of the
      text when no comma follows. */
  function MacValue(s: string, start: nat): string
    requires start <= |s|
  {
    var macEnd := if Contains(s[start..], ",") then Find(s, ",", start) else |s|;
    Slice(s, start, macEnd)
  }

  /** The firmware: the stripped rest of the text after `version=`, or
      "Unknown" without that marker. */
  function Firmware(s: string): (r: string)
    ensures !Contains(s, "version=") ==> r == UNKNOWN_FIRMWARE
    ensures Contains(s, "version=") ==> r == Strip(s[ValueStart(s, "version=")..])
  {
    if Contains(s, "version=") then Strip(s[ValueStart(s, "version=")..])
    else UNKNOWN_FIRMWARE
  }

  /** The field parser: nothing unless all three markers occur. */
  function ParseDeviceInfo(s: string): (r: Option<Info>)
    ensures r.Some? <==> HasMarkers(s)
    ensures r.Some? ==> r.value.firmware == Firmware(s)
  {
    if !HasMarkers(s) then None
    else
      Some(Info(
        UpToComma(s, ValueStart(s, "type=")),
        UpToComma(s, ValueStart(s, "id=")),
        MacValue(s, ValueStart(s, "mac=")),
        Firmware(s)))
  }

  /** The mac never contains a comma: it stops at the first one. */
  lemma MacHasNoComma(s: string)
    requires HasMarkers(s)
    ensures ',' !in ParseDeviceInfo(s).value.mac
  {
    MacValueNoComma(s, ValueStart(s, "mac="));
  }

  lemma MacValueNoComma(s: string, start: nat)
    requires start <= |s|
    ensures ',' !in MacValue(s, start)
  {
    var rest := s[start..];
    ContainsChar(rest, ',');
    if Contains(rest, ",") {
      var k :| 0 <= k < |rest| && rest[k] == ',';
      OccursAtSingle(s, ',', start + k);
      var e := Find(s, ",", start);
      CommaFree(s, start, e);
    }
  }

  /** No comma stands before the first one found from `start`. */
  lemma CommaFree(s: string, start: nat, e: int)
    requires e == Find(s, ",", start) && e != -1
    ensures start <= e <= |s| && ',' !in s[start..e]
  {
    forall k | start <= k < e
      ensures s[k] != ','
    {
      OccursAtSingle(s, ',', k);
    }
    forall j | 0 <= j < e - start
      ensures s[start..e][j] != ','
    {
      assert s[start..e][j] == s[start + j];
    }
  }

  /** A type or id value with no comma after it: the slice end -1 drops the
      last character of the text. */
  lemma UpToCommaWithoutComma(s: string, start: nat)
    requires start < |s| && ',' !in s[start..]
    ensures UpToComma(s, start) == s[start..|s| - 1]
  {
    forall k | start <= k
      ensures !OccursAt(s, ",", k)
    {
      OccursAtSingle(s, ',', k);
      if k < |s| {
        assert s[k] == s[start..][k - start];
      }
    }
  }

  /** When no comma follows `type=`, the type loses the last character of
      the text. */
  lemma TypeWithoutCommaLosesLastChar(s: string)
    requires HasMarkers(s)
    requires ',' !in s[ValueStart(s, "type=")..] && ValueStart(s, "type=") < |s|
    ensures ParseDeviceInfo(s).value.deviceType == s[ValueStart(s, "type=")..|s| - 1]
  {
    UpToCommaWithoutComma(s, ValueStart(s, "type="));
  }

  /** When no comma follows `id=`, the id loses the last character of the
      text. */
  lemma IdWithoutCommaLosesLastChar(s: string)
    requires HasMarkers(s)
    requires ',' !in s[ValueStart(s, "id=")..] && ValueStart(s, "id=") < |s|
    ensures ParseDeviceInfo(s).value.id == s[ValueStart(s, "id=")..|s| - 1]
  {
    UpToCommaWithoutComma(s, ValueStart(s, "id="));
  }

  /** The first `version=` of a text whose earlier part has no equals sign
      starts right after that part. */
  lemma VersionMarkerAt(pre: string, v: string)
    requires '=' !in pre
    ensures Find(pre + "version=" + v, "version=", 0) == |pre|
  {
    var s := pre + "version=" + v;
    assert s[|pre|..|pre| + 8] == "version=";
    assert OccursAt(s, "version=", |pre|);
    var r := Find(s, "version=", 0);
    if r < |pre| {
      OccursAtChar(s, "version=", r, 7);
    }
  }

  /** The firmware is the stripped text after the first `version=`. */
  lemma FirmwareAfterMarker(pre: string, v: string)
    requires '=' !in pre
    ensures Firmware(pre + "version=" + v) == Strip(v)
  {
    var s := pre + "version=" + v;
    VersionMarkerAt(pre, v);
    assert s[|pre| + 8..] == v;
  }

  // ------------------------------------------------------------ the device side

  /** A value that can sit between markers: no comma and no equals sign. */
  predicate Plain(s: string)
  {
    ',' !in s && '=' !in s
  }

  /** A device-information text: whatever precedes it, the three marked
      fields, and whatever trails the mac. */
  function Report(pre: string, t: string, i: string, m: string, post: string): string
  {
    pre + "type=" + t + ",id=" + i + ",mac=" + m + post
  }

  /** The middle piece of a three-piece concatenation. */
  lemma Piece(s: string, u: string, v: string, w: string)
    requires s == u + v + w
    ensures |u| + |v| <= |s| && s[|u|..|u| + |v|] == v
  {
    assert s[|u|..|u| + |v|] == (u + v)[|u|..];
  }

  /** The slices a report is made of: `a` is the start of `type=`, `c1` the
      comma before `id=`, `c2` the comma before `mac=`. */
  predicate Sliced(s: string, pre: string, t: string, i: string, m: string, post: string, a: nat, c1: nat, c2: nat)
  {
    && a == |pre| && c1 == a + 5 + |t| && c2 == c1 + 4 + |i|
    && |s| == c2 + 5 + |m| + |post|
    && s[..a] == pre
    && s[a..a + 5] == "type=" && s[a + 5..c1] == t
    && s[c1..c1 + 4] == ",id=" && s[c1 + 4..c2] == i
    && s[c2..c2 + 5] == ",mac=" && s[c2 + 5..] == m + post
  }

  lemma ReportHead(pre: string, t: string, i: string, m: string, post: string)
    ensures var s, a := Report(pre, t, i, m, post), |pre|;
            && a + 5 + |t| <= |s|
            && s[..a] == pre && s[a..a + 5] == "type=" && s[a + 5..a + 5 + |t|] == t
  {
    var s := Report(pre, t, i, m, post);
    var rest := ",id=" + i + ",mac=" + m + post;
    Piece(s, [], pre, "type=" + t + rest);
    Piece(s, pre, "type=", t + rest);
    Piece(s, pre + "type=", t, rest);
    assert s[..|pre|] == s[0..|pre|];
  }

  lemma ReportMiddle(pre: string, t: string, i: string, m: string, post: string)
    ensures var s, c1 := Report(pre, t, i, m, post), |pre| + 5 + |t|;
            && c1 + 4 + |i| <= |s|
            && s[c1..c1 + 4] == ",id=" && s[c1 + 4..c1 + 4 + |i|] == i
  {
    var s := Report(pre, t, i, m, post);
    var head := pre + "type=" + t;
    Piece(s, head, ",id=", i + ",mac=" + m + post);
    Piece(s, head + ",id=", i, ",mac=" + m + post);
  }

  lemma ReportTail(pre: string, t: string, i: string, m: string, post: string)
    ensures var s, c2 := Report(pre, t, i, m, post), |pre| + 5 + |t| + 4 + |i|;
            && |s| == c2 + 5 + |m| + |post|
            && s[c2..c2 + 5] == ",mac=" && s[c2 + 5..] == m + post
  {
    var s := Report(pre, t, i, m, post);
    var head := pre + "type=" + t + ",id=" + i;
    Piece(s, head, ",mac=", m + post);
    Piece(s, head + ",mac=", m + post, []);
  }

  lemma ReportSlices(pre: string, t: string, i: string, m: string, post: string)
    ensures var a := |pre|;
            var c1 := a + 5 + |t|;
            Sliced(Report(pre, t, i, m, post), pre, t, i, m, post, a, c1, c1 + 4 + |i|)
  {
    ReportHead(pre, t, i, m, post);
    ReportMiddle(pre, t, i, m, post);
    ReportTail(pre, t, i, m, post);
  }

  /** Where the equals signs and commas of a report can stand. */
  lemma ReportSeparators(s: string, pre: string, t: string, i: string, m: string, post: string, a: nat, c1: nat, c2: nat)
    requires '=' !in pre && Plain(t) && Plain(i) && Plain(m) && Plain(post)
    requires Sliced(s, pre, t, i, m, post, a, c1, c2)
    ensures forall j :: 0 <= j < |s| && s[j] == '=' ==> j == a + 4 || j == c1 + 3 || j == c2 + 4
    ensures forall j :: a + 5 <= j < c1 ==> s[j] != ','
    ensures forall j :: c1 + 4 <= j < c2 ==> s[j] != ','
    ensures forall j :: c2 + 5 <= j < |s| ==> s[j] != ','
  {
    forall j | 0 <= j < |s|
      ensures s[j] != '=' || j == a + 4 || j == c1 + 3 || j == c2 + 4
    {
      if j < a {
        assert s[j] == s[..a][j];
      } else if j < a + 5 {
        assert s[j] == s[a..a + 5][j - a];
      } else if j < c1 {
        assert s[j] == s[a + 5..c1][j - a - 5];
      } else if j < c1 + 4 {
        assert s[j] == s[c1..c1 + 4][j - c1];
      } else if j < c2 {
        assert s[j] == s[c1 + 4..c2][j - c1 - 4];
      } else if j < c2 + 5 {
        assert s[j] == s[c2..c2 + 5][j - c2];
      } else {
        assert s[j] == s[c2 + 5..][j - c2 - 5];
      }
    }
    forall j | a + 5 <= j < c1
      ensures s[j] != ','
    {
      assert s[j] == s[a + 5..c1][j - a - 5];
    }
    forall j | c1 + 4 <= j < c2
      ensures s[j] != ','
    {
      assert s[j] == s[c1 + 4..c2][j - c1 - 4];
    }
    forall j | c2 + 5 <= j < |s|
      ensures s[j] != ','
    {
      assert s[j] == s[c2 + 5..][j - c2 - 5];
    }
  }

  /** The marker positions of a report, on positions alone. */
  predicate Marked(s: string, a: nat, c1: nat, c2: nat)
  {
    && a + 5 <= c1 && c1 + 4 <= c2 && c2 + 5 <= |s|
    && s[a..a + 5] == "type=" && s[c1..c1 + 4] == ",id=" && s[c2..c2 + 5] == ",mac="
    && (forall j :: 0 <= j < |s| && s[j] == '=' ==> j == a + 4 || j == c1 + 3 || j == c2 + 4)
  }

  lemma MarkedChars(s: string, a: nat, c1: nat, c2: nat)
    requires Marked(s, a, c1, c2)
    ensures s[a] == 't' && s[a + 1] == 'y' && s[a + 2] == 'p' && s[a + 3] == 'e' && s[a + 4] == '='
    ensures s[c1] == ',' && s[c1 + 1] == 'i' && s[c1 + 2] == 'd' && s[c1 + 3] == '='
    ensures s[c2] == ',' && s[c2 + 1] == 'm' && s[c2 + 2] == 'a' && s[c2 + 3] == 'c' && s[c2 + 4] == '='
  {
    assert s[a..a + 5][0] == s[a] && s[a..a + 5][1] == s[a + 1] && s[a..a + 5][2] == s[a + 2];
    assert s[a..a + 5][3] == s[a + 3] && s[a..a + 5][4] == s[a + 4];
    assert s[c1..c1 + 4][0] == s[c1] && s[c1..c1 + 4][1] == s[c1 + 1];
    assert s[c1..c1 + 4][2] == s[c1 + 2] && s[c1..c1 + 4][3] == s[c1 + 3];
    assert s[c2..c2 + 5][0] == s[c2] && s[c2..c2 + 5][1] == s[c2 + 1] && s[c2..c2 + 5][2] == s[c2 + 2];
    assert s[c2..c2 + 5][3] == s[c2 + 3] && s[c2..c2 + 5][4] == s[c2 + 4];
  }

  lemma FindsType(s: string, a: nat, c1: nat, c2: nat)
    requires Marked(s, a, c1, c2)
    ensures Find(s, "type=", 0) == a
  {
    MarkedChars(s, a, c1, c2);
    assert OccursAt(s, "type=", a);
    forall j | 0 <= j < a
      ensures !OccursAt(s, "type=", j)
    {
      NotOccursAt(s, "type=", j, 4);
    }
    FindAt(s, "type=", 0, a);
  }

  lemma FindsId(s: string, a: nat, c1: nat, c2: nat)
    requires Marked(s, a, c1, c2)
    ensures Find(s, "id=", 0) == c1 + 1
  {
    MarkedChars(s, a, c1, c2);
    assert OccursAt(s, "id=", c1 + 1) by {
      assert s[c1 + 1..c1 + 4] == s[c1..c1 + 4][1..];
    }
    forall j | 0 <= j < c1 + 1
      ensures !OccursAt(s, "id=", j)
    {
      if j == a + 2 {
        NotOccursAt(s, "id=", j, 0);
      } else {
        NotOccursAt(s, "id=", j, 2);
      }
    }
    FindAt(s, "id=", 0, c1 + 1);
  }

  lemma FindsMac(s: string, a: nat, c1: nat, c2: nat)
    requires Marked(s, a, c1, c2)
    ensures Find(s, "mac=", 0) == c2 + 1
  {
    MarkedChars(s, a, c1, c2);
    assert OccursAt(s, "mac=", c2 + 1) by {
      assert s[c2 + 1..c2 + 5] == s[c2..c2 + 5][1..];
    }
    forall j | 0 <= j < c2 + 1
      ensures !OccursAt(s, "mac=", j)
    {
      if j == a + 1 || j == c1 {
        NotOccursAt(s, "mac=", j, 0);
      } else {
        NotOccursAt(s, "mac=", j, 3);
      }
    }
    FindAt(s, "mac=", 0, c2 + 1);
  }

  lemma NoVersion(s: string, a: nat, c1: nat, c2: nat)
    requires Marked(s, a, c1, c2)
    ensures !Contains(s, "version=")
  {
    MarkedChars(s, a, c1, c2);
    forall j: nat
      ensures !OccursAt(s, "version=", j)
    {
      if j + 7 < |s| {
        if j + 7 == a + 4 {
          NotOccursAt(s, "version=", j, 3);
        } else if j + 7 == c1 + 3 {
          NotOccursAt(s, "version=", j, 4);
        } else if j + 7 == c2 + 4 {
          NotOccursAt(s, "version=", j, 3);
        } else {
          NotOccursAt(s, "version=", j, 7);
        }
      }
    }
  }

  /** The first comma at or after `from` is at `c` when none stands before. */
  lemma FindsComma(s: string, from: nat, c: nat)
    requires from <= c < |s| && s[c] == ','
    requires forall j :: from <= j < c ==> s[j] != ','
    ensures Find(s, ",", from) == c
  {
    OccursAtSingle(s, ',', c);
    forall j | from <= j < c
      ensures !OccursAt(s, ",", j)
    {
      OccursAtSingle(s, ',', j);
    }
    FindAt(s, ",", from, c);
  }

  /** A report whose values hold no comma or equals sign parses back into
      its values; the mac takes in everything that trails it. */
  /** A marked text whose values hold no comma parses into those values. */
  lemma MarkedStarts(s: string, a: nat, c1: nat, c2: nat)
    requires Marked(s, a, c1, c2)
    ensures HasMarkers(s)
    ensures ValueStart(s, "type=") == a + 5
    ensures ValueStart(s, "id=") == c1 + 4
    ensures ValueStart(s, "mac=") == c2 + 5
  {
    FindsType(s, a, c1, c2);
    FindsId(s, a, c1, c2);
    FindsMac(s, a, c1, c2);
  }

  /** A value followed by a comma, with no comma inside, is cut out whole. */
  lemma ValueToComma(s: string, start: nat, c: nat)
    requires start <= c < |s| && s[c] == ','
    requires forall j :: start <= j < c ==> s[j] != ','
    ensures UpToComma(s, start) == s[start..c]
  {
    FindsComma(s, start, c);
  }

  lemma MarkedParses(s: string, a: nat, c1: nat, c2: nat)
    requires Marked(s, a, c1, c2)
    requires forall j :: a + 5 <= j < c1 ==> s[j] != ','
    requires forall j :: c1 + 4 <= j < c2 ==> s[j] != ','
    requires forall j :: c2 + 5 <= j < |s| ==> s[j] != ','
    ensures ParseDeviceInfo(s) == Some(Info(s[a + 5..c1], s[c1 + 4..c2], s[c2 + 5..], UNKNOWN_FIRMWARE))
  {
    MarkedStarts(s, a, c1, c2);
    NoVersion(s, a, c1, c2);
    MarkedCommas(s, a, c1, c2);
    var typeAt, idAt, macAt := ValueStart(s, "type="), ValueStart(s, "id="), ValueStart(s, "mac=");
    ValueToComma(s, typeAt, c1);
    ValueToComma(s, idAt, c2);
    MacToEnd(s, macAt);
    assert typeAt == a + 5 && idAt == c1 + 4 && macAt == c2 + 5;
    ParsedFrom(s, s[a + 5..c1], s[c1 + 4..c2], s[c2 + 5..]);
  }

  /** The parser's result, given what each of its field extractions yields. */
  lemma ParsedFrom(s: string, t: string, i: string, m: string)
    requires HasMarkers(s) && !Contains(s, "version=")
    requires UpToComma(s, ValueStart(s, "type=")) == t
    requires UpToComma(s, ValueStart(s, "id=")) == i
    requires MacValue(s, ValueStart(s, "mac=")) == m
    ensures ParseDeviceInfo(s) == Some(Info(t, i, m, UNKNOWN_FIRMWARE))
  {
  }

  lemma MarkedCommas(s: string, a: nat, c1: nat, c2: nat)
    requires Marked(s, a, c1, c2)
    ensures s[c1] == ',' && s[c2] == ','
  {
    assert s[c1..c1 + 4][0] == s[c1];
    assert s[c2..c2 + 5][0] == s[c2];
  }

  /** Without a comma after `start` the mac runs to the end of the text. */
  lemma MacToEnd(s: string, start: nat)
    requires start <= |s|
    requires forall j :: start <= j < |s| ==> s[j] != ','
    ensures MacValue(s, start) == s[start..]
  {
    var rest := s[start..];
    assert ',' !in rest by {
      forall k | 0 <= k < |rest|
        ensures rest[k] != ','
      {
        assert rest[k] == s[start + k];
      }
    }
    ContainsChar(rest, ',');
  }

  lemma ReportParses(pre: string, t: string, i: string, m: string, post: string)
    requires '=' !in pre && Plain(t) && Plain(i) && Plain(m) && Plain(post)
    ensures ParseDeviceInfo(Report(pre, t, i, m, post)) == Some(Info(t, i, m + post, UNKNOWN_FIRMWARE))
  {
    var s := Report(pre, t, i, m, post);
    var a := |pre|;
    var c1 := a + 5 + |t|;
    var c2 := c1 + 4 + |i|;
    ReportSlices(pre, t, i, m, post);
    ReportSeparators(s, pre, t, i, m, post, a, c1, c2);
    MarkedParses(s, a, c1, c2);
  }

  /** The clean round trip: the three values, nothing around them. */
  lemma ReportRoundTrip(t: string, i: string, m: string)
    requires Plain(t) && Plain(i) && Plain(m)
    ensures ParseDeviceInfo(Report("", t, i, m, "")) == Some(Info(t, i, m, UNKNOWN_FIRMWARE))
  {
    ReportParses("", t, i, m, "");
    assert m + "" == m;
  }

  // ------------------------------------------------------------ frames

  /** The decoder as the client runs it: the whole notification, header and
      checksum byte included, is decoded as text. */
  function DecodeDeviceInfoFrame(frame: seq<Byte>): (r: Option<Info>)
    ensures r.Some? <==> HasMarkers(AsciiText(frame))
  {
    ParseDeviceInfo(AsciiText(frame))
  }

  /** The decoder with the checksum byte kept out of the text: only the
      payload is decoded. */
  function DecodeDeviceInfo(frame: seq<Byte>): (r: Option<Info>)
    ensures r.Some? <==> HasMarkers(AsciiText(Payload(frame)))
  {
    ParseDeviceInfo(AsciiText(Payload(frame)))
  }

  /** An ASCII report whose values hold no comma or equals sign. */
  predicate WellFormed(t: string, i: string, m: string)
  {
    && IsAscii(t) && IsAscii(i) && IsAscii(m)
    && Plain(t) && Plain(i) && Plain(m)
    && |Utf8(Report("", t, i, m, ""))| <= MAX_PAYLOAD
  }

  lemma ReportAscii(t: string, i: string, m: string)
    requires WellFormed(t, i, m)
    ensures IsAscii(Report("", t, i, m, ""))
    ensures |Utf8(Report("", t, i, m, ""))| == |Report("", t, i, m, "")|
  {
    var s := Report("", t, i, m, "");
    ReportSlices("", t, i, m, "");
    forall k | 0 <= k < |s|
      ensures s[k] as int < 0x80
    {
      var c1 := 5 + |t|;
      var c2 := c1 + 4 + |i|;
      if k < 5 {
        assert s[k] == s[0..5][k];
      } else if k < c1 {
        assert s[k] == s[5..c1][k - 5];
      } else if k < c1 + 4 {
        assert s[k] == s[c1..c1 + 4][k - c1];
      } else if k < c2 {
        assert s[k] == s[c1 + 4..c2][k - c1 - 4];
      } else if k < c2 + 5 {
        assert s[k] == s[c2..c2 + 5][k - c2];
      } else {
        assert s[k] == s[c2 + 5..][k - c2 - 5];
      }
    }
    AsciiRoundTrip(s);
  }

  /** A device-information response built by the frame codec decodes to the
      values it carries. */
  lemma DeviceInfoRoundTrip(t: string, i: string, m: string)
    requires WellFormed(t, i, m)
    ensures DecodeDeviceInfo(Frame(CMD_DEVICE_INFO, Utf8(Report("", t, i, m, ""))))
            == Some(Info(t, i, m, UNKNOWN_FIRMWARE))
  {
    var s := Report("", t, i, m, "");
    ReportAscii(t, i, m);
    AsciiRoundTrip(s);
    ReportRoundTrip(t, i, m);
  }

  /** No header byte decodes to an equals sign unless the length byte is one. */
  lemma HeaderHasNoEquals(cmd: Byte, data: seq<Byte>)
    requires |data| <= MAX_PAYLOAD && cmd != '=' as int
    requires |Frame(cmd, data)| != '=' as int
    ensures '=' !in AsciiText(Frame(cmd, data)[..4])
  {
    var f := Frame(cmd, data);
    var h := f[..4];
    assert h == [PREFIX, |f|, MARKER, cmd];
    AsciiTextAvoids(h, '=' as int);
  }

  /** Text before and after a bare report puts it in context. */
  lemma ReportFraming(pre: string, t: string, i: string, m: string, post: string)
    ensures pre + Report("", t, i, m, "") + post == Report(pre, t, i, m, post)
  {
  }

  /** The same response read the way the client reads it: the checksum byte
      of a frame made of ASCII bytes is itself below 0x80, so unless it
      happens to be a comma or an equals sign it is decoded as one more
      character of the mac. */
  lemma MacCarriesChecksum(t: string, i: string, m: string)
    requires WellFormed(t, i, m)
    requires var f := Frame(CMD_DEVICE_INFO, Utf8(Report("", t, i, m, "")));
             && |f| < 0x80 && |f| != '=' as int
             && f[|f| - 1] != ',' as int && f[|f| - 1] != '=' as int
    ensures var f := Frame(CMD_DEVICE_INFO, Utf8(Report("", t, i, m, "")));
            && f[|f| - 1] < 0x80
            && DecodeDeviceInfoFrame(f) == Some(Info(t, i, m + [f[|f| - 1] as char], UNKNOWN_FIRMWARE))
  {
    var f := Frame(CMD_DEVICE_INFO, Utf8(Report("", t, i, m, "")));
    var c := f[|f| - 1];
    ReportFrameText(t, i, m);
    var pre := AsciiText(f[..4]);
    var post := [c as char];
    assert Plain(post);
    ReportFraming(pre, t, i, m, post);
    ReportParses(pre, t, i, m, post);
  }

  /** The text of a whole report frame: the header's characters, which hold
      no equals sign, the report, then the checksum as one ASCII character. */
  lemma ReportFrameText(t: string, i: string, m: string)
    requires WellFormed(t, i, m)
    requires var f := Frame(CMD_DEVICE_INFO, Utf8(Report("", t, i, m, "")));
             |f| < 0x80 && |f| != '=' as int
    ensures var f := Frame(CMD_DEVICE_INFO, Utf8(Report("", t, i, m, "")));
            && f[|f| - 1] < 0x80 && '=' !in AsciiText(f[..4])
            && AsciiText(f) == AsciiText(f[..4]) + Report("", t, i, m, "") + [f[|f| - 1] as char]
  {
    var s := Report("", t, i, m, "");
    var f := Frame(CMD_DEVICE_INFO, Utf8(s));
    ReportAscii(t, i, m);
    AsciiChecksum(CMD_DEVICE_INFO, s);
    FrameText(CMD_DEVICE_INFO, s);
    AsciiSingle(f[|f| - 1]);
    HeaderHasNoEquals(CMD_DEVICE_INFO, Utf8(s));
  }
}
