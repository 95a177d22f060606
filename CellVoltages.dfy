/** Decoding of the cell-voltage response (opcode 0x0F). Firmware revisions
    send it either as underscore-separated text or in a fixed binary layout;
    the text form is tried first and the binary form is the fallback. Cell
    readings are kept in millivolts, the unit the device sends, instead of
    being divided by 1000 into floating-point volts. */
module CellVoltages {
  import opened Wrappers
  import opened Bytes
  import opened Text
  import opened Codec

  /** Fields the text form needs: state of charge, two temperatures and 14
      cells. */
  const TEXT_FIELDS: nat := 17
  const FIRST_CELL_FIELD: nat := 3
  /** Shortest frame the binary form accepts. */
  const BINARY_MIN_LEN: nat := 32
  /** The binary cells are little-endian words at 7, 9, ... below 35. */
  const FIRST_CELL_OFFSET: nat := 7
  const CELL_OFFSET_LIMIT: nat := 35

  datatype Summary = Summary(min: int, max: int, diff: int, sum: int, count: nat)

  datatype CellPack = CellPack(soc: int, temp1: int, temp2: int, cells: seq<int>, summary: Summary)

  // ------------------------------------------------------------ summary

  function Min(a: int, b: int): int { if a <= b then a else b }

  function Max(a: int, b: int): int { if a >= b then a else b }

  /** Running sum, in the order the cells are read. */
  function SumOf(s: seq<int>): int
  {
    if s == [] then 0 else SumOf(s[..|s| - 1]) + s[|s| - 1]
  }

  /** Running minimum; it starts at infinity, so it is the least cell. */
  function MinOf(s: seq<int>): int
    requires s != []
  {
    if |s| == 1 then s[0] else Min(MinOf(s[..|s| - 1]), s[|s| - 1])
  }

  /** Running maximum; it starts at 0, not at minus infinity. */
  function MaxOf(s: seq<int>): int
  {
    if s == [] then 0 else Max(MaxOf(s[..|s| - 1]), s[|s| - 1])
  }

  function Summarize(cells: seq<int>): Summary
    requires cells != []
  {
    Summary(MinOf(cells), MaxOf(cells), MaxOf(cells) - MinOf(cells), SumOf(cells), |cells|)
  }

  function Pack(soc: int, temp1: int, temp2: int, cells: seq<int>): CellPack
    requires cells != []
  {
    CellPack(soc, temp1, temp2, cells, Summarize(cells))
  }

  /** The minimum is a cell and bounds every cell from below; the maximum
      bounds every cell from above and is a cell, unless every cell is
      negative and the starting value 0 remains. */
  lemma {:induction false} SummaryBounds(cells: seq<int>)
    requires cells != []
    ensures forall k :: 0 <= k < |cells| ==> MinOf(cells) <= cells[k] <= MaxOf(cells)
    ensures MinOf(cells) in cells
    ensures MaxOf(cells) in cells || (MaxOf(cells) == 0 && forall k :: 0 <= k < |cells| ==> cells[k] < 0)
    ensures Summarize(cells).diff >= 0 && Summarize(cells).count == |cells|
  {
    var n := |cells|;
    if n > 1 {
      var init := cells[..n - 1];
      SummaryBounds(init);
      assert forall k :: 0 <= k < n - 1 ==> cells[k] == init[k];
      assert forall x :: x in init ==> x in cells;
    }
  }

  /** One more reading updates the running sum, minimum and maximum. */
  lemma SummaryStep(cells: seq<int>, c: int)
    ensures SumOf(cells + [c]) == SumOf(cells) + c
    ensures MaxOf(cells + [c]) == Max(MaxOf(cells), c)
    ensures MinOf(cells + [c]) == if cells == [] then c else Min(MinOf(cells), c)
  {
    assert (cells + [c])[..|cells|] == cells;
  }

  /** With no negative reading the maximum is a cell. */
  lemma MaxIsACell(cells: seq<int>)
    requires cells != [] && forall k :: 0 <= k < |cells| ==> cells[k] >= 0
    ensures MaxOf(cells) in cells
  {
    SummaryBounds(cells);
  }

  // ------------------------------------------------------------ text form

  /** The cell fields: an empty field is skipped, any other field that does
      not parse fails the whole text form. */
  function CellFields(parts: seq<string>): (r: Option<seq<int>>)
    ensures r.Some? ==> |r.value| <= |parts|
  {
    if parts == [] then Some([])
    else
      match CellFields(parts[..|parts| - 1])
      case None => None
      case Some(cells) => TakeCell(cells, parts[|parts| - 1])
  }

  /** One cell field taken in: skipped when empty, appended when it parses,
      a failure otherwise. */
  function TakeCell(cells: seq<int>, p: string): Option<seq<int>>
  {
    if p == [] then Some(cells)
    else
      match ParseInt(p)
      case None => None
      case Some(v) => Some(cells + [v])
  }

  /** One more field, as the decoder's loop takes it. */
  lemma CellFieldsStep(parts: seq<string>, i: nat)
    requires FIRST_CELL_FIELD <= i < |parts|
    ensures var before := CellFields(parts[FIRST_CELL_FIELD..i]);
            CellFields(parts[FIRST_CELL_FIELD..i + 1]) ==
              if before.None? then None else TakeCell(before.value, parts[i])
  {
    assert parts[FIRST_CELL_FIELD..i + 1][..i - FIRST_CELL_FIELD] == parts[FIRST_CELL_FIELD..i];
  }

  /** A field that fails to parse fails every longer run of fields. */
  lemma {:induction false} FailureSticks(parts: seq<string>, n: nat)
    requires n <= |parts| && CellFields(parts[..n]) == None
    ensures CellFields(parts) == None
    decreases |parts| - n
  {
    if n < |parts| {
      assert parts[..n + 1][..n] == parts[..n];
      FailureSticks(parts, n + 1);
    } else {
      assert parts[..n] == parts;
    }
  }

  /** The text form: at least 17 underscore-separated fields, the first
      three parsed as integers, the next fourteen as cells; fields after the
      seventeenth are ignored. It fails when a field does not parse or no
      cell field is present. */
  function TextPack(text: string): (r: Option<CellPack>)
    ensures r.Some? ==> |Split(text, '_')| >= TEXT_FIELDS
    ensures r.Some? ==> 1 <= |r.value.cells| <= TEXT_FIELDS - FIRST_CELL_FIELD
  {
    var parts := Split(text, '_');
    if |parts| < TEXT_FIELDS then None
    else if ParseInt(parts[0]).None? || ParseInt(parts[1]).None? || ParseInt(parts[2]).None? then None
    else
      match CellFields(parts[FIRST_CELL_FIELD..TEXT_FIELDS])
      case None => None
      case Some(cells) =>
        if cells == [] then None
        else Some(Pack(ParseInt(parts[0]).value, ParseInt(parts[1]).value, ParseInt(parts[2]).value, cells))
  }

  // ------------------------------------------------------------ binary form

  /** The little-endian words at `i`, `i + 2`, ... below `stop`, each read
      only when its high byte is inside the frame. */
  function CellsFrom(frame: seq<Byte>, i: nat, stop: nat): seq<int>
    decreases stop - i
  {
    if i >= stop then []
    else (if i + 1 < |frame| then [Le16At(frame, i) as int] else []) + CellsFrom(frame, i + 2, stop)
  }

  /** Where the binary loop stops: offset 35, or the end of a shorter frame. */
  function CellStop(frame: seq<Byte>): nat
  {
    if |frame| < CELL_OFFSET_LIMIT then |frame| else CELL_OFFSET_LIMIT
  }

  /** The words read between `i` and `stop`: every second offset, when the
      stop is the frame end or an even distance away. */
  lemma {:induction false} CellsFromLayout(frame: seq<Byte>, i: nat, stop: nat)
    requires i <= stop <= |frame|
    requires stop == |frame| || (stop - i) % 2 == 0
    ensures |CellsFrom(frame, i, stop)| == (stop - i) / 2
    ensures forall k :: 0 <= k < (stop - i) / 2 ==> CellsFrom(frame, i, stop)[k] == Le16At(frame, i + 2 * k)
    decreases stop - i
  {
    if stop - i >= 2 {
      CellsFromLayout(frame, i + 2, stop);
      var rest := CellsFrom(frame, i + 2, stop);
      assert CellsFrom(frame, i, stop) == [Le16At(frame, i) as int] + rest;
      forall k | 1 <= k < (stop - i) / 2
        ensures CellsFrom(frame, i, stop)[k] == Le16At(frame, i + 2 * k)
      {
        assert CellsFrom(frame, i, stop)[k] == rest[k - 1];
        assert i + 2 + 2 * (k - 1) == i + 2 * k;
      }
    } else if stop - i == 1 {
      assert CellsFrom(frame, i + 2, stop) == [];
    }
  }

  /** The binary cells: 12 for a 32-byte frame, 13 for 33 or 34 bytes, 14
      from 35 bytes on, the k-th read at offset 7 + 2k. */
  lemma BinaryCells(frame: seq<Byte>)
    requires |frame| >= BINARY_MIN_LEN
    ensures var cells := CellsFrom(frame, FIRST_CELL_OFFSET, CellStop(frame));
            && |cells| == (CellStop(frame) - FIRST_CELL_OFFSET) / 2
            && 12 <= |cells| <= 14
            && forall k :: 0 <= k < |cells| ==> cells[k] == Le16At(frame, FIRST_CELL_OFFSET + 2 * k)
  {
    CellsFromLayout(frame, FIRST_CELL_OFFSET, CellStop(frame));
  }

  /** The binary form: state of charge and temperatures at offsets 4, 5 and
      6, then the cell words; it needs 32 bytes and then never lacks cells. */
  function BinaryPack(frame: seq<Byte>): (r: Option<CellPack>)
    ensures r.Some? <==> |frame| >= BINARY_MIN_LEN
  {
    if |frame| < BINARY_MIN_LEN then None
    else
      var cells := CellsFrom(frame, FIRST_CELL_OFFSET, CellStop(frame));
      BinaryCells(frame);
      Some(Pack(frame[4], frame[5], frame[6], cells))
  }

  // ------------------------------------------------------------ the decoder

  /** Text form first, binary form when the text form fails. */
  function DecodeWith(text: string, frame: seq<Byte>): (r: Option<CellPack>)
    ensures TextPack(text).Some? ==> r == TextPack(text)
    ensures TextPack(text).None? ==> r == BinaryPack(frame)
  {
    match TextPack(text)
    case Some(p) => Some(p)
    case None => BinaryPack(frame)
  }

  /** Everything after the 4-byte header, the checksum byte included. */
  function AfterHeader(frame: seq<Byte>): seq<Byte>
  {
    if |frame| >= 4 then frame[4..] else []
  }

  /** The decoder as the client runs it: the text form is read from every
      byte after the header, so the checksum byte becomes the last
      character of the text. */
  function DecodeCellsAsWritten(frame: seq<Byte>): (r: Option<CellPack>)
    ensures |frame| >= BINARY_MIN_LEN ==> r.Some?
  {
    DecodeWith(AsciiText(AfterHeader(frame)), frame)
  }

  /** The decoder with the text form read from the payload alone. */
  function DecodeCells(frame: seq<Byte>): (r: Option<CellPack>)
    ensures |frame| >= BINARY_MIN_LEN ==> r.Some?
  {
    DecodeWith(AsciiText(Payload(frame)), frame)
  }

  /** One reading taken in by both loops: appended to the cells, added to
      the sum, folded into the minimum and the maximum. */
  method Accumulate(cells: seq<int>, sum: int, lo: int, hi: int, c: int)
    returns (cells': seq<int>, sum': int, lo': int, hi': int)
    requires sum == SumOf(cells) && hi == MaxOf(cells)
    requires cells != [] ==> lo == MinOf(cells)
    ensures cells' == cells + [c]
    ensures sum' == SumOf(cells') && hi' == MaxOf(cells') && lo' == MinOf(cells')
  {
    SummaryStep(cells, c);
    lo' := if cells == [] then c else Min(lo, c);
    hi' := Max(hi, c);
    sum' := sum + c;
    cells' := cells + [c];
  }

  /** One field of the cell loop: skipped when empty, parsed and taken in
      otherwise; `ok` is false when it does not parse. */
  method TakeField(p: string, cells: seq<int>, sum: int, lo: int, hi: int)
    returns (ok: bool, cells': seq<int>, sum': int, lo': int, hi': int)
    requires sum == SumOf(cells) && hi == MaxOf(cells)
    requires cells != [] ==> lo == MinOf(cells)
    ensures TakeCell(cells, p) == if ok then Some(cells') else None
    ensures sum' == SumOf(cells') && hi' == MaxOf(cells')
    ensures cells' != [] ==> lo' == MinOf(cells')
  {
    ok, cells', sum', lo', hi' := true, cells, sum, lo, hi;
    if p != [] {
      var v := ParseInt(p);
      if v.None? {
        ok := false;
      } else {
        cells', sum', lo', hi' := Accumulate(cells, sum, lo, hi, v.value);
      }
    }
  }

  /** The cell fields 3 to 16, one at a time, with the running sum,
      minimum and maximum kept alongside. */
  method ParseCellFields(parts: seq<string>) returns (ok: bool, cells: seq<int>, sum: int, lo: int, hi: int)
    requires |parts| >= TEXT_FIELDS
    ensures ok <==> CellFields(parts[FIRST_CELL_FIELD..TEXT_FIELDS]).Some?
    ensures ok ==> CellFields(parts[FIRST_CELL_FIELD..TEXT_FIELDS]) == Some(cells)
    ensures sum == SumOf(cells) && hi == MaxOf(cells)
    ensures cells != [] ==> lo == MinOf(cells)
  {
    cells := [];
    sum, lo, hi := 0, 0, 0;
    ok := true;
    var i := FIRST_CELL_FIELD;
    while i < TEXT_FIELDS && ok
      invariant FIRST_CELL_FIELD <= i <= TEXT_FIELDS
      invariant CellFields(parts[FIRST_CELL_FIELD..i]) == if ok then Some(cells) else None
      invariant sum == SumOf(cells) && hi == MaxOf(cells)
      invariant cells != [] ==> lo == MinOf(cells)
    {
      CellFieldsStep(parts, i);
      ok, cells, sum, lo, hi := TakeField(parts[i], cells, sum, lo, hi);
      i := i + 1;
    }
    if !ok {
      assert parts[FIRST_CELL_FIELD..TEXT_FIELDS][..i - FIRST_CELL_FIELD] == parts[FIRST_CELL_FIELD..i];
      FailureSticks(parts[FIRST_CELL_FIELD..TEXT_FIELDS], i - FIRST_CELL_FIELD);
    }
  }

  /** The text form: the leading fields, then the cell loop. */
  method ParseTextForm(text: string) returns (r: Option<CellPack>)
    ensures r == TextPack(text)
  {
    var parts := Split(text, '_');
    if |parts| < TEXT_FIELDS {
      return None;
    }
    var soc, t1, t2 := ParseInt(parts[0]), ParseInt(parts[1]), ParseInt(parts[2]);
    if soc.None? || t1.None? || t2.None? {
      return None;
    }
    var ok, cells, sum, lo, hi := ParseCellFields(parts);
    if !ok || cells == [] {
      return None;
    }
    assert Summary(lo, hi, hi - lo, sum, |cells|) == Summarize(cells);
    return Some(Pack(soc.value, t1.value, t2.value, cells));
  }

  /** The binary form's loop: every second offset from 7 below `stop`, a
      word read when its high byte is inside the frame, with the running
      sum, minimum and maximum. */
  method ReadCellWords(frame: seq<Byte>, stop: nat) returns (cells: seq<int>, sum: int, lo: int, hi: int)
    requires FIRST_CELL_OFFSET <= stop
    ensures cells == CellsFrom(frame, FIRST_CELL_OFFSET, stop)
    ensures sum == SumOf(cells) && hi == MaxOf(cells)
    ensures cells != [] ==> lo == MinOf(cells)
  {
    cells := [];
    sum, lo, hi := 0, 0, 0;
    var i := FIRST_CELL_OFFSET;
    while i < stop
      invariant FIRST_CELL_OFFSET <= i
      invariant cells + CellsFrom(frame, i, stop) == CellsFrom(frame, FIRST_CELL_OFFSET, stop)
      invariant sum == SumOf(cells) && hi == MaxOf(cells)
      invariant cells != [] ==> lo == MinOf(cells)
      decreases stop - i
    {
      var rest := CellsFrom(frame, i + 2, stop);
      if i + 1 < |frame| {
        var c := Le16At(frame, i);
        assert CellsFrom(frame, i, stop) == [c] + rest;
        assert cells + ([c] + rest) == (cells + [c]) + rest;
        cells, sum, lo, hi := Accumulate(cells, sum, lo, hi, c);
      } else {
        assert CellsFrom(frame, i, stop) == rest;
      }
      i := i + 2;
    }
    assert CellsFrom(frame, i, stop) == [];
    assert cells + [] == cells;
  }

  /** The binary form as the decoder reads it. */
  method ParseBinaryForm(frame: seq<Byte>) returns (r: Option<CellPack>)
    ensures r == BinaryPack(frame)
  {
    if |frame| < BINARY_MIN_LEN {
      return None;
    }
    var stop := if |frame| < CELL_OFFSET_LIMIT then |frame| else CELL_OFFSET_LIMIT;
    var cells, sum, lo, hi := ReadCellWords(frame, stop);
    BinaryCells(frame);
    assert Summary(lo, hi, hi - lo, sum, |cells|) == Summarize(cells);
    return Some(CellPack(frame[4], frame[5], frame[6], cells, Summary(lo, hi, hi - lo, sum, |cells|)));
  }

  /** The decoder: text form first, read from every byte after the header,
      binary form as the fallback. */
  method DecodeCellVoltages(frame: seq<Byte>) returns (r: Option<CellPack>)
    ensures r == DecodeCellsAsWritten(frame)
  {
    r := ParseTextForm(AsciiText(AfterHeader(frame)));
    if r.None? {
      r := ParseBinaryForm(frame);
    }
  }

  // ------------------------------------------------------------ the device side

  /** The decimal texts of a run of readings. */
  function DecimalAll(xs: seq<nat>): (r: seq<string>)
    ensures |r| == |xs|
    ensures forall k :: 0 <= k < |xs| ==> r[k] == Decimal(xs[k])
  {
    if xs == [] then [] else DecimalAll(xs[..|xs| - 1]) + [Decimal(xs[|xs| - 1])]
  }

  /** The fields of a text response: charge, temperatures, then cells. */
  function TextFields(soc: nat, temp1: nat, temp2: nat, cells: seq<nat>): (r: seq<string>)
    ensures |r| == 3 + |cells|
  {
    [Decimal(soc), Decimal(temp1), Decimal(temp2)] + DecimalAll(cells)
  }

  /** A text response as a device sends it: the fields joined by `_`. */
  function CellText(soc: nat, temp1: nat, temp2: nat, cells: seq<nat>): string
  {
    Join(TextFields(soc, temp1, temp2, cells), '_')
  }

  /** Printed readings read back as the readings. */
  lemma {:induction false} CellFieldsDecimal(xs: seq<nat>)
    ensures CellFields(DecimalAll(xs)) == Some(xs)
    decreases |xs|
  {
    if xs != [] {
      var init, x := xs[..|xs| - 1], xs[|xs| - 1];
      CellFieldsDecimal(init);
      ParseIntDecimal(x);
      CellFieldsSnoc(DecimalAll(init), Decimal(x), init, x);
      LastSplit(xs);
    }
  }

  /** A field that parses extends the cells read so far by its value. */
  lemma CellFieldsSnoc(parts: seq<string>, p: string, cells: seq<int>, v: int)
    requires CellFields(parts) == Some(cells) && p != [] && ParseInt(p) == Some(v)
    ensures CellFields(parts + [p]) == Some(cells + [v])
  {
    assert (parts + [p])[..|parts|] == parts;
  }

  /** The fields of a text response split back apart. */
  lemma TextFieldsSplit(soc: nat, temp1: nat, temp2: nat, cells: seq<nat>)
    ensures IsAscii(CellText(soc, temp1, temp2, cells))
    ensures Split(CellText(soc, temp1, temp2, cells), '_') == TextFields(soc, temp1, temp2, cells)
  {
    var fields := TextFields(soc, temp1, temp2, cells);
    assert forall k :: 0 <= k < |fields| ==> AllDigits(fields[k]);
    JoinDigits(fields, '_');
    assert NoSep(fields, '_') by {
      forall k | 0 <= k < |fields|
        ensures '_' !in fields[k]
      {
        assert forall j :: 0 <= j < |fields[k]| ==> IsDigit(fields[k][j]);
      }
    }
    JoinSplit(fields, '_');
  }

  /** The text form reads a 14-cell text response back exactly. */
  lemma TextFormRoundTrip(soc: nat, temp1: nat, temp2: nat, cells: seq<nat>)
    requires |cells| == TEXT_FIELDS - FIRST_CELL_FIELD
    ensures TextPack(CellText(soc, temp1, temp2, cells)) == Some(Pack(soc, temp1, temp2, cells))
  {
    var fields := TextFields(soc, temp1, temp2, cells);
    TextFieldsSplit(soc, temp1, temp2, cells);
    assert fields[FIRST_CELL_FIELD..TEXT_FIELDS] == DecimalAll(cells);
    CellFieldsDecimal(cells);
    ParseIntDecimal(soc);
    ParseIntDecimal(temp1);
    ParseIntDecimal(temp2);
  }

  /** A text response built by the frame codec decodes to the readings it
      carries. */
  lemma CellTextRoundTrip(soc: nat, temp1: nat, temp2: nat, cells: seq<nat>)
    requires |cells| == TEXT_FIELDS - FIRST_CELL_FIELD
    requires |Utf8(CellText(soc, temp1, temp2, cells))| <= MAX_PAYLOAD
    ensures DecodeCells(Frame(CMD_CELL_VOLTAGES, Utf8(CellText(soc, temp1, temp2, cells))))
            == Some(Pack(soc, temp1, temp2, cells))
  {
    var text := CellText(soc, temp1, temp2, cells);
    TextFieldsSplit(soc, temp1, temp2, cells);
    AsciiRoundTrip(text);
    TextFormRoundTrip(soc, temp1, temp2, cells);
  }

  /** A character that is not a digit, a space, `_` or `.` appended to a
      14-cell text lands in the last cell field and fails the text form; a
      `.` is left out because `float()` would accept "3300.". */
  lemma TrailingCharBreaksText(soc: nat, temp1: nat, temp2: nat, cells: seq<nat>, ch: char)
    requires |cells| == TEXT_FIELDS - FIRST_CELL_FIELD
    requires !IsDigit(ch) && !IsSpace(ch) && ch != '_' && ch != '.'
    ensures TextPack(CellText(soc, temp1, temp2, cells) + [ch]) == None
  {
    var text := CellText(soc, temp1, temp2, cells);
    TextFieldsSplit(soc, temp1, temp2, cells);
    SplitSnoc(text, ch, '_');
    var parts := Split(text + [ch], '_');
    assert |parts| == TEXT_FIELDS;
    var last := Decimal(cells[13]);
    assert parts[16] == last + [ch];
    ParseIntRejects(last, ch);
    var cellParts := parts[FIRST_CELL_FIELD..TEXT_FIELDS];
    assert cellParts[|cellParts| - 1] == parts[16];
  }

  /** Everything after the header of a short ASCII frame reads as its
      payload followed by the checksum character. */
  lemma AfterHeaderText(cmd: Byte, text: string)
    requires IsAscii(text) && |Utf8(text)| <= MAX_PAYLOAD && cmd < 0x80
    requires |Frame(cmd, Utf8(text))| < 0x80
    ensures var f := Frame(cmd, Utf8(text));
            AsciiText(AfterHeader(f)) == text + [f[|f| - 1] as char]
  {
    var f := Frame(cmd, Utf8(text));
    var c := f[|f| - 1];
    AsciiRoundTrip(text);
    AsciiChecksum(cmd, text);
    FrameTail(cmd, Utf8(text));
    AsciiTextAppend(Utf8(text), [c]);
    AsciiSingle(c);
  }

  /** The same response read the way the client reads it: the checksum byte
      trails the text and lands at the end of the seventeenth field. When it
      is not a digit, a space, `_` or `.`, that field does not parse, the text
      form fails, and the readings come from the binary layout applied to
      the bytes of the text. */
  lemma CellTextAbsorbsChecksum(soc: nat, temp1: nat, temp2: nat, cells: seq<nat>)
    requires |cells| == TEXT_FIELDS - FIRST_CELL_FIELD
    requires |Utf8(CellText(soc, temp1, temp2, cells))| <= MAX_PAYLOAD
    requires var f := Frame(CMD_CELL_VOLTAGES, Utf8(CellText(soc, temp1, temp2, cells)));
             var c := f[|f| - 1] as char;
             |f| < 0x80 && !IsDigit(c) && !IsSpace(c) && c != '_' && c != '.'
    ensures var f := Frame(CMD_CELL_VOLTAGES, Utf8(CellText(soc, temp1, temp2, cells)));
            && TextPack(AsciiText(AfterHeader(f))) == None
            && DecodeCellsAsWritten(f) == BinaryPack(f)
  {
    var text := CellText(soc, temp1, temp2, cells);
    var f := Frame(CMD_CELL_VOLTAGES, Utf8(text));
    TextFieldsSplit(soc, temp1, temp2, cells);
    AfterHeaderText(CMD_CELL_VOLTAGES, text);
    TrailingCharBreaksText(soc, temp1, temp2, cells, f[|f| - 1] as char);
  }

  /** Readings that fit the 16-bit words of the binary layout. */
  predicate Words16(xs: seq<nat>)
  {
    forall k :: 0 <= k < |xs| ==> xs[k] < 0x1_0000
  }

  /** The readings as little-endian words, low byte first. */
  function WordBytes(xs: seq<nat>): (r: seq<Byte>)
    requires Words16(xs)
    ensures |r| == 2 * |xs|
    ensures forall k :: 0 <= k < |xs| ==> r[2 * k] == LowByte(xs[k]) && r[2 * k + 1] == HighByte(xs[k])
  {
    if xs == [] then []
    else WordBytes(xs[..|xs| - 1]) + [LowByte(xs[|xs| - 1]), HighByte(xs[|xs| - 1])]
  }

  /** A binary response as a device sends it. */
  function BinaryPayload(soc: Byte, temp1: Byte, temp2: Byte, cells: seq<nat>): (p: seq<Byte>)
    requires Words16(cells)
    ensures |p| == 3 + 2 * |cells|
  {
    [soc, temp1, temp2] + WordBytes(cells)
  }

  /** The binary form reads a 14-cell binary response back exactly. */
  lemma BinaryFormRoundTrip(soc: Byte, temp1: Byte, temp2: Byte, cells: seq<nat>)
    requires |cells| == 14 && Words16(cells)
    ensures BinaryPack(Frame(CMD_CELL_VOLTAGES, BinaryPayload(soc, temp1, temp2, cells)))
            == Some(Pack(soc, temp1, temp2, cells))
  {
    var p := BinaryPayload(soc, temp1, temp2, cells);
    var f := Frame(CMD_CELL_VOLTAGES, p);
    assert |f| == 36;
    BinaryCells(f);
    var read := CellsFrom(f, FIRST_CELL_OFFSET, CellStop(f));
    forall k | 0 <= k < 14
      ensures read[k] == cells[k]
    {
      assert f[7 + 2 * k] == p[3 + 2 * k] == WordBytes(cells)[2 * k];
      assert f[8 + 2 * k] == p[4 + 2 * k] == WordBytes(cells)[2 * k + 1];
      Le16RoundTrip(cells[k]);
    }
    assert read == cells;
    assert f[4] == soc && f[5] == temp1 && f[6] == temp2;
  }

  /** Binary data with fewer than 16 bytes equal to `_` splits into fewer
      than 17 fields, so the text form never claims it. */
  lemma FewSeparatorsNoText(b: seq<Byte>)
    requires ByteCount(b, '_' as int) < TEXT_FIELDS - 1
    ensures TextPack(AsciiText(b)) == None
  {
    AsciiCount(b, '_');
    SplitCount(AsciiText(b), '_');
  }

  /** A binary response built by the frame codec decodes to the readings it
      carries, as long as its bytes do not also read as a text response. */
  lemma CellBinaryRoundTrip(soc: Byte, temp1: Byte, temp2: Byte, cells: seq<nat>)
    requires |cells| == 14 && Words16(cells)
    requires ByteCount(BinaryPayload(soc, temp1, temp2, cells), '_' as int) < TEXT_FIELDS - 1
    ensures DecodeCells(Frame(CMD_CELL_VOLTAGES, BinaryPayload(soc, temp1, temp2, cells)))
            == Some(Pack(soc, temp1, temp2, cells))
  {
    var p := BinaryPayload(soc, temp1, temp2, cells);
    FewSeparatorsNoText(p);
    BinaryFormRoundTrip(soc, temp1, temp2, cells);
  }

  /** The same binary response read the way the client reads it: the
      checksum byte joins the text, and as long as the bytes after the header
      hold fewer than sixteen `_` the binary layout reads the readings back. */
  lemma CellBinaryRoundTripAsWritten(soc: Byte, temp1: Byte, temp2: Byte, cells: seq<nat>)
    requires |cells| == 14 && Words16(cells)
    requires ByteCount(AfterHeader(Frame(CMD_CELL_VOLTAGES, BinaryPayload(soc, temp1, temp2, cells))), '_' as int)
             < TEXT_FIELDS - 1
    ensures DecodeCellsAsWritten(Frame(CMD_CELL_VOLTAGES, BinaryPayload(soc, temp1, temp2, cells)))
            == Some(Pack(soc, temp1, temp2, cells))
  {
    var f := Frame(CMD_CELL_VOLTAGES, BinaryPayload(soc, temp1, temp2, cells));
    FewSeparatorsNoText(AfterHeader(f));
    BinaryFormRoundTrip(soc, temp1, temp2, cells);
  }
}
