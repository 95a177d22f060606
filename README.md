# Marstek battery BLE protocol engine, modelled in Dafny

This project models the protocol engine of `marstek.py`, a Python client for
a Marstek home battery reachable over Bluetooth Low Energy. It covers:

- **Frame codec.** Each command goes out as `73 len 23 opcode payload… xor`.
- **Notification handler.** It drops short frames, runs the decoder for the
  frame's opcode and resolves the pending waiter for that opcode.
- **Request/response correlator.** It registers a waiter, writes the frame,
  waits for the first answering notification or the timeout, and removes the
  waiter.
- **Four response decoders:**
  - runtime information;
  - device information (`type=…,id=…,mac=…[,version=…]` text);
  - cell voltages (text form with `_`, binary fallback);
  - timer settings (three timers, the adaptive block, two optional extension
    timers).
- **Command API.** This covers the three queries and the cell-voltage query
  with its parameter retry. It also covers the depth-of-discharge, region,
  adaptive-mode and Wi-Fi setters, plus reboot and factory reset.
- **Continuous-monitoring loop.** It keeps readings and decides when they are
  handed to the save routine.

Modules:

- `Bytes`: integer bytes, bitwise XOR, the checksum fold and 16-bit
  little-endian words.
- `Text`: the Python string built-ins the decoders use, with Python's
  semantics. These are `find` (returns -1 when absent), slicing with negative
  bounds, `strip`, `split` (keeps empty parts), `in`, `int()`, UTF-8 encoding
  and decoding with `errors='ignore'`.
- `Codec`, `RuntimeInfo`, `DeviceInfo`, `CellVoltages`, `TimerInfo`: the
  codec and the decoders, each with the device-side encoder it inverts.
- `Protocol`: the client's state as a value (slots, waiter table, log of
  written frames). It holds the handler, the correlator and the query flows as
  functions, with the lemmas about them.
- `Monitoring`: the monitoring policy as functions, with lemmas.
- `Client`: the class `Marstek`. Its fields are updated in place by methods
  that loop over the notifications. Each method is proved equal to its
  function in `Protocol` or `Monitoring`.

The transport is an input:

- A `Link` says whether the write succeeds and which notifications then
  arrive, with their arrival times in milliseconds after the write.
- A monitoring `Cycle` gives the elapsed seconds at the start of an iteration
  and the links for its requests.

Where the code and its design description disagree, the model follows the
code:

- **Second waiter for the same opcode.** A new request replaces any waiter
  already registered for its opcode. It is not rejected.
- **Failed write.** A failed write returns False and leaves its pending
  waiter registered. Only the wait itself is covered by the clean-up.
- **What the text decoders read.** Both text decoders read more than the
  payload. The device-information decoder reads the whole frame; the
  cell-voltage decoder reads everything after the 4-byte header, checksum
  included. Both are modelled as written, and the notification handler and
  the client use them, so the client's state is the program's. The
  consequences are under Findings. Payload-only versions (`Codec.Payload`
  strips the header and the checksum) stand beside them as the corrected
  decoders, with their round trips proved.
- **Empty cell field.** A text cell field that is empty is skipped. It does
  not end the decode.

## Model

| member | source | states |
|---|---|---|
| Bytes.ChecksumClosesFrame | marstek.py:148-154 | appending the XOR of all bytes built so far makes the whole frame XOR to zero |
| Bytes.Le16RoundTrip | marstek.py:232 | reading a little-endian 16-bit field from its low and high bytes gives the value back |
| Text.Find | marstek.py:308-309 | the index of the first occurrence at or after the start, or -1 exactly when there is none |
| Text.Slice | marstek.py:310 | a slice with in-range bounds is the subsequence; an end of -1 drops the last character; crossed bounds give the empty string |
| Text.Strip | marstek.py:325 | the result is no longer than the input and has no leading or trailing whitespace |
| Text.StripIsInnerSpan | marstek.py:325 | the result is a contiguous piece of the input with only whitespace cut from either end |
| Text.SplitJoin | marstek.py:350 | joining the parts of a split with the separator gives the text back, and no part holds the separator |
| Text.JoinSplit | marstek.py:350 | splitting a join of separator-free parts gives the parts back |
| Text.SplitCount | marstek.py:350-352 | a split yields one more part than there are separators |
| Text.AsciiRoundTrip | marstek.py:303 | decoding the UTF-8 encoding of ASCII text gives the text back, byte for character |
| Text.ParseIntDecimal | marstek.py:353-355 | `int()` of a number's decimal text gives the number back |
| Text.ParseIntRejects | marstek.py:353-364 | digits followed by a character that is neither a digit nor whitespace fail to parse |
| Text.DecimalRoundTrip | marstek.py:364 | the decimal text of a number parses back to that number |
| Codec.Frame | marstek.py:136-154 | the frame is payload length + 5 bytes long: prefix 0x73, the length byte, marker 0x23, the opcode, the payload, and a checksum that makes the whole frame XOR to zero |
| Codec.CreateCommand | marstek.py:136-154 | the builder (length byte patched in, checksum accumulated byte by byte) produces exactly `Frame(cmd, data)` |
| Codec.ExtractOpcode | marstek.py:197-202 | there is an opcode exactly when the frame has at least 4 bytes, and it is byte 3 |
| Codec.OpcodeRoundTrip | marstek.py:143 | a built frame announces the opcode it was built for |
| Codec.FrameInjective | marstek.py:141-154 | different opcode/payload pairs never produce the same frame |
| Codec.DeviceInfoRequestBytes | marstek.py:598-602 | the device-information request is `73 06 23 04 01 53` |
| RuntimeInfo.DecodeRuntime | marstek.py:223-298 | decoding succeeds exactly when the frame has at least 36 bytes, and then every field fits its byte or word |
| RuntimeInfo.NetworkByteComplete | marstek.py:290-291 | status values 0..3 are recovered from their Wi-Fi/MQTT flags; any other value reads as both off |
| RuntimeInfo.RuntimeRoundTrip | marstek.py:230-251 | decoding the frame the device builds from a snapshot gives the snapshot back |
| Text.Pad2RoundTrip | marstek.py:560-561 | a `%02d` field parses back to its number |
| TimerInfo.ClockRoundTrip | marstek.py:560-561 | the `%02d:%02d` text of an hour and a minute parses back to them |
| TimerInfo.DecodeTimers | marstek.py:487-594 | decoding succeeds exactly when the frame has at least 33 bytes; timers 4 and 5 are present exactly when it has at least 57 |
| TimerInfo.BaseBlocksDecode | marstek.py:495-519 | timers 1-3 and the adaptive block decode from their offsets to the settings the device encoded |
| TimerInfo.ExtensionBlocksDecode | marstek.py:527-554 | timers 4 and 5 decode from offsets 43 and 50 to the settings the device encoded |
| TimerInfo.TimerRoundTrip | marstek.py:487-588 | decoding the frame built from a full schedule gives that schedule back, with or without the extension timers |
| DeviceInfo.Firmware | marstek.py:320-325 | "Unknown" without a `version=` marker; otherwise the stripped text from just after the first `version=` to the end |
| DeviceInfo.FirmwareAfterMarker | marstek.py:320-325 | when nothing before `version=` holds an equals sign, the firmware is exactly the stripped text that follows the marker |
| DeviceInfo.ParseDeviceInfo | marstek.py:303-332 | a record exactly when `type=`, `id=` and `mac=` all occur, with the firmware as above |
| DeviceInfo.MacHasNoComma | marstek.py:316-318 | the MAC never contains a comma |
| DeviceInfo.TypeWithoutCommaLosesLastChar | marstek.py:308-310 | when no comma follows `type=`, the type loses its last character, because `find` returns -1 and is used as a slice end |
| DeviceInfo.IdWithoutCommaLosesLastChar | marstek.py:312-314 | when no comma follows `id=`, the id loses its last character in the same way |
| DeviceInfo.ReportParses | marstek.py:307-332 | a report with plain fields parses to its type and id; the MAC runs to the end of the text |
| DeviceInfo.ReportRoundTrip | marstek.py:307-332 | the report built from a type, id and MAC parses back to them, firmware "Unknown" |
| DeviceInfo.DecodeDeviceInfoFrame | marstek.py:300-303 | as written, and used by the handler: the decoder reads the text of the whole frame and succeeds exactly when that text has the three markers |
| DeviceInfo.DecodeDeviceInfo | marstek.py:300-337 | payload only: succeeds exactly when the payload text has the three markers |
| DeviceInfo.DeviceInfoRoundTrip | marstek.py:300-332 | the payload-only decoder recovers type, id and MAC from the frame the device builds |
| DeviceInfo.MacCarriesChecksum | marstek.py:303-318 | the as-written decoder appends the checksum byte's character to the MAC of a well-formed frame |
| CellVoltages.SummaryBounds | marstek.py:357-368 | the minimum and maximum bound every cell; the minimum is a cell; the maximum is a cell or is the initial 0; diff ≥ 0; count is the number of cells |
| CellVoltages.MaxIsACell | marstek.py:360-368 | with no negative readings the maximum is one of the cells |
| CellVoltages.TextPack | marstek.py:346-397 | the text form succeeds only with at least 17 `_`-separated fields and then holds 1..14 cells |
| CellVoltages.CellFieldsStep | marstek.py:362-368 | each cell field either extends the parsed cells (empty fields skipped) or makes the parse fail |
| CellVoltages.BinaryCells | marstek.py:425-431 | the binary form reads 12 to 14 cells, cell k from the little-endian word at 7 + 2k |
| CellVoltages.BinaryPack | marstek.py:405-460 | the binary form succeeds exactly when the frame has at least 32 bytes |
| CellVoltages.DecodeWith | marstek.py:343-468 | the text form's result when it succeeds, otherwise the binary form's |
| CellVoltages.DecodeCellsAsWritten | marstek.py:339-468 | as written, and used by the handler: text read from every byte after the header; every frame of at least 32 bytes decodes |
| CellVoltages.DecodeCells | marstek.py:339-468 | payload only (the corrected decoder): every frame of at least 32 bytes decodes |
| CellVoltages.ParseCellFields | marstek.py:357-369 | the loop over fields 3..16 fails exactly when the field fold fails; otherwise it returns its cells with their sum, minimum and maximum |
| CellVoltages.ParseTextForm | marstek.py:346-397 | the text decoder equals `TextPack` |
| CellVoltages.ParseBinaryForm | marstek.py:405-460 | the binary decoder's loop equals `BinaryPack` |
| CellVoltages.ReadCellWords | marstek.py:419-431 | the word loop reads exactly the cells `CellsFrom` lists, with their sum, minimum and maximum |
| CellVoltages.Accumulate | marstek.py:364-367 | one more reading is appended and the running sum, minimum and maximum become those of the longer list |
| CellVoltages.TakeField | marstek.py:362-367 | one cell field: skipped when empty, taken in with the running sum, minimum and maximum when it parses, a failure otherwise, as the field fold prescribes |
| CellVoltages.DecodeCellVoltages | marstek.py:339-468 | the decoder, reading `data[4:]` as text first, equals `DecodeCellsAsWritten` |
| CellVoltages.CellFieldsDecimal | marstek.py:362-368 | decimal cell fields parse back to their millivolt values |
| CellVoltages.TextFormRoundTrip | marstek.py:349-397 | the 17-field `soc_t1_t2_c1…c14` text decodes to that pack |
| CellVoltages.CellTextRoundTrip | marstek.py:339-397 | the payload-only decoder recovers the pack from the text frame the device builds |
| CellVoltages.TrailingCharBreaksText | marstek.py:353-364 | a character after the last cell that is not a digit, whitespace, `_` or `.` makes `float()` of the last field, and so the text form, fail |
| CellVoltages.CellTextAbsorbsChecksum | marstek.py:346-364 | as written: when the checksum character is such a character, the text form fails and the binary fallback decides |
| CellVoltages.BinaryFormRoundTrip | marstek.py:414-431 | the binary form recovers soc, temperatures and 14 cells from the binary frame |
| CellVoltages.FewSeparatorsNoText | marstek.py:350-352 | a payload with fewer than 16 `_` bytes never takes the text form |
| CellVoltages.CellBinaryRoundTrip | marstek.py:405-460 | the payload-only decoder recovers the pack from a binary frame that cannot pass as text |
| CellVoltages.CellBinaryRoundTripAsWritten | marstek.py:346-460 | the as-written decoder recovers the pack from a binary frame whose bytes after the header, checksum included, cannot pass as text |
| Protocol.TimeoutMs | marstek.py:177 | 5000 ms for cell voltages, 3000 ms otherwise |
| Protocol.Handle | marstek.py:193-221 | a notification never changes the connection, the written log or which opcodes have waiters |
| Protocol.ShortFrameIgnored | marstek.py:197-199 | a frame under 4 bytes changes nothing |
| Protocol.HandleReflects | marstek.py:207-221 | after a notification, its opcode's slot holds what the program's decoder for that opcode reads from the frame, whenever that decode succeeds |
| Protocol.HandleTouchesOneSlot | marstek.py:205-215 | only the slot of the frame's opcode can change, and a failed decode keeps the earlier value |
| Protocol.HandleResolves | marstek.py:218-221 | a pending waiter for the opcode receives the frame, a resolved waiter keeps its first frame, other waiters are untouched |
| Protocol.Pump | marstek.py:177-178 | waiting never changes the connection, the written log or the waiter keys |
| Protocol.FirstReply | marstek.py:177-178 | an arrival that carries the opcode, with every arrival up to it before the deadline and none before it carrying the opcode; None only when no arrival before the first late one carries the opcode |
| Protocol.PumpWaits | marstek.py:177-181 | waiting stops right after the first answering frame, having handled every earlier arrival; without one the waiter is still pending |
| Protocol.SendNotConnected | marstek.py:158-160 | without a connection: False, nothing changes |
| Protocol.SendRejectsOversize | marstek.py:146-163 | a payload over 250 bytes raises before any waiter or write |
| Protocol.SendWrites | marstek.py:162-169 | exactly the built frame is written, once, when the write succeeds |
| Protocol.SendWriteFailure | marstek.py:166-191 | a failed write returns False and leaves the waiter pending |
| Protocol.SendWithoutWait | marstek.py:166-188 | without waiting: True, no waiter registered |
| Protocol.SendCorrelates | marstek.py:171-186 | an awaited request returns the first answering frame before the timeout, or None; its waiter is removed and all others are kept |
| Protocol.SendResponseReflected | marstek.py:177-221 | when a request returns its response, the state already shows the decoded response |
| Protocol.CellQueryFrames | marstek.py:470-485 | the cell query writes 0x00 first and writes the 0x01 retry exactly when the first answer is falsy |
| Protocol.CellQueryRetriesAfterFailure | marstek.py:476-483 | a failed first write always leads to the retry |
| Protocol.CellQueryAnsweredOnce | marstek.py:476-478 | an answered first request is not retried |
| Monitoring.Rounds | marstek.py:672-680 | iterations poll until the first one whose elapsed time reaches a non-zero duration; a zero duration never stops the loop |
| Monitoring.Run | marstek.py:684-694 | the state and polls after n iterations, one poll per iteration |
| Monitoring.KeptSnoc | marstek.py:686-694 | each iteration appends its readings when saving is on and the slot holds something |
| Monitoring.PeriodicSnoc | marstek.py:697-698 | iteration n adds a save exactly when saving is on and n is a multiple of 10 |
| Monitoring.KeptNothing | marstek.py:687-693 | with saving off nothing is kept |
| Monitoring.NoSavesWhenOff | marstek.py:697-709 | with saving off nothing is saved |
| Monitoring.PeriodicSchedule | marstek.py:697-698 | n iterations give n/10 periodic saves, the i-th holding what the first 10(i+1) iterations kept |
| Monitoring.FinalSaveHoldsAll | marstek.py:707-710 | with saving on, on either exit, the last save holds every kept reading |
| Monitoring.KeptGrows | marstek.py:686-694 | what is kept after k iterations is a prefix of what is kept at the end |
| Monitoring.KeptRuntimeReadings | marstek.py:686-688 | with saving on, a runtime reading is kept exactly when some iteration read it |
| Monitoring.KeptCellReadings | marstek.py:692-694 | with saving on, a cell reading is kept exactly when some iteration read it |
| Client.Marstek.constructor | marstek.py:48-56 | empty slots, no waiters, nothing written |
| Client.Marstek.NotificationHandler | marstek.py:193-221 | the object's new state is `Handle` of the old one |
| Client.Marstek.RunDecoder | marstek.py:205-215 | the decoder dispatch equals `Decode` |
| Client.Marstek.StoreRuntimeInfo | marstek.py:223-298 | the runtime slot takes the decoded readings when the frame has at least 36 bytes; nothing else changes |
| Client.Marstek.StoreDeviceInfo | marstek.py:300-337 | the device-info slot takes the fields parsed from the whole frame's text when the markers are present; nothing else changes |
| Client.Marstek.StoreCellVoltages | marstek.py:339-468 | the cell slot takes whichever form decodes, the text form read from `data[4:]`; nothing else changes |
| Client.Marstek.StoreTimerInfo | marstek.py:487-594 | the timer slot takes the schedule when the frame has at least 33 bytes; nothing else changes |
| Client.Marstek.PumpArrivals | marstek.py:177-178 | the notification loop equals `Pump` |
| Client.Marstek.SendCommand | marstek.py:156-191 | the object's new state, the return value and the wait's end equal `Send` |
| Client.Marstek.QuerySlot | marstek.py:598-614 | request, then the one-second pause, equal to `Query` |
| Client.Marstek.GetDeviceInfo | marstek.py:598-602 | equals `Query` for 0x04 and returns the device-information slot |
| Client.Marstek.GetRuntimeInfo | marstek.py:604-608 | equals `Query` for 0x03 and returns the runtime slot |
| Client.Marstek.GetTimerSettings | marstek.py:610-614 | equals `Query` for 0x13 and returns the timer slot |
| Client.Marstek.GetCellVoltages | marstek.py:470-485 | equals `CellQuery` and returns the cell slot |
| Client.Marstek.SetDod | marstek.py:616-624 | True exactly for 10..100; only then is the request sent; otherwise nothing changes |
| Client.Marstek.SetRegion | marstek.py:638-646 | True exactly for 0, 1, 2; only then is the request sent; otherwise nothing changes |
| Client.Marstek.EnableAdaptiveMode | marstek.py:648-653 | sends 0 to enable and 1 to disable, and returns True |
| Client.Marstek.SetWifiConfig | marstek.py:655-660 | sends the encoded `ssid<.,.>password`; raises when connected and the payload exceeds 250 bytes, otherwise True |
| Client.Marstek.RebootDevice | marstek.py:626-630 | sends opcode 0x25 with payload 0x01 and returns True |
| Client.Marstek.FactoryReset | marstek.py:632-636 | sends opcode 0x26 with payload 0x01 and returns True |
| Client.Marstek.MonitorIteration | marstek.py:684-694 | one iteration equals `Iterate` and appends its readings as the policy says |
| Client.Marstek.MonitorContinuous | marstek.py:662-710 | the polls and final state equal `Run` over `Rounds` iterations, and the saves equal `Saves` of the polls |
| Client.CommandWrites | marstek.py:616-660 | a setter's frame reaches the transport exactly when connected and the write succeeds, and it carries the setter's opcode and value |
| Client.WifiPayloadSplits | marstek.py:657 | for ASCII input with no `<` in the SSID, the first separator in the payload text follows the SSID, with the password after it |

## Left out

- Scanning, connecting and disconnecting, and the BLE transport itself: the
  connection state is a constructor parameter, and a write's success and the
  notifications are inputs (`Link`).
- Asynchrony: notifications are handled one after another, in arrival order,
  between the steps of a request. Interleavings the event loop could produce
  are not modelled.
- Sleeps and the monitoring interval: time is given by arrival times and
  elapsed seconds. Cancellation is modelled only between iterations (the
  cycles run out).
- Timestamps, logging and the file format of `_save_monitoring_data`: the
  model returns the lists that would be handed to each save.
- The interactive shell and `main` are not part of this model.
- RuntimeInfo.DecodeRuntime: the battery percentage is kept in tenths. The
  division by 10 into a float is not modelled.
- CellVoltages.TextPack: cell voltages are integer millivolts, and the
  average is not computed. The division by 1000 and the float average are not
  modelled. Text fields are read with `int()` semantics, so `float()`-only
  spellings ("3.3", "3300.", "1e3", "inf") are treated as parse failures.
- CellVoltages.TrailingCharBreaksText: stated only for trailing characters
  other than `.`, because `float("3300.")` succeeds in the program while the
  model's `int()` reading rejects it.
- Text.AsciiText: UTF-8 decoding with `errors='ignore'` is modelled for ASCII
  only. Bytes of 0x80 and above are dropped instead of being decoded as
  multi-byte characters.
- Monitoring.Kept: Python appends a reference to the slot's dict. Since a
  decode always installs a new dict, the model appends the slot's value.
- Client.Marstek.MonitorContinuous: the generic `except Exception` path is not
  modelled. No exception can reach it from the calls the loop makes.

## Findings

| source | as written | input that shows it | evidently intended | confidence | as-written member | corrected member |
|---|---|---|---|---|---|---|
| marstek.py:303-318 | the device-information text is decoded from the whole frame, so when no comma follows `mac=` the MAC runs to the end of the text and takes in the checksum byte's character | a report `type=HMA-1,id=0123456789,mac=aabbccddeeff` framed with opcode 0x04: the checksum is 0x64, so the MAC reads `aabbccddeeffd` | decode the payload only (bytes 4 to length-1) | not executed | DeviceInfo.MacCarriesChecksum | DeviceInfo.DeviceInfoRoundTrip |
| marstek.py:346-364 | the cell text is decoded from everything after the header, checksum included, so the checksum character ends the 17th field; when it is not a digit, whitespace, `_` or `.`, `float()` fails and the binary fallback decodes the text bytes as words | soc 41, temperatures 25 and 24, fourteen cells of 3300 mV as `41_25_24_3300_…_3300`: the 83-byte frame's checksum is 0x08, so the text form fails | decode the payload only | not executed | CellVoltages.CellTextAbsorbsChecksum | CellVoltages.CellTextRoundTrip |
