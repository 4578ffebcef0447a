# Displacement-gauge link: a Dafny model

A model of the protocol engine of a PC application that reads a digital
displacement gauge over RS485. The gauge speaks a subset of Modbus RTU: the
Read Input Registers request (function 0x04, section 6.4 of the Modbus
Application Protocol Specification V1.1b3), the Write Single Register request
(function 0x06, section 6.6 of the same specification) and the CRC-16 of
section 6.2.2 of the Modbus over Serial Line specification V1.02.

The model covers:

- **CRC and frames** (`crc16.dfy`, `frames.dfy`, `bytes.dfy`): the CRC-16 as
  both a per-byte definition and the source's nested loop, the three 8-byte
  requests (read, zero, change-baud), the reply acceptance rules and the
  decoding of the big-endian signed 32-bit reading into millimetres.
- **The reader** (`gauge_reader.dfy`): `GaugeReader` of
  `models/gauge_reader.py`: connect, disconnect, the communication probe,
  read, zero, change-baud with its seven-entry rate table, and baud-rate
  auto-detection.
- **The standalone reader** (`standalone_reader.dfy`): the `GaugeReader` of
  `test.py`. It returns None/False instead of raising, waits a rate-dependent
  settle delay, knows only five rates, and adopts the port it detects.
- **Rate tables** (`baud_rates.dfy`): the five detection candidates and
  both change-baud tables.
- **Interval policy** (`interval_calculator.dfy`): minimum polling interval,
  baud-rate suggestion and interval validity, over exact reals.
- **Link state machine** (`serial_model.dfy`): `SerialModel`, which owns at
  most one reader and turns its exceptions into signals.
- **Polling worker** (`continue_read_worker.dfy`): `ContinuousReadWorker`'s
  read loop as an event trace.
- **Gauge state** (`gauge_model.dfy`): `GaugeModel`'s change-detecting
  setters and connection info.

Conventions:

- Bytes are integers in [0, 256).
- Each Qt signal becomes an element of an event sequence.
- Each Python exception becomes an `Err` carrying a `Fault`.
- Every call that talks to the port returns an `Exchange`. It records the
  call's result and the request it issued, as a `Command`. The bytes handed
  to the port are `Frames.Encode` of that command. With an I/O exception the
  request is still recorded, although pyserial may have raised while
  flushing the input or part-way through the write.

The port itself is an oracle:

- `Transport.Reply` is either the bytes available after the request, or a
  pyserial exception.
- `serial.read(n)` keeps the first `n` of those bytes.
- `Transport.Attempt` says, for each rate tried by detection, whether the
  port opened and what the probe got back.

The polling worker's oracle is a sequence of `Tick`s. Each tick says whether a
reader was attached at that pass and what its read returned or raised.
`stop_reading` lands during the wait after the last tick. Each wait, which
the code polls every millisecond, is one step of the model. A stop that lands
during a pass that then ends in an error is not among these schedules.

The model follows the code as written, including:

- Replies are accepted on length and header bytes alone. Their CRC is never
  checked (`Frames.DecodeIgnoresCrc`, `Frames.CorruptCrcStillDecoded`).
- A short or wrong-header reply raises one "bad format" error in
  `read_value`. A short reply to `zero` makes it return False.
- `SerialModel.connect` attaches the new reader before opening it. After a
  failed open or probe, that reader stays attached (closed), so a later
  `read_value` reports "not connected" through `errorOccurred` rather than
  returning silently (`SerialLink.ReadAfterFailedConnect`).
- After a read error the worker leaves its loop with `running` still True,
  unless a stop came in during that pass.

The two `crc16` functions (`models/gauge_reader.py:18-28` and
`test.py:23-33`) are identical. Both are modelled by `Crc.Crc16`.

## Model

| member | source | states |
|---|---|---|
| Bytes.Int32BE | models/gauge_reader.py:98 | `struct.unpack('>i')` yields a signed 32-bit value. It is negative exactly when the first byte's top bit is set, and it agrees modulo 2^32 with the unsigned big-endian reading of the four bytes. |
| Bytes.Int32ToBE | models/gauge_reader.py:98 | The device-side encoding of a reading: four bytes whose unsigned big-endian value is the reading modulo 2^32. |
| Bytes.Int32RoundTrip | models/gauge_reader.py:98 | Decoding the four bytes a device sends for any signed 32-bit value gives that value back. |
| Bytes.BytesRoundTrip | models/gauge_reader.py:98 | Any four bytes survive decode-then-encode, so the decoding loses no information. |
| Crc.XorBound | models/gauge_reader.py:22-25 | Python's `^` on two values below 2^n stays below 2^n, so the CRC register never grows past 16 bits. |
| Crc.Crc16 | models/gauge_reader.py:18-28 | The CRC of any byte sequence is below 2^16, so it splits into exactly two bytes. |
| Crc.CrcFromAppend | models/gauge_reader.py:21-27 | The CRC is a left-to-right accumulation: the register after `a + b` is the register after `a`, then fed `b`. |
| Crc.ComputeCrc16 | models/gauge_reader.py:18-28 | The source's nested loop (XOR the byte in, eight shift-and-conditionally-XOR-0xA001 passes, starting from 0xFFFF) computes exactly the per-byte definition. |
| Transport.Received | models/gauge_reader.py:95 | `serial.read(n)` returns a prefix of the available bytes, of length min(available, n). |
| Frames.Header | models/gauge_reader.py:147 | Each request header is address 1, function 0x04 for reads and 0x06 otherwise, register 0x37/0x36/0x31 and count or value 2/1/the rate code, both big-endian. |
| Frames.AppendCrc | models/gauge_reader.py:88-89 | Appending the CRC adds exactly two bytes after the unchanged header, the CRC low byte then high byte, so the frame's CRC is intact. |
| Frames.Encode | models/gauge_reader.py:87-89 | Every request frame is 8 bytes: its 6-byte header followed by an intact CRC. |
| Frames.ParseEncode | models/gauge_reader.py:87-89 | A device-side parser recovers every command from its frame. |
| Frames.EncodeParse | models/gauge_reader.py:87-89 | Any frame the parser accepts is exactly the encoding of the command it yields, CRC bytes included. |
| Frames.SameHeaderSameFrame | models/gauge_reader.py:88-89 | Two 8-byte frames with intact CRCs and the same header are equal: the CRC bytes are fixed by the header. |
| Frames.DecodeReading | models/gauge_reader.py:96-100 | A reply yields a reading iff it has at least 9 bytes starting 01 04 04. The reading is then a signed 32-bit value whose big-endian encoding is bytes 3..6. |
| Frames.DecodeReadReply | models/gauge_reader.py:96-100 | The reply a device builds for any reading is accepted and decodes to that reading. |
| Frames.DecodeIgnoresCrc | models/gauge_reader.py:96-102 | Replies that agree on their first seven bytes decode alike, whatever their CRC bytes hold. |
| Frames.CorruptCrcStillDecoded | models/gauge_reader.py:96-100 | A device reply whose CRC byte is damaged fails the CRC check yet still decodes to the original reading. |
| Frames.ReadAcceptedIsProbeAccepted | models/gauge_reader.py:73 | Every reply accepted as a reading also passes the probe test and the 8-byte echo test. |
| Frames.Millimetres | models/gauge_reader.py:100 | The returned value times 1000 is the raw reading, exactly. |
| Frames.MillimetresExamples | models/gauge_reader.py:100 | Raw readings 12345 and -12345 are 12.345 mm and -12.345 mm. |
| BaudRates.CandidatesAscending | models/gauge_reader.py:175 | The detection candidates are strictly ascending. |
| BaudRates.DeviceCodesAreBcd | models/gauge_reader.py:131-139 | Every device code is its rate in hundreds written in BCD (2400 to 0x0024, ..., 115200 to 0x1152). |
| BaudRates.BcdInjective | models/gauge_reader.py:131-139 | Two numbers with the same BCD encoding are equal. |
| BaudRates.DeviceCodesInjective | models/gauge_reader.py:131-139 | No two rates in the seven-entry table share a device code. |
| BaudRates.StandaloneTableAgrees | test.py:169-170 | The five-entry table covers exactly the detection candidates and gives each the same code as the seven-entry table. |
| Reader.NewReader | models/gauge_reader.py:11-16 | A new reader keeps its port and rate and holds no serial port, so it is not open. |
| Reader.Connect | models/gauge_reader.py:30-43 | Connecting succeeds iff the port opens. The reader is then open with the same port and rate; otherwise the error is an open failure. |
| Reader.Disconnect | models/gauge_reader.py:45-48 | Afterwards the port is not open and the settings are unchanged. A reader that was not open is left exactly as it was. |
| Reader.DisconnectIdempotent | models/gauge_reader.py:45-48 | Disconnecting twice is the same as disconnecting once. |
| Reader.TestCommunication | models/gauge_reader.py:50-78 | The probe sends the read request iff the port is open. It succeeds iff the port is open and the reply has at least 9 bytes starting 01 04; it never raises. |
| Reader.ReadValue | models/gauge_reader.py:80-105 | A closed port raises without sending. Otherwise it sends the read request. It yields a value iff the reply is accepted, and that value times 1000 is the reply's bytes 3..6 as a signed int. A rejected reply raises "bad format" and an I/O exception raises a transport fault. |
| Reader.ReadValueOfDeviceReply | models/gauge_reader.py:95-100 | Reading a device that answers with reading `raw` returns `raw / 1000`. |
| Reader.Zero | models/gauge_reader.py:107-123 | A closed port raises without sending. Otherwise it sends the zero request. It raises only on an I/O exception, and reports whether at least 8 of up to 10 bytes came back. |
| Reader.ChangeBaudrate | models/gauge_reader.py:125-161 | The not-open check comes first. A rate outside the seven-entry table then raises without sending. Otherwise it sends the change-baud request with that rate's code and succeeds (True) iff at least 8 bytes come back; it raises otherwise. |
| Reader.ZeroOfDeviceEcho | models/gauge_reader.py:107-123 | On an open port zero reports whether at least 8 bytes came back; the device's echo of the zero request gives True. |
| Reader.ChangeBaudrateReachesDevice | models/gauge_reader.py:125-161 | For a rate in the table, the request issued carries that rate's code. Parsing its encoding recovers that code, no other rate in the table shares it, and the device's echo gives True. |
| Reader.AnswersIsConnectThenProbe | models/gauge_reader.py:179-182 | A detection attempt succeeds exactly when a fresh reader at that rate connects and then passes `test_communication`. |
| Reader.DetectFrom | models/gauge_reader.py:177-189 | From candidate `i` on: the probed rates are consecutive candidates. A found rate is the last probed and answered, and every earlier probe failed. Nothing is found only if every remaining candidate fails. |
| Reader.AutoDetectBaudrate | models/gauge_reader.py:172-191 | Probes a prefix of 9600, 19200, 38400, 57600, 115200 in order. It returns the first rate whose attempt answers, and None iff no candidate answers, after probing all five. |
| Reader.DetectOnlyAt57600 | models/gauge_reader.py:175-191 | A device answering only at 57600 is found there after 9600, 19200 and 38400 have failed. |
| IntervalPolicy.MinInterval | models/interval_calculator.py:20-28 | The minimum interval times the rate is exactly 255 (17 bytes × 10 bits × 1.5), so it is positive for a positive rate. |
| IntervalPolicy.MinIntervalDecreasing | models/interval_calculator.py:20-28 | A strictly faster rate needs a strictly shorter minimum interval. |
| IntervalPolicy.CandidateIntervalsDecreasing | models/interval_calculator.py:40 | Along the candidate list the minimum interval strictly decreases. |
| IntervalPolicy.MinIntervalExamples | models/interval_calculator.py:20-28 | At 9600 the minimum interval is 0.0265625 s; at 115200 it is 255/115200 s. |
| IntervalPolicy.IsIntervalValid | models/interval_calculator.py:61-62 | For a positive rate, an interval is valid iff interval × rate ≥ 255. |
| IntervalPolicy.IntervalValidityExamples | models/interval_calculator.py:61-62 | 0.2 s is valid at 9600 and 0.01 s is not. |
| IntervalPolicy.SuggestFrom | models/interval_calculator.py:42-48 | The scan returns the index of the first candidate from `i` on whose minimum interval fits the target. Every index before it fails. When none fits, it returns the last index. |
| IntervalPolicy.SuggestBaudrate | models/interval_calculator.py:31-48 | The suggestion is always a candidate. When some candidate fits, it is the slowest fitting one and every slower candidate does not fit; when none fits, it is 115200. |
| IntervalPolicy.SuggestionIsValid | models/interval_calculator.py:42-45 | When the target is attainable, the suggested rate and every faster candidate pass `is_interval_valid` for the target. |
| IntervalPolicy.SuggestTenMilliseconds | models/interval_calculator.py:42-45 | For a 10 ms target the suggestion is 38400. |
| SerialLink.Init | models/serial_model.py:18-21 | A new link holds no reader. |
| SerialLink.Connect | models/serial_model.py:38-55 | Connecting attaches a reader with the given settings. It returns True with only `connectionStatusChanged(True)` iff the port opens and the probe is answered. Otherwise it returns False with the reader closed, emitting `errorOccurred` (open or probe failure) then `connectionStatusChanged(False)`. |
| SerialLink.Disconnect | models/serial_model.py:57-62 | Afterwards no reader is held, and exactly one `connectionStatusChanged(False)` is emitted whether or not there was a reader. |
| SerialLink.DisconnectIdempotent | models/serial_model.py:57-62 | Disconnecting again gives the same state and the same signal. |
| SerialLink.ReadValue | models/serial_model.py:64-76 | The link is unchanged. With no reader it returns None and emits nothing. Otherwise it returns the reader's value with one `dataReceived` carrying it, or None with one `errorOccurred` carrying the reader's fault. |
| SerialLink.ZeroDeviceOfReply | models/serial_model.py:78-86 | Through an open reader, zeroing returns True exactly on a reply of at least 8 bytes. It emits nothing either way and leaves the link as it was. |
| SerialLink.ReadAfterFailedConnect | models/serial_model.py:38-55 | After a failed connect, a read returns None and emits one "not connected" error. |
| SerialLink.ZeroDevice | models/serial_model.py:78-86 | Without a reader it returns False silently. Otherwise it returns the reader's answer, or False with one `errorOccurred` when the reader raises. True implies an open reader and an answered request. |
| SerialLink.AutoDetect | models/serial_model.py:27-32 | Returns the detected rate and emits `autoDetectCompleted` with it, or with 0 when nothing was found. |
| PollWorker.NewWorker | models/continue_read_worker.py:16-20 | A new worker keeps its interval and is not running. |
| PollWorker.StopReading | models/continue_read_worker.py:27-29 | Stopping lowers the flag and keeps the interval. |
| PollWorker.StartReading | models/continue_read_worker.py:22-52 | The loop emits exactly the reference trace for the schedule. It issues one read per non-detached pass, never more than the schedule allows. When every stop lands during a wait, the flag is left up exactly when the loop ended through an error. |
| PollWorker.LoopShape | models/continue_read_worker.py:33-50 | The loop never emits `finished`, every event but its last is `dataRead`, and it emits at most one event per pass. |
| PollWorker.FinishedExactlyOnce | models/continue_read_worker.py:52 | `finished` is emitted once, as the last event, on every exit path. |
| PollWorker.ErrorIsLast | models/continue_read_worker.py:39-50 | Every event before the last two is `dataRead`, so at most one error is emitted, right before `finished`. |
| PollWorker.DetachedReaderEndsAtOnce | models/continue_read_worker.py:35-41 | With no reader at the first pass, the trace is one "device disconnected" error then `finished`. |
| PollWorker.FirstFailureEndsLoop | models/continue_read_worker.py:48-50 | A read that raises after `n` good passes ends the loop with exactly that one error; nothing is retried. |
| PollWorker.StopAfterGoodReads | models/continue_read_worker.py:33-46 | When every pass reads successfully until the stop, the loop emits one `dataRead` per pass, carrying that pass's value, and nothing after the stop. |
| GaugeState.Init | models/gauge_model.py:20-24 | The initial state is value 0.0, disconnected, port "", rate 9600, not reading. |
| GaugeState.SetCurrentValue | models/gauge_model.py:31-35 | Only the value changes. `dataChanged(v)` is emitted, once, iff `v` differs from the stored value. |
| GaugeState.SetIsConnected | models/gauge_model.py:41-45 | Only the flag changes. `connectionChanged` is emitted, once, iff the flag flips. |
| GaugeState.SetIsReading | models/gauge_model.py:51-54 | Only the reading flag changes, and nothing is ever emitted. |
| GaugeState.SetCurrentValueIdempotent | models/gauge_model.py:31-35 | Setting the same value a second time changes nothing and emits nothing. |
| GaugeState.SetIsConnectedIdempotent | models/gauge_model.py:41-45 | Setting the same flag a second time changes nothing and emits nothing. |
| GaugeState.ApplyValues | models/gauge_model.py:31-35 | A run of value updates ends at the last value and changes nothing else. Its signals are, in order, `dataChanged(v)` for exactly the values `v` of `ChangedValues`: the elements that differ from the value before them. |
| GaugeState.ChangedValuesFromInput | models/gauge_model.py:31-35 | Every signalled value is one of the applied values, there are no more signals than values, and a run whose last value is new ends by signalling that value. |
| GaugeState.RepeatedValueIsSilent | models/gauge_model.py:31-35 | Re-applying the stored value any number of times emits no signal. |
| GaugeState.ConnectDevice | models/gauge_model.py:57-63 | Records port and rate, returns True and leaves the connection flag as it was, as the connection info then reports. |
| GaugeState.StartContinuousRead | models/gauge_model.py:82-86 | Raises the reading flag, changes nothing else, and emits nothing. |
| GaugeState.StopContinuousRead | models/gauge_model.py:88-92 | Lowers the reading flag, changes nothing else, and emits nothing. |
| GaugeState.GetCurrentConnectionInfo | models/gauge_model.py:100-106 | Reports exactly the stored port, rate and connection flag. |
| GaugeState.ConnectionInfoTracksSetters | models/gauge_model.py:100-106 | The reported flag is the one last set. Value and reading updates leave the reported info unchanged. |
| GaugeState.StartStopRestores | models/gauge_model.py:82-92 | Starting then stopping continuous reading restores a state that was not reading. |
| StandaloneReader.NewStandalone | test.py:16-21 | A new standalone reader keeps its port and rate and holds no port. |
| StandaloneReader.Connect | test.py:35-50 | Returns True iff the port opens, leaving it open with the same settings; on failure the reader is unchanged. |
| StandaloneReader.Disconnect | test.py:52-56 | Afterwards no port is open, the port object (if any) stays attached, and the settings are unchanged. |
| StandaloneReader.SettleDelay | test.py:73-78 | The wait before reading is 10 ms exactly from 57600 baud up, 50 ms exactly below 19200, and 20 ms in between. |
| StandaloneReader.SettleDelayNonIncreasing | test.py:73-78 | A faster line never waits longer. |
| StandaloneReader.ReadValue | test.py:58-90 | Sends the read request iff the port is open. It returns a value iff the port is open and the reply is accepted, the value times 1000 being bytes 3..6 as a signed int; every other case returns None. |
| StandaloneReader.ReadValueAgrees | test.py:58-90 | For every reader, the standalone read returns exactly the models reader's value, returns None exactly where that reader raises, and issues the same request. |
| StandaloneReader.ZeroAgrees | test.py:92-108 | For every reader, the standalone zero returns True exactly where the models reader's zero returns True, and issues the same request. |
| StandaloneReader.ChangeBaudrateAgrees | test.py:163-191 | On the five candidate rates the standalone call returns True exactly where the models reader's returns True, with the same request. At 2400 and 4800 on an open port the models reader sends its request, while the standalone one returns False without sending. |
| StandaloneReader.DisconnectIdempotent | test.py:52-56 | Disconnecting twice is the same as disconnecting once. |
| StandaloneReader.DisconnectClosedIsNoOp | test.py:52-56 | Disconnecting a reader whose port is not open, including one with no port object, leaves it exactly as it was. |
| StandaloneReader.Zero | test.py:92-108 | Sends the zero request iff the port is open. It returns True iff the port is open and at least 8 of up to 10 bytes came back. |
| StandaloneReader.ChangeBaudrate | test.py:163-191 | A rate outside the five candidates returns False without sending. The request goes out iff the port is open and the rate is supported. It returns True iff that holds and at least 8 bytes came back. |
| StandaloneReader.ProbeAcceptedAgrees | test.py:220-222 | Accepting a probe read of up to 20 bytes (at least 9, starting 01 04) accepts exactly the replies the models reader's detection accepts. |
| StandaloneReader.DetectFrom | test.py:197-231 | From candidate `i` on: success leaves the port open at an answering candidate. Failure leaves the reader unchanged. It succeeds, at the same rate, exactly when the models reader's detection from `i` does. |
| StandaloneReader.AutoDetectBaudrate | test.py:193-234 | Returns True iff the models reader's detection finds a rate, and then adopts that rate with its port open. Otherwise it returns False with the earlier port closed and the rate unchanged. |

## Left out

- Real pyserial I/O: opening ports with their settings, buffer resets, blocking reads and timeouts, and `get_available_ports`. The port is an oracle of open outcomes and available bytes.
- All `time.sleep` waits and wall-clock timing. `StandaloneReader.SettleDelay` computes the wait but nothing elapses. The worker's interval wait is collapsed into the point where `stop_reading` may land, and its `dataRead` timestamp is dropped.
- QThread concurrency. Cancellation is a point in the worker's schedule, not a race.
- The Python float `/ 1000.0`: values are exact reals, so no rounding is modelled.
- Exception message strings. Each exception is a `Fault` constructor, and signals carry the fault rather than its text.
- `print` output: in `test.py`, the debug prints of `models/serial_model.py` (`read_value`) and the prints of `models/gauge_model.py` (`connect_device`, `start_continuous_read`, `stop_continuous_read`). Console I/O only.
- `continuous_read` and `main` of `test.py`: a console loop around `read_value`.
- SerialLink.Disconnect: the dropped reader's `disconnect()` (its port close) is not modelled. The reader is never used again, and port objects are not tracked.
- The `except` branch of `SerialModel.auto_detect_baudrate` (`models/serial_model.py:33-36`). Detection catches every exception per candidate, so this branch is not reachable.
- `GaugeModel.disconnect_device`, `auto_detect_device`, `read_single_value` and `zero_device`. They only print and return constants.
- IntervalPolicy.MinInterval: requires a non-zero rate, because Python raises `ZeroDivisionError` there and the model does not carry that exception.
- IntervalPolicy.IsIntervalValid: requires a non-zero rate for the same reason, since it divides by the rate through the minimum interval.
- PollWorker.StartReading: a `stop_reading` that lands during a pass that then ends in an error is not modelled. There the flag would be down after the error, and the model leaves it up after every error.
- Resource release that the code never performs. `SerialModel.connect` drops an earlier reader without closing it. The test port of `test.py`'s detection stays open when its exchange raises. The model does not track port objects that are no longer referenced.
- The controllers, views, `models/serial_auto_detect.py` and `main.py`: UI wiring, file export and application start-up.
