/** The link state machine of models/serial_model.py. It holds at most one
    reader, turns the reader's exceptions into `None`/`false` results, and
    reports through an event log standing in for its Qt signals. */
module SerialLink {
  import opened Wrappers
  import opened Bytes
  import opened Transport
  import opened Reader

  /** The signals `dataReceived`, `connectionStatusChanged`, `errorOccurred`
      and `autoDetectCompleted`. */
  datatype Event =
    | DataReceived(value: real)
    | ConnectionStatusChanged(connected: bool)
    | ErrorOccurred(fault: Fault)
    | AutoDetectCompleted(rate: int)

  /** `self.gauge_reader`; `_is_reading` is set once and never read. */
  datatype SerialModel = SerialModel(reader: Option<GaugeReader>)

  /** One call on the model: the model afterwards, the call's return value and
      the signals it emitted, in order. */
  datatype Step<T> = Step(model: SerialModel, result: T, events: seq<Event>)

  function Init(): (m: SerialModel)
    ensures m.reader.None?
  {
    SerialModel(None)
  }

  /** `connect(port, baudrate)`: attaches a fresh reader, opens it and probes
      the device. Success emits `connectionStatusChanged(True)` only. If the
      open raises, or the probe fails (the port is then closed again), it emits
      `errorOccurred` then `connectionStatusChanged(False)` and returns False;
      the new reader stays attached either way, replacing any earlier one. */
  function Connect(m: SerialModel, port: string, baudrate: int, opens: bool, probe: Reply): (s: Step<bool>)
    ensures s.model.reader.Some?
    ensures s.model.reader.value.port == port && s.model.reader.value.baudrate == baudrate
    ensures s.result <==> opens && probe.Answer? && Frames.ProbeReplyAccepted(Received(probe.bytes, 9))
    ensures s.result ==> IsOpen(s.model.reader.value) && s.events == [ConnectionStatusChanged(true)]
    ensures !s.result ==>
              !IsOpen(s.model.reader.value)
              && s.events == [ErrorOccurred(if opens then ProbeFailed else OpenFailed), ConnectionStatusChanged(false)]
  {
    var created := NewReader(port, baudrate);
    match Reader.Connect(created, opens)
    case Err(fault) =>
      Step(SerialModel(Some(created)), false, [ErrorOccurred(fault), ConnectionStatusChanged(false)])
    case Ok(live) =>
      if TestCommunication(live, probe).result then
        Step(SerialModel(Some(live)), true, [ConnectionStatusChanged(true)])
      else
        Step(SerialModel(Some(Reader.Disconnect(live))), false,
             [ErrorOccurred(ProbeFailed), ConnectionStatusChanged(false)])
  }

  /** `disconnect`: drops the reader (closing its port is not modelled, since
      the dropped reader is never used again), and always emits
      `connectionStatusChanged(False)`. */
  function Disconnect(m: SerialModel): (s: Step<()>)
    ensures s.model.reader.None?
    ensures s.events == [ConnectionStatusChanged(false)]
  {
    Step(SerialModel(None), (), [ConnectionStatusChanged(false)])
  }

  /** Disconnecting again changes nothing and emits the same signal. */
  lemma DisconnectIdempotent(m: SerialModel)
    ensures Disconnect(Disconnect(m).model) == Disconnect(m)
  {
  }

  /** `read_value`: without a reader, None and no signal. Otherwise the
      reader's value, announced by `dataReceived`, or None with one
      `errorOccurred` when the reader raises. The model does not change. */
  function ReadValue(m: SerialModel, reply: Reply): (s: Step<Option<real>>)
    ensures s.model == m
    ensures m.reader.None? ==> s.result.None? && s.events == []
    ensures m.reader.Some? ==>
              match Reader.ReadValue(m.reader.value, reply).result
              case Ok(v) => s.result == Some(v) && s.events == [DataReceived(v)]
              case Err(f) => s.result.None? && s.events == [ErrorOccurred(f)]
    ensures s.result.Some? ==> s.events == [DataReceived(s.result.value)]
  {
    match m.reader
    case None => Step(m, None, [])
    case Some(r) =>
      match Reader.ReadValue(r, reply).result
      case Ok(v) => Step(m, Some(v), [DataReceived(v)])
      case Err(f) => Step(m, None, [ErrorOccurred(f)])
  }

  /** A reader left attached by a failed `connect` is not open, so reading
      through it reports `errorOccurred` rather than staying silent. */
  lemma ReadAfterFailedConnect(m: SerialModel, port: string, baudrate: int, opens: bool, probe: Reply, reply: Reply)
    requires !Connect(m, port, baudrate, opens, probe).result
    ensures var s := ReadValue(Connect(m, port, baudrate, opens, probe).model, reply);
            s.result.None? && s.events == [ErrorOccurred(NotConnected)]
  {
  }

  /** `zero_device`: False without a reader; otherwise the reader's answer, or
      False with one `errorOccurred` when the reader raises. */
  function ZeroDevice(m: SerialModel, reply: Reply): (s: Step<bool>)
    ensures s.model == m
    ensures m.reader.None? ==> !s.result && s.events == []
    ensures m.reader.Some? ==>
              match Reader.Zero(m.reader.value, reply).result
              case Ok(b) => s.result == b && s.events == []
              case Err(f) => !s.result && s.events == [ErrorOccurred(f)]
    ensures s.result ==> m.reader.Some? && IsOpen(m.reader.value) && reply.Answer?
  {
    match m.reader
    case None => Step(m, false, [])
    case Some(r) =>
      match Reader.Zero(r, reply).result
      case Ok(b) => Step(m, b, [])
      case Err(f) => Step(m, false, [ErrorOccurred(f)])
  }

  /** Through an open reader, zeroing succeeds silently exactly on a reply of
      at least 8 bytes; a reply that fails does not change the link either. */
  lemma ZeroDeviceOfReply(m: SerialModel, bytes: seq<Byte>)
    requires m.reader.Some? && IsOpen(m.reader.value)
    ensures ZeroDevice(m, Answer(bytes)) == Step(m, |bytes| >= 8, [])
  {
    ZeroOfDeviceEcho(m.reader.value, bytes);
  }

  /** `auto_detect_baudrate`: runs detection and emits `autoDetectCompleted`
      with the rate found, or 0 when none answered. */
  function AutoDetect(m: SerialModel, device: int -> Attempt): (s: Step<Option<int>>)
    ensures s.model == m
    ensures s.result == AutoDetectBaudrate(device).rate
    ensures s.events == [AutoDetectCompleted(if s.result.Some? then s.result.value else 0)]
    ensures s.result.Some? ==> s.result.value > 0
  {
    var found := AutoDetectBaudrate(device).rate;
    Step(m, found, [AutoDetectCompleted(if found.Some? then found.value else 0)])
  }
}
