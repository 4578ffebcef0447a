/** The reader of models/gauge_reader.py: one serial port to the gauge, the
    probe, single reads, zeroing, changing the device's baud rate, and
    auto-detection over the candidate rates. Every exchange with the port is
    an oracle `Reply`; the result of each call records the frame it handed to
    the port, if any. Python exceptions become `Err(fault)`. */
module Reader {
  import opened Bytes
  import opened Wrappers
  import opened Frames
  import opened BaudRates
  import opened Transport

  /** `self.serial`: not yet created, or a pyserial port that is open or closed. */
  datatype Serial = NoSerial | SerialPort(isOpen: bool)

  datatype GaugeReader = GaugeReader(port: string, baudrate: int, serial: Serial)

  /** The exceptions the link raises, by cause. */
  datatype Fault =
    | NotConnected          // the port is absent or closed
    | OpenFailed            // pyserial could not open the port
    | ProbeFailed           // the port opened but the device did not answer the probe
    | BadFormat             // a read reply that is short or has the wrong header
    | UnsupportedRate(rate: int)
    | NoResponse            // fewer than 8 bytes came back after a baud change
    | TransportFault        // pyserial raised during the exchange

  /** The result of one call and the request it issued, if it got as far as
      issuing one; the bytes it hands to the port are `Encode` of that command.
      With a `TransportFault` the request is still recorded, although pyserial
      may have raised while flushing the input or mid-write, before all of it
      went out. */
  datatype Exchange<T> = Exchange(result: T, sent: Option<Command>)

  /** A port object that is present and open. */
  predicate PortOpen(s: Serial) {
    s.SerialPort? && s.isOpen
  }

  predicate IsOpen(r: GaugeReader) {
    PortOpen(r.serial)
  }

  /** `GaugeReader(port, baudrate)`: remembers the settings, opens nothing. */
  function NewReader(port: string, baudrate: int): (r: GaugeReader)
    ensures r.port == port && r.baudrate == baudrate
    ensures r.serial.NoSerial? && !IsOpen(r)
  {
    GaugeReader(port, baudrate, NoSerial)
  }

  /** `connect`: opens the port at the reader's rate (8N1, 1 s timeout), or
      raises, leaving the reader as it was. */
  function Connect(r: GaugeReader, opens: bool): (res: Result<GaugeReader, Fault>)
    ensures res.Ok? <==> opens
    ensures res.Ok? ==> IsOpen(res.value) && res.value.port == r.port && res.value.baudrate == r.baudrate
    ensures res.Err? ==> res.error == OpenFailed
  {
    if opens then Ok(r.(serial := SerialPort(true))) else Err(OpenFailed)
  }

  /** `disconnect`: closes the port if it is open; nothing else changes. */
  function Disconnect(r: GaugeReader): (r': GaugeReader)
    ensures !IsOpen(r')
    ensures r'.port == r.port && r'.baudrate == r.baudrate
    ensures r'.serial.NoSerial? <==> r.serial.NoSerial?
    ensures !IsOpen(r) ==> r' == r
  {
    if IsOpen(r) then r.(serial := SerialPort(false)) else r
  }

  lemma DisconnectIdempotent(r: GaugeReader)
    ensures Disconnect(Disconnect(r)) == Disconnect(r)
  {
  }

  /** `test_communication`: on an open port, sends the read request and accepts
      a reply of at least 9 bytes starting 01 04; false otherwise, including
      when pyserial raises. Never raises. */
  function TestCommunication(r: GaugeReader, reply: Reply): (x: Exchange<bool>)
    ensures x.sent.Some? <==> IsOpen(r)
    ensures x.sent.Some? ==> x.sent.value == ReadCommand
    ensures x.result <==> IsOpen(r) && reply.Answer? && ProbeReplyAccepted(Received(reply.bytes, 9))
  {
    if !IsOpen(r) then Exchange(false, None)
    else
      var ok := match reply
        case IoError => false
        case Answer(bytes) => ProbeReplyAccepted(Received(bytes, 9));
      Exchange(ok, Some(ReadCommand))
  }

  /** `read_value`: raises when the port is not open; otherwise sends the read
      request, reads up to 9 bytes and returns the signed big-endian value of
      bytes 3..6 divided by 1000 when the reply has 9 bytes starting 01 04 04,
      and raises otherwise. The reply's CRC is not checked. */
  function ReadValue(r: GaugeReader, reply: Reply): (x: Exchange<Result<real, Fault>>)
    ensures !IsOpen(r) ==> x == Exchange(Err(NotConnected), None)
    ensures IsOpen(r) ==> x.sent == Some(ReadCommand)
    ensures x.result.Ok? <==> IsOpen(r) && reply.Answer? && ReadReplyAccepted(Received(reply.bytes, 9))
    ensures x.result.Ok? ==>
              var resp := Received(reply.bytes, 9);
              x.result.value * 1000.0 == Int32BE(resp[3..7]) as real
    ensures IsOpen(r) && reply.Answer? && !ReadReplyAccepted(Received(reply.bytes, 9)) ==>
              x.result == Err(BadFormat)
    ensures IsOpen(r) && reply.IoError? ==> x.result == Err(TransportFault)
  {
    if !IsOpen(r) then Exchange(Err(NotConnected), None)
    else
      var result := match reply
        case IoError => Err(TransportFault)
        case Answer(bytes) =>
          match DecodeReading(Received(bytes, 9))
          case Some(raw) => Ok(Millimetres(raw))
          case None => Err(BadFormat);
      Exchange(result, Some(ReadCommand))
  }

  /** A device answering with value `raw` is read as `raw / 1000`, CRC bytes
      and all. */
  lemma ReadValueOfDeviceReply(r: GaugeReader, raw: int)
    requires IsOpen(r) && IsInt32(raw)
    ensures ReadValue(r, Answer(ReadReply(raw))).result == Ok(raw as real / 1000.0)
  {
    var f := ReadReply(raw);
    DecodeReadReply(raw);
    Int32RoundTrip(raw);
    assert Received(f, 9) == f;
    assert Int32BE(f[3..7]) == raw;
  }

  /** `zero`: raises when the port is not open; otherwise sends the zero
      request and reports whether at least 8 reply bytes (of up to 10) came
      back. Only a pyserial exception makes it raise after sending. */
  function Zero(r: GaugeReader, reply: Reply): (x: Exchange<Result<bool, Fault>>)
    ensures !IsOpen(r) ==> x == Exchange(Err(NotConnected), None)
    ensures IsOpen(r) ==> x.sent == Some(ZeroCommand)
    ensures x.result.Err? <==> !IsOpen(r) || reply.IoError?
    ensures x.result.Ok? ==> (x.result.value <==> EchoReplyAccepted(Received(reply.bytes, 10)))
  {
    if !IsOpen(r) then Exchange(Err(NotConnected), None)
    else
      var result := match reply
        case IoError => Err(TransportFault)
        case Answer(bytes) => Ok(EchoReplyAccepted(Received(bytes, 10)));
      Exchange(result, Some(ZeroCommand))
  }

  /** `zero` succeeds exactly on a reply of at least 8 bytes and otherwise
      returns False without raising; so a device that echoes the 8-byte zero
      request back makes it succeed. */
  lemma ZeroOfDeviceEcho(r: GaugeReader, bytes: seq<Byte>)
    requires IsOpen(r)
    ensures Zero(r, Answer(bytes)).result == Ok(|bytes| >= 8)
    ensures Zero(r, Answer(Encode(ZeroCommand))).result == Ok(true)
  {
    EchoAccepted(Encode(ZeroCommand));
  }

  /** A request frame echoed back passes the 8-byte test of a read of up to
      10 bytes. */
  lemma EchoAccepted(frame: seq<Byte>)
    requires |frame| == 8
    ensures EchoReplyAccepted(Received(frame, 10))
  {
  }

  /** `change_baudrate`: raises when the port is not open, then raises for a
      rate outside the seven-entry table without sending anything; otherwise
      sends the change-baud request carrying the rate's device code and
      succeeds iff at least 8 reply bytes (of up to 10) came back. The reader's
      own rate is left as it was. */
  function ChangeBaudrate(r: GaugeReader, rate: int, reply: Reply): (x: Exchange<Result<bool, Fault>>)
    ensures !IsOpen(r) ==> x == Exchange(Err(NotConnected), None)
    ensures IsOpen(r) && rate !in DeviceCodes ==> x == Exchange(Err(UnsupportedRate(rate)), None)
    ensures x.sent.Some? <==> IsOpen(r) && rate in DeviceCodes
    ensures x.sent.Some? ==> x.sent.value == ChangeBaudCommand(DeviceCodes[rate])
    ensures x.result.Ok? <==>
              IsOpen(r) && rate in DeviceCodes && reply.Answer? && EchoReplyAccepted(Received(reply.bytes, 10))
    ensures x.result.Ok? ==> x.result.value
  {
    if !IsOpen(r) then Exchange(Err(NotConnected), None)
    else if rate !in DeviceCodes then Exchange(Err(UnsupportedRate(rate)), None)
    else
      var result := match reply
        case IoError => Err(TransportFault)
        case Answer(bytes) =>
          if EchoReplyAccepted(Received(bytes, 10)) then Ok(true) else Err(NoResponse);
      Exchange(result, Some(ChangeBaudCommand(DeviceCodes[rate])))
  }

  /** The change-baud request reaches the device intact: its frame parses
      back to the rate's code, and no other rate of the table has that code,
      so the device recovers the rate asked for. A device that echoes the
      request makes the call succeed. */
  lemma ChangeBaudrateReachesDevice(r: GaugeReader, rate: int, reply: Reply)
    requires IsOpen(r) && rate in DeviceCodes
    ensures ChangeBaudrate(r, rate, reply).sent == Some(ChangeBaudCommand(DeviceCodes[rate]))
    ensures ParseCommand(Encode(ChangeBaudCommand(DeviceCodes[rate]))) == Some(ChangeBaudCommand(DeviceCodes[rate]))
    ensures forall other :: other in DeviceCodes && DeviceCodes[other] == DeviceCodes[rate] ==> other == rate
    ensures ChangeBaudrate(r, rate, Answer(Encode(ChangeBaudCommand(DeviceCodes[rate])))).result == Ok(true)
  {
    ParseEncode(ChangeBaudCommand(DeviceCodes[rate]));
    forall other | other in DeviceCodes && DeviceCodes[other] == DeviceCodes[rate]
      ensures other == rate
    {
      DeviceCodesInjective(other, rate);
    }
    EchoAccepted(Encode(ChangeBaudCommand(DeviceCodes[rate])));
  }

  /** Whether a detection attempt succeeds: the port opens and the probe reply
      has at least 9 bytes starting 01 04. */
  predicate Answers(attempt: Attempt) {
    attempt.Opens? && attempt.reply.Answer? && ProbeReplyAccepted(Received(attempt.reply.bytes, 9))
  }

  /** That is exactly what a fresh reader at the rate does: `connect`, which
      may raise, then `test_communication`. */
  lemma AnswersIsConnectThenProbe(port: string, rate: int, attempt: Attempt)
    ensures Answers(attempt) <==>
              match Connect(NewReader(port, rate), attempt.Opens?)
              case Err(_) => false
              case Ok(live) => TestCommunication(live, attempt.reply).result
  {
  }

  /** The outcome of auto-detection: the rate found, if any, and the rates
      probed, in order. */
  datatype Detection = Detection(rate: Option<int>, probed: seq<int>)

  lemma SliceCons(s: seq<int>, i: nat, j: nat)
    requires i < j <= |s|
    ensures s[i..j] == [s[i]] + s[i + 1..j]
  {
  }

  /** Detection from the `i`-th candidate on. */
  function DetectFrom(device: int -> Attempt, i: nat): (d: Detection)
    requires i <= |Candidates|
    ensures i + |d.probed| <= |Candidates|
    ensures d.probed == Candidates[i..i + |d.probed|]
    ensures d.rate.Some? ==>
              |d.probed| > 0 && d.rate.value == d.probed[|d.probed| - 1]
              && Answers(device(d.rate.value))
    ensures forall k :: i <= k < i + |d.probed| - 1 ==> !Answers(device(Candidates[k]))
    ensures d.rate.None? ==>
              i + |d.probed| == |Candidates|
              && forall k :: i <= k < |Candidates| ==> !Answers(device(Candidates[k]))
    decreases |Candidates| - i
  {
    if i == |Candidates| then Detection(None, [])
    else
      var rate := Candidates[i];
      if Answers(device(rate)) then Detection(Some(rate), [rate])
      else
        var rest := DetectFrom(device, i + 1);
        var d := Detection(rest.rate, [rate] + rest.probed);
        SliceCons(Candidates, i, i + |d.probed|);
        d
  }

  /** `auto_detect_baudrate`: tries 9600, 19200, 38400, 57600, 115200 in that
      order, skipping rates whose port does not open, and returns the first
      whose probe is answered, closing the port again; None if none is. */
  function AutoDetectBaudrate(device: int -> Attempt): (d: Detection)
    ensures |d.probed| <= |Candidates| && d.probed == Candidates[..|d.probed|]
    ensures d.rate.Some? ==>
              |d.probed| > 0 && d.rate.value in Candidates && d.rate.value == d.probed[|d.probed| - 1]
              && Answers(device(d.rate.value))
              && forall k :: 0 <= k < |d.probed| - 1 ==> !Answers(device(d.probed[k]))
    ensures d.rate.None? <==> forall k :: 0 <= k < |Candidates| ==> !Answers(device(Candidates[k]))
    ensures d.rate.None? ==> d.probed == Candidates
  {
    DetectFrom(device, 0)
  }

  /** A device that answers only at 57600 is found there, after 9600, 19200 and
      38400 have each been probed and failed. */
  lemma DetectOnlyAt57600(device: int -> Attempt)
    requires forall rate :: Answers(device(rate)) <==> rate == 57600
    ensures AutoDetectBaudrate(device) == Detection(Some(57600), [9600, 19200, 38400, 57600])
  {
    var d := AutoDetectBaudrate(device);
    assert Answers(device(57600));
    assert Candidates[3] == 57600;
    assert d.rate.Some?;
    assert |d.probed| == 4;
    assert d.probed == Candidates[..4];
  }
}
