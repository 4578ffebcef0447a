/** The standalone reader of test.py: the same protocol as
    models/gauge_reader.py, but every failure becomes a `None` or `False`
    return instead of an exception, the wait before reading depends on the baud
    rate, only the five candidate rates may be set, and auto-detection adopts
    the port it found instead of returning the rate. */
module StandaloneReader {
  import opened Bytes
  import opened Wrappers
  import opened Frames
  import opened BaudRates
  import opened Transport
  import Reader

  datatype Standalone = Standalone(port: string, baudrate: int, serial: Reader.Serial)

  predicate IsOpen(r: Standalone) {
    Reader.PortOpen(r.serial)
  }

  /** `GaugeReader(port, baudrate)`; the defaults are COM7 at 9600. */
  function NewStandalone(port: string, baudrate: int): (r: Standalone)
    ensures r.port == port && r.baudrate == baudrate && r.serial.NoSerial?
  {
    Standalone(port, baudrate, Reader.NoSerial)
  }

  /** `connect`: opens the port and returns True, or returns False leaving the
      reader as it was. */
  function Connect(r: Standalone, opens: bool): (res: (Standalone, bool))
    ensures res.1 <==> opens
    ensures res.1 ==> IsOpen(res.0) && res.0.port == r.port && res.0.baudrate == r.baudrate
    ensures !res.1 ==> res.0 == r
  {
    if opens then (r.(serial := Reader.SerialPort(true)), true) else (r, false)
  }

  /** `disconnect`: closes the port object if there is one; it stays attached. */
  function Disconnect(r: Standalone): (r': Standalone)
    ensures !IsOpen(r')
    ensures r'.serial.NoSerial? <==> r.serial.NoSerial?
    ensures r'.port == r.port && r'.baudrate == r.baudrate
  {
    if r.serial.SerialPort? then r.(serial := Reader.SerialPort(false)) else r
  }

  /** Disconnecting again changes nothing. */
  lemma DisconnectIdempotent(r: Standalone)
    ensures Disconnect(Disconnect(r)) == Disconnect(r)
  {
  }

  /** A reader whose port is not open, including one without a port object,
      is left exactly as it was. */
  lemma DisconnectClosedIsNoOp(r: Standalone)
    requires !IsOpen(r)
    ensures Disconnect(r) == r
  {
  }

  /** The pause between sending the read request and reading the reply. */
  function SettleDelay(baudrate: int): (seconds: real)
    ensures seconds in {0.01, 0.02, 0.05}
    ensures seconds == 0.01 <==> baudrate >= 57600
    ensures seconds == 0.05 <==> baudrate < 19200
  {
    if baudrate >= 57600 then 0.01
    else if baudrate >= 19200 then 0.02
    else 0.05
  }

  /** A faster line never waits longer. */
  lemma SettleDelayNonIncreasing(a: int, b: int)
    requires a <= b
    ensures SettleDelay(a) >= SettleDelay(b)
  {
  }

  /** `read_value`: None without a port object; None when the port is closed
      (the write raises) or pyserial raises; otherwise the reply of up to 9
      bytes is accepted iff it has 9 bytes starting 01 04 04, and the value is
      bytes 3..6 as a signed big-endian integer divided by 1000. Never raises. */
  function ReadValue(r: Standalone, reply: Reply): (x: Reader.Exchange<Option<real>>)
    ensures x.sent.Some? <==> IsOpen(r)
    ensures x.sent.Some? ==> x.sent.value == ReadCommand
    ensures x.result.Some? <==> IsOpen(r) && reply.Answer? && ReadReplyAccepted(Received(reply.bytes, 9))
    ensures x.result.Some? ==>
              x.result.value * 1000.0 == Int32BE(Received(reply.bytes, 9)[3..7]) as real
  {
    if !IsOpen(r) then Reader.Exchange(None, None)
    else
      var value := match reply
        case IoError => None
        case Answer(bytes) =>
          match DecodeReading(Received(bytes, 9))
          case Some(raw) => Some(Millimetres(raw))
          case None => None;
      Reader.Exchange(value, Some(ReadCommand))
  }

  /** The standalone read returns exactly the value the models reader
      returns, and None exactly where that reader raises, issuing the same
      request. */
  lemma ReadValueAgrees(r: Standalone, reply: Reply)
    ensures var model := Reader.GaugeReader(r.port, r.baudrate, r.serial);
            var x := Reader.ReadValue(model, reply);
            ReadValue(r, reply).result == (if x.result.Ok? then Some(x.result.value) else None)
            && ReadValue(r, reply).sent == x.sent
  {
  }

  /** `zero`: False without an open port or when pyserial raises; otherwise
      True iff at least 8 reply bytes (of up to 10) came back. */
  function Zero(r: Standalone, reply: Reply): (x: Reader.Exchange<bool>)
    ensures x.sent.Some? <==> IsOpen(r)
    ensures x.sent.Some? ==> x.sent.value == ZeroCommand
    ensures x.result <==> IsOpen(r) && reply.Answer? && EchoReplyAccepted(Received(reply.bytes, 10))
  {
    if !IsOpen(r) then Reader.Exchange(false, None)
    else
      var ok := match reply
        case IoError => false
        case Answer(bytes) => EchoReplyAccepted(Received(bytes, 10));
      Reader.Exchange(ok, Some(ZeroCommand))
  }

  /** The standalone zero returns True exactly where the models reader's
      returns True, and False where that returns False or raises, issuing the
      same request. */
  lemma ZeroAgrees(r: Standalone, reply: Reply)
    ensures var x := Reader.Zero(Reader.GaugeReader(r.port, r.baudrate, r.serial), reply);
            Zero(r, reply).result == (x.result == Ok(true))
            && Zero(r, reply).sent == x.sent
  {
  }

  /** `change_baudrate`: False without a port object; False without sending
      for a rate outside the five candidates; False when the port is closed or
      pyserial raises; otherwise sends the change-baud request with the rate's
      device code and returns True iff at least 8 reply bytes came back. */
  function ChangeBaudrate(r: Standalone, rate: int, reply: Reply): (x: Reader.Exchange<bool>)
    ensures rate !in StandaloneCodes ==> x == Reader.Exchange(false, None)
    ensures x.sent.Some? <==> IsOpen(r) && rate in StandaloneCodes
    ensures x.sent.Some? ==> x.sent.value == ChangeBaudCommand(StandaloneCodes[rate])
    ensures x.result <==>
              IsOpen(r) && rate in Candidates && reply.Answer? && EchoReplyAccepted(Received(reply.bytes, 10))
  {
    StandaloneTableAgrees();
    if r.serial.NoSerial? then Reader.Exchange(false, None)
    else if rate !in StandaloneCodes then Reader.Exchange(false, None)
    else if !IsOpen(r) then Reader.Exchange(false, None)
    else
      var ok := match reply
        case IoError => false
        case Answer(bytes) => EchoReplyAccepted(Received(bytes, 10));
      Reader.Exchange(ok, Some(ChangeBaudCommand(StandaloneCodes[rate])))
  }

  /** On the five candidates the two readers agree: True exactly where the
      models reader returns True, with the same request. At 2400 and 4800 on
      an open port the models reader sends its request, while the standalone
      one returns False without sending. */
  lemma ChangeBaudrateAgrees(r: Standalone, rate: int, reply: Reply)
    ensures var x := Reader.ChangeBaudrate(Reader.GaugeReader(r.port, r.baudrate, r.serial), rate, reply);
            rate in Candidates ==>
              ChangeBaudrate(r, rate, reply).result == (x.result == Ok(true))
              && ChangeBaudrate(r, rate, reply).sent == x.sent
    ensures var x := Reader.ChangeBaudrate(Reader.GaugeReader(r.port, r.baudrate, r.serial), rate, reply);
            IsOpen(r) && (rate == 2400 || rate == 4800) ==>
              x.sent.Some? && ChangeBaudrate(r, rate, reply) == Reader.Exchange(false, None)
  {
    StandaloneTableAgrees();
  }

  /** Detection's acceptance test on a reply of up to 20 bytes. */
  predicate ProbeAccepted(attempt: Attempt) {
    attempt.Opens? && attempt.reply.Answer? && ProbeReplyAccepted(Received(attempt.reply.bytes, 20))
  }

  /** Reading up to 20 bytes instead of 9 accepts the same replies. */
  lemma ProbeAcceptedAgrees(attempt: Attempt)
    ensures ProbeAccepted(attempt) <==> Reader.Answers(attempt)
  {
    if attempt.Opens? && attempt.reply.Answer? {
      var bytes := attempt.reply.bytes;
      if |bytes| >= 9 {
        assert Received(bytes, 20)[..2] == bytes[..2] == Received(bytes, 9)[..2];
        assert Received(bytes, 20)[0] == bytes[0] == Received(bytes, 9)[0];
        assert Received(bytes, 20)[1] == bytes[1] == Received(bytes, 9)[1];
      }
    }
  }

  /** The scan from the `i`-th candidate on, the existing port already closed. */
  function DetectFrom(r: Standalone, device: int -> Attempt, i: nat): (res: (Standalone, bool))
    requires i <= |Candidates|
    ensures res.1 ==> IsOpen(res.0) && res.0.port == r.port
                      && res.0.baudrate in Candidates[i..] && ProbeAccepted(device(res.0.baudrate))
    ensures !res.1 ==> res.0 == r
    ensures res.1 <==> Reader.DetectFrom(device, i).rate.Some?
    ensures res.1 ==> res.0.baudrate == Reader.DetectFrom(device, i).rate.value
    decreases |Candidates| - i
  {
    if i == |Candidates| then (r, false)
    else
      var rate := Candidates[i];
      ProbeAcceptedAgrees(device(rate));
      if ProbeAccepted(device(rate)) then (r.(baudrate := rate, serial := Reader.SerialPort(true)), true)
      else DetectFrom(r, device, i + 1)
  }

  /** `auto_detect_baudrate`: closes the current port, then tries the five
      candidates in ascending order. On the first reply of at least 9 bytes
      starting 01 04 it adopts that rate and the open port and returns True;
      otherwise it returns False with the old port closed. It settles on
      exactly the rate the models reader's detection reports. */
  function AutoDetectBaudrate(r: Standalone, device: int -> Attempt): (res: (Standalone, bool))
    ensures res.0.port == r.port
    ensures res.1 <==> Reader.AutoDetectBaudrate(device).rate.Some?
    ensures res.1 ==> IsOpen(res.0) && res.0.baudrate == Reader.AutoDetectBaudrate(device).rate.value
    ensures !res.1 ==> res.0 == Disconnect(r)
  {
    DetectFrom(Disconnect(r), device, 0)
  }
}
