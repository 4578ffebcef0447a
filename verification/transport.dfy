/** The serial port as seen by the reader: an oracle that says, for one
    write-then-read exchange, which bytes the device put on the line or that
    pyserial raised. Real port I/O, buffers and timeouts are not modelled. */
module Transport {
  import opened Bytes

  /** What one exchange yields: the bytes available to read, or an exception. */
  datatype Reply = Answer(bytes: seq<Byte>) | IoError

  /** What happens when auto-detection opens the port at one rate: the open
      raises, or it succeeds and the probe exchange yields `reply`. */
  datatype Attempt = OpenFails | Opens(reply: Reply)

  /** `serial.read(limit)`: at most `limit` of the available bytes, in order. */
  function Received(available: seq<Byte>, limit: nat): (r: seq<Byte>)
    ensures r <= available
    ensures |r| == if |available| < limit then |available| else limit
  {
    if |available| < limit then available else available[..limit]
  }
}
