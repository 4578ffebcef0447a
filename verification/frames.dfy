/** The frame codec: the three fixed request frames the reader sends (function
    0x04 Read Input Registers and function 0x06 Write Single Register, sections
    6.4 and 6.6 of the Modbus Application Protocol Specification V1.1b3), each
    closed by its CRC-16 low byte then high byte, and the acceptance rules the
    reader applies to replies. Replies are accepted on length and header bytes
    alone: their CRC is never checked. */
module Frames {
  import opened Bytes
  import opened Crc
  import opened Wrappers

  const SlaveId: Byte := 0x01
  const ReadInputRegisters: Byte := 0x04
  const WriteSingleRegister: Byte := 0x06

  /** The closed set of requests the reader ever sends. */
  datatype Command =
    | ReadCommand                    // read 2 input registers from 0x0037
    | ZeroCommand                    // write 1 to register 0x0036
    | ChangeBaudCommand(code: Word)  // write a rate code to register 0x0031

  /** The 6-byte PDU header: address, function, register, value or count. */
  function Header(c: Command): (h: seq<Byte>)
    ensures |h| == 6 && h[0] == SlaveId
    ensures h[1] == if c.ReadCommand? then ReadInputRegisters else WriteSingleRegister
    ensures Field(h, 2) == match c
                           case ReadCommand => 0x37
                           case ZeroCommand => 0x36
                           case ChangeBaudCommand(_) => 0x31
    ensures Field(h, 4) == match c
                           case ReadCommand => 2
                           case ZeroCommand => 1
                           case ChangeBaudCommand(code) => code
  {
    match c
    case ReadCommand => [0x01, 0x04, 0x00, 0x37, 0x00, 0x02]
    case ZeroCommand => [0x01, 0x06, 0x00, 0x36, 0x00, 0x01]
    case ChangeBaudCommand(code) => [0x01, 0x06, 0x00, 0x31, code / 0x100 % 0x100, code % 0x100]
  }

  /** The big-endian 16-bit field at byte `i`. */
  function Field(h: seq<Byte>, i: nat): int
    requires i + 1 < |h|
  {
    h[i] as int * 0x100 + h[i + 1]
  }

  /** A frame whose last two bytes hold the CRC-16 of everything before them,
      low byte first. */
  predicate CrcIntact(f: seq<Byte>) {
    |f| >= 2 && f[|f| - 2] as int + 0x100 * (f[|f| - 1] as int) == Crc16(f[..|f| - 2])
  }

  /** `cmd.extend([crc & 0xFF, (crc >> 8) & 0xFF])`. */
  function AppendCrc(header: seq<Byte>): (f: seq<Byte>)
    ensures |f| == |header| + 2
    ensures f[..|header|] == header
    ensures CrcIntact(f)
  {
    var crc := Crc16(header);
    var f := header + [crc % 0x100, crc / 0x100 % 0x100];
    assert f[..|header|] == header;
    f
  }

  /** The 8-byte frame put on the wire for a command. */
  function Encode(c: Command): (f: seq<Byte>)
    ensures |f| == 8
    ensures f[..6] == Header(c)
    ensures CrcIntact(f)
  {
    AppendCrc(Header(c))
  }

  /** The device-side reading of a request frame: the command it carries, if
      it is 8 bytes with an intact CRC and one of the three known headers. */
  function ParseCommand(f: seq<Byte>): Option<Command> {
    if |f| != 8 || !CrcIntact(f) then None else ParseHeader(f[..6])
  }

  /** The command a six-byte header announces, if it is one of the three. */
  function ParseHeader(h: seq<Byte>): Option<Command>
    requires |h| == 6
  {
    if h == Header(ReadCommand) then Some(ReadCommand)
    else if h == Header(ZeroCommand) then Some(ZeroCommand)
    else if h[..4] == [0x01, 0x06, 0x00, 0x31] then Some(ChangeBaudCommand(Field(h, 4)))
    else None
  }

  /** Encoding loses nothing: every command is read back from its frame. */
  lemma ParseEncode(c: Command)
    ensures ParseCommand(Encode(c)) == Some(c)
  {
    ParseHeaderOfHeader(c);
  }

  /** Every command's header is recognised as that command. */
  lemma ParseHeaderOfHeader(c: Command)
    ensures ParseHeader(Header(c)) == Some(c)
  {
    match c
    case ReadCommand =>
    case ZeroCommand =>
    case ChangeBaudCommand(code) =>
      var h := Header(c);
      assert h[..4] == [0x01, 0x06, 0x00, 0x31];
  }

  /** Two bytes fix a 16-bit value: low byte first, high byte second. */
  lemma LowHighUnique(lo: Byte, hi: Byte, lo': Byte, hi': Byte)
    requires lo as int + 0x100 * (hi as int) == lo' as int + 0x100 * (hi' as int)
    ensures lo == lo' && hi == hi'
  {
  }

  /** Frames are canonical: a frame that parses is exactly the encoding of the
      command it parses to, CRC bytes included. */
  lemma EncodeParse(f: seq<Byte>)
    ensures ParseCommand(f).Some? ==> Encode(ParseCommand(f).value) == f
  {
    if ParseCommand(f).Some? {
      var c := ParseCommand(f).value;
      HeaderOfParsedHeader(f[..6], c);
      SameHeaderSameFrame(Encode(c), f);
    }
  }

  /** A header that parses is exactly its command's header. */
  lemma HeaderOfParsedHeader(h: seq<Byte>, c: Command)
    requires |h| == 6 && ParseHeader(h) == Some(c)
    ensures h == Header(c)
  {
    if c.ChangeBaudCommand? {
      assert h[..4] == [0x01, 0x06, 0x00, 0x31];
      assert h[0] == 1 && h[1] == 6 && h[2] == 0 && h[3] == 0x31;
    }
  }

  /** The CRC bytes of a request frame are fixed by the six bytes before
      them. */
  lemma SameHeaderSameFrame(e: seq<Byte>, f: seq<Byte>)
    ensures |e| == 8 && |f| == 8 && CrcIntact(e) && CrcIntact(f) && e[..6] == f[..6] ==> e == f
  {
    if |e| == 8 && |f| == 8 && CrcIntact(e) && CrcIntact(f) && e[..6] == f[..6] {
      LowHighUnique(e[6], e[7], f[6], f[7]);
      assert e == e[..6] + [e[6], e[7]];
      assert f == f[..6] + [f[6], f[7]];
    }
  }

  /** A read reply as the reader accepts it: at least 9 bytes starting
      01 04 04 (address, function, byte count). */
  predicate ReadReplyAccepted(resp: seq<Byte>) {
    |resp| >= 9 && resp[0] == SlaveId && resp[1] == ReadInputRegisters && resp[2] == 4
  }

  /** A probe reply as connection testing and detection accept it: at least
      9 bytes starting 01 04; the byte count is not looked at. */
  predicate ProbeReplyAccepted(resp: seq<Byte>) {
    |resp| >= 9 && resp[0] == SlaveId && resp[1] == ReadInputRegisters
  }

  /** A write reply (the device echoes the request): at least 8 bytes. */
  predicate EchoReplyAccepted(resp: seq<Byte>) {
    |resp| >= 8
  }

  /** The raw register value of an accepted read reply: bytes 3..6 as a
      big-endian signed 32-bit integer; bytes 7 and 8 are ignored. */
  function DecodeReading(resp: seq<Byte>): (r: Option<int>)
    ensures r.Some? <==> ReadReplyAccepted(resp)
    ensures r.Some? ==> IsInt32(r.value) && Int32ToBE(r.value) == resp[3..7]
  {
    if ReadReplyAccepted(resp) then
      BytesRoundTrip(resp[3..7]);
      Some(Int32BE(resp[3..7]))
    else None
  }

  /** The reply a well-behaved device sends for a register value `raw`. */
  function ReadReply(raw: int): (f: seq<Byte>)
    requires IsInt32(raw)
    ensures |f| == 9 && CrcIntact(f)
  {
    AppendCrc([SlaveId, ReadInputRegisters, 4] + Int32ToBE(raw))
  }

  /** Reading round trip: the value a device encodes is the value decoded. */
  lemma DecodeReadReply(raw: int)
    requires IsInt32(raw)
    ensures ReadReplyAccepted(ReadReply(raw))
    ensures ReadReply(raw)[3..7] == Int32ToBE(raw)
    ensures DecodeReading(ReadReply(raw)) == Some(raw)
  {
    var f := ReadReply(raw);
    var body := [SlaveId, ReadInputRegisters, 4] + Int32ToBE(raw);
    assert f[..7] == body;
    assert f[3..7] == body[3..7] == Int32ToBE(raw);
    Int32RoundTrip(raw);
  }

  /** The CRC of a read reply is never consulted: replies that agree on their
      first 7 bytes decode alike, whatever follows. */
  lemma DecodeIgnoresCrc(resp: seq<Byte>, resp': seq<Byte>)
    requires |resp| >= 9 && |resp'| >= 9
    requires resp[..7] == resp'[..7]
    ensures DecodeReading(resp) == DecodeReading(resp')
  {
    assert resp[3..7] == resp[..7][3..7];
    assert resp'[3..7] == resp'[..7][3..7];
    assert resp[0] == resp[..7][0] && resp'[0] == resp'[..7][0];
    assert resp[1] == resp[..7][1] && resp'[1] == resp'[..7][1];
    assert resp[2] == resp[..7][2] && resp'[2] == resp'[..7][2];
  }

  /** Consequently a reply with a corrupted CRC is still decoded. */
  lemma CorruptCrcStillDecoded(raw: int)
    requires IsInt32(raw)
    ensures var f := ReadReply(raw);
            !CrcIntact(f[8 := (f[8] as int + 1) % 0x100])
            && DecodeReading(f[8 := (f[8] as int + 1) % 0x100]) == Some(raw)
  {
    var f := ReadReply(raw);
    var g := f[8 := (f[8] as int + 1) % 0x100];
    assert g[..7] == f[..7];
    assert g[..|g| - 2] == f[..|f| - 2];
    DecodeIgnoresCrc(f, g);
    DecodeReadReply(raw);
  }

  /** Every reply the reader accepts as a reading also passes the probe test. */
  lemma ReadAcceptedIsProbeAccepted(resp: seq<Byte>)
    requires ReadReplyAccepted(resp)
    ensures ProbeReplyAccepted(resp) && EchoReplyAccepted(resp)
  {
  }

  /** The measurement in millimetres: the raw value divided by 1000. */
  function Millimetres(raw: int): (mm: real)
    ensures mm * 1000.0 == raw as real
  {
    raw as real / 1000.0
  }

  lemma MillimetresExamples()
    ensures Millimetres(12345) == 12.345
    ensures Millimetres(-12345) == -12.345
  {
  }
}
