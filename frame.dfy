/**
 * Wire frames of the wattmeter protocol: the header byte 0xAA, the payload
 * length as two big-endian bytes, the payload, and the CRC-8 of the payload
 * as a one-byte trailer.  `Cmd` is the encoder of `BTWATTCH2.cmd`;
 * `ParseFrame` is its inverse, which the source itself never needs for the
 * commands it sends but which states what a frame means.
 */
module Frame {
  import opened Common
  import opened Checksum

  /** `CMD_HEADER`. */
  const Header: byte := 0xAA

  /** `int.to_bytes(2, 'big')` raises `OverflowError` from this length on. */
  const LengthLimit: nat := 0x1_0000

  /** Header, two length bytes and the trailer. */
  const Overhead: nat := 4

  /** Where the payload starts in a frame. */
  const PayloadStart: nat := 3

  /** `CMD_REALTIME_MONITORING`. */
  const RealtimeMonitoring: seq<byte> := [0x08]

  /** `CMD_TURN_ON`. */
  const TurnOn: seq<byte> := [0xA7, 0x01]

  /** `CMD_TURN_OFF`. */
  const TurnOff: seq<byte> := [0xA7, 0x00]

  /** The number two big-endian bytes denote. */
  function ReadBigEndian16(hi: byte, lo: byte): nat
  {
    hi as nat * 256 + lo as nat
  }

  /** `n.to_bytes(2, 'big')`. */
  function BigEndian16(n: nat): (r: Result<seq<byte>>)
    ensures r.Ok? <==> n < LengthLimit
    ensures r.Err? ==> r.error == OverflowError
    ensures r.Ok? ==> |r.value| == 2 && ReadBigEndian16(r.value[0], r.value[1]) == n
  {
    if n < LengthLimit then Ok([n / 256, n % 256]) else Err(OverflowError)
  }

  /** The layout of a frame carrying `payload`. */
  predicate IsFrameOf(f: seq<byte>, payload: seq<byte>)
  {
    && |f| == |payload| + Overhead
    && f[0] == Header
    && ReadBigEndian16(f[1], f[2]) == |payload|
    && f[PayloadStart..PayloadStart + |payload|] == payload
    && f[|f| - 1] == Crc8(payload)
  }

  /**
   * `BTWATTCH2.cmd`: header, big-endian length, payload, checksum.  Only a
   * payload too long for a two-byte length is refused.
   */
  function Cmd(payload: seq<byte>): (r: Result<seq<byte>>)
    ensures r.Ok? <==> |payload| < LengthLimit
    ensures r.Err? ==> r.error == OverflowError
    ensures r.Ok? ==> IsFrameOf(r.value, payload)
  {
    match BigEndian16(|payload|)
    case Err(e) => Err(e)
    case Ok(length) => Ok([Header] + length + payload + [Crc8(payload)])
  }

  /**
   * The payload of a well-formed frame: the header is 0xAA, the declared
   * length matches what follows, and the checksum over payload and trailer
   * vanishes.
   */
  function ParseFrame(f: seq<byte>): Option<seq<byte>>
  {
    if |f| < Overhead || f[0] != Header then None
    else if ReadBigEndian16(f[1], f[2]) != |f| - Overhead then None
    else if Crc8(f[PayloadStart..]) != 0 then None
    else Some(f[PayloadStart..|f| - 1])
  }

  /** Payload and trailer of an encoded frame have checksum zero. */
  lemma FrameChecksumVanishes(payload: seq<byte>)
    requires |payload| < LengthLimit
    ensures Crc8(Cmd(payload).value[PayloadStart..]) == 0
  {
    var f := Cmd(payload).value;
    assert f[PayloadStart..] == payload + [Crc8(payload)];
    SelfCheck(payload);
  }

  /** Every encodable payload is read back from its frame. */
  lemma ParseCmd(payload: seq<byte>)
    requires |payload| < LengthLimit
    ensures ParseFrame(Cmd(payload).value) == Some(payload)
  {
    var f := Cmd(payload).value;
    FrameChecksumVanishes(payload);
    assert f[PayloadStart..|f| - 1] == payload;
  }

  /** Two bytes read big-endian and written back are the same two bytes. */
  lemma BigEndian16OfRead(hi: byte, lo: byte)
    ensures BigEndian16(ReadBigEndian16(hi, lo)) == Ok([hi, lo])
  {
    var n := ReadBigEndian16(hi, lo);
    assert n / 256 == hi && n % 256 == lo;
  }

  /** A frame is its three leading bytes, its payload and its trailer. */
  lemma FrameSplit(f: seq<byte>)
    requires |f| >= Overhead
    ensures f == [f[0], f[1], f[2]] + f[PayloadStart..|f| - 1] + [f[|f| - 1]]
    ensures f[PayloadStart..] == f[PayloadStart..|f| - 1] + [f[|f| - 1]]
  {
  }

  /** Conversely every frame that parses is the encoding of what it carries. */
  lemma CmdParse(f: seq<byte>, payload: seq<byte>)
    requires ParseFrame(f) == Some(payload)
    ensures Cmd(payload) == Ok(f)
  {
    var t := f[|f| - 1];
    FrameSplit(f);
    assert Crc8(payload + [t]) == 0;
    TrailerIsUnique(payload, t);
    BigEndian16OfRead(f[1], f[2]);
    assert [Header] + [f[1], f[2]] == [f[0], f[1], f[2]];
  }

  /** The frame `measure` sends. */
  lemma MeasureFrame()
    ensures Cmd(RealtimeMonitoring) == Ok([0xAA, 0x00, 0x01, 0x08, 0xB3])
  {
    Crc8OfMeasurementRequest();
    BigEndian16OfRead(0, 1);
    assert [Header] + [0, 1] + RealtimeMonitoring + [0xB3] == [0xAA, 0x00, 0x01, 0x08, 0xB3];
  }
}
