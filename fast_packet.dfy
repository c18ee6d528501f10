/**
 * The Fast Interface packet: build_fast_packet, the encoder copied into each of
 * the four sender scripts, together with a decoder for this layout: the 12-byte
 * header, then 6-byte strides. The decoder's checks are this model's own.
 *
 * Wire format, big-endian throughout, no padding:
 *   offset 0   2 bytes  protocol id 0x7631
 *   offset 2   2 bytes  command
 *   offset 4   8 bytes  nonce (time_ns masked to 64 bits)
 *   offset 12  6 bytes per device: 2-byte fast address, 4-byte float32 setpoint
 */
module FastPacket {
  import opened Wrappers
  import opened Bytes
  import opened Float32

  const ProtocolId: nat := 0x7631
  const DefaultCommand: int := 0x0000
  const HeaderSize: nat := 12
  const RecordSize: nat := 6
  const NonceModulus: nat := 0x1_0000_0000_0000_0000
  /** The largest UDP payload over IPv4, and the number of records that fit in it. */
  const MaxUdpPayload: nat := 65507
  const MaxRecords: nat := 10915

  /** One (fast_address, setpoint) tuple; the setpoint is already its binary32 pattern. */
  datatype Device = Device(address: int, setpoint: Float32Bits)

  /** struct.error raised by struct.pack('>H', value) for a value outside 0..65535. */
  datatype PackError = UShortOutOfRange(value: int)

  /** The fields a packet of this layout carries. */
  datatype Packet = Packet(command: int, nonce: nat, devices: seq<Device>)

  predicate IsUShort(x: int) { 0 <= x < 0x1_0000 }

  predicate AddressesFit(ds: seq<Device>)
  {
    forall i | 0 <= i < |ds| :: IsUShort(ds[i].address)
  }

  /** int(time.time_ns()) & 0xFFFFFFFFFFFFFFFF: the clock reading reduced to 64 bits. */
  function Nonce(timeNs: int): (n: nat)
    ensures n < NonceModulus
    ensures (timeNs - n) % NonceModulus == 0
    ensures 0 <= timeNs < NonceModulus ==> n == timeNs
  {
    timeNs % NonceModulus
  }

  /** struct.pack('>H', x): two big-endian bytes, or struct.error when x does not fit. */
  function PackUShort(x: int): (r: Result<seq<byte>, PackError>)
    ensures r.Success? <==> IsUShort(x)
    ensures r.Success? ==> |r.value| == 2 && FromBigEndian(r.value) == x
    ensures r.Failure? ==> r.error == UShortOutOfRange(x)
  {
    Pow256Constants();
    if IsUShort(x) then
      FromBigEndianInverse(x, 2);
      Success(BigEndian(x, 2))
    else
      Failure(UShortOutOfRange(x))
  }

  /** float_to_ieee754_bytes: the setpoint's 32-bit pattern, most significant byte first. */
  function SetpointBytes(b: Float32Bits): (r: seq<byte>)
    ensures |r| == 4 && FromBigEndian(r) == b
  {
    Pow256Constants();
    FromBigEndianInverse(b, 4);
    BigEndian(b, 4)
  }

  /** The 6-byte record of one device. */
  function Record(d: Device): seq<byte>
    requires IsUShort(d.address)
  {
    Pow256Constants();
    BigEndian(d.address, 2) + SetpointBytes(d.setpoint)
  }

  /** A record byte by byte: address high and low, then the setpoint pattern from its top byte down. */
  lemma RecordBytes(d: Device)
    requires IsUShort(d.address)
    ensures Record(d) == [d.address / 256, d.address % 256,
      d.setpoint / 0x100_0000, d.setpoint / 0x1_0000 % 256, d.setpoint / 256 % 256, d.setpoint % 256]
  {
    TwoBytes(d.address);
    FourBytes(d.setpoint);
  }

  /** The records of all devices, in list order. */
  function Records(ds: seq<Device>): (r: seq<byte>)
    requires AddressesFit(ds)
    ensures |r| == RecordSize * |ds|
  {
    if ds == [] then [] else Record(ds[0]) + Records(ds[1..])
  }

  /** Protocol id, command, nonce. */
  function Header(command: int, nonce: nat): seq<byte>
    requires IsUShort(command) && nonce < NonceModulus
  {
    Pow256Constants();
    BigEndian(ProtocolId, 2) + BigEndian(command, 2) + BigEndian(nonce, 8)
  }

  /** The index of the first device whose address struct.pack('>H') rejects, or |ds|. */
  function FirstBadAddress(ds: seq<Device>): (k: nat)
    ensures k <= |ds|
    ensures AddressesFit(ds[..k])
    ensures k < |ds| ==> !IsUShort(ds[k].address)
  {
    if ds == [] || !IsUShort(ds[0].address) then 0
    else
      var k := 1 + FirstBadAddress(ds[1..]);
      assert ds[..k] == [ds[0]] + ds[1..][..k - 1];
      k
  }

  /**
   * What build_fast_packet returns (or raises) for a command, a nonce and a device
   * list: the command is packed first, then each address in order, so the error
   * names the command if it is out of range and otherwise the first bad address.
   * The device list may be empty; no upper bound on its length is imposed.
   */
  function EncodePacket(command: int, nonce: nat, ds: seq<Device>): Result<seq<byte>, PackError>
    requires nonce < NonceModulus
  {
    if !IsUShort(command) then Failure(UShortOutOfRange(command))
    else
      var k := FirstBadAddress(ds);
      if k < |ds| then Failure(UShortOutOfRange(ds[k].address))
      else
        assert ds[..k] == ds;
        Success(Header(command, nonce) + Records(ds))
  }

  lemma {:induction false} RecordsAppend(ds: seq<Device>, d: Device)
    requires AddressesFit(ds) && IsUShort(d.address)
    ensures AddressesFit(ds + [d])
    ensures Records(ds + [d]) == Records(ds) + Record(d)
  {
    if ds != [] {
      assert (ds + [d])[1..] == ds[1..] + [d];
      RecordsAppend(ds[1..], d);
    }
  }

  /** The three header fields, packed one after the other, form the header. */
  lemma HeaderStep(command: int, nonce: nat, commandBytes: seq<byte>)
    requires nonce < NonceModulus
    requires PackUShort(command) == Success(commandBytes)
    ensures BigEndian(ProtocolId, 2) + commandBytes + BigEndian(nonce, 8) == Header(command, nonce)
  {
    Pow256Constants();
  }

  /** Packing device i after devices[..i] extends the records by that device's record. */
  lemma RecordStep(devices: seq<Device>, i: nat, addressBytes: seq<byte>)
    requires i < |devices| && AddressesFit(devices[..i])
    requires PackUShort(devices[i].address) == Success(addressBytes)
    ensures AddressesFit(devices[..i + 1])
    ensures Records(devices[..i + 1]) == Records(devices[..i]) + addressBytes + SetpointBytes(devices[i].setpoint)
  {
    RecordsAppend(devices[..i], devices[i]);
    assert devices[..i + 1] == devices[..i] + [devices[i]];
  }

  /**
   * build_fast_packet: appends the header fields to a byte buffer, then one
   * record per device, stopping with the error struct.pack raises.
   */
  method BuildFastPacket(devices: seq<Device>, timeNs: int, command: int := DefaultCommand)
    returns (result: Result<seq<byte>, PackError>)
    ensures result == EncodePacket(command, Nonce(timeNs), devices)
  {
    var nonce := Nonce(timeNs);
    Pow256Constants();
    var packet: seq<byte> := [];
    packet := packet + BigEndian(ProtocolId, 2);
    var commandBytes := PackUShort(command);
    if commandBytes.Failure? {
      return Failure(commandBytes.error);
    }
    packet := packet + commandBytes.value;
    packet := packet + BigEndian(nonce, 8);
    HeaderStep(command, nonce, commandBytes.value);
    var i := 0;
    while i < |devices|
      invariant 0 <= i <= |devices|
      invariant AddressesFit(devices[..i])
      invariant packet == Header(command, nonce) + Records(devices[..i])
    {
      var addressBytes := PackUShort(devices[i].address);
      if addressBytes.Failure? {
        assert FirstBadAddress(devices) == i;
        return Failure(addressBytes.error);
      }
      packet := packet + addressBytes.value;
      packet := packet + SetpointBytes(devices[i].setpoint);
      RecordStep(devices, i, addressBytes.value);
      i := i + 1;
    }
    assert devices[..i] == devices;
    return Success(packet);
  }

  /* ---------- Decoding: the header, then 6-byte strides ---------- */

  /** Reads 6-byte strides back into (address, setpoint pattern) pairs. */
  function DecodeRecords(b: seq<byte>): (ds: seq<Device>)
    requires |b| % RecordSize == 0
    ensures |ds| == |b| / RecordSize
    ensures AddressesFit(ds)
  {
    if b == [] then []
    else
      Pow256Constants();
      var rest := DecodeRecords(b[6..]);
      [Device(FromBigEndian(b[..2]), FromBigEndian(b[2..6]))] + rest
  }

  /** A packet's fields, or None when the length or the protocol id is wrong. */
  function DecodePacket(b: seq<byte>): (r: Option<Packet>)
    ensures r.Some? ==> |b| == HeaderSize + RecordSize * |r.value.devices|
  {
    if |b| < HeaderSize || (|b| - HeaderSize) % RecordSize != 0 || FromBigEndian(b[..2]) != ProtocolId then None
    else
      Pow256Constants();
      Some(Packet(FromBigEndian(b[2..4]), FromBigEndian(b[4..12]), DecodeRecords(b[12..])))
  }

  /* ---------- Properties of the encoding ---------- */

  /** build_fast_packet fails exactly when the command or some address is outside 0..65535. */
  lemma EncodeSucceedsIff(command: int, nonce: nat, ds: seq<Device>)
    requires nonce < NonceModulus
    ensures EncodePacket(command, nonce, ds).Success? <==> IsUShort(command) && AddressesFit(ds)
  {
    var k := FirstBadAddress(ds);
    if k < |ds| {
      assert !IsUShort(ds[k].address);
    } else {
      assert ds[..k] == ds;
    }
  }

  /** The error names the command if it is bad, and otherwise the first bad address. */
  lemma EncodeError(command: int, nonce: nat, ds: seq<Device>)
    requires nonce < NonceModulus
    requires EncodePacket(command, nonce, ds).Failure?
    ensures !IsUShort(command) ==> EncodePacket(command, nonce, ds).error == UShortOutOfRange(command)
    ensures IsUShort(command) ==>
      exists k | 0 <= k < |ds| ::
        AddressesFit(ds[..k]) && !IsUShort(ds[k].address)
        && EncodePacket(command, nonce, ds).error == UShortOutOfRange(ds[k].address)
  {
    if IsUShort(command) {
      var k := FirstBadAddress(ds);
      assert AddressesFit(ds[..k]) && !IsUShort(ds[k].address);
    }
  }

  /** The record of device i occupies bytes [6i, 6i + 6) of the record area. */
  lemma {:induction false} RecordAt(ds: seq<Device>, i: nat)
    requires AddressesFit(ds) && i < |ds|
    ensures Records(ds)[RecordSize * i..RecordSize * i + 6] == Record(ds[i])
  {
    if i > 0 {
      RecordAt(ds[1..], i - 1);
      assert Records(ds) == Record(ds[0]) + Records(ds[1..]);
    }
  }

  /**
   * The layout of a successfully built packet: its length, the protocol id
   * 0x76 0x31, the command and the nonce in big-endian, then the records.
   */
  lemma PacketLayout(command: int, nonce: nat, ds: seq<Device>)
    requires nonce < NonceModulus
    requires EncodePacket(command, nonce, ds).Success?
    ensures var b := EncodePacket(command, nonce, ds).value;
      && |b| == HeaderSize + RecordSize * |ds|
      && b[0] == 0x76 && b[1] == 0x31
      && b[2] == command / 256 && b[3] == command % 256
      && FromBigEndian(b[2..4]) == command
      && FromBigEndian(b[4..12]) == nonce
      && b[4..12] == BigEndian(nonce, 8)
  {
    PacketSplit(command, nonce, ds);
    Pow256Constants();
    TwoBytes(ProtocolId);
    TwoBytes(command);
    FromBigEndianInverse(command, 2);
    FromBigEndianInverse(nonce, 8);
  }

  /** The three header fields of a packet: protocol id, command, nonce. */
  lemma HeaderFields(command: int, nonce: nat)
    requires IsUShort(command) && nonce < NonceModulus
    ensures |Header(command, nonce)| == HeaderSize
    ensures Header(command, nonce)[..2] == BigEndian(ProtocolId, 2)
    ensures Header(command, nonce)[2..4] == BigEndian(command, 2)
    ensures Header(command, nonce)[4..12] == BigEndian(nonce, 8)
  {
    Pow256Constants();
  }

  /**
   * A packet is its header followed by its records, and its first twelve
   * bytes hold the three header fields.
   */
  lemma PacketSplit(command: int, nonce: nat, ds: seq<Device>)
    requires nonce < NonceModulus
    requires EncodePacket(command, nonce, ds).Success?
    ensures IsUShort(command) && AddressesFit(ds)
    ensures var b := EncodePacket(command, nonce, ds).value;
      && |b| == HeaderSize + RecordSize * |ds|
      && b[..HeaderSize] == Header(command, nonce)
      && b[HeaderSize..] == Records(ds)
      && b[..2] == BigEndian(ProtocolId, 2)
      && b[2..4] == BigEndian(command, 2)
      && b[4..12] == BigEndian(nonce, 8)
  {
    EncodeSucceedsIff(command, nonce, ds);
    HeaderFields(command, nonce);
    var h := Header(command, nonce);
    var b := h + Records(ds);
    assert b[..HeaderSize] == h;
    assert b[..2] == h[..2];
    assert b[2..4] == h[2..4];
    assert b[4..12] == h[4..12];
  }

  /** With the default command, bytes 2 and 3 are both zero. */
  lemma DefaultCommandBytes(nonce: nat, ds: seq<Device>)
    requires nonce < NonceModulus
    requires EncodePacket(DefaultCommand, nonce, ds).Success?
    ensures EncodePacket(DefaultCommand, nonce, ds).value[2..4] == [0x00, 0x00]
  {
    PacketLayout(DefaultCommand, nonce, ds);
  }

  /**
   * Device i, in input order, has its big-endian address at offset 12 + 6i and
   * its big-endian float32 pattern at offset 14 + 6i.
   */
  lemma DeviceAt(command: int, nonce: nat, ds: seq<Device>, i: nat)
    requires nonce < NonceModulus
    requires EncodePacket(command, nonce, ds).Success?
    requires i < |ds|
    ensures var b := EncodePacket(command, nonce, ds).value;
      && b[HeaderSize + RecordSize * i..HeaderSize + RecordSize * i + 2] == BigEndian(ds[i].address, 2)
      && FromBigEndian(b[HeaderSize + RecordSize * i..HeaderSize + RecordSize * i + 2]) == ds[i].address
      && b[HeaderSize + RecordSize * i + 2..HeaderSize + RecordSize * i + 6] == SetpointBytes(ds[i].setpoint)
      && FromBigEndian(b[HeaderSize + RecordSize * i + 2..HeaderSize + RecordSize * i + 6]) == ds[i].setpoint
  {
    var b := EncodePacket(command, nonce, ds).value;
    var o := HeaderSize + RecordSize * i;
    RecordInPacket(command, nonce, ds, i);
    RecordFields(ds[i]);
    SliceOfSlice(b, o, RecordSize, 0, 2);
    SliceOfSlice(b, o, RecordSize, 2, RecordSize);
    Pow256Constants();
    FromBigEndianInverse(ds[i].address, 2);
  }

  /** Record i occupies bytes 12 + 6i up to 18 + 6i of the packet. */
  lemma RecordInPacket(command: int, nonce: nat, ds: seq<Device>, i: nat)
    requires nonce < NonceModulus
    requires EncodePacket(command, nonce, ds).Success?
    requires i < |ds|
    ensures AddressesFit(ds)
    ensures var b := EncodePacket(command, nonce, ds).value;
      b[HeaderSize + RecordSize * i..HeaderSize + RecordSize * i + RecordSize] == Record(ds[i])
  {
    EncodeSucceedsIff(command, nonce, ds);
    Pow256Constants();
    var h := Header(command, nonce);
    assert EncodePacket(command, nonce, ds).value == h + Records(ds) && |h| == HeaderSize;
    RecordAt(ds, i);
    SliceOfConcat(h, Records(ds), RecordSize * i, RecordSize * i + RecordSize);
  }

  /** The address bytes come first in a record, the setpoint bytes after them. */
  lemma RecordFields(d: Device)
    requires IsUShort(d.address)
    ensures |Record(d)| == RecordSize
    ensures Record(d)[0..2] == BigEndian(d.address, 2)
    ensures Record(d)[2..RecordSize] == SetpointBytes(d.setpoint)
  {
    Pow256Constants();
    var a := BigEndian(d.address, 2);
    assert Record(d) == a + SetpointBytes(d.setpoint);
    assert (a + SetpointBytes(d.setpoint))[0..2] == a;
  }

  /** An empty device list is accepted and yields the bare 12-byte header. */
  lemma EmptyDeviceList(command: int, nonce: nat)
    requires nonce < NonceModulus && IsUShort(command)
    ensures EncodePacket(command, nonce, []).Success?
    ensures EncodePacket(command, nonce, []).value == Header(command, nonce)
    ensures |EncodePacket(command, nonce, []).value| == HeaderSize
  {
    Pow256Constants();
  }

  /** A packet fits one UDP datagram exactly when it holds at most 10915 records. */
  lemma FitsUdpPayload(command: int, nonce: nat, ds: seq<Device>)
    requires nonce < NonceModulus
    requires EncodePacket(command, nonce, ds).Success?
    ensures |EncodePacket(command, nonce, ds).value| <= MaxUdpPayload <==> |ds| <= MaxRecords
  {
    PacketLayout(command, nonce, ds);
  }

  lemma {:induction false} DecodeRecordsOfRecords(ds: seq<Device>)
    requires AddressesFit(ds)
    ensures DecodeRecords(Records(ds)) == ds
  {
    if ds != [] {
      Pow256Constants();
      var r := Records(ds);
      var d := ds[0];
      assert r[..2] == BigEndian(d.address, 2) by {
        assert r[..6] == Record(d);
      }
      assert r[2..6] == SetpointBytes(d.setpoint) by {
        assert r[..6] == Record(d);
      }
      assert r[6..] == Records(ds[1..]);
      FromBigEndianInverse(d.address, 2);
      DecodeRecordsOfRecords(ds[1..]);
    }
  }

  lemma {:induction false} RecordsOfDecodeRecords(b: seq<byte>)
    requires |b| % RecordSize == 0
    ensures Records(DecodeRecords(b)) == b
  {
    if b != [] {
      Pow256Constants();
      var ds := DecodeRecords(b);
      RecordsOfDecodeRecords(b[6..]);
      BigEndianInverse(b[..2]);
      BigEndianInverse(b[2..6]);
      assert ds[1..] == DecodeRecords(b[6..]);
      assert Record(ds[0]) == b[..6];
      assert b == b[..6] + b[6..];
    }
  }

  /** Decoding a built packet recovers the command, the nonce and the ordered device list. */
  lemma DecodeEncode(command: int, nonce: nat, ds: seq<Device>)
    requires nonce < NonceModulus
    requires EncodePacket(command, nonce, ds).Success?
    ensures DecodePacket(EncodePacket(command, nonce, ds).value) == Some(Packet(command, nonce, ds))
  {
    PacketSplit(command, nonce, ds);
    FromBigEndianInverse(ProtocolId, 2);
    FromBigEndianInverse(command, 2);
    FromBigEndianInverse(nonce, 8);
    DecodeRecordsOfRecords(ds);
  }

  /** Every byte string the decoder accepts is what build_fast_packet builds from its fields. */
  lemma EncodeDecode(b: seq<byte>)
    requires DecodePacket(b).Some?
    ensures var p := DecodePacket(b).value;
      p.nonce < NonceModulus && EncodePacket(p.command, p.nonce, p.devices) == Success(b)
  {
    Pow256Constants();
    var p := DecodePacket(b).value;
    EncodeSucceedsIff(p.command, p.nonce, p.devices);
    assert BigEndian(ProtocolId, 2) == b[..2] by {
      BigEndianInverse(b[..2]);
    }
    assert BigEndian(p.command, 2) == b[2..4] by {
      BigEndianInverse(b[2..4]);
    }
    assert BigEndian(p.nonce, 8) == b[4..12] by {
      BigEndianInverse(b[4..12]);
    }
    assert Header(p.command, p.nonce) == b[..12];
    assert Records(p.devices) == b[12..] by {
      RecordsOfDecodeRecords(b[12..]);
    }
    assert b == b[..12] + b[12..];
  }

  /**
   * The scenario of two devices, 1001 at 2.5 A and 1002 at -1.25 A, with the
   * default command: a 24-byte packet whose records are 03 E9 40 20 00 00 and
   * 03 EA BF A0 00 00.
   */
  lemma TwoDeviceScenario(nonce: nat, ds: seq<Device>)
    requires nonce < NonceModulus
    requires ds == [Device(1001, 0x4020_0000), Device(1002, 0xBFA0_0000)]
    ensures var b := EncodePacket(DefaultCommand, nonce, ds);
      && b.Success? && |b.value| == 24
      && b.value[..4] == [0x76, 0x31, 0x00, 0x00]
      && b.value[4..12] == BigEndian(nonce, 8)
      && b.value[12..] == [0x03, 0xE9, 0x40, 0x20, 0x00, 0x00, 0x03, 0xEA, 0xBF, 0xA0, 0x00, 0x00]
    ensures Value(ds[0].setpoint) == Some(2.5) && Value(ds[1].setpoint) == Some(-1.25)
  {
    ScenarioRecords(ds);
    EncodeSucceedsIff(DefaultCommand, nonce, ds);
    PacketSplit(DefaultCommand, nonce, ds);
    DefaultHeader(nonce);
    var b := EncodePacket(DefaultCommand, nonce, ds).value;
    assert b[..4] == b[..HeaderSize][..4];
    HalfStepPatterns(ds[0].setpoint, ds[1].setpoint);
  }

  /** The header with the default command starts 76 31 00 00. */
  lemma DefaultHeader(nonce: nat)
    requires nonce < NonceModulus
    ensures Header(DefaultCommand, nonce)[..4] == [0x76, 0x31, 0x00, 0x00]
  {
    HeaderFields(DefaultCommand, nonce);
    TwoBytes(ProtocolId);
    TwoBytes(DefaultCommand);
    var h := Header(DefaultCommand, nonce);
    assert h[..4] == h[..2] + h[2..4];
  }

  /** The scenario's two records, byte by byte. */
  lemma ScenarioRecords(ds: seq<Device>)
    requires ds == [Device(1001, 0x4020_0000), Device(1002, 0xBFA0_0000)]
    ensures AddressesFit(ds)
    ensures Records(ds) == [0x03, 0xE9, 0x40, 0x20, 0x00, 0x00, 0x03, 0xEA, 0xBF, 0xA0, 0x00, 0x00]
  {
    FirstScenarioRecord(ds[0]);
    SecondScenarioRecord(ds[1]);
    RecordsOfTwo(ds[0], ds[1]);
  }

  /** The scenario's first record, byte by byte. */
  lemma FirstScenarioRecord(d: Device)
    requires d.address == 1001 && d.setpoint == 0x4020_0000
    ensures Record(d) == [0x03, 0xE9, 0x40, 0x20, 0x00, 0x00]
  {
    RecordBytes(d);
  }

  /** The scenario's second record, byte by byte. */
  lemma SecondScenarioRecord(d: Device)
    requires d.address == 1002 && d.setpoint == 0xBFA0_0000
    ensures Record(d) == [0x03, 0xEA, 0xBF, 0xA0, 0x00, 0x00]
  {
    RecordBytes(d);
  }

  lemma RecordsOfTwo(d0: Device, d1: Device)
    requires IsUShort(d0.address) && IsUShort(d1.address)
    ensures AddressesFit([d0, d1])
    ensures Records([d0, d1]) == Record(d0) + Record(d1)
  {
    assert [d0, d1][1..] == [d1];
  }
}
