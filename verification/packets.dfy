/** The wire packet (src/message/packets.rs): a sync pattern, two content
    bytes and a parity bit, as received off the bus, with the conversions
    into the value-backed words of src/word/word.rs. */
module Packets {
  import opened Bits
  import opened Wrappers
  import opened Errors
  import ValueWords
  import Fields

  /** The leading sync pattern of a data word. */
  const DataSync: byte := 0x07

  /** The leading sync pattern of a command or status word. */
  const ServSync: byte := 0x38

  /** `Packet { sync, bytes, parity }`; `Packet::new` is the constructor. */
  datatype Packet = Packet(sync: byte, bytes: Bytes2, parity: byte)

  /** `Packet::data`: data sync and the bytes' own parity. */
  function DataPacket(b: Bytes2): (p: Packet)
    ensures p.bytes == b && IsData(p) && IsValid(p)
  {
    Packet(DataSync, b, PairParity(b))
  }

  /** `Packet::service`: service sync and the bytes' own parity. */
  function ServicePacket(b: Bytes2): (p: Packet)
    ensures p.bytes == b && IsService(p) && IsValid(p)
  {
    Packet(ServSync, b, PairParity(b))
  }

  /** `is_data`. */
  predicate IsData(p: Packet) {
    p.sync == DataSync
  }

  /** `is_service`. */
  predicate IsService(p: Packet) {
    p.sync == ServSync
  }

  /** `is_valid`: the stored parity is the one the bytes call for. */
  predicate IsValid(p: Packet) {
    PairParity(p.bytes) == p.parity
  }

  /** `value`: `first() << 8 | second()`, the bytes read big-endian. */
  function Value(p: Packet): (v: u16)
    ensures ToBeBytes(v) == p.bytes
  {
    BytesRoundTrip(p.bytes);
    ((p.bytes.hi as u16) << 8) | (p.bytes.lo as u16)
  }

  /** `as_data`: a data word when the packet is valid and data-synced. */
  function AsData(p: Packet): (r: Result<ValueWords.Word, Error>)
    ensures r.Success? <==> IsValid(p) && IsData(p)
    ensures r.Success? ==> r.value == ValueWords.New(FromBeBytes(p.bytes))
    ensures r.Failure? ==> r.error == PacketIsInvalid
  {
    if IsValid(p) && IsData(p) then Success(ValueWords.New(Value(p))) else Failure(PacketIsInvalid)
  }

  /** `as_status`: a status word when the packet is valid and service-synced. */
  function AsStatus(p: Packet): (r: Result<ValueWords.Word, Error>)
    ensures r.Success? <==> IsValid(p) && IsService(p)
    ensures r.Success? ==> r.value == ValueWords.New(FromBeBytes(p.bytes))
    ensures r.Failure? ==> r.error == PacketIsInvalid
  {
    if IsValid(p) && IsService(p) then Success(ValueWords.New(Value(p))) else Failure(PacketIsInvalid)
  }

  /** `as_command`: a command word under the same conditions as a status. */
  function AsCommand(p: Packet): (r: Result<ValueWords.Word, Error>)
    ensures r.Success? <==> IsValid(p) && IsService(p)
    ensures r.Success? ==> r.value == ValueWords.New(FromBeBytes(p.bytes))
    ensures r.Failure? ==> r.error == PacketIsInvalid
  {
    if IsValid(p) && IsService(p) then Success(ValueWords.New(Value(p))) else Failure(PacketIsInvalid)
  }

  /** No packet is both a data and a service packet, so `as_data` and
      `as_command` never both succeed. */
  lemma DataServiceExclusive(p: Packet)
    ensures !(IsData(p) && IsService(p))
    ensures !(AsData(p).Success? && AsCommand(p).Success?)
  {
  }

  /** A decoded word carries the packet's own data and parity, so its
      parity matches its data; and any other parity value makes the packet
      invalid. */
  lemma DecodedParity(p: Packet, q: byte)
    ensures AsData(p).Success? ==> AsData(p).value == ValueWords.Word(Value(p), p.parity)
    ensures AsCommand(p).Success? ==> ValueWords.ParityMatches(AsCommand(p).value)
    ensures IsValid(p) && q != p.parity ==> !IsValid(p.(parity := q))
  {
  }

  /** A packet built from bytes decodes back to a word holding those bytes:
      `data` feeds `as_data`, `service` feeds `as_status` and `as_command`. */
  lemma BuildDecodeRoundTrip(b: Bytes2)
    ensures AsData(DataPacket(b)) == Success(ValueWords.New(FromBeBytes(b)))
    ensures AsStatus(ServicePacket(b)) == Success(ValueWords.New(FromBeBytes(b)))
    ensures ValueWords.Bytes(AsCommand(ServicePacket(b)).value) == b
  {
    BytesRoundTrip(b);
    ValueWords.BytesRoundTrip(ValueWords.New(FromBeBytes(b)));
  }

  /** The even-count parity examples of the source's tests, the ones split
      across the bytes in every way, and a spoilt parity. */
  lemma EvenParityExamples()
    ensures DataPacket(Bytes2(0x40, 0x20)).parity == 1 && Value(DataPacket(Bytes2(0x40, 0x20))) == 0x4020
    ensures DataPacket(Bytes2(0x60, 0x00)).parity == 1
    ensures DataPacket(Bytes2(0x00, 0x30)).parity == 1
    ensures !IsValid(DataPacket(Bytes2(0x00, 0x30)).(parity := 0))
  {
    CountOnesSum(0x4020);
    CountOnesSum(0x6000);
    CountOnesSum(0x0030);
  }

  /** The odd-count parity examples of the source's tests. */
  lemma OddParityExamples()
    ensures DataPacket(Bytes2(0x30, 0x08)).parity == 0
    ensures DataPacket(Bytes2(0x38, 0x00)).parity == 0
    ensures DataPacket(Bytes2(0x00, 0x38)).parity == 0
    ensures !IsValid(DataPacket(Bytes2(0x00, 0x38)).(parity := 1))
  {
    CountOnesSum(0x3008);
    CountOnesSum(0x3800);
    CountOnesSum(0x0038);
  }

  /** The service packet [0b00011000, 0b01100010] decodes to a command for
      terminal 3, subaddress 3, not a mode code, with two data words. */
  lemma CommandExample()
    ensures AsCommand(ServicePacket(Bytes2(0x18, 0x62))).Success?
    ensures ValueWords.GetField(AsCommand(ServicePacket(Bytes2(0x18, 0x62))).value,
                                Fields.CommandTerminalAddress) == 3
    ensures ValueWords.Subaddress(AsCommand(ServicePacket(Bytes2(0x18, 0x62))).value) == 3
    ensures !ValueWords.IsModeCode(AsCommand(ServicePacket(Bytes2(0x18, 0x62))).value)
    ensures ValueWords.WordCount(AsCommand(ServicePacket(Bytes2(0x18, 0x62))).value) == Some(2)
  {
    assert FromBeBytes(Bytes2(0x18, 0x62)) == 0x1862;
    Fields.GetByShift(Fields.CommandTerminalAddressField, 0x1862);
  }
}
