/** The older packet (src/packets.rs): sync pattern, two content bytes and a
    parity bit, tagged with the sync patterns of the older field table. */
module LegacyPackets {
  import opened Bits
  import Constants

  /** `Packet { sync, content, parity }`; `Packet::new` is the constructor. */
  datatype Packet = Packet(sync: byte, content: Bytes2, parity: byte)

  /** `Packet::data`. */
  function DataPacket(b: Bytes2): (p: Packet)
    ensures p.content == b && IsData(p) && IsValid(p)
  {
    Packet(Constants.DataSync, b, PairParity(b))
  }

  /** `Packet::service`. */
  function ServicePacket(b: Bytes2): (p: Packet)
    ensures p.content == b && IsService(p) && IsValid(p)
  {
    Packet(Constants.ServSync, b, PairParity(b))
  }

  /** `is_data`. */
  predicate IsData(p: Packet) {
    p.sync == Constants.DataSync
  }

  /** `is_service`. */
  predicate IsService(p: Packet) {
    p.sync == Constants.ServSync
  }

  /** `is_valid`: the stored parity is the one the content calls for. */
  predicate IsValid(p: Packet) {
    PairParity(p.content) == p.parity
  }

  /** A packet is never both data and service; it is valid exactly when its
      parity is the odd-parity bit of its content. A valid packet's content
      and parity together hold an odd number of ones, and for a parity of 0
      or 1 that odd count is also enough for validity. */
  lemma Classification(p: Packet)
    ensures !(IsData(p) && IsService(p))
    ensures IsValid(p) <==> p.parity == ParityBit(FromBeBytes(p.content))
    ensures IsValid(p) ==> (CountOnes(FromBeBytes(p.content)) + p.parity as nat) % 2 == 1
    ensures p.parity <= 1 ==>
              (IsValid(p) <==> (CountOnes(FromBeBytes(p.content)) + p.parity as nat) % 2 == 1)
  {
  }

  /** Changing the parity of a valid packet makes it invalid; the examples
      of the source's tests are the spoilt odd and even packets. */
  lemma SpoiltParity(p: Packet, q: byte)
    requires IsValid(p) && q != p.parity
    ensures !IsValid(p.(parity := q))
  {
  }

  /** The parity examples of the source's tests, the same vectors as the
      newer packet's. */
  lemma ParityExamples()
    ensures DataPacket(Bytes2(0x40, 0x20)).parity == 1
    ensures DataPacket(Bytes2(0x30, 0x08)).parity == 0
    ensures IsData(DataPacket(Bytes2(0, 0))) && IsService(ServicePacket(Bytes2(0, 0)))
  {
    CountOnesSum(0x4020);
    CountOnesSum(0x3008);
  }
}
