/** The wire window extractor (src/message/parse.rs): the first twenty bits
    of a received stream hold a three-bit sync pattern, sixteen data bits
    and a parity bit, starting either at the first bit of the first byte
    (aligned) or at its fifth bit (unaligned):

        aligned    | sssddddd | dddddddd | dddp____ |
        unaligned  | ____sssd | dddddddd | dddddddp |
*/
module Parse {
  import opened Bits

  /** The `(sync, word, parity)` triple `process` returns. */
  datatype Frame = Frame(sync: byte, word: u16, parity: byte)

  /** `process(align, data)`. The source reads `data[2]` and so panics on a
      shorter slice; bytes past the third are never read. */
  function Process(align: bool, data: seq<byte>): (f: Frame)
    requires |data| >= 3
    ensures f.sync <= 7 && f.parity <= 1
  {
    Extract(align, data[0], data[1], data[2])
  }

  /** The body of `process` on the three bytes it reads. */
  function Extract(align: bool, b0: byte, b1: byte, b2: byte): (f: Frame)
    ensures f.sync <= 7 && f.parity <= 1
  {
    if align then
      Frame((b0 & 0xE0) >> 5,
            (((b0 as u16) & 0x001F) << 11)
            | (((b1 as u16) & 0x00FF) << 3)
            | (((b2 as u16) & 0x00E0) >> 5),
            (b2 & 0x10) >> 4)
    else
      Frame((b0 & 0x0E) >> 1,
            (((b0 as u16) & 0x0001) << 15)
            | (((b1 as u16) & 0x00FF) << 7)
            | (((b2 as u16) & 0x00FE) >> 1),
            b2 & 0x01)
  }

  /** The bits of each of the three bytes that the window covers. */
  function WindowMask(align: bool): (m: seq<byte>)
    ensures |m| == 3
  {
    if align then [0xFF, 0xFF, 0xF0] else [0x0F, 0xFF, 0xFF]
  }

  /** The layout drawn above, as an independent encoder: a triple packed
      into three bytes with every bit outside the window clear. */
  function Pack(align: bool, f: Frame): (data: seq<byte>)
    ensures |data| == 3
  {
    if align then
      [ ((f.sync & 0x07) << 5) | ((f.word >> 11) as byte),
        ((f.word >> 3) & 0xFF) as byte,
        (((f.word & 0x0007) as byte) << 5) | ((f.parity & 0x01) << 4) ]
    else
      [ ((f.sync & 0x07) << 1) | ((f.word >> 15) as byte),
        ((f.word >> 7) & 0xFF) as byte,
        (((f.word & 0x007F) as byte) << 1) | (f.parity & 0x01) ]
  }

  /** Packing any triple whose sync fits three bits and whose parity fits
      one bit, then extracting it, gives the triple back. */
  lemma PackThenProcess(align: bool, f: Frame)
    requires f.sync <= 7 && f.parity <= 1
    ensures Process(align, Pack(align, f)) == f
  {
  }

  /** Extracting a triple and packing it again gives the window bits of
      the first three bytes and clears every other bit. */
  lemma ProcessThenPack(align: bool, data: seq<byte>)
    requires |data| >= 3
    ensures Pack(align, Process(align, data))
            == [data[0] & WindowMask(align)[0], data[1] & WindowMask(align)[1], data[2] & WindowMask(align)[2]]
  {
    if align {
      WindowBitsAligned(data[0], data[1], data[2]);
    } else {
      WindowBitsUnaligned(data[0], data[1], data[2]);
    }
  }

  lemma WindowBitsAligned(a: byte, b: byte, c: byte)
    ensures Pack(true, Extract(true, a, b, c)) == [a, b, c & 0xF0]
  {
  }

  lemma WindowBitsUnaligned(a: byte, b: byte, c: byte)
    ensures Pack(false, Extract(false, a, b, c)) == [a & 0x0F, b, c]
  {
  }

  /** The triple depends only on the window: two streams that agree on the
      window bits of their first three bytes give the same triple, whatever
      their other bits and whatever follows. */
  lemma OnlyWindowMatters(align: bool, a: seq<byte>, b: seq<byte>)
    requires |a| >= 3 && |b| >= 3
    requires forall i :: 0 <= i < 3 ==> a[i] & WindowMask(align)[i] == b[i] & WindowMask(align)[i]
    ensures Process(align, a) == Process(align, b)
  {
    ProcessThenPack(align, a);
    ProcessThenPack(align, b);
    PackThenProcess(align, Process(align, a));
    PackThenProcess(align, Process(align, b));
  }

  /** The word patterns of the source's tests. */
  lemma WordExamples()
    ensures Process(true, [0x15, 0x55, 0x40]).word == 0xAAAA
    ensures Process(false, [0x01, 0x55, 0x54]).word == 0xAAAA
    ensures Process(true, [0x1F, 0xFF, 0xE0]).word == 0xFFFF
    ensures Process(false, [0x01, 0xFF, 0xFE]).word == 0xFFFF
    ensures Process(true, [0xE0, 0x00, 0x1F]).word == 0
    ensures Process(false, [0xFE, 0x00, 0x01]).word == 0
  {
  }

  /** The sync and parity patterns of the source's tests. */
  lemma SyncParityExamples()
    ensures Process(true, [0x1F, 0xFF, 0xFF]).sync == 0
    ensures Process(false, [0xF1, 0xFF, 0xFF]).sync == 0
    ensures Process(true, [0xE0, 0x00, 0x00]).sync == 7
    ensures Process(false, [0x0E, 0x00, 0x00]).sync == 7
    ensures Process(true, [0x00, 0x00, 0x10]).parity == 1
    ensures Process(false, [0x00, 0x00, 0x01]).parity == 1
    ensures Process(true, [0xFF, 0xFF, 0xEF]).parity == 0
    ensures Process(false, [0xFF, 0xFF, 0xFE]).parity == 0
  {
  }
}
