/** Masked bit fields inside a 16-bit word (src/fields.rs): a field is a
    mask plus the shift that brings the masked bits down to bit 0. A field
    reads and writes between one and eight bits. */
module Fields {
  import opened Bits

  /** `Field { mask, offset }`. The offset is a `u32` in the source; it is
      at most 16 here, so a `u16` holds it without loss. */
  datatype Field = Field(mask: u16, offset: u16)

  /** `tz` is the position of the lowest one bit of `m`: bit `tz` is set and
      shifting `m` down by `tz` and back up loses nothing. When `m` has no
      one bit, `tz` is 16. */
  predicate LowestOne(m: u16, tz: u16) {
    && tz <= 16
    && (tz == 16 <==> m == 0)
    && (tz < 16 ==> (m >> tz) & 1 == 1 && ((m >> tz) << tz) == m)
  }

  lemma NoOneBelowStep(m: u16, i: u16)
    requires i < 15 && ((m >> i) << i) == m && (m >> i) & 1 == 0
    ensures ((m >> (i + 1)) << (i + 1)) == m
  {
  }

  /** The lowest one bit of `m` at or above `i`, given none lies below. */
  function LowestOneFrom(m: u16, i: u16): (tz: u16)
    requires i < 16
    requires ((m >> i) << i) == m
    decreases 16 - i
    ensures i <= tz
    ensures LowestOne(m, tz)
  {
    if (m >> i) & 1 == 1 then i
    else if i == 15 then assert m == 0; 16
    else
      NoOneBelowStep(m, i);
      LowestOneFrom(m, i + 1)
  }

  /** `u16::trailing_zeros`: the position of the lowest one bit, or 16 for
      the zero word. */
  function TrailingZeros(m: u16): (tz: u16)
    ensures LowestOne(m, tz)
  {
    LowestOneFrom(m, 0)
  }

  /** `Field::new`: the offset is the number of trailing zeros of the mask. */
  function New(mask: u16): (f: Field)
    ensures f.mask == mask
    ensures LowestOne(mask, f.offset)
  {
    Field(mask, TrailingZeros(mask))
  }

  /** A field as `Field::new` builds it from a non-empty mask no wider than
      eight bits above its lowest one: the shape the field documentation
      promises and every mask of the crate has. */
  predicate Valid(f: Field) {
    && f.mask != 0
    && LowestOne(f.mask, f.offset)
    && (f.mask >> f.offset) <= 0xFF
  }

  /** The mask shifted down to bit 0: the largest value the field holds. */
  function Width(f: Field): byte
    requires f.offset < 16
  {
    (ShiftRight(f.mask, f.offset) & 0xFF) as byte
  }

  /** `Field::get`: the masked bits shifted down, truncated to a byte as
      `as u8` does. */
  function Get(f: Field, data: u16): byte
    requires f.offset < 16
  {
    Lower(data & f.mask, f.offset)
  }

  /** The bits of `a` shifted down by `o`, cut to a byte as `as u8` does. */
  function Lower(a: u16, o: u16): byte
    requires o < 16
  {
    (ShiftRight(a, o) & 0xFF) as byte
  }

  /** `value` widened to 16 bits and shifted up by `o`. */
  function Placed(value: byte, o: u16): u16
    requires o < 16
  {
    ShiftLeft(value as u16, o)
  }

  /** The bits of `d` outside `m` together with the bits of `a` inside it. */
  function Merge(d: u16, m: u16, a: u16): u16 {
    (d & !m) | (a & m)
  }

  /** `Field::set`: the bits outside the mask are kept and the bits inside
      are taken from `value` shifted up; bits of `value` that fall outside
      the mask are dropped. */
  function Set(f: Field, data: u16, value: byte): u16
    requires f.offset < 16
  {
    Merge(data, f.mask, Placed(value, f.offset))
  }

  lemma MergeLaws(d: u16, m: u16, a: u16)
    ensures Merge(d, m, a) & !m == d & !m
    ensures Merge(d, m, a) & m == a & m
  {
  }

  lemma MergeMerge(d: u16, m: u16, a: u16, b: u16)
    ensures Merge(Merge(d, m, a), m, b) == Merge(d, m, b)
  {
    var x := Merge(d, m, a);
    MergeLaws(d, m, a);
    calc {
      Merge(x, m, b);
      (x & !m) | (b & m);
      (d & !m) | (b & m);
    }
  }

  lemma MergeCommute(d: u16, m: u16, n: u16, a: u16, b: u16)
    requires m & n == 0
    ensures Merge(Merge(d, n, b), m, a) == Merge(Merge(d, m, a), n, b)
  {
  }

  lemma MergeOutside(d: u16, m: u16, n: u16, a: u16)
    requires m & n == 0
    ensures Merge(d, m, a) & n == d & n
  {
  }

  /** A write keeps every bit outside the mask and puts the shifted value's
      bits inside it. */
  lemma SetFrame(f: Field, data: u16, value: byte)
    requires f.offset < 16
    ensures Set(f, data, value) & !f.mask == data & !f.mask
    ensures Set(f, data, value) & f.mask == (Placed(value, f.offset)) & f.mask
  {
    MergeLaws(data, f.mask, Placed(value, f.offset));
  }

  /** Reading a field looks at the masked bits only. */
  lemma GetMasked(f: Field, x: u16, y: u16)
    requires f.offset < 16
    requires x & f.mask == y & f.mask
    ensures Get(f, x) == Get(f, y)
  {
  }


  /** The second of two writes to one field wins. */
  lemma SetSet(f: Field, data: u16, v: byte, w: byte)
    requires f.offset < 16
    ensures Set(f, Set(f, data, v), w) == Set(f, data, w)
  {
    MergeMerge(data, f.mask, Placed(v, f.offset), Placed(w, f.offset));
  }

  /** Writing one field neither changes nor depends on a field whose mask
      does not overlap it. */
  lemma DisjointSetGet(f: Field, g: Field, data: u16, value: byte)
    requires f.offset < 16 && g.offset < 16
    requires f.mask & g.mask == 0
    ensures Get(g, Set(f, data, value)) == Get(g, data)
  {
    GetMergeOutside(g, data, f.mask, Placed(value, f.offset));
  }

  lemma GetMergeOutside(g: Field, d: u16, m: u16, a: u16)
    requires g.offset < 16 && m & g.mask == 0
    ensures Get(g, Merge(d, m, a)) == Get(g, d)
  {
    MergeOutside(d, m, g.mask, a);
    GetMasked(g, Merge(d, m, a), d);
  }

  /** Writes to non-overlapping fields commute. */
  lemma DisjointSetsCommute(f: Field, g: Field, data: u16, v: byte, w: byte)
    requires f.offset < 16 && g.offset < 16
    requires f.mask & g.mask == 0
    ensures Set(f, Set(g, data, w), v) == Set(g, Set(f, data, v), w)
  {
    MergeCommute(data, f.mask, g.mask, Placed(v, f.offset), Placed(w, g.offset));
  }

  // ----- the laws of any field ------------------------------------------
  //
  // The proofs below go one equation at a time so that the solver closes
  // each step by rewriting rather than by expanding the shifts.

  /** The low byte of `x`, as `as u8` keeps it. */
  function LowByte(x: u16): byte {
    (x & 0xFF) as byte
  }

  lemma LowerIs(x: u16, o: u16)
    requires o < 16
    ensures Lower(x, o) == LowByte(ShiftRight(x, o))
  {
  }

  lemma WidthIs(f: Field)
    requires f.offset < 16
    ensures Width(f) == LowByte(ShiftRight(f.mask, f.offset))
  {
  }

  lemma GetIs(f: Field, data: u16)
    requires f.offset < 16
    ensures Get(f, data) == Lower(Both(data, f.mask), f.offset)
  {
  }

  /** A read is the data and the mask, each shifted down, cut to a byte. */
  lemma GetShifted(f: Field, data: u16)
    requires f.offset < 16
    ensures Get(f, data) == LowByte(Both(ShiftRight(data, f.offset), ShiftRight(f.mask, f.offset)))
  {
    GetIs(f, data);
    LowerIs(Both(data, f.mask), f.offset);
    ShiftRightBoth(data, f.mask, f.offset);
  }

  lemma GetOfSet(f: Field, data: u16, value: byte)
    requires f.offset < 16
    ensures Get(f, Set(f, data, value)) == Get(f, Placed(value, f.offset))
  {
    SetFrame(f, data, value);
    GetMasked(f, Set(f, data, value), Placed(value, f.offset));
  }

  lemma LowByteAndNot(a: u16, b: u16)
    ensures LowByte(Both(a, b)) & !LowByte(b) == 0
  {
  }

  lemma LowByteOfBoth(v: byte, a: u16, b: u16)
    requires Both(a, b) == b
    ensures LowByte(Both(Both(v as u16, a), b)) == v & LowByte(b)
  {
  }

  lemma LowByteWithin(a: u16, b: u16)
    requires b <= 0xFF
    ensures LowByte(Both(a, b)) as u16 == Both(a, b)
  {
  }

  lemma BothAllOnes(x: u16)
    ensures Both(0xFFFF, x) == x
  {
  }

  lemma MergeBack(d: u16, m: u16, k: u16)
    requires Both(m, k) == m
    ensures Merge(d, m, Both(Both(d, m), k)) == d
  {
  }

  lemma MergeZero(d: u16, m: u16)
    ensures Merge(d, m, 0) == d <==> Both(d, m) == 0
    ensures Both(d, m) == d & m
  {
  }

  lemma LowerZero(o: u16)
    requires o < 16
    ensures Lower(0, o) == 0
  {
    ShiftRightAgrees(0, o);
  }

  lemma SetZero(f: Field, data: u16)
    requires f.offset < 16
    ensures Set(f, data, 0) == Merge(data, f.mask, 0)
  {
    ShiftLeftZero(f.offset);
  }

  /** `Get` with the bit-vector shift written in: the form in which
      concrete reads are worked out. */
  lemma GetByShift(f: Field, data: u16)
    requires f.offset < 16
    ensures Get(f, data) == LowByte(Both(data, f.mask) >> f.offset)
  {
    GetIs(f, data);
    LowerIs(Both(data, f.mask), f.offset);
    ShiftRightAgrees(Both(data, f.mask), f.offset);
  }

  /** `Placed` with the bit-vector shift written in: the form in which
      concrete writes are worked out. */
  lemma PlacedByShift(value: byte, o: u16)
    requires o < 16
    ensures Placed(value, o) == (value as u16) << o
  {
    ShiftLeftAgrees(value as u16, o);
  }

  /** A valid field's mask is at most a byte once shifted down, and shifts
      back up without loss. */
  lemma ValidShifts(f: Field)
    requires Valid(f)
    ensures ShiftRight(f.mask, f.offset) <= 0xFF
    ensures ShiftLeft(ShiftRight(f.mask, f.offset), f.offset) == f.mask
  {
    ShiftsAgree(f.mask, f.offset);
    ShiftsAgree(f.mask >> f.offset, f.offset);
  }

  /** Reading any field after writing it yields the written value cut to
      the field's width: the value's bits outside the mask are lost and no
      other bit is. */
  lemma SetGetLaw(f: Field, data: u16, value: byte)
    requires f.offset < 16
    ensures Get(f, Set(f, data, value)) == value & Width(f)
  {
    var m, o := f.mask, f.offset;
    GetOfSet(f, data, value);
    GetShifted(f, Placed(value, o));
    ShiftUpDownBoth(value as u16, o);
    BothAllOnes(m);
    ShiftRightBoth(0xFFFF, m, o);
    LowByteOfBoth(value, ShiftRight(0xFFFF, o), ShiftRight(m, o));
    WidthIs(f);
  }

  /** Reading any field yields no bit outside its width. */
  lemma GetBoundLaw(f: Field, data: u16)
    requires f.offset < 16
    ensures Get(f, data) & !Width(f) == 0
  {
    GetShifted(f, data);
    WidthIs(f);
    LowByteAndNot(ShiftRight(data, f.offset), ShiftRight(f.mask, f.offset));
  }

  /** Writing back what was read from a valid field changes nothing: the
      read loses no bit of the mask, since the mask is at most eight bits
      wide above its offset and has no bit below it. */
  lemma GetSetLaw(f: Field, data: u16)
    requires Valid(f)
    ensures Set(f, data, Get(f, data)) == data
  {
    var m, o := f.mask, f.offset;
    GetShifted(f, data);
    ValidShifts(f);
    LowByteWithin(ShiftRight(data, o), ShiftRight(m, o));
    ShiftRightBoth(data, m, o);
    ShiftDownUpBoth(Both(data, m), o);
    ShiftDownUpBoth(m, o);
    MergeBack(data, m, ShiftLeft(0xFFFF, o));
  }

  /** A valid field reads as zero exactly when none of its mask bits is set
      in the data. */
  lemma GetZeroLaw(f: Field, data: u16)
    requires Valid(f)
    ensures Get(f, data) == 0 <==> data & f.mask == 0
  {
    MergeZero(data, f.mask);
    if Get(f, data) == 0 {
      GetSetLaw(f, data);
      SetZero(f, data);
    } else {
      GetIs(f, data);
      LowerZero(f.offset);
    }
  }

  /** What a field built by `Field::new` can do: from a non-empty mask no
      wider than eight bits above its lowest one, it is valid, reads back
      what it wrote (cut to its width) and writes back what it read without
      change. */
  lemma NewFieldLaws(mask: u16, data: u16, value: byte)
    requires mask != 0
    requires (mask >> TrailingZeros(mask)) <= 0xFF
    ensures Valid(New(mask))
    ensures Get(New(mask), Set(New(mask), data, value)) == value & Width(New(mask))
    ensures Set(New(mask), data, Get(New(mask), data)) == data
  {
    SetGetLaw(New(mask), data, value);
    GetSetLaw(New(mask), data);
  }

  /** Mask of an empty field. */
  const WordEmpty: u16 := 0

  const CommandTerminalAddressMask: u16 := 0xF800
  const CommandTransmitReceiveMask: u16 := 0x0400
  const CommandSubaddressMask: u16 := 0x03E0
  const CommandModeCodeMask: u16 := 0x001F
  const CommandWordCountMask: u16 := 0x001F

  const StatusTerminalAddressMask: u16 := 0xF800
  const StatusMessageErrorMask: u16 := 0x0400
  const StatusInstrumentationMask: u16 := 0x0200
  const StatusServiceRequestMask: u16 := 0x0100
  const StatusReservedBitsMask: u16 := 0x00E0
  const StatusBroadcastReceivedMask: u16 := 0x0010
  const StatusTerminalBusyMask: u16 := 0x0008
  const StatusSubsystemFlagMask: u16 := 0x0004
  const StatusDynamicBusAcceptMask: u16 := 0x0002
  const StatusTerminalFlagMask: u16 := 0x0001

  /** The field constants, with the offsets `Field::new` computes written
      out (see `FieldsAreNew`). */
  const CommandTerminalAddressField: Field := Field(CommandTerminalAddressMask, 11)
  const CommandTransmitReceiveField: Field := Field(CommandTransmitReceiveMask, 10)
  const CommandSubaddressField: Field := Field(CommandSubaddressMask, 5)
  const CommandModeCodeField: Field := Field(CommandModeCodeMask, 0)
  const CommandWordCountField: Field := Field(CommandWordCountMask, 0)

  const StatusTerminalAddressField: Field := Field(StatusTerminalAddressMask, 11)
  const StatusMessageErrorField: Field := Field(StatusMessageErrorMask, 10)
  const StatusInstrumentationField: Field := Field(StatusInstrumentationMask, 9)
  const StatusServiceRequestField: Field := Field(StatusServiceRequestMask, 8)
  const StatusReservedBitsField: Field := Field(StatusReservedBitsMask, 5)
  const StatusBroadcastReceivedField: Field := Field(StatusBroadcastReceivedMask, 4)
  const StatusTerminalBusyField: Field := Field(StatusTerminalBusyMask, 3)
  const StatusSubsystemFlagField: Field := Field(StatusSubsystemFlagMask, 2)
  const StatusDynamicBusAcceptField: Field := Field(StatusDynamicBusAcceptMask, 1)
  const StatusTerminalFlagField: Field := Field(StatusTerminalFlagMask, 0)

  /** The names of the crate's fields: five of a command word, ten of a
      status word. */
  datatype FieldName =
    | CommandTerminalAddress
    | CommandTransmitReceive
    | CommandSubaddress
    | CommandModeCode
    | CommandWordCount
    | StatusTerminalAddress
    | StatusMessageError
    | StatusInstrumentation
    | StatusServiceRequest
    | StatusReservedBits
    | StatusBroadcastReceived
    | StatusTerminalBusy
    | StatusSubsystemFlag
    | StatusDynamicBusAccept
    | StatusTerminalFlag
  {
    predicate IsCommand() {
      || CommandTerminalAddress? || CommandTransmitReceive? || CommandSubaddress?
      || CommandModeCode? || CommandWordCount?
    }
  }

  function FieldOf(n: FieldName): Field {
    match n
    case CommandTerminalAddress => CommandTerminalAddressField
    case CommandTransmitReceive => CommandTransmitReceiveField
    case CommandSubaddress => CommandSubaddressField
    case CommandModeCode => CommandModeCodeField
    case CommandWordCount => CommandWordCountField
    case StatusTerminalAddress => StatusTerminalAddressField
    case StatusMessageError => StatusMessageErrorField
    case StatusInstrumentation => StatusInstrumentationField
    case StatusServiceRequest => StatusServiceRequestField
    case StatusReservedBits => StatusReservedBitsField
    case StatusBroadcastReceived => StatusBroadcastReceivedField
    case StatusTerminalBusy => StatusTerminalBusyField
    case StatusSubsystemFlag => StatusSubsystemFlagField
    case StatusDynamicBusAccept => StatusDynamicBusAcceptField
    case StatusTerminalFlag => StatusTerminalFlagField
  }

  /** The field constants are exactly what `Field::new` builds from the
      masks. */
  lemma FieldsAreNew(n: FieldName)
    ensures New(FieldOf(n).mask) == FieldOf(n)
  {
    match n
    case CommandTerminalAddress =>
    case CommandTransmitReceive =>
    case CommandSubaddress =>
    case CommandModeCode =>
    case CommandWordCount =>
    case StatusTerminalAddress =>
    case StatusMessageError =>
    case StatusInstrumentation =>
    case StatusServiceRequest =>
    case StatusReservedBits =>
    case StatusBroadcastReceived =>
    case StatusTerminalBusy =>
    case StatusSubsystemFlag =>
    case StatusDynamicBusAccept =>
    case StatusTerminalFlag =>
  }

  /** Every field of the crate is valid, and its width is five bits for the
      addresses, the subaddress, the mode code and the word count, three for
      the reserved bits and one for every flag. */
  lemma FieldsValid(n: FieldName)
    ensures Valid(FieldOf(n))
    ensures Width(FieldOf(n)) == match n
      case CommandTerminalAddress | CommandSubaddress | CommandModeCode | CommandWordCount
           | StatusTerminalAddress => 0x1F
      case StatusReservedBits => 0x7
      case _ => 1
  {
    match n
    case CommandTerminalAddress =>
    case CommandTransmitReceive =>
    case CommandSubaddress =>
    case CommandModeCode =>
    case CommandWordCount =>
    case StatusTerminalAddress =>
    case StatusMessageError =>
    case StatusInstrumentation =>
    case StatusServiceRequest =>
    case StatusReservedBits =>
    case StatusBroadcastReceived =>
    case StatusTerminalBusy =>
    case StatusSubsystemFlag =>
    case StatusDynamicBusAccept =>
    case StatusTerminalFlag =>
  }

  /** Reading a field of the crate yields no bit outside its width. */
  lemma GetBound(n: FieldName, data: u16)
    ensures Get(FieldOf(n), data) & !Width(FieldOf(n)) == 0
  {
    FieldsValid(n);
    GetBoundLaw(FieldOf(n), data);
  }

  /** Writing back what was read from a field of the crate changes nothing. */
  lemma GetSet(n: FieldName, data: u16)
    ensures Set(FieldOf(n), data, Get(FieldOf(n), data)) == data
  {
    FieldsValid(n);
    GetSetLaw(FieldOf(n), data);
  }

  /** Reading a field of the crate after writing it yields the written value
      cut to the field's width. */
  lemma SetGet(n: FieldName, data: u16, value: byte)
    ensures Get(FieldOf(n), Set(FieldOf(n), data, value)) == value & Width(FieldOf(n))
  {
    FieldsValid(n);
    SetGetLaw(FieldOf(n), data, value);
  }

  /** A field of the crate reads as zero exactly when none of its mask bits
      is set in the data. */
  lemma GetZero(n: FieldName, data: u16)
    ensures Get(FieldOf(n), data) == 0 <==> data & FieldOf(n).mask == 0
  {
    FieldsValid(n);
    GetZeroLaw(FieldOf(n), data);
  }

  /** The command fields cover the word without overlap; the mode code and
      the word count are the same five bits. */
  lemma CommandFieldsPartition()
    ensures CommandTerminalAddressMask | CommandTransmitReceiveMask | CommandSubaddressMask
            | CommandWordCountMask == 0xFFFF
    ensures CommandTerminalAddressMask & CommandTransmitReceiveMask == 0
    ensures (CommandTerminalAddressMask | CommandTransmitReceiveMask) & CommandSubaddressMask == 0
    ensures (CommandTerminalAddressMask | CommandTransmitReceiveMask | CommandSubaddressMask)
            & CommandWordCountMask == 0
    ensures CommandModeCodeMask == CommandWordCountMask
  {
  }

  /** The status fields cover the word and no two of them overlap. */
  lemma StatusFieldsPartition()
    ensures forall s: FieldName, t: FieldName :: !s.IsCommand() && !t.IsCommand() && s != t
              ==> FieldOf(s).mask & FieldOf(t).mask == 0
    ensures StatusTerminalAddressMask | StatusMessageErrorMask | StatusInstrumentationMask
            | StatusServiceRequestMask | StatusReservedBitsMask | StatusBroadcastReceivedMask
            | StatusTerminalBusyMask | StatusSubsystemFlagMask | StatusDynamicBusAcceptMask
            | StatusTerminalFlagMask == 0xFFFF
  {
  }
}
