/** The older field table (src/constants.rs): each field carries its mask and
    an offset written out by hand, and the two sync patterns are spelled as
    six half-bit times. */
module Constants {
  import opened Bits
  import Fields

  /** `Field { mask, offset: u8 }`, built by `Field::new(mask, offset)`
      without any check that the offset matches the mask. */
  datatype Field = Field(mask: u16, offset: byte)

  /** The leading sync pattern of a data word. */
  const DataSync: byte := 0x07

  /** The leading sync pattern of a command or status word. */
  const ServSync: byte := 0x38

  /** All-ones and all-zeros data values. */
  const FullWord: u16 := 0xFFFF
  const EmptyWord: u16 := 0x0000

  const CommandTerminalAddressField: Field := Field(0xF800, 11)
  const CommandTransmitReceiveField: Field := Field(0x0400, 10)
  const CommandSubaddressField: Field := Field(0x03E0, 5)
  const CommandModeCodeField: Field := Field(0x001F, 0)
  const CommandWordCountField: Field := Field(0x001F, 0)

  const StatusTerminalAddressField: Field := Field(0xF800, 11)
  const StatusMessageErrorField: Field := Field(0x0400, 10)
  const StatusInstrumentationField: Field := Field(0x0200, 9)
  const StatusServiceRequestField: Field := Field(0x0100, 8)
  const StatusReservedBitsField: Field := Field(0x00E0, 5)
  const StatusBroadcastReceivedField: Field := Field(0x0010, 4)
  const StatusTerminalBusyField: Field := Field(0x0008, 3)
  const StatusSubsystemFlagField: Field := Field(0x0004, 2)
  const StatusBusControlAcceptField: Field := Field(0x0002, 1)
  const StatusTerminalFlagField: Field := Field(0x0001, 0)

  /** This table's entry for each field the newer table names (the newer
      `STATUS_DYNAMIC_BUS_ACCEPT` is `STATUS_BUS_CONTROL_ACCEPT` here). */
  function FieldOf(n: Fields.FieldName): Field {
    match n
    case CommandTerminalAddress => CommandTerminalAddressField
    case CommandTransmitReceive => CommandTransmitReceiveField
    case CommandSubaddress => CommandSubaddressField
    case CommandModeCode => CommandModeCodeField
    case CommandWordCount => CommandWordCountField
    case StatusTerminalAddress => StatusTerminalAddressField
    case StatusMessageError => StatusMessageErrorField
    case StatusInstrumentation => StatusInstrumentationField
    case StatusServiceRequest => StatusServiceRequestField
    case StatusReservedBits => StatusReservedBitsField
    case StatusBroadcastReceived => StatusBroadcastReceivedField
    case StatusTerminalBusy => StatusTerminalBusyField
    case StatusSubsystemFlag => StatusSubsystemFlagField
    case StatusDynamicBusAccept => StatusBusControlAcceptField
    case StatusTerminalFlag => StatusTerminalFlagField
  }

  /** Both tables agree field by field: same mask, same offset. */
  lemma TablesAgree(n: Fields.FieldName)
    ensures FieldOf(n).mask == Fields.FieldOf(n).mask
    ensures FieldOf(n).offset as u16 == Fields.FieldOf(n).offset
  {
    match n
    case CommandTerminalAddress =>
    case CommandTransmitReceive =>
    case CommandSubaddress =>
    case CommandModeCode =>
    case CommandWordCount =>
    case StatusTerminalAddress =>
    case StatusMessageError =>
    case StatusInstrumentation =>
    case StatusServiceRequest =>
    case StatusReservedBits =>
    case StatusBroadcastReceived =>
    case StatusTerminalBusy =>
    case StatusSubsystemFlag =>
    case StatusDynamicBusAccept =>
    case StatusTerminalFlag =>
  }

  /** Every hand-written offset is the number of trailing zeros of its mask,
      the offset `Field::new` of the newer table computes. */
  lemma OffsetsAreTrailingZeros(n: Fields.FieldName)
    ensures FieldOf(n).offset as u16 == Fields.TrailingZeros(FieldOf(n).mask)
  {
    TablesAgree(n);
    Fields.FieldsAreNew(n);
  }

  /** This table's field as the newer table's `Field`, its `u8` offset
      widened. */
  function AsField(f: Field): Fields.Field {
    Fields.Field(f.mask, f.offset as u16)
  }

  /** The addresses, the subaddress and the word count are five bits wide;
      the reserved field is three bits wide; every other field is one bit. */
  lemma FieldWidths(n: Fields.FieldName)
    ensures FieldOf(n).offset < 16
    ensures Fields.Width(AsField(FieldOf(n))) == match n
      case CommandTerminalAddress | CommandSubaddress | CommandModeCode | CommandWordCount
           | StatusTerminalAddress => 0x1F
      case StatusReservedBits => 0x7
      case _ => 1
  {
    Fields.FieldsValid(n);
    TablesAgree(n);
  }

  /** The command masks cover the sixteen data bits without overlap, the mode
      code sharing the word count's bits. */
  lemma CommandFieldsPartition()
    ensures CommandTerminalAddressField.mask | CommandTransmitReceiveField.mask
            | CommandSubaddressField.mask | CommandWordCountField.mask == FullWord
    ensures CommandTerminalAddressField.mask & CommandTransmitReceiveField.mask == EmptyWord
    ensures (CommandTerminalAddressField.mask | CommandTransmitReceiveField.mask)
            & CommandSubaddressField.mask == EmptyWord
    ensures (CommandTerminalAddressField.mask | CommandTransmitReceiveField.mask
             | CommandSubaddressField.mask) & CommandWordCountField.mask == EmptyWord
    ensures CommandModeCodeField == CommandWordCountField
  {
  }

  /** The ten status masks cover the sixteen data bits and no two overlap. */
  lemma StatusFieldsPartition()
    ensures forall s: Fields.FieldName, t: Fields.FieldName :: !s.IsCommand() && !t.IsCommand() && s != t
              ==> FieldOf(s).mask & FieldOf(t).mask == EmptyWord
    ensures StatusTerminalAddressField.mask | StatusMessageErrorField.mask
            | StatusInstrumentationField.mask | StatusServiceRequestField.mask
            | StatusReservedBitsField.mask | StatusBroadcastReceivedField.mask
            | StatusTerminalBusyField.mask | StatusSubsystemFlagField.mask
            | StatusBusControlAcceptField.mask | StatusTerminalFlagField.mask == FullWord
  {
    Fields.StatusFieldsPartition();
    forall s: Fields.FieldName | !s.IsCommand()
      ensures FieldOf(s).mask == Fields.FieldOf(s).mask
    {
      TablesAgree(s);
    }
  }

  /** The two sync patterns are three half-bit times high followed by three
      low, and the reverse: each has three ones, they share no bit, and
      together they fill six bit times. */
  lemma SyncPatterns()
    ensures DataSync != ServSync
    ensures CountOnesByte(DataSync) == 3 && CountOnesByte(ServSync) == 3
    ensures DataSync & ServSync == 0 && DataSync | ServSync == 0x3F
    ensures ServSync == DataSync << 3
  {
  }
}
