/** The oldest word revision (src/words.rs): words are bare `u16` values with
    no parity, built from two bytes by `combine`, and wrapped in a `Word` sum
    type. Field getters and setters read and write the crate's fields
    directly on the data. */
module PlainWords {
  import opened Bits
  import Fields
  import W = Wrappers
  import opened Errors

  /** The `Address` decoding of this revision: a terminal address, a
      subsystem subaddress, or `Address::None` for a subaddress that marks a
      mode code. */
  datatype Address = NoAddress | Terminal(terminal: byte) | Subsystem(subsystem: byte)

  datatype CommandWord = CommandWord(data: u16)
  datatype StatusWord = StatusWord(data: u16)
  datatype DataWord = DataWord(data: u16)

  /** `Word`: no word, or one of the three kinds. */
  datatype Word = None | Command(command: CommandWord) | Status(status: StatusWord) | Data(dataWord: DataWord)

  /** `CommandWord::combine`: the first byte high, joined with `|`. */
  function CombineOr(b: Bytes2): u16 {
    ((b.hi as u16) << 8) | (b.lo as u16)
  }

  /** `StatusWord::combine` and `DataWord::combine`: the first byte high,
      joined with a wrapping `+`. */
  function CombineSum(b: Bytes2): u16 {
    ((b.hi as u16) << 8) + (b.lo as u16)
  }

  /** Both ways of joining agree, since the shifted high byte has no bit in
      common with the low byte, so the sum never carries; and the joined
      value splits back into the same two bytes. */
  lemma CombineAgrees(b: Bytes2)
    ensures CombineSum(b) == CombineOr(b) == FromBeBytes(b)
    ensures ToBeBytes(CombineOr(b)) == b
  {
    BytesRoundTrip(b);
  }

  /** `Word::command`, `Word::status`, `Word::data`. */
  function CommandOf(b: Bytes2): (w: Word)
    ensures w.Command? && w.command.data == FromBeBytes(b)
  {
    Command(CommandWord(CombineOr(b)))
  }

  function StatusOf(b: Bytes2): (w: Word)
    ensures w.Status? && w.status.data == FromBeBytes(b)
  {
    CombineAgrees(b);
    Status(StatusWord(CombineSum(b)))
  }

  function DataOf(b: Bytes2): (w: Word)
    ensures w.Data? && w.dataWord.data == FromBeBytes(b)
  {
    CombineAgrees(b);
    Data(DataWord(CombineSum(b)))
  }

  /** `is_none`, `is_command`, `is_status`, `is_data`: exactly one holds. */
  lemma ExactlyOneKind(w: Word)
    ensures (if w.None? then 1 else 0) + (if w.Command? then 1 else 0)
            + (if w.Status? then 1 else 0) + (if w.Data? then 1 else 0) == 1
  {
  }

  // ----- command words ----------------------------------------------------

  function GetCommand(c: CommandWord, n: Fields.FieldName): byte {
    Fields.Get(Fields.FieldOf(n), c.data)
  }

  function SetCommand(c: CommandWord, n: Fields.FieldName, v: byte): CommandWord {
    CommandWord(Fields.Set(Fields.FieldOf(n), c.data, v))
  }

  /** `CommandWord::address`: the terminal address in data bits 15..11. */
  function CommandAddress(c: CommandWord): (a: Address)
    ensures a.Terminal? && a.terminal <= 31
    ensures a.terminal as u16 == c.data >> 11
  {
    Fields.GetByShift(Fields.FieldOf(Fields.CommandTerminalAddress), c.data);
    Fields.GetBound(Fields.CommandTerminalAddress, c.data);
    Fields.FieldsValid(Fields.CommandTerminalAddress);
    Terminal(GetCommand(c, Fields.CommandTerminalAddress))
  }

  /** `CommandWord::subaddress`: a field of 0 or 31 marks a mode code and
      decodes to no address; any other value is a subsystem. */
  function Subaddress(c: CommandWord): (a: Address)
    ensures a.NoAddress? <==> GetCommand(c, Fields.CommandSubaddress) in {0, 31}
    ensures a.Subsystem? ==> a.subsystem == GetCommand(c, Fields.CommandSubaddress)
    ensures !a.Terminal?
  {
    match GetCommand(c, Fields.CommandSubaddress)
    case 0 => NoAddress
    case 31 => NoAddress
    case v => Subsystem(v)
  }

  /** `CommandWord::is_mode_code`. */
  predicate IsModeCode(c: CommandWord) {
    Subaddress(c) == NoAddress
  }

  /** `CommandWord::mode_code`: the low five bits of a mode-code command,
      `NotModeCode` for any other. */
  function ModeCode(c: CommandWord): (r: W.Result<byte, Error>)
    ensures r.Success? <==> IsModeCode(c)
    ensures r.Success? ==> r.value == GetCommand(c, Fields.CommandModeCode) && r.value <= 31
    ensures r.Failure? ==> r.error == NotModeCode
  {
    Fields.GetBound(Fields.CommandModeCode, c.data);
    Fields.FieldsValid(Fields.CommandModeCode);
    if IsModeCode(c) then W.Success(GetCommand(c, Fields.CommandModeCode)) else W.Failure(NotModeCode)
  }

  /** `CommandWord::word_count`: a field of 0 means 32 words. */
  function WordCount(c: CommandWord): (r: byte)
    ensures 1 <= r <= 32
    ensures r == 32 <==> GetCommand(c, Fields.CommandWordCount) == 0
    ensures r < 32 ==> r == GetCommand(c, Fields.CommandWordCount)
  {
    Fields.GetBound(Fields.CommandWordCount, c.data);
    Fields.FieldsValid(Fields.CommandWordCount);
    match GetCommand(c, Fields.CommandWordCount)
    case 0 => 32
    case v => v
  }

  /** `CommandWord::is_receive`: the T/R bit is 0. */
  predicate IsReceive(c: CommandWord) {
    GetCommand(c, Fields.CommandTransmitReceive) == 0
  }

  /** `CommandWord::is_transmit`: the T/R bit is 1. */
  predicate IsTransmit(c: CommandWord) {
    GetCommand(c, Fields.CommandTransmitReceive) == 1
  }

  /** Exactly one of receive and transmit holds. */
  lemma DirectionExclusive(c: CommandWord)
    ensures IsReceive(c) != IsTransmit(c)
  {
    Fields.GetBound(Fields.CommandTransmitReceive, c.data);
    Fields.FieldsValid(Fields.CommandTransmitReceive);
  }

  /** `Word::mode_code_command`: a command word when it is a mode code,
      `MessageBad` otherwise. */
  function ModeCodeCommand(b: Bytes2): (r: W.Result<Word, Error>)
    ensures r.Success? <==> IsModeCode(CommandWord(FromBeBytes(b)))
    ensures r.Success? ==> r.value == CommandOf(b)
    ensures r.Failure? ==> r.error == MessageBad
  {
    var c := CommandWord(CombineOr(b));
    if IsModeCode(c) then W.Success(Command(c)) else W.Failure(MessageBad)
  }

  /** `Word::transmit_command`. */
  function TransmitCommand(b: Bytes2): (r: W.Result<Word, Error>)
    ensures r.Success? <==> IsTransmit(CommandWord(FromBeBytes(b)))
    ensures r.Success? ==> r.value == CommandOf(b)
    ensures r.Failure? ==> r.error == MessageBad
  {
    var c := CommandWord(CombineOr(b));
    if IsTransmit(c) then W.Success(Command(c)) else W.Failure(MessageBad)
  }

  /** `Word::receive_command`. */
  function ReceiveCommand(b: Bytes2): (r: W.Result<Word, Error>)
    ensures r.Success? <==> IsReceive(CommandWord(FromBeBytes(b)))
    ensures r.Success? ==> r.value == CommandOf(b)
    ensures r.Failure? ==> r.error == MessageBad
  {
    var c := CommandWord(CombineOr(b));
    if IsReceive(c) then W.Success(Command(c)) else W.Failure(MessageBad)
  }

  /** Every pair of bytes is accepted by exactly one of the transmit and
      receive constructors. */
  lemma DirectionConstructorsSplit(b: Bytes2)
    ensures TransmitCommand(b).Success? != ReceiveCommand(b).Success?
  {
    DirectionExclusive(CommandWord(FromBeBytes(b)));
  }

  /** The subaddress examples of the source's tests: 0 and 31 decode to no
      address, 0b10101 to subsystem 0b10101; a terminal address of 0b11111
      reads back as terminal 0b11111. */
  lemma SubaddressExamples()
    ensures Subaddress(SetCommand(CommandWord(0), Fields.CommandSubaddress, 0)) == NoAddress
    ensures Subaddress(SetCommand(CommandWord(0), Fields.CommandSubaddress, 0x1F)) == NoAddress
    ensures Subaddress(SetCommand(CommandWord(0), Fields.CommandSubaddress, 0x15)) == Subsystem(0x15)
    ensures CommandAddress(SetCommand(CommandWord(0), Fields.CommandTerminalAddress, 0x1F)) == Terminal(0x1F)
  {
  }

  // ----- status words -----------------------------------------------------

  function GetStatus(s: StatusWord, n: Fields.FieldName): byte {
    Fields.Get(Fields.FieldOf(n), s.data)
  }

  function SetStatus(s: StatusWord, n: Fields.FieldName, v: byte): StatusWord {
    StatusWord(Fields.Set(Fields.FieldOf(n), s.data, v))
  }

  /** `StatusWord::address`: the terminal address in data bits 15..11. */
  function StatusAddress(s: StatusWord): (a: Address)
    ensures a.Terminal? && a.terminal <= 31
    ensures a.terminal as u16 == s.data >> 11
  {
    Fields.GetByShift(Fields.FieldOf(Fields.StatusTerminalAddress), s.data);
    Fields.GetBound(Fields.StatusTerminalAddress, s.data);
    Fields.FieldsValid(Fields.StatusTerminalAddress);
    Terminal(GetStatus(s, Fields.StatusTerminalAddress))
  }

  /** `StatusWord::is_busy`: the busy bit is not zero. */
  predicate IsBusy(s: StatusWord) {
    GetStatus(s, Fields.StatusTerminalBusy) != 0
  }

  /** `StatusWord::is_valid`: the reserved bits are zero. */
  predicate IsValid(s: StatusWord) {
    GetStatus(s, Fields.StatusReservedBits) == 0
  }

  /** The status predicates in terms of data bits: busy iff bit 3 is set,
      valid iff bits 7..5 are clear. */
  lemma StatusPredicates(s: StatusWord)
    ensures IsBusy(s) <==> s.data & 0x0008 != 0
    ensures IsValid(s) <==> s.data & 0x00E0 == 0
  {
  }

  /** The setter tests of the source, for every field: writing all ones
      into an empty word sets exactly the field's mask, writing zeros into a
      full word clears exactly the mask, and reading a full word gives the
      field's width. */
  lemma SettersOnOnesAndZeros(n: Fields.FieldName)
    ensures Fields.Set(Fields.FieldOf(n), 0x0000, 0xFF) == Fields.FieldOf(n).mask
    ensures Fields.Set(Fields.FieldOf(n), 0xFFFF, 0x00) == !Fields.FieldOf(n).mask
    ensures Fields.Get(Fields.FieldOf(n), 0xFFFF) == Fields.Width(Fields.FieldOf(n))
  {
    match n
    case CommandTerminalAddress =>
    case CommandTransmitReceive =>
    case CommandSubaddress =>
    case CommandModeCode =>
    case CommandWordCount =>
    case StatusTerminalAddress =>
    case StatusMessageError =>
    case StatusInstrumentation =>
    case StatusServiceRequest =>
    case StatusReservedBits =>
    case StatusBroadcastReceived =>
    case StatusTerminalBusy =>
    case StatusSubsystemFlag =>
    case StatusDynamicBusAccept =>
    case StatusTerminalFlag =>
  }

  /** Setting any reserved bit makes a status word invalid; the examples of
      the source's tests are an empty word (valid) and one with reserved
      bits 0b111 (invalid). */
  lemma ReservedDecidesValidity(s: StatusWord, v: byte)
    ensures IsValid(SetStatus(s, Fields.StatusReservedBits, v)) <==> v & 0x07 == 0
    ensures IsValid(StatusWord(0)) && !IsValid(SetStatus(StatusWord(0), Fields.StatusReservedBits, 0x07))
  {
    Fields.SetGet(Fields.StatusReservedBits, s.data, v);
    Fields.FieldsValid(Fields.StatusReservedBits);
  }
}
