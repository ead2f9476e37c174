/** The value word revision (src/word/word.rs): a command, status or data word
    stores its sixteen data bits as one `u16` next to a parity computed once,
    by `new`. Field setters rewrite the data only; the stored parity is not
    recomputed. The three structs share one layout, so one record serves all
    three; the kind-specific accessors take that record. */
module ValueWords {
  import opened Bits
  import opened Wrappers
  import Fields

  /** `CommandWord`, `StatusWord` or `DataWord`: `data` and `parity`. The
      `Parity` type is an odd-parity bit, held here as a byte that is 0 or 1. */
  datatype Word = Word(data: u16, parity: byte)

  /** `new(data)` for every kind: the data paired with its odd-parity bit. */
  function New(data: u16): (w: Word)
    ensures w.data == data
    ensures w.parity == 0 || w.parity == 1
    ensures (CountOnes(data) + w.parity as nat) % 2 == 1
  {
    Word(data, ParityBit(data))
  }

  /** The stored parity still belongs to the data. */
  predicate ParityMatches(w: Word) {
    w.parity == ParityBit(w.data)
  }

  /** `bytes()` for every kind: the high byte, then the low byte. */
  function Bytes(w: Word): (b: Bytes2)
    ensures FromBeBytes(b) == w.data
  {
    Bytes2((w.data >> 8) as byte, (w.data & 0xFF) as byte)
  }

  /** The bytes are those of `u16::to_be_bytes`, and reading them back
      gives the data: every word is determined by its bytes and parity. */
  lemma BytesRoundTrip(w: Word)
    ensures Bytes(w) == ToBeBytes(w.data)
    ensures Word(FromBeBytes(Bytes(w)), w.parity) == w
  {
  }

  /** The field read behind every accessor. */
  function GetField(w: Word, n: Fields.FieldName): byte {
    Fields.Get(Fields.FieldOf(n), w.data)
  }

  /** The field write behind every setter: only the data changes. */
  function SetField(w: Word, n: Fields.FieldName, v: byte): (r: Word)
    ensures r.parity == w.parity
  {
    w.(data := Fields.Set(Fields.FieldOf(n), w.data, v))
  }

  /** The field just written reads back the value cut to its width. */
  lemma SetFieldGet(w: Word, n: Fields.FieldName, v: byte)
    ensures GetField(SetField(w, n, v), n) == v & Fields.Width(Fields.FieldOf(n))
  {
    Fields.SetGet(n, w.data, v);
  }

  /** A field whose bits do not overlap the written one keeps its value. */
  lemma SetFieldOther(w: Word, n: Fields.FieldName, v: byte, k: Fields.FieldName)
    requires Fields.FieldOf(n).mask & Fields.FieldOf(k).mask == 0
    ensures GetField(SetField(w, n, v), k) == GetField(w, k)
  {
    Fields.DisjointSetGet(Fields.FieldOf(n), Fields.FieldOf(k), w.data, v);
  }

  /** A setter keeps every data bit outside its field's mask. */
  lemma SetFieldKeepsOthers(w: Word, n: Fields.FieldName, v: byte)
    ensures SetField(w, n, v).data & !Fields.FieldOf(n).mask == w.data & !Fields.FieldOf(n).mask
  {
    Fields.SetFrame(Fields.FieldOf(n), w.data, v);
  }

  /** Because setters leave the parity alone, a set field can leave a stale
      parity behind: setting the address of an empty command to 1 adds one
      data bit while the parity stays 1. */
  lemma SetterParityGoesStale()
    ensures ParityMatches(New(0))
    ensures !ParityMatches(SetField(New(0), Fields.CommandTerminalAddress, 1))
  {
    CountOnesSum(0);
    assert Fields.Set(Fields.CommandTerminalAddressField, 0, 1) == 0x0800;
    CountOnesSum(0x0800);
  }

  // ----- command words ----------------------------------------------------

  /** `CommandWord::subaddress`: data bits 9..5. */
  function Subaddress(w: Word): byte {
    GetField(w, Fields.CommandSubaddress)
  }

  /** `CommandWord::is_mode_code`: the subaddress is 0 or 31. */
  predicate IsModeCode(w: Word) {
    Subaddress(w) == 0 || Subaddress(w) == 31
  }

  /** `CommandWord::transmit_receive`: data bit 10. */
  function TransmitReceive(w: Word): byte {
    GetField(w, Fields.CommandTransmitReceive)
  }

  /** `CommandWord::is_transmit`: the T/R bit is 1. */
  predicate IsTransmit(w: Word) {
    TransmitReceive(w) == 1
  }

  /** `CommandWord::is_receive`: the T/R bit is 0. */
  predicate IsReceive(w: Word) {
    TransmitReceive(w) == 0
  }

  /** Exactly one direction holds. */
  lemma DirectionExclusive(w: Word)
    ensures IsTransmit(w) != IsReceive(w)
  {
    Fields.GetBound(Fields.CommandTransmitReceive, w.data);
    Fields.FieldsValid(Fields.CommandTransmitReceive);
  }

  /** `CommandWord::mode_code`: the low five bits, but only for a mode-code
      command. */
  function ModeCode(w: Word): (r: Option<byte>)
    ensures r.Some? <==> IsModeCode(w)
    ensures r.Some? ==> r.value <= 31
    ensures r.Some? ==> r.value == GetField(w, Fields.CommandModeCode)
  {
    Fields.GetBound(Fields.CommandModeCode, w.data);
    Fields.FieldsValid(Fields.CommandModeCode);
    if IsModeCode(w) then Some(GetField(w, Fields.CommandModeCode)) else None
  }

  /** `CommandWord::set_mode_code`: writes the low five bits of a mode-code
      command and does nothing to any other command. */
  function SetModeCode(w: Word, v: byte): (r: Word)
    ensures !IsModeCode(w) ==> r == w
    ensures r.parity == w.parity
  {
    if IsModeCode(w) then SetField(w, Fields.CommandModeCode, v) else w
  }

  /** `CommandWord::word_count`: nothing for a mode-code command, else the
      low five bits with 0 read as 32. */
  function WordCount(w: Word): (r: Option<byte>)
    ensures r.None? <==> IsModeCode(w)
    ensures r.Some? ==> 1 <= r.value <= 32
    ensures r.Some? ==> (r.value == 32 <==> GetField(w, Fields.CommandWordCount) == 0)
    ensures r.Some? && r.value < 32 ==> r.value == GetField(w, Fields.CommandWordCount)
  {
    Fields.GetBound(Fields.CommandWordCount, w.data);
    Fields.FieldsValid(Fields.CommandWordCount);
    if IsModeCode(w) then None
    else match GetField(w, Fields.CommandWordCount)
      case 0 => Some(32)
      case k => Some(k)
  }

  /** `CommandWord::set_word_count`: writes the low five bits unless the
      command is a mode code. */
  function SetWordCount(w: Word, v: byte): (r: Word)
    ensures IsModeCode(w) ==> r == w
    ensures r.parity == w.parity
  {
    if !IsModeCode(w) then SetField(w, Fields.CommandWordCount, v) else w
  }

  /** `CommandWord::count`: the word count, or 0 for a mode code. */
  function Count(w: Word): (c: nat)
    ensures c == 0 <==> IsModeCode(w)
    ensures c <= 32
  {
    WordCount(w).GetOr(0) as nat
  }

  /** The mode code and the word count share five bits, and the subaddress
      decides which one a command carries: exactly one of them is present. */
  lemma ModeCodeXorWordCount(w: Word)
    ensures ModeCode(w).Some? != WordCount(w).Some?
    ensures WordCount(w).None? ==> Count(w) == 0
    ensures WordCount(w).Some? ==> Count(w) == WordCount(w).value as nat
  {
  }

  /** Writing the mode code of a mode-code command keeps it a mode-code
      command and reads back the low five bits of the value. */
  lemma SetModeCodeGet(w: Word, v: byte)
    requires IsModeCode(w)
    ensures IsModeCode(SetModeCode(w, v))
    ensures ModeCode(SetModeCode(w, v)) == Some(v & 0x1F)
  {
    SetFieldGet(w, Fields.CommandModeCode, v);
    SetFieldOther(w, Fields.CommandModeCode, v, Fields.CommandSubaddress);
    Fields.FieldsValid(Fields.CommandModeCode);
  }

  /** Writing the word count of an ordinary command keeps it ordinary and
      reads back the low five bits of the value, 0 being read as 32. */
  lemma SetWordCountGet(w: Word, v: byte)
    requires !IsModeCode(w)
    ensures !IsModeCode(SetWordCount(w, v))
    ensures WordCount(SetWordCount(w, v)) == Some(if v & 0x1F == 0 then 32 else v & 0x1F)
  {
    SetFieldGet(w, Fields.CommandWordCount, v);
    SetFieldOther(w, Fields.CommandWordCount, v, Fields.CommandSubaddress);
    Fields.FieldsValid(Fields.CommandWordCount);
  }

  /** The examples of the source's tests: an empty command is a receive
      mode-code command with mode code 0; 0x001F has no word count, but after
      `set_subaddress(0b01010)` its word count is 31; the address setter on
      an empty word gives 0b1010100000000000 and the subaddress setter
      0b0000001010100000. */
  lemma CommandExamples()
    ensures IsReceive(New(0)) && ModeCode(New(0)) == Some(0)
    ensures WordCount(New(0x001F)).None?
    ensures WordCount(SetField(New(0x001F), Fields.CommandSubaddress, 0x0A)) == Some(31)
    ensures SetField(New(0), Fields.CommandTerminalAddress, 0x15).data == 0xA800
    ensures SetField(New(0), Fields.CommandSubaddress, 0x15).data == 0x02A0
    ensures IsTransmit(New(0x0400))
  {
    Fields.PlacedByShift(0x15, 11);
    Fields.PlacedByShift(0x15, 5);
    Fields.GetByShift(Fields.CommandTransmitReceiveField, 0);
    Fields.GetByShift(Fields.CommandTransmitReceiveField, 0x0400);
  }

  // ----- status words -----------------------------------------------------

  /** `StatusWord::reserved`: data bits 7..5. */
  function Reserved(w: Word): byte {
    GetField(w, Fields.StatusReservedBits)
  }

  /** `StatusWord::is_valid`: the reserved bits are all zero. */
  predicate IsValid(w: Word) {
    Reserved(w) == 0
  }

  /** `StatusWord::is_error`: the message error, subsystem flag or terminal
      flag is set. */
  predicate IsError(w: Word) {
    || GetField(w, Fields.StatusMessageError) != 0
    || GetField(w, Fields.StatusSubsystemFlag) != 0
    || GetField(w, Fields.StatusTerminalFlag) != 0
  }

  /** `StatusWord::is_busy`: the busy bit is set. */
  predicate IsBusy(w: Word) {
    GetField(w, Fields.StatusTerminalBusy) != 0
  }

  /** The status predicates in terms of data bits: valid iff bits 7..5 are
      clear, an error iff bit 10, 2 or 0 is set, busy iff bit 3 is set. */
  lemma StatusPredicates(w: Word)
    ensures IsValid(w) <==> w.data & 0x00E0 == 0
    ensures IsError(w) <==> w.data & 0x0405 != 0
    ensures IsBusy(w) <==> w.data & 0x0008 != 0
  {
    Fields.GetZero(Fields.StatusReservedBits, w.data);
    Fields.GetZero(Fields.StatusMessageError, w.data);
    Fields.GetZero(Fields.StatusSubsystemFlag, w.data);
    Fields.GetZero(Fields.StatusTerminalFlag, w.data);
    Fields.GetZero(Fields.StatusTerminalBusy, w.data);
  }

  /** Setting any reserved bit makes a status word invalid, as the source's
      test with `Reserved::Value(0b111)` shows; clearing them makes it
      valid again. */
  lemma ReservedDecidesValidity(w: Word, v: byte)
    ensures IsValid(SetField(w, Fields.StatusReservedBits, v)) <==> v & 0x07 == 0
  {
    SetFieldGet(w, Fields.StatusReservedBits, v);
    Fields.FieldsValid(Fields.StatusReservedBits);
  }

  /** The bytes example of the source's tests, the same for every kind. */
  lemma BytesExample()
    ensures Bytes(New(0x6869)) == Bytes2(0x68, 0x69)
  {
  }
}
