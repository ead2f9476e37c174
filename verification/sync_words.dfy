/** The read-only word revision (src/word.rs): a command, status or data word
    holds the sync pattern, the sixteen data bits and the parity bit it was
    received with, and exposes decoders for the command and status fields.
    The three structs share one layout, so one record serves all three. */
module SyncWords {
  import opened Bits
  import Fields
  import PlainWords

  /** `CommandWord`, `StatusWord` or `DataWord`; the `Word` trait's `sync`,
      `data` and `parity` accessors are the record's fields. */
  datatype Word = Word(sync: byte, data: u16, parity: byte)

  /** The `Address` this revision decodes into. */
  datatype Address = Terminal(terminal: byte) | Subsystem(subsystem: byte)

  function Get(w: Word, n: Fields.FieldName): byte {
    Fields.Get(Fields.FieldOf(n), w.data)
  }

  // ----- command words ----------------------------------------------------

  /** `CommandWord::address`: data bits 15..11. */
  function CommandAddress(w: Word): (a: Address)
    ensures a.Terminal? && a.terminal as u16 == w.data >> 11
  {
    Terminal(Get(w, Fields.CommandTerminalAddress))
  }

  /** `CommandWord::subaddress`: data bits 9..5, always as a subsystem, with
      no special case for the mode-code values 0 and 31. */
  function Subaddress(w: Word): (a: Address)
    ensures a.Subsystem? && a.subsystem as u16 == (w.data >> 5) & 0x1F
  {
    Subsystem(Get(w, Fields.CommandSubaddress))
  }

  /** Where the oldest revision reads a subaddress of 31 as a mode code with
      no address, this one still reports subsystem 31. */
  lemma SubaddressDiffersFromPlain()
    ensures Subaddress(Word(0, 0x03E0, 0)) == Subsystem(31)
    ensures PlainWords.Subaddress(PlainWords.CommandWord(0x03E0)) == PlainWords.NoAddress
  {
  }

  // ----- status words -----------------------------------------------------

  /** `StatusWord::address`: data bits 15..11. */
  function StatusAddress(w: Word): (a: Address)
    ensures a.Terminal? && a.terminal as u16 == w.data >> 11
  {
    Terminal(Get(w, Fields.StatusTerminalAddress))
  }

  /** `StatusWord::error`: the message error bit, 10. */
  function MessageError(w: Word): (r: byte)
    ensures r as u16 == (w.data >> 10) & 1
  {
    Get(w, Fields.StatusMessageError)
  }

  /** `StatusWord::instrumentation`: bit 9. */
  function Instrumentation(w: Word): (r: byte)
    ensures r as u16 == (w.data >> 9) & 1
  {
    Get(w, Fields.StatusInstrumentation)
  }

  /** `StatusWord::service`: bit 8. */
  function ServiceRequest(w: Word): (r: byte)
    ensures r as u16 == (w.data >> 8) & 1
  {
    Get(w, Fields.StatusServiceRequest)
  }

  /** `StatusWord::reserved`: bits 7..5. */
  function Reserved(w: Word): (r: byte)
    ensures r as u16 == (w.data >> 5) & 0x7
  {
    Get(w, Fields.StatusReservedBits)
  }

  /** `StatusWord::received`: the broadcast-received bit, 4. */
  function BroadcastReceived(w: Word): (r: byte)
    ensures r as u16 == (w.data >> 4) & 1
  {
    Get(w, Fields.StatusBroadcastReceived)
  }

  /** `StatusWord::is_busy`: bit 3 is set. */
  predicate IsBusy(w: Word) {
    Get(w, Fields.StatusTerminalBusy) > 0
  }

  /** `StatusWord::subsystem`: the subsystem flag, bit 2, as 0 or 1. */
  function SubsystemFlag(w: Word): (r: byte)
    ensures r as u16 == (w.data >> 2) & 1
  {
    Get(w, Fields.StatusSubsystemFlag)
  }

  /** `StatusWord::acceptance`: bit 1 is set. */
  predicate Acceptance(w: Word) {
    Get(w, Fields.StatusDynamicBusAccept) > 0
  }

  /** `StatusWord::terminal`: the terminal flag, bit 0, as 0 or 1. */
  function TerminalFlag(w: Word): (r: byte)
    ensures r as u16 == w.data & 1
  {
    Get(w, Fields.StatusTerminalFlag)
  }

  /** The two boolean decoders test single data bits. */
  lemma FlagsAreBits(w: Word)
    ensures IsBusy(w) <==> w.data & 0x0008 != 0
    ensures Acceptance(w) <==> w.data & 0x0002 != 0
  {
  }

  /** The one-bit decoders answer 0 or 1. */
  lemma FlagsAreZeroOrOne(w: Word)
    ensures MessageError(w) <= 1 && Instrumentation(w) <= 1 && ServiceRequest(w) <= 1
    ensures BroadcastReceived(w) <= 1 && SubsystemFlag(w) <= 1 && TerminalFlag(w) <= 1
    ensures Reserved(w) <= 7
  {
  }
}
