/** The byte-pair word revision (src/word/words.rs): a command, status or data
    word stores its sixteen data bits as two big-endian bytes next to a
    parity byte. Every way of replacing the data recomputes the parity; only
    `with_parity`/`set_parity` and `set_string` leave it alone. The three
    structs have identical layouts and identical `Word` impls, so one record
    serves all three; the kind-specific accessors take that record. */
module ByteWords {
  import opened Bits
  import opened Wrappers
  import opened Errors
  import Fields

  /** `CommandWord`, `StatusWord` or `DataWord`: `data` and `parity`. */
  datatype Word = Word(data: Bytes2, parity: byte)

  /** `Word::new`: zero data with parity 1. */
  function New(): Word {
    Word(Bytes2(0, 0), 1)
  }

  /** `as_value`: the two bytes read big-endian. */
  function AsValue(w: Word): u16 {
    FromBeBytes(w.data)
  }

  /** `as_bytes`. */
  function AsBytes(w: Word): Bytes2 {
    w.data
  }

  /** `calculate_parity`: the odd-parity bit of the data. */
  function CalculateParity(w: Word): byte {
    ParityBit(AsValue(w))
  }

  /** `check_parity`: the stored parity is the calculated one. */
  predicate CheckParity(w: Word) {
    w.parity == CalculateParity(w)
  }

  /** `set_value`/`with_value`: store the value big-endian and refresh the
      parity. */
  function WithValue(w: Word, v: u16): (r: Word)
    ensures AsValue(r) == v
    ensures CheckParity(r)
  {
    Word(ToBeBytes(v), ParityBit(v))
  }

  /** `set_bytes`/`with_bytes`: store the bytes and refresh the parity. */
  function WithBytes(w: Word, b: Bytes2): (r: Word)
    ensures AsBytes(r) == b
    ensures CheckParity(r)
  {
    Word(b, ParityBit(FromBeBytes(b)))
  }

  /** `set_parity`/`with_parity`: store any parity byte as given. */
  function WithParity(w: Word, p: byte): (r: Word)
    ensures r.data == w.data && r.parity == p
  {
    w.(parity := p)
  }

  /** `with_calculated_parity`. */
  function WithCalculatedParity(w: Word): (r: Word)
    ensures r.data == w.data
    ensures CheckParity(r)
  {
    w.(parity := CalculateParity(w))
  }

  /** `build`: the word when its parity checks, `WordIsInvalid` otherwise. */
  function Build(w: Word): (r: Result<Word, Error>)
    ensures r.Success? <==> CheckParity(w)
    ensures r.Success? ==> r.value == w
    ensures r.Failure? ==> r.error == WordIsInvalid
  {
    if CheckParity(w) then Success(w) else Failure(WordIsInvalid)
  }

  /** `CommandWord::from_value`: new, with the value, with the calculated
      parity (the last step repeats what `with_value` already did). */
  function CommandFromValue(v: u16): Word {
    WithCalculatedParity(WithValue(New(), v))
  }

  /** `StatusWord::from_value` and `DataWord::from_value`. */
  function FromValue(v: u16): Word {
    WithValue(New(), v)
  }

  /** `from_bytes`, for all three kinds. */
  function FromBytes(b: Bytes2): Word {
    WithBytes(New(), b)
  }

  /** `count_ones`: the ones among the sixteen data bits. The source casts
      the count to `u8`, which loses nothing since it is at most 16. */
  function CountOnesOf(w: Word): (c: nat)
    ensures c <= 16
    ensures CheckParity(w) ==> (c % 2 == 0 <==> w.parity == 1)
  {
    OnesBelowBound(AsValue(w), 16);
    CountOnes(AsValue(w))
  }

  /** A new word already has valid parity: zero ones, parity 1. */
  lemma NewIsValid()
    ensures CheckParity(New())
    ensures Build(New()) == Success(New())
  {
    CountOnesSum(0);
  }

  /** Storing a value and reading it back is the identity both ways, the
      bytes are the big-endian bytes of the value, and every kind's
      `from_value` yields a word that builds. */
  lemma ValueRoundTrip(v: u16, w: Word)
    ensures AsValue(FromValue(v)) == v && AsValue(CommandFromValue(v)) == v
    ensures AsBytes(FromValue(v)) == ToBeBytes(v)
    ensures FromValue(v) == CommandFromValue(v)
    ensures Build(FromValue(v)).Success?
    ensures WithValue(w, AsValue(w)).data == w.data
  {
    BytesRoundTrip(w.data);
  }

  /** `from_bytes` keeps the bytes, and its value is their big-endian
      reading. */
  lemma BytesRoundTrip2(b: Bytes2)
    ensures AsBytes(FromBytes(b)) == b
    ensures AsValue(FromBytes(b)) == FromBeBytes(b)
    ensures FromBytes(b) == FromValue(FromBeBytes(b))
  {
    BytesRoundTrip(b);
  }

  /** The parity examples of the source's tests: 0b101010 has three ones and
      parity 0, 0b10101010 has four and parity 1. */
  lemma ParityExamples()
    ensures FromValue(0x002A).parity == 0
    ensures FromValue(0x00AA).parity == 1
    ensures CommandFromValue(0x002A).parity == 0
  {
    CountOnesSum(0x002A);
    CountOnesSum(0x00AA);
  }

  /** A stored parity that disagrees with the data is caught: after any
      single data bit flips in transit, the stored parity no longer checks. */
  lemma SingleBitErrorCaught(w: Word, i: u16)
    requires i < 16
    requires CheckParity(w)
    ensures !CheckParity(Word(ToBeBytes(FlipBit(AsValue(w), i)), w.parity))
  {
    SingleDataBitErrorDetected(AsValue(w), i);
  }

  // ----- fields -----------------------------------------------------------

  /** The word-level field read used by every accessor: the named field of
      the data value (`COMMAND_ADDRESS_FIELD.get(self)` and the like). */
  function GetField(w: Word, n: Fields.FieldName): byte {
    Fields.Get(Fields.FieldOf(n), AsValue(w))
  }

  /** The word-level field write used by every setter: rewrite the field's
      bits of the data value and store the result with `set_value`, which
      refreshes the parity. */
  function SetField(w: Word, n: Fields.FieldName, v: byte): (r: Word)
    ensures CheckParity(r)
  {
    WithValue(w, Fields.Set(Fields.FieldOf(n), AsValue(w), v))
  }

  /** A setter keeps every data bit outside its field's mask. */
  lemma SetFieldKeepsOthers(w: Word, n: Fields.FieldName, v: byte)
    ensures AsValue(SetField(w, n, v)) & !Fields.FieldOf(n).mask
            == AsValue(w) & !Fields.FieldOf(n).mask
  {
    Fields.SetFrame(Fields.FieldOf(n), AsValue(w), v);
  }

  /** The field just written reads back the value cut to its width. */
  lemma SetFieldGet(w: Word, n: Fields.FieldName, v: byte)
    ensures GetField(SetField(w, n, v), n) == v & Fields.Width(Fields.FieldOf(n))
  {
    Fields.SetGet(n, AsValue(w), v);
  }

  /** A field whose bits do not overlap the written one keeps its value. */
  lemma SetFieldOther(w: Word, n: Fields.FieldName, v: byte, k: Fields.FieldName)
    requires Fields.FieldOf(n).mask & Fields.FieldOf(k).mask == 0
    ensures GetField(SetField(w, n, v), k) == GetField(w, k)
  {
    Fields.DisjointSetGet(Fields.FieldOf(n), Fields.FieldOf(k), AsValue(w), v);
  }

  /** Writing a field with the value it holds leaves the word's data as it
      was, and a second write of the same field overrides the first. */
  lemma SetFieldIdempotent(w: Word, n: Fields.FieldName, a: byte, b: byte)
    ensures SetField(w, n, GetField(w, n)).data == w.data
    ensures SetField(SetField(w, n, a), n, b) == SetField(w, n, b)
  {
    Fields.GetSet(n, AsValue(w));
    BytesRoundTrip(w.data);
    Fields.SetSet(Fields.FieldOf(n), AsValue(w), a, b);
  }

  // ----- command words ----------------------------------------------------

  /** `CommandWord::address`: data bits 15..11. */
  function CommandAddress(w: Word): byte {
    GetField(w, Fields.CommandTerminalAddress)
  }

  /** `CommandWord::subaddress`: data bits 9..5. */
  function Subaddress(w: Word): byte {
    GetField(w, Fields.CommandSubaddress)
  }

  /** `CommandWord::transmit_receive`: data bit 10. */
  function TransmitReceive(w: Word): byte {
    GetField(w, Fields.CommandTransmitReceive)
  }

  /** `CommandWord::mode_code`: data bits 4..0, read whatever the
      subaddress. */
  function ModeCode(w: Word): byte {
    GetField(w, Fields.CommandModeCode)
  }

  /** `CommandWord::word_count`: a field of 0 means 32 words; the subaddress
      is not consulted, so a mode-code command has a word count too. */
  function WordCount(w: Word): (c: byte)
    ensures 1 <= c <= 32
    ensures c == 32 <==> GetField(w, Fields.CommandWordCount) == 0
    ensures c < 32 ==> c == GetField(w, Fields.CommandWordCount)
  {
    Fields.GetBound(Fields.CommandWordCount, AsValue(w));
    Fields.FieldsValid(Fields.CommandWordCount);
    match GetField(w, Fields.CommandWordCount)
    case 0 => 32
    case k => k
  }

  /** `CommandWord::count`: the word count, widened. */
  function Count(w: Word): (c: nat)
    ensures 1 <= c <= 32
    ensures c == WordCount(w) as nat
  {
    WordCount(w) as nat
  }

  /** `CommandWord::is_mode_code`: the subaddress is 0 or 31. */
  predicate IsModeCode(w: Word) {
    Subaddress(w) == 0 || Subaddress(w) == 31
  }

  /** `CommandWord::is_transmit`: the T/R bit is 1. */
  predicate IsTransmit(w: Word) {
    TransmitReceive(w) == 1
  }

  /** `CommandWord::is_receive`: the T/R bit is 0. */
  predicate IsReceive(w: Word) {
    TransmitReceive(w) == 0
  }

  /** The T/R bit is one bit, so exactly one direction holds. */
  lemma DirectionExclusive(w: Word)
    ensures IsTransmit(w) != IsReceive(w)
  {
    Fields.GetBound(Fields.CommandTransmitReceive, AsValue(w));
    Fields.FieldsValid(Fields.CommandTransmitReceive);
  }

  /** `set_word_count` followed by `word_count`: 32 for a written 0, the
      value for 1 .. 31, whatever the subaddress; only the low five bits of
      the written value count. */
  lemma WordCountAfterSet(w: Word, v: byte)
    ensures WordCount(SetField(w, Fields.CommandWordCount, v))
            == if v & 0x1F == 0 then 32 else v & 0x1F
    ensures Subaddress(SetField(w, Fields.CommandWordCount, v)) == Subaddress(w)
  {
    SetFieldGet(w, Fields.CommandWordCount, v);
    SetFieldOther(w, Fields.CommandWordCount, v, Fields.CommandSubaddress);
    Fields.FieldsValid(Fields.CommandWordCount);
  }

  /** The examples of the source's tests: `set_address(0b10101)` on a new
      word gives 0b1010100000000000, `set_subaddress(0b10101)` gives
      0b0000001010100000, a new command is a receive mode-code command
      with word count 32, and `set_word_count(5)` reads back 5. */
  lemma CommandExamples()
    ensures AsValue(SetField(New(), Fields.CommandTerminalAddress, 0x15)) == 0xA800
    ensures AsValue(SetField(New(), Fields.CommandSubaddress, 0x15)) == 0x02A0
    ensures IsModeCode(New()) && IsReceive(New()) && WordCount(New()) == 32
    ensures WordCount(SetField(New(), Fields.CommandWordCount, 5)) == 5
    ensures !IsModeCode(SetField(New(), Fields.CommandSubaddress, 0x0A))
  {
    WordCountAfterSet(New(), 5);
  }

  /** Setting a field refreshes the parity, as the source's test shows:
      0b101010 has parity 0; after `set_address(1)` the parity is 1. */
  lemma ParityRefreshExample()
    ensures CommandFromValue(0x002A).parity == 0
    ensures SetField(CommandFromValue(0x002A), Fields.CommandTerminalAddress, 1).parity == 1
  {
    ParityExamples();
    ValueRoundTrip(0x002A, New());
    assert Fields.Set(Fields.CommandTerminalAddressField, 0x002A, 1) == 0x082A;
    CountOnesSum(0x082A);
  }

  // ----- status words -----------------------------------------------------

  /** `StatusWord::is_error`: the message error, subsystem flag or terminal
      flag bit is set. */
  predicate IsError(w: Word) {
    || GetField(w, Fields.StatusMessageError) != 0
    || GetField(w, Fields.StatusSubsystemFlag) != 0
    || GetField(w, Fields.StatusTerminalFlag) != 0
  }

  /** `StatusWord::is_busy`: the busy bit is set. */
  predicate IsBusy(w: Word) {
    GetField(w, Fields.StatusTerminalBusy) != 0
  }

  /** The error and busy predicates read single data bits: bit 10, 2 or 0
      for an error and bit 3 for busy. */
  lemma StatusFlagsAreBits(w: Word)
    ensures IsError(w) <==> AsValue(w) & 0x0405 != 0
    ensures IsBusy(w) <==> AsValue(w) & 0x0008 != 0
  {
  }

  // ----- data words -------------------------------------------------------

  /** The two bytes form a complete UTF-8 text: two ASCII characters or one
      two-byte character (RFC 3629, section 4). */
  predicate IsUtf8(b: Bytes2) {
    || (b.hi < 0x80 && b.lo < 0x80)
    || (0xC2 <= b.hi <= 0xDF && 0x80 <= b.lo <= 0xBF)
  }

  /** `DataWord::set_string`: the UTF-8 bytes of the text become the data
      when there are exactly two of them; the parity is not refreshed. */
  function SetString(w: Word, s: seq<byte>): (r: Result<Word, Error>)
    ensures r.Success? <==> |s| == 2
    ensures r.Success? ==> r.value == Word(Bytes2(s[0], s[1]), w.parity)
    ensures r.Failure? ==> r.error == StringIsInvalid
  {
    if |s| == 2 then Success(w.(data := Bytes2(s[0], s[1]))) else Failure(StringIsInvalid)
  }

  /** `DataWord::as_string`: the two data bytes as text, or `StringIsInvalid`
      when they are not UTF-8. */
  function AsString(w: Word): (r: Result<seq<byte>, Error>)
    ensures r.Success? <==> IsUtf8(w.data)
    ensures r.Success? ==> r.value == [w.data.hi, w.data.lo]
    ensures r.Failure? ==> r.error == StringIsInvalid
  {
    if IsUtf8(w.data) then Success([w.data.hi, w.data.lo]) else Failure(StringIsInvalid)
  }

  /** `DataWord::try_from(&str)`: a new word with the text, then the
      calculated parity. */
  function DataFromString(s: seq<byte>): (r: Result<Word, Error>)
    ensures r.Success? <==> |s| == 2
    ensures r.Success? ==> CheckParity(r.value) && AsBytes(r.value) == Bytes2(s[0], s[1])
  {
    var w :- SetString(New(), s);
    Success(WithCalculatedParity(w))
  }

  /** Text and word round trip: a two-byte UTF-8 text stored with
      `set_string` reads back unchanged, and a word whose bytes are UTF-8
      gives back its bytes when its text is stored again. */
  lemma StringRoundTrip(w: Word, s: seq<byte>)
    ensures |s| == 2 && IsUtf8(Bytes2(s[0], s[1])) ==> AsString(SetString(w, s).value) == Success(s)
    ensures IsUtf8(w.data) ==> SetString(w, AsString(w).value) == Success(w)
  {
    if |s| == 2 {
      assert s == [s[0], s[1]];
    }
  }

  /** The source's example: the bytes of "HI" are 0x48 0x49, value
      0b0100100001001001, parity 0. */
  lemma StringExample()
    ensures DataFromString([0x48, 0x49]).Success?
    ensures AsValue(DataFromString([0x48, 0x49]).value) == 0x4849
    ensures DataFromString([0x48, 0x49]).value.parity == 0
    ensures AsString(DataFromString([0x48, 0x49]).value) == Success([0x48, 0x49])
  {
    CountOnesSum(0x4849);
  }
}
