# MIL-STD-1553B word codec and message framing, in Dafny

This project models the core of the `mil_std_1553b` Rust crate. MIL-STD-1553B is a serial
avionics bus. Every word on the bus is a 3-bit sync pattern, 16 data bits and one odd-parity
bit. A command word addresses a remote terminal, and a status word answers it. Data words carry
the payload. Word formats follow section 4.3.3.5 of MIL-STD-1553B.

The crate holds several revisions of the same ideas side by side, and they disagree with each
other. For example, one revision's word count ignores mode codes while another's has none for
them, and one revision's setters refresh the parity while another's leave it alone. Each source
file is therefore one Dafny module, and the revisions are kept apart.

| module | source file | what it holds |
|---|---|---|
| `Bits` | (shared) | the byte and `u16` types, popcount, the odd-parity bit, big-endian byte pairs |
| `Wrappers`, `Errors` | src/errors.rs | `Option`, `Result` and the crate's error kinds |
| `Fields` | src/fields.rs | `Field::new/get/set` and the command and status field table |
| `Constants` | src/constants.rs | the older table of masks with hand-written offsets, and the sync patterns |
| `ByteWords` | src/word/words.rs | words stored as two bytes plus parity; every data write refreshes the parity |
| `ValueWords` | src/word/word.rs | words stored as a `u16` plus the parity computed by `new`; setters keep the stale parity |
| `PlainWords` | src/words.rs | the oldest words: bare `u16`s with `combine`, `Address` decoding and typed constructors |
| `SyncWords` | src/word.rs | read-only words holding sync, data and parity, with field decoders |
| `WordTypes` | src/word/enums.rs | the `WordType` container (none, command, status or data) |
| `Packets` | src/message/packets.rs | sync- and parity-tagged packets and their conversion into words |
| `LegacyPackets` | src/packets.rs | the older packet |
| `Parse` | src/message/parse.rs | extraction of (sync, word, parity) from a 20-bit window in three bytes |
| `FixedArray` | src/message/array.rs | the fixed-capacity `Array<T, S>` with a movable limit |
| `Messages` | src/message/messages.rs | the message builder: a header word first, then data words capped by the command |
| `LimitedMessage` | src/message/message.rs | the live part of the later message: up to `limit` words of any kind |

Conventions:
- Bit-level values are `bv8`/`bv16`, so the source's `u8`/`u16` arithmetic is modelled exactly.
- Counts are `nat`. They never exceed 33, so the source's `usize`/`u8` counters cannot wrap.
- Mutating methods (`set_*`, `push`, `add_*`, `clear`) are pure functions that return the new
  value.
- Operations that can fail return `Result`/`Option` with the source's error kinds.
- A message's `word_count()` is the `count` field of the model's `Message`.

## Model

| member | source | states |
|---|---|---|
| Bits.ParityBit | src/word/macros.rs:84-89 | the parity bit is 0 or 1 and makes the ones of data plus parity odd, i.e. it is 1 exactly when the data has an even number of ones |
| Bits.PairParity | src/message/packets.rs:10-23 | the parity of two bytes counted separately equals the odd-parity bit of the big-endian word they form |
| Bits.ToBeBytes | src/word/words.rs:953-956 | `to_be_bytes` is undone by the big-endian reading: `from(to_be_bytes(v)) == v` |
| Bits.BytesRoundTrip | src/word/words.rs:945-951 | the other round trip: two bytes read as a `u16` and split again are the same two bytes |
| Bits.SingleDataBitErrorDetected | src/word/words.rs:975-981 | flipping any one of the 16 data bits changes the odd-parity bit, so any single-bit error is caught |
| Bits.CountOnesSplit | src/message/packets.rs:10-15 | the ones of a word are the ones of its high byte plus those of its low byte |
| Fields.TrailingZeros | src/fields.rs:17-22 | the computed offset is the position of the mask's lowest one bit (16 for a zero mask); shifting down and up again loses no bit of the mask |
| Fields.New | src/fields.rs:17-22 | `Field::new` keeps the mask and sets the offset to its trailing-zero count |
| Fields.NewFieldLaws | src/fields.rs:3-33 | `Field::new` on a non-empty mask at most eight bits wide above its lowest one bit gives a valid field; on it `get` after `set` returns the value cut to the field's width, and `set` of what `get` read leaves the data unchanged |
| Fields.SetFrame | src/fields.rs:30-33 | `set` leaves every bit outside the mask unchanged and writes the shifted value into the mask's bits |
| Fields.SetSet | src/fields.rs:30-33 | a second `set` of the same field overrides the first |
| Fields.DisjointSetGet | src/fields.rs:25-33 | writing one field does not change what a field with a disjoint mask reads |
| Fields.DisjointSetsCommute | src/fields.rs:30-33 | writes to fields with disjoint masks commute |
| Fields.FieldsAreNew | src/fields.rs:40-127 | every field constant of the crate is exactly what `Field::new` builds from its mask |
| Fields.FieldsValid | src/fields.rs:40-127 | every crate field is valid; addresses, subaddress, mode code and word count are 5 bits, the reserved field 3 bits, the rest 1 bit |
| Fields.GetBoundLaw | src/fields.rs:25-27 | for any field with an offset below 16, `get` never returns a bit outside the field's width |
| Fields.GetSetLaw | src/fields.rs:25-33 | for any valid field (non-empty mask, at most eight bits above its offset, no bit below it), `set` of what `get` read leaves the data unchanged |
| Fields.SetGetLaw | src/fields.rs:25-33 | for any field with an offset below 16, `get` after `set` returns the value just written cut to the field's width (`v & (mask >> offset)`) |
| Fields.GetZeroLaw | src/fields.rs:25-27 | for any valid field, `get` is zero exactly when none of the mask bits is set in the data |
| Fields.CommandFieldsPartition | src/fields.rs:40-67 | address, T/R, subaddress and word-count masks are pairwise disjoint and cover all 16 bits; mode code and word count share one mask |
| Fields.StatusFieldsPartition | src/fields.rs:70-127 | the ten status masks are pairwise disjoint and cover all 16 bits |
| Constants.TablesAgree | src/constants.rs:48-213 | the older table has the same mask and offset as the newer table for every field |
| Constants.OffsetsAreTrailingZeros | src/constants.rs:48-213 | every hand-written offset equals the trailing-zero count of its mask |
| Constants.FieldWidths | src/constants.rs:38-213 | addresses, subaddress, mode code and word count are 5 bits wide, reserved 3 bits, every other field 1 bit |
| Constants.CommandFieldsPartition | src/constants.rs:48-96 | the command masks partition the 16 data bits, with mode code and word count sharing one field |
| Constants.StatusFieldsPartition | src/constants.rs:107-213 | the ten status masks are pairwise disjoint and cover the 16 data bits |
| Constants.SyncPatterns | src/constants.rs:27-30 | the two sync patterns differ, each has three ones, they share no bit, and the service pattern is the data pattern shifted up by three |
| ByteWords.WithValue | src/word/words.rs:907-910 | the stored value reads back, and the parity checks afterwards |
| ByteWords.WithBytes | src/word/words.rs:912-915 | the stored bytes read back, and the parity checks afterwards |
| ByteWords.WithParity | src/word/words.rs:917-920 | any parity byte is stored as given and the data is untouched |
| ByteWords.WithCalculatedParity | src/word/words.rs:922-925 | the data is untouched and the parity checks afterwards |
| ByteWords.Build | src/word/words.rs:927-933 | `Ok(self)` exactly when the stored parity equals the calculated one, else `WordIsInvalid` |
| ByteWords.CountOnesOf | src/word/words.rs:963-965 | at most 16 ones, and for a word whose parity checks the count is even exactly when the parity is 1 |
| ByteWords.NewIsValid | src/word/words.rs:900-905 | a new word (data `[0,0]`, parity 1) already passes `check_parity` and `build` |
| ByteWords.ValueRoundTrip | src/word/words.rs:935-956 | `from_value(v)` reads back `v` with big-endian bytes, builds, and the command and data `from_value` agree |
| ByteWords.BytesRoundTrip2 | src/word/words.rs:941-958 | `from_bytes(b)` keeps `b`, and is the same word as `from_value` of their big-endian value |
| ByteWords.ParityExamples | src/word/words.rs:1474-1495 | 0b101010 gets parity 0 and 0b10101010 parity 1 |
| ByteWords.SingleBitErrorCaught | src/word/words.rs:975-981 | a valid word with one data bit flipped in transit no longer passes `check_parity` |
| ByteWords.SetField | src/word/words.rs:953-956 | every field setter re-establishes valid parity |
| ByteWords.SetFieldKeepsOthers | src/word/words.rs:1441-1457 | a field setter changes no data bit outside its field |
| ByteWords.SetFieldGet | src/word/words.rs:1503-1533 | a field reads back the value just set, cut to the field's width |
| ByteWords.SetFieldOther | src/word/words.rs:1503-1533 | setting a field leaves every field with a disjoint mask reading as before |
| ByteWords.SetFieldIdempotent | src/word/words.rs:1441-1457 | writing back a field's own value keeps the data, and a second write overrides the first |
| ByteWords.WordCount | src/word/words.rs:341-346 | the word count is 1..32, and 32 exactly when the 5-bit field is 0, whatever the subaddress |
| ByteWords.Count | src/word/words.rs:404-406 | `count()` is `word_count()` widened, so between 1 and 32 |
| ByteWords.DirectionExclusive | src/word/words.rs:389-400 | exactly one of `is_transmit` and `is_receive` holds |
| ByteWords.WordCountAfterSet | src/word/words.rs:1553-1560 | after `set_word_count(v)` the word count is the low five bits of `v`, or 32 for 0, and the subaddress is unchanged |
| ByteWords.CommandExamples | src/word/words.rs:1503-1533 | the test vectors: address 0b10101 gives 0b1010100000000000, subaddress 0b10101 gives 0b0000001010100000, word count 5 reads back |
| ByteWords.ParityRefreshExample | src/word/words.rs:1441-1457 | setting the address of 0b101010 to 1 changes its parity from 0 to 1 |
| ByteWords.StatusFlagsAreBits | src/word/words.rs:842-856 | `is_error` holds exactly when bit 10, 2 or 0 is set, and `is_busy` exactly when bit 3 is set |
| ByteWords.SetString | src/word/words.rs:884-887 | succeeds exactly for a two-byte text, which becomes the data, and leaves the parity alone; otherwise `StringIsInvalid` |
| ByteWords.AsString | src/word/words.rs:1180-1187 | succeeds exactly when the two bytes are UTF-8 and gives them back; otherwise `StringIsInvalid` |
| ByteWords.DataFromString | src/word/words.rs:1170-1178 | a two-byte text becomes a data word with those bytes and valid parity |
| ByteWords.StringRoundTrip | src/word/words.rs:1367-1404 | UTF-8 text stored with `set_string` reads back unchanged, and a UTF-8 word stores back to itself |
| ByteWords.StringExample | src/word/words.rs:1367-1379 | "HI" is 0x4849 with parity 0 and reads back as "HI" |
| ValueWords.New | src/word/word.rs:42-47 | `new(data)` keeps the data and pairs it with its odd-parity bit |
| ValueWords.Bytes | src/word/word.rs:180-185 | `bytes()` is the high byte then the low byte, and reads back as the data |
| ValueWords.BytesRoundTrip | src/word/word.rs:180-185 | `bytes()` is `to_be_bytes`, and a word is recovered from its bytes and parity |
| ValueWords.SetField | src/word/word.rs:61-63 | a setter keeps the stored parity |
| ValueWords.SetFieldGet | src/word/word.rs:451-476 | a field reads back the value just set, cut to its width |
| ValueWords.SetFieldOther | src/word/word.rs:61-100 | setting a field keeps every field with a disjoint mask |
| ValueWords.SetFieldKeepsOthers | src/word/word.rs:61-63 | a setter changes no data bit outside its field |
| ValueWords.SetterParityGoesStale | src/word/word.rs:61-63 | after a setter, the stored parity can disagree with the data: address 1 on an empty command |
| ValueWords.DirectionExclusive | src/word/word.rs:162-172 | exactly one of `is_transmit` and `is_receive` holds |
| ValueWords.ModeCode | src/word/word.rs:106-112 | `Some` exactly for a mode-code command (subaddress 0 or 31), holding the 5-bit mode-code field |
| ValueWords.SetModeCode | src/word/word.rs:118-122 | a no-op unless the command is a mode code; never touches the parity |
| ValueWords.WordCount | src/word/word.rs:129-138 | `None` exactly for a mode code; otherwise 1..32: 32 exactly when the word-count field is 0, and the field's value below 32 |
| ValueWords.SetWordCount | src/word/word.rs:144-148 | a no-op on a mode-code command; never touches the parity |
| ValueWords.Count | src/word/word.rs:175-177 | `count()` is 0 exactly for a mode code, and at most 32 |
| ValueWords.ModeCodeXorWordCount | src/word/word.rs:106-177 | exactly one of mode code and word count is present, and `count()` is the word count or 0 |
| ValueWords.SetModeCodeGet | src/word/word.rs:118-122 | on a mode-code command, the mode code written reads back as its low five bits |
| ValueWords.SetWordCountGet | src/word/word.rs:144-148 | on an ordinary command, the written word count reads back as its low five bits, 0 as 32 |
| ValueWords.CommandExamples | src/word/word.rs:494-565 | the test vectors for mode code, word count, address, subaddress and direction |
| ValueWords.StatusPredicates | src/word/word.rs:376-396 | valid exactly when bits 7..5 are clear, error exactly when bit 10, 2 or 0 is set, busy exactly when bit 3 is set |
| ValueWords.ReservedDecidesValidity | src/word/word.rs:628-634 | a status word is valid after setting its reserved bits exactly when their low three bits are 0 |
| ValueWords.BytesExample | src/word/word.rs:747-766 | 0x6869 gives the bytes `[0x68, 0x69]` |
| PlainWords.CombineAgrees | src/words.rs:114-117 | joining with `\|` and with `+` agree with the big-endian reading, and the bytes split back out |
| PlainWords.CommandOf | src/words.rs:44-46 | `Word::command` holds a command whose data is the big-endian value of the bytes |
| PlainWords.StatusOf | src/words.rs:48-50 | `Word::status` holds a status word with the big-endian value of the bytes |
| PlainWords.DataOf | src/words.rs:52-54 | `Word::data` holds a data word with the big-endian value of the bytes |
| PlainWords.ExactlyOneKind | src/words.rs:77-105 | of `is_none`, `is_command`, `is_status` and `is_data`, exactly one holds for every word |
| PlainWords.CommandAddress | src/words.rs:120-123 | the address is always a terminal address, equal to data bits 15..11 (`data >> 11`), so at most 31 |
| PlainWords.Subaddress | src/words.rs:129-143 | field 0 or 31 decodes to no address (a mode code); any other value to that subsystem; never a terminal |
| PlainWords.ModeCode | src/words.rs:150-158 | succeeds exactly for a mode-code command with its 5-bit code, else `NotModeCode` |
| PlainWords.WordCount | src/words.rs:166-171 | 1..32, and 32 exactly when the field is 0 |
| PlainWords.DirectionExclusive | src/words.rs:173-179 | exactly one of `is_receive` and `is_transmit` holds |
| PlainWords.ModeCodeCommand | src/words.rs:56-61 | accepts exactly the bytes that form a mode-code command, else `MessageBad` |
| PlainWords.TransmitCommand | src/words.rs:63-68 | accepts exactly the bytes that form a transmit command, else `MessageBad` |
| PlainWords.ReceiveCommand | src/words.rs:70-75 | accepts exactly the bytes that form a receive command, else `MessageBad` |
| PlainWords.DirectionConstructorsSplit | src/words.rs:63-75 | every byte pair is accepted by exactly one of the transmit and receive constructors |
| PlainWords.SubaddressExamples | src/words.rs:651-670 | the test vectors: 0 and 31 decode to no address, 0b10101 to subsystem 0b10101 |
| PlainWords.StatusAddress | src/words.rs:244-247 | the status address is always a terminal address, equal to data bits 15..11 (`data >> 11`), so at most 31 |
| PlainWords.StatusPredicates | src/words.rs:255-269 | busy exactly when bit 3 is set, valid exactly when bits 7..5 are clear |
| PlainWords.SettersOnOnesAndZeros | src/words.rs:427-634 | for every field, all ones into an empty word set exactly its mask, zeros into a full word clear exactly its mask, and a full word reads back the width |
| PlainWords.ReservedDecidesValidity | src/words.rs:672-683 | a status word is valid after setting its reserved bits exactly when their low three bits are 0 |
| SyncWords.CommandAddress | src/word.rs:38-40 | the command address is data bits 15..11 |
| SyncWords.Subaddress | src/word.rs:42-44 | the subaddress is data bits 9..5, always as a subsystem, with no mode-code case |
| SyncWords.SubaddressDiffersFromPlain | src/word.rs:42-44 | subaddress 31 is subsystem 31 here but no address in the oldest revision |
| SyncWords.StatusAddress | src/word.rs:50-52 | the status address is data bits 15..11 |
| SyncWords.MessageError | src/word.rs:54-56 | the message error is data bit 10 |
| SyncWords.Instrumentation | src/word.rs:58-60 | instrumentation is data bit 9 |
| SyncWords.ServiceRequest | src/word.rs:62-64 | service request is data bit 8 |
| SyncWords.Reserved | src/word.rs:66-68 | the reserved value is data bits 7..5 |
| SyncWords.BroadcastReceived | src/word.rs:70-72 | broadcast received is data bit 4 |
| SyncWords.SubsystemFlag | src/word.rs:78-80 | the subsystem flag is data bit 2, as 0 or 1 |
| SyncWords.TerminalFlag | src/word.rs:86-88 | the terminal flag is data bit 0, as 0 or 1 |
| SyncWords.FlagsAreBits | src/word.rs:74-84 | busy exactly when bit 3 is set, acceptance exactly when bit 1 is set |
| SyncWords.FlagsAreZeroOrOne | src/word.rs:54-88 | the one-bit decoders (error, instrumentation, service, received, `subsystem`, `terminal`) answer 0 or 1, and `reserved` at most 7 |
| WordTypes.FromCommand | src/word/enums.rs:73-77 | `From<CommandWord>` gives the command variant holding the word |
| WordTypes.FromStatus | src/word/enums.rs:79-83 | `From<StatusWord>` gives the status variant holding the word |
| WordTypes.FromData | src/word/enums.rs:85-89 | `From<DataWord>` gives the data variant holding the word |
| WordTypes.Bytes | src/word/enums.rs:53-60 | the contained word's bytes, and `[0,0]` for no word |
| WordTypes.Parity | src/word/enums.rs:63-70 | the contained word's parity, and 0 for no word |
| WordTypes.ExactlyOneKind | src/word/enums.rs:24-50 | exactly one of `is_none`, `is_command`, `is_status`, `is_data` holds, and `is_some` is not `is_none` |
| WordTypes.WrapRoundTrip | src/word/enums.rs:53-89 | wrapping a word and reading bytes and parity gives the word back, whatever its kind; no word reads as an invalid zero word |
| WordTypes.CountDataUpdate | src/message/messages.rs:98-104 | replacing one slot changes the number of data words by what the old and new slot contribute |
| Packets.DataPacket | src/message/packets.rs:43-45 | `Packet::data` keeps the bytes, carries the data sync and is valid |
| Packets.ServicePacket | src/message/packets.rs:47-49 | `Packet::service` keeps the bytes, carries the service sync and is valid |
| Packets.Value | src/message/packets.rs:70-80 | `value()` splits back into the packet's two bytes, i.e. it is their big-endian reading |
| Packets.AsData | src/message/packets.rs:83-89 | `Ok` exactly for a valid, data-synced packet, holding a word built from its value; else `PacketIsInvalid` |
| Packets.AsStatus | src/message/packets.rs:91-98 | `Ok` exactly for a valid, service-synced packet; else `PacketIsInvalid` |
| Packets.AsCommand | src/message/packets.rs:100-107 | `Ok` exactly for a valid, service-synced packet; else `PacketIsInvalid` |
| Packets.DataServiceExclusive | src/message/packets.rs:54-62 | no packet is both data and service, so `as_data` and `as_command` never both succeed |
| Packets.DecodedParity | src/message/packets.rs:66-68 | a decoded word carries the packet's parity, which matches its data; any other parity makes the packet invalid |
| Packets.BuildDecodeRoundTrip | src/message/packets.rs:43-107 | a packet built from bytes decodes to a word holding those bytes |
| Packets.EvenParityExamples | src/message/packets.rs:123-191 | the even-popcount test vectors get parity 1, and a spoilt parity is invalid |
| Packets.OddParityExamples | src/message/packets.rs:123-191 | the odd-popcount test vectors get parity 0, and a spoilt parity is invalid |
| Packets.CommandExample | src/message/packets.rs:193-203 | `[0b00011000, 0b01100010]` decodes to address 3, subaddress 3, word count 2 |
| LegacyPackets.DataPacket | src/packets.rs:32-34 | `data` keeps the content, carries `DATA_SYNC` and is valid |
| LegacyPackets.ServicePacket | src/packets.rs:36-38 | `service` keeps the content, carries `SERV_SYNC` and is valid |
| LegacyPackets.Classification | src/packets.rs:40-50 | never both data and service; valid exactly when the parity is the content's odd-parity bit; a valid packet's content and parity hold an odd number of ones, and for a parity of 0 or 1 the converse holds too |
| LegacyPackets.SpoiltParity | src/packets.rs:119-133 | changing the parity of a valid packet makes it invalid |
| LegacyPackets.ParityExamples | src/packets.rs:65-117 | the test vectors of the parity rule and the sync tags |
| Parse.Process | src/message/parse.rs:3-28 | the extracted sync fits three bits and the parity one bit |
| Parse.PackThenProcess | src/message/parse.rs:8-25 | packing any triple into the documented layout and extracting it gives the triple back |
| Parse.ProcessThenPack | src/message/parse.rs:13-25 | extracting and repacking keeps exactly the 20 window bits of the three bytes |
| Parse.OnlyWindowMatters | src/message/parse.rs:13-25 | bits outside the window, and bytes after the third, do not affect the result |
| Parse.WordExamples | src/message/parse.rs:34-56 | the test vectors of the word bits, aligned and unaligned |
| Parse.SyncParityExamples | src/message/parse.rs:59-116 | the test vectors of the sync and parity bits, aligned and unaligned |
| FixedArray.New | src/message/array.rs:26-33 | a new array is empty, has its limit at the capacity, and every slot holds the initial value |
| FixedArray.Space | src/message/array.rs:54-56 | the count plus the space is the limit; no space exactly when full |
| FixedArray.Get | src/message/array.rs:62-68 | `Some(data[i])` exactly when `i` is below the count |
| FixedArray.First | src/message/array.rs:113-116 | the first slot, `None` exactly when empty |
| FixedArray.Last | src/message/array.rs:121-123 | the slot at `count - 1`, `None` exactly when empty |
| FixedArray.Push | src/message/array.rs:74-79 | writes at the count and counts it when not full, else nothing changes; no other slot changes; the invariant holds |
| FixedArray.Resize | src/message/array.rs:94-107 | ignored above the capacity; otherwise sets the limit, cuts the count to it and resets the cut slots to the initial value |
| FixedArray.Clear | src/message/array.rs:126-129 | every slot back to the initial value, count 0, limit kept |
| FixedArray.Count | src/message/array.rs:82-87 | counts the slots satisfying the predicate over all slots, used or not |
| FixedArray.PushThenLast | src/message/array.rs:74-79 | a push with room becomes the last element, keeps earlier elements, and uses one unit of space |
| FixedArray.ClearIdempotent | src/message/array.rs:126-129 | clearing twice is clearing once, and a push after a clear fills slot 0 |
| FixedArray.ResizeKeeps | src/message/array.rs:94-107 | resizing to at least the count keeps every element; resizing to the current limit changes nothing |
| FixedArray.CountSeesUnusedSlots | src/message/array.rs:82-87 | an empty array counts every slot whose initial value satisfies the predicate |
| FixedArray.ResizeExamples | src/message/array.rs:152-187 | the resize test vectors |
| FixedArray.PushExamples | src/message/array.rs:202-275 | the push, get and clear test vectors |
| Messages.New | src/message/messages.rs:51-56 | a new message is empty and well formed |
| Messages.First | src/message/messages.rs:84-89 | slot 0, `None` exactly when empty |
| Messages.Last | src/message/messages.rs:77-82 | slot `count - 1`, `None` exactly when empty |
| Messages.HeaderDataCount | src/message/messages.rs:107-109 | a header expects data words exactly when it is a command, at most 32 |
| Messages.DataExpected | src/message/messages.rs:107-109 | at most 32, and non-zero exactly when the message starts with a command |
| Messages.TakeSomeIsPrefix | src/message/messages.rs:98-104 | the leading non-empty slots of a valid message are its first `count` words |
| Messages.DataCountOfWellFormed | src/message/messages.rs:98-104 | the data count of a well-formed message is its word count less the header |
| Messages.AppendKeeps | src/message/messages.rs:158-160 | storing at slot `count` keeps the message well formed and earlier slots unchanged |
| Messages.AddData | src/message/messages.rs:152-162 | `MessageIsFull` for a full command message, `FirstWordIsData` for an empty one, otherwise the word goes to slot `count` and `count + 1` is returned |
| Messages.AddStatus | src/message/messages.rs:171-181 | `StatusWordNotFirst` on a non-empty message, `InvalidWord` on bad parity, otherwise the status word is the first word |
| Messages.AddCommand | src/message/messages.rs:190-200 | `CommandWordNotFirst` on a non-empty message, `InvalidWord` on bad parity, otherwise the command word is the first word |
| Messages.Add | src/message/messages.rs:136-143 | a data word goes to `add_data`, a status word to `add_status`, a command word to `add_command`; `WordIsInvalid` for no word; a success stores the word at slot `count` and returns `count + 1` |
| Messages.AddKeepsConsistent | src/message/messages.rs:13-15 | every add keeps the message well formed with at most the expected data words, and leaves earlier slots alone |
| Messages.CommandHeaderFits | src/message/messages.rs:153-154 | a command-headed message never holds more than 33 words, so the source's checks alone refuse the overflow |
| Messages.AddDataAsWritten | src/message/messages.rs:152-162 | as written, the add panics (index out of bounds) exactly when a non-empty message that is not a full command message already holds 33 words |
| Messages.AddDataTimes | src/message/messages.rs:152-162 | repeated as-written adds keep a well-formed message well formed |
| Messages.StatusHeaderFills | src/message/messages.rs:152-162 | with a status header every data word up to slot 33 is accepted |
| Messages.StatusHeaderOverflows | src/message/messages.rs:152-162 | a status word plus 32 data words fill the array; as written the next data word indexes past it, the corrected add refuses it |
| Messages.NewExample | src/message/messages.rs:219-230 | a new message is empty, full, and has no first or last word |
| Messages.CommandExample | src/message/messages.rs:244-280 | a command for two data words is first and last, expects two, and one data word after it counts one |
| Messages.StatusExample | src/message/messages.rs:282-311 | a status header expects no data words yet still takes one |
| LimitedMessage.New | src/message/message.rs:19-26 | a new message has count 0, limit 33 and every slot empty |
| LimitedMessage.Add | src/message/message.rs:36-45 | `MessageFull` exactly when full; otherwise stores at slot `count` and returns `count + 1` |
| LimitedMessage.Clear | src/message/message.rs:47-50 | count 0 and every slot empty, limit kept |
| LimitedMessage.Last | src/message/message.rs:52-59 | the word at `count - 1`, `None` exactly when empty |
| LimitedMessage.First | src/message/message.rs:61-67 | the first word, `None` exactly when empty |
| LimitedMessage.HasSpaceMeans | src/message/message.rs:80-90 | room exactly when the first word is a non-mode-code command asking for more data words than are held |
| LimitedMessage.AddThenLast | src/message/message.rs:36-45 | an added word becomes the last, the first stays, and a data word adds one to the data count |
| LimitedMessage.AddTimes | src/message/message.rs:36-45 | repeated adds keep the message valid |
| LimitedMessage.FillsAtLimit | src/message/message.rs:28-45 | adds up to the limit all succeed and count one each |
| LimitedMessage.NewTakesThirtyThree | src/message/message.rs:19-45 | a new message takes exactly 33 words and refuses the 34th with `MessageFull` |
| LimitedMessage.ClearIsNew | src/message/message.rs:47-50 | clearing gives a new message, with no first or last word and no data |

## Left out

- I/O, allocation and Rust ownership are left out. Every mutating method is a pure function that returns the updated value.
- Unshown helpers get concrete definitions, each pinned by the tests in the same file:
  - The `parity` function of src/word/words.rs and the `Parity` type of src/word/word.rs are the odd-parity bit of src/word/macros.rs:84-89.
  - The word-level field access of src/word/words.rs is `Field::get/set` on `as_value`, followed by `set_value`.
  - `WordType::data_count` (`Messages.HeaderDataCount`) is a command header's `count()` and 0 for other words.
  - The conversion from a word to `[u8; 2]` is its stored bytes.
- The typed flag enums are modelled as the raw field bytes they are converted from and into. These are `Address`, `SubAddress`, `TransmitReceive`, `ModeCode`, `MessageError`, `Instrumentation`, `ServiceRequest`, `Reserved`, `BroadcastReceived`, `TerminalBusy`, `DynamicBusAcceptance`, `SubsystemError` and `TerminalError`.
- PlainWords.ModeCode: the `ModeCode` conversion's `InvalidCode` error is left out because the enum is not part of this model.
- ByteWords.SetString: the error kind `StringIsInvalid` is an assumption. The source's `?` converts a `TryFromSliceError` through a `From` implementation for the crate's error, and that implementation is not part of this model.
- Fields.Get, Fields.Set, Fields.Width, Fields.Lower and Fields.Placed: the source shifts by a `u32` offset and panics at 16 or more. Every field operation here therefore requires an offset below 16, which every crate field has; the panic itself is not modelled.
- Parse.Process: requires at least three bytes. The source indexes `data[2]` and panics on a shorter slice.
- The `with_*` builder methods (`with_data`, `with_status`, `with_command`, `with_word`, `with_string`, `with_address`, …) are left out. Each is the corresponding `add_*`/`set_*` followed by returning the value, so their behaviour is that of the modelled function.
- `DataWord::as_text` (a lossy UTF-8 `String`) is left out because it needs heap strings. The widening casts to `i16`/`u32`/`i64` are left out as trivial.
- ByteWords.AsString: models only whether the two bytes are valid UTF-8, not the decoded characters. The UTF-8 test is restricted to two bytes: two ASCII bytes, or one two-byte sequence (RFC 3629, section 4).
- `Word::sync/data/parity` of src/word.rs return the stored fields unchanged. They are the record's fields in `SyncWords.Word` and get no member of their own.
- LimitedMessage.Clear: the source assigns a 32-slot array to the 33-slot field. The evident intent, emptying every slot, is modelled.
- The `side: MessageType` field of the later message is left out because none of its live operations read it.
- The commented-out parse state machine and tests of src/message/message.rs are left out as dead code.
- The superseded src/message.rs is left out. Its parse depends on a `Word::parse` that is not part of this model, and its `is_valid` always returns false.
- The declaration-only files (src/flags.rs, src/message/enums.rs, src/word/traits.rs, src/layout.rs, the `mod.rs` files and src/lib.rs) are left out. They serve only as signature and constant references.
- The proc-macro derive crate, src/word/macros.rs and build.rs are code generation over token streams and the file system. The `Word` logic they generate is modelled once, in `ByteWords`.
- `Message::read_command`, `get`, `at` and `build`, used by the examples, have no implementation that is part of this model.
- Constants.SyncPatterns: `SERV_SYNC` is 0b111000, six half-bit times rather than a 3-bit value. So the 3-bit sync that `Parse.Process` extracts (at most 7) can equal `DATA_SYNC` but never `SERV_SYNC`. The model states this as found rather than as distinct 3-bit patterns.

## Findings

| source | as written | input that shows it | evidently intended | confidence | as-written member | corrected member |
|---|---|---|---|---|---|---|
| src/message/messages.rs:152-162 | `add_data` checks capacity only for a command-headed message; a status-headed message is never refused | `add_status` of a valid status word, then 32 `add_data` calls fill all 33 slots; one more `add_data` indexes `words[33]` past the end of the array and panics (index out of bounds) | refuse with `MessageIsFull` once all `MAX_WORDS` slots are used | not executed | Messages.AddDataAsWritten, Messages.StatusHeaderOverflows | Messages.AddData |
