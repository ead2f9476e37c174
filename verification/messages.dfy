/** The message builder (src/message/messages.rs): up to `MAX_WORDS` = 33
    words, of which the first `count` are filled. A command or status word
    must come first and must carry valid parity; data words follow, capped
    by the command's word count. */
module Messages {
  import opened Wrappers
  import opened Errors
  import ByteWords
  import WT = WordTypes

  /** `MAX_WORDS`: one header word and up to 32 data words. */
  const MaxWords: nat := 33

  /** `Message { count, words }`. */
  datatype Message = Message(count: nat, words: seq<WT.Word>)

  /** What the array type guarantees: 33 slots, the first `count` filled
      and the rest empty. */
  predicate Valid(m: Message) {
    && |m.words| == MaxWords
    && m.count <= MaxWords
    && (forall i :: 0 <= i < m.count ==> m.words[i].IsSome())
    && (forall i :: m.count <= i < MaxWords ==> m.words[i].None?)
  }

  /** The shape the adders build: a header that is not a data word, then
      data words only. */
  predicate WellFormed(m: Message) {
    && Valid(m)
    && (m.count > 0 ==> !m.words[0].Data?)
    && (forall i :: 1 <= i < m.count ==> m.words[i].Data?)
  }

  /** `Message::new`, and `clear`, which rebuilds the same empty message. */
  function New(): (m: Message)
    ensures WellFormed(m) && IsEmpty(m)
  {
    Message(0, seq(MaxWords, _ => WT.None))
  }

  /** `is_empty`. */
  predicate IsEmpty(m: Message) {
    m.count == 0
  }

  /** `first`: slot 0 when there is at least one word. */
  function First(m: Message): (r: Option<WT.Word>)
    ensures r.Some? <==> !IsEmpty(m) && |m.words| > 0
    ensures r.Some? ==> r.value == m.words[0]
  {
    if m.count == 0 || |m.words| == 0 then None else Some(m.words[0])
  }

  /** `last`: slot `count - 1` when there is at least one word. */
  function Last(m: Message): (r: Option<WT.Word>)
    ensures r.Some? <==> !IsEmpty(m) && m.count <= |m.words|
    ensures r.Some? ==> r.value == m.words[m.count - 1]
  {
    if m.count == 0 || m.count > |m.words| then None else Some(m.words[m.count - 1])
  }

  /** The words before the first empty slot (`take_while(is_some)`). */
  function TakeSome(s: seq<WT.Word>): (r: seq<WT.Word>)
    ensures |r| <= |s|
  {
    if |s| == 0 || s[0].None? then [] else [s[0]] + TakeSome(s[1..])
  }

  /** `data_count`: the data words among the leading non-empty slots. */
  function DataCount(m: Message): nat {
    WT.CountData(TakeSome(m.words))
  }

  /** `WordType::data_count`, which the source uses but does not show: the
      word count of a command header, and nothing for any other word, as the
      source's tests fix it. */
  function HeaderDataCount(t: WT.Word): (n: nat)
    ensures t.Command? <==> n > 0
    ensures n <= 32
  {
    match t
    case Command(w) => ByteWords.Count(w)
    case _ => 0
  }

  /** `data_expected`. */
  function DataExpected(m: Message): (n: nat)
    ensures n <= 32
    ensures n > 0 <==> HasCommand(m)
  {
    match First(m)
    case Some(t) => HeaderDataCount(t)
    case None => 0
  }

  /** `is_full`: as many data words as expected. An empty message is full,
      since it holds none and expects none. */
  predicate IsFull(m: Message) {
    DataCount(m) == DataExpected(m)
  }

  /** `has_data`, `has_space`, `has_command`, `has_status`. */
  predicate HasData(m: Message) {
    DataCount(m) > 0
  }

  predicate HasSpace(m: Message) {
    DataCount(m) < DataExpected(m)
  }

  predicate HasCommand(m: Message) {
    First(m).Some? && First(m).value.Command?
  }

  predicate HasStatus(m: Message) {
    First(m).Some? && First(m).value.Status?
  }

  /** The leading non-empty slots of a valid message are its first `count`
      words. */
  lemma {:induction false} TakeSomeIsPrefix(s: seq<WT.Word>, k: nat)
    requires k <= |s|
    requires forall i :: 0 <= i < k ==> s[i].IsSome()
    requires k < |s| ==> s[k].None?
    ensures TakeSome(s) == s[..k]
  {
    if k > 0 {
      TakeSomeIsPrefix(s[1..], k - 1);
      assert s[..k] == [s[0]] + s[1..][..k - 1];
    }
  }

  /** A header followed only by data words holds one data word fewer than
      words. */
  lemma {:induction false} DataAfterHeader(s: seq<WT.Word>, k: nat)
    requires 1 <= k <= |s|
    requires !s[0].Data? && forall i :: 1 <= i < k ==> s[i].Data?
    ensures WT.CountData(s[..k]) == k - 1
  {
    if k == 1 {
      assert s[..1][..0] == [];
    } else {
      DataAfterHeader(s, k - 1);
      assert s[..k][..k - 1] == s[..k - 1];
    }
  }

  /** In a well-formed message every word after the header is a data word,
      so the data count is the word count less one. */
  lemma DataCountOfWellFormed(m: Message)
    requires WellFormed(m)
    ensures DataCount(m) == if m.count == 0 then 0 else m.count - 1
  {
    TakeSomeIsPrefix(m.words, m.count);
    if m.count == 0 {
      assert m.words[..0] == [];
    } else {
      DataAfterHeader(m.words, m.count);
    }
  }

  /** Storing a word at slot `count` and counting it. */
  function Append(m: Message, t: WT.Word): (r: Message)
    requires m.count < |m.words|
  {
    Message(m.count + 1, m.words[m.count := t])
  }

  /** Appending to a well-formed, non-full message keeps it well formed and
      changes no earlier slot. */
  lemma AppendKeeps(m: Message, t: WT.Word)
    requires WellFormed(m) && m.count < MaxWords && t.IsSome()
    requires m.count == 0 <==> !t.Data?
    ensures WellFormed(Append(m, t))
    ensures Append(m, t).words[..m.count] == m.words[..m.count]
    ensures Append(m, t).words[m.count] == t
  {
  }

  /** `add_data`, corrected: besides the source's checks it refuses the
      word with `MessageIsFull` when all 33 slots are taken. */
  function AddData(m: Message, w: ByteWords.Word): (r: Result<(Message, nat), Error>)
    requires Valid(m)
    ensures HasCommand(m) && IsFull(m) ==> r == Failure(MessageIsFull)
    ensures IsEmpty(m) ==> r == Failure(FirstWordIsData)
    ensures r.Success? <==> !IsEmpty(m) && !(HasCommand(m) && IsFull(m)) && m.count < MaxWords
    ensures r.Failure? ==> r.error == MessageIsFull || r.error == FirstWordIsData
    ensures r.Success? ==> r.value.0 == Append(m, WT.Data(w)) && r.value.1 == m.count + 1
  {
    if IsFull(m) && HasCommand(m) then Failure(MessageIsFull)
    else if IsEmpty(m) then Failure(FirstWordIsData)
    else if m.count == MaxWords then Failure(MessageIsFull)
    else Success((Append(m, WT.Data(w)), m.count + 1))
  }

  /** `add_status`: only into an empty message, and only with valid
      parity. */
  function AddStatus(m: Message, w: ByteWords.Word): (r: Result<(Message, nat), Error>)
    requires Valid(m)
    ensures !IsEmpty(m) ==> r == Failure(StatusWordNotFirst)
    ensures IsEmpty(m) && !ByteWords.CheckParity(w) ==> r == Failure(InvalidWord)
    ensures r.Success? <==> IsEmpty(m) && ByteWords.CheckParity(w)
    ensures r.Success? ==> r.value.0 == Append(m, WT.Status(w)) && r.value.1 == 1
    ensures r.Success? ==> WellFormed(r.value.0)
  {
    if !IsEmpty(m) then Failure(StatusWordNotFirst)
    else if !ByteWords.CheckParity(w) then Failure(InvalidWord)
    else Success((Append(m, WT.Status(w)), m.count + 1))
  }

  /** `add_command`: only into an empty message, and only with valid
      parity. */
  function AddCommand(m: Message, w: ByteWords.Word): (r: Result<(Message, nat), Error>)
    requires Valid(m)
    ensures !IsEmpty(m) ==> r == Failure(CommandWordNotFirst)
    ensures IsEmpty(m) && !ByteWords.CheckParity(w) ==> r == Failure(InvalidWord)
    ensures r.Success? <==> IsEmpty(m) && ByteWords.CheckParity(w)
    ensures r.Success? ==> r.value.0 == Append(m, WT.Command(w)) && r.value.1 == 1
    ensures r.Success? ==> WellFormed(r.value.0)
  {
    if !IsEmpty(m) then Failure(CommandWordNotFirst)
    else if !ByteWords.CheckParity(w) then Failure(InvalidWord)
    else Success((Append(m, WT.Command(w)), m.count + 1))
  }

  /** `add`: dispatch on the kind; an empty container is `WordIsInvalid`. */
  function Add(m: Message, t: WT.Word): (r: Result<(Message, nat), Error>)
    requires Valid(m)
    ensures t.None? ==> r == Failure(WordIsInvalid)
    ensures t.Data? ==> r == AddData(m, t.dataWord)
    ensures t.Status? ==> r == AddStatus(m, t.status)
    ensures t.Command? ==> r == AddCommand(m, t.command)
    ensures r.Success? ==> m.count < |m.words| && r.value.0 == Append(m, t) && r.value.1 == m.count + 1
  {
    match t
    case Data(w) => AddData(m, w)
    case Status(w) => AddStatus(m, w)
    case Command(w) => AddCommand(m, w)
    case None => Failure(WordIsInvalid)
  }

  /** The message invariant: well formed, and with a command header never
      more data words than the command asks for. */
  predicate Consistent(m: Message) {
    WellFormed(m) && (HasCommand(m) ==> DataCount(m) <= DataExpected(m))
  }

  /** Every successful `add` keeps the message consistent, adds one word
      at slot `count` and leaves the earlier slots alone; a data word adds
      one to the data count and a header expects its own count. */
  lemma AddKeepsConsistent(m: Message, t: WT.Word)
    requires Consistent(m)
    ensures Add(m, t).Success? ==> Consistent(Add(m, t).value.0)
    ensures Add(m, t).Success? ==> Add(m, t).value.0.words[..m.count] == m.words[..m.count]
    ensures Add(m, t).Success? && t.Data? ==> DataCount(Add(m, t).value.0) == DataCount(m) + 1
    ensures Add(m, t).Success? && t.Data? ==> DataExpected(Add(m, t).value.0) == DataExpected(m)
    ensures Add(m, t).Success? && !t.Data? ==> DataExpected(Add(m, t).value.0) == HeaderDataCount(t)
  {
    if Add(m, t).Success? {
      var m' := Add(m, t).value.0;
      AppendKeeps(m, t);
      DataCountOfWellFormed(m);
      DataCountOfWellFormed(m');
    }
  }

  /** A command-headed message never needs the extra bound: its data
      count is capped at 32, so at most 33 words are ever stored and the
      corrected `add_data` refuses a word exactly when the source does. */
  lemma CommandHeaderFits(m: Message, w: ByteWords.Word)
    requires Consistent(m) && HasCommand(m)
    ensures m.count <= 1 + DataExpected(m)
    ensures AddData(m, w).Success? <==> !IsFull(m)
    ensures AddDataAsWritten(m, w) != OutOfBounds
  {
    DataCountOfWellFormed(m);
  }

  // ----- the source's add_data as written ---------------------------------

  /** The outcome of the source's `add_data`, which can also panic by
      indexing past the end of the word array. */
  datatype Outcome = Added(message: Message, size: nat) | Refused(error: Error) | OutOfBounds

  /** `add_data` as the source writes it: a status-headed message is never
      full, so the next write goes to index 33 and panics (index out of
      bounds). */
  function AddDataAsWritten(m: Message, w: ByteWords.Word): (r: Outcome)
    requires Valid(m)
    ensures r.OutOfBounds? <==> !IsEmpty(m) && !(HasCommand(m) && IsFull(m)) && m.count == MaxWords
  {
    if IsFull(m) && HasCommand(m) then Refused(MessageIsFull)
    else if IsEmpty(m) then Refused(FirstWordIsData)
    else if m.count >= |m.words| then OutOfBounds
    else Added(Append(m, WT.Data(w)), m.count + 1)
  }

  /** The source's `add_data` applied `n` times with the same word. */
  function AddDataTimes(m: Message, w: ByteWords.Word, n: nat): (r: Outcome)
    requires WellFormed(m)
    ensures r.Added? ==> WellFormed(r.message)
    decreases n
  {
    if n == 0 then Added(m, m.count)
    else match AddDataAsWritten(m, w)
      case Added(m', _) =>
        AppendKeeps(m, WT.Data(w));
        AddDataTimes(m', w, n - 1)
      case other => other
  }

  /** With a status header, every data word up to the 33rd slot is
      accepted. */
  lemma {:induction false} StatusHeaderFills(m: Message, w: ByteWords.Word, n: nat)
    requires WellFormed(m) && HasStatus(m) && m.count + n <= MaxWords
    ensures AddDataTimes(m, w, n).Added?
    ensures AddDataTimes(m, w, n).message.count == m.count + n
    ensures WellFormed(AddDataTimes(m, w, n).message) && HasStatus(AddDataTimes(m, w, n).message)
    decreases n
  {
    if n > 0 {
      DataCountOfWellFormed(m);
      AppendKeeps(m, WT.Data(w));
      StatusHeaderFills(Append(m, WT.Data(w)), w, n - 1);
    }
  }

  /** The overflow: a status word followed by 32 data words fills all 33
      slots; the source then panics (index out of bounds) on the 33rd data
      word, where the corrected `add_data` answers `MessageIsFull`. */
  lemma StatusHeaderOverflows(s: ByteWords.Word, w: ByteWords.Word)
    requires ByteWords.CheckParity(s)
    ensures AddStatus(New(), s).Success?
    ensures AddDataTimes(AddStatus(New(), s).value.0, w, 32).Added?
    ensures AddDataAsWritten(AddDataTimes(AddStatus(New(), s).value.0, w, 32).message, w) == OutOfBounds
    ensures AddData(AddDataTimes(AddStatus(New(), s).value.0, w, 32).message, w) == Failure(MessageIsFull)
  {
    var m := AddStatus(New(), s).value.0;
    AppendKeeps(New(), WT.Status(s));
    StatusHeaderFills(m, w, 32);
    var full := AddDataTimes(m, w, 32).message;
    DataCountOfWellFormed(full);
  }

  // ----- the source's tests -----------------------------------------------

  /** A new message is empty, has no first or last word, and is full. */
  lemma NewExample()
    ensures IsFull(New()) && IsEmpty(New()) && First(New()).None? && Last(New()).None?
    ensures DataCount(New()) == 0
  {
    DataCountOfWellFormed(New());
  }

  /** A command for two data words is accepted as the first word, is both
      first and last, and expects two data words; one data word after it
      makes two words holding one data word. */
  lemma CommandExample(d: ByteWords.Word)
    ensures var c := WT.Command(ByteWords.CommandFromValue(0x1862));
            var r := Add(New(), c);
            && r.Success? && r.value.1 == 1
            && First(r.value.0) == Some(c) && Last(r.value.0) == Some(c)
            && DataCount(r.value.0) == 0 && DataExpected(r.value.0) == 2
            && Add(r.value.0, WT.Data(d)).Success?
            && Add(r.value.0, WT.Data(d)).value.0.count == 2
            && DataCount(Add(r.value.0, WT.Data(d)).value.0) == 1
  {
    var c := WT.Command(ByteWords.CommandFromValue(0x1862));
    ByteWords.ValueRoundTrip(0x1862, ByteWords.New());
    AddKeepsConsistent(New(), c);
    var m := Add(New(), c).value.0;
    DataCountOfWellFormed(m);
    AddKeepsConsistent(m, WT.Data(d));
  }

  /** A status word is accepted as the first word, expects no data words,
      and still takes a data word after it. */
  lemma StatusExample(d: ByteWords.Word)
    ensures var s := WT.Status(ByteWords.FromValue(0x1802));
            var r := Add(New(), s);
            && r.Success? && r.value.1 == 1
            && First(r.value.0) == Some(s) && Last(r.value.0) == Some(s)
            && DataCount(r.value.0) == 0 && DataExpected(r.value.0) == 0
            && Add(r.value.0, WT.Data(d)).Success?
            && DataCount(Add(r.value.0, WT.Data(d)).value.0) == 1
            && DataExpected(Add(r.value.0, WT.Data(d)).value.0) == 0
  {
    var s := WT.Status(ByteWords.FromValue(0x1802));
    ByteWords.ValueRoundTrip(0x1802, ByteWords.New());
    AddKeepsConsistent(New(), s);
    var m := Add(New(), s).value.0;
    DataCountOfWellFormed(m);
    AddKeepsConsistent(m, WT.Data(d));
  }
}
