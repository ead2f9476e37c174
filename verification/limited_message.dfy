/** The limited message (the live part of src/message/message.rs): up to
    `limit` words, the limit being `MAX_WORDS` = 33, stored in order into 33
    slots, over the value-backed words of src/word/word.rs. */
module LimitedMessage {
  import opened Wrappers
  import opened Errors
  import ValueWords
  import WT = WordTypes

  /** `MAX_WORDS`. */
  const MaxWords: nat := 33

  /** The word container of this revision. */
  type Word = WT.WordType<ValueWords.Word>

  /** `Message { limit, count, words }`; the count and the limit are `u8`,
      which never wraps since both stay at most 33. */
  datatype Message = Message(limit: nat, count: nat, words: seq<Word>)

  /** What the construction guarantees: 33 slots, a limit of at most 33
      and a count of at most the limit. */
  predicate Valid(m: Message) {
    |m.words| == MaxWords && m.count <= m.limit <= MaxWords
  }

  /** `Message::new`: no words, the limit at `MAX_WORDS`, every slot empty. */
  function New(): (m: Message)
    ensures Valid(m) && m.count == 0 && m.limit == MaxWords
    ensures forall i :: 0 <= i < MaxWords ==> m.words[i].None?
  {
    Message(MaxWords, 0, seq(MaxWords, _ => WT.None))
  }

  /** `is_full`. */
  predicate IsFull(m: Message) {
    m.count >= m.limit
  }

  /** `is_empty`. */
  predicate IsEmpty(m: Message) {
    m.count == 0
  }

  /** `add`: refused with `MessageFull` at the limit; otherwise the word
      goes into slot `count` and the new count is returned. Any kind of word
      is taken, an empty container included. */
  function Add(m: Message, w: Word): (r: Result<(Message, nat), Error>)
    requires Valid(m)
    ensures r.Failure? <==> IsFull(m)
    ensures r.Failure? ==> r.error == MessageFull
    ensures r.Success? ==> && Valid(r.value.0)
                           && r.value.0.count == m.count + 1 == r.value.1
                           && r.value.0.limit == m.limit
                           && r.value.0.words == m.words[m.count := w]
  {
    if IsFull(m) then Failure(MessageFull)
    else Success((Message(m.limit, m.count + 1, m.words[m.count := w]), m.count + 1))
  }

  /** `clear`: no words and every slot empty; the limit stays. The source
      assigns a 32-slot array to the 33-slot field, which does not compile;
      the evident intent, emptying every slot, is modelled. */
  function Clear(m: Message): (r: Message)
    requires Valid(m)
    ensures Valid(r) && IsEmpty(r) && r.limit == m.limit
    ensures forall i :: 0 <= i < MaxWords ==> r.words[i].None?
  {
    Message(m.limit, 0, seq(MaxWords, _ => WT.None))
  }

  /** `last`: the word in slot `count - 1`, or nothing when empty. */
  function Last(m: Message): (r: Option<Word>)
    requires Valid(m)
    ensures r.Some? <==> !IsEmpty(m)
    ensures r.Some? ==> r.value == m.words[m.count - 1]
  {
    if !IsEmpty(m) then Some(m.words[m.count - 1]) else None
  }

  /** `first`: the word in slot 0, or nothing when empty. */
  function First(m: Message): (r: Option<Word>)
    requires Valid(m)
    ensures r.Some? <==> !IsEmpty(m)
    ensures r.Some? ==> r.value == m.words[0]
  {
    if !IsEmpty(m) then Some(m.words[0]) else None
  }

  /** `data_count`: the data words over all 33 slots. */
  function DataCount(m: Message): nat {
    WT.CountData(m.words)
  }

  /** `has_data`. */
  predicate HasData(m: Message) {
    DataCount(m) > 0
  }

  /** `has_space`: the first word is a command with a word count, and fewer
      data words than that are stored. */
  predicate HasSpace(m: Message)
    requires Valid(m)
  {
    match First(m)
    case Some(Command(c)) =>
      (match ValueWords.WordCount(c)
       case Some(v) => DataCount(m) < v as nat
       case None => false)
    case _ => false
  }

  /** Room in the message means a command header that is not a mode code
      and asks for more data words than the message holds. */
  lemma HasSpaceMeans(m: Message)
    requires Valid(m)
    ensures HasSpace(m) <==> && !IsEmpty(m) && m.words[0].Command?
                             && !ValueWords.IsModeCode(m.words[0].command)
                             && DataCount(m) < ValueWords.Count(m.words[0].command)
  {
  }

  /** Adding a word makes it the last word and keeps the first; a data word
      adds one to the data count. */
  lemma AddThenLast(m: Message, w: Word)
    requires Valid(m) && !IsFull(m)
    requires forall i :: m.count <= i < MaxWords ==> m.words[i].None?
    ensures Last(Add(m, w).value.0) == Some(w)
    ensures !IsEmpty(m) ==> First(Add(m, w).value.0) == First(m)
    ensures DataCount(Add(m, w).value.0) == DataCount(m) + if w.Data? then 1 else 0
  {
    WT.CountDataUpdate(m.words, m.count, w);
  }

  /** Adding to the same message `n` times. */
  function AddTimes(m: Message, w: Word, n: nat): (r: Result<(Message, nat), Error>)
    requires Valid(m)
    ensures r.Success? ==> Valid(r.value.0)
    decreases n
  {
    if n == 0 then Success((m, m.count))
    else match Add(m, w)
      case Success((m', _)) => AddTimes(m', w, n - 1)
      case Failure(e) => Failure(e)
  }

  /** A new message takes exactly `MAX_WORDS` words: the first 33 adds
      succeed and the message is then full, so the next add is refused. */
  lemma {:induction false} FillsAtLimit(m: Message, w: Word, n: nat)
    requires Valid(m) && m.count + n <= m.limit
    ensures AddTimes(m, w, n).Success? && AddTimes(m, w, n).value.0.count == m.count + n
    ensures AddTimes(m, w, n).value.0.limit == m.limit
    decreases n
  {
    if n > 0 {
      FillsAtLimit(Add(m, w).value.0, w, n - 1);
    }
  }

  lemma NewTakesThirtyThree(w: Word)
    ensures AddTimes(New(), w, MaxWords).Success?
    ensures IsFull(AddTimes(New(), w, MaxWords).value.0)
    ensures Add(AddTimes(New(), w, MaxWords).value.0, w) == Failure(MessageFull)
  {
    FillsAtLimit(New(), w, MaxWords);
  }

  /** Clearing a message makes it equal to a new one of the same limit. */
  lemma ClearIsNew(m: Message)
    requires Valid(m) && m.limit == MaxWords
    ensures Clear(m) == New()
    ensures First(Clear(m)).None? && Last(Clear(m)).None? && DataCount(Clear(m)) == 0
  {
    NoData(Clear(m).words);
  }

  lemma {:induction false} NoData(s: seq<Word>)
    requires forall i :: 0 <= i < |s| ==> s[i].None?
    ensures WT.CountData(s) == 0
  {
    if |s| > 0 {
      NoData(s[..|s| - 1]);
    }
  }
}
