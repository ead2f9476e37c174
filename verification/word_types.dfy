/** `WordType` (src/word/enums.rs): the container that holds no word or one
    command, status or data word. The source wraps the byte-backed words;
    the message revision of src/message/message.rs wraps the value-backed
    ones, so the container is generic in the word record `W`. */
module WordTypes {
  import opened Bits
  import ByteWords

  /** The three word structs of a revision share one layout `W`; the
      constructor records which kind the word is. */
  datatype WordType<W> =
    | None
    | Command(command: W)
    | Status(status: W)
    | Data(dataWord: W)
  {
    /** `is_some`: there is a contained word. */
    predicate IsSome() {
      !None?
    }

    /** The contained word, for any kind. */
    function Inner(): W
      requires IsSome()
    {
      match this
      case Command(w) => w
      case Status(w) => w
      case Data(w) => w
    }
  }

  /** The container of the byte-backed words. */
  type Word = WordType<ByteWords.Word>

  /** `From<CommandWord>`, `From<StatusWord>`, `From<DataWord>`. */
  function FromCommand<W>(w: W): (t: WordType<W>)
    ensures t.Command? && t.Inner() == w
  {
    Command(w)
  }

  function FromStatus<W>(w: W): (t: WordType<W>)
    ensures t.Status? && t.Inner() == w
  {
    Status(w)
  }

  function FromData<W>(w: W): (t: WordType<W>)
    ensures t.Data? && t.Inner() == w
  {
    Data(w)
  }

  /** `bytes`: the contained word's two bytes, or two zero bytes. */
  function Bytes(t: Word): (b: Bytes2)
    ensures t.IsSome() ==> b == ByteWords.AsBytes(t.Inner())
    ensures t.None? ==> b == Bytes2(0, 0)
  {
    match t
    case Command(w) => ByteWords.AsBytes(w)
    case Status(w) => ByteWords.AsBytes(w)
    case Data(w) => ByteWords.AsBytes(w)
    case None => Bytes2(0, 0)
  }

  /** `parity`: the contained word's parity bit, or 0. */
  function Parity(t: Word): (p: byte)
    ensures t.IsSome() ==> p == t.Inner().parity
    ensures t.None? ==> p == 0
  {
    match t
    case Command(w) => w.parity
    case Status(w) => w.parity
    case Data(w) => w.parity
    case None => 0
  }

  /** Exactly one of `is_none`, `is_command`, `is_status` and `is_data`
      holds, and `is_some` is the negation of `is_none`. */
  lemma ExactlyOneKind<W>(t: WordType<W>)
    ensures (if t.None? then 1 else 0) + (if t.Command? then 1 else 0)
            + (if t.Status? then 1 else 0) + (if t.Data? then 1 else 0) == 1
    ensures t.IsSome() <==> !t.None?
  {
  }

  /** Wrapping a word and reading its bytes and parity back gives the word's
      own, whatever kind it is wrapped as; an empty container reads as an
      all-zero word whose parity does not check. */
  lemma WrapRoundTrip(w: ByteWords.Word)
    ensures Bytes(FromCommand(w)) == Bytes(FromStatus(w)) == Bytes(FromData(w)) == w.data
    ensures Parity(FromCommand(w)) == Parity(FromStatus(w)) == Parity(FromData(w)) == w.parity
    ensures ByteWords.Word(Bytes(FromCommand(w)), Parity(FromCommand(w))) == w
    ensures !ByteWords.CheckParity(ByteWords.Word(Bytes(None), Parity(None)))
  {
    CountOnesSum(0);
  }

  /** The number of data words in a sequence of containers. */
  function CountData<W>(s: seq<WordType<W>>): (n: nat)
    ensures n <= |s|
  {
    if |s| == 0 then 0 else CountData(s[..|s| - 1]) + (if s[|s| - 1].Data? then 1 else 0)
  }

  /** Replacing one container changes the count of data words by what the
      old and the new container contribute. */
  lemma {:induction false} CountDataUpdate<W>(s: seq<WordType<W>>, k: nat, x: WordType<W>)
    requires k < |s|
    ensures CountData(s[k := x]) + (if s[k].Data? then 1 else 0)
            == CountData(s) + (if x.Data? then 1 else 0)
    decreases |s|
  {
    var n := |s| - 1;
    if k == n {
      assert s[k := x][..n] == s[..n];
    } else {
      assert s[k := x][..n] == s[..n][k := x];
      CountDataUpdate(s[..n], k, x);
    }
  }
}
