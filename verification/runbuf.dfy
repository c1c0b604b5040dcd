/**
 * The data model of the input layer: run buffers, their type tags, the
 * status codes a read reports, and the stream that owns a queue of buffers.
 */
module RunBufs {
  import opened Bytes
  import opened Wrappers

  /** The payload capacity of one run buffer, in bytes. */
  const FsmBufSize: nat := 8192

  /** A tree reference, opaque to the input layer; 0 is the null pointer. */
  type TreeId = nat

  /** What a run buffer holds: raw bytes, a token tree, an ignored token, or a nested source stream. */
  datatype RunBufType = DataType | TokenType | IgnoreType | SourceType

  /** The enumerator value of a buffer type. */
  function TypeCode(t: RunBufType): (c: nat)
    ensures c <= 3
  {
    match t
    case DataType => 0
    case TokenType => 1
    case IgnoreType => 2
    case SourceType => 3
  }

  /** Reading an enumerator value back; values above 3 name no buffer type. */
  function TypeOfCode(c: nat): (r: Option<RunBufType>)
    ensures r.Some? <==> c <= 3
    ensures r.Some? ==> TypeCode(r.value) == c
  {
    if c == 0 then Some(DataType)
    else if c == 1 then Some(TokenType)
    else if c == 2 then Some(IgnoreType)
    else if c == 3 then Some(SourceType)
    else None
  }

  /** Every buffer type has its own code, and decoding the code names the type again. */
  lemma TypeCodeRoundTrip(t: RunBufType)
    ensures TypeOfCode(TypeCode(t)) == Some(t)
  {
  }

  /**
   * One queue element. `data` holds the buffer's `length` valid bytes and
   * `offset` is the read position within them. Token, ignore and source
   * buffers use `tree` and leave the byte fields empty.
   */
  datatype RunBuf = RunBuf(kind: RunBufType, data: seq<byte>, offset: nat, tree: TreeId)
  {
    function Length(): nat { |data| }

    /** Bytes still to be read from this buffer. */
    function Avail(): int { |data| - offset }

    /**
     * The payload fits the fixed array and the read position lies inside it;
     * a buffer carrying a tree was zero-filled and holds no bytes.
     */
    predicate Valid()
    {
      && |data| <= FsmBufSize && offset <= |data|
      && (kind != DataType ==> |data| == 0 && offset == 0)
    }

    /** The unread bytes of a data buffer; other buffers carry none. */
    function Unread(): (u: seq<byte>)
      ensures Valid() ==> |u| == Avail()
      ensures kind != DataType ==> u == []
    {
      if kind == DataType && offset <= |data| then data[offset..] else []
    }
  }

  /** `newRunBuf`: a zero-filled buffer, which is an empty data buffer because the data tag is 0. */
  function NewRunBuf(): (rb: RunBuf)
    ensures TypeCode(rb.kind) == 0 && rb.kind == DataType
    ensures rb.Valid() && rb.Length() == 0 && rb.offset == 0 && rb.tree == 0
  {
    RunBuf(DataType, [], 0, 0)
  }

  /** A fresh data buffer holding exactly `bytes`, read position at the start. */
  function DataBuf(bytes: seq<byte>): (rb: RunBuf)
    requires |bytes| <= FsmBufSize
    ensures rb.Valid() && rb.kind == DataType && rb.Unread() == bytes
  {
    NewRunBuf().(data := bytes)
  }

  /** A fresh buffer of a tree-carrying type. */
  function TreeBuf(kind: RunBufType, tree: TreeId): (rb: RunBuf)
    requires kind != DataType
    ensures rb.Valid() && rb.kind == kind && rb.tree == tree && rb.Length() == 0
  {
    NewRunBuf().(kind := kind, tree := tree)
  }

  /** The `INPUT_*` results of a read. EOD is reported by data sources; the wrapper turns it into EOF once EOF is set. */
  datatype InputStatus = InputData | InputEod | InputEof | InputLangEl | InputTree | InputIgnore

  function StatusCode(s: InputStatus): (c: nat)
    ensures 1 <= c <= 6
  {
    match s
    case InputData => 1
    case InputEod => 2
    case InputEof => 3
    case InputLangEl => 4
    case InputTree => 5
    case InputIgnore => 6
  }

  /** The six status codes are pairwise distinct. */
  lemma StatusCodesDistinct(a: InputStatus, b: InputStatus)
    ensures StatusCode(a) == StatusCode(b) <==> a == b
  {
  }

  /**
   * An input stream: its buffer queue, its EOF flag, and the EOF flags of the
   * streams wrapped by its source buffers, keyed by the wrapping tree.
   */
  datatype InputStream = InputStream(queue: seq<RunBuf>, eof: bool, nestedEof: map<TreeId, bool>)

  /** Every buffer of the queue is valid: no payload exceeds `FsmBufSize`. */
  predicate ValidQueue(q: seq<RunBuf>)
  {
    forall i :: 0 <= i < |q| ==> q[i].Valid()
  }

  /** `initInputStream`: a zeroed stream, so an empty queue and EOF unset. */
  function NewInputStream(): (st: InputStream)
    ensures st.queue == [] && !st.eof && ValidQueue(st.queue)
  {
    InputStream([], false, map[])
  }
}
