/**
 * The operations of an input stream over its run-buffer queue: reading with
 * a skip, consuming and un-consuming bytes, consuming and un-consuming token
 * trees, appending text, trees and nested streams and undoing those appends,
 * and the EOF flag.
 *
 * A source buffer wraps another stream whose own queue and backing source
 * are outside this model: what it answers when a call is delegated to it is
 * given by a `Nested` value.
 */
module InputStreams {
  import opened Bytes
  import opened Wrappers
  import opened RunBufs
  import opened InputViews
  import opened Seqs
  import Queue

  /** The result of `getData`: the status returned and the bytes copied to `dest` (`*copied` is their count). */
  datatype Fetch = Fetch(status: InputStatus, bytes: seq<byte>)

  /** The source functions of the streams wrapped by source buffers, as seen from the outer stream. */
  datatype Nested = Nested(
    getData: (TreeId, nat, nat) -> Fetch,
    consumeData: (TreeId, nat) -> nat,
    undoConsumeData: (TreeId, seq<byte>) -> nat)

  /** A nested source never copies more bytes than it was asked for. */
  ghost predicate HonestGet(n: Nested)
  {
    forall t, s, l :: |n.getData(t, s, l).bytes| <= l
  }

  /** A nested source never consumes more bytes than it was asked for. */
  ghost predicate HonestConsume(n: Nested)
  {
    forall t, l :: n.consumeData(t, l) <= l
  }

  function Min(a: int, b: int): int
  {
    if a <= b then a else b
  }

  /** `isSourceStream`: the head buffer wraps a nested stream. */
  predicate SourceHead(q: seq<RunBuf>)
  {
    |q| > 0 && q[0].kind == SourceType
  }

  // ---------------------------------------------------------------------
  // getData
  // ---------------------------------------------------------------------

  /** `getData`: copy up to `length` bytes after skipping `skip`; the stream itself is not changed. */
  function GetData(st: InputStream, skip: nat, length: nat, nested: Nested): (r: Fetch)
    ensures HonestGet(nested) ==> |r.bytes| <= length
    ensures |st.queue| == 0 ==> r == Fetch(if st.eof then InputEof else InputEod, [])
    ensures |st.queue| > 0 && st.queue[0].kind == TokenType ==> r == Fetch(InputTree, [])
    ensures |st.queue| > 0 && st.queue[0].kind == IgnoreType ==> r == Fetch(InputIgnore, [])
    ensures r.status == InputEod ==> !st.eof
  {
    GetDataFrom(st.queue, skip, length, st.eof, nested)
  }

  /** The loop of `getData`, walking the queue from its head. */
  function GetDataFrom(q: seq<RunBuf>, skip: nat, length: nat, eof: bool, nested: Nested): (r: Fetch)
    ensures HonestGet(nested) ==> |r.bytes| <= length
    ensures r.status == InputEod ==> !eof
    decreases |q|
  {
    if |q| == 0 then Fetch(if eof then InputEof else InputEod, [])
    else
      var b := q[0];
      match b.kind
      case SourceType =>
        var f := nested.getData(b.tree, skip, length);
        if f.status == InputEod && eof then Fetch(InputEof, f.bytes) else f
      case TokenType => Fetch(InputTree, [])
      case IgnoreType => Fetch(InputIgnore, [])
      case DataType =>
        var avail := b.Avail();
        if avail > 0 then
          var slen := if avail <= length then avail else length;
          if skip > 0 && slen <= skip then GetDataFrom(q[1..], skip - slen, length, eof, nested)
          else Fetch(InputData, b.data[b.offset + skip..b.offset + slen])
        else GetDataFrom(q[1..], skip, length, eof, nested)
  }

  /**
   * Without a skip, a read returns the first bytes the stream offers, and
   * reports data exactly when there are bytes before the first tree buffer.
   */
  lemma {:induction false} GetDataNoSkip(q: seq<RunBuf>, length: nat, eof: bool, nested: Nested)
    requires NoSource(q)
    ensures GetDataFrom(q, 0, length, eof, nested).bytes <= Unread(q)
    ensures GetDataFrom(q, 0, length, eof, nested).status == InputData <==> |Unread(q)| > 0
    decreases |q|
  {
    if |q| == 0 || q[0].kind != DataType {
      GetDataAtTree(q, 0, length, eof, nested);
    } else if q[0].Avail() > 0 {
      GetDataCopiesHead(q, length, eof, nested);
    } else {
      NoSourceTail(q);
      GetDataNoSkip(q[1..], length, eof, nested);
      GetDataPassesEmpty(q, length, eof, nested);
    }
  }

  /** Without a skip, a data head with bytes left is where the copy comes from. */
  lemma GetDataCopiesHead(q: seq<RunBuf>, length: nat, eof: bool, nested: Nested)
    requires |q| > 0 && q[0].kind == DataType && q[0].Avail() > 0
    ensures GetDataFrom(q, 0, length, eof, nested) == Fetch(InputData, q[0].Unread()[..Min(q[0].Avail(), length)])
    ensures GetDataFrom(q, 0, length, eof, nested).bytes <= Unread(q)
    ensures GetDataFrom(q, 0, length, eof, nested).status == InputData <==> |Unread(q)| > 0
  {
    UnreadDataHead(q);
  }

  /** Without a skip, an exhausted data head is passed over. */
  lemma GetDataPassesEmpty(q: seq<RunBuf>, length: nat, eof: bool, nested: Nested)
    requires |q| > 0 && q[0].kind == DataType && q[0].Avail() <= 0
    requires GetDataFrom(q[1..], 0, length, eof, nested).bytes <= Unread(q[1..])
    requires GetDataFrom(q[1..], 0, length, eof, nested).status == InputData <==> |Unread(q[1..])| > 0
    ensures GetDataFrom(q, 0, length, eof, nested) == GetDataFrom(q[1..], 0, length, eof, nested)
    ensures GetDataFrom(q, 0, length, eof, nested).bytes <= Unread(q)
    ensures GetDataFrom(q, 0, length, eof, nested).status == InputData <==> |Unread(q)| > 0
  {
    UnreadDataHead(q);
    assert q[0].Unread() == [];
    assert Unread(q) == Unread(q[1..]);
  }

  /**
   * When `length` covers a whole buffer, skipping works on the stream's bytes
   * as a whole: the copy starts `skip` bytes in, and there is data to report
   * exactly when the skip stays short of the first tree buffer.
   */
  lemma {:induction false} GetDataSkip(q: seq<RunBuf>, skip: nat, length: nat, eof: bool, nested: Nested)
    requires ValidQueue(q) && NoSource(q)
    requires length >= FsmBufSize && skip <= |Unread(q)|
    ensures GetDataFrom(q, skip, length, eof, nested).bytes <= Unread(q)[skip..]
    ensures GetDataFrom(q, skip, length, eof, nested).status == InputData <==> skip < |Unread(q)|
    decreases |q|
  {
    if |q| == 0 || q[0].kind != DataType {
      GetDataAtTree(q, skip, length, eof, nested);
    } else {
      var passes := !(q[0].Avail() > 0 && !(skip > 0 && q[0].Avail() <= skip));
      if passes {
        ValidNoSourceTail(q);
        GetDataPasses(q, skip, length, eof, nested);
        GetDataSkip(q[1..], skip - q[0].Avail(), length, eof, nested);
      }
      GetDataSkipHead(q, skip, length, eof, nested);
    }
  }

  /** One step of a whole-buffer read with a skip at a data head: copy from it, or pass it. */
  lemma GetDataSkipHead(q: seq<RunBuf>, skip: nat, length: nat, eof: bool, nested: Nested)
    requires |q| > 0 && q[0].Valid() && q[0].kind == DataType && length >= FsmBufSize
    requires skip <= |Unread(q)|
    requires !(q[0].Avail() > 0 && !(skip > 0 && q[0].Avail() <= skip)) ==>
      && q[0].Avail() <= skip
      && GetDataFrom(q, skip, length, eof, nested) == GetDataFrom(q[1..], skip - q[0].Avail(), length, eof, nested)
      && GetDataFrom(q[1..], skip - q[0].Avail(), length, eof, nested).bytes <= Unread(q[1..])[skip - q[0].Avail()..]
      && (GetDataFrom(q[1..], skip - q[0].Avail(), length, eof, nested).status == InputData <==> skip - q[0].Avail() < |Unread(q[1..])|)
    ensures GetDataFrom(q, skip, length, eof, nested).bytes <= Unread(q)[skip..]
    ensures GetDataFrom(q, skip, length, eof, nested).status == InputData <==> skip < |Unread(q)|
  {
    if q[0].Avail() > 0 && !(skip > 0 && q[0].Avail() <= skip) {
      GetDataCopies(q, skip, length, eof, nested);
    } else {
      GetDataPassed(q, skip, length, eof, nested);
    }
  }

  /** A queue without nested streams whose head is not data offers no bytes, so a read reports no data. */
  lemma GetDataAtTree(q: seq<RunBuf>, skip: nat, length: nat, eof: bool, nested: Nested)
    requires NoSource(q) && (|q| == 0 || q[0].kind != DataType)
    ensures Unread(q) == []
    ensures GetDataFrom(q, skip, length, eof, nested).bytes == []
    ensures GetDataFrom(q, skip, length, eof, nested).status != InputData
  {
  }

  /** The buffers behind the head of a queue of valid buffers without nested streams are such a queue too. */
  lemma ValidNoSourceTail(q: seq<RunBuf>)
    requires |q| > 0 && ValidQueue(q) && NoSource(q)
    ensures ValidQueue(q[1..]) && NoSource(q[1..])
  {
    forall i | 0 <= i < |q[1..]| ensures q[1..][i].Valid() && q[1..][i].kind != SourceType {
      assert q[1..][i] == q[i + 1];
    }
  }

  /** A whole-buffer read at a data head whose skip falls inside it copies the rest of that buffer. */
  lemma GetDataCopies(q: seq<RunBuf>, skip: nat, length: nat, eof: bool, nested: Nested)
    requires |q| > 0 && q[0].Valid() && q[0].kind == DataType && length >= FsmBufSize
    requires q[0].Avail() > 0 && !(skip > 0 && q[0].Avail() <= skip)
    ensures skip < |q[0].Unread()| && skip < |Unread(q)|
    ensures GetDataFrom(q, skip, length, eof, nested) == Fetch(InputData, q[0].Unread()[skip..])
    ensures GetDataFrom(q, skip, length, eof, nested).bytes <= Unread(q)[skip..]
  {
    var b := q[0];
    UnreadDataHead(q);
    assert b.data[b.offset + skip..b.offset + b.Avail()] == b.Unread()[skip..];
    DropAppend(b.Unread(), Unread(q[1..]), skip);
  }

  /** A whole-buffer read at a data head that the skip covers moves on to the next buffer. */
  lemma GetDataPasses(q: seq<RunBuf>, skip: nat, length: nat, eof: bool, nested: Nested)
    requires |q| > 0 && q[0].Valid() && q[0].kind == DataType && length >= FsmBufSize
    requires !(q[0].Avail() > 0 && !(skip > 0 && q[0].Avail() <= skip))
    requires skip <= |Unread(q)|
    ensures q[0].Avail() <= skip && skip - q[0].Avail() <= |Unread(q[1..])|
    ensures GetDataFrom(q, skip, length, eof, nested) == GetDataFrom(q[1..], skip - q[0].Avail(), length, eof, nested)
  {
    UnreadDataHead(q);
    GetDataPassesStep(q, skip, length, eof, nested);
  }

  lemma GetDataPassesStep(q: seq<RunBuf>, skip: nat, length: nat, eof: bool, nested: Nested)
    requires |q| > 0 && q[0].Valid() && q[0].kind == DataType && length >= FsmBufSize
    requires !(q[0].Avail() > 0 && !(skip > 0 && q[0].Avail() <= skip))
    ensures q[0].Avail() <= skip
    ensures GetDataFrom(q, skip, length, eof, nested) == GetDataFrom(q[1..], skip - q[0].Avail(), length, eof, nested)
  {
  }

  /** What a read finds past a skipped head is what it finds in the whole queue past the skip. */
  lemma GetDataPassed(q: seq<RunBuf>, skip: nat, length: nat, eof: bool, nested: Nested)
    requires |q| > 0 && q[0].Valid() && q[0].kind == DataType
    requires q[0].Avail() <= skip <= |Unread(q)|
    requires GetDataFrom(q, skip, length, eof, nested) == GetDataFrom(q[1..], skip - q[0].Avail(), length, eof, nested)
    requires GetDataFrom(q[1..], skip - q[0].Avail(), length, eof, nested).bytes <= Unread(q[1..])[skip - q[0].Avail()..]
    requires GetDataFrom(q[1..], skip - q[0].Avail(), length, eof, nested).status == InputData <==> skip - q[0].Avail() < |Unread(q[1..])|
    ensures GetDataFrom(q, skip, length, eof, nested).bytes <= Unread(q)[skip..]
    ensures GetDataFrom(q, skip, length, eof, nested).status == InputData <==> skip < |Unread(q)|
  {
    UnreadDataHead(q);
    DropAppend(q[0].Unread(), Unread(q[1..]), q[0].Avail());
    DropDrop(Unread(q), q[0].Avail(), skip - q[0].Avail());
  }

  /**
   * A skip is counted against the bytes `length` lets the buffer offer, not
   * against the buffer: with a 6-byte buffer, a skip of 3 and a length of 2,
   * the read moves on to the next buffer and never returns the fourth byte.
   */
  lemma GetDataShortLengthSkipsBuffer(eof: bool, nested: Nested)
    ensures var q := [DataBuf([1, 2, 3, 4, 5, 6])];
      GetDataFrom(q, 3, 2, eof, nested) == Fetch(if eof then InputEof else InputEod, [])
  {
    var q := [DataBuf([1, 2, 3, 4, 5, 6])];
    assert q[1..] == [];
  }

  /**
   * The read `getData` evidently intends: a buffer is passed over only when
   * the skip covers all its bytes, and otherwise up to `length` bytes are
   * copied from the first one past the skip.
   */
  function GetDataFromIntended(q: seq<RunBuf>, skip: nat, length: nat, eof: bool, nested: Nested): (r: Fetch)
    ensures HonestGet(nested) ==> |r.bytes| <= length
    ensures r.status == InputEod ==> !eof
    decreases |q|
  {
    if |q| == 0 then Fetch(if eof then InputEof else InputEod, [])
    else
      var b := q[0];
      match b.kind
      case SourceType =>
        var f := nested.getData(b.tree, skip, length);
        if f.status == InputEod && eof then Fetch(InputEof, f.bytes) else f
      case TokenType => Fetch(InputTree, [])
      case IgnoreType => Fetch(InputIgnore, [])
      case DataType =>
        var avail := b.Avail();
        if avail > 0 then
          if skip > 0 && avail <= skip then GetDataFromIntended(q[1..], skip - avail, length, eof, nested)
          else Fetch(InputData, b.data[b.offset + skip..b.offset + skip + Min(avail - skip, length)])
        else GetDataFromIntended(q[1..], skip, length, eof, nested)
  }

  /** The intended read of the buffer above returns its fourth and fifth bytes. */
  lemma GetDataIntendedReadsPastSkip(eof: bool, nested: Nested)
    ensures var q := [DataBuf([1, 2, 3, 4, 5, 6])];
      GetDataFromIntended(q, 3, 2, eof, nested) == Fetch(InputData, [4, 5])
  {
  }

  /** What the intended read promises: data past the skip, up to the first tree buffer, for any length. */
  ghost predicate ReadsPastSkip(q: seq<RunBuf>, skip: nat, length: nat, f: Fetch)
  {
    && (f.status == InputData <==> skip < |Unread(q)|)
    && (f.status == InputData ==> skip <= |Unread(q)| && f.bytes <= Unread(q)[skip..])
    && (f.status == InputData && length > 0 ==> |f.bytes| > 0)
    && (f.status != InputData ==> f.bytes == [])
  }

  /**
   * Without nested streams, the intended read copies bytes that follow the
   * first `skip` readable ones, at least one when `length` allows any, and
   * reports data exactly when the skip stays short of the first tree buffer.
   */
  lemma {:induction false} GetDataIntendedSkip(q: seq<RunBuf>, skip: nat, length: nat, eof: bool, nested: Nested)
    requires NoSource(q)
    ensures ReadsPastSkip(q, skip, length, GetDataFromIntended(q, skip, length, eof, nested))
    decreases |q|
  {
    if |q| == 0 || q[0].kind != DataType {
      GetDataAtTree(q, skip, length, eof, nested);
    } else {
      NoSourceTail(q);
      var b := q[0];
      if b.Avail() <= 0 {
        GetDataIntendedSkip(q[1..], skip, length, eof, nested);
        IntendedPassesEmpty(q, skip, length, eof, nested);
      } else if skip > 0 && b.Avail() <= skip {
        GetDataIntendedSkip(q[1..], skip - b.Avail(), length, eof, nested);
        IntendedPassesSkipped(q, skip, length, eof, nested);
      } else {
        IntendedCopies(q, skip, length, eof, nested);
      }
    }
  }

  /** An exhausted data head is passed over without touching the skip. */
  lemma IntendedPassesEmpty(q: seq<RunBuf>, skip: nat, length: nat, eof: bool, nested: Nested)
    requires |q| > 0 && q[0].kind == DataType && q[0].Avail() <= 0
    requires ReadsPastSkip(q[1..], skip, length, GetDataFromIntended(q[1..], skip, length, eof, nested))
    ensures ReadsPastSkip(q, skip, length, GetDataFromIntended(q, skip, length, eof, nested))
  {
    UnreadDataHead(q);
    assert q[0].Unread() == [];
    assert Unread(q) == Unread(q[1..]);
  }

  /** A data head whose bytes the skip covers is passed over, the skip shortened by its bytes. */
  lemma IntendedPassesSkipped(q: seq<RunBuf>, skip: nat, length: nat, eof: bool, nested: Nested)
    requires |q| > 0 && q[0].kind == DataType && 0 < q[0].Avail() <= skip
    requires ReadsPastSkip(q[1..], skip - q[0].Avail(), length, GetDataFromIntended(q[1..], skip - q[0].Avail(), length, eof, nested))
    ensures ReadsPastSkip(q, skip, length, GetDataFromIntended(q, skip, length, eof, nested))
  {
    IntendedPassStep(q, skip, length, eof, nested);
    UnreadDataHead(q);
    SkipPastHead(q[0].Unread(), Unread(q[1..]), Unread(q), skip);
  }

  lemma IntendedPassStep(q: seq<RunBuf>, skip: nat, length: nat, eof: bool, nested: Nested)
    requires |q| > 0 && q[0].kind == DataType && 0 < q[0].Avail() <= skip
    ensures |q[0].Unread()| == q[0].Avail()
    ensures GetDataFromIntended(q, skip, length, eof, nested) == GetDataFromIntended(q[1..], skip - q[0].Avail(), length, eof, nested)
  {
  }

  /** Skipping past the bytes of the head buffer is skipping into the bytes behind it. */
  lemma SkipPastHead(u0: seq<byte>, rest: seq<byte>, u: seq<byte>, skip: nat)
    requires u == u0 + rest && |u0| <= skip
    ensures skip < |u| <==> skip - |u0| < |rest|
    ensures skip <= |u| ==> skip - |u0| <= |rest| && u[skip..] == rest[skip - |u0|..]
  {
    if skip <= |u| {
      DropAppend(u0, rest, |u0|);
      DropDrop(u, |u0|, skip - |u0|);
    }
  }

  /** A data head with bytes past the skip is where the copy comes from. */
  lemma IntendedCopies(q: seq<RunBuf>, skip: nat, length: nat, eof: bool, nested: Nested)
    requires |q| > 0 && q[0].kind == DataType && q[0].Avail() > 0 && !(skip > 0 && q[0].Avail() <= skip)
    ensures ReadsPastSkip(q, skip, length, GetDataFromIntended(q, skip, length, eof, nested))
  {
    var b := q[0];
    var m := Min(b.Avail() - skip, length);
    UnreadDataHead(q);
    assert b.Unread() == b.data[b.offset..];
    assert b.data[b.offset + skip..b.offset + skip + m] == b.Unread()[skip..][..m];
    DropAppend(b.Unread(), Unread(q[1..]), skip);
  }

  // ---------------------------------------------------------------------
  // consumeData and undoConsumeData
  // ---------------------------------------------------------------------

  /**
   * The bytes a consume takes from a data buffer: what is available, capped
   * by the request, and nothing when the offset has reached the length.
   */
  function DataSlen(b: RunBuf, length: nat): (n: nat)
    requires b.kind == DataType
    ensures n == Min(|b.Unread()|, length)
  {
    var avail := b.Avail();
    if avail > 0 then (if avail <= length then avail else length) else 0
  }

  /**
   * The loop of `consumeData`: take up to `length` bytes from the head,
   * advancing read offsets, popping each head buffer it has to move past,
   * and stopping at a token or ignore buffer.
   */
  function ConsumeQueue(q: seq<RunBuf>, length: nat, nested: Nested): (r: (seq<RunBuf>, nat))
    requires HonestConsume(nested)
    ensures r.1 <= length
    decreases |q|
  {
    if |q| == 0 then (q, 0)
    else if q[0].kind == TokenType || q[0].kind == IgnoreType then (q, 0)
    else
      var b := q[0];
      var slen := if b.kind == SourceType then nested.consumeData(b.tree, length) else DataSlen(b, length);
      if length - slen == 0 then
        (if b.kind == DataType then [b.(offset := b.offset + slen)] + q[1..] else q, slen)
      else
        var rest := ConsumeQueue(q[1..], length - slen, nested);
        (rest.0, slen + rest.1)
  }

  /**
   * What a consume leaves: a suffix of the queue whose head may have been
   * read further, but never past its end.
   */
  predicate Remains(q: seq<RunBuf>, r: seq<RunBuf>)
  {
    && |r| <= |q|
    && (|r| > 0 ==>
         && r[1..] == q[|q| - |r| + 1..]
         && r[0] == q[|q| - |r|].(offset := r[0].offset)
         && q[|q| - |r|].offset <= r[0].offset
         && (r[0].offset == q[|q| - |r|].offset || r[0].offset <= |r[0].data|))
  }

  /** `consumeData`: advance the stream by up to `length` bytes; returns the count consumed. */
  function ConsumeData(st: InputStream, length: nat, nested: Nested): (r: (InputStream, nat))
    requires HonestConsume(nested)
    ensures r.1 <= length && Remains(st.queue, r.0.queue)
    ensures r.0.eof == st.eof && r.0.nestedEof == st.nestedEof
  {
    var c := ConsumeQueue(st.queue, length, nested);
    ConsumeRemains(st.queue, length, nested);
    (st.(queue := c.0), c.1)
  }

  /** A consume only pops buffers off the head and reads the new head further, never past its end. */
  lemma {:induction false} ConsumeRemains(q: seq<RunBuf>, length: nat, nested: Nested)
    requires HonestConsume(nested)
    ensures Remains(q, ConsumeQueue(q, length, nested).0)
    decreases |q|
  {
    if |q| > 0 && q[0].kind != TokenType && q[0].kind != IgnoreType {
      var b := q[0];
      var slen := if b.kind == SourceType then nested.consumeData(b.tree, length) else DataSlen(b, length);
      if length - slen != 0 {
        ConsumeRemains(q[1..], length - slen, nested);
        RemainsTail(q, ConsumeQueue(q[1..], length - slen, nested).0);
      }
    }
  }

  /** What remains of the queue behind the head remains of the queue. */
  lemma RemainsTail(q: seq<RunBuf>, r: seq<RunBuf>)
    requires |q| > 0 && Remains(q[1..], r)
    ensures Remains(q, r)
  {
    if |r| > 0 {
      assert q[1..][|q[1..]| - |r|] == q[|q| - |r|];
      DropDrop(q, 1, |q[1..]| - |r| + 1);
    }
  }

  /** What remains of a queue of valid buffers is valid. */
  lemma RemainsValid(q: seq<RunBuf>, r: seq<RunBuf>)
    requires ValidQueue(q) && Remains(q, r)
    ensures ValidQueue(r)
  {
    if |r| > 0 {
      forall i | 0 <= i < |r| ensures r[i].Valid() {
        if i > 0 {
          assert r[i] == r[1..][i - 1] == q[|q| - |r| + i];
        }
      }
    }
  }

  /** Consuming keeps every buffer of the stream valid. */
  lemma ConsumeDataValid(st: InputStream, length: nat, nested: Nested)
    requires ValidQueue(st.queue) && HonestConsume(nested)
    ensures ValidQueue(ConsumeData(st, length, nested).0.queue)
  {
    RemainsValid(st.queue, ConsumeData(st, length, nested).0.queue);
  }

  /**
   * Without nested streams, `consumeData` consumes exactly as many bytes as
   * are readable up to the request, and what the stream offers afterwards is
   * what it offered before minus those bytes.
   */
  lemma ConsumeDataContent(q: seq<RunBuf>, length: nat, nested: Nested)
    requires HonestConsume(nested) && NoSource(q)
    ensures ConsumeQueue(q, length, nested).1 == Min(length, |Unread(q)|)
    ensures Content(ConsumeQueue(q, length, nested).0) == Content(q)[ConsumeQueue(q, length, nested).1..]
  {
    ConsumeReadable(q, length, nested);
  }

  /** The consume of `length` bytes from q took the readable bytes it could, and the offer lost exactly those. */
  ghost predicate ConsumesReadable(q: seq<RunBuf>, length: nat, nested: Nested)
    requires HonestConsume(nested)
  {
    var r := ConsumeQueue(q, length, nested);
    r.1 == Min(length, |Unread(q)|) && Content(r.0) == Content(q)[r.1..]
  }

  lemma {:induction false} ConsumeReadable(q: seq<RunBuf>, length: nat, nested: Nested)
    requires HonestConsume(nested) && NoSource(q)
    ensures ConsumesReadable(q, length, nested)
    decreases |q|
  {
    if |q| > 0 && q[0].kind == DataType && length > |q[0].Unread()| {
      NoSourceTail(q);
      ConsumeReadable(q[1..], length - |q[0].Unread()|, nested);
    }
    ConsumeStep(q, length, nested);
  }

  /** One step of a consume: stop at a tree or inside the data head, or drain the head and go on. */
  lemma ConsumeStep(q: seq<RunBuf>, length: nat, nested: Nested)
    requires HonestConsume(nested) && NoSource(q)
    requires |q| > 0 && q[0].kind == DataType && length > |q[0].Unread()| ==>
      ConsumesReadable(q[1..], length - |q[0].Unread()|, nested)
    ensures ConsumesReadable(q, length, nested)
  {
    if |q| == 0 || q[0].kind != DataType {
      ConsumeAtTree(q, length, nested);
    } else if length <= |q[0].Unread()| {
      ConsumeStops(q, length, nested);
    } else {
      ConsumePasses(q, length, nested);
    }
  }

  /** A consume at a token or ignore head, or on an empty queue, takes nothing. */
  lemma ConsumeAtTree(q: seq<RunBuf>, length: nat, nested: Nested)
    requires HonestConsume(nested) && NoSource(q) && (|q| == 0 || q[0].kind != DataType)
    ensures ConsumeQueue(q, length, nested) == (q, 0) && Unread(q) == []
    ensures ConsumesReadable(q, length, nested)
  {
  }

  lemma NoSourceTail(q: seq<RunBuf>)
    requires |q| > 0 && NoSource(q)
    ensures NoSource(q[1..])
  {
    forall i | 0 <= i < |q[1..]| ensures q[1..][i].kind != SourceType {
      assert q[1..][i] == q[i + 1];
    }
  }

  /** A consume that the data head covers stops there, having read `length` more of it. */
  lemma ConsumeStops(q: seq<RunBuf>, length: nat, nested: Nested)
    requires HonestConsume(nested) && |q| > 0 && q[0].kind == DataType
    requires length <= |q[0].Unread()|
    ensures ConsumeQueue(q, length, nested) == ([q[0].(offset := q[0].offset + length)] + q[1..], length)
    ensures ConsumesReadable(q, length, nested)
  {
    ConsumeStopsStep(q, length, nested);
    StoppedView(q, length);
  }

  lemma ConsumeStopsStep(q: seq<RunBuf>, length: nat, nested: Nested)
    requires HonestConsume(nested) && |q| > 0 && q[0].kind == DataType
    requires length <= |q[0].Unread()|
    ensures ConsumeQueue(q, length, nested) == ([q[0].(offset := q[0].offset + length)] + q[1..], length)
  {
  }

  /** Reading `length` more bytes of the data head consumes that many readable bytes and offered items. */
  lemma StoppedView(q: seq<RunBuf>, length: nat)
    requires |q| > 0 && q[0].kind == DataType && length <= |q[0].Unread()|
    ensures length == Min(length, |Unread(q)|)
    ensures Content([q[0].(offset := q[0].offset + length)] + q[1..]) == Content(q)[length..]
  {
    UnreadDataHead(q);
    ContentAdvanceHead(q, length);
  }

  /** A consume longer than the data head takes what it has, pops it and goes on with the rest. */
  lemma ConsumePasses(q: seq<RunBuf>, length: nat, nested: Nested)
    requires HonestConsume(nested) && |q| > 0 && q[0].kind == DataType
    requires length > |q[0].Unread()|
    requires ConsumesReadable(q[1..], length - |q[0].Unread()|, nested)
    ensures ConsumesReadable(q, length, nested)
  {
    var rest := ConsumeQueue(q[1..], length - |q[0].Unread()|, nested);
    ConsumePassesStep(q, length, nested);
    PassedView(q, length, rest.0, rest.1);
  }

  /** Draining the data head and then m bytes of the rest consumes the head's bytes plus m. */
  lemma PassedView(q: seq<RunBuf>, length: nat, r: seq<RunBuf>, m: nat)
    requires |q| > 0 && q[0].kind == DataType && length > |q[0].Unread()|
    requires m == Min(length - |q[0].Unread()|, |Unread(q[1..])|) && Content(r) == Content(q[1..])[m..]
    ensures |q[0].Unread()| + m == Min(length, |Unread(q)|)
    ensures Content(r) == Content(q)[|q[0].Unread()| + m..]
  {
    var k := |q[0].Unread()|;
    ConsumeDrainsHead(q);
    MinShift(length, k, |Unread(q[1..])|, m);
    ShiftOffer(Content(q), Content(q[1..]), k, m, Content(r));
  }

  lemma MinShift(length: int, k: int, u1: int, m: int)
    requires length > k >= 0 && u1 >= 0 && m == Min(length - k, u1)
    ensures k + m == Min(length, k + u1)
  {
  }

  lemma ConsumePassesStep(q: seq<RunBuf>, length: nat, nested: Nested)
    requires HonestConsume(nested) && |q| > 0 && q[0].kind == DataType
    requires length > |q[0].Unread()|
    ensures var rest := ConsumeQueue(q[1..], length - |q[0].Unread()|, nested);
      ConsumeQueue(q, length, nested) == (rest.0, |q[0].Unread()| + rest.1)
  {
  }

  /** Passing over a data head removes all the items it offered. */
  lemma ConsumeDrainsHead(q: seq<RunBuf>)
    requires |q| > 0 && q[0].kind == DataType
    ensures |Unread(q)| == |q[0].Unread()| + |Unread(q[1..])|
    ensures Content(q)[|q[0].Unread()|..] == Content(q[1..])
  {
    UnreadDataHead(q);
    DropAppend(Items(q[0].Unread()), Content(q[1..]), |q[0].Unread()|);
  }

  /**
   * `undoConsumeData`: put bytes back in front of the stream, or hand them to
   * the nested stream at the head. The bytes are copied into a fresh buffer
   * whatever their number; more than `FsmBufSize` of them overflow its fixed
   * array, which shows here as a head buffer that is not valid.
   */
  function UndoConsumeData(st: InputStream, data: seq<byte>, nested: Nested): (r: (InputStream, nat))
    ensures SourceHead(st.queue) ==> r.0 == st
    ensures !SourceHead(st.queue) ==> r.1 == |data| && r.0.eof == st.eof && r.0.nestedEof == st.nestedEof
    ensures !SourceHead(st.queue) ==> |r.0.queue| == |st.queue| + 1 && r.0.queue[1..] == st.queue
    ensures !SourceHead(st.queue) ==> r.0.queue[0].kind == DataType && r.0.queue[0].Unread() == data
    ensures !SourceHead(st.queue) && ValidQueue(st.queue) ==> (ValidQueue(r.0.queue) <==> |data| <= FsmBufSize)
  {
    if SourceHead(st.queue) then
      (st, nested.undoConsumeData(st.queue[0].tree, data))
    else
      var r := st.(queue := Queue.Prepend(st.queue, NewRunBuf().(data := data)));
      assert r.queue[1..] == st.queue;
      assert ValidQueue(r.queue) ==> r.queue[0].Valid();
      (r, |data|)
  }

  /** After un-consuming, the given bytes are the next ones the stream offers. */
  lemma UndoConsumeDataContent(st: InputStream, data: seq<byte>, nested: Nested)
    requires !SourceHead(st.queue)
    ensures Content(UndoConsumeData(st, data, nested).0.queue) == Items(data) + Content(st.queue)
    ensures Unread(UndoConsumeData(st, data, nested).0.queue) == data + Unread(st.queue)
  {
    var q' := UndoConsumeData(st, data, nested).0.queue;
    ContentCons(q'[0], st.queue);
    assert q'[1..] == st.queue;
  }

  /** Consuming bytes and then un-consuming the same bytes leaves the stream offering what it offered before. */
  lemma ConsumeThenUndo(st: InputStream, length: nat, nested: Nested)
    requires HonestConsume(nested) && NoSource(st.queue)
    ensures var (st1, n) := ConsumeData(st, length, nested);
      n <= |Unread(st.queue)| &&
      Content(UndoConsumeData(st1, Unread(st.queue)[..n], nested).0.queue) == Content(st.queue)
  {
    var (st1, n) := ConsumeData(st, length, nested);
    ConsumeDataContent(st.queue, length, nested);
    UnreadIsContentPrefix(st.queue);
    RemainsNoSource(st.queue, st1.queue);
    var bytes := Unread(st.queue)[..n];
    UndoConsumeDataContent(st1, bytes, nested);
    RestorePrefix(Content(st.queue), Unread(st.queue), n);
  }

  /** Putting the first n readable bytes back in front of what follows them rebuilds the offer. */
  lemma RestorePrefix(c: seq<Item>, u: seq<byte>, n: nat)
    requires Items(u) <= c && n <= |u|
    ensures Items(u[..n]) + c[n..] == c
  {
    ItemsPrefix(u, n);
    PrefixTake(Items(u), c, n);
    TakeDrop(c, n);
  }

  /** What remains of a queue without nested streams has none either. */
  lemma RemainsNoSource(q: seq<RunBuf>, r: seq<RunBuf>)
    requires NoSource(q) && Remains(q, r)
    ensures NoSource(r)
  {
    forall i | 0 <= i < |r| ensures r[i].kind != SourceType {
      if i > 0 {
        assert r[i] == r[1..][i - 1] == q[|q| - |r| + i];
      } else {
        assert r[0].kind == q[|q| - |r|].kind;
      }
    }
  }

  /** Un-consuming bytes and then consuming as many gives back exactly that count and the stream's offer. */
  lemma UndoThenConsume(st: InputStream, data: seq<byte>, nested: Nested)
    requires HonestConsume(nested) && NoSource(st.queue)
    ensures var st1 := UndoConsumeData(st, data, nested).0;
      var (st2, n) := ConsumeData(st1, |data|, nested);
      n == |data| && Content(st2.queue) == Content(st.queue)
  {
    var st1 := UndoConsumeData(st, data, nested).0;
    UndoConsumeDataContent(st, data, nested);
    assert NoSource(st1.queue) by {
      assert st1.queue[1..] == st.queue;
    }
    ConsumeDataContent(st1.queue, |data|, nested);
    DropAppend(Items(data), Content(st.queue), |data|);
  }

  // ---------------------------------------------------------------------
  // consumeTree and undoConsumeTree
  // ---------------------------------------------------------------------

  /** The leading data buffers that are fully read, which `consumeTree` frees. */
  function DropDrained(q: seq<RunBuf>): (r: seq<RunBuf>)
    ensures |r| <= |q| && r == q[|q| - |r|..]
    ensures |r| > 0 ==> !(r[0].kind == DataType && r[0].offset == |r[0].data|)
    decreases |q|
  {
    if |q| > 0 && q[0].kind == DataType && q[0].offset == |q[0].data| then DropDrained(q[1..]) else q
  }

  lemma {:induction false} DropDrainedContent(q: seq<RunBuf>)
    ensures Content(DropDrained(q)) == Content(q)
  {
    if |q| > 0 && q[0].kind == DataType && q[0].offset == |q[0].data| {
      DropDrainedContent(q[1..]);
      UnreadDataHead(q);
    }
  }

  /** `consumeTree`: free the drained data buffers at the head, then take the head's tree if it is a token or ignored token. */
  function ConsumeTree(st: InputStream): (r: (InputStream, Option<TreeId>))
    ensures r.0.eof == st.eof && r.0.nestedEof == st.nestedEof
    ensures |r.0.queue| <= |st.queue| && r.0.queue == st.queue[|st.queue| - |r.0.queue|..]
  {
    var q := DropDrained(st.queue);
    if |q| > 0 && (q[0].kind == TokenType || q[0].kind == IgnoreType) then
      var (b, rest) := Queue.PopHead(q);
      (st.(queue := rest), Some(b.tree))
    else
      (st.(queue := q), None)
  }

  /**
   * `consumeTree` returns a tree exactly when the stream offers a token or
   * ignored token next, and then the stream offers the rest; otherwise the
   * stream offers what it did before.
   */
  lemma ConsumeTreeContent(st: InputStream)
    requires ValidQueue(st.queue)
    ensures var (st1, t) := ConsumeTree(st);
      var c := Content(st.queue);
      && (t.Some? <==> |c| > 0 && (c[0].Tok? || c[0].Ign?))
      && (t.Some? ==> t.value == c[0].t && Content(st1.queue) == c[1..])
      && (t.None? ==> Content(st1.queue) == c)
  {
    var q := DropDrained(st.queue);
    DropDrainedContent(st.queue);
    ConsumeTreeShape(st);
    if |q| > 0 {
      assert q[0].Valid() by {
        assert q[0] == st.queue[|st.queue| - |q|];
      }
      FirstItem(q);
    }
  }

  /** What `consumeTree` leaves, in terms of the queue without its drained head buffers. */
  lemma ConsumeTreeShape(st: InputStream)
    ensures var q := DropDrained(st.queue);
      ConsumeTree(st) ==
        if |q| > 0 && (q[0].kind == TokenType || q[0].kind == IgnoreType)
        then (st.(queue := q[1..]), Some(q[0].tree))
        else (st.(queue := q), None)
  {
  }

  /** `undoConsumeTree`: put a token (or ignored token) tree back at the head. */
  function UndoConsumeTree(st: InputStream, tree: TreeId, ignore: bool): (r: InputStream)
    ensures r.eof == st.eof && r.nestedEof == st.nestedEof
    ensures Content(r.queue) == [if ignore then Ign(tree) else Tok(tree)] + Content(st.queue)
  {
    var b := TreeBuf(if ignore then IgnoreType else TokenType, tree);
    ContentCons(b, st.queue);
    st.(queue := Queue.Prepend(st.queue, b))
  }

  /** Putting a tree back and consuming a tree returns that tree and the stream exactly as it was. */
  lemma UndoConsumeTreeThenConsume(st: InputStream, tree: TreeId, ignore: bool)
    ensures ConsumeTree(UndoConsumeTree(st, tree, ignore)) == (st, Some(tree))
  {
    var st1 := UndoConsumeTree(st, tree, ignore);
    assert st1.queue[1..] == st.queue;
  }

  /** Consuming a tree and putting it back leaves the stream offering what it offered before. */
  lemma ConsumeTreeThenUndo(st: InputStream)
    requires ValidQueue(st.queue)
    ensures var (st1, t) := ConsumeTree(st);
      t.Some? ==>
        |Content(st.queue)| > 0 &&
        Content(UndoConsumeTree(st1, t.value, Content(st.queue)[0].Ign?).queue) == Content(st.queue)
  {
    ConsumeTreeContent(st);
    var (st1, t) := ConsumeTree(st);
    if t.Some? {
      ConsHead(Content(st.queue));
    }
  }

  // ---------------------------------------------------------------------
  // prependData, appendData and undoAppendData
  // ---------------------------------------------------------------------

  /** `prependData`: push text to the front for rescanning (a nested stream at the head takes it itself). */
  function PrependData(st: InputStream, data: seq<byte>): (r: InputStream)
    requires !SourceHead(st.queue) ==> |data| < FsmBufSize
    ensures SourceHead(st.queue) ==> r == st
    ensures !SourceHead(st.queue) ==>
      |r.queue| == |st.queue| + 1 && r.queue[1..] == st.queue && Unread(r.queue) == data + Unread(st.queue)
  {
    if SourceHead(st.queue) then st
    else
      var r := st.(queue := Queue.Prepend(st.queue, DataBuf(data)));
      assert r.queue[1..] == st.queue;
      r
  }

  /** The buffers `appendData` creates for `d`: full buffers of `FsmBufSize` bytes and a last, shorter or equal one. */
  function Chunks(d: seq<byte>): (cs: seq<RunBuf>)
    ensures ValidQueue(cs)
    ensures forall i :: 0 <= i < |cs| ==> cs[i].kind == DataType && cs[i].offset == 0 && 0 < |cs[i].data|
    ensures forall i :: 0 <= i < |cs| - 1 ==> |cs[i].data| == FsmBufSize
    ensures |cs| == 0 <==> |d| == 0
    ensures AllBytes(cs) == d
    decreases |d|
  {
    if |d| == 0 then []
    else
      var n := Min(|d|, FsmBufSize);
      var rest := Chunks(d[n..]);
      var cs := [DataBuf(d[..n])] + rest;
      assert cs[1..] == rest;
      assert d == d[..n] + d[n..];
      cs
  }

  /** The first buffer `appendData` fills takes the first `FsmBufSize` bytes, or all of them. */
  lemma ChunksStep(data: seq<byte>, pos: nat, consume: nat, total: nat)
    requires pos < total <= |data| && consume == Min(total - pos, FsmBufSize)
    ensures Chunks(data[pos..total]) == [DataBuf(data[pos..pos + consume])] + Chunks(data[pos + consume..total])
  {
    assert data[pos..total][..consume] == data[pos..pos + consume];
    assert data[pos..total][consume..] == data[pos + consume..total];
  }

  /** `appendData`: feed `len` bytes of `data` to the back of the stream, in buffers of at most `FsmBufSize` bytes. */
  method AppendData(st: InputStream, data: seq<byte>, len: int) returns (r: InputStream)
    requires len <= |data|
    ensures r.queue == st.queue + Chunks(data[..if len <= 0 then 0 else len])
    ensures r.eof == st.eof && r.nestedEof == st.nestedEof
  {
    var total := if len <= 0 then 0 else len;
    var q := st.queue;
    var pos := 0;
    var rest := total;
    while rest > 0
      invariant 0 <= pos <= total && pos + rest == total
      invariant q + Chunks(data[pos..total]) == st.queue + Chunks(data[..total])
    {
      var consume := if rest <= FsmBufSize then rest else FsmBufSize;
      var buf := NewRunBuf().(data := data[pos..pos + consume]);
      ChunksStep(data, pos, consume, total);
      AppendAssoc(q, buf, Chunks(data[pos + consume..total]));
      q := Queue.Append(q, buf);
      rest := rest - consume;
      pos := pos + consume;
    }
    AppendNothing(q, Chunks(data[pos..total]));
    TakeAll(data[..total]);
    r := st.(queue := q);
  }

  /** The tail with its last n bytes dropped. */
  function Shortened(t: RunBuf, n: nat): (r: RunBuf)
    requires n < t.Avail()
    ensures r.kind == t.kind && r.offset == t.offset && |r.data| == |t.data| - n
    ensures t.kind == DataType ==> r.Unread() == t.Unread()[..t.Avail() - n]
  {
    t.(data := t.data[..|t.data| - n])
  }

  /**
   * The reverse read of `undoAppendData` as intended: take `n` bytes off the
   * back, popping each tail buffer whose bytes it covers and shortening the
   * first one it does not. A pop leaves the queue minus its last element,
   * which is what the corrected `Queue.PopTail` does; the source's
   * `inputStreamPopTail2` drops the whole queue instead, which
   * `RevTrimAsWritten` models.
   */
  function RevTrim(q: seq<RunBuf>, n: nat): (r: seq<RunBuf>)
    ensures |r| <= |q|
    decreases |q|
  {
    if n == 0 || |q| == 0 then q
    else
      var t := q[|q| - 1];
      if n >= t.Avail() then RevTrim(q[..|q| - 1], n - t.Avail())
      else q[..|q| - 1] + [Shortened(t, n)]
  }

  /** Taking n bytes off the back leaves exactly the other bytes, in order. */
  lemma RevTrimBytes(q: seq<RunBuf>, n: nat)
    requires ValidQueue(q) && n <= |AllBytes(q)|
    ensures AllBytes(RevTrim(q, n)) == AllBytes(q)[..|AllBytes(q)| - n]
  {
    ValidBackwards(q);
    RevTrimKeeps(q, n);
  }

  /** Every buffer is valid, stated from the tail backwards as the reverse read walks the queue. */
  predicate ValidFromBack(q: seq<RunBuf>)
  {
    |q| == 0 || (q[|q| - 1].Valid() && ValidFromBack(q[..|q| - 1]))
  }

  lemma {:induction false} ValidBackwards(q: seq<RunBuf>)
    requires ValidQueue(q)
    ensures ValidFromBack(q)
    decreases |q|
  {
    if |q| > 0 {
      var init := q[..|q| - 1];
      assert ValidQueue(init) by {
        forall i | 0 <= i < |init| ensures init[i].Valid() {
          assert init[i] == q[i];
        }
      }
      ValidBackwards(init);
    }
  }

  /** Trimming n bytes off the back keeps the others. */
  ghost predicate KeepsFront(q: seq<RunBuf>, n: nat)
    requires n <= |AllBytes(q)|
  {
    AllBytes(RevTrim(q, n)) == AllBytes(q)[..|AllBytes(q)| - n]
  }

  lemma {:induction false} RevTrimKeeps(q: seq<RunBuf>, n: nat)
    requires ValidFromBack(q) && n <= |AllBytes(q)|
    ensures KeepsFront(q, n)
    decreases |q|
  {
    if n == 0 {
      TakeAll(AllBytes(q));
    } else {
      var init, t := SplitLast(q, n);
      if n >= t.Avail() {
        RevTrimKeeps(init, n - t.Avail());
      }
      RevTrimTail(q, init, t, n);
    }
  }

  /** One step of the reverse read: pop the tail and trim on, or shorten the tail. */
  lemma RevTrimTail(q: seq<RunBuf>, init: seq<RunBuf>, t: RunBuf, n: nat)
    requires |q| > 0 && init == q[..|q| - 1] && t == q[|q| - 1] && t.Valid()
    requires AllBytes(q) == AllBytes(init) + t.Unread()
    requires 0 < n <= |AllBytes(q)|
    requires n >= t.Avail() ==> n - t.Avail() <= |AllBytes(init)| && KeepsFront(init, n - t.Avail())
    ensures KeepsFront(q, n)
  {
    if n >= t.Avail() {
      RevTrimPopped(q, init, t, n);
    } else {
      RevTrimCutsTail(q, init, t, n);
    }
  }

  /** A queue with bytes to trim has a tail; the rest of it is valid and holds the bytes before the tail's. */
  lemma SplitLast(q: seq<RunBuf>, n: nat) returns (init: seq<RunBuf>, t: RunBuf)
    requires ValidFromBack(q) && 0 < n <= |AllBytes(q)|
    ensures |q| > 0 && init == q[..|q| - 1] && t == q[|q| - 1]
    ensures ValidFromBack(init) && t.Valid()
    ensures AllBytes(q) == AllBytes(init) + t.Unread()
    ensures n >= t.Avail() ==> n - t.Avail() <= |AllBytes(init)|
  {
    assert |q| > 0;
    init, t := q[..|q| - 1], q[|q| - 1];
    AllBytesLast(q);
  }

  lemma RevTrimPopped(q: seq<RunBuf>, init: seq<RunBuf>, t: RunBuf, n: nat)
    requires |q| > 0 && init == q[..|q| - 1] && t == q[|q| - 1] && t.Valid()
    requires AllBytes(q) == AllBytes(init) + t.Unread()
    requires 0 < n <= |AllBytes(q)| && t.Avail() <= n
    requires n - t.Avail() <= |AllBytes(init)| && KeepsFront(init, n - t.Avail())
    ensures KeepsFront(q, n)
  {
    RevTrimPopStep(q, n);
    TrimStep(AllBytes(init), t.Unread(), n, AllBytes(RevTrim(init, n - t.Avail())));
  }

  /** When the trim covers the tail's bytes, the tail is popped and the rest trimmed by what remains. */
  lemma RevTrimPopStep(q: seq<RunBuf>, n: nat)
    requires |q| > 0 && 0 < n && q[|q| - 1].Avail() <= n
    ensures RevTrim(q, n) == RevTrim(q[..|q| - 1], n - q[|q| - 1].Avail())
  {
  }

  /** A trim shorter than the tail's bytes shortens the tail. */
  lemma RevTrimCutsTail(q: seq<RunBuf>, init: seq<RunBuf>, t: RunBuf, n: nat)
    requires |q| > 0 && init == q[..|q| - 1] && t == q[|q| - 1] && t.Valid()
    requires AllBytes(q) == AllBytes(init) + t.Unread()
    requires 0 < n < t.Avail()
    ensures n <= |AllBytes(q)| && KeepsFront(q, n)
  {
    assert RevTrim(q, n) == init + [Shortened(t, n)];
    AllBytesSnoc(init, Shortened(t, n));
    TakeAppend(AllBytes(init), t.Unread(), |AllBytes(q)| - n);
  }

  /** Trimming keeps every buffer valid. */
  lemma {:induction false} RevTrimValid(q: seq<RunBuf>, n: nat)
    requires ValidQueue(q)
    ensures ValidQueue(RevTrim(q, n))
    decreases |q|
  {
    if n > 0 && |q| > 0 && n >= q[|q| - 1].Avail() {
      RevTrimValid(q[..|q| - 1], n - q[|q| - 1].Avail());
    }
  }

  /**
   * `undoAppendData` with the corrected pop-tail: remove `length` bytes from
   * the back, or, if the tail holds a tree, pop it and return the tree.
   * `UndoAppendDataAsWritten` is the source's version.
   */
  function UndoAppendData(st: InputStream, length: nat): (r: (InputStream, Option<TreeId>))
    requires |st.queue| > 0
    requires ValidQueue(st.queue)
    requires Queue.Tail(st.queue).value.kind == DataType ==> length <= |AllBytes(st.queue)|
    ensures ValidQueue(r.0.queue) && r.0.eof == st.eof && r.0.nestedEof == st.nestedEof
    ensures Queue.Tail(st.queue).value.kind == DataType ==>
      r.1.None? && AllBytes(r.0.queue) == AllBytes(st.queue)[..|AllBytes(st.queue)| - length]
    ensures Queue.Tail(st.queue).value.kind != DataType ==>
      r.1 == Some(st.queue[|st.queue| - 1].tree) && r.0.queue == st.queue[..|st.queue| - 1]
  {
    if Queue.Tail(st.queue).value.kind == DataType then
      RevTrimBytes(st.queue, length);
      RevTrimValid(st.queue, length);
      (st.(queue := RevTrim(st.queue, length)), None)
    else
      var (t, init) := Queue.PopTail(st.queue);
      (st.(queue := init), Some(t.tree))
  }

  /** Taking the bytes of appended buffers off the back pops exactly those buffers. */
  lemma {:induction false} RevTrimChunks(q: seq<RunBuf>, cs: seq<RunBuf>)
    requires ValidQueue(cs) && forall i :: 0 <= i < |cs| ==> cs[i].Avail() > 0
    ensures RevTrim(q + cs, |AllBytes(cs)|) == q
    decreases |cs|
  {
    if |cs| == 0 {
      assert q + cs == q;
    } else {
      RevTrimChunksStep(q, cs);
      RevTrimChunks(q, cs[..|cs| - 1]);
    }
  }

  /** One step of the reverse read over appended buffers: the last one is popped whole. */
  lemma RevTrimChunksStep(q: seq<RunBuf>, cs: seq<RunBuf>)
    requires |cs| > 0 && cs[|cs| - 1].Valid() && cs[|cs| - 1].Avail() > 0
    ensures RevTrim(q + cs, |AllBytes(cs)|) == RevTrim(q + cs[..|cs| - 1], |AllBytes(cs[..|cs| - 1])|)
  {
    var init := cs[..|cs| - 1];
    var t := cs[|cs| - 1];
    AllBytesLast(cs);
    assert |t.Unread()| == t.Avail();
    assert (q + cs)[..|q + cs| - 1] == q + init;
    assert (q + cs)[|q + cs| - 1] == t;
  }

  /** Appending a non-empty text and undoing the append of as many bytes restores the stream exactly. */
  lemma AppendDataThenUndo(st: InputStream, d: seq<byte>)
    requires ValidQueue(st.queue) && |d| > 0
    ensures var st1 := st.(queue := st.queue + Chunks(d));
      && |st1.queue| > 0
      && ValidQueue(st1.queue)
      && Queue.Tail(st1.queue).value.kind == DataType
      && |d| <= |AllBytes(st1.queue)|
      && UndoAppendData(st1, |d|) == (st, None)
  {
    var cs := Chunks(d);
    AllBytesAppend(st.queue, cs);
    RevTrimChunks(st.queue, cs);
  }

  /** Undoing an append of nothing is not a no-op when the tail holds a tree: the tree is popped. */
  lemma UndoEmptyAppendPopsTree(st: InputStream, t: TreeId)
    requires ValidQueue(st.queue)
    ensures var st1 := st.(queue := st.queue + [TreeBuf(TokenType, t)]);
      ValidQueue(st1.queue) && UndoAppendData(st1, 0) == (st, Some(t))
  {
    var st1 := st.(queue := st.queue + [TreeBuf(TokenType, t)]);
    assert st1.queue[..|st1.queue| - 1] == st.queue;
  }

  /**
   * One call of `inputStreamDynamicGetDataRev2` as written: a request that
   * covers the tail's bytes pops the tail through `Queue.PopTailAsWritten`,
   * which drops every buffer, and a shorter one shortens the tail. The second
   * component is the count the call returns.
   */
  function GetDataRev2AsWritten(q: seq<RunBuf>, n: nat): (r: (seq<RunBuf>, int))
    ensures |q| == 0 ==> r == (q, 0)
    ensures |q| > 0 ==> r.1 == Min(q[|q| - 1].Avail(), n)
    ensures r.0 == [] <==> |q| == 0 || n >= q[|q| - 1].Avail()
    ensures |q| > 0 && n < q[|q| - 1].Avail() ==> r.0 == RevTrim(q, n)
  {
    if |q| == 0 then (q, 0)
    else
      var t := q[|q| - 1];
      if n >= t.Avail() then
        Queue.PopTailAsWrittenEmpties(q);
        (Queue.PopTailAsWritten(q).1, t.Avail())
      else
        var r := q[..|q| - 1] + [Shortened(t, n)];
        assert n == 0 ==> t.data[..|t.data|] == t.data && r == q;
        (r, n)
  }

  /**
   * The loop of `undoAppendData` as written: reverse reads until `want` bytes
   * are taken. `None` is a loop that never ends: the queue has run dry, so
   * every further read takes nothing.
   */
  function RevTrimAsWritten(q: seq<RunBuf>, want: nat): (r: Option<seq<RunBuf>>)
    ensures want == 0 ==> r == Some(q)
    ensures want > 0 && |q| == 0 ==> r.None?
    decreases |q| + (if want > 0 then 1 else 0)
  {
    if want == 0 then Some(q)
    else if |q| == 0 then None
    else
      var (q1, got) := GetDataRev2AsWritten(q, want);
      RevTrimAsWritten(q1, want - got)
  }

  /**
   * The as-written loop against the intended trim: the two agree while the
   * bytes come from the tail buffer alone; a trim of exactly the tail's
   * bytes empties the queue where the intended one keeps the front; and a
   * trim that reaches past the tail never ends.
   */
  lemma RevTrimAsWrittenVsRevTrim(q: seq<RunBuf>, n: nat)
    ensures n == 0 ==> RevTrimAsWritten(q, n) == Some(RevTrim(q, n))
    ensures n > 0 && |q| > 0 && n < q[|q| - 1].Avail() ==> RevTrimAsWritten(q, n) == Some(RevTrim(q, n))
    ensures n > 0 && |q| > 0 && n == q[|q| - 1].Avail() ==>
      RevTrimAsWritten(q, n) == Some([]) && RevTrim(q, n) == q[..|q| - 1]
    ensures n > 0 && (|q| == 0 || n > q[|q| - 1].Avail()) ==> RevTrimAsWritten(q, n).None?
  {
    if n > 0 && |q| > 0 {
      var t := q[|q| - 1];
      var (q1, got) := GetDataRev2AsWritten(q, n);
      if n < t.Avail() {
        assert RevTrimAsWritten(q, n) == RevTrimAsWritten(q1, 0);
      } else {
        assert q1 == [] && got == t.Avail();
        assert RevTrimAsWritten(q, n) == RevTrimAsWritten([], n - got);
        if n == t.Avail() {
          assert RevTrim(q, n) == RevTrim(q[..|q| - 1], 0);
        }
      }
    }
  }

  /** `undoAppendData` as written, built on the reverse read and pop-tail as written; `None` where its loop never ends. */
  function UndoAppendDataAsWritten(st: InputStream, length: nat): (r: Option<(InputStream, Option<TreeId>)>)
    requires |st.queue| > 0
    ensures Queue.Tail(st.queue).value.kind != DataType ==>
      r == Some((st.(queue := []), Some(st.queue[|st.queue| - 1].tree)))
    ensures Queue.Tail(st.queue).value.kind == DataType ==>
      (r.Some? <==> RevTrimAsWritten(st.queue, length).Some?)
    ensures r.Some? ==> r.value.0.eof == st.eof && r.value.0.nestedEof == st.nestedEof
  {
    if Queue.Tail(st.queue).value.kind == DataType then
      match RevTrimAsWritten(st.queue, length)
      case None => None
      case Some(q) => Some((st.(queue := q), None))
    else
      var (t, rest) := Queue.PopTailAsWritten(st.queue);
      Queue.PopTailAsWrittenEmpties(st.queue);
      Some((st.(queue := rest), Some(t.tree)))
  }

  /** The last buffer `appendData` fills: all of a short text, and less than all of a long one. */
  lemma ChunksLast(d: seq<byte>)
    requires |d| > 0
    ensures |Chunks(d)| > 0
    ensures |d| <= FsmBufSize ==> Chunks(d) == [DataBuf(d)]
    ensures |d| > FsmBufSize ==> Chunks(d)[|Chunks(d)| - 1].Avail() < |d|
  {
    var cs := Chunks(d);
    if |d| <= FsmBufSize {
      assert d[..|d|] == d && d[|d|..] == [];
    } else {
      var rest := Chunks(d[FsmBufSize..]);
      assert cs == [DataBuf(d[..FsmBufSize])] + rest;
      assert |rest| > 0 && rest[|rest| - 1].Valid();
      AllBytesLast(rest);
      assert cs[|cs| - 1] == rest[|rest| - 1];
    }
  }

  /**
   * As written, undoing a non-empty append never restores a stream that held
   * buffers: a text of at most `FsmBufSize` bytes takes every earlier buffer
   * with it, and a longer one leaves the loop reading an empty queue forever.
   */
  lemma AppendDataThenUndoAsWritten(st: InputStream, d: seq<byte>)
    requires |d| > 0
    ensures var st1 := st.(queue := st.queue + Chunks(d));
      && |st1.queue| > 0
      && (|d| <= FsmBufSize ==> UndoAppendDataAsWritten(st1, |d|) == Some((st.(queue := []), None)))
      && (|d| > FsmBufSize ==> UndoAppendDataAsWritten(st1, |d|).None?)
      && (|st.queue| > 0 ==> UndoAppendDataAsWritten(st1, |d|) != Some((st, None)))
  {
    var cs := Chunks(d);
    ChunksLast(d);
    var q := st.queue + cs;
    assert q[|q| - 1] == cs[|cs| - 1];
    if |d| <= FsmBufSize {
      assert cs[|cs| - 1].Avail() == |d|;
    }
    RevTrimAsWrittenVsRevTrim(q, |d|);
  }

  /** As written, undoing an empty append onto a tree pops the tree and every buffer before it. */
  lemma UndoEmptyAppendPopsTreeAsWritten(st: InputStream, t: TreeId)
    ensures var st1 := st.(queue := st.queue + [TreeBuf(TokenType, t)]);
      UndoAppendDataAsWritten(st1, 0) == Some((st.(queue := []), Some(t)))
  {
  }

  // ---------------------------------------------------------------------
  // appendTree, appendStream, undoAppendStream
  // ---------------------------------------------------------------------

  /** `appendTree`: queue a token tree after everything else. */
  function AppendTree(st: InputStream, tree: TreeId): (r: InputStream)
    ensures |r.queue| == |st.queue| + 1 && r.queue[..|st.queue|] == st.queue
    ensures Content(r.queue) == Content(st.queue) + [Tok(tree)]
  {
    ContentAppend(st.queue, TreeBuf(TokenType, tree));
    st.(queue := Queue.Append(st.queue, TreeBuf(TokenType, tree)))
  }

  /** `appendStream`: queue a whole nested stream after everything else. */
  function AppendStream(st: InputStream, tree: TreeId): (r: InputStream)
    ensures |r.queue| == |st.queue| + 1 && r.queue[..|st.queue|] == st.queue
    ensures Content(r.queue) == Content(st.queue) + [Src(tree)]
  {
    ContentAppend(st.queue, TreeBuf(SourceType, tree));
    st.(queue := Queue.Append(st.queue, TreeBuf(SourceType, tree)))
  }

  /** `undoAppendStream` with the corrected pop-tail: detach the tail buffer and return its tree. */
  function UndoAppendStream(st: InputStream): (r: (InputStream, TreeId))
    requires |st.queue| > 0
    ensures r.0.queue + [st.queue[|st.queue| - 1]] == st.queue
    ensures r.1 == st.queue[|st.queue| - 1].tree
  {
    var (t, init) := Queue.PopTail(st.queue);
    (st.(queue := init), t.tree)
  }

  /** Appending a stream and undoing the append returns that stream's tree and the stream as it was. */
  lemma AppendStreamThenUndo(st: InputStream, tree: TreeId)
    ensures UndoAppendStream(AppendStream(st, tree)) == (st, tree)
  {
    Queue.AppendPopTail(st.queue, TreeBuf(SourceType, tree));
  }

  /** `undoAppendStream` as written: the pop-tail as written returns the tail's tree and leaves no buffers. */
  function UndoAppendStreamAsWritten(st: InputStream): (r: (InputStream, TreeId))
    requires |st.queue| > 0
    ensures r.1 == st.queue[|st.queue| - 1].tree
    ensures r.0 == st.(queue := [])
  {
    var (t, rest) := Queue.PopTailAsWritten(st.queue);
    Queue.PopTailAsWrittenEmpties(st.queue);
    (st.(queue := rest), t.tree)
  }

  /** As written, appending a stream and undoing the append returns the tree but loses every earlier buffer. */
  lemma AppendStreamThenUndoAsWritten(st: InputStream, tree: TreeId)
    ensures UndoAppendStreamAsWritten(AppendStream(st, tree)) == (st.(queue := []), tree)
    ensures |st.queue| > 0 ==> UndoAppendStreamAsWritten(AppendStream(st, tree)) != (st, tree)
  {
  }

  /** The append operations keep every buffer valid. */
  lemma AppendsKeepValid(st: InputStream, tree: TreeId)
    requires ValidQueue(st.queue)
    ensures ValidQueue(AppendTree(st, tree).queue)
    ensures ValidQueue(AppendStream(st, tree).queue)
    ensures |st.queue| > 0 ==> ValidQueue(UndoAppendStream(st).0.queue)
  {
  }

  // ---------------------------------------------------------------------
  // EOF
  // ---------------------------------------------------------------------

  /** `setEof`: the source is permanently exhausted once the queue runs dry. */
  function SetEof(st: InputStream): (r: InputStream)
    ensures r.eof && r.queue == st.queue && r.nestedEof == st.nestedEof
  {
    st.(eof := true)
  }

  /** `unsetEof`: clear the flag of the nested stream at the head if there is one, else the stream's own flag. */
  function UnsetEof(st: InputStream): (r: InputStream)
    ensures r.queue == st.queue
    ensures SourceHead(st.queue) ==>
      r.eof == st.eof && r.nestedEof == st.nestedEof[st.queue[0].tree := false]
    ensures !SourceHead(st.queue) ==> !r.eof && r.nestedEof == st.nestedEof
  {
    if SourceHead(st.queue) then
      st.(nestedEof := st.nestedEof[st.queue[0].tree := false])
    else
      st.(eof := false)
  }

  /** Once EOF is set, an exhausted queue reads as end of file, and after unsetting it as end of data. */
  lemma EofReadsEof(st: InputStream, skip: nat, length: nat, nested: Nested)
    requires |st.queue| == 0
    ensures GetData(SetEof(st), skip, length, nested).status == InputEof
    ensures GetData(UnsetEof(SetEof(st)), skip, length, nested).status == InputEod
  {
  }
}
