/**
 * Abstract views of a run-buffer queue, used to state what the stream
 * operations do to the input as a whole rather than buffer by buffer:
 * the items the queue still offers, the bytes readable before the first
 * tree, and the bytes of every buffer.
 */
module InputViews {
  import opened Bytes
  import opened RunBufs
  import opened Seqs

  /** One element of what a stream still has to offer: a byte, a token, an ignored token or a nested stream. */
  datatype Item = Byte(b: byte) | Tok(t: TreeId) | Ign(t: TreeId) | Src(t: TreeId)

  function Items(bs: seq<byte>): (r: seq<Item>)
    ensures |r| == |bs|
  {
    if |bs| == 0 then [] else [Byte(bs[0])] + Items(bs[1..])
  }

  /** What one buffer still offers. */
  function BufContent(b: RunBuf): seq<Item>
  {
    match b.kind
    case DataType => Items(b.Unread())
    case TokenType => [Tok(b.tree)]
    case IgnoreType => [Ign(b.tree)]
    case SourceType => [Src(b.tree)]
  }

  /** What the whole queue still offers, head first. */
  function Content(q: seq<RunBuf>): (r: seq<Item>)
    ensures |Unread(q)| <= |r|
  {
    if |q| == 0 then [] else BufContent(q[0]) + Content(q[1..])
  }

  /** The bytes readable before the first token, ignore or source buffer. */
  function Unread(q: seq<RunBuf>): seq<byte>
  {
    if |q| == 0 then []
    else if q[0].kind == DataType then q[0].Unread() + Unread(q[1..])
    else []
  }

  /** The unread bytes of every buffer of the queue, whatever lies between them. */
  function AllBytes(q: seq<RunBuf>): seq<byte>
  {
    if |q| == 0 then [] else q[0].Unread() + AllBytes(q[1..])
  }

  predicate NoSource(q: seq<RunBuf>)
  {
    forall i :: 0 <= i < |q| ==> q[i].kind != SourceType
  }

  // ---------------------------------------------------------------------
  // Facts about the views
  // ---------------------------------------------------------------------

  lemma {:induction false} ItemsAppend(a: seq<byte>, b: seq<byte>)
    ensures Items(a + b) == Items(a) + Items(b)
  {
    if |a| == 0 {
      assert a + b == b;
    } else {
      assert (a + b)[1..] == a[1..] + b;
      ItemsAppend(a[1..], b);
    }
  }

  lemma {:induction false} ItemsSuffix(a: seq<byte>, k: nat)
    requires k <= |a|
    ensures Items(a[k..]) == Items(a)[k..]
  {
    if k > 0 {
      assert a[k..] == a[1..][k - 1..];
      ItemsSuffix(a[1..], k - 1);
    }
  }

  lemma ItemsPrefix(a: seq<byte>, k: nat)
    requires k <= |a|
    ensures Items(a[..k]) == Items(a)[..k]
  {
    ItemsAppend(a[..k], a[k..]);
    assert a[..k] + a[k..] == a;
  }

  lemma ContentCons(b: RunBuf, rest: seq<RunBuf>)
    ensures Content([b] + rest) == BufContent(b) + Content(rest)
  {
    assert ([b] + rest)[1..] == rest;
  }

  lemma {:induction false} ContentAppend(q: seq<RunBuf>, b: RunBuf)
    ensures Content(q + [b]) == Content(q) + BufContent(b)
  {
    if |q| == 0 {
      assert q + [b] == [b];
      ContentCons(b, []);
    } else {
      assert (q + [b])[1..] == q[1..] + [b];
      ContentAppend(q[1..], b);
    }
  }

  /** The readable bytes come first in what the queue offers. */
  lemma {:induction false} UnreadIsContentPrefix(q: seq<RunBuf>)
    ensures Items(Unread(q)) <= Content(q)
  {
    if |q| > 0 && q[0].kind == DataType {
      UnreadIsContentPrefix(q[1..]);
      ItemsAppend(q[0].Unread(), Unread(q[1..]));
    }
  }

  /** A data buffer at the head contributes its unread bytes first. */
  lemma UnreadDataHead(q: seq<RunBuf>)
    requires |q| > 0 && q[0].kind == DataType
    ensures Unread(q) == q[0].Unread() + Unread(q[1..])
    ensures Content(q) == Items(q[0].Unread()) + Content(q[1..])
  {
  }

  /** Reading k more bytes of a data buffer drops its first k items. */
  lemma BufContentAdvance(b: RunBuf, k: nat)
    requires b.kind == DataType && k <= |b.Unread()|
    ensures b.(offset := b.offset + k).Unread() == b.Unread()[k..]
    ensures BufContent(b.(offset := b.offset + k)) == BufContent(b)[k..]
  {
    ItemsSuffix(b.Unread(), k);
  }

  /** Reading k bytes of a data buffer at the head removes the first k items the queue offers. */
  lemma ContentAdvanceHead(q: seq<RunBuf>, k: nat)
    requires |q| > 0 && q[0].kind == DataType && k <= |q[0].Unread()|
    ensures Content([q[0].(offset := q[0].offset + k)] + q[1..]) == Content(q)[k..]
  {
    var b := q[0];
    ContentCons(b.(offset := b.offset + k), q[1..]);
    ConsHead(q);
    ContentCons(b, q[1..]);
    BufContentAdvance(b, k);
    DropAppend(BufContent(b), Content(q[1..]), k);
  }

  /** What a queue whose head is not a drained data buffer offers first. */
  lemma FirstItem(q: seq<RunBuf>)
    requires |q| > 0 && q[0].Valid()
    requires !(q[0].kind == DataType && q[0].offset == |q[0].data|)
    ensures |Content(q)| > 0
    ensures Content(q)[0] == match q[0].kind
      case DataType => Byte(q[0].data[q[0].offset])
      case TokenType => Tok(q[0].tree)
      case IgnoreType => Ign(q[0].tree)
      case SourceType => Src(q[0].tree)
    ensures q[0].kind != DataType ==> Content(q)[1..] == Content(q[1..])
  {
    assert Content(q) == BufContent(q[0]) + Content(q[1..]);
  }

  lemma {:induction false} AllBytesAppend(a: seq<RunBuf>, b: seq<RunBuf>)
    ensures AllBytes(a + b) == AllBytes(a) + AllBytes(b)
  {
    if |a| > 0 {
      var h := a[0].Unread();
      assert (a + b)[0] == a[0] && (a + b)[1..] == a[1..] + b;
      assert AllBytes(a + b) == h + AllBytes(a[1..] + b);
      AllBytesAppend(a[1..], b);
      Assoc(h, AllBytes(a[1..]), AllBytes(b));
    } else {
      assert a + b == b;
    }
  }

  /** The tail buffer contributes the last bytes. */
  lemma AllBytesSnoc(init: seq<RunBuf>, t: RunBuf)
    ensures AllBytes(init + [t]) == AllBytes(init) + t.Unread()
  {
    AllBytesAppend(init, [t]);
    assert [t][1..] == [];
  }

  /** The tail buffer of a non-empty queue contributes the last bytes. */
  lemma AllBytesLast(q: seq<RunBuf>)
    requires |q| > 0
    ensures AllBytes(q) == AllBytes(q[..|q| - 1]) + q[|q| - 1].Unread()
  {
    SnocTake(q);
    AllBytesSnoc(q[..|q| - 1], q[|q| - 1]);
  }
}
