/**
 * The opcodes that may appear in reverse code, as `rcodeDownref` knows them
 * (colm/bytecode.c:543-797), with the operands each one carries.
 *
 * As in the interpreter, an opcode is a byte. The numeric value of each
 * opcode is defined in bytecode.h, which is not part of this model: the
 * values below are stand-ins, the bytes 1 to 34, one per opcode. Nothing
 * proved here depends on which bytes they are; any other byte names an
 * instruction `rcodeDownref` does not know.
 */
module Opcodes {
  import opened Wrappers
  import opened Bytes

  /** `SIZEOF_CODE` and `SIZEOF_HALF`: the bytes of an opcode and of a half operand. */
  const SizeofCode: nat := 1
  const SizeofHalf: nat := 2

  /** How many reverse opcodes there are. */
  const NumOps: nat := 34

  /** A reverse opcode: one of the bytes 1 to NumOps. */
  type Op = b: byte | 1 <= b <= NumOps witness 1

  const ParseLoadStart: Op := 1
  const ParseSaveSteps: Op := 2
  const LoadTree: Op := 3
  const LoadWord: Op := 4
  const RestoreLhs: Op := 5
  const ParseFragBkt: Op := 6
  const ParseFragBkt3: Op := 7
  const ParseFinishBkt: Op := 8
  const ParseFinishBkt3: Op := 9
  const PcrCall: Op := 10
  const PcrRet: Op := 11
  const PcrEndDeck: Op := 12
  const StreamPullBkt: Op := 13
  const StreamPushBkt: Op := 14
  const StreamAppendBkt: Op := 15
  const AccumStreamAppendBkt: Op := 16
  const AccumStreamPullBkt: Op := 17
  const AccumStreamPushBkt: Op := 18
  const LoadGlobalBkt: Op := 19
  const LoadContextBkt: Op := 20
  const LoadAccumBkt: Op := 21
  const LoadAccumStreamBkt: Op := 22
  const GetFieldBkt: Op := 23
  const SetFieldBkt: Op := 24
  const PtrDerefBkt: Op := 25
  const SetTokenDataBkt: Op := 26
  const ListAppendBkt: Op := 27
  const ListRemoveEndBkt: Op := 28
  const GetListMemBkt: Op := 29
  const SetListMemBkt: Op := 30
  const MapInsertBkt: Op := 31
  const MapStoreBkt: Op := 32
  const MapRemoveBkt: Op := 33
  const Stop: Op := 34

  /**
   * The kinds of operand that follow an opcode: a byte, a half, a plain
   * word, a tree word (released on the way back when `downref` is set), or
   * a word naming a string head that is freed.
   */
  datatype Operand = OByte | OHalf | OWord | OTree(downref: bool) | OString

  /** The bytes an operand takes on a target whose words are w bytes wide. */
  function Width(o: Operand, w: WordSize): (n: nat)
    ensures 1 <= n <= 8
  {
    match o
    case OByte => 1
    case OHalf => 2
    case _ => w
  }

  /** The operands `rcodeDownref` reads after each opcode, in order. */
  function Shape(op: Op): (s: seq<Operand>)
    ensures |s| <= 3
    ensures IsTerminator(op) ==> s == []
  {
    if op == LoadTree || op == RestoreLhs || op == StreamPullBkt || op == PtrDerefBkt || op == ListRemoveEndBkt then
      [OTree(true)]
    else if op == LoadWord || op == StreamPushBkt || op == AccumStreamPushBkt then
      [OWord]
    else if op == ParseFragBkt || op == ParseFinishBkt || op == GetFieldBkt || op == GetListMemBkt then
      [OHalf]
    else if op == StreamAppendBkt || op == AccumStreamAppendBkt then
      [OTree(true), OTree(true), OWord]
    else if op == AccumStreamPullBkt then
      [OTree(true), OWord]
    else if op == LoadAccumBkt || op == LoadAccumStreamBkt then
      [OTree(false)]
    else if op == SetFieldBkt || op == SetListMemBkt then
      [OHalf, OTree(true)]
    else if op == SetTokenDataBkt then
      [OString]
    else if op == MapInsertBkt then
      [OByte, OTree(true)]
    else if op == MapStoreBkt || op == MapRemoveBkt then
      [OTree(true), OTree(true)]
    else
      []
  }

  /** The opcode a byte names, if any. */
  function DecodeOp(b: byte): (r: Option<Op>)
    ensures r.Some? <==> 1 <= b <= NumOps
    ensures r.Some? ==> r.value == b
  {
    if 1 <= b <= NumOps then Some(b) else None
  }

  /** The opcodes after which `rcodeDownref` returns: the two group terminators and STOP. */
  predicate IsTerminator(op: Op)
  {
    op == PcrRet || op == PcrEndDeck || op == Stop
  }

  /** The operands of the reverse instructions the list and map instructions log. */
  lemma CollectionShapes()
    ensures Shape(ListAppendBkt) == [] && Shape(ListRemoveEndBkt) == [OTree(true)] && Shape(GetListMemBkt) == [OHalf]
    ensures Shape(SetListMemBkt) == [OHalf, OTree(true)] && Shape(MapInsertBkt) == [OByte, OTree(true)]
    ensures Shape(MapStoreBkt) == [OTree(true), OTree(true)] && Shape(MapRemoveBkt) == [OTree(true), OTree(true)]
    ensures !IsTerminator(ListAppendBkt) && !IsTerminator(ListRemoveEndBkt) && !IsTerminator(SetListMemBkt)
    ensures !IsTerminator(GetListMemBkt)
    ensures !IsTerminator(MapInsertBkt) && !IsTerminator(MapStoreBkt) && !IsTerminator(MapRemoveBkt)
  {
  }
}
