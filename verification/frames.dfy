/**
 * The stack discipline of the interpreter loop `executeCode`
 * (colm/bytecode.c): the frame CALL builds and RET takes down, the
 * execution context PCR_CALL saves around a call into the parser and
 * PCR_RET / PCR_END_DECK restore, the stack footprint of a user iterator,
 * and the check made when the loop exits.
 *
 * The VM stack is a sequence of words, the newest last; in C it grows
 * downwards, so a C pointer into the stack becomes here the depth of the
 * stack at that point. Pointers to heap objects (accumulators, parser runs,
 * streams) are plain words: nothing here looks through them.
 */
module Frames {
  import opened Wrappers
  import Op = Opcodes

  /** The fields of the `Execution` record that PCR_CALL saves. */
  datatype Exec = Exec(accum: int, pdaRun: int, fsmRun: int, inputStream: int,
                       framePtr: int, iframePtr: int, frameId: int, rcodeUnitLen: int)

  /**
   * The machine state the instructions below touch: the stack, the
   * execution record, the address of the next instruction, and the parser
   * runs whose `onDeck` flag is set.
   */
  datatype Machine = Machine(stack: seq<int>, exec: Exec, instr: int, onDeck: set<int>)

  datatype VmError = StackUnderflow | IterStackMismatch

  /** Whether the loop carries on or leaves through `out`. */
  datatype Next = Continue(m: Machine) | Exit(m: Machine)

  // ---------------------------------------------------------------------
  // CALL and RET
  // ---------------------------------------------------------------------

  /** The entry points of a function's code: with and without reverse code. */
  datatype FrameCode = FrameCode(codeWV: int, codeWC: int)

  /**
   * CALL_WV / CALL_WC: push a return-value slot holding 0, the return
   * address, the frame pointer and the frame id; jump to the function's
   * code and point the frame pointer at the new top.
   */
  function Call(m: Machine, code: FrameCode, revert: bool): (r: Machine)
    ensures r.stack == m.stack + [0, m.instr, m.exec.framePtr, m.exec.frameId]
    ensures r.exec == m.exec.(framePtr := |m.stack| + 4)
    ensures r.instr == (if revert then code.codeWV else code.codeWC) && r.onDeck == m.onDeck
  {
    Machine(m.stack + [0, m.instr, m.exec.framePtr, m.exec.frameId],
      m.exec.(framePtr := |m.stack| + 4),
      if revert then code.codeWV else code.codeWC,
      m.onDeck)
  }

  /**
   * RET: pop the frame's locals, then the frame id, the frame pointer, the
   * return address and the return value; pop the arguments and push the
   * return value back. A stack too shallow for this is an underflow.
   */
  function Ret(m: Machine, frameSize: nat, argSize: nat): (r: Result<Machine, VmError>)
    ensures r.Ok? <==> |m.stack| >= frameSize + 4 + argSize
    ensures r.Ok? ==> |r.value.stack| == |m.stack| - frameSize - 3 - argSize
  {
    var n := |m.stack|;
    if n < frameSize + 4 + argSize then Err(StackUnderflow)
    else
      var top := n - frameSize;
      var retVal := m.stack[top - 4];
      Ok(Machine(m.stack[..top - 4 - argSize] + [retVal],
        m.exec.(framePtr := m.stack[top - 2], frameId := m.stack[top - 1]),
        m.stack[top - 3],
        m.onDeck))
  }

  /**
   * A frame CALL built, whatever the function left in its return slot and
   * its locals, is taken down by RET: the arguments are replaced by the
   * return value and the caller's frame pointer, frame id and return
   * address come back.
   */
  lemma CallRet(m: Machine, code: FrameCode, revert: bool, v: int, locals: seq<int>, argSize: nat, e: Exec, pc: int)
    requires argSize <= |m.stack|
    ensures var c := Call(m, code, revert);
      var body := Machine(c.stack[..|m.stack|] + [v] + c.stack[|m.stack| + 1..] + locals, e, pc, c.onDeck);
      Ret(body, |locals|, argSize)
        == Ok(Machine(m.stack[..|m.stack| - argSize] + [v], e.(framePtr := m.exec.framePtr, frameId := m.exec.frameId), m.instr, m.onDeck))
  {
    var c := Call(m, code, revert);
    var s := c.stack[..|m.stack|] + [v] + c.stack[|m.stack| + 1..] + locals;
    assert c.stack[..|m.stack|] == m.stack;
    assert s == m.stack + [v, m.instr, m.exec.framePtr, m.exec.frameId] + locals;
    assert s[..|m.stack| - argSize] == m.stack[..|m.stack| - argSize];
  }

  // ---------------------------------------------------------------------
  // PCR_CALL, PCR_RET, PCR_END_DECK
  // ---------------------------------------------------------------------

  /** The eight saved fields, in the order PCR_CALL pushes them. */
  function Saved(e: Exec): (s: seq<int>)
    ensures |s| == 8
  {
    [e.accum, e.pdaRun, e.fsmRun, e.inputStream, e.framePtr, e.iframePtr, e.frameId, e.rcodeUnitLen]
  }

  /** What an accumulator leads to: its parser run, scanner run, stream, frame id and the parser run's code. */
  datatype Target = Target(pdaRun: int, fsmRun: int, inputStream: int, frameId: int, code: int)

  /** `initExecution`: a fresh execution record for an accumulator, with no frame and no pending unit. */
  function InitExecution(accum: int, t: Target): (e: Exec)
    ensures e.framePtr == 0 && e.iframePtr == 0 && e.rcodeUnitLen == 0
    ensures e.accum == accum && e.pdaRun == t.pdaRun && e.fsmRun == t.fsmRun
    ensures e.inputStream == t.inputStream && e.frameId == t.frameId
  {
    Exec(accum, t.pdaRun, t.fsmRun, t.inputStream, 0, 0, t.frameId, 0)
  }

  /**
   * PCR_CALL: leave the parse triple (steps, accumulator, pcr) where it is,
   * save the execution fields and a return address that points back at the
   * parse instruction that made the call (two opcodes and a half before
   * the current position), then run the code of the accumulator's parser
   * run in a fresh context. The accumulator is the middle word of the
   * triple; `reach` gives what it points to in the heap.
   */
  function PcrCall(m: Machine, reach: int -> Target): (r: Result<Machine, VmError>)
    ensures r.Ok? <==> |m.stack| >= 3
    ensures r.Ok? ==> r.value.stack == m.stack + Saved(m.exec) + [m.instr - (Op.SizeofCode + Op.SizeofCode + Op.SizeofHalf)]
    ensures r.Ok? ==> var accum := m.stack[|m.stack| - 2];
      && r.value.exec == InitExecution(accum, reach(accum))
      && r.value.instr == reach(accum).code && r.value.onDeck == m.onDeck
  {
    if |m.stack| < 3 then Err(StackUnderflow)
    else
      var accum := m.stack[|m.stack| - 2];
      var returnTo := m.instr - (Op.SizeofCode + Op.SizeofCode + Op.SizeofHalf);
      Ok(Machine(m.stack + Saved(m.exec) + [returnTo], InitExecution(accum, reach(accum)), reach(accum).code, m.onDeck))
  }

  /** The record popped off the top of the stack, the return address last pushed and first popped. */
  function Restore(m: Machine): (r: Result<Machine, VmError>)
    ensures r.Ok? <==> |m.stack| >= 9
  {
    var n := |m.stack|;
    if n < 9 then Err(StackUnderflow)
    else
      Ok(Machine(m.stack[..n - 9],
        Exec(m.stack[n - 9], m.stack[n - 8], m.stack[n - 7], m.stack[n - 6], m.stack[n - 5], m.stack[n - 4], m.stack[n - 3], m.stack[n - 2]),
        m.stack[n - 1],
        m.onDeck))
  }

  /** PCR_RET: restore the saved context; a null return address leaves the loop. */
  function PcrRet(m: Machine): (r: Result<Next, VmError>)
    ensures r.Ok? <==> |m.stack| >= 9
    ensures r.Ok? ==> (r.value.Exit? <==> m.stack[|m.stack| - 1] == 0)
  {
    match Restore(m)
    case Err(e) => Err(e)
    case Ok(back) => if back.instr == 0 then Ok(Exit(back)) else Ok(Continue(back))
  }

  /** PCR_END_DECK: clear the current parser run's `onDeck` flag, then as PCR_RET. */
  function PcrEndDeck(m: Machine): (r: Result<Next, VmError>)
    ensures r.Ok? <==> |m.stack| >= 9
    ensures r.Ok? ==> m.exec.pdaRun !in r.value.m.onDeck && r.value.m.onDeck == m.onDeck - {m.exec.pdaRun}
  {
    PcrRet(m.(onDeck := m.onDeck - {m.exec.pdaRun}))
  }

  /** Restoring what was saved on a stack gives back that stack, the saved fields and the return address. */
  lemma RestoreSaved(s: seq<int>, e: Exec, ret: int, cur: Exec, pc: int, onDeck: set<int>)
    ensures Restore(Machine(s + Saved(e) + [ret], cur, pc, onDeck)) == Ok(Machine(s, e, ret, onDeck))
  {
    var st := s + Saved(e) + [ret];
    assert st[..|s|] == s;
  }

  /**
   * Whatever the called code did, once the stack is back to the height
   * PCR_CALL left it at, PCR_RET restores the caller's execution fields and
   * returns to the parse instruction that made the call; it leaves the loop
   * exactly when that address is null. The parse triple is left in place.
   */
  lemma PcrCallRet(m: Machine, reach: int -> Target, cur: Exec, pc: int, onDeck: set<int>)
    requires |m.stack| >= 3
    ensures var c := PcrCall(m, reach).value;
      var ret := m.instr - (Op.SizeofCode + Op.SizeofCode + Op.SizeofHalf);
      var back := Machine(m.stack, m.exec, ret, onDeck);
      PcrRet(Machine(c.stack, cur, pc, onDeck)) == Ok(if ret == 0 then Exit(back) else Continue(back))
  {
    RestoreSaved(m.stack, m.exec, m.instr - (Op.SizeofCode + Op.SizeofCode + Op.SizeofHalf), cur, pc, onDeck);
  }

  /** The same for PCR_END_DECK, which also takes the current parser run off deck. */
  lemma PcrCallEndDeck(m: Machine, reach: int -> Target, cur: Exec, pc: int, onDeck: set<int>)
    requires |m.stack| >= 3
    ensures var c := PcrCall(m, reach).value;
      var ret := m.instr - (Op.SizeofCode + Op.SizeofCode + Op.SizeofHalf);
      var back := Machine(m.stack, m.exec, ret, onDeck - {cur.pdaRun});
      PcrEndDeck(Machine(c.stack, cur, pc, onDeck)) == Ok(if ret == 0 then Exit(back) else Continue(back))
  {
    RestoreSaved(m.stack, m.exec, m.instr - (Op.SizeofCode + Op.SizeofCode + Op.SizeofHalf), cur, pc, onDeck - {cur.pdaRun});
  }

  // ---------------------------------------------------------------------
  // User iterators
  // ---------------------------------------------------------------------

  /**
   * The parts of a `UserIter` record that concern the stack: the depth of
   * its root (just above the record itself), the stack size recorded at the
   * last yield, the words of arguments below the record, and where it
   * resumes.
   */
  datatype UserIter = UserIter(stackRoot: nat, stackSize: int, argSize: nat, kid: int, resume: int)

  /**
   * `uiterInit`: no current kid, the stack size is what lies above the
   * root, and the iterator resumes at the start of the iterator's code,
   * with or without reverse code.
   */
  function UiterInit(m: Machine, it: UserIter, code: FrameCode, revertOn: bool): (r: UserIter)
    ensures r.kid == 0 && r.stackSize == |m.stack| - it.stackRoot
    ensures r.resume == (if revertOn then code.codeWV else code.codeWC)
    ensures r.stackRoot == it.stackRoot && r.argSize == it.argSize
  {
    it.(kid := 0, stackSize := |m.stack| - it.stackRoot, resume := if revertOn then code.codeWV else code.codeWC)
  }

  /**
   * `userIterDestroy`: the recorded stack size must be the current depth
   * above the root; then pop what lies above the root, the record itself
   * (iterWords words) and the arguments. A stack already below the root,
   * or a root with less than the record and arguments under it, is an
   * underflow.
   */
  function UserIterDestroy(m: Machine, it: UserIter, iterWords: nat): (r: Result<Machine, VmError>)
    ensures r.Ok? <==> it.stackSize == |m.stack| - it.stackRoot && iterWords + it.argSize <= it.stackRoot <= |m.stack|
    ensures r.Ok? ==> r.value == m.(stack := m.stack[..it.stackRoot - iterWords - it.argSize])
  {
    if it.stackSize != |m.stack| - it.stackRoot then Err(IterStackMismatch)
    else if it.stackRoot < iterWords + it.argSize || |m.stack| < it.stackRoot then Err(StackUnderflow)
    else Ok(m.(stack := m.stack[..it.stackRoot - iterWords - it.argSize]))
  }

  /**
   * An iterator created over arguments on a stack s, initialised, and
   * destroyed at the same depth it recorded leaves exactly s; destroyed at
   * any other depth it is refused.
   */
  lemma IterRoundTrip(m: Machine, s: seq<int>, args: seq<int>, record: seq<int>, above: seq<int>, it: UserIter, code: FrameCode, revertOn: bool, later: seq<int>)
    requires m.stack == s + args + record + above
    requires it.stackRoot == |s| + |args| + |record| && it.argSize == |args|
    ensures var i := UiterInit(m, it, code, revertOn);
      UserIterDestroy(m, i, |record|) == Ok(m.(stack := s))
    ensures var i := UiterInit(m, it, code, revertOn);
      |later| != |above| ==> UserIterDestroy(m.(stack := s + args + record + later), i, |record|) == Err(IterStackMismatch)
  {
    assert m.stack[..|s|] == s;
  }

  // ---------------------------------------------------------------------
  // Leaving the loop
  // ---------------------------------------------------------------------

  /** At `out`, the stack must be back at its root unless an exit was induced. */
  predicate ExitCheck(induceExit: bool, depth: nat, root: nat)
  {
    induceExit || depth == root
  }

  /**
   * A CALL whose RET pops one argument leaves the stack one word higher
   * than before the argument was pushed: the return value. So a call made
   * from the root with its argument pushed returns one word above the root,
   * and the exit check holds once the caller pops the result.
   */
  lemma CallRetDepth(m: Machine, code: FrameCode, revert: bool, v: int, locals: seq<int>, arg: int, e: Exec, pc: int)
    ensures var m1 := m.(stack := m.stack + [arg]);
      var c := Call(m1, code, revert);
      var body := Machine(c.stack[..|m1.stack|] + [v] + c.stack[|m1.stack| + 1..] + locals, e, pc, c.onDeck);
      Ret(body, |locals|, 1).Ok? && |Ret(body, |locals|, 1).value.stack| == |m.stack| + 1
        && ExitCheck(false, |Ret(body, |locals|, 1).value.stack| - 1, |m.stack|)
  {
    var m1 := m.(stack := m.stack + [arg]);
    CallRet(m1, code, revert, v, locals, 1, e, pc);
  }
}
