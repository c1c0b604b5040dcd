/**
 * Reverse code: the undo log the interpreter keeps while parsing.
 *
 * Each forward instruction that changes state records a reverse
 * instruction (an opcode followed by its operands) in the parser's collect
 * buffer, and closes a unit with a one-byte length. `makeReverseCode` turns
 * the collected units into a group on the reverse-code stack: a one-byte
 * END_DECK group, then the units in reverse order ended by PCR_RET, each
 * group followed by a word giving its length. `popReverseCode` and
 * `rcodeDownrefAll` walk that stack backward through the length words, and
 * `rcodeDownref` walks one group forward, releasing the trees the operands
 * hold, until a terminator.
 */
module ReverseCode {
  import opened Wrappers
  import opened Bytes
  import opened Seqs
  import opened Opcodes

  /** One reverse instruction: an opcode and the values of its operands. */
  datatype Instr = Instr(op: Op, args: seq<nat>)

  /** What reading reverse code releases: a tree reference dropped, or a string head freed. */
  datatype Release = Downref(tree: nat) | FreeString(head: nat)

  /** Why a walk over reverse code cannot go on. */
  datatype WalkError = Truncated | UnknownOp(b: byte) | BadFrame

  /** The operand values fit the operand widths. */
  predicate Fits(args: seq<nat>, shape: seq<Operand>, w: WordSize)
  {
    |args| == |shape| && (|args| > 0 ==> args[0] < Pow256(Width(shape[0], w)) && Fits(args[1..], shape[1..], w))
  }

  lemma FitsOne(a: nat, o: Operand, w: WordSize)
    requires a < Pow256(Width(o, w))
    ensures Fits([a], [o], w)
  {
    assert [a][1..] == [] && [o][1..] == [];
  }

  lemma FitsPair(a: nat, b: nat, o: Operand, p: Operand, w: WordSize)
    requires a < Pow256(Width(o, w)) && b < Pow256(Width(p, w))
    ensures Fits([a, b], [o, p], w)
  {
    assert [a, b][1..] == [b] && [o, p][1..] == [p];
    FitsOne(b, p, w);
  }

  /** A non-terminating instruction whose operands fit. */
  predicate WellFormed(i: Instr, w: WordSize)
  {
    !IsTerminator(i.op) && Fits(i.args, Shape(i.op), w)
  }

  predicate AllWellFormed(ins: seq<Instr>, w: WordSize)
  {
    |ins| > 0 ==> WellFormed(ins[0], w) && AllWellFormed(ins[1..], w)
  }

  // ---------------------------------------------------------------------
  // Writing reverse code
  // ---------------------------------------------------------------------

  /** The operands as `append`, `appendHalf` and `appendWord` store them. */
  function EncodeArgs(args: seq<nat>, shape: seq<Operand>, w: WordSize): (bs: seq<byte>)
  {
    if |shape| == 0 || |args| == 0 then [] else EncodeLE(args[0], Width(shape[0], w)) + EncodeArgs(args[1..], shape[1..], w)
  }

  function Encode(i: Instr, w: WordSize): seq<byte>
  {
    [i.op as byte] + EncodeArgs(i.args, Shape(i.op), w)
  }

  function EncodeAll(ins: seq<Instr>, w: WordSize): seq<byte>
  {
    if |ins| == 0 then [] else Encode(ins[0], w) + EncodeAll(ins[1..], w)
  }

  /** What one operand releases when `rcodeDownref` reads it. */
  function Released(o: Operand, v: nat): seq<Release>
  {
    match o
    case OTree(d) => if d then [Downref(v)] else []
    case OString => [FreeString(v)]
    case _ => []
  }

  function ReleasesOf(shape: seq<Operand>, args: seq<nat>): seq<Release>
  {
    if |shape| == 0 || |args| == 0 then [] else Released(shape[0], args[0]) + ReleasesOf(shape[1..], args[1..])
  }

  /** The releases of a run of instructions, in the order they are read. */
  function ReleasesAll(ins: seq<Instr>): seq<Release>
  {
    if |ins| == 0 then [] else ReleasesOf(Shape(ins[0].op), ins[0].args) + ReleasesAll(ins[1..])
  }

  // ---------------------------------------------------------------------
  // Reading reverse code forward (`rcodeDownref`)
  // ---------------------------------------------------------------------

  /**
   * One operand, read with `read_byte`, `read_half`, or `read_word` /
   * `read_tree`: each reads its bytes little-endian, as
   * ReadOperandIsReader shows.
   */
  function ReadOperand(code: seq<byte>, pos: nat, o: Operand, w: WordSize): nat
    requires pos + Width(o, w) <= |code|
  {
    DecodeLE(code[pos..pos + Width(o, w)])
  }

  /** The operand is what the interpreter's reading macro for its kind returns. */
  lemma ReadOperandIsReader(code: seq<byte>, pos: nat, o: Operand, w: WordSize)
    requires pos + Width(o, w) <= |code|
    ensures ReadOperand(code, pos, o, w) == match o
      case OByte => ReadByte(code, pos).0
      case OHalf => ReadHalf(code, pos).0
      case _ => ReadWord(code, pos, w).0
  {
    match o
    case OByte =>
      var b := code[pos..pos + 1];
      assert b[1..] == [];
      assert DecodeLE(b) == b[0] as int + 256 * DecodeLE(b[1..]);
    case OHalf =>
      ReadHalfIsLE(code, pos);
    case _ =>
      ReadWordIsLE(code, pos, w);
  }

  /** The operands of one instruction and the position after them; None if the code ends first. */
  function ReadOperands(code: seq<byte>, pos: nat, shape: seq<Operand>, w: WordSize): (r: Option<(seq<nat>, nat)>)
    requires pos <= |code|
    decreases |shape|
    ensures r.Some? ==> |r.value.0| == |shape| && pos <= r.value.1 <= |code|
  {
    if |shape| == 0 then Some(([], pos))
    else if pos + Width(shape[0], w) > |code| then None
    else
      var v := ReadOperand(code, pos, shape[0], w);
      match ReadOperands(code, pos + Width(shape[0], w), shape[1..], w)
      case None => None
      case Some(rest) => Some(([v] + rest.0, rest.1))
  }

  /** The outcome of interpreting one reverse instruction: what it released, where the next one starts, and whether it ended the walk. */
  datatype Stepped = Stepped(released: seq<Release>, next: nat, done: bool)

  /**
   * One pass through the `switch` of `rcodeDownref`: read an opcode at pos
   * and its operands, releasing what they hold. PCR_RET, PCR_END_DECK and
   * STOP end the walk; an opcode the switch does not know is fatal.
   */
  function Step(code: seq<byte>, pos: nat, w: WordSize): (r: Result<Stepped, WalkError>)
    requires pos < |code|
    ensures r.Ok? ==> pos < r.value.next <= |code|
  {
    match DecodeOp(code[pos])
    case None => Err(UnknownOp(code[pos]))
    case Some(op) =>
      if IsTerminator(op) then Ok(Stepped([], pos + 1, true))
      else match ReadOperands(code, pos + 1, Shape(op), w)
        case None => Err(Truncated)
        case Some(read) => Ok(Stepped(ReleasesOf(Shape(op), read.0), read.1, false))
  }

  /**
   * `rcodeDownref` from position pos: step through instructions (`goto
   * again`) until one ends the walk. A successful walk ends just after a
   * terminator.
   */
  function Walk(code: seq<byte>, pos: nat, w: WordSize): (r: Result<(seq<Release>, nat), WalkError>)
    decreases |code| - pos
    ensures r.Ok? ==> pos < r.value.1 <= |code|
  {
    if pos >= |code| then Err(Truncated)
    else match Step(code, pos, w)
      case Err(e) => Err(e)
      case Ok(s) =>
        if s.done then Ok((s.released, s.next))
        else match Walk(code, s.next, w)
          case Err(e) => Err(e)
          case Ok(rest) => Ok((s.released + rest.0, rest.1))
  }

  // ---------------------------------------------------------------------
  // Reading back what was written
  // ---------------------------------------------------------------------

  /** An operand stored at pos is read back as the value stored. */
  lemma ReadOperandOfEncode(code: seq<byte>, pos: nat, o: Operand, v: nat, w: WordSize)
    requires v < Pow256(Width(o, w)) && pos + Width(o, w) <= |code|
    requires code[pos..pos + Width(o, w)] == EncodeLE(v, Width(o, w))
    ensures ReadOperand(code, pos, o, w) == v
  {
    DecodeEncodeLE(v, Width(o, w));
  }

  /** Stored operands are read back in order, and reading ends just after them. */
  lemma {:induction false} ReadOperandsOfEncode(code: seq<byte>, pos: nat, shape: seq<Operand>, args: seq<nat>, w: WordSize)
    requires Fits(args, shape, w)
    requires pos + |EncodeArgs(args, shape, w)| <= |code|
    requires code[pos..pos + |EncodeArgs(args, shape, w)|] == EncodeArgs(args, shape, w)
    ensures ReadOperands(code, pos, shape, w) == Some((args, pos + |EncodeArgs(args, shape, w)|))
    decreases |shape|
  {
    if |shape| > 0 {
      var n := Width(shape[0], w);
      var e := EncodeLE(args[0], n);
      var rest := EncodeArgs(args[1..], shape[1..], w);
      SliceSplit(code, pos, e, rest);
      ReadOperandOfEncode(code, pos, shape[0], args[0], w);
      ReadOperandsOfEncode(code, pos + n, shape[1..], args[1..], w);
      ReadOperandsCons(code, pos, shape, w, args[0], args[1..], pos + n + |rest|);
      ConsHead(args);
    }
  }

  /** Reading operands: the first one, then the rest. */
  lemma ReadOperandsCons(code: seq<byte>, pos: nat, shape: seq<Operand>, w: WordSize, v: nat, vs: seq<nat>, end: nat)
    requires |shape| > 0 && pos + Width(shape[0], w) <= |code|
    requires ReadOperand(code, pos, shape[0], w) == v
    requires ReadOperands(code, pos + Width(shape[0], w), shape[1..], w) == Some((vs, end))
    ensures ReadOperands(code, pos, shape, w) == Some(([v] + vs, end))
  {
  }

  /** An instruction read back from its own encoding: the opcode, then the operands it was written with. */
  lemma ReadBack(i: Instr, w: WordSize)
    requires WellFormed(i, w)
    ensures Encode(i, w)[0] == i.op
    ensures ReadOperands(Encode(i, w), 1, Shape(i.op), w) == Some((i.args, |Encode(i, w)|))
  {
    var e := EncodeArgs(i.args, Shape(i.op), w);
    assert Encode(i, w)[1..1 + |e|] == e;
    ReadOperandsOfEncode(Encode(i, w), 1, Shape(i.op), i.args, w);
  }

  /** The first instruction of a run, and the rest. */
  lemma EncodeAllCons(ins: seq<Instr>, w: WordSize)
    requires AllWellFormed(ins, w) && |ins| > 0
    ensures WellFormed(ins[0], w) && AllWellFormed(ins[1..], w)
    ensures EncodeAll(ins, w) == [ins[0].op as byte] + EncodeArgs(ins[0].args, Shape(ins[0].op), w) + EncodeAll(ins[1..], w)
  {
  }

  /** The instruction i is stored at pos: its opcode, then its operands. */
  predicate InstrAt(code: seq<byte>, pos: nat, i: Instr, w: WordSize)
  {
    var args := EncodeArgs(i.args, Shape(i.op), w);
    pos + 1 + |args| <= |code| && code[pos] == i.op && code[pos + 1..pos + 1 + |args|] == args
  }

  /** The run ins, then the terminator term, is stored at pos. */
  predicate RunAt(code: seq<byte>, pos: nat, ins: seq<Instr>, term: Op, w: WordSize)
  {
    var run := EncodeAll(ins, w) + [term as byte];
    pos + |run| <= |code| && code[pos..pos + |run|] == run
  }

  /** Where the first instruction of a stored run lies, and where the rest starts. */
  lemma SplitFirst(code: seq<byte>, pos: nat, ins: seq<Instr>, term: Op, w: WordSize) returns (next: nat)
    requires AllWellFormed(ins, w) && |ins| > 0 && RunAt(code, pos, ins, term, w)
    ensures next == pos + 1 + |EncodeArgs(ins[0].args, Shape(ins[0].op), w)|
    ensures InstrAt(code, pos, ins[0], w) && RunAt(code, next, ins[1..], term, w)
  {
    EncodeAllCons(ins, w);
    var args := EncodeArgs(ins[0].args, Shape(ins[0].op), w);
    SplitRun(code, pos, ins[0].op, args, EncodeAll(ins[1..], w), term);
    next := pos + 1 + |args|;
  }

  /** One step over a stored instruction releases what its operands hold and moves past them. */
  lemma StepOfEncoded(code: seq<byte>, pos: nat, i: Instr, w: WordSize)
    requires WellFormed(i, w) && InstrAt(code, pos, i, w)
    ensures Step(code, pos, w) == Ok(Stepped(ReleasesOf(Shape(i.op), i.args), pos + 1 + |EncodeArgs(i.args, Shape(i.op), w)|, false))
  {
    ReadOperandsOfEncode(code, pos + 1, Shape(i.op), i.args, w);
  }

  /** A step that does not end the walk is followed by the walk from where it stopped. */
  lemma WalkStep(code: seq<byte>, pos: nat, w: WordSize, first: seq<Release>, next: nat, rels: seq<Release>)
    requires pos < |code| && Step(code, pos, w) == Ok(Stepped(first, next, false))
    requires WalkResult(code, next, w, rels)
    ensures WalkResult(code, pos, w, first + rels)
  {
  }

  /** Two descriptions of the same walk result. */
  lemma SameWalk(code: seq<byte>, pos: nat, w: WordSize, rels: seq<Release>, rels': seq<Release>)
    requires WalkResult(code, pos, w, rels) && rels == rels'
    ensures WalkResult(code, pos, w, rels')
  {
  }

  /** What a successful walk over the stored run ins yields. */
  ghost predicate WalksTo(code: seq<byte>, pos: nat, ins: seq<Instr>, w: WordSize)
  {
    WalkResult(code, pos, w, ReleasesAll(ins))
  }

  /** The walk from pos succeeds and releases rels. */
  ghost predicate WalkResult(code: seq<byte>, pos: nat, w: WordSize, rels: seq<Release>)
  {
    Walk(code, pos, w).Ok? && Walk(code, pos, w).value.0 == rels
  }

  /** A run with one more instruction in front: what it releases and how long it is. */
  lemma ReleasesAllCons(i: Instr, rest: seq<Instr>, w: WordSize)
    ensures ReleasesAll([i] + rest) == ReleasesOf(Shape(i.op), i.args) + ReleasesAll(rest)
    ensures |EncodeAll([i] + rest, w)| == 1 + |EncodeArgs(i.args, Shape(i.op), w)| + |EncodeAll(rest, w)|
  {
    assert ([i] + rest)[1..] == rest;
  }

  /** A walk from a stored instruction releases its operands, then what the walk from just after it releases. */
  lemma WalkOverEncoded(code: seq<byte>, pos: nat, i: Instr, w: WordSize, rels: seq<Release>)
    requires WellFormed(i, w) && InstrAt(code, pos, i, w)
    requires WalkResult(code, pos + 1 + |EncodeArgs(i.args, Shape(i.op), w)|, w, rels)
    ensures WalkResult(code, pos, w, ReleasesOf(Shape(i.op), i.args) + rels)
  {
    StepOfEncoded(code, pos, i, w);
    WalkStep(code, pos, w, ReleasesOf(Shape(i.op), i.args), pos + 1 + |EncodeArgs(i.args, Shape(i.op), w)|, rels);
  }

  /** A walk from a stored instruction is its step, then the walk over the rest of the run. */
  lemma WalkCons(code: seq<byte>, pos: nat, ins: seq<Instr>, w: WordSize)
    requires |ins| > 0 && WellFormed(ins[0], w) && InstrAt(code, pos, ins[0], w)
    requires WalksTo(code, pos + 1 + |EncodeArgs(ins[0].args, Shape(ins[0].op), w)|, ins[1..], w)
    ensures WalksTo(code, pos, ins, w)
  {
    WalkOverEncoded(code, pos, ins[0], w, ReleasesAll(ins[1..]));
    WalkRelabel(code, pos, ins, w);
  }

  /** A walk releasing the first instruction's operands, then the rest's, releases what the run holds. */
  lemma WalkRelabel(code: seq<byte>, pos: nat, ins: seq<Instr>, w: WordSize)
    requires |ins| > 0 && WalkResult(code, pos, w, ReleasesOf(Shape(ins[0].op), ins[0].args) + ReleasesAll(ins[1..]))
    ensures WalksTo(code, pos, ins, w)
  {
    SameWalk(code, pos, w, ReleasesOf(Shape(ins[0].op), ins[0].args) + ReleasesAll(ins[1..]), ReleasesAll(ins));
  }

  /** A walk that starts on a terminator stops after it, releasing nothing. */
  lemma WalkAtTerminator(code: seq<byte>, pos: nat, term: Op, w: WordSize)
    requires IsTerminator(term) && RunAt(code, pos, [], term, w)
    ensures WalksTo(code, pos, [], w)
  {
    assert code[pos] == term;
  }

  /** The first instruction of a stored run: where the rest starts, and how a walk from there extends to pos. */
  lemma WalkFirst(code: seq<byte>, pos: nat, ins: seq<Instr>, term: Op, w: WordSize) returns (next: nat)
    requires AllWellFormed(ins, w) && |ins| > 0 && RunAt(code, pos, ins, term, w)
    ensures AllWellFormed(ins[1..], w) && RunAt(code, next, ins[1..], term, w)
    ensures WalksTo(code, next, ins[1..], w) ==> WalksTo(code, pos, ins, w)
  {
    next := SplitFirst(code, pos, ins, term, w);
    if WalksTo(code, next, ins[1..], w) {
      WalkCons(code, pos, ins, w);
    }
  }

  /**
   * Walking a stored run of instructions followed by a terminator succeeds
   * and releases exactly what the instructions' operands hold, in order.
   * Where the walk stops is not stated here.
   */
  lemma {:induction false} WalkEncoded(code: seq<byte>, pos: nat, ins: seq<Instr>, term: Op, w: WordSize)
    requires AllWellFormed(ins, w) && IsTerminator(term) && RunAt(code, pos, ins, term, w)
    ensures WalksTo(code, pos, ins, w)
    decreases |ins|
  {
    if |ins| == 0 {
      WalkAtTerminator(code, pos, term, w);
    } else {
      var next := WalkFirst(code, pos, ins, term, w);
      WalkEncoded(code, next, ins[1..], term, w);
    }
  }

  // ---------------------------------------------------------------------
  // The reverse-code stack (`popReverseCode`, `rcodeDownrefAll`)
  // ---------------------------------------------------------------------

  /** A group as it sits on the stack: its code, then a word holding the code's length. */
  function Frame(body: seq<byte>, w: WordSize): (f: seq<byte>)
    ensures |f| == |body| + w
  {
    body + EncodeLE(|body|, w)
  }

  /** A group of reverse code: a run of instructions and the terminator that ends it. */
  datatype Group = Group(ins: seq<Instr>, term: Op)

  function Body(g: Group, w: WordSize): seq<byte>
  {
    EncodeAll(g.ins, w) + [g.term as byte]
  }

  /** A group `rcodeDownref` can walk and whose length `read_word_p` reads back whole: under 2^32 bytes. */
  predicate ValidGroup(g: Group, w: WordSize)
  {
    AllWellFormed(g.ins, w) && IsTerminator(g.term) && |Body(g, w)| < Pow256(4)
  }

  predicate AllValid(gs: seq<Group>, w: WordSize)
  {
    |gs| > 0 ==> ValidGroup(gs[|gs| - 1], w) && AllValid(gs[..|gs| - 1], w)
  }

  /** The stack holding the groups gs, the oldest at the bottom. */
  function Stack(gs: seq<Group>, w: WordSize): seq<byte>
  {
    if |gs| == 0 then [] else Stack(gs[..|gs| - 1], w) + Frame(Body(gs[|gs| - 1], w), w)
  }

  /** What undoing every group releases: the newest group first. */
  function UndoReleases(gs: seq<Group>): seq<Release>
  {
    if |gs| == 0 then [] else ReleasesAll(gs[|gs| - 1].ins) + UndoReleases(gs[..|gs| - 1])
  }

  /**
   * `popReverseCode`: read the length word at the top of the stack and
   * back up over it and the group below it, giving the position where that
   * group starts, which is also the new length of the stack. A stack too
   * short for the word or the length it holds is an error.
   */
  function PopReverseCode(rev: seq<byte>, w: WordSize): (r: Result<nat, WalkError>)
    ensures r.Ok? ==> r.value + w <= |rev|
  {
    if |rev| < w then Err(BadFrame)
    else
      var len := ReadWordP(rev, |rev| - w);
      if len + w > |rev| then Err(BadFrame) else Ok(|rev| - len - w)
  }

  /**
   * `rcodeDownrefAll`: while the stack is not empty, walk the top group
   * with `rcodeDownref` and pop it. The releases come newest group first.
   */
  function DownrefAll(rev: seq<byte>, w: WordSize): Result<seq<Release>, WalkError>
    decreases |rev|
  {
    if |rev| == 0 then Ok([])
    else match PopReverseCode(rev, w)
      case Err(e) => Err(e)
      case Ok(start) =>
        match Walk(rev, start, w)
        case Err(e) => Err(e)
        case Ok(walked) =>
          match DownrefAll(rev[..start], w)
          case Err(e) => Err(e)
          case Ok(older) => Ok(walked.0 + older)
  }

  /** Popping a group pushed on any stack gives back where it starts. */
  lemma PopFrame(below: seq<byte>, body: seq<byte>, w: WordSize)
    requires |body| < Pow256(4)
    ensures PopReverseCode(below + Frame(body, w), w) == Ok(|below|)
  {
    ReadWordPOfEncode(|body|, w, below + body);
    Assoc(below, body, EncodeLE(|body|, w));
  }

  /** The top group of the stack starts at start, and walking it releases rels. */
  ghost predicate TopGroup(rev: seq<byte>, start: nat, rels: seq<Release>, w: WordSize)
  {
    PopReverseCode(rev, w) == Ok(start) && WalkResult(rev, start, w, rels)
  }

  /** A group pushed on a stack is walked from where it starts to its terminator, and the stack below is kept. */
  lemma GroupOnTop(below: seq<byte>, g: Group, w: WordSize)
    requires ValidGroup(g, w)
    ensures TopGroup(below + Frame(Body(g, w), w), |below|, ReleasesAll(g.ins), w)
    ensures (below + Frame(Body(g, w), w))[..|below|] == below
  {
    var body := Body(g, w);
    PopFrame(below, body, w);
    Parts(below, body, EncodeLE(|body|, w));
    WalkEncoded(below + Frame(body, w), |below|, g.ins, g.term, w);
  }

  /** One round of `rcodeDownrefAll`: the top group's releases, then the rest of the stack's. */
  lemma DownrefAllStep(rev: seq<byte>, start: nat, rels: seq<Release>, older: seq<Release>, w: WordSize)
    requires |rev| > 0 && TopGroup(rev, start, rels, w) && DownrefAll(rev[..start], w) == Ok(older)
    ensures DownrefAll(rev, w) == Ok(rels + older)
  {
  }

  /** Undoing a stack with one more group on top releases that group's trees first. */
  lemma DownrefAllPush(below: seq<byte>, g: Group, older: seq<Release>, w: WordSize)
    requires ValidGroup(g, w) && DownrefAll(below, w) == Ok(older)
    ensures DownrefAll(below + Frame(Body(g, w), w), w) == Ok(ReleasesAll(g.ins) + older)
  {
    GroupOnTop(below, g, w);
    DownrefAllStep(below + Frame(Body(g, w), w), |below|, ReleasesAll(g.ins), older, w);
  }

  /**
   * Undoing a whole stack of groups releases what every group's operands
   * hold, the newest group first, and each group in its stored order.
   */
  lemma {:induction false} DownrefAllStack(gs: seq<Group>, w: WordSize)
    requires AllValid(gs, w)
    ensures DownrefAll(Stack(gs, w), w) == Ok(UndoReleases(gs))
    decreases |gs|
  {
    if |gs| > 0 {
      DownrefAllStack(gs[..|gs| - 1], w);
      DownrefAllPush(Stack(gs[..|gs| - 1], w), gs[|gs| - 1], UndoReleases(gs[..|gs| - 1]), w);
    }
  }

  // ---------------------------------------------------------------------
  // The collect buffer and `makeReverseCode`
  // ---------------------------------------------------------------------

  /**
   * Closing a unit in the collect buffer: its code, then its length
   * appended as one code byte, which keeps only the low eight bits.
   */
  function Flush(unit: seq<byte>): (c: seq<byte>)
    ensures |c| == |unit| + 1 && c[|unit|] == |unit| % 256
  {
    unit + [(|unit| % 256) as byte]
  }

  /** The collect buffer after the units us were logged, the oldest first. */
  function Collect(us: seq<seq<Instr>>, w: WordSize): seq<byte>
  {
    if |us| == 0 then [] else Collect(us[..|us| - 1], w) + Flush(EncodeAll(us[|us| - 1], w))
  }

  /** Units whose instructions are well formed and whose length fits the length byte. */
  predicate ValidUnits(us: seq<seq<Instr>>, w: WordSize)
  {
    |us| > 0 ==>
      AllWellFormed(us[|us| - 1], w) && |EncodeAll(us[|us| - 1], w)| < 256 && ValidUnits(us[..|us| - 1], w)
  }

  /** The instructions of the units, the newest unit first and each unit in its own order. */
  function NewestFirst(us: seq<seq<Instr>>): seq<Instr>
  {
    if |us| == 0 then [] else us[|us| - 1] + NewestFirst(us[..|us| - 1])
  }

  /**
   * The loop of `makeReverseCode`: from the end of the collect buffer, read
   * a unit's length byte, step back over the unit and copy it out, until
   * the start of the buffer. A length that reaches before the start is an
   * error.
   */
  function Regroup(c: seq<byte>): (r: Option<seq<byte>>)
    ensures r.Some? ==> |r.value| <= |c|
    ensures r.Some? && |c| > 0 ==> |r.value| < |c|
    decreases |c|
  {
    if |c| == 0 then Some([])
    else
      var len := c[|c| - 1];
      if len > |c| - 1 then None
      else match Regroup(c[..|c| - 1 - len])
        case None => None
        case Some(older) => Some(c[|c| - 1 - len..|c| - 1] + older)
  }

  /** The outcome of `makeReverseCode`: whether a group was made, the stack, and the collect buffer. */
  datatype Made = Made(made: bool, rev: seq<byte>, collect: seq<byte>)

  /**
   * `makeReverseCode`: with nothing collected, nothing happens. Otherwise
   * push a group holding only PCR_END_DECK, then a group holding the units
   * newest first, ended by PCR_RET, and empty the collect buffer.
   */
  function MakeReverseCode(rev: seq<byte>, collect: seq<byte>, w: WordSize): (r: Option<Made>)
    ensures r.Some? ==> (r.value.made <==> |collect| > 0)
    ensures r.Some? ==> rev <= r.value.rev
    ensures r.Some? && r.value.made ==> r.value.collect == [] && |r.value.rev| >= |rev| + 2 + 2 * w
    ensures r.Some? && !r.value.made ==> r.value == Made(false, rev, collect)
  {
    if |collect| == 0 then Some(Made(false, rev, collect))
    else match Regroup(collect)
      case None => None
      case Some(units) =>
        Some(Made(true, rev + Frame([PcrEndDeck as byte], w) + Frame(units + [PcrRet as byte], w), []))
  }

  lemma {:induction false} EncodeAllAppend(a: seq<Instr>, b: seq<Instr>, w: WordSize)
    ensures EncodeAll(a + b, w) == EncodeAll(a, w) + EncodeAll(b, w)
  {
    if |a| == 0 {
      assert a + b == b;
    } else {
      assert (a + b)[1..] == a[1..] + b;
      EncodeAllAppend(a[1..], b, w);
      Assoc(Encode(a[0], w), EncodeAll(a[1..], w), EncodeAll(b, w));
    }
  }

  lemma {:induction false} AllWellFormedAppend(a: seq<Instr>, b: seq<Instr>, w: WordSize)
    requires AllWellFormed(a, w) && AllWellFormed(b, w)
    ensures AllWellFormed(a + b, w)
  {
    if |a| == 0 {
      AppendNothing(b, a);
      assert a + b == b;
    } else {
      DropAppend(a, b, 1);
      AllWellFormedAppend(a[1..], b, w);
    }
  }

  lemma {:induction false} ReleasesAllAppend(a: seq<Instr>, b: seq<Instr>)
    ensures ReleasesAll(a + b) == ReleasesAll(a) + ReleasesAll(b)
  {
    if |a| == 0 {
      assert a + b == b;
    } else {
      assert (a + b)[1..] == a[1..] + b;
      ReleasesAllAppend(a[1..], b);
    }
  }

  /** Reading the newest unit back off the end of the collect buffer. */
  lemma RegroupStep(c: seq<byte>, unit: seq<byte>, older: seq<byte>)
    requires |unit| < 256 && Regroup(c) == Some(older)
    ensures Regroup(c + Flush(unit)) == Some(unit + older)
  {
    var d := c + Flush(unit);
    FlushParts(c, unit);
    RegroupLast(d, older);
  }

  /** A flushed unit sits just before its length byte, and what was collected before it is untouched. */
  lemma FlushParts(c: seq<byte>, unit: seq<byte>)
    requires |unit| < 256
    ensures var d := c + Flush(unit);
      && |d| == |c| + |unit| + 1 && d[|d| - 1] == |unit|
      && d[..|c|] == c && d[|c|..|d| - 1] == unit
  {
    Parts(c, unit, [(|unit| % 256) as byte]);
  }

  /** The copy loop's step: a buffer ending in a unit and its length byte regroups to that unit before the rest. */
  lemma RegroupLast(d: seq<byte>, older: seq<byte>)
    requires |d| > 0 && d[|d| - 1] <= |d| - 1
    requires Regroup(d[..|d| - 1 - d[|d| - 1]]) == Some(older)
    ensures Regroup(d) == Some(d[|d| - 1 - d[|d| - 1]..|d| - 1] + older)
  {
  }

  /** The loop of `makeReverseCode` copies out the logged units, the newest first. */
  lemma {:induction false} RegroupCollect(us: seq<seq<Instr>>, w: WordSize)
    requires ValidUnits(us, w)
    ensures Regroup(Collect(us, w)) == Some(EncodeAll(NewestFirst(us), w))
    decreases |us|
  {
    if |us| > 0 {
      var older := us[..|us| - 1];
      RegroupCollect(older, w);
      RegroupStep(Collect(older, w), EncodeAll(us[|us| - 1], w), EncodeAll(NewestFirst(older), w));
      EncodeAllAppend(us[|us| - 1], NewestFirst(older), w);
    }
  }

  lemma {:induction false} NewestFirstWellFormed(us: seq<seq<Instr>>, w: WordSize)
    requires ValidUnits(us, w)
    ensures AllWellFormed(NewestFirst(us), w)
    decreases |us|
  {
    if |us| > 0 {
      NewestFirstWellFormed(us[..|us| - 1], w);
      AllWellFormedAppend(us[|us| - 1], NewestFirst(us[..|us| - 1]), w);
    }
  }

  /** Some unit was logged exactly when the collect buffer is not empty. */
  lemma {:induction false} CollectEmpty(us: seq<seq<Instr>>, w: WordSize)
    ensures |Collect(us, w)| == 0 <==> |us| == 0
    decreases |us|
  {
    if |us| > 0 {
      CollectEmpty(us[..|us| - 1], w);
    }
  }

  /** The two groups `makeReverseCode` pushes for the units us. */
  function Pushed(us: seq<seq<Instr>>): seq<Group>
  {
    [Group([], PcrEndDeck), Group(NewestFirst(us), PcrRet)]
  }

  /** Pushing one group on a stack adds its frame on top. */
  lemma StackSnoc(gs: seq<Group>, g: Group, w: WordSize)
    ensures Stack(gs + [g], w) == Stack(gs, w) + Frame(Body(g, w), w)
    ensures AllValid(gs + [g], w) <==> ValidGroup(g, w) && AllValid(gs, w)
    ensures UndoReleases(gs + [g]) == ReleasesAll(g.ins) + UndoReleases(gs)
  {
    assert (gs + [g])[..|gs|] == gs;
  }

  /** The two pushed groups, one at a time. */
  lemma PushedSnoc(gs: seq<Group>, us: seq<seq<Instr>>)
    ensures gs + Pushed(us) == (gs + [Group([], PcrEndDeck)]) + [Group(NewestFirst(us), PcrRet)]
  {
  }

  /** The END_DECK group is the opcode alone and releases nothing. */
  lemma EndDeckGroup(w: WordSize)
    ensures Body(Group([], PcrEndDeck), w) == [PcrEndDeck as byte]
    ensures ReleasesAll(Group([], PcrEndDeck).ins) == []
    ensures ValidGroup(Group([], PcrEndDeck), w)
  {
    assert EncodeAll([], w) == [];
  }

  /** The stack after the two groups are pushed, byte by byte. */
  lemma StackPushed(gs: seq<Group>, us: seq<seq<Instr>>, w: WordSize)
    ensures Stack(gs + Pushed(us), w)
      == Stack(gs, w) + Frame([PcrEndDeck as byte], w) + Frame(EncodeAll(NewestFirst(us), w) + [PcrRet as byte], w)
  {
    var a := Group([], PcrEndDeck);
    PushedSnoc(gs, us);
    StackSnoc(gs, a, w);
    StackSnoc(gs + [a], Group(NewestFirst(us), PcrRet), w);
    EndDeckGroup(w);
  }

  /** `makeReverseCode` on a non-empty collect buffer whose units read back. */
  lemma MakeOfUnits(rev: seq<byte>, collect: seq<byte>, units: seq<byte>, w: WordSize)
    requires |collect| > 0 && Regroup(collect) == Some(units)
    ensures MakeReverseCode(rev, collect, w) == Some(Made(true, rev + Frame([PcrEndDeck as byte], w) + Frame(units + [PcrRet as byte], w), []))
  {
  }

  /**
   * On a stack of groups, `makeReverseCode` over logged units pushes the
   * END_DECK group and the group of the units newest first, ended by
   * PCR_RET, and empties the collect buffer.
   */
  lemma MakeOnStack(gs: seq<Group>, us: seq<seq<Instr>>, w: WordSize)
    requires |us| > 0 && ValidUnits(us, w)
    ensures MakeReverseCode(Stack(gs, w), Collect(us, w), w) == Some(Made(true, Stack(gs + Pushed(us), w), []))
  {
    CollectEmpty(us, w);
    RegroupCollect(us, w);
    MakeOfUnits(Stack(gs, w), Collect(us, w), EncodeAll(NewestFirst(us), w), w);
    StackPushed(gs, us, w);
  }

  /** The pushed groups are valid when the units are and their code is under 2^32 bytes. */
  lemma PushedValid(gs: seq<Group>, us: seq<seq<Instr>>, w: WordSize)
    requires AllValid(gs, w) && ValidUnits(us, w) && |EncodeAll(NewestFirst(us), w)| + 1 < Pow256(4)
    ensures AllValid(gs + Pushed(us), w)
  {
    var a := Group([], PcrEndDeck);
    NewestFirstWellFormed(us, w);
    PushedSnoc(gs, us);
    EndDeckGroup(w);
    StackSnoc(gs, a, w);
    StackSnoc(gs + [a], Group(NewestFirst(us), PcrRet), w);
  }

  /** Undoing the pushed groups releases the units' trees; the END_DECK group holds none. */
  lemma UndoPushed(gs: seq<Group>, us: seq<seq<Instr>>, w: WordSize)
    ensures UndoReleases(gs + Pushed(us)) == ReleasesAll(NewestFirst(us)) + UndoReleases(gs)
  {
    var a := Group([], PcrEndDeck);
    PushedSnoc(gs, us);
    EndDeckGroup(w);
    StackSnoc(gs, a, w);
    StackSnoc(gs + [a], Group(NewestFirst(us), PcrRet), w);
  }

  /**
   * Undoing the stack `makeReverseCode` leaves (MakeOnStack): first the
   * units, newest first, then nothing for the END_DECK group, then the
   * groups that were already there.
   */
  lemma DownrefAllAfterMake(gs: seq<Group>, us: seq<seq<Instr>>, w: WordSize)
    requires AllValid(gs, w) && ValidUnits(us, w) && |EncodeAll(NewestFirst(us), w)| + 1 < Pow256(4)
    ensures DownrefAll(Stack(gs + Pushed(us), w), w) == Ok(ReleasesAll(NewestFirst(us)) + UndoReleases(gs))
  {
    PushedValid(gs, us, w);
    DownrefAllStack(gs + Pushed(us), w);
    UndoPushed(gs, us, w);
  }

  /**
   * On the stack `makeReverseCode` leaves (MakeOnStack), `popReverseCode`
   * gives back the start of the units' group, just above the END_DECK group.
   */
  lemma PopAfterMake(gs: seq<Group>, us: seq<seq<Instr>>, w: WordSize)
    requires |EncodeAll(NewestFirst(us), w)| + 1 < Pow256(4)
    ensures PopReverseCode(Stack(gs + Pushed(us), w), w) == Ok(|Stack(gs, w)| + 1 + w)
  {
    StackPushed(gs, us, w);
    PopFrame(Stack(gs, w) + Frame([PcrEndDeck as byte], w), EncodeAll(NewestFirst(us), w) + [PcrRet as byte], w);
  }
}
