/**
 * The comparison, logical and integer instructions of `executeCode`
 * (colm/bytecode.c:1711-1870). Each pops its two operands (the second
 * operand on top), pushes one result and releases the operands.
 *
 * Stack values are seen only as far as these instructions look at them:
 * the interpreter's true and false trees, integer trees, and any other
 * tree. Tree comparison (`cmpTree`) and truth testing (`testFalse`) live in
 * tree.c, which is not part of this model; they are parameters here.
 */
module Compare {
  import opened Wrappers

  datatype Val = Bool(b: bool) | Int(i: int) | Other(id: nat)

  datatype StackError = StackUnderflow | NotAnInt | DivideByZero

  /** The six tests on the result of `cmpTree`. */
  datatype TestOp = Eql | NotEql | Less | LessEql | Grtr | GrtrEql

  /** Whether the test holds when `cmpTree` returned r. */
  predicate Holds(op: TestOp, r: int)
  {
    match op
    case Eql => r == 0
    case NotEql => r != 0
    case Less => r < 0
    case LessEql => r <= 0
    case Grtr => r > 0
    case GrtrEql => r >= 0
  }

  /** The tests come in complementary pairs. */
  lemma Complements(r: int)
    ensures Holds(NotEql, r) <==> !Holds(Eql, r)
    ensures Holds(GrtrEql, r) <==> !Holds(Less, r)
    ensures Holds(LessEql, r) <==> !Holds(Grtr, r)
  {
  }

  /** Pop the two operands, the second on top; None when the stack holds fewer than two. */
  function PopTwo(stack: seq<Val>): (r: Option<(seq<Val>, Val, Val)>)
    ensures r.Some? <==> |stack| >= 2
    ensures r.Some? ==> r.value.0 + [r.value.1, r.value.2] == stack
  {
    if |stack| < 2 then None else Some((stack[..|stack| - 2], stack[|stack| - 2], stack[|stack| - 1]))
  }

  /**
   * TST_EQL, TST_NOT_EQL, TST_LESS, TST_LESS_EQL, TST_GRTR and TST_GRTR_EQL
   * as evidently intended: pop o2 then o1, push true exactly when the test
   * holds of `cmpTree(o1, o2)`.
   */
  function Test(op: TestOp, stack: seq<Val>, cmp: (Val, Val) -> int): (r: Result<seq<Val>, StackError>)
    ensures r.Ok? <==> |stack| >= 2
    ensures r.Ok? ==> |r.value| == |stack| - 1 && r.value[..|stack| - 2] == stack[..|stack| - 2]
    ensures r.Ok? ==> r.value[|stack| - 2] == Bool(Holds(op, cmp(stack[|stack| - 2], stack[|stack| - 1])))
  {
    match PopTwo(stack)
    case None => Err(StackUnderflow)
    case Some(p) => Ok(p.0 + [Bool(Holds(op, cmp(p.1, p.2)))])
  }

  /** The complementary tests on the same operands push opposite truth values. */
  lemma TestComplements(stack: seq<Val>, cmp: (Val, Val) -> int)
    requires |stack| >= 2
    ensures Test(NotEql, stack, cmp).value[|stack| - 2].b == !Test(Eql, stack, cmp).value[|stack| - 2].b
    ensures Test(GrtrEql, stack, cmp).value[|stack| - 2].b == !Test(Less, stack, cmp).value[|stack| - 2].b
    ensures Test(LessEql, stack, cmp).value[|stack| - 2].b == !Test(Grtr, stack, cmp).value[|stack| - 2].b
  {
    Complements(cmp(stack[|stack| - 2], stack[|stack| - 1]));
  }

  /**
   * On the same operands exactly one of TST_LESS, TST_EQL and TST_GRTR
   * pushes true, and each "or equal" test pushes true exactly when the
   * strict test or TST_EQL does.
   */
  lemma TestTrichotomy(stack: seq<Val>, cmp: (Val, Val) -> int)
    requires |stack| >= 2
    ensures var k := |stack| - 2;
      var lt := Test(Less, stack, cmp).value[k].b;
      var eq := Test(Eql, stack, cmp).value[k].b;
      var gt := Test(Grtr, stack, cmp).value[k].b;
      && (lt || eq || gt) && !(lt && eq) && !(lt && gt) && !(eq && gt)
      && Test(LessEql, stack, cmp).value[k].b == (lt || eq)
      && Test(GrtrEql, stack, cmp).value[k].b == (gt || eq)
  {
  }

  /**
   * The comparison cases as written: TST_LESS_EQL has no `break`, so after
   * pushing its result the interpreter runs the TST_GRTR case as well,
   * which pops that result and the value below it.
   */
  function TestAsWritten(op: TestOp, stack: seq<Val>, cmp: (Val, Val) -> int): (r: Result<seq<Val>, StackError>)
    ensures op != LessEql ==> r == Test(op, stack, cmp)
  {
    if op != LessEql then Test(op, stack, cmp)
    else match Test(LessEql, stack, cmp)
      case Err(e) => Err(e)
      case Ok(s) => Test(Grtr, s, cmp)
  }

  /**
   * As written, TST_LESS_EQL consumes three values instead of two, and
   * pushes the result of comparing the value under its operands with its
   * own result; on a stack of just its two operands it underflows where
   * the intended instruction succeeds.
   */
  lemma LessEqlFallsThrough(stack: seq<Val>, cmp: (Val, Val) -> int)
    ensures |stack| == 2 ==> TestAsWritten(LessEql, stack, cmp).Err? && Test(LessEql, stack, cmp).Ok?
    ensures |stack| >= 3 ==> var n := |stack|;
      var mine := Bool(Holds(LessEql, cmp(stack[n - 2], stack[n - 1])));
      TestAsWritten(LessEql, stack, cmp) == Ok(stack[..n - 3] + [Bool(Holds(Grtr, cmp(stack[n - 3], mine)))])
      && |TestAsWritten(LessEql, stack, cmp).value| == |Test(LessEql, stack, cmp).value| - 1
  {
    if |stack| >= 3 {
      var n := |stack|;
      var s := Test(LessEql, stack, cmp).value;
      assert s[..n - 3] == stack[..n - 3];
      assert s[n - 3] == stack[n - 3];
    }
  }

  // ---------------------------------------------------------------------
  // Logical operators
  // ---------------------------------------------------------------------

  /** TST_LOGICAL_AND and TST_LOGICAL_OR: true exactly when both, or either, operand is not false. */
  function Logical(isAnd: bool, stack: seq<Val>, isFalse: Val -> bool): (r: Result<seq<Val>, StackError>)
    ensures r.Ok? <==> |stack| >= 2
    ensures r.Ok? ==> |r.value| == |stack| - 1 && r.value[..|stack| - 2] == stack[..|stack| - 2]
    ensures r.Ok? && isAnd ==> (r.value[|stack| - 2] == Bool(true) <==> !isFalse(stack[|stack| - 2]) && !isFalse(stack[|stack| - 1]))
    ensures r.Ok? && !isAnd ==> (r.value[|stack| - 2] == Bool(true) <==> !isFalse(stack[|stack| - 2]) || !isFalse(stack[|stack| - 1]))
  {
    match PopTwo(stack)
    case None => Err(StackUnderflow)
    case Some(p) =>
      var v1 := !isFalse(p.1);
      var v2 := !isFalse(p.2);
      Ok(p.0 + [Bool(if isAnd then v1 && v2 else v1 || v2)])
  }

  /** NOT: true exactly when the operand is false. */
  function Not(stack: seq<Val>, isFalse: Val -> bool): (r: Result<seq<Val>, StackError>)
    ensures r.Ok? <==> |stack| >= 1
    ensures r.Ok? ==> |r.value| == |stack| && r.value[..|stack| - 1] == stack[..|stack| - 1]
    ensures r.Ok? ==> (r.value[|stack| - 1] == Bool(true) <==> isFalse(stack[|stack| - 1]))
  {
    if |stack| == 0 then Err(StackUnderflow)
    else Ok(stack[..|stack| - 1] + [Bool(isFalse(stack[|stack| - 1]))])
  }

  /** De Morgan over the stack: NOT of AND is the OR of the NOTs. */
  lemma NotAnd(stack: seq<Val>, isFalse: Val -> bool)
    requires |stack| >= 2 && isFalse(Bool(false)) && !isFalse(Bool(true))
    ensures var n := |stack|;
      var and := Logical(true, stack, isFalse).value;
      var nots := stack[..n - 2] + [Not([stack[n - 2]], isFalse).value[0], Not([stack[n - 1]], isFalse).value[0]];
      Not(and, isFalse).value[n - 2] == Logical(false, nots, isFalse).value[n - 2]
  {
  }

  // ---------------------------------------------------------------------
  // Integer arithmetic
  // ---------------------------------------------------------------------

  datatype ArithOp = Add | Sub | Mult | Div

  /** C's `/` on integers: the quotient truncated toward zero. */
  function CDiv(a: int, b: int): (q: int)
    requires b != 0
    ensures Abs(q) == Abs(a) / Abs(b)
    ensures q != 0 ==> ((q > 0) <==> ((a > 0) == (b > 0)))
  {
    var m := Abs(a) / Abs(b);
    QuotientOfMagnitudes(Abs(a), Abs(b));
    if (a >= 0) == (b > 0) then m else -m
  }

  /** The quotient of two magnitudes is a magnitude, and zero when the dividend is. */
  lemma QuotientOfMagnitudes(x: nat, y: nat)
    requires y > 0
    ensures x / y >= 0 && (x == 0 ==> x / y == 0)
  {
  }

  function Abs(x: int): nat
  {
    if x < 0 then -x else x
  }

  /**
   * The quotient C's division gives: what is left over has the magnitude of
   * the Euclidean remainder of the magnitudes and the sign of the dividend,
   * so it is smaller than the divisor.
   */
  lemma CDivTruncates(a: int, b: int)
    requires b != 0
    ensures var rem := a - CDiv(a, b) * b;
      Abs(rem) == Abs(a) % Abs(b) && Abs(rem) < Abs(b) && (a >= 0 ==> rem >= 0) && (a <= 0 ==> rem <= 0)
  {
    var q := Abs(a) / Abs(b);
    var m := Abs(a) % Abs(b);
    assert Abs(a) == q * Abs(b) + m;
    if a >= 0 && b < 0 {
      assert CDiv(a, b) * b == q * Abs(b);
    } else if a < 0 && b > 0 {
      assert CDiv(a, b) * b == -(q * Abs(b));
    } else if a < 0 && b < 0 {
      assert CDiv(a, b) * b == -(q * Abs(b));
    } else {
      assert CDiv(a, b) * b == q * Abs(b);
    }
  }

  /** Negating either operand negates the quotient; on non-negative operands it is Dafny's division. */
  lemma CDivSigns(a: int, b: int)
    requires b != 0
    ensures CDiv(-a, b) == -CDiv(a, b) && CDiv(a, -b) == -CDiv(a, b)
    ensures a >= 0 && b > 0 ==> CDiv(a, b) == a / b
  {
    var q := Abs(a) / Abs(b);
    assert Abs(-a) == Abs(a) && Abs(-b) == Abs(b);
    if a == 0 {
      assert CDiv(-a, b) == q == 0 && CDiv(a, -b) == 0 && CDiv(a, b) == 0;
    }
  }

  /** The integer an operator computes; None for a division by zero, which C leaves undefined. */
  function Compute(op: ArithOp, a: int, b: int): (r: Option<int>)
    ensures r.None? <==> op == Div && b == 0
  {
    match op
    case Add => Some(a + b)
    case Sub => Some(a - b)
    case Mult => Some(a * b)
    case Div => if b == 0 then None else Some(CDiv(a, b))
  }

  /** SUB undoes ADD, and DIV undoes MULT by a nonzero factor. */
  lemma ComputeInverses(a: int, b: int)
    ensures Compute(Sub, Compute(Add, a, b).value, b) == Some(a)
    ensures b != 0 ==> Compute(Div, Compute(Mult, a, b).value, b) == Some(a)
  {
    if b != 0 {
      CDivTruncates(a * b, b);
      var q := CDiv(a * b, b);
      var rem := a * b - q * b;
      assert rem == (a - q) * b;
      if a != q {
        AbsMul(a - q, b);
      }
    }
  }

  lemma AbsMul(x: int, y: int)
    requires x != 0
    ensures Abs(x * y) >= Abs(y)
  {
    if x > 0 && y >= 0 {
      assert x * y >= y;
    } else if x > 0 {
      assert x * y <= y;
    } else if y >= 0 {
      assert x * y <= -y;
    } else {
      assert x * y >= -y;
    }
  }

  /**
   * ADD_INT, SUB_INT, MULT_INT and DIV_INT: pop o2 then o1, both integer
   * trees, and push a new integer tree holding o1 op o2 (machine `long`
   * overflow is not modelled).
   */
  function Arith(op: ArithOp, stack: seq<Val>): (r: Result<seq<Val>, StackError>)
    ensures |stack| < 2 ==> r == Err(StackUnderflow)
    ensures r.Ok? ==> |r.value| == |stack| - 1 && r.value[..|stack| - 2] == stack[..|stack| - 2]
    ensures r.Ok? ==> stack[|stack| - 2].Int? && stack[|stack| - 1].Int? && r.value[|stack| - 2].Int?
    ensures r.Ok? ==> Compute(op, stack[|stack| - 2].i, stack[|stack| - 1].i) == Some(r.value[|stack| - 2].i)
    ensures r == Err(NotAnInt) <==> |stack| >= 2 && !(stack[|stack| - 2].Int? && stack[|stack| - 1].Int?)
    ensures r == Err(DivideByZero) <==> |stack| >= 2 && stack[|stack| - 2].Int? && stack[|stack| - 1] == Int(0) && op == Div
  {
    match PopTwo(stack)
    case None => Err(StackUnderflow)
    case Some(p) =>
      if !p.1.Int? || !p.2.Int? then Err(NotAnInt)
      else match Compute(op, p.1.i, p.2.i)
        case None => Err(DivideByZero)
        case Some(v) => Ok(p.0 + [Int(v)])
  }

  /** Adding then subtracting the same integer on the stack gives back the first operand. */
  lemma ArithAddSub(below: seq<Val>, a: int, b: int)
    ensures Arith(Add, below + [Int(a), Int(b)]) == Ok(below + [Int(a + b)])
    ensures Arith(Sub, below + [Int(a + b), Int(b)]) == Ok(below + [Int(a)])
  {
    var s := below + [Int(a), Int(b)];
    assert s[..|below|] == below;
    var t := below + [Int(a + b), Int(b)];
    assert t[..|below|] == below;
  }
}
