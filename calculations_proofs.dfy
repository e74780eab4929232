/** Properties of the `calculations.py` pipeline, stated about the functions that
    specify `get_tokens`, `to_postfix` and `evaluate`. */
module CalculationsProofs {
  import opened Outcomes
  import opened Numerals
  import opened Values
  import opened Sequences
  import opened Calculations

  predicate IsNumber(t: Token) { t.Num? }

  /** A numeral that the `float(token)` test of `to_postfix` accepts. */
  predicate IsNumeral(t: Token) { t.Num? && IsNumeric(t.text) }

  /** A token that the `for` loop of `to_postfix` puts on the stack or the output
      (everything but a number string `float` rejects). */
  predicate Emitted(t: Token) { t.Sym? || IsNumeric(t.text) }

  // ---------------------------------------------------------------------------
  // Popping the operator stack

  lemma UnstackedPush(ops: seq<Operator>, op: Operator)
    ensures Unstacked(ops + [op]) == [Sym(op)] + Unstacked(ops)
  {
    assert (ops + [op])[..|ops|] == ops;
  }

  /** Emptying a stack `a + b` emits `b` first, then `a`. */
  lemma {:induction false} UnstackedSplit(a: seq<Operator>, b: seq<Operator>)
    ensures Unstacked(a + b) == Unstacked(b) + Unstacked(a)
    decreases |b|
  {
    if b == [] {
      assert a + b == a;
    } else {
      var b' := b[..|b| - 1];
      assert a + b == (a + b') + [b[|b| - 1]];
      UnstackedPush(a + b', b[|b| - 1]);
      UnstackedPush(b', b[|b| - 1]);
      assert b == b' + [b[|b| - 1]];
      UnstackedSplit(a, b');
    }
  }

  /** The stack never holds a number, so emptying it emits none. */
  lemma {:induction false} UnstackedHasNoNumbers(ops: seq<Operator>)
    ensures Filter(Unstacked(ops), IsNumber) == []
    decreases |ops|
  {
    if ops != [] {
      var top := [Sym(ops[|ops| - 1])];
      FilterAppend(top, Unstacked(ops[..|ops| - 1]), IsNumber);
      assert Filter(top, IsNumber) == Filter([], IsNumber) + [];
      UnstackedHasNoNumbers(ops[..|ops| - 1]);
    }
  }

  /** The inner `while` of an operator token moves entries from the stack to the
      output without losing, adding or reordering any of them. */
  lemma DrainPopAtLeast(c: Conversion, p: nat)
    ensures Drain(PopAtLeast(c, p)) == Drain(c)
  {
    var ops := c.operations;
    var n := |ops|;
    var k := PopCount(ops, p);
    UnstackedSplit(ops[..n - k], ops[n - k..]);
    assert ops[..n - k] + ops[n - k..] == ops;
  }

  /** That `while` never pops a `(` for an operator of precedence at least 1, and
      it stops at the first entry whose precedence is below the incoming one. */
  lemma PopAtLeastStops(c: Conversion, p: nat)
    requires 1 <= p
    ensures var d := PopAtLeast(c, p);
      && d.operations <= c.operations
      && (d.operations == [] || Precedence(d.operations[|d.operations| - 1]) < p)
      && (forall j :: |d.operations| <= j < |c.operations| ==> c.operations[j] != LeftParenthesis)
  {
  }

  // ---------------------------------------------------------------------------
  // to_postfix outputs a permutation of its input

  lemma FilterSingle(t: Token, keep: Token -> bool)
    ensures Filter([t], keep) == if keep(t) then [t] else []
  {
    assert [t][..0] == [];
  }

  /** One iteration of the `for` loop adds its token to what the drained state holds. */
  lemma StepMultiset(c: Conversion, t: Token)
    ensures multiset(Drain(Step(c, t))) == multiset(Drain(c)) + if Emitted(t) then multiset{t} else multiset{}
  {
    if t == Sym(LeftParenthesis) {
      UnstackedPush(c.operations, LeftParenthesis);
    } else if t.Sym? {
      var d := PopAtLeast(c, Precedence(t.op));
      DrainPopAtLeast(c, Precedence(t.op));
      UnstackedPush(d.operations, t.op);
    }
  }

  lemma {:induction false} ConvertMultiset(c: Conversion, ts: seq<Token>)
    ensures multiset(Drain(Convert(c, ts))) == multiset(Drain(c)) + multiset(Filter(ts, Emitted))
    decreases |ts|
  {
    if ts == [] {
      assert Filter(ts, Emitted) == [];
    } else {
      var t, rest := ts[0], ts[1..];
      var d := Step(c, t);
      assert Convert(c, ts) == Convert(d, rest);
      StepMultiset(c, t);
      ConvertMultiset(d, rest);
      EmittedHead(ts);
    }
  }

  lemma EmittedHead(ts: seq<Token>)
    requires ts != []
    ensures Filter(ts, Emitted) == (if Emitted(ts[0]) then [ts[0]] else []) + Filter(ts[1..], Emitted)
  {
    assert [ts[0]] + ts[1..] == ts;
    FilterAppend([ts[0]], ts[1..], Emitted);
    FilterSingle(ts[0], Emitted);
  }

  /** Every token `to_postfix` keeps reaches the output exactly once: the output is
      a permutation of the input without the number strings `float` rejects. */
  lemma ShuntPermutation(ts: seq<Token>)
    ensures multiset(Shunt(ts)) == multiset(Filter(ts, Emitted))
  {
    ConvertMultiset(Conversion([], []), ts);
  }

  // ---------------------------------------------------------------------------
  // to_postfix keeps the numbers in order

  lemma NumbersOfDrain(c: Conversion)
    ensures Filter(Drain(c), IsNumber) == Filter(c.postfix, IsNumber)
  {
    FilterAppend(c.postfix, Unstacked(c.operations), IsNumber);
    UnstackedHasNoNumbers(c.operations);
  }

  lemma StepNumbers(c: Conversion, t: Token)
    ensures Filter(Step(c, t).postfix, IsNumber) == Filter(c.postfix, IsNumber) + if IsNumeral(t) then [t] else []
  {
    if t == Sym(LeftParenthesis) {
    } else if t.Sym? {
      var p := Precedence(t.op);
      var n := |c.operations|;
      var k := PopCount(c.operations, p);
      FilterAppend(c.postfix, Unstacked(c.operations[n - k..]), IsNumber);
      UnstackedHasNoNumbers(c.operations[n - k..]);
    } else if IsNumeric(t.text) {
      FilterAppend(c.postfix, [t], IsNumber);
      FilterSingle(t, IsNumber);
    }
  }

  lemma {:induction false} ConvertNumbers(c: Conversion, ts: seq<Token>)
    ensures Filter(Convert(c, ts).postfix, IsNumber) == Filter(c.postfix, IsNumber) + Filter(ts, IsNumeral)
    decreases |ts|
  {
    if ts != [] {
      StepNumbers(c, ts[0]);
      ConvertNumbers(Step(c, ts[0]), ts[1..]);
      assert [ts[0]] + ts[1..] == ts;
      FilterAppend([ts[0]], ts[1..], IsNumeral);
      FilterSingle(ts[0], IsNumeral);
    }
  }

  /** The numbers reach the output in the order they came in. */
  lemma ShuntKeepsNumberOrder(ts: seq<Token>)
    ensures Filter(Shunt(ts), IsNumber) == Filter(ts, IsNumeral)
  {
    var c := Convert(Conversion([], []), ts);
    ConvertNumbers(Conversion([], []), ts);
    NumbersOfDrain(c);
  }

  // ---------------------------------------------------------------------------
  // The operator stack rises strictly between `(` markers

  /** Each entry of `ops` is a `(` or has a higher precedence than the entry below it. */
  predicate Rising(ops: seq<Operator>) {
    forall k :: 0 < k < |ops| ==> ops[k] == LeftParenthesis || Precedence(ops[k - 1]) < Precedence(ops[k])
  }

  lemma StepRising(c: Conversion, t: Token)
    requires Rising(c.operations)
    ensures Rising(Step(c, t).operations)
  {
    if t.Sym? && t != Sym(LeftParenthesis) {
      PopAtLeastStops(c, Precedence(t.op));
    }
  }

  lemma {:induction false} ConvertRising(c: Conversion, ts: seq<Token>)
    requires Rising(c.operations)
    ensures Rising(Convert(c, ts).operations)
    decreases |ts|
  {
    if ts != [] {
      StepRising(c, ts[0]);
      ConvertRising(Step(c, ts[0]), ts[1..]);
    }
  }

  lemma StepKeepsParentheses(c: Conversion, t: Token)
    ensures multiset(Step(c, t).operations)[LeftParenthesis] ==
      multiset(c.operations)[LeftParenthesis] + if t == Sym(LeftParenthesis) then 1 else 0
    ensures Sym(LeftParenthesis) in Step(c, t).postfix ==> Sym(LeftParenthesis) in c.postfix
  {
    if t.Sym? && t != Sym(LeftParenthesis) {
      var p := Precedence(t.op);
      var ops := c.operations;
      var n := |ops|;
      var k := PopCount(ops, p);
      PopAtLeastStops(c, p);
      assert LeftParenthesis !in ops[n - k..];
      NoParenthesisUnstacked(ops[n - k..]);
      assert ops == ops[..n - k] + ops[n - k..];
    }
  }

  /** No `(` leaves the stack before the final `while`: it is never popped by an
      operator, so every `(` of the input is still stacked when the loop ends. */
  lemma {:induction false} ConvertKeepsParentheses(c: Conversion, ts: seq<Token>)
    ensures multiset(Convert(c, ts).operations)[LeftParenthesis] ==
      multiset(c.operations)[LeftParenthesis] + multiset(ts)[Sym(LeftParenthesis)]
    ensures Sym(LeftParenthesis) in Convert(c, ts).postfix ==> Sym(LeftParenthesis) in c.postfix
    decreases |ts|
  {
    if ts != [] {
      var t, rest := ts[0], ts[1..];
      var d := Step(c, t);
      assert Convert(c, ts) == Convert(d, rest);
      StepKeepsParentheses(c, t);
      ConvertKeepsParentheses(d, rest);
      assert [t] + rest == ts;
    }
  }

  lemma {:induction false} NoParenthesisUnstacked(ops: seq<Operator>)
    requires LeftParenthesis !in ops
    ensures Sym(LeftParenthesis) !in Unstacked(ops)
    decreases |ops|
  {
    if ops != [] {
      NoParenthesisUnstacked(ops[..|ops| - 1]);
    }
  }

  // ---------------------------------------------------------------------------
  // Parentheses never evaluate

  /** `(` pushed on the `results` stack cannot be applied: it pops two values and
      has no function, so some pop, `Decimal` conversion or call raises. */
  lemma ParenthesisNeverApplies(results: seq<Entry>)
    ensures ApplyOperator(LeftParenthesis, results).Err?
  {
  }

  lemma {:induction false} RunFailsAtParenthesis(results: seq<Entry>, ts: seq<Token>, j: nat)
    requires j < |ts| && ts[j] == Sym(LeftParenthesis)
    ensures Run(results, ts).Err?
    decreases j
  {
    ParenthesisNeverApplies(results);
    if 0 < j {
      match Reduce(results, ts[0])
      case Err(_) =>
      case Ok(next) => RunFailsAtParenthesis(next, ts[1..], j - 1);
    }
  }

  lemma {:induction false} FilterContains(ts: seq<Token>, t: Token, keep: Token -> bool)
    requires t in ts && keep(t)
    ensures t in Filter(ts, keep)
    decreases |ts|
  {
    var n := |ts|;
    if ts[n - 1] != t {
      assert t in ts[..n - 1];
      FilterContains(ts[..n - 1], t, keep);
    }
  }

  /** A postfix form built from tokens that hold a `(` cannot be evaluated: the `(`
      is never popped by an operator, ends up in the output, and fails there. */
  lemma ParenthesisedTokensFail(ts: seq<Token>)
    requires Sym(LeftParenthesis) in ts
    ensures Outcome(Shunt(ts)).Err?
  {
    FilterContains(ts, Sym(LeftParenthesis), Emitted);
    ShuntPermutation(ts);
    var ps := Shunt(ts);
    assert multiset(ps)[Sym(LeftParenthesis)] > 0;
    var j :| 0 <= j < |ps| && ps[j] == Sym(LeftParenthesis);
    RunFailsAtParenthesis([], ps, j);
  }

  /** Where the `i`-th lexeme lands among the kept ones, when it is not blank. */
  lemma {:induction false} LexedIndex(lexemes: seq<string>, i: nat)
    requires i < |lexemes| && Strip(lexemes[i]) != []
    ensures |Lexed(lexemes[..i])| < |Lexed(lexemes)|
    ensures Lexed(lexemes)[|Lexed(lexemes[..i])|] == Strip(lexemes[i])
  {
    LexedAppend(lexemes, i);
    LexedPrefix(lexemes, i + 1);
  }

  /** A `)` is not a member of `Operators`: `from_symbol` raises ValueError for it. */
  lemma ClosingParenthesisRaises(lexemes: seq<string>, i: nat)
    requires i < |lexemes| && Strip(lexemes[i]) == ")"
    ensures TokensOf(lexemes) == Err(ValueError)
  {
    NotNumeric(")", 0);
    assert Classify(")").Err?;
    LexedIndex(lexemes, i);
    ClassifiedFails(Lexed(lexemes), |Lexed(lexemes[..i])|);
  }

  /** The unary-minus rewrite moves a token that is not a `-` at most one slot to the left. */
  lemma SwappedKeeps(ts: seq<Token>, j: nat)
    requires j < |ts| && ts[j] != Sym(Subtraction)
    requires Swapped(ts, UnaryMinusPositions(ts), Sym(Negation)).Ok?
    ensures ts[j] in Swapped(ts, UnaryMinusPositions(ts), Sym(Negation)).value
  {
    var swaps := UnaryMinusPositions(ts);
    var out := Swapped(ts, swaps, Sym(Negation)).value;
    assert j !in swaps;
    if 0 < j && j - 1 in swaps {
      assert out[j - 1] == ts[j];
    } else {
      assert out[j] == ts[j];
    }
  }

  /** `evaluate` fails on every expression that holds a parenthesis: `)` is rejected
      by `get_tokens`, and `(` reaches the `results` loop, where it cannot be applied. */
  lemma ParenthesesNeverEvaluate(lexemes: seq<string>, i: nat)
    requires i < |lexemes| && (Strip(lexemes[i]) == "(" || Strip(lexemes[i]) == ")")
    ensures ValueOf(lexemes).Err?
  {
    if Strip(lexemes[i]) == ")" {
      ClosingParenthesisRaises(lexemes, i);
    } else if TokensOf(lexemes).Ok? {
      var ss := Lexed(lexemes);
      var j := |Lexed(lexemes[..i])|;
      LexedIndex(lexemes, i);
      var ts := Classified(ss).value;
      ClassifiedAt(ss, j);
      NotNumeric("(", 0);
      assert ts[j] == Sym(LeftParenthesis);
      SwappedKeeps(ts, j);
      ParenthesisedTokensFail(TokensOf(lexemes).value);
    }
  }

  // ---------------------------------------------------------------------------
  // Postfix forms of expression trees, and what `evaluate` computes from them

  /** An expression tree over numerals and members of `Operators`. */
  datatype Expr =
    | Leaf(text: string)
    | Prefix(op: Operator, arg: Expr)
    | Infix(op: Operator, left: Expr, right: Expr)

  /** Each node applies a member to as many operands as `evaluate` pops for it. */
  predicate WellFormed(e: Expr) {
    match e
    case Leaf(_) => true
    case Prefix(op, arg) => Arity(op) == 1 && WellFormed(arg)
    case Infix(op, l, r) => Arity(op) == 2 && WellFormed(l) && WellFormed(r)
  }

  /** The postfix form of a tree: operands first, left before right, then the member. */
  function Emit(e: Expr): seq<Token> {
    match e
    case Leaf(s) => [Num(s)]
    case Prefix(op, arg) => Emit(arg) + [Sym(op)]
    case Infix(op, l, r) => Emit(l) + Emit(r) + [Sym(op)]
  }

  /** The value a member of arity 1 gives an operand: NEGATION negates it and
      PERCENTAGE divides it by 100 as `Decimal`s, FACTORIAL takes the factorial of
      its `float`. */
  function Monadic(op: Operator, v: Entry): Result<real>
    requires Arity(op) == 1
  {
    if op == Factorial then
      match ToFloat(v)
      case Err(x) => Err(x)
      case Ok(f) => FactorialOf(f)
    else
      match ToDecimal(v)
      case Err(x) => Err(x)
      case Ok(d) => Ok(if op == Negation then -d else d / 100.0)
  }

  /** The value a member of arity 2 gives its left and right operands, converted
      to `Decimal` left first. */
  function Dyadic(op: Operator, left: Entry, right: Entry): Result<real>
    requires Arity(op) == 2
  {
    match ToDecimal(left)
    case Err(x) => Err(x)
    case Ok(a) =>
      match ToDecimal(right)
      case Err(x) => Err(x)
      case Ok(b) => Binary(op, a, b)
  }

  /** The value of a tree, computed directly from its structure: a leaf is its
      string, an inner node applies its member to its operands' values. */
  function Eval(e: Expr): Result<Entry>
    requires WellFormed(e)
  {
    match e
    case Leaf(s) => Ok(Text(s))
    case Prefix(op, arg) =>
      (match Eval(arg)
       case Err(x) => Err(x)
       case Ok(v) =>
         match Monadic(op, v)
         case Err(x) => Err(x)
         case Ok(y) => Ok(Dec(y)))
    case Infix(op, l, r) =>
      match Eval(l)
      case Err(x) => Err(x)
      case Ok(a) =>
        match Eval(r)
        case Err(x) => Err(x)
        case Ok(b) =>
          match Dyadic(op, a, b)
          case Err(x) => Err(x)
          case Ok(y) => Ok(Dec(y))
  }

  /** NEGATION, PERCENTAGE and FACTORIAL pop the top value and push their result
      in its place; the entries below are untouched. */
  lemma ApplyUnary(op: Operator, below: seq<Entry>, v: Entry)
    requires Arity(op) == 1
    ensures var y := Monadic(op, v);
      ApplyOperator(op, below + [v]) == if y.Ok? then Ok(below + [Dec(y.value)]) else Err(y.error)
  {
    assert (below + [v])[..|below|] == below;
  }

  /** Every other member pops the right operand first, then the left, and pushes
      its function of (left, right); the entries below are untouched. */
  lemma ApplyBinary(op: Operator, below: seq<Entry>, left: Entry, right: Entry)
    requires Arity(op) == 2
    ensures var y := Dyadic(op, left, right);
      ApplyOperator(op, below + [left, right]) == if y.Ok? then Ok(below + [Dec(y.value)]) else Err(y.error)
  {
    assert (below + [left, right])[..|below|] == below;
  }

  lemma RunPrepend(results: seq<Entry>, t: Token, rest: seq<Token>)
    ensures var next := Reduce(results, t);
      Run(results, [t] + rest) == if next.Ok? then Run(next.value, rest) else Err(next.error)
  {
    assert ([t] + rest)[1..] == rest;
  }

  /** The `results` loop evaluates the postfix form of a tree to the tree's value,
      pushed on top of whatever the stack held: the stack discipline of
      `evaluate` agrees with the tree. */
  lemma {:induction false} RunEmit(results: seq<Entry>, e: Expr, rest: seq<Token>)
    requires WellFormed(e)
    ensures var v := Eval(e);
      Run(results, Emit(e) + rest) == if v.Ok? then Run(results + [v.value], rest) else Err(v.error)
    decreases e
  {
    match e
    case Leaf(s) =>
      RunPrepend(results, Num(s), rest);
    case Prefix(op, arg) =>
      assert Emit(e) + rest == Emit(arg) + ([Sym(op)] + rest);
      RunEmit(results, arg, [Sym(op)] + rest);
      if Eval(arg).Ok? {
        var v := Eval(arg).value;
        RunPrepend(results + [v], Sym(op), rest);
        ApplyUnary(op, results, v);
      }
    case Infix(op, l, r) =>
      assert Emit(e) + rest == Emit(l) + (Emit(r) + ([Sym(op)] + rest));
      RunEmit(results, l, Emit(r) + ([Sym(op)] + rest));
      if Eval(l).Ok? {
        var a := Eval(l).value;
        RunEmit(results + [a], r, [Sym(op)] + rest);
        if Eval(r).Ok? {
          var b := Eval(r).value;
          RunPrepend(results + [a] + [b], Sym(op), rest);
          assert results + [a] + [b] == results + [a, b];
          ApplyBinary(op, results, a, b);
        }
      }
  }

  /** Evaluating the postfix form of a tree from an empty stack gives its value. */
  lemma OutcomeOfEmit(e: Expr)
    requires WellFormed(e)
    ensures Outcome(Emit(e)) == Eval(e)
  {
    RunEmit([], e, []);
    assert Emit(e) + [] == Emit(e);
    if Eval(e).Ok? {
      assert Run([Eval(e).value], []) == Ok([Eval(e).value]);
    }
  }

  // ---------------------------------------------------------------------------
  // Equal-precedence operators are left-associative

  lemma {:induction false} ConvertAppend(c: Conversion, a: seq<Token>, b: seq<Token>)
    ensures Convert(c, a + b) == Convert(Convert(c, a), b)
    decreases |a|
  {
    if a == [] {
      assert a + b == b;
    } else {
      assert (a + b)[1..] == a[1..] + b;
      ConvertAppend(Step(c, a[0]), a[1..], b);
    }
  }

  /** The tokens `first op1 text1 op2 text2 ...`. */
  function Chain(first: string, rest: seq<(Operator, string)>): seq<Token> {
    if rest == [] then [Num(first)]
    else
      var link := rest[|rest| - 1];
      Chain(first, rest[..|rest| - 1]) + [Sym(link.0), Num(link.1)]
  }

  /** The chain grouped to the left: `((first op1 text1) op2 text2) ...`. */
  function LeftTree(first: string, rest: seq<(Operator, string)>): Expr {
    if rest == [] then Leaf(first)
    else
      var link := rest[|rest| - 1];
      Infix(link.0, LeftTree(first, rest[..|rest| - 1]), Leaf(link.1))
  }

  /** A chain of numerals joined by binary members that share one precedence. */
  predicate EvenChain(first: string, rest: seq<(Operator, string)>, p: nat) {
    && 1 <= p
    && IsNumeric(first)
    && forall k :: 0 <= k < |rest| ==> Precedence(rest[k].0) == p && Arity(rest[k].0) == 2 && IsNumeric(rest[k].1)
  }

  /** One link `op text` of a chain: the member stacked below, if any, has the
      same precedence and is popped, `op` is stacked and `text` is emitted. */
  lemma ChainLink(ops: seq<Operator>, postfix: seq<Token>, op: Operator, text: string, p: nat)
    requires |ops| <= 1 && (forall k :: 0 <= k < |ops| ==> Precedence(ops[k]) == p)
    requires 1 <= p && Precedence(op) == p && IsNumeric(text)
    ensures Convert(Conversion(ops, postfix), [Sym(op), Num(text)]) ==
      Conversion([op], postfix + Unstacked(ops) + [Num(text)])
  {
    var c := Conversion(ops, postfix);
    PopsAll(ops, postfix, p);
    SymbolStep(c, op);
    var e := Step(c, Sym(op));
    NumberStep(e, text);
    ConvertTwo(c, Sym(op), Num(text));
  }

  lemma SymbolStep(c: Conversion, op: Operator)
    requires op != LeftParenthesis
    ensures var d := PopAtLeast(c, Precedence(op));
      Step(c, Sym(op)) == Conversion(d.operations + [op], d.postfix)
  {
  }

  lemma NumberStep(c: Conversion, text: string)
    requires IsNumeric(text)
    ensures Step(c, Num(text)) == Conversion(c.operations, c.postfix + [Num(text)])
  {
  }

  lemma ConvertTwo(c: Conversion, t: Token, u: Token)
    ensures Convert(c, [t, u]) == Step(Step(c, t), u)
  {
    assert [t, u][1..] == [u];
    assert Convert(c, [t, u]) == Convert(Step(c, t), [u]);
    assert [u][1..] == [];
    assert Convert(Step(c, t), [u]) == Convert(Step(Step(c, t), u), []);
  }

  lemma PopsAll(ops: seq<Operator>, postfix: seq<Token>, p: nat)
    requires |ops| <= 1 && (forall k :: 0 <= k < |ops| ==> Precedence(ops[k]) == p)
    ensures PopAtLeast(Conversion(ops, postfix), p) == Conversion([], postfix + Unstacked(ops))
  {
    assert PopCount(ops, p) == |ops|;
    assert ops[..0] == [] && ops[0..] == ops;
  }

  /** The state of `to_postfix` after a chain: only the last member is stacked. */
  lemma {:induction false} ChainState(first: string, rest: seq<(Operator, string)>, p: nat)
    requires EvenChain(first, rest, p) && rest != []
    ensures Convert(Conversion([], []), Chain(first, rest)) ==
      Conversion([rest[|rest| - 1].0], Emit(LeftTree(first, rest[..|rest| - 1])) + [Num(rest[|rest| - 1].1)])
    decreases |rest|
  {
    var init := rest[..|rest| - 1];
    assert EvenChain(first, init, p);
    if init == [] {
      assert Convert(Conversion([], []), [Num(first)]) == Conversion([], [Num(first)]);
      ChainGrow(first, rest, p, []);
    } else {
      ChainState(first, init, p);
      ChainGrow(first, rest, p, [init[|init| - 1].0]);
    }
  }

  /** The inductive step of `ChainState`: one more link on a chain whose last
      member (if any) is the only one stacked. */
  lemma ChainGrow(first: string, rest: seq<(Operator, string)>, p: nat, ops: seq<Operator>)
    requires EvenChain(first, rest, p) && rest != []
    requires var init := rest[..|rest| - 1];
      && ops == (if init == [] then [] else [init[|init| - 1].0])
      && Convert(Conversion([], []), Chain(first, init)) ==
         Conversion(ops, if init == [] then [Num(first)] else Emit(LeftTree(first, init[..|init| - 1])) + [Num(init[|init| - 1].1)])
    ensures Convert(Conversion([], []), Chain(first, rest)) ==
      Conversion([rest[|rest| - 1].0], Emit(LeftTree(first, rest[..|rest| - 1])) + [Num(rest[|rest| - 1].1)])
  {
    var n := |rest|;
    var op, text := rest[n - 1].0, rest[n - 1].1;
    var init := rest[..n - 1];
    var c := Convert(Conversion([], []), Chain(first, init));
    assert Chain(first, rest) == Chain(first, init) + [Sym(op), Num(text)];
    ConvertAppend(Conversion([], []), Chain(first, init), [Sym(op), Num(text)]);
    ChainLink(c.operations, c.postfix, op, text, p);
    ChainFlushed(first, init, c.operations, c.postfix);
  }

  /** Flushing the stacked member of a chain's state completes the left-grouped
      postfix form of the chain. */
  lemma ChainFlushed(first: string, init: seq<(Operator, string)>, ops: seq<Operator>, postfix: seq<Token>)
    requires ops == (if init == [] then [] else [init[|init| - 1].0])
    requires postfix == if init == [] then [Num(first)] else Emit(LeftTree(first, init[..|init| - 1])) + [Num(init[|init| - 1].1)]
    ensures postfix + Unstacked(ops) == Emit(LeftTree(first, init))
  {
    if init != [] {
      var last := init[|init| - 1];
      assert LeftTree(first, init) == Infix(last.0, LeftTree(first, init[..|init| - 1]), Leaf(last.1));
      assert Unstacked([last.0]) == [Sym(last.0)];
    }
  }

  /** `to_postfix` groups a chain of equal-precedence members to the left. */
  lemma ChainGroupsLeft(first: string, rest: seq<(Operator, string)>, p: nat)
    requires EvenChain(first, rest, p)
    ensures Shunt(Chain(first, rest)) == Emit(LeftTree(first, rest))
  {
    if rest != [] {
      var (op, text) := rest[|rest| - 1];
      ChainState(first, rest, p);
      assert Unstacked([op]) == [Sym(op)];
      assert LeftTree(first, rest) == Infix(op, LeftTree(first, rest[..|rest| - 1]), Leaf(text));
    } else {
      assert Convert(Conversion([], []), [Num(first)]) == Conversion([], [Num(first)]);
    }
  }

  /** So `evaluate` computes such a chain from left to right. */
  lemma ChainEvaluatesLeft(first: string, rest: seq<(Operator, string)>, p: nat)
    requires EvenChain(first, rest, p)
    ensures WellFormed(LeftTree(first, rest))
    ensures Outcome(Shunt(Chain(first, rest))) == Eval(LeftTree(first, rest))
  {
    ChainGroupsLeft(first, rest, p);
    LeftTreeWellFormed(first, rest, p);
    OutcomeOfEmit(LeftTree(first, rest));
  }

  lemma {:induction false} LeftTreeWellFormed(first: string, rest: seq<(Operator, string)>, p: nat)
    requires EvenChain(first, rest, p)
    ensures WellFormed(LeftTree(first, rest))
    decreases |rest|
  {
    if rest != [] {
      assert EvenChain(first, rest[..|rest| - 1], p);
      LeftTreeWellFormed(first, rest[..|rest| - 1], p);
    }
  }

  /** The tokens `a - b - c` as a chain. */
  lemma MinusChainTokens(a: string, b: string, c: string)
    ensures Chain(a, [(Subtraction, b), (Subtraction, c)]) == [Num(a), Sym(Subtraction), Num(b), Sym(Subtraction), Num(c)]
    ensures LeftTree(a, [(Subtraction, b), (Subtraction, c)]) == Infix(Subtraction, Infix(Subtraction, Leaf(a), Leaf(b)), Leaf(c))
    ensures Emit(LeftTree(a, [(Subtraction, b), (Subtraction, c)])) == [Num(a), Num(b), Sym(Subtraction), Num(c), Sym(Subtraction)]
  {
    var rest := [(Subtraction, b), (Subtraction, c)];
    assert rest[..1] == [(Subtraction, b)] && rest[..1][..0] == [];
    assert Chain(a, rest[..1]) == [Num(a), Sym(Subtraction), Num(b)];
    assert LeftTree(a, rest[..1]) == Infix(Subtraction, Leaf(a), Leaf(b));
    assert Emit(Infix(Subtraction, Leaf(a), Leaf(b))) == [Num(a), Num(b), Sym(Subtraction)];
  }

  /** `a - b - c` becomes `a b - c -`. */
  lemma MinusChainPostfix(a: string, b: string, c: string)
    requires IsNumeric(a) && IsNumeric(b) && IsNumeric(c)
    ensures Shunt([Num(a), Sym(Subtraction), Num(b), Sym(Subtraction), Num(c)]) ==
      [Num(a), Num(b), Sym(Subtraction), Num(c), Sym(Subtraction)]
  {
    var rest := [(Subtraction, b), (Subtraction, c)];
    assert EvenChain(a, rest, 1);
    MinusChainTokens(a, b, c);
    ChainGroupsLeft(a, rest, 1);
  }

  /** The tree `(a - b) - c` is worth `(a - b) - c`. */
  lemma MinusTreeValue(a: string, b: string, c: string)
    requires IsNumeric(a) && IsNumeric(b) && IsNumeric(c)
    ensures WellFormed(Infix(Subtraction, Infix(Subtraction, Leaf(a), Leaf(b)), Leaf(c)))
    ensures Eval(Infix(Subtraction, Infix(Subtraction, Leaf(a), Leaf(b)), Leaf(c))) ==
      Ok(Dec(ParseNumber(a).value - ParseNumber(b).value - ParseNumber(c).value))
  {
    var va, vb, vc := ParseNumber(a).value, ParseNumber(b).value, ParseNumber(c).value;
    var inner := Infix(Subtraction, Leaf(a), Leaf(b));
    assert ToDecimal(Text(a)) == Ok(va) && ToDecimal(Text(b)) == Ok(vb) && ToDecimal(Text(c)) == Ok(vc);
    Difference(Text(a), Text(b));
    Difference(Dec(va - vb), Text(c));
    EvalInfix(Subtraction, Leaf(a), Leaf(b), Text(a), Text(b), va - vb);
    EvalInfix(Subtraction, inner, Leaf(c), Dec(va - vb), Text(c), va - vb - vc);
  }

  lemma Difference(x: Entry, y: Entry)
    requires ToDecimal(x).Ok? && ToDecimal(y).Ok?
    ensures Dyadic(Subtraction, x, y) == Ok(ToDecimal(x).value - ToDecimal(y).value)
  {
  }

  /** A binary node whose operands evaluate and convert. */
  lemma EvalInfix(op: Operator, l: Expr, r: Expr, x: Entry, y: Entry, z: real)
    requires Arity(op) == 2 && WellFormed(l) && WellFormed(r)
    requires Eval(l) == Ok(x) && Eval(r) == Ok(y) && Dyadic(op, x, y) == Ok(z)
    ensures WellFormed(Infix(op, l, r)) && Eval(Infix(op, l, r)) == Ok(Dec(z))
  {
  }

  /** `a - b - c` evaluates to `(a - b) - c`. */
  lemma MinusChainValue(a: string, b: string, c: string)
    requires IsNumeric(a) && IsNumeric(b) && IsNumeric(c)
    ensures Outcome(Shunt([Num(a), Sym(Subtraction), Num(b), Sym(Subtraction), Num(c)])) ==
      Ok(Dec(ParseNumber(a).value - ParseNumber(b).value - ParseNumber(c).value))
  {
    var rest := [(Subtraction, b), (Subtraction, c)];
    assert EvenChain(a, rest, 1);
    MinusChainTokens(a, b, c);
    ChainEvaluatesLeft(a, rest, 1);
    MinusTreeValue(a, b, c);
  }

  /** `8 - 3 - 2` evaluates to 3. */
  lemma EightMinusThreeMinusTwo()
    ensures Outcome(Shunt([Num("8"), Sym(Subtraction), Num("3"), Sym(Subtraction), Num("2")])) == Ok(Dec(3.0))
  {
    DigitNumeral('8');
    DigitNumeral('3');
    DigitNumeral('2');
    MinusChainValue("8", "3", "2");
  }

  // ---------------------------------------------------------------------------
  // get_tokens

  /** The rewrite raises IndexError exactly when the last token is a unary minus;
      otherwise it keeps the length and the numbers in order. */
  lemma TokensOfShape(lexemes: seq<string>)
    requires Classified(Lexed(lexemes)).Ok?
    ensures var ts := Classified(Lexed(lexemes)).value;
      TokensOf(lexemes).Err? <==> ts != [] && UnaryMinusAt(ts, |ts| - 1)
    ensures var ts := Classified(Lexed(lexemes)).value;
      TokensOf(lexemes).Err? ==> TokensOf(lexemes).error == IndexError
    ensures var ts := Classified(Lexed(lexemes)).value;
      TokensOf(lexemes).Ok? ==>
        && |TokensOf(lexemes).value| == |ts|
        && Filter(TokensOf(lexemes).value, IsNumber) == Filter(ts, IsNumber)
  {
    var ts := Classified(Lexed(lexemes)).value;
    var swaps := UnaryMinusPositions(ts);
    if ts != [] && UnaryMinusAt(ts, |ts| - 1) {
      assert |ts| - 1 in swaps;
    }
    if Swapped(ts, swaps, Sym(Negation)).Ok? {
      SwappedKeepsOrder(ts, swaps, Sym(Negation), IsNumber);
    }
  }

  /** Every number `get_tokens` returns is a numeral: a number token is only made
      from a lexeme that `float` accepts, and the rewrite only moves tokens. */
  lemma TokensAreNumerals(lexemes: seq<string>)
    requires TokensOf(lexemes).Ok?
    ensures forall t :: t in TokensOf(lexemes).value && t.Num? ==> IsNumeric(t.text)
  {
    var ss := Lexed(lexemes);
    var ts := Classified(ss).value;
    assert TokensOf(lexemes) == Swapped(ts, UnaryMinusPositions(ts), Sym(Negation));
    SwappedElements(ts, UnaryMinusPositions(ts), Sym(Negation));
    ClassifiedNumerals(ss);
  }

  lemma ClassifiedNumerals(ss: seq<string>)
    requires Classified(ss).Ok?
    ensures forall t :: t in Classified(ss).value && t.Num? ==> IsNumeric(t.text)
  {
    var ts := Classified(ss).value;
    forall t | t in ts && t.Num? ensures IsNumeric(t.text) {
      var j :| 0 <= j < |ts| && ts[j] == t;
      ClassifiedAt(ss, j);
    }
  }

  lemma {:induction false} NumbersAreNumerals(ts: seq<Token>)
    requires forall t :: t in ts && t.Num? ==> IsNumeric(t.text)
    ensures Filter(ts, IsNumeral) == Filter(ts, IsNumber)
    ensures Filter(ts, Emitted) == ts
    decreases |ts|
  {
    if ts != [] {
      NumbersAreNumerals(ts[..|ts| - 1]);
    }
  }

  /** `to_postfix` outputs a permutation of what `get_tokens` returns. */
  lemma PostfixPermutation(lexemes: seq<string>)
    requires TokensOf(lexemes).Ok?
    ensures PostfixOf(lexemes).Ok?
    ensures multiset(PostfixOf(lexemes).value) == multiset(TokensOf(lexemes).value)
  {
    var ts := TokensOf(lexemes).value;
    TokensAreNumerals(lexemes);
    NumbersAreNumerals(ts);
    ShuntPermutation(ts);
  }

  /** The numbers of the postfix form are the numerals of the expression, in
      their order: neither the rewrite nor the conversion reorders them. */
  lemma PostfixKeepsNumbers(lexemes: seq<string>)
    requires PostfixOf(lexemes).Ok?
    ensures Classified(Lexed(lexemes)).Ok?
    ensures Filter(PostfixOf(lexemes).value, IsNumber) == Filter(Classified(Lexed(lexemes)).value, IsNumber)
  {
    var ts := TokensOf(lexemes).value;
    TokensOfShape(lexemes);
    TokensAreNumerals(lexemes);
    NumbersAreNumerals(ts);
    ShuntKeepsNumberOrder(ts);
  }

  // ---------------------------------------------------------------------------
  // evaluate: the height of the `results` stack

  /** How much the `results` loop grows the stack over `ts`: a number pushes one
      entry, a member pops its arity and pushes one. */
  function Effect(ts: seq<Token>): int
    decreases |ts|
  {
    if ts == [] then 0
    else (if ts[0].Num? then 1 else 1 - Arity(ts[0].op)) + Effect(ts[1..])
  }

  lemma {:induction false} RunHeight(results: seq<Entry>, ts: seq<Token>)
    requires Run(results, ts).Ok?
    ensures |Run(results, ts).value| == |results| + Effect(ts)
    decreases |ts|
  {
    if ts != [] {
      RunHeight(Reduce(results, ts[0]).value, ts[1..]);
    }
  }

  lemma {:induction false} RunAppend(results: seq<Entry>, a: seq<Token>, b: seq<Token>)
    ensures Run(results, a + b) == if Run(results, a).Ok? then Run(Run(results, a).value, b) else Err(Run(results, a).error)
    decreases |a|
  {
    if a == [] {
      assert a + b == b;
    } else {
      assert (a + b)[1..] == a[1..] + b;
      if Reduce(results, a[0]).Ok? {
        RunAppend(Reduce(results, a[0]).value, a[1..], b);
      }
    }
  }

  lemma {:induction false} EffectAppend(a: seq<Token>, b: seq<Token>)
    ensures Effect(a + b) == Effect(a) + Effect(b)
    decreases |a|
  {
    if a == [] {
      assert a + b == b;
    } else {
      assert (a + b)[1..] == a[1..] + b;
      EffectAppend(a[1..], b);
    }
  }

  /** Popping an empty stack raises IndexError: a member that arrives when the
      tokens before it have left fewer entries than it pops stops the loop. */
  lemma Underflow(results: seq<Entry>, ts: seq<Token>, j: nat)
    requires j < |ts| && ts[j].Sym? && Run(results, ts[..j]).Ok?
    requires |results| + Effect(ts[..j]) < Arity(ts[j].op)
    ensures Run(results, ts) == Err(IndexError)
  {
    var stack := Run(results, ts[..j]).value;
    RunHeight(results, ts[..j]);
    SplitAt(ts, j);
    RunAppend(results, ts[..j], [ts[j]] + ts[j + 1..]);
    RunPrepend(stack, ts[j], ts[j + 1..]);
  }

  /** Conversely, when the loop runs through, every member found its operands,
      and the stack ends `Effect(ts)` entries higher. */
  lemma NoUnderflow(results: seq<Entry>, ts: seq<Token>, j: nat)
    requires j < |ts| && ts[j].Sym? && Run(results, ts).Ok?
    ensures Run(results, ts[..j]).Ok?
    ensures Arity(ts[j].op) <= |results| + Effect(ts[..j])
  {
    SplitAt(ts, j);
    RunAppend(results, ts[..j], [ts[j]] + ts[j + 1..]);
    var stack := Run(results, ts[..j]).value;
    RunHeight(results, ts[..j]);
    RunPrepend(stack, ts[j], ts[j + 1..]);
  }

  /** An expression with nothing but blanks has no tokens, and `results[-1]`
      of the empty stack raises IndexError. */
  lemma BlankExpression(lexemes: seq<string>)
    requires forall i :: 0 <= i < |lexemes| ==> Strip(lexemes[i]) == []
    ensures ValueOf(lexemes) == Err(IndexError)
  {
    BlankLexed(lexemes);
    assert UnaryMinusPositions([]) == [];
    var none: seq<Token> := [];
    assert Swapped(none, [], Sym(Negation)).Ok?;
    assert |Swapped(none, [], Sym(Negation)).value| == 0;
    assert Shunt([]) == [];
  }

  lemma {:induction false} BlankLexed(lexemes: seq<string>)
    requires forall i :: 0 <= i < |lexemes| ==> Strip(lexemes[i]) == []
    ensures Lexed(lexemes) == []
    decreases |lexemes|
  {
    if lexemes != [] {
      BlankLexed(lexemes[..|lexemes| - 1]);
    }
  }

  // ---------------------------------------------------------------------------
  // NEGATION binds tighter than every other member

  /** A NEGATION on top of the stack is popped by every incoming member but `(`,
      before anything else is: it applies to the operand just before it. */
  lemma NegationPoppedFirst(c: Conversion, op: Operator)
    requires c.operations != [] && c.operations[|c.operations| - 1] == Negation
    requires op != LeftParenthesis
    ensures |Step(c, Sym(op)).postfix| > |c.postfix|
    ensures Step(c, Sym(op)).postfix[..|c.postfix| + 1] == c.postfix + [Sym(Negation)]
  {
    var ops := c.operations;
    var n := |ops|;
    var k := PopCount(ops, Precedence(op));
    assert 0 < k;
    assert Unstacked(ops[n - k..])[0] == Sym(Negation);
  }

  // ---------------------------------------------------------------------------
  // Members of different precedence

  /** A member arriving on a stack whose top binds looser is stacked on it. */
  lemma StackedOver(c: Conversion, op: Operator)
    requires op != LeftParenthesis
    requires c.operations == [] || Precedence(c.operations[|c.operations| - 1]) < Precedence(op)
    ensures Step(c, Sym(op)) == Conversion(c.operations + [op], c.postfix)
  {
    var ops := c.operations;
    assert PopCount(ops, Precedence(op)) == 0;
    assert ops[..|ops|] == ops && ops[|ops|..] == [];
  }

  /** A member arriving on a lone member that binds at least as tightly pops it. */
  lemma PopsLone(c: Conversion, top: Operator, op: Operator, d: Conversion)
    requires c.operations == [top] && op != LeftParenthesis && Precedence(op) <= Precedence(top)
    requires d == Conversion([op], c.postfix + [Sym(top)])
    ensures Step(c, Sym(op)) == d
  {
    var p := Precedence(op);
    assert [top][..0] == [];
    assert PopCount([top], p) == 1;
    assert [top][..1 - 1] == [] && [top][1 - 1..] == [top];
    assert Unstacked([top]) == [Sym(top)];
    assert PopAtLeast(c, p) == Conversion([], c.postfix + [Sym(top)]);
    SymbolStep(c, op);
  }

  /** The loop of `to_postfix` over five tokens is five steps. */
  lemma ConvertFive(c: Conversion, t1: Token, t2: Token, t3: Token, t4: Token, t5: Token)
    ensures Convert(c, [t1, t2, t3, t4, t5]) == Step(Step(Step(Step(Step(c, t1), t2), t3), t4), t5)
  {
    var d := Step(Step(c, t1), t2);
    var e := Step(Step(d, t3), t4);
    assert [t1, t2, t3, t4, t5] == [t1, t2] + [t3, t4, t5];
    ConvertAppend(c, [t1, t2], [t3, t4, t5]);
    ConvertTwo(c, t1, t2);
    assert [t3, t4, t5] == [t3, t4] + [t5];
    ConvertAppend(d, [t3, t4], [t5]);
    ConvertTwo(d, t3, t4);
    assert [t5][1..] == [];
    assert Convert(e, [t5]) == Convert(Step(e, t5), []);
  }

  /** `a lo b hi c` with `hi` binding tighter than `lo`: `hi` is stacked on `lo`
      rather than popping it, so `hi` is emitted first and takes `b` and `c`. */
  lemma TighterLast(a: string, b: string, c: string, lo: Operator, hi: Operator)
    requires IsNumeric(a) && IsNumeric(b) && IsNumeric(c)
    requires Arity(lo) == 2 && Arity(hi) == 2 && 1 <= Precedence(lo) < Precedence(hi)
    ensures Shunt([Num(a), Sym(lo), Num(b), Sym(hi), Num(c)]) == [Num(a), Num(b), Num(c), Sym(hi), Sym(lo)]
    ensures Shunt([Num(a), Sym(lo), Num(b), Sym(hi), Num(c)]) == Emit(Infix(lo, Leaf(a), Infix(hi, Leaf(b), Leaf(c))))
  {
    TighterLastConvert(a, b, c, lo, hi);
    DrainPair([Num(a), Num(b), Num(c)], lo, hi);
    assert [Num(a), Num(b), Num(c)] + [Sym(hi), Sym(lo)] == [Num(a), Num(b), Num(c), Sym(hi), Sym(lo)];
    EmitRightNested(a, b, c, lo, hi);
  }

  lemma DrainPair(postfix: seq<Token>, lo: Operator, hi: Operator)
    ensures Drain(Conversion([lo, hi], postfix)) == postfix + [Sym(hi), Sym(lo)]
  {
    assert [lo, hi][..1] == [lo] && [lo][..0] == [];
    assert Unstacked([lo]) == [Sym(lo)];
    assert Unstacked([lo, hi]) == [Sym(hi)] + Unstacked([lo]);
  }

  lemma EmitRightNested(a: string, b: string, c: string, lo: Operator, hi: Operator)
    ensures Emit(Infix(lo, Leaf(a), Infix(hi, Leaf(b), Leaf(c)))) == [Num(a), Num(b), Num(c), Sym(hi), Sym(lo)]
  {
    assert Emit(Infix(hi, Leaf(b), Leaf(c))) == [Num(b), Num(c), Sym(hi)];
    assert Emit(Infix(lo, Leaf(a), Infix(hi, Leaf(b), Leaf(c)))) == [Num(a)] + [Num(b), Num(c), Sym(hi)] + [Sym(lo)];
  }

  lemma TighterLastConvert(a: string, b: string, c: string, lo: Operator, hi: Operator)
    requires IsNumeric(a) && IsNumeric(b) && IsNumeric(c)
    requires Arity(lo) == 2 && Arity(hi) == 2 && 1 <= Precedence(lo) < Precedence(hi)
    ensures Convert(Conversion([], []), [Num(a), Sym(lo), Num(b), Sym(hi), Num(c)]) ==
      Conversion([lo, hi], [Num(a), Num(b), Num(c)])
  {
    var c2 := Conversion([lo], [Num(a)]);
    var c3 := Conversion([lo], [Num(a), Num(b)]);
    var c4 := Conversion([lo, hi], [Num(a), Num(b)]);
    var c5 := Conversion([lo, hi], [Num(a), Num(b), Num(c)]);
    FirstLink(a, lo);
    AppendNumber(c2, b, c3);
    StackedOver(c3, hi);
    AppendNumber(c4, c, c5);
    ConvertFiveSteps(Conversion([], []), Conversion([], [Num(a)]), c2, c3, c4, c5, Num(a), Sym(lo), Num(b), Sym(hi), Num(c));
  }

  /** `a hi b lo c` with `hi` binding tighter than `lo`: `lo` pops `hi`, so
      `hi` is emitted first and takes `a` and `b`. */
  lemma TighterFirst(a: string, b: string, c: string, lo: Operator, hi: Operator)
    requires IsNumeric(a) && IsNumeric(b) && IsNumeric(c)
    requires Arity(lo) == 2 && Arity(hi) == 2 && 1 <= Precedence(lo) < Precedence(hi)
    ensures Shunt([Num(a), Sym(hi), Num(b), Sym(lo), Num(c)]) == [Num(a), Num(b), Sym(hi), Num(c), Sym(lo)]
    ensures Shunt([Num(a), Sym(hi), Num(b), Sym(lo), Num(c)]) == Emit(Infix(lo, Infix(hi, Leaf(a), Leaf(b)), Leaf(c)))
  {
    TighterFirstConvert(a, b, c, lo, hi);
    DrainLone([Num(a), Num(b), Sym(hi), Num(c)], lo);
    assert [Num(a), Num(b), Sym(hi), Num(c)] + [Sym(lo)] == [Num(a), Num(b), Sym(hi), Num(c), Sym(lo)];
    EmitLeftNested(a, b, c, lo, hi);
  }

  lemma DrainLone(postfix: seq<Token>, op: Operator)
    ensures Drain(Conversion([op], postfix)) == postfix + [Sym(op)]
  {
    assert [op][..0] == [];
    assert Unstacked([op]) == [Sym(op)];
  }

  lemma EmitLeftNested(a: string, b: string, c: string, lo: Operator, hi: Operator)
    ensures Emit(Infix(lo, Infix(hi, Leaf(a), Leaf(b)), Leaf(c))) == [Num(a), Num(b), Sym(hi), Num(c), Sym(lo)]
  {
    assert Emit(Infix(hi, Leaf(a), Leaf(b))) == [Num(a), Num(b), Sym(hi)];
    assert Emit(Infix(lo, Infix(hi, Leaf(a), Leaf(b)), Leaf(c))) == [Num(a), Num(b), Sym(hi)] + [Num(c)] + [Sym(lo)];
  }

  lemma TighterFirstConvert(a: string, b: string, c: string, lo: Operator, hi: Operator)
    requires IsNumeric(a) && IsNumeric(b) && IsNumeric(c)
    requires Arity(lo) == 2 && Arity(hi) == 2 && 1 <= Precedence(lo) < Precedence(hi)
    ensures Convert(Conversion([], []), [Num(a), Sym(hi), Num(b), Sym(lo), Num(c)]) ==
      Conversion([lo], [Num(a), Num(b), Sym(hi), Num(c)])
  {
    var c2 := Conversion([hi], [Num(a)]);
    var c3 := Conversion([hi], [Num(a), Num(b)]);
    var c4 := Conversion([lo], [Num(a), Num(b), Sym(hi)]);
    var c5 := Conversion([lo], [Num(a), Num(b), Sym(hi), Num(c)]);
    FirstLink(a, hi);
    AppendNumber(c2, b, c3);
    PopsLone(c3, hi, lo, c4);
    AppendNumber(c4, c, c5);
    ConvertFiveSteps(Conversion([], []), Conversion([], [Num(a)]), c2, c3, c4, c5, Num(a), Sym(hi), Num(b), Sym(lo), Num(c));
  }

  /** The numeral `a` and then a member `op` on an empty stack. */
  lemma FirstLink(a: string, op: Operator)
    requires IsNumeric(a) && op != LeftParenthesis
    ensures Step(Conversion([], []), Num(a)) == Conversion([], [Num(a)])
    ensures Step(Conversion([], [Num(a)]), Sym(op)) == Conversion([op], [Num(a)])
  {
    NumberStep(Conversion([], []), a);
    assert [] + [Num(a)] == [Num(a)];
    StackedOver(Conversion([], [Num(a)]), op);
    assert [] + [op] == [op];
  }

  lemma AppendNumber(c: Conversion, text: string, d: Conversion)
    requires IsNumeric(text) && d == Conversion(c.operations, c.postfix + [Num(text)])
    ensures Step(c, Num(text)) == d
  {
    NumberStep(c, text);
  }

  /** Five tokens that step from `c0` through `c1` ... to `c5`. */
  lemma ConvertFiveSteps(c0: Conversion, c1: Conversion, c2: Conversion, c3: Conversion, c4: Conversion, c5: Conversion,
                         t1: Token, t2: Token, t3: Token, t4: Token, t5: Token)
    requires Step(c0, t1) == c1 && Step(c1, t2) == c2 && Step(c2, t3) == c3
    requires Step(c3, t4) == c4 && Step(c4, t5) == c5
    ensures Convert(c0, [t1, t2, t3, t4, t5]) == c5
  {
    ConvertFive(c0, t1, t2, t3, t4, t5);
  }

  /** So `evaluate` applies the tighter member first, whichever side it is on. */
  lemma TighterEvaluatesFirst(a: string, b: string, c: string, lo: Operator, hi: Operator)
    requires IsNumeric(a) && IsNumeric(b) && IsNumeric(c)
    requires Arity(lo) == 2 && Arity(hi) == 2 && 1 <= Precedence(lo) < Precedence(hi)
    ensures WellFormed(Infix(lo, Leaf(a), Infix(hi, Leaf(b), Leaf(c))))
    ensures WellFormed(Infix(lo, Infix(hi, Leaf(a), Leaf(b)), Leaf(c)))
    ensures Outcome(Shunt([Num(a), Sym(lo), Num(b), Sym(hi), Num(c)])) == Eval(Infix(lo, Leaf(a), Infix(hi, Leaf(b), Leaf(c))))
    ensures Outcome(Shunt([Num(a), Sym(hi), Num(b), Sym(lo), Num(c)])) == Eval(Infix(lo, Infix(hi, Leaf(a), Leaf(b)), Leaf(c)))
  {
    TighterLast(a, b, c, lo, hi);
    TighterFirst(a, b, c, lo, hi);
    OutcomeOfEmit(Infix(lo, Leaf(a), Infix(hi, Leaf(b), Leaf(c))));
    OutcomeOfEmit(Infix(lo, Infix(hi, Leaf(a), Leaf(b)), Leaf(c)));
  }

  /** `a + b * c` evaluates to `a + (b * c)`, and `a * b + c` to `(a * b) + c`. */
  lemma ProductBeforeSum(a: string, b: string, c: string)
    requires IsNumeric(a) && IsNumeric(b) && IsNumeric(c)
    ensures Outcome(Shunt([Num(a), Sym(Addition), Num(b), Sym(Multiplication), Num(c)])) ==
      Ok(Dec(ParseNumber(a).value + ParseNumber(b).value * ParseNumber(c).value))
    ensures Outcome(Shunt([Num(a), Sym(Multiplication), Num(b), Sym(Addition), Num(c)])) ==
      Ok(Dec(ParseNumber(a).value * ParseNumber(b).value + ParseNumber(c).value))
  {
    TighterEvaluatesFirst(a, b, c, Addition, Multiplication);
    SumOfProductTree(a, b, c);
    ProductPlusTree(a, b, c);
  }

  /** The tree `a + (b * c)` is worth `a + b * c`. */
  lemma SumOfProductTree(a: string, b: string, c: string)
    requires IsNumeric(a) && IsNumeric(b) && IsNumeric(c)
    ensures WellFormed(Infix(Addition, Leaf(a), Infix(Multiplication, Leaf(b), Leaf(c))))
    ensures Eval(Infix(Addition, Leaf(a), Infix(Multiplication, Leaf(b), Leaf(c)))) ==
      Ok(Dec(ParseNumber(a).value + ParseNumber(b).value * ParseNumber(c).value))
  {
    var va, vb, vc := ParseNumber(a).value, ParseNumber(b).value, ParseNumber(c).value;
    assert ToDecimal(Text(a)) == Ok(va) && ToDecimal(Text(b)) == Ok(vb) && ToDecimal(Text(c)) == Ok(vc);
    var p := vb * vc;
    Dyadically(Multiplication, Text(b), Text(c), vb, vc, p);
    Dyadically(Addition, Text(a), Dec(p), va, p, va + p);
    EvalInfix(Multiplication, Leaf(b), Leaf(c), Text(b), Text(c), p);
    EvalInfix(Addition, Leaf(a), Infix(Multiplication, Leaf(b), Leaf(c)), Text(a), Dec(p), va + p);
  }

  /** The tree `(a * b) + c` is worth `a * b + c`. */
  lemma ProductPlusTree(a: string, b: string, c: string)
    requires IsNumeric(a) && IsNumeric(b) && IsNumeric(c)
    ensures WellFormed(Infix(Addition, Infix(Multiplication, Leaf(a), Leaf(b)), Leaf(c)))
    ensures Eval(Infix(Addition, Infix(Multiplication, Leaf(a), Leaf(b)), Leaf(c))) ==
      Ok(Dec(ParseNumber(a).value * ParseNumber(b).value + ParseNumber(c).value))
  {
    var va, vb, vc := ParseNumber(a).value, ParseNumber(b).value, ParseNumber(c).value;
    assert ToDecimal(Text(a)) == Ok(va) && ToDecimal(Text(b)) == Ok(vb) && ToDecimal(Text(c)) == Ok(vc);
    var q := va * vb;
    Dyadically(Multiplication, Text(a), Text(b), va, vb, q);
    Dyadically(Addition, Dec(q), Text(c), q, vc, q + vc);
    EvalInfix(Multiplication, Leaf(a), Leaf(b), Text(a), Text(b), q);
    EvalInfix(Addition, Infix(Multiplication, Leaf(a), Leaf(b)), Leaf(c), Dec(q), Text(c), q + vc);
  }

  /** `+` and `*` on two operands that convert to `x` and `y`. */
  lemma Dyadically(op: Operator, l: Entry, r: Entry, x: real, y: real, z: real)
    requires op == Addition || op == Multiplication
    requires ToDecimal(l) == Ok(x) && ToDecimal(r) == Ok(y)
    requires z == if op == Addition then x + y else x * y
    ensures Arity(op) == 2 && Dyadic(op, l, r) == Ok(z)
  {
  }

  /** `2 + 3 * 4` evaluates to 14. */
  lemma TwoPlusThreeTimesFour()
    ensures Shunt([Num("2"), Sym(Addition), Num("3"), Sym(Multiplication), Num("4")]) ==
      [Num("2"), Num("3"), Num("4"), Sym(Multiplication), Sym(Addition)]
    ensures Outcome(Shunt([Num("2"), Sym(Addition), Num("3"), Sym(Multiplication), Num("4")])) == Ok(Dec(14.0))
  {
    DigitNumeral('2');
    DigitNumeral('3');
    DigitNumeral('4');
    TighterLast("2", "3", "4", Addition, Multiplication);
    ProductBeforeSum("2", "3", "4");
  }
}
