/** pyCalc/gui.py, lines 17-121: the older evaluator that the calculator's `=`
    button calls. Tokens stay strings; the tables are the `PRECEDENCE` and
    `OPERATORS` dictionaries. */
module Gui {
  import opened Outcomes
  import opened Numerals
  import opened Values
  import opened Sequences

  /** `PRECEDENCE`: `neg` ranks with `+` and `-`. */
  const Precedence: map<string, nat> := map["(" := 0, "+" := 1, "-" := 1, "neg" := 1, "*" := 3, "/" := 4]

  /** The keys of `OPERATORS`. */
  const Operators: set<string> := {"+", "-", "*", "/", "neg"}

  // ---------------------------------------------------------------------------
  // get_tokens

  predicate NonEmpty(s: string) { s != [] }

  /** The unary test of `get_tokens`: a `-` that comes first, or right after a key
      of `PRECEDENCE` (`(` included). */
  predicate UnaryMinusAt(ts: seq<string>, k: nat) {
    k < |ts| && ts[k] == "-" && (k == 0 || ts[k - 1] in Precedence)
  }

  /** `swap_indexes`: the slots of the unary minus signs, in increasing order. */
  function UnaryMinusPositions(ts: seq<string>): (r: seq<nat>)
    ensures Increasing(r)
    ensures forall a :: 0 <= a < |r| ==> r[a] < |ts|
    ensures forall x :: x in r <==> UnaryMinusAt(ts, x)
  {
    if ts == [] then []
    else
      var init := ts[..|ts| - 1];
      var r := UnaryMinusPositions(init);
      UnaryMinusInit(ts);
      r + (if UnaryMinusAt(ts, |ts| - 1) then [|ts| - 1] else [])
  }

  lemma UnaryMinusInit(ts: seq<string>)
    requires ts != []
    ensures forall x: nat :: UnaryMinusAt(ts[..|ts| - 1], x) <==> x < |ts| - 1 && UnaryMinusAt(ts, x)
  {
    var init := ts[..|ts| - 1];
    forall x: nat
      ensures UnaryMinusAt(init, x) <==> x < |init| && UnaryMinusAt(ts, x)
    {
      if x < |init| {
        assert init[x] == ts[x];
        if 0 < x {
          assert init[x - 1] == ts[x - 1];
        }
      }
    }
  }

  lemma UnaryMinusPositionsAppend(ts: seq<string>, t: string)
    ensures UnaryMinusPositions(ts + [t]) ==
      UnaryMinusPositions(ts) + (if t == "-" && (ts == [] || ts[|ts| - 1] in Precedence) then [|ts|] else [])
  {
    var ts' := ts + [t];
    assert ts'[..|ts|] == ts;
    assert ts'[|ts|] == t;
    if ts != [] {
      assert ts'[|ts| - 1] == ts[|ts| - 1];
    }
  }

  /** The result of `get_tokens(expression)` for the lexemes `tokenize` yields:
      the non-empty lexemes, unstripped, with each unary minus moved after its operand. */
  function TokensOf(lexemes: seq<string>): Result<seq<string>> {
    var ts := Filter(lexemes, NonEmpty);
    Swapped(ts, UnaryMinusPositions(ts), "neg")
  }

  lemma KeptAppend(lexemes: seq<string>, i: nat)
    requires i < |lexemes|
    ensures Filter(lexemes[..i + 1], NonEmpty) ==
      Filter(lexemes[..i], NonEmpty) + (if lexemes[i] != [] then [lexemes[i]] else [])
  {
    assert lexemes[..i + 1] == lexemes[..i] + [lexemes[i]];
    FilterAppend(lexemes[..i], [lexemes[i]], NonEmpty);
    assert [lexemes[i]][..0] == [];
  }

  method GetTokens(lexemes: seq<string>) returns (r: Result<seq<string>>)
    ensures r == TokensOf(lexemes)
  {
    var finalTokens, swapIndexes := CollectTokens(lexemes);
    r := ApplySwaps(finalTokens, swapIndexes, "neg");
  }

  /** The first loop of `get_tokens`: keep the non-empty lexemes and record the
      slots of the unary minus signs. */
  method CollectTokens(lexemes: seq<string>) returns (finalTokens: seq<string>, swapIndexes: seq<nat>)
    ensures finalTokens == Filter(lexemes, NonEmpty)
    ensures swapIndexes == UnaryMinusPositions(finalTokens)
  {
    finalTokens := [];
    swapIndexes := [];
    for i := 0 to |lexemes|
      invariant finalTokens == Filter(lexemes[..i], NonEmpty)
      invariant swapIndexes == UnaryMinusPositions(finalTokens)
    {
      var tokenString := lexemes[i];
      KeptAppend(lexemes, i);
      if tokenString != [] {
        if tokenString == "-" && (finalTokens == [] || finalTokens[|finalTokens| - 1] in Precedence) {
          swapIndexes := swapIndexes + [|finalTokens|];
        }
        UnaryMinusPositionsAppend(finalTokens, tokenString);
        finalTokens := finalTokens + [tokenString];
      }
    }
    assert lexemes[..|lexemes|] == lexemes;
  }

  // ---------------------------------------------------------------------------
  // to_postfix

  /** The two lists of `to_postfix`: the stack `operations` (top last) and `postfix`. */
  datatype Conversion = Conversion(operations: seq<string>, postfix: seq<string>)

  /** Every stacked entry is a key of `PRECEDENCE`: only `(` and keys of
      `OPERATORS` are ever pushed, so the lookup `PRECEDENCE[operations[-1]]`
      always finds its key. */
  predicate Stackable(ops: seq<string>) {
    forall k :: 0 <= k < |ops| ==> ops[k] in Precedence
  }

  /** The `while` that an operator token runs first: pop entries of strictly
      higher precedence than `p` to the output, top first, and stop at the first
      entry that is not higher. */
  function PopAbove(c: Conversion, p: nat): (d: Conversion)
    requires Stackable(c.operations)
    ensures d.operations <= c.operations
    ensures d.operations == [] || Precedence[d.operations[|d.operations| - 1]] <= p
    ensures forall k :: |d.operations| <= k < |c.operations| ==> p < Precedence[c.operations[k]]
    ensures d.postfix == c.postfix + Reversed(c.operations[|d.operations|..])
    decreases |c.operations|
  {
    var ops := c.operations;
    if ops != [] && p < Precedence[ops[|ops| - 1]] then
      var init := ops[..|ops| - 1];
      var top := ops[|ops| - 1];
      var d := PopAbove(Conversion(init, c.postfix + [top]), p);
      PoppedTop(ops, init, c.postfix, d.operations, p);
      d
    else
      assert c.postfix + Reversed(ops[|ops|..]) == c.postfix;
      c
  }

  /** Popping the top entry and then the suffix from `|rest|` on emits that whole
      suffix of `ops`, top first. */
  lemma PoppedTop(ops: seq<string>, init: seq<string>, postfix: seq<string>, rest: seq<string>, p: nat)
    requires Stackable(ops) && ops != [] && init == ops[..|ops| - 1] && rest <= init
    requires p < Precedence[ops[|ops| - 1]]
    requires forall k :: |rest| <= k < |init| ==> p < Precedence[init[k]]
    ensures postfix + [ops[|ops| - 1]] + Reversed(init[|rest|..]) == postfix + Reversed(ops[|rest|..])
    ensures forall k :: |rest| <= k < |ops| ==> p < Precedence[ops[k]]
  {
    var top := ops[|ops| - 1];
    assert ops[|rest|..] == init[|rest|..] + [top];
    ReversedSnoc(init[|rest|..], top);
    forall k | |rest| <= k < |ops|
      ensures p < Precedence[ops[k]]
    {
      if k < |ops| - 1 {
        assert init[k] == ops[k];
      }
    }
  }

  /** The `)` branch: pop entries to the output, top first, down to the nearest
      `(`, which is dropped; popping the empty list raises IndexError, so the
      branch fails exactly when no `(` is stacked. */
  function CloseGroup(c: Conversion): (r: Result<Conversion>)
    ensures r.Err? <==> "(" !in c.operations
    ensures r.Err? ==> r.error == IndexError
    ensures r.Ok? ==> r.value.operations < c.operations
    ensures r.Ok? ==>
      var i := |r.value.operations|;
      && c.operations[i] == "(" && "(" !in c.operations[i + 1..]
      && r.value.postfix == c.postfix + Reversed(c.operations[i + 1..])
    decreases |c.operations|
  {
    var ops := c.operations;
    if ops == [] then Err(IndexError)
    else if ops[|ops| - 1] == "(" then
      assert c.postfix + Reversed(ops[|ops|..]) == c.postfix;
      Ok(Conversion(ops[..|ops| - 1], c.postfix))
    else
      var init := ops[..|ops| - 1];
      var top := ops[|ops| - 1];
      assert "(" in ops <==> "(" in init by {
        assert ops == init + [top];
      }
      var r := CloseGroup(Conversion(init, c.postfix + [top]));
      if r.Ok? then
        var i := |r.value.operations|;
        assert ops[i + 1..] == init[i + 1..] + [top];
        ReversedSnoc(init[i + 1..], top);
        r
      else
        r
  }

  /** Every key of `OPERATORS` has a precedence, and none is a parenthesis. */
  lemma OperatorRanked(t: string)
    requires t in Operators
    ensures t in Precedence && 1 <= Precedence[t]
    ensures t != "(" && t != ")"
  {
  }

  lemma Prefix(ops: seq<string>, q: seq<string>)
    requires Stackable(ops) && q <= ops
    ensures Stackable(q)
  {
    forall k | 0 <= k < |q|
      ensures q[k] in Precedence
    {
      assert q[k] == ops[k];
    }
  }

  lemma Push(ops: seq<string>, t: string)
    requires Stackable(ops) && t in Precedence
    ensures Stackable(ops + [t])
  {
  }

  /** One iteration of the `for` loop of `to_postfix`. A token with
      `not token.strip()` is skipped: by the contract of `Strip`, those are the
      blank tokens. */
  function Step(c: Conversion, t: string): (r: Result<Conversion>)
    requires Stackable(c.operations)
    ensures r.Ok? ==> Stackable(r.value.operations)
  {
    if IsBlank(t) then Ok(c)
    else if t == "(" then
      assert "(" in Precedence;
      Push(c.operations, "(");
      Ok(Conversion(c.operations + ["("], c.postfix))
    else if t == ")" then
      var r := CloseGroup(c);
      if r.Ok? then Prefix(c.operations, r.value.operations); r else r
    else if t in Operators then
      OperatorRanked(t);
      var d := PopAbove(c, Precedence[t]);
      Prefix(c.operations, d.operations);
      Push(d.operations, t);
      Ok(Conversion(d.operations + [t], d.postfix))
    else if IsNumeric(t) then Ok(Conversion(c.operations, c.postfix + [t]))
    else Ok(c)
  }

  /** The `for` loop of `to_postfix` run over `ts` from the state `c`. */
  function Convert(c: Conversion, ts: seq<string>): (r: Result<Conversion>)
    requires Stackable(c.operations)
    ensures r.Ok? ==> Stackable(r.value.operations)
    decreases |ts|
  {
    if ts == [] then Ok(c)
    else
      match Step(c, ts[0])
      case Err(e) => Err(e)
      case Ok(d) => Convert(d, ts[1..])
  }

  /** The output once the final `while operations:` has emptied the stack. */
  function Drain(c: Conversion): seq<string> {
    c.postfix + Reversed(c.operations)
  }

  /** The postfix form `to_postfix` builds from the tokens `ts`. */
  function Shunt(ts: seq<string>): Result<seq<string>> {
    match Convert(Conversion([], []), ts)
    case Err(e) => Err(e)
    case Ok(c) => Ok(Drain(c))
  }

  /** The result of `to_postfix(expression)`. */
  function PostfixOf(lexemes: seq<string>): Result<seq<string>> {
    match TokensOf(lexemes)
    case Err(e) => Err(e)
    case Ok(ts) => Shunt(ts)
  }

  method ToPostfix(lexemes: seq<string>) returns (r: Result<seq<string>>)
    ensures r == PostfixOf(lexemes)
  {
    var tokens := GetTokens(lexemes);
    if tokens.Err? {
      return Err(tokens.error);
    }
    r := Shunting(tokens.value);
  }

  /** The body of `to_postfix` after `get_tokens`. */
  method Shunting(ts: seq<string>) returns (r: Result<seq<string>>)
    ensures r == Shunt(ts)
  {
    var operations: seq<string> := [];
    var postfix: seq<string> := [];
    for i := 0 to |ts|
      invariant Stackable(operations)
      invariant Convert(Conversion(operations, postfix), ts[i..]) == Convert(Conversion([], []), ts)
    {
      assert ts[i..][1..] == ts[i + 1..];
      var next := HandleToken(operations, postfix, ts[i]);
      if next.Err? {
        return Err(next.error);
      }
      operations, postfix := next.value.operations, next.value.postfix;
    }
    assert ts[|ts|..] == [];
    var out := EmptyStack(operations, postfix);
    r := Ok(out);
  }

  /** The final `while operations:` of `to_postfix`. */
  method EmptyStack(operations: seq<string>, postfix: seq<string>) returns (out: seq<string>)
    ensures out == Drain(Conversion(operations, postfix))
  {
    var ops := operations;
    out := postfix;
    while ops != []
      invariant out + Reversed(ops) == Drain(Conversion(operations, postfix))
      decreases |ops|
    {
      var topOperation := ops[|ops| - 1];
      var rest := Reversed(ops[..|ops| - 1]);
      assert Reversed(ops) == [topOperation] + rest;
      assert out + ([topOperation] + rest) == (out + [topOperation]) + rest;
      ops := ops[..|ops| - 1];
      out := out + [topOperation];
    }
    assert out + Reversed(ops) == out;
  }

  /** One pass of the `for` loop of `to_postfix` over the token `token`. */
  method HandleToken(operations: seq<string>, postfix: seq<string>, token: string) returns (r: Result<Conversion>)
    requires Stackable(operations)
    ensures r == Step(Conversion(operations, postfix), token)
  {
    if IsBlank(token) {
      return Ok(Conversion(operations, postfix));
    }
    if token == "(" {
      r := Ok(Conversion(operations + [token], postfix));
    } else if token == ")" {
      r := CloseParenthesis(operations, postfix);
    } else if token in Operators {
      OperatorRanked(token);
      var popped := PopHigher(operations, postfix, Precedence[token]);
      r := Ok(Conversion(popped.operations + [token], popped.postfix));
    } else if IsNumeric(token) {
      r := Ok(Conversion(operations, postfix + [token]));
    } else {
      r := Ok(Conversion(operations, postfix));
    }
  }

  /** The `while` of the operator branch of `to_postfix`. */
  method PopHigher(operations: seq<string>, postfix: seq<string>, p: nat) returns (d: Conversion)
    requires Stackable(operations)
    ensures d == PopAbove(Conversion(operations, postfix), p)
  {
    var ops, out := operations, postfix;
    while ops != [] && p < Precedence[ops[|ops| - 1]]
      invariant Stackable(ops)
      invariant PopAbove(Conversion(ops, out), p) == PopAbove(Conversion(operations, postfix), p)
      decreases |ops|
    {
      var topOperation := ops[|ops| - 1];
      Prefix(ops, ops[..|ops| - 1]);
      ops := ops[..|ops| - 1];
      out := out + [topOperation];
    }
    d := Conversion(ops, out);
  }

  /** The `)` branch of `to_postfix`: `top_operation = operations.pop()` and the
      `while` that pops down to the `(`. */
  method CloseParenthesis(operations: seq<string>, postfix: seq<string>) returns (r: Result<Conversion>)
    ensures r == CloseGroup(Conversion(operations, postfix))
  {
    if operations == [] {
      return Err(IndexError);
    }
    var ops := operations[..|operations| - 1];
    var out := postfix;
    var topOperation := operations[|operations| - 1];
    while topOperation != "("
      invariant CloseGroup(Conversion(ops + [topOperation], out)) == CloseGroup(Conversion(operations, postfix))
      decreases |ops|
    {
      assert (ops + [topOperation])[..|ops|] == ops;
      if ops == [] {
        return Err(IndexError);
      }
      out := out + [topOperation];
      topOperation := ops[|ops| - 1];
      ops := ops[..|ops| - 1];
    }
    assert (ops + [topOperation])[..|ops|] == ops;
    r := Ok(Conversion(ops, out));
  }

  // ---------------------------------------------------------------------------
  // evaluate

  /** `OPERATORS[token](a, b)` for the four binary keys. */
  function Arithmetic(t: string, a: real, b: real): (r: Result<real>)
    requires t in Operators && t != "neg"
    ensures r.Err? <==> t == "/" && b == 0.0
    ensures t == "+" ==> r == Ok(a + b)
    ensures t == "-" ==> r == Ok(a - b)
    ensures t == "*" ==> r == Ok(a * b)
  {
    if t == "+" then Ok(a + b)
    else if t == "-" then Ok(a - b)
    else if t == "*" then Ok(a * b)
    else Quotient(a, b)
  }

  /** What `evaluate` does with a key of `OPERATORS`: `neg` pops one entry and
      pushes its negation; the others pop the right operand, then the left one,
      and push their value. Popping the empty list raises IndexError. */
  function ApplyOperator(t: string, results: seq<Entry>): (r: Result<seq<Entry>>)
    requires t in Operators
    ensures r == Err(IndexError) <==> |results| < Arity(t)
    ensures r.Ok? ==> |results| >= Arity(t) && |r.value| == |results| - Arity(t) + 1
    ensures r.Ok? ==> r.value[..|results| - Arity(t)] == results[..|results| - Arity(t)]
    ensures r.Ok? ==> r.value[|r.value| - 1].Dec?
  {
    var n := |results|;
    if t == "neg" then
      if n == 0 then Err(IndexError)
      else
        match ToDecimal(results[n - 1])
        case Err(e) => Err(e)
        case Ok(x) => Ok(results[..n - 1] + [Dec(-x)])
    else
      if n < 2 then Err(IndexError)
      else
        match ToDecimal(results[n - 2])
        case Err(e) => Err(e)
        case Ok(a) =>
          match ToDecimal(results[n - 1])
          case Err(e) => Err(e)
          case Ok(b) =>
            match Arithmetic(t, a, b)
            case Err(e) => Err(e)
            case Ok(v) => Ok(results[..n - 2] + [Dec(v)])
  }

  /** How many entries `evaluate` pops for a key of `OPERATORS`. */
  function Arity(t: string): nat {
    if t == "neg" then 1 else 2
  }

  /** One iteration of the loop of `evaluate`: a token that is not a key of
      `OPERATORS` is pushed unchanged. */
  function Reduce(results: seq<Entry>, t: string): Result<seq<Entry>> {
    if t in Operators then ApplyOperator(t, results) else Ok(results + [Text(t)])
  }

  /** The loop of `evaluate` run over `ts` from the stack `results`. */
  function Run(results: seq<Entry>, ts: seq<string>): Result<seq<Entry>>
    decreases |ts|
  {
    if ts == [] then Ok(results)
    else
      match Reduce(results, ts[0])
      case Err(e) => Err(e)
      case Ok(next) => Run(next, ts[1..])
  }

  /** `results[-1]` once the postfix tokens `ts` are reduced. */
  function Outcome(ts: seq<string>): Result<Entry> {
    match Run([], ts)
    case Err(e) => Err(e)
    case Ok(results) => if results == [] then Err(IndexError) else Ok(results[|results| - 1])
  }

  /** The result of `evaluate(expression)`. */
  function ValueOf(lexemes: seq<string>): Result<Entry> {
    match PostfixOf(lexemes)
    case Err(e) => Err(e)
    case Ok(ps) => Outcome(ps)
  }

  /** The operator branches of `evaluate`. */
  method ApplyToStack(t: string, results: seq<Entry>) returns (r: Result<seq<Entry>>)
    requires t in Operators
    ensures r == ApplyOperator(t, results)
  {
    var stack := results;
    var n := |stack|;
    var result: real;
    if t == "neg" {
      if n == 0 {
        return Err(IndexError);
      }
      var operand := stack[n - 1];
      stack := stack[..n - 1];
      var x := ToDecimal(operand);
      if x.Err? {
        return Err(x.error);
      }
      result := -x.value;
    } else {
      if n < 2 {
        return Err(IndexError);
      }
      var secondOperand := stack[n - 1];
      var firstOperand := stack[n - 2];
      stack := stack[..n - 2];
      var a := ToDecimal(firstOperand);
      if a.Err? {
        return Err(a.error);
      }
      var b := ToDecimal(secondOperand);
      if b.Err? {
        return Err(b.error);
      }
      var v := Arithmetic(t, a.value, b.value);
      if v.Err? {
        return Err(v.error);
      }
      result := v.value;
    }
    r := Ok(stack + [Dec(result)]);
  }

  method Evaluate(lexemes: seq<string>) returns (r: Result<Entry>)
    ensures r == ValueOf(lexemes)
  {
    var converted := ToPostfix(lexemes);
    if converted.Err? {
      return Err(converted.error);
    }
    var operations := converted.value;
    var results: seq<Entry> := [];
    for i := 0 to |operations|
      invariant Run(results, operations[i..]) == Run([], operations)
    {
      var token := operations[i];
      assert operations[i..][1..] == operations[i + 1..];
      if token in Operators {
        var applied := ApplyToStack(token, results);
        if applied.Err? {
          return Err(applied.error);
        }
        results := applied.value;
      } else {
        results := results + [Text(token)];
      }
    }
    assert operations[|operations|..] == [];
    if results == [] {
      return Err(IndexError);
    }
    r := Ok(results[|results| - 1]);
  }
}
