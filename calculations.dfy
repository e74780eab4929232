/** pyCalc/calculations.py: the `Operators` table, and the three stages of the
    refactored evaluator, `get_tokens`, `to_postfix` and `evaluate`, over the
    lexemes that Python's `tokenize` produces for an expression. */
module Calculations {
  import opened Outcomes
  import opened Numerals
  import opened Values
  import opened Sequences

  /** The members of the `Operators` enum. */
  datatype Operator =
    | LeftParenthesis
    | Addition
    | Subtraction
    | Multiplication
    | Division
    | Percentage
    | Factorial
    | Negation

  /** The members in declaration order, the order in which `for i in cls` visits them. */
  const Members: seq<Operator> :=
    [LeftParenthesis, Addition, Subtraction, Multiplication, Division, Percentage, Factorial, Negation]

  function Symbol(op: Operator): string {
    match op
    case LeftParenthesis => "("
    case Addition => "+"
    case Subtraction => "-"
    case Multiplication => "*"
    case Division => "/"
    case Percentage => "%"
    case Factorial => "!"
    case Negation => "neg"
  }

  /** The precedence column of the table: `(` is the only member below every
      operator, and NEGATION the only one above every other member. */
  function Precedence(op: Operator): (p: nat)
    ensures p == 0 <==> op == LeftParenthesis
    ensures p <= 6 && (p == 6 <==> op == Negation)
  {
    match op
    case LeftParenthesis => 0
    case Addition => 1
    case Subtraction => 1
    case Multiplication => 3
    case Division => 4
    case Percentage => 5
    case Factorial => 5
    case Negation => 6
  }

  /** How many values `evaluate` pops for a member: NEGATION, PERCENTAGE and
      FACTORIAL pop one, every other member (including `(`) pops two. */
  function Arity(op: Operator): nat {
    if op == Negation || op == Percentage || op == Factorial then 1 else 2
  }

  /** The member whose symbol is `s`, if there is one: the inverse of `Symbol`. */
  function Lookup(s: string): (r: Option<Operator>)
    ensures r.Some? ==> Symbol(r.value) == s
    ensures r.None? ==> forall op: Operator :: Symbol(op) != s
  {
    if s == "(" then Some(LeftParenthesis)
    else if s == "+" then Some(Addition)
    else if s == "-" then Some(Subtraction)
    else if s == "*" then Some(Multiplication)
    else if s == "/" then Some(Division)
    else if s == "%" then Some(Percentage)
    else if s == "!" then Some(Factorial)
    else if s == "neg" then Some(Negation)
    else None
  }

  /** `Operators.from_symbol`: the member whose symbol is `s`; ValueError when none is. */
  method FromSymbol(s: string) returns (r: Result<Operator>)
    ensures r.Ok? ==> Symbol(r.value) == s
    ensures r.Err? ==> r.error == ValueError && forall op: Operator :: Symbol(op) != s
  {
    for i := 0 to |Members|
      invariant forall j :: 0 <= j < i ==> Symbol(Members[j]) != s
    {
      if Symbol(Members[i]) == s {
        return Ok(Members[i]);
      }
    }
    forall op: Operator ensures Symbol(op) != s {
      assert op == Members[Index(op)];
    }
    return Err(ValueError);
  }

  /** `Operators.is_valid_symbol`: whether some member has the symbol `s`, that is,
      whether `from_symbol(s)` returns instead of raising. */
  method IsValidSymbol(s: string) returns (found: bool)
    ensures found <==> exists op: Operator :: Symbol(op) == s
  {
    found := false;
    var i := 0;
    while i < |Members| && !found
      invariant 0 <= i <= |Members|
      invariant found <==> exists j :: 0 <= j < i && Symbol(Members[j]) == s
    {
      if Symbol(Members[i]) == s {
        found := true;
      }
      i := i + 1;
    }
    if !found {
      forall op: Operator ensures Symbol(op) != s {
        assert op == Members[Index(op)];
      }
    }
  }

  /** The position of a member in `Members`. */
  function Index(op: Operator): (i: nat)
    ensures i < |Members| && Members[i] == op
  {
    match op
    case LeftParenthesis => 0
    case Addition => 1
    case Subtraction => 2
    case Multiplication => 3
    case Division => 4
    case Percentage => 5
    case Factorial => 6
    case Negation => 7
  }

  // ---------------------------------------------------------------------------
  // get_tokens

  /** An element of `final_tokens`: a numeral kept as its string, or a member of `Operators`. */
  datatype Token = Num(text: string) | Sym(op: Operator)

  /** The stripped lexemes `get_tokens` keeps: `token[1].strip()`, dropped when empty. */
  function Lexed(lexemes: seq<string>): seq<string> {
    if lexemes == [] then []
    else
      var s := Strip(lexemes[|lexemes| - 1]);
      Lexed(lexemes[..|lexemes| - 1]) + (if s == [] then [] else [s])
  }

  /** How `get_tokens` classifies one kept lexeme: a numeral when `float` accepts
      it, otherwise the member `from_symbol` finds, otherwise ValueError. */
  function Classify(s: string): (r: Result<Token>)
    ensures (r.Ok? && r.value.Num?) <==> IsNumeric(s)
    ensures r.Ok? && r.value.Num? ==> r.value.text == s
    ensures r.Ok? && r.value.Sym? ==> Symbol(r.value.op) == s
    ensures r.Err? <==> !IsNumeric(s) && forall op: Operator :: Symbol(op) != s
    ensures r.Err? ==> r.error == ValueError
  {
    if IsNumeric(s) then Ok(Num(s))
    else
      match Lookup(s)
      case Some(op) => Ok(Sym(op))
      case None => Err(ValueError)
  }

  /** `final_tokens` after the first loop: every kept lexeme classified, or the
      ValueError of the first one that is neither a numeral nor a symbol. */
  function Classified(ss: seq<string>): (r: Result<seq<Token>>)
    ensures r.Ok? ==> |r.value| == |ss|
    ensures r.Err? ==> r.error == ValueError
  {
    if ss == [] then Ok([])
    else
      match Classified(ss[..|ss| - 1])
      case Err(e) => Err(e)
      case Ok(ts) =>
        match Classify(ss[|ss| - 1])
        case Err(e) => Err(e)
        case Ok(t) => Ok(ts + [t])
  }

  /** A lexeme that is neither a numeral nor a symbol makes the whole classification fail. */
  lemma {:induction false} ClassifiedFails(ss: seq<string>, j: nat)
    requires j < |ss| && Classify(ss[j]).Err?
    ensures Classified(ss) == Err(ValueError)
    decreases |ss|
  {
    if j < |ss| - 1 {
      ClassifiedFails(ss[..|ss| - 1], j);
    }
  }

  /** Each classified token is the classification of its own lexeme. */
  lemma {:induction false} ClassifiedAt(ss: seq<string>, k: nat)
    requires Classified(ss).Ok? && k < |ss|
    ensures Classify(ss[k]) == Ok(Classified(ss).value[k])
    decreases |ss|
  {
    if k < |ss| - 1 {
      ClassifiedAt(ss[..|ss| - 1], k);
    }
  }

  /** Classification succeeds exactly when every lexeme is a numeral or a symbol. */
  lemma {:induction false} ClassifiedOk(ss: seq<string>)
    requires forall k :: 0 <= k < |ss| ==> Classify(ss[k]).Ok?
    ensures Classified(ss).Ok?
    decreases |ss|
  {
    if ss != [] {
      ClassifiedOk(ss[..|ss| - 1]);
    }
  }

  /** The test `get_tokens` applies to a `-`: it is unary when it is the first
      token or when the token before it is a member of `Operators` (`(` included). */
  predicate UnaryMinusAt(ts: seq<Token>, k: nat) {
    k < |ts| && ts[k] == Sym(Subtraction) && (k == 0 || ts[k - 1].Sym?)
  }

  /** `swap_indexes`: the slots of the unary minus signs, in increasing order. */
  function UnaryMinusPositions(ts: seq<Token>): (r: seq<nat>)
    ensures Increasing(r)
    ensures forall a :: 0 <= a < |r| ==> r[a] < |ts|
    ensures forall x :: x in r <==> UnaryMinusAt(ts, x)
  {
    if ts == [] then []
    else
      var init := ts[..|ts| - 1];
      var r := UnaryMinusPositions(init);
      UnaryMinusInit(ts);
      r + (if UnaryMinusAt(ts, |ts| - 1) then [|ts| - 1] else [])
  }

  lemma UnaryMinusInit(ts: seq<Token>)
    requires ts != []
    ensures forall x: nat :: UnaryMinusAt(ts[..|ts| - 1], x) <==> x < |ts| - 1 && UnaryMinusAt(ts, x)
  {
    var init := ts[..|ts| - 1];
    forall x: nat
      ensures UnaryMinusAt(init, x) <==> x < |init| && UnaryMinusAt(ts, x)
    {
      if x < |init| {
        assert init[x] == ts[x];
        if 0 < x {
          assert init[x - 1] == ts[x - 1];
        }
      }
    }
  }

  /** The result of `get_tokens(expression)` for the lexemes `tokenize` yields. */
  function TokensOf(lexemes: seq<string>): Result<seq<Token>> {
    match Classified(Lexed(lexemes))
    case Err(e) => Err(e)
    case Ok(ts) => Swapped(ts, UnaryMinusPositions(ts), Sym(Negation))
  }

  lemma {:induction false} LexedPrefix(lexemes: seq<string>, i: nat)
    requires i <= |lexemes|
    ensures Lexed(lexemes[..i]) <= Lexed(lexemes)
    decreases |lexemes|
  {
    if i < |lexemes| {
      var init := lexemes[..|lexemes| - 1];
      assert init[..i] == lexemes[..i];
      LexedPrefix(init, i);
    } else {
      assert lexemes[..i] == lexemes;
    }
  }

  lemma LexedAppend(lexemes: seq<string>, i: nat)
    requires i < |lexemes|
    ensures var s := Strip(lexemes[i]);
      Lexed(lexemes[..i + 1]) == Lexed(lexemes[..i]) + (if s == [] then [] else [s])
  {
    assert lexemes[..i + 1][..i] == lexemes[..i];
  }

  lemma UnaryMinusPositionsAppend(ts: seq<Token>, t: Token)
    ensures UnaryMinusPositions(ts + [t]) ==
      UnaryMinusPositions(ts) + (if t == Sym(Subtraction) && (ts == [] || ts[|ts| - 1].Sym?) then [|ts|] else [])
  {
    assert (ts + [t])[..|ts|] == ts;
  }

  lemma ClassifiedAppend(ss: seq<string>, s: string)
    ensures Classified(ss + [s]) ==
      if Classified(ss).Ok? && Classify(s).Ok? then Ok(Classified(ss).value + [Classify(s).value]) else Err(ValueError)
  {
    assert (ss + [s])[..|ss|] == ss;
  }

  lemma SubtractionSymbol(op: Operator)
    ensures Symbol(op) == "-" <==> op == Subtraction
  {
  }

  /** `Lookup` inverts `Symbol`: no two members share a symbol. */
  lemma LookupSymbol(op: Operator)
    ensures Lookup(Symbol(op)) == Some(op)
  {
  }

  /** The `try: float(token_string)` block of `get_tokens`: a numeral is kept as
      its string, anything else goes through `from_symbol`. */
  method ClassifyLexeme(tokenString: string) returns (r: Result<Token>)
    ensures r == Classify(tokenString)
    ensures r.Ok? ==> (r.value == Sym(Subtraction) <==> tokenString == "-")
  {
    if IsNumeric(tokenString) {
      return Ok(Num(tokenString));
    }
    var member := FromSymbol(tokenString);
    if member.Err? {
      return Err(member.error);
    }
    LookupSymbol(member.value);
    SubtractionSymbol(member.value);
    return Ok(Sym(member.value));
  }

  /** A lexeme that strips to nothing leaves `final_tokens` as it is. */
  lemma BlankLexeme(lexemes: seq<string>, i: nat)
    requires i < |lexemes| && Strip(lexemes[i]) == []
    ensures Lexed(lexemes[..i + 1]) == Lexed(lexemes[..i])
  {
    LexedAppend(lexemes, i);
  }

  /** A classified lexeme is appended to `final_tokens`. */
  lemma KeptLexeme(lexemes: seq<string>, i: nat, finalTokens: seq<Token>, t: Token)
    requires i < |lexemes| && Classified(Lexed(lexemes[..i])) == Ok(finalTokens)
    requires Strip(lexemes[i]) != [] && Classify(Strip(lexemes[i])) == Ok(t)
    ensures Classified(Lexed(lexemes[..i + 1])) == Ok(finalTokens + [t])
  {
    var s := Strip(lexemes[i]);
    LexedAppend(lexemes, i);
    ClassifiedAppend(Lexed(lexemes[..i]), s);
  }

  /** A lexeme that is neither a numeral nor a symbol makes `get_tokens` raise ValueError. */
  lemma UnknownLexeme(lexemes: seq<string>, i: nat, finalTokens: seq<Token>)
    requires i < |lexemes| && Classified(Lexed(lexemes[..i])) == Ok(finalTokens)
    requires Strip(lexemes[i]) != [] && Classify(Strip(lexemes[i])).Err?
    ensures Classified(Lexed(lexemes)) == Err(ValueError)
  {
    var s := Strip(lexemes[i]);
    LexedAppend(lexemes, i);
    LexedPrefix(lexemes, i + 1);
    var kept := Lexed(lexemes);
    assert kept[|finalTokens|] == s;
    ClassifiedFails(kept, |finalTokens|);
  }

  method GetTokens(lexemes: seq<string>) returns (r: Result<seq<Token>>)
    ensures r == TokensOf(lexemes)
  {
    var collected, swapIndexes := CollectTokens(lexemes);
    if collected.Err? {
      return Err(collected.error);
    }
    r := ApplySwaps(collected.value, swapIndexes, Sym(Negation));
  }

  /** The first loop of `get_tokens`: classify the stripped lexemes, ValueError on
      an unknown one, and record the slots of the unary minus signs. */
  method CollectTokens(lexemes: seq<string>) returns (r: Result<seq<Token>>, swapIndexes: seq<nat>)
    ensures r == Classified(Lexed(lexemes))
    ensures r.Ok? ==> swapIndexes == UnaryMinusPositions(r.value)
  {
    var finalTokens: seq<Token> := [];
    swapIndexes := [];
    for i := 0 to |lexemes|
      invariant Classified(Lexed(lexemes[..i])) == Ok(finalTokens)
      invariant swapIndexes == UnaryMinusPositions(finalTokens)
    {
      var tokenString := Strip(lexemes[i]);
      if tokenString != [] {
        ghost var before := finalTokens;
        if tokenString == "-" && (finalTokens == [] || finalTokens[|finalTokens| - 1].Sym?) {
          swapIndexes := swapIndexes + [|finalTokens|];
        }
        var classified := ClassifyLexeme(tokenString);
        if classified.Err? {
          UnknownLexeme(lexemes, i, finalTokens);
          return Err(classified.error), swapIndexes;
        }
        var token := classified.value;
        KeptLexeme(lexemes, i, finalTokens, token);
        finalTokens := finalTokens + [token];
        UnaryMinusPositionsAppend(before, token);
      } else {
        BlankLexeme(lexemes, i);
      }
    }
    assert lexemes[..|lexemes|] == lexemes;
    r := Ok(finalTokens);
  }

  // ---------------------------------------------------------------------------
  // to_postfix

  /** The two lists of `to_postfix`: the operator stack `operations`, whose top is
      its last element, and the output `postfix`. */
  datatype Conversion = Conversion(operations: seq<Operator>, postfix: seq<Token>)

  /** What popping every entry of `ops` onto the output appends: its members, top first. */
  function Unstacked(ops: seq<Operator>): seq<Token> {
    if ops == [] then [] else [Sym(ops[|ops| - 1])] + Unstacked(ops[..|ops| - 1])
  }

  /** How many entries the inner `while` of an operator token pops: the run of
      stacked members, from the top down, whose precedence is at least `p`. */
  function PopCount(ops: seq<Operator>, p: nat): (k: nat)
    ensures k <= |ops|
    ensures forall j :: |ops| - k <= j < |ops| ==> p <= Precedence(ops[j])
    ensures k == |ops| || Precedence(ops[|ops| - k - 1]) < p
  {
    if ops != [] && p <= Precedence(ops[|ops| - 1]) then 1 + PopCount(ops[..|ops| - 1], p) else 0
  }

  /** The state after that inner `while`: the popped members moved to the output, top first. */
  function PopAtLeast(c: Conversion, p: nat): Conversion {
    var k := PopCount(c.operations, p);
    var n := |c.operations|;
    Conversion(c.operations[..n - k], c.postfix + Unstacked(c.operations[n - k..]))
  }

  /** Popping the top entry is the first step of `PopAtLeast` when its precedence is at least `p`. */
  lemma PopAtLeastUnfold(c: Conversion, p: nat)
    ensures c.operations != [] && p <= Precedence(c.operations[|c.operations| - 1]) ==>
      var ops := c.operations;
      PopAtLeast(c, p) == PopAtLeast(Conversion(ops[..|ops| - 1], c.postfix + [Sym(ops[|ops| - 1])]), p)
    ensures !(c.operations != [] && p <= Precedence(c.operations[|c.operations| - 1])) ==> PopAtLeast(c, p) == c
  {
    var ops := c.operations;
    var n := |ops|;
    if ops != [] && p <= Precedence(ops[n - 1]) {
      PopAtLeastPop(c, p);
    } else {
      assert ops[..n] == ops && ops[n..] == [];
    }
  }

  lemma PopAtLeastPop(c: Conversion, p: nat)
    requires c.operations != [] && p <= Precedence(c.operations[|c.operations| - 1])
    ensures var ops := c.operations;
      PopAtLeast(c, p) == PopAtLeast(Conversion(ops[..|ops| - 1], c.postfix + [Sym(ops[|ops| - 1])]), p)
  {
    var ops := c.operations;
    var n := |ops|;
    var rest := ops[..n - 1];
    var k := PopCount(ops, p);
    assert k == 1 + PopCount(rest, p);
    PoppedSlices(ops, k);
    var popped := ops[n - k..];
    assert Unstacked(popped) == [Sym(ops[n - 1])] + Unstacked(rest[|rest| - (k - 1)..]);
    assert c.postfix + Unstacked(popped) == c.postfix + [Sym(ops[n - 1])] + Unstacked(rest[|rest| - (k - 1)..]);
  }

  lemma PoppedSlices(ops: seq<Operator>, k: nat)
    requires 1 <= k <= |ops|
    ensures var n := |ops|;
      var rest := ops[..n - 1];
      var popped := ops[n - k..];
      && popped != [] && popped[|popped| - 1] == ops[n - 1]
      && popped[..|popped| - 1] == rest[|rest| - (k - 1)..]
      && rest[..|rest| - (k - 1)] == ops[..n - k]
  {
  }

  /** Popping the top entry onto the output leaves the drained output unchanged. */
  lemma DrainUnfold(c: Conversion)
    requires c.operations != []
    ensures var ops := c.operations;
      Drain(c) == Drain(Conversion(ops[..|ops| - 1], c.postfix + [Sym(ops[|ops| - 1])]))
  {
  }

  /** One iteration of the `for` loop of `to_postfix`. */
  function Step(c: Conversion, t: Token): Conversion {
    if t == Sym(LeftParenthesis) then
      Conversion(c.operations + [LeftParenthesis], c.postfix)
    else if t.Sym? then
      var d := PopAtLeast(c, Precedence(t.op));
      Conversion(d.operations + [t.op], d.postfix)
    else if IsNumeric(t.text) then
      Conversion(c.operations, c.postfix + [t])
    else
      c
  }

  /** The `for` loop of `to_postfix` run over `ts` from the state `c`. */
  function Convert(c: Conversion, ts: seq<Token>): Conversion
    decreases |ts|
  {
    if ts == [] then c else Convert(Step(c, ts[0]), ts[1..])
  }

  /** The output once the final `while operations:` loop has emptied the stack. */
  function Drain(c: Conversion): seq<Token> {
    c.postfix + Unstacked(c.operations)
  }

  /** The postfix form `to_postfix` builds from the tokens `ts`. */
  function Shunt(ts: seq<Token>): seq<Token> {
    Drain(Convert(Conversion([], []), ts))
  }

  /** The result of `to_postfix(expression)`. */
  function PostfixOf(lexemes: seq<string>): Result<seq<Token>> {
    match TokensOf(lexemes)
    case Err(e) => Err(e)
    case Ok(ts) => Ok(Shunt(ts))
  }

  method ToPostfix(lexemes: seq<string>) returns (r: Result<seq<Token>>)
    ensures r == PostfixOf(lexemes)
  {
    var tokens := GetTokens(lexemes);
    if tokens.Err? {
      return Err(tokens.error);
    }
    var postfix := Shunting(tokens.value);
    r := Ok(postfix);
  }

  /** The body of `to_postfix` after `get_tokens`: the `for` loop over the tokens
      and the final `while` that empties the operator stack. */
  method Shunting(ts: seq<Token>) returns (postfix: seq<Token>)
    ensures postfix == Shunt(ts)
  {
    var operations: seq<Operator> := [];
    postfix := [];
    for i := 0 to |ts|
      invariant Convert(Conversion(operations, postfix), ts[i..]) == Convert(Conversion([], []), ts)
    {
      var token := ts[i];
      ghost var before := Conversion(operations, postfix);
      assert ts[i..][1..] == ts[i + 1..];
      if token == Sym(LeftParenthesis) {
        operations := operations + [LeftParenthesis];
      } else if token.Sym? {
        var p := Precedence(token.op);
        while operations != [] && p <= Precedence(operations[|operations| - 1])
          invariant PopAtLeast(Conversion(operations, postfix), p) == PopAtLeast(before, p)
          decreases |operations|
        {
          PopAtLeastUnfold(Conversion(operations, postfix), p);
          var topOperation := operations[|operations| - 1];
          operations := operations[..|operations| - 1];
          postfix := postfix + [Sym(topOperation)];
        }
        PopAtLeastUnfold(Conversion(operations, postfix), p);
        operations := operations + [token.op];
      } else if IsNumeric(token.text) {
        postfix := postfix + [token];
      }
      assert Conversion(operations, postfix) == Step(before, token);
    }
    while operations != []
      invariant Drain(Conversion(operations, postfix)) == Shunt(ts)
      decreases |operations|
    {
      DrainUnfold(Conversion(operations, postfix));
      var topOperation := operations[|operations| - 1];
      operations := operations[..|operations| - 1];
      postfix := postfix + [Sym(topOperation)];
    }
  }

  // ---------------------------------------------------------------------------
  // evaluate

  function Fact(n: nat): (r: nat)
    ensures 1 <= r
  {
    if n == 0 then 1 else n * Fact(n - 1)
  }

  /** `float(e)`, the conversion FACTORIAL applies. */
  function ToFloat(e: Entry): (r: Result<real>)
    ensures r.Ok? <==> ToDecimal(e).Ok?
    ensures r.Ok? ==> r == ToDecimal(e)
    ensures r.Err? ==> r.error == ValueError
  {
    match e
    case Dec(v) => Ok(v)
    case Text(s) =>
      match ParseNumber(s)
      case Some(v) => Ok(v)
      case None => Err(ValueError)
  }

  /** `math.factorial(x)` of a float: an integral, non-negative operand only. */
  function FactorialOf(x: real): (r: Result<real>)
    ensures r.Ok? <==> 0.0 <= x && x == x.Floor as real
    ensures r.Err? ==> r.error == ValueError
  {
    if 0.0 <= x && x == x.Floor as real then Ok(Fact(x.Floor) as real) else Err(ValueError)
  }

  /** `token.function(first, second)` for a member that pops two values. */
  function Binary(op: Operator, a: real, b: real): (r: Result<real>)
    requires Arity(op) == 2
    ensures r.Err? <==> op == LeftParenthesis || (op == Division && b == 0.0)
    ensures op == LeftParenthesis ==> r == Err(TypeError)
  {
    match op
    case LeftParenthesis => Err(TypeError)
    case Addition => Ok(a + b)
    case Subtraction => Ok(a - b)
    case Multiplication => Ok(a * b)
    case Division => Quotient(a, b)
  }

  /** What `evaluate` does with an operator token: pop the operand(s), the right
      one first, and push the value; IndexError when the stack runs out. */
  function ApplyOperator(op: Operator, results: seq<Entry>): (r: Result<seq<Entry>>)
    ensures r == Err(IndexError) <==> |results| < Arity(op)
    ensures r.Ok? ==> |results| >= Arity(op) && |r.value| == |results| - Arity(op) + 1
    ensures r.Ok? ==> r.value[..|results| - Arity(op)] == results[..|results| - Arity(op)]
    ensures r.Ok? ==> r.value[|r.value| - 1].Dec?
  {
    var n := |results|;
    if op == Negation || op == Percentage then
      if n == 0 then Err(IndexError)
      else
        match ToDecimal(results[n - 1])
        case Err(e) => Err(e)
        case Ok(x) => Ok(results[..n - 1] + [Dec(if op == Negation then -x else x / 100.0)])
    else if op == Factorial then
      if n == 0 then Err(IndexError)
      else
        match ToFloat(results[n - 1])
        case Err(e) => Err(e)
        case Ok(x) =>
          match FactorialOf(x)
          case Err(e) => Err(e)
          case Ok(v) => Ok(results[..n - 1] + [Dec(v)])
    else
      if n < 2 then Err(IndexError)
      else
        match ToDecimal(results[n - 2])
        case Err(e) => Err(e)
        case Ok(a) =>
          match ToDecimal(results[n - 1])
          case Err(e) => Err(e)
          case Ok(b) =>
            match Binary(op, a, b)
            case Err(e) => Err(e)
            case Ok(v) => Ok(results[..n - 2] + [Dec(v)])
  }

  /** One iteration of the loop of `evaluate`: a numeral is pushed unchanged. */
  function Reduce(results: seq<Entry>, t: Token): Result<seq<Entry>> {
    match t
    case Sym(op) => ApplyOperator(op, results)
    case Num(s) => Ok(results + [Text(s)])
  }

  /** The loop of `evaluate` run over `ts` from the stack `results`. */
  function Run(results: seq<Entry>, ts: seq<Token>): Result<seq<Entry>>
    decreases |ts|
  {
    if ts == [] then Ok(results)
    else
      match Reduce(results, ts[0])
      case Err(e) => Err(e)
      case Ok(next) => Run(next, ts[1..])
  }

  /** `results[-1]` once the postfix tokens `ts` are reduced. */
  function Outcome(ts: seq<Token>): Result<Entry> {
    match Run([], ts)
    case Err(e) => Err(e)
    case Ok(results) => if results == [] then Err(IndexError) else Ok(results[|results| - 1])
  }

  /** The result of `evaluate(expression)`. */
  function ValueOf(lexemes: seq<string>): Result<Entry> {
    match PostfixOf(lexemes)
    case Err(e) => Err(e)
    case Ok(ps) => Outcome(ps)
  }

  /** The `if token in Operators` branch of `evaluate`: pop the operand(s), apply
      the member's function and push its value. */
  method ApplyToStack(op: Operator, results: seq<Entry>) returns (r: Result<seq<Entry>>)
    ensures r == ApplyOperator(op, results)
  {
    var stack := results;
    var n := |stack|;
    var result: real;
    if op == Negation || op == Percentage {
      if n == 0 {
        return Err(IndexError);
      }
      var operand := ToDecimal(stack[n - 1]);
      stack := stack[..n - 1];
      if operand.Err? {
        return Err(operand.error);
      }
      result := if op == Negation then -operand.value else operand.value / 100.0;
    } else if op == Factorial {
      if n == 0 {
        return Err(IndexError);
      }
      var operand := ToFloat(stack[n - 1]);
      stack := stack[..n - 1];
      if operand.Err? {
        return Err(operand.error);
      }
      var f := FactorialOf(operand.value);
      if f.Err? {
        return Err(f.error);
      }
      result := f.value;
    } else {
      if n < 2 {
        return Err(IndexError);
      }
      var secondOperand := stack[n - 1];
      var firstOperand := stack[n - 2];
      stack := stack[..n - 2];
      var a := ToDecimal(firstOperand);
      if a.Err? {
        return Err(a.error);
      }
      var b := ToDecimal(secondOperand);
      if b.Err? {
        return Err(b.error);
      }
      var v := Binary(op, a.value, b.value);
      if v.Err? {
        return Err(v.error);
      }
      result := v.value;
    }
    r := Ok(stack + [Dec(result)]);
  }

  method Evaluate(lexemes: seq<string>) returns (r: Result<Entry>)
    ensures r == ValueOf(lexemes)
  {
    var converted := ToPostfix(lexemes);
    if converted.Err? {
      return Err(converted.error);
    }
    r := EvaluatePostfix(converted.value);
  }

  /** The loop of `evaluate` over the postfix tokens `operations`. */
  method EvaluatePostfix(operations: seq<Token>) returns (r: Result<Entry>)
    ensures r == Outcome(operations)
  {
    var results: seq<Entry> := [];
    for i := 0 to |operations|
      invariant Run(results, operations[i..]) == Run([], operations)
    {
      var token := operations[i];
      assert operations[i..][1..] == operations[i + 1..];
      if token.Sym? {
        var applied := ApplyToStack(token.op, results);
        if applied.Err? {
          return Err(applied.error);
        }
        results := applied.value;
      } else {
        results := results + [Text(token.text)];
      }
    }
    assert operations[|operations|..] == [];
    if results == [] {
      return Err(IndexError);
    }
    r := Ok(results[|results| - 1]);
  }
}
