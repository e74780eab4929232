/** Properties of the `gui.py` pipeline, stated about the functions that specify
    its methods. */
module GuiProofs {
  import opened Outcomes
  import opened Numerals
  import opened Values
  import opened Sequences
  import opened Gui

  // ---------------------------------------------------------------------------
  // The tables

  /** `OPERATORS` holds every key of `PRECEDENCE` but `(`, and all of them
      outrank `(`. */
  lemma OperatorsAreKeys()
    ensures Operators == Precedence.Keys - {"("}
    ensures forall t :: t in Operators ==> 1 <= Precedence[t]
  {
  }

  /** Every symbol starts with a character that is no digit, no point and no
      whitespace. */
  lemma SymbolInitial(t: string)
    ensures t in Precedence || t in Operators || t == ")" ==>
      t != [] && !IsDigit(t[0]) && t[0] != '.' && !IsWhitespace(t[0])
  {
  }

  /** A numeral is not blank, not `)` and not a key of `PRECEDENCE` or `OPERATORS`. */
  lemma NumeralIsNoSymbol(s: string)
    requires IsNumeric(s)
    ensures !IsBlank(s) && s != ")" && s !in Precedence && s !in Operators
  {
    assert IsDigit(s[0]) || s[0] == '.';
    SymbolInitial(s);
    assert !IsBlank(s);
  }

  /** Nor is any key of `PRECEDENCE`, or `)`, a numeral or blank. */
  lemma SymbolIsNoNumeral(s: string)
    requires s in Precedence || s == ")"
    ensures !IsBlank(s) && !IsNumeric(s)
  {
    SymbolInitial(s);
    NotNumeric(s, 0);
    assert !IsBlank(s);
  }

  // ---------------------------------------------------------------------------
  // get_tokens

  /** A `-` right after `)` or after a number is subtraction: it is not rewritten. */
  lemma MinusAfterOperandIsBinary(ts: seq<string>, k: nat)
    requires 0 < k < |ts| && ts[k] == "-"
    requires ts[k - 1] == ")" || IsNumeric(ts[k - 1])
    ensures k !in UnaryMinusPositions(ts)
  {
    if IsNumeric(ts[k - 1]) {
      NumeralIsNoSymbol(ts[k - 1]);
    }
  }

  /** The rewrite raises IndexError exactly when the last kept lexeme is a unary
      minus; otherwise there is one token per non-empty lexeme, the numbers in
      their order. */
  lemma TokensOfShape(lexemes: seq<string>)
    ensures var ts := Filter(lexemes, NonEmpty);
      TokensOf(lexemes).Err? <==> ts != [] && UnaryMinusAt(ts, |ts| - 1)
    ensures TokensOf(lexemes).Err? ==> TokensOf(lexemes).error == IndexError
    ensures var ts := Filter(lexemes, NonEmpty);
      TokensOf(lexemes).Ok? ==>
        && |TokensOf(lexemes).value| == |ts|
        && Filter(TokensOf(lexemes).value, IsNumeric) == Filter(ts, IsNumeric)
  {
    var ts := Filter(lexemes, NonEmpty);
    var swaps := UnaryMinusPositions(ts);
    if ts != [] && UnaryMinusAt(ts, |ts| - 1) {
      assert |ts| - 1 in swaps;
    }
    if Swapped(ts, swaps, "neg").Ok? {
      SymbolIsNoNumeral("neg");
      forall x | x in swaps && x < |ts|
        ensures !IsNumeric(ts[x])
      {
        SymbolIsNoNumeral(ts[x]);
      }
      SwappedKeepsOrder(ts, swaps, "neg", IsNumeric);
    }
  }

  // ---------------------------------------------------------------------------
  // to_postfix: what the stack moves

  /** How many `(` are stacked. */
  function Depth(ops: seq<string>): nat {
    multiset(ops)["("]
  }

  /** Popping the top entry to the output leaves the final output unchanged. */
  lemma DrainPop(c: Conversion)
    requires c.operations != []
    ensures var ops := c.operations;
      Drain(Conversion(ops[..|ops| - 1], c.postfix + [ops[|ops| - 1]])) == Drain(c)
  {
    var ops := c.operations;
    var rest := Reversed(ops[..|ops| - 1]);
    assert Reversed(ops) == [ops[|ops| - 1]] + rest;
    assert c.postfix + [ops[|ops| - 1]] + rest == c.postfix + ([ops[|ops| - 1]] + rest);
  }

  /** The pops of an operator token move stacked entries above `(` to the
      output: the final output is unchanged and no `(` moves. */
  lemma {:induction false} PopAboveMoves(c: Conversion, p: nat)
    requires Stackable(c.operations)
    ensures Drain(PopAbove(c, p)) == Drain(c)
    ensures Depth(PopAbove(c, p).operations) == Depth(c.operations)
    ensures Filter(PopAbove(c, p).postfix, IsNumeric) == Filter(c.postfix, IsNumeric)
    decreases |c.operations|
  {
    var ops := c.operations;
    if ops != [] && p < Precedence[ops[|ops| - 1]] {
      var top := ops[|ops| - 1];
      var d := Conversion(ops[..|ops| - 1], c.postfix + [top]);
      PopOneMoves(c, p);
      PopAboveMoves(d, p);
    }
  }

  /** One pop of that `while`. */
  lemma PopOneMoves(c: Conversion, p: nat)
    requires Stackable(c.operations) && c.operations != []
    requires p < Precedence[c.operations[|c.operations| - 1]]
    ensures var ops := c.operations;
      var d := Conversion(ops[..|ops| - 1], c.postfix + [ops[|ops| - 1]]);
      && Stackable(d.operations)
      && Drain(d) == Drain(c)
      && Depth(d.operations) == Depth(c.operations)
      && Filter(d.postfix, IsNumeric) == Filter(c.postfix, IsNumeric)
  {
    var ops := c.operations;
    var top := ops[|ops| - 1];
    Prefix(ops, ops[..|ops| - 1]);
    DrainPop(c);
    PopOneDepth(ops, p);
    PopOneNumbers(c.postfix, top);
  }

  lemma PopOneDepth(ops: seq<string>, p: nat)
    requires Stackable(ops) && ops != [] && p < Precedence[ops[|ops| - 1]]
    ensures Depth(ops[..|ops| - 1]) == Depth(ops)
  {
    var top := ops[|ops| - 1];
    OpenRankedLowest();
    assert top != "(";
    assert ops == ops[..|ops| - 1] + [top];
    assert multiset(ops) == multiset(ops[..|ops| - 1]) + multiset{top};
  }

  lemma PopOneNumbers(postfix: seq<string>, top: string)
    requires top in Precedence
    ensures Filter(postfix + [top], IsNumeric) == Filter(postfix, IsNumeric)
  {
    SymbolIsNoNumeral(top);
    FilterAppend(postfix, [top], IsNumeric);
    assert [top][..0] == [];
  }

  lemma OpenRankedLowest()
    ensures "(" in Precedence && Precedence["("] == 0
  {
  }

  /** The `)` branch: IndexError exactly when no `(` is stacked; otherwise the
      nearest `(` is dropped, and everything above it moves to the output. */
  lemma {:induction false} CloseGroupMoves(c: Conversion)
    requires Stackable(c.operations)
    ensures CloseGroup(c).Err? <==> Depth(c.operations) == 0
    ensures CloseGroup(c).Ok? ==>
      && Depth(CloseGroup(c).value.operations) + 1 == Depth(c.operations)
      && multiset(Drain(CloseGroup(c).value)) + multiset{"("} == multiset(Drain(c))
      && Filter(CloseGroup(c).value.postfix, IsNumeric) == Filter(c.postfix, IsNumeric)
    decreases |c.operations|
  {
    var ops := c.operations;
    if ops != [] {
      var top := ops[|ops| - 1];
      var init := ops[..|ops| - 1];
      assert ops == init + [top];
      if top == "(" {
        assert Drain(c) == c.postfix + (["("] + Reversed(init));
      } else {
        var d := Conversion(init, c.postfix + [top]);
        Prefix(ops, init);
        DrainPop(c);
        SymbolIsNoNumeral(top);
        FilterAppend(c.postfix, [top], IsNumeric);
        assert [top][..0] == [];
        CloseGroupMoves(d);
      }
    }
  }

  lemma DrainPush(c: Conversion, x: string)
    ensures multiset(Drain(Conversion(c.operations + [x], c.postfix))) == multiset(Drain(c)) + multiset{x}
  {
    var ops := c.operations + [x];
    assert ops[..|ops| - 1] == c.operations;
    assert Reversed(ops) == [x] + Reversed(c.operations);
  }

  /** The tokens that reach the output themselves: keys of `OPERATORS` and numerals. */
  predicate Emitted(t: string) { t in Operators || IsNumeric(t) }

  /** One token: `(` is stacked, `)` unstacks the nearest `(` and raises
      IndexError when there is none; nothing else touches a `(`. */
  lemma StepDepth(c: Conversion, t: string)
    requires Stackable(c.operations)
    ensures Step(c, t).Err? <==> t == ")" && Depth(c.operations) == 0
    ensures Step(c, t).Err? ==> Step(c, t).error == IndexError
    ensures Step(c, t).Ok? ==>
      Depth(Step(c, t).value.operations) + (if t == ")" then 1 else 0) == Depth(c.operations) + (if t == "(" then 1 else 0)
  {
    Plain(t);
    if IsBlank(t) {
    } else if t == ")" {
      CloseGroupMoves(c);
    } else if t in Operators {
      OperatorRanked(t);
      PopAboveMoves(c, Precedence[t]);
    }
  }

  /** One token: a key of `OPERATORS` or a numeral joins the output sooner or
      later, `(` waits on the stack, `)` removes a `(`, and anything else is
      dropped. */
  lemma StepCount(c: Conversion, t: string)
    requires Stackable(c.operations) && Step(c, t).Ok?
    ensures multiset(Drain(Step(c, t).value)) + (if t == ")" then multiset{"("} else multiset{}) ==
      multiset(Drain(c)) + (if t == "(" || Emitted(t) then multiset{t} else multiset{})
  {
    if t in Operators {
      OperatorRanked(t);
      OperatorCount(c, t);
    } else if IsNumeric(t) {
      NumeralStep(c, t);
      assert Drain(Step(c, t).value) == c.postfix + [t] + Reversed(c.operations);
    } else if t == "(" {
      SymbolIsNoNumeral(t);
      DrainPush(c, t);
    } else if t == ")" {
      SymbolIsNoNumeral(t);
      CloseGroupMoves(c);
    } else {
      assert Step(c, t) == Ok(c);
    }
  }

  /** A numeral token is appended to the output. */
  lemma NumeralStep(c: Conversion, t: string)
    requires Stackable(c.operations) && IsNumeric(t)
    ensures Step(c, t) == Ok(Conversion(c.operations, c.postfix + [t]))
  {
    NumeralIsNoSymbol(t);
  }

  lemma OperatorCount(c: Conversion, t: string)
    requires Stackable(c.operations) && t in Operators
    ensures Step(c, t).Ok?
    ensures multiset(Drain(Step(c, t).value)) == multiset(Drain(c)) + multiset{t}
  {
    OperatorRanked(t);
    var e := PopAbove(c, Precedence[t]);
    OperatorStep(c, t);
    PopAboveMoves(c, Precedence[t]);
    DrainPush(e, t);
  }

  /** An operator token pops what outranks it, then is stacked. */
  lemma OperatorStep(c: Conversion, t: string)
    requires Stackable(c.operations) && t in Operators
    ensures t in Precedence
    ensures Step(c, t) == Ok(Conversion(PopAbove(c, Precedence[t]).operations + [t], PopAbove(c, Precedence[t]).postfix))
  {
    OperatorRanked(t);
    assert !IsWhitespace(t[0]);
    assert !IsBlank(t);
  }

  /** One token: a numeral is appended to the output, and whatever else moves
      there is not a numeral. */
  lemma StepNumbers(c: Conversion, t: string)
    requires Stackable(c.operations) && Step(c, t).Ok?
    ensures Filter(Step(c, t).value.postfix, IsNumeric) == Filter(c.postfix, IsNumeric) + (if IsNumeric(t) then [t] else [])
  {
    Plain(t);
    if IsBlank(t) {
    } else if t == ")" {
      CloseGroupMoves(c);
    } else if t in Operators {
      OperatorNumbers(c, t);
    } else if IsNumeric(t) {
      FilterAppend(c.postfix, [t], IsNumeric);
      assert [t][..0] == [];
    }
  }

  lemma OperatorNumbers(c: Conversion, t: string)
    requires Stackable(c.operations) && t in Operators
    ensures Step(c, t).Ok? && !IsNumeric(t)
    ensures Filter(Step(c, t).value.postfix, IsNumeric) == Filter(c.postfix, IsNumeric)
  {
    OperatorStep(c, t);
    SymbolIsNoNumeral(t);
    PopAboveMoves(c, Precedence[t]);
  }

  /** The facts the case split of `Step` needs about a token. */
  lemma Plain(t: string)
    ensures t in Precedence || t == ")" ==> !IsBlank(t) && !IsNumeric(t)
    ensures IsNumeric(t) ==> !IsBlank(t) && t != ")" && t !in Precedence
  {
    if t in Precedence || t == ")" {
      SymbolIsNoNumeral(t);
    }
    if IsNumeric(t) {
      NumeralIsNoSymbol(t);
    }
  }

  lemma FilterHead(ts: seq<string>, keep: string -> bool)
    requires ts != []
    ensures Filter(ts, keep) == (if keep(ts[0]) then [ts[0]] else []) + Filter(ts[1..], keep)
  {
    assert ts == [ts[0]] + ts[1..];
    FilterAppend([ts[0]], ts[1..], keep);
    assert [ts[0]][..0] == [];
  }

  lemma ConvertHead(c: Conversion, ts: seq<string>)
    requires Stackable(c.operations) && ts != []
    ensures Convert(c, ts) == if Step(c, ts[0]).Ok? then Convert(Step(c, ts[0]).value, ts[1..]) else Err(Step(c, ts[0]).error)
  {
  }

  // ---------------------------------------------------------------------------
  // to_postfix: parentheses

  /** Some prefix of `ts` closes more groups than `d` stacked `(` and the `(`
      of the prefix itself open. */
  predicate ClosesUnopened(d: nat, ts: seq<string>) {
    exists j :: 0 < j <= |ts| && d + multiset(ts[..j])["("] < multiset(ts[..j])[")"]
  }

  lemma PrefixCounts(ts: seq<string>, j: nat)
    requires 0 < j <= |ts|
    ensures multiset(ts[..j]) == multiset{ts[0]} + multiset(ts[1..][..j - 1])
  {
    assert ts[..j] == [ts[0]] + ts[1..][..j - 1];
  }

  /** After the first token, `d` moves the way the stack depth does. */
  function Opened(d: nat, t: string): nat {
    if t == "(" then d + 1 else if t == ")" && d > 0 then d - 1 else d
  }

  lemma ClosesUnopenedHead(d: nat, ts: seq<string>)
    requires ts != []
    ensures ClosesUnopened(d, ts) <==> (ts[0] == ")" && d == 0) || ClosesUnopened(Opened(d, ts[0]), ts[1..])
  {
    if ClosesUnopened(d, ts) {
      ClosesUnopenedTail(d, ts);
    }
    if ts[0] == ")" && d == 0 {
      PrefixCounts(ts, 1);
      assert d + multiset(ts[..1])["("] < multiset(ts[..1])[")"];
    } else if ClosesUnopened(Opened(d, ts[0]), ts[1..]) {
      var rest := ts[1..];
      var j :| 0 < j <= |rest| && Opened(d, ts[0]) + multiset(rest[..j])["("] < multiset(rest[..j])[")"];
      PrefixCounts(ts, j + 1);
      assert d + multiset(ts[..j + 1])["("] < multiset(ts[..j + 1])[")"];
    }
  }

  lemma ClosesUnopenedTail(d: nat, ts: seq<string>)
    requires ts != [] && ClosesUnopened(d, ts)
    ensures (ts[0] == ")" && d == 0) || ClosesUnopened(Opened(d, ts[0]), ts[1..])
  {
    var j :| 0 < j <= |ts| && d + multiset(ts[..j])["("] < multiset(ts[..j])[")"];
    PrefixCounts(ts, j);
    if !(ts[0] == ")" && d == 0) {
      var rest := ts[1..];
      assert 1 < j;
      assert Opened(d, ts[0]) + multiset(rest[..j - 1])["("] < multiset(rest[..j - 1])[")"];
    }
  }

  /** `to_postfix` raises IndexError exactly when some `)` finds no `(` to
      close, counting from `d` stacked `(`; it raises nothing else. */
  lemma {:induction false} ConvertBalance(c: Conversion, ts: seq<string>)
    requires Stackable(c.operations)
    ensures Convert(c, ts).Err? <==> ClosesUnopened(Depth(c.operations), ts)
    ensures Convert(c, ts).Err? ==> Convert(c, ts).error == IndexError
    decreases |ts|
  {
    if ts != [] {
      StepDepth(c, ts[0]);
      ClosesUnopenedHead(Depth(c.operations), ts);
      if Step(c, ts[0]).Ok? {
        ConvertBalance(Step(c, ts[0]).value, ts[1..]);
      }
    }
  }

  /** `to_postfix(expression)` raises IndexError exactly when a `)` closes a group
      no `(` opened. */
  lemma ShuntBalance(ts: seq<string>)
    ensures Shunt(ts).Err? <==> ClosesUnopened(0, ts)
    ensures Shunt(ts).Err? ==> Shunt(ts).error == IndexError
  {
    ConvertBalance(Conversion([], []), ts);
  }

  // ---------------------------------------------------------------------------
  // to_postfix: what reaches the output

  /** Over a run of tokens, the output gains each key of `OPERATORS` and each
      numeral once, and each `(` that no `)` closed. */
  lemma {:induction false} ConvertCount(c: Conversion, ts: seq<string>, x: string)
    requires Stackable(c.operations) && Convert(c, ts).Ok?
    ensures multiset(Drain(Convert(c, ts).value))[x] + (if x == "(" then multiset(ts)[")"] else 0) ==
      multiset(Drain(c))[x] + (if x == "(" then multiset(ts)["("] else multiset(Filter(ts, Emitted))[x])
    decreases |ts|
  {
    if ts == [] {
      assert Convert(c, ts) == Ok(c);
    } else {
      var t, rest := ts[0], ts[1..];
      ConvertHead(c, ts);
      var d := Step(c, t).value;
      StepCountAt(c, t, x);
      ConvertCount(d, rest, x);
      FilterHead(ts, Emitted);
      MultisetHead(ts);
      ParenthesesNotEmitted();
    }
  }

  lemma MultisetHead(ts: seq<string>)
    requires ts != []
    ensures multiset(ts) == multiset{ts[0]} + multiset(ts[1..])
  {
    assert ts == [ts[0]] + ts[1..];
  }

  lemma ParenthesesNotEmitted()
    ensures !Emitted("(") && !Emitted(")")
  {
    NotNumeric("(", 0);
    NotNumeric(")", 0);
  }

  /** `StepCount`, entry by entry. */
  lemma StepCountAt(c: Conversion, t: string, x: string)
    requires Stackable(c.operations) && Step(c, t).Ok?
    ensures multiset(Drain(Step(c, t).value))[x] + (if t == ")" && x == "(" then 1 else 0) ==
      multiset(Drain(c))[x] + (if (t == "(" || Emitted(t)) && t == x then 1 else 0)
  {
    StepCount(c, t);
    var after := multiset(Drain(Step(c, t).value));
    var before := multiset(Drain(c));
    var removed := if t == ")" then multiset{"("} else multiset{};
    var added := if t == "(" || Emitted(t) then multiset{t} else multiset{};
    assert after + removed == before + added;
    assert (after + removed)[x] == after[x] + removed[x];
    assert (before + added)[x] == before[x] + added[x];
  }

  /** `to_postfix` outputs every key of `OPERATORS` and every numeral of its
      input once, no `)`, and each `(` that no `)` closed; nothing else. */
  lemma ShuntCounts(ts: seq<string>)
    requires Shunt(ts).Ok?
    ensures forall x :: x != "(" ==> multiset(Shunt(ts).value)[x] == multiset(Filter(ts, Emitted))[x]
    ensures multiset(Shunt(ts).value)["("] + multiset(ts)[")"] == multiset(ts)["("]
    ensures ")" !in Shunt(ts).value
  {
    var c := Conversion([], []);
    var out := Shunt(ts).value;
    assert out == Drain(Convert(c, ts).value);
    assert multiset(Drain(c)) == multiset{};
    forall x | x != "("
      ensures multiset(out)[x] == multiset(Filter(ts, Emitted))[x]
    {
      ConvertCount(c, ts, x);
    }
    ConvertCount(c, ts, "(");
    ParenthesesNotEmitted();
    FilterKeeps(ts, Emitted, ")");
    assert multiset(out)[")"] == 0;
  }

  lemma {:induction false} FilterKeeps(ts: seq<string>, keep: string -> bool, x: string)
    requires !keep(x)
    ensures x !in Filter(ts, keep)
    decreases |ts|
  {
    if ts != [] {
      FilterKeeps(ts[..|ts| - 1], keep, x);
    }
  }

  lemma {:induction false} ConvertNumbers(c: Conversion, ts: seq<string>)
    requires Stackable(c.operations) && Convert(c, ts).Ok?
    ensures Filter(Convert(c, ts).value.postfix, IsNumeric) == Filter(c.postfix, IsNumeric) + Filter(ts, IsNumeric)
    decreases |ts|
  {
    if ts == [] {
      assert Convert(c, ts) == Ok(c);
      assert Filter(ts, IsNumeric) == [];
    } else {
      var t, rest := ts[0], ts[1..];
      var d := Step(c, t).value;
      assert Convert(c, ts) == Convert(d, rest);
      StepNumbers(c, t);
      ConvertNumbers(d, rest);
      FilterHead(ts, IsNumeric);
      AppendAssociates(Filter(c.postfix, IsNumeric), if IsNumeric(t) then [t] else [], Filter(rest, IsNumeric));
    }
  }

  lemma AppendAssociates(a: seq<string>, b: seq<string>, c: seq<string>)
    ensures a + b + c == a + (b + c)
  {
  }

  /** What is still stacked at the end holds no numeral. */
  lemma {:induction false} NumbersOfDrain(c: Conversion)
    requires Stackable(c.operations)
    ensures Filter(Drain(c), IsNumeric) == Filter(c.postfix, IsNumeric)
    decreases |c.operations|
  {
    var ops := c.operations;
    if ops == [] {
      assert Drain(c) == c.postfix;
    } else {
      var d := Conversion(ops[..|ops| - 1], c.postfix + [ops[|ops| - 1]]);
      Prefix(ops, d.operations);
      DrainPop(c);
      NumbersOfDrain(d);
      SymbolIsNoNumeral(ops[|ops| - 1]);
      FilterAppend(c.postfix, [ops[|ops| - 1]], IsNumeric);
      assert [ops[|ops| - 1]][..0] == [];
    }
  }

  /** Numbers reach the output of `to_postfix` in input order. */
  lemma ShuntKeepsNumberOrder(ts: seq<string>)
    requires Shunt(ts).Ok?
    ensures Filter(Shunt(ts).value, IsNumeric) == Filter(ts, IsNumeric)
  {
    var c := Conversion([], []);
    ConvertNumbers(c, ts);
    NumbersOfDrain(Convert(c, ts).value);
    assert Filter([], IsNumeric) == [];
  }

  // ---------------------------------------------------------------------------
  // to_postfix: the shape of the stack

  /** Between `(` markers the stacked precedences never fall from bottom to top. */
  predicate Climbing(ops: seq<string>)
    requires Stackable(ops)
  {
    forall k :: 0 < k < |ops| && ops[k] != "(" ==> Precedence[ops[k - 1]] <= Precedence[ops[k]]
  }

  lemma ClimbingPrefix(ops: seq<string>, q: seq<string>)
    requires Stackable(ops) && Climbing(ops) && q <= ops
    ensures Stackable(q) && Climbing(q)
  {
    Prefix(ops, q);
    forall k | 0 < k < |q| && q[k] != "("
      ensures Precedence[q[k - 1]] <= Precedence[q[k]]
    {
      assert q[k] == ops[k] && q[k - 1] == ops[k - 1];
    }
  }

  lemma ClimbingPush(ops: seq<string>, t: string)
    requires Stackable(ops) && Climbing(ops) && t in Precedence
    requires t == "(" || ops == [] || Precedence[ops[|ops| - 1]] <= Precedence[t]
    ensures Stackable(ops + [t]) && Climbing(ops + [t])
  {
    Push(ops, t);
    var q := ops + [t];
    forall k | 0 < k < |q| && q[k] != "("
      ensures Precedence[q[k - 1]] <= Precedence[q[k]]
    {
      if k < |ops| {
        assert q[k] == ops[k] && q[k - 1] == ops[k - 1];
      }
    }
  }

  /** An operator token stacks itself only once nothing above the nearest `(`
      outranks it, so every step keeps the stack climbing. */
  lemma StepClimbing(c: Conversion, t: string)
    requires Stackable(c.operations) && Climbing(c.operations) && Step(c, t).Ok?
    ensures Climbing(Step(c, t).value.operations)
  {
    if t in Operators {
      OperatorClimbing(c, t);
    } else if t == ")" {
      SymbolIsNoNumeral(t);
      ClimbingPrefix(c.operations, CloseGroup(c).value.operations);
    } else if t == "(" {
      SymbolIsNoNumeral(t);
      ClimbingPush(c.operations, t);
    } else {
      PassStep(c, t);
    }
  }

  lemma OperatorClimbing(c: Conversion, t: string)
    requires Stackable(c.operations) && Climbing(c.operations) && t in Operators
    ensures Step(c, t).Ok? && Climbing(Step(c, t).value.operations)
  {
    OperatorStep(c, t);
    ClimbingAfterPop(c, t);
  }

  lemma ClimbingAfterPop(c: Conversion, t: string)
    requires Stackable(c.operations) && Climbing(c.operations) && t in Precedence
    ensures var e := PopAbove(c, Precedence[t]);
      Stackable(e.operations + [t]) && Climbing(e.operations + [t])
  {
    var e := PopAbove(c, Precedence[t]);
    ClimbingPrefix(c.operations, e.operations);
    ClimbingPush(e.operations, t);
  }

  /** A token that is neither a parenthesis nor an operator leaves the stack alone. */
  lemma PassStep(c: Conversion, t: string)
    requires Stackable(c.operations) && t !in Operators && t != "(" && t != ")"
    ensures Step(c, t).Ok? && Step(c, t).value.operations == c.operations
  {
  }

  /** The stack of `to_postfix` climbs between `(` markers at every step. */
  lemma {:induction false} ConvertClimbing(c: Conversion, ts: seq<string>)
    requires Stackable(c.operations) && Climbing(c.operations) && Convert(c, ts).Ok?
    ensures Climbing(Convert(c, ts).value.operations)
    decreases |ts|
  {
    if ts == [] {
      assert Convert(c, ts) == Ok(c);
    } else {
      var d := Step(c, ts[0]).value;
      assert Convert(c, ts) == Convert(d, ts[1..]);
      StepClimbing(c, ts[0]);
      ConvertClimbing(d, ts[1..]);
    }
  }

  // ---------------------------------------------------------------------------
  // Postfix forms of expression trees, and what `evaluate` computes from them

  /** An expression tree over operand strings, `neg` and the binary keys of
      `OPERATORS`. */
  datatype Expr =
    | Leaf(text: string)
    | Negate(arg: Expr)
    | Infix(op: string, left: Expr, right: Expr)

  /** Leaves are not operators, and inner nodes use a binary key of `OPERATORS`. */
  predicate WellFormed(e: Expr) {
    match e
    case Leaf(s) => s !in Operators
    case Negate(arg) => WellFormed(arg)
    case Infix(op, l, r) => op in Operators && op != "neg" && WellFormed(l) && WellFormed(r)
  }

  /** The postfix form of a tree: operands first, left before right, then the operator. */
  function Emit(e: Expr): seq<string> {
    match e
    case Leaf(s) => [s]
    case Negate(arg) => Emit(arg) + ["neg"]
    case Infix(op, l, r) => Emit(l) + Emit(r) + [op]
  }

  /** The value of a tree, computed from its structure: a leaf is its string, `neg`
      negates its operand as a `Decimal`, and a binary node applies its operator
      to the `Decimal`s of its operands, the left one converted first. */
  function Eval(e: Expr): Result<Entry>
    requires WellFormed(e)
  {
    match e
    case Leaf(s) => Ok(Text(s))
    case Negate(arg) =>
      (match Eval(arg)
       case Err(x) => Err(x)
       case Ok(v) =>
         match ToDecimal(v)
         case Err(x) => Err(x)
         case Ok(d) => Ok(Dec(-d)))
    case Infix(op, l, r) =>
      match Eval(l)
      case Err(x) => Err(x)
      case Ok(a) =>
        match Eval(r)
        case Err(x) => Err(x)
        case Ok(b) =>
          match ToDecimal(a)
          case Err(x) => Err(x)
          case Ok(da) =>
            match ToDecimal(b)
            case Err(x) => Err(x)
            case Ok(db) =>
              match Arithmetic(op, da, db)
              case Err(x) => Err(x)
              case Ok(y) => Ok(Dec(y))
  }

  /** `neg` pops the top entry and pushes its negation in its place; the entries
      below are untouched. */
  lemma ApplyNegation(below: seq<Entry>, v: Entry)
    ensures var y := ToDecimal(v);
      ApplyOperator("neg", below + [v]) == if y.Ok? then Ok(below + [Dec(-y.value)]) else Err(y.error)
  {
    assert (below + [v])[..|below|] == below;
  }

  /** A binary key pops the second operand, then the first, and pushes
      `op(first, second)`; the entries below are untouched. */
  lemma ApplyBinary(op: string, below: seq<Entry>, first: Entry, second: Entry)
    requires op in Operators && op != "neg"
    ensures var a := ToDecimal(first);
      var b := ToDecimal(second);
      ApplyOperator(op, below + [first, second]) ==
        if a.Err? then Err(a.error)
        else if b.Err? then Err(b.error)
        else if Arithmetic(op, a.value, b.value).Err? then Err(Arithmetic(op, a.value, b.value).error)
        else Ok(below + [Dec(Arithmetic(op, a.value, b.value).value)])
  {
    assert (below + [first, second])[..|below|] == below;
  }

  lemma RunPrepend(results: seq<Entry>, t: string, rest: seq<string>)
    ensures var next := Reduce(results, t);
      Run(results, [t] + rest) == if next.Ok? then Run(next.value, rest) else Err(next.error)
  {
    assert ([t] + rest)[1..] == rest;
  }

  /** The `results` loop evaluates the postfix form of a tree to the tree's value,
      pushed on top of whatever the stack held. */
  lemma {:induction false} RunEmit(results: seq<Entry>, e: Expr, rest: seq<string>)
    requires WellFormed(e)
    ensures var v := Eval(e);
      Run(results, Emit(e) + rest) == if v.Ok? then Run(results + [v.value], rest) else Err(v.error)
    decreases e, 1
  {
    match e
    case Leaf(s) =>
      RunPrepend(results, s, rest);
    case Negate(arg) =>
      RunEmitNegate(results, arg, rest);
    case Infix(op, l, r) =>
      RunEmitInfix(results, op, l, r, rest);
  }

  lemma {:induction false} RunEmitNegate(results: seq<Entry>, arg: Expr, rest: seq<string>)
    requires WellFormed(arg)
    ensures var v := Eval(Negate(arg));
      Run(results, Emit(Negate(arg)) + rest) == if v.Ok? then Run(results + [v.value], rest) else Err(v.error)
    decreases Negate(arg), 0
  {
    assert Emit(Negate(arg)) + rest == Emit(arg) + (["neg"] + rest);
    RunEmit(results, arg, ["neg"] + rest);
    NegateValue(arg);
    if Eval(arg).Ok? {
      NegationStep(results, Eval(arg).value, rest);
    }
  }

  lemma NegateValue(arg: Expr)
    requires WellFormed(arg)
    ensures Eval(arg).Err? ==> Eval(Negate(arg)) == Err(Eval(arg).error)
    ensures Eval(arg).Ok? ==> var y := ToDecimal(Eval(arg).value);
      Eval(Negate(arg)) == if y.Ok? then Ok(Dec(-y.value)) else Err(y.error)
  {
  }

  lemma NegationStep(below: seq<Entry>, v: Entry, rest: seq<string>)
    ensures var y := ToDecimal(v);
      Run(below + [v], ["neg"] + rest) == if y.Ok? then Run(below + [Dec(-y.value)], rest) else Err(y.error)
  {
    RunPrepend(below + [v], "neg", rest);
    ApplyNegation(below, v);
  }

  lemma {:induction false} RunEmitInfix(results: seq<Entry>, op: string, l: Expr, r: Expr, rest: seq<string>)
    requires WellFormed(Infix(op, l, r))
    ensures var v := Eval(Infix(op, l, r));
      Run(results, Emit(Infix(op, l, r)) + rest) == if v.Ok? then Run(results + [v.value], rest) else Err(v.error)
    decreases Infix(op, l, r), 0
  {
    assert Emit(Infix(op, l, r)) + rest == Emit(l) + (Emit(r) + ([op] + rest));
    RunEmit(results, l, Emit(r) + ([op] + rest));
    if Eval(l).Ok? {
      var a := Eval(l).value;
      RunEmit(results + [a], r, [op] + rest);
      if Eval(r).Ok? {
        var b := Eval(r).value;
        RunPrepend(results + [a] + [b], op, rest);
        assert results + [a] + [b] == results + [a, b];
        ApplyBinary(op, results, a, b);
      }
    }
  }

  /** Evaluating the postfix form of a tree from an empty stack gives its value. */
  lemma OutcomeOfEmit(e: Expr)
    requires WellFormed(e)
    ensures Outcome(Emit(e)) == Eval(e)
  {
    RunEmit([], e, []);
    assert Emit(e) + [] == Emit(e);
    if Eval(e).Ok? {
      assert Run([Eval(e).value], []) == Ok([Eval(e).value]);
    }
  }

  // ---------------------------------------------------------------------------
  // Equal-precedence operators group to the right

  /** Pairs `op text` following the first operand of a chain. */
  type Link = (string, string)

  /** The tokens `op1 text1 op2 text2 ...`. */
  function Links(rest: seq<Link>): seq<string>
    decreases |rest|
  {
    if rest == [] then [] else [rest[0].0, rest[0].1] + Links(rest[1..])
  }

  /** The tokens `first op1 text1 op2 text2 ...`. */
  function Chain(first: string, rest: seq<Link>): seq<string> {
    [first] + Links(rest)
  }

  function Ops(rest: seq<Link>): seq<string>
    decreases |rest|
  {
    if rest == [] then [] else [rest[0].0] + Ops(rest[1..])
  }

  function Texts(rest: seq<Link>): seq<string>
    decreases |rest|
  {
    if rest == [] then [] else [rest[0].1] + Texts(rest[1..])
  }

  /** The chain grouped to the right: `first op1 (text1 op2 (text2 ...))`. */
  function RightTree(first: string, rest: seq<Link>): Expr
    decreases |rest|
  {
    if rest == [] then Leaf(first) else Infix(rest[0].0, Leaf(first), RightTree(rest[0].1, rest[1..]))
  }

  /** Links whose binary operators share the precedence `p`, each followed by a numeral. */
  predicate EvenLinks(rest: seq<Link>, p: nat) {
    && 1 <= p
    && forall k :: 0 <= k < |rest| ==>
         rest[k].0 in Precedence && Precedence[rest[k].0] == p && rest[k].0 != "neg" && IsNumeric(rest[k].1)
  }

  lemma EvenLinksTail(rest: seq<Link>, p: nat)
    requires EvenLinks(rest, p) && rest != []
    ensures EvenLinks(rest[1..], p)
    ensures rest[0].0 in Precedence && Precedence[rest[0].0] == p && rest[0].0 != "neg" && IsNumeric(rest[0].1)
  {
    forall k | 0 <= k < |rest| - 1
      ensures rest[1..][k] == rest[k + 1]
    {
    }
  }

  lemma RankedOperator(t: string)
    requires t in Precedence && t != "("
    ensures t in Operators
  {
  }

  /** An operator token meets a stack whose top does not outrank it: nothing is
      popped, and it is stacked. */
  lemma OperatorPushed(c: Conversion, o: string)
    requires Stackable(c.operations) && o in Precedence && o in Operators
    requires c.operations == [] || Precedence[c.operations[|c.operations| - 1]] <= Precedence[o]
    ensures Step(c, o) == Ok(Conversion(c.operations + [o], c.postfix))
  {
    OperatorStep(c, o);
    assert PopAbove(c, Precedence[o]) == c;
  }

  /** A link `o x` on such a stack: `o` is stacked and the numeral `x` appended. */
  lemma LinkStep(c: Conversion, o: string, x: string, tail: seq<string>)
    requires Stackable(c.operations) && o in Precedence && o in Operators && IsNumeric(x)
    requires c.operations == [] || Precedence[c.operations[|c.operations| - 1]] <= Precedence[o]
    ensures Stackable(c.operations + [o])
    ensures Convert(c, [o, x] + tail) == Convert(Conversion(c.operations + [o], c.postfix + [x]), tail)
  {
    OperatorPushed(c, o);
    Push(c.operations, o);
    var d := Conversion(c.operations + [o], c.postfix);
    NumeralStep(d, x);
    ConvertPair(c, d, Conversion(d.operations, d.postfix + [x]), o, x, tail);
  }

  /** Two tokens that both step without error. */
  lemma ConvertPair(c: Conversion, d: Conversion, e: Conversion, t: string, u: string, tail: seq<string>)
    requires Stackable(c.operations) && Stackable(d.operations)
    requires Step(c, t) == Ok(d) && Step(d, u) == Ok(e)
    ensures Convert(c, [t, u] + tail) == Convert(e, tail)
  {
    assert ([t, u] + tail)[1..] == [u] + tail;
    ConvertHead(c, [t, u] + tail);
    assert ([u] + tail)[1..] == tail;
    ConvertHead(d, [u] + tail);
  }

  /** Over the links of a chain nothing is popped: the operators pile up and
      the numerals go straight to the output. */
  lemma {:induction false} ChainConvert(ops: seq<string>, postfix: seq<string>, rest: seq<Link>, p: nat)
    requires EvenLinks(rest, p)
    requires Stackable(ops) && (ops == [] || Precedence[ops[|ops| - 1]] <= p)
    ensures Convert(Conversion(ops, postfix), Links(rest)) == Ok(Conversion(ops + Ops(rest), postfix + Texts(rest)))
    decreases |rest|
  {
    if rest == [] {
      assert ops + [] == ops && postfix + [] == postfix;
    } else {
      var o, x := rest[0].0, rest[0].1;
      EvenLinksTail(rest, p);
      RankedOperator(o);
      LinkStep(Conversion(ops, postfix), o, x, Links(rest[1..]));
      ChainConvert(ops + [o], postfix + [x], rest[1..], p);
      LinksCons(ops, postfix, rest);
    }
  }

  lemma LinksCons(ops: seq<string>, postfix: seq<string>, rest: seq<Link>)
    requires rest != []
    ensures Links(rest) == [rest[0].0, rest[0].1] + Links(rest[1..])
    ensures ops + [rest[0].0] + Ops(rest[1..]) == ops + Ops(rest)
    ensures postfix + [rest[0].1] + Texts(rest[1..]) == postfix + Texts(rest)
  {
  }

  /** `to_postfix` emits a chain's numerals, then its operators last first. */
  lemma ShuntChain(first: string, rest: seq<Link>, p: nat)
    requires IsNumeric(first) && EvenLinks(rest, p)
    ensures Shunt(Chain(first, rest)) == Ok([first] + Texts(rest) + Reversed(Ops(rest)))
  {
    var c := Conversion([], []);
    NumeralStep(c, first);
    assert Chain(first, rest)[0] == first;
    assert Chain(first, rest)[1..] == Links(rest);
    ConvertHead(c, Chain(first, rest));
    ChainConvert([], [first], rest, p);
    assert [] + Ops(rest) == Ops(rest) && [] + [first] == [first];
    assert Convert(c, Chain(first, rest)) == Ok(Conversion(Ops(rest), [first] + Texts(rest)));
  }

  lemma {:induction false} EmitRightTree(first: string, rest: seq<Link>)
    ensures Emit(RightTree(first, rest)) == [first] + Texts(rest) + Reversed(Ops(rest))
    decreases |rest|
  {
    if rest == [] {
      assert Reversed<string>([]) == [];
    } else {
      var o, x := rest[0].0, rest[0].1;
      EmitRightTree(x, rest[1..]);
      ReversedCons(o, Ops(rest[1..]));
    }
  }

  lemma {:induction false} RightTreeWellFormed(first: string, rest: seq<Link>, p: nat)
    requires IsNumeric(first) && EvenLinks(rest, p)
    ensures WellFormed(RightTree(first, rest))
    decreases |rest|
  {
    NumeralIsNoSymbol(first);
    if rest != [] {
      EvenLinksTail(rest, p);
      RankedOperator(rest[0].0);
      RightTreeWellFormed(rest[0].1, rest[1..], p);
    }
  }

  /** `to_postfix` groups a chain of equal-precedence operators to the right:
      none is popped by the next one. */
  lemma ChainGroupsRight(first: string, rest: seq<Link>, p: nat)
    requires IsNumeric(first) && EvenLinks(rest, p)
    ensures Shunt(Chain(first, rest)) == Ok(Emit(RightTree(first, rest)))
  {
    ShuntChain(first, rest, p);
    EmitRightTree(first, rest);
  }

  /** So `evaluate` computes such a chain from right to left. */
  lemma ChainEvaluatesRight(first: string, rest: seq<Link>, p: nat)
    requires IsNumeric(first) && EvenLinks(rest, p)
    ensures WellFormed(RightTree(first, rest)) && Shunt(Chain(first, rest)).Ok?
    ensures Outcome(Shunt(Chain(first, rest)).value) == Eval(RightTree(first, rest))
  {
    ChainGroupsRight(first, rest, p);
    RightTreeWellFormed(first, rest, p);
    OutcomeOfEmit(RightTree(first, rest));
  }

  /** `a - b - c` is the chain `a (- b) (- c)`, grouped as `a - (b - c)`. */
  lemma MinusChainTokens(a: string, b: string, c: string)
    ensures Chain(a, [("-", b), ("-", c)]) == [a, "-", b, "-", c]
    ensures RightTree(a, [("-", b), ("-", c)]) == Infix("-", Leaf(a), Infix("-", Leaf(b), Leaf(c)))
  {
    var rest := [("-", b), ("-", c)];
    var tail := rest[1..];
    assert tail == [("-", c)] && tail[1..] == [];
    assert Links(tail) == ["-", c] + Links([]);
    assert Links(rest) == ["-", b] + Links(tail);
    assert RightTree(c, tail[1..]) == Leaf(c);
    assert RightTree(b, tail) == Infix("-", Leaf(b), Leaf(c));
  }

  /** `a - b - c` becomes `a b c - -`. */
  lemma MinusChainPostfix(a: string, b: string, c: string)
    requires IsNumeric(a) && IsNumeric(b) && IsNumeric(c)
    ensures Shunt([a, "-", b, "-", c]) == Ok([a, b, c, "-", "-"])
  {
    var rest := [("-", b), ("-", c)];
    MinusLinks(b, c);
    MinusChainTokens(a, b, c);
    ChainGroupsRight(a, rest, 1);
    MinusTreeEmit(a, b, c);
  }

  lemma MinusLinks(b: string, c: string)
    requires IsNumeric(b) && IsNumeric(c)
    ensures EvenLinks([("-", b), ("-", c)], 1)
  {
    assert "-" in Precedence && Precedence["-"] == 1;
  }

  lemma MinusTreeEmit(a: string, b: string, c: string)
    ensures Emit(Infix("-", Leaf(a), Infix("-", Leaf(b), Leaf(c)))) == [a, b, c, "-", "-"]
  {
    assert Emit(Infix("-", Leaf(b), Leaf(c))) == [b, c, "-"];
    assert Emit(Infix("-", Leaf(a), Infix("-", Leaf(b), Leaf(c)))) == [a] + [b, c, "-"] + ["-"];
  }

  /** A numeral leaf evaluates to its text, which converts to its value. */
  lemma NumeralLeaf(a: string)
    requires IsNumeric(a)
    ensures WellFormed(Leaf(a)) && Eval(Leaf(a)) == Ok(Text(a))
    ensures ToDecimal(Text(a)) == Ok(ParseNumber(a).value)
  {
    NumeralIsNoSymbol(a);
  }

  /** A binary node whose operands evaluate and convert. */
  lemma EvalInfix(op: string, l: Expr, r: Expr, x: Entry, y: Entry, z: real)
    requires op in Operators && op != "neg" && WellFormed(l) && WellFormed(r)
    requires Eval(l) == Ok(x) && Eval(r) == Ok(y) && ToDecimal(x).Ok? && ToDecimal(y).Ok?
    requires Arithmetic(op, ToDecimal(x).value, ToDecimal(y).value) == Ok(z)
    ensures WellFormed(Infix(op, l, r)) && Eval(Infix(op, l, r)) == Ok(Dec(z))
  {
  }

  /** The tree `a - (b - c)` is worth `a - (b - c)`. */
  lemma MinusTreeValue(a: string, b: string, c: string)
    requires IsNumeric(a) && IsNumeric(b) && IsNumeric(c)
    ensures WellFormed(Infix("-", Leaf(a), Infix("-", Leaf(b), Leaf(c))))
    ensures Eval(Infix("-", Leaf(a), Infix("-", Leaf(b), Leaf(c)))) ==
      Ok(Dec(ParseNumber(a).value - (ParseNumber(b).value - ParseNumber(c).value)))
  {
    var va, vb, vc := ParseNumber(a).value, ParseNumber(b).value, ParseNumber(c).value;
    NumeralLeaf(a);
    NumeralLeaf(b);
    NumeralLeaf(c);
    assert "-" in Operators;
    EvalInfix("-", Leaf(b), Leaf(c), Text(b), Text(c), vb - vc);
    EvalInfix("-", Leaf(a), Infix("-", Leaf(b), Leaf(c)), Text(a), Dec(vb - vc), va - (vb - vc));
  }

  /** `a - b - c` evaluates to `a - (b - c)`. */
  lemma MinusChainValue(a: string, b: string, c: string)
    requires IsNumeric(a) && IsNumeric(b) && IsNumeric(c)
    ensures Outcome([a, b, c, "-", "-"]) ==
      Ok(Dec(ParseNumber(a).value - (ParseNumber(b).value - ParseNumber(c).value)))
  {
    var rest := [("-", b), ("-", c)];
    MinusLinks(b, c);
    MinusChainTokens(a, b, c);
    MinusChainPostfix(a, b, c);
    ChainEvaluatesRight(a, rest, 1);
    MinusTreeValue(a, b, c);
  }

  /** `8 - 3 - 2` evaluates to 7. */
  lemma EightMinusThreeMinusTwo()
    ensures Shunt(["8", "-", "3", "-", "2"]) == Ok(["8", "3", "2", "-", "-"])
    ensures Outcome(["8", "3", "2", "-", "-"]) == Ok(Dec(7.0))
  {
    DigitNumeral('8');
    DigitNumeral('3');
    DigitNumeral('2');
    assert IsNumeric("8") && IsNumeric("3") && IsNumeric("2");
    MinusChainPostfix("8", "3", "2");
    MinusChainValue("8", "3", "2");
  }

  // ---------------------------------------------------------------------------
  // `neg` shares the precedence of `+`

  /** A `neg` already stacked is not popped by a following `+`: `a neg + b`
      becomes `a b + neg`, the negation of the sum. */
  lemma NegationThenPlus(a: string, b: string)
    requires IsNumeric(a) && IsNumeric(b)
    ensures Shunt([a, "neg", "+", b]) == Ok([a, b, "+", "neg"])
  {
    NegationThenPlusConvert(a, b);
    assert Reversed(["neg", "+"]) == ["+", "neg"];
    assert [a, b] + ["+", "neg"] == [a, b, "+", "neg"];
  }

  /** ... so its value is minus the sum. */
  lemma NegatedSum(a: string, b: string)
    requires IsNumeric(a) && IsNumeric(b)
    ensures Outcome([a, b, "+", "neg"]) == Ok(Dec(-(ParseNumber(a).value + ParseNumber(b).value)))
  {
    var e := Negate(Infix("+", Leaf(a), Leaf(b)));
    assert Emit(Infix("+", Leaf(a), Leaf(b))) == [a] + [b] + ["+"];
    assert Emit(e) == [a, b, "+"] + ["neg"];
    assert [a, b, "+"] + ["neg"] == [a, b, "+", "neg"];
    SumValue(a, b);
    OutcomeOfEmit(e);
  }

  lemma NegationThenPlusConvert(a: string, b: string)
    requires IsNumeric(a) && IsNumeric(b)
    ensures Convert(Conversion([], []), [a, "neg", "+", b]) == Ok(Conversion(["neg", "+"], [a, b]))
  {
    LeadingNegation(a, ["+", b]);
    PlusOverNegation(a, b);
    assert [a, "neg"] + ["+", b] == [a, "neg", "+", b];
  }

  lemma LeadingNegation(a: string, tail: seq<string>)
    requires IsNumeric(a)
    ensures Stackable(["neg"])
    ensures Convert(Conversion([], []), [a, "neg"] + tail) == Convert(Conversion(["neg"], [a]), tail)
  {
    var c0 := Conversion([], []);
    var c1 := Conversion([], [a]);
    NumeralStep(c0, a);
    assert [] + [a] == [a];
    NegationPushed(c1);
    NegationPlusStackable();
    ConvertPair(c0, c1, Conversion(["neg"], [a]), a, "neg", tail);
  }

  lemma NegationPushed(c: Conversion)
    requires c.operations == []
    ensures Step(c, "neg") == Ok(Conversion(["neg"], c.postfix))
  {
    assert "neg" in Precedence && "neg" in Operators;
    OperatorPushed(c, "neg");
    assert [] + ["neg"] == ["neg"];
  }

  lemma NegationPlusStackable()
    ensures "+" in Precedence && "+" in Operators && "neg" in Precedence
    ensures Precedence["neg"] <= Precedence["+"]
    ensures Stackable(["neg"]) && Stackable(["neg", "+"])
  {
  }

  lemma PlusOverNegation(a: string, b: string)
    requires IsNumeric(b)
    ensures Convert(Conversion(["neg"], [a]), ["+", b]) == Ok(Conversion(["neg", "+"], [a, b]))
  {
    var c2 := Conversion(["neg"], [a]);
    var c3 := Conversion(["neg", "+"], [a]);
    var c4 := Conversion(["neg", "+"], [a, b]);
    PlusPushed(a);
    NumeralAppended(["neg", "+"], a, b);
    ConvertPair(c2, c3, c4, "+", b, []);
    assert ["+", b] + [] == ["+", b];
  }

  lemma PlusPushed(a: string)
    ensures Stackable(["neg"]) && Stackable(["neg", "+"])
    ensures Step(Conversion(["neg"], [a]), "+") == Ok(Conversion(["neg", "+"], [a]))
  {
    NegationPlusStackable();
    OperatorPushed(Conversion(["neg"], [a]), "+");
    assert ["neg"] + ["+"] == ["neg", "+"];
  }

  lemma NumeralAppended(ops: seq<string>, a: string, b: string)
    requires Stackable(ops) && IsNumeric(b)
    ensures Step(Conversion(ops, [a]), b) == Ok(Conversion(ops, [a, b]))
  {
    NumeralStep(Conversion(ops, [a]), b);
    assert [a] + [b] == [a, b];
  }

  lemma SumValue(a: string, b: string)
    requires IsNumeric(a) && IsNumeric(b)
    ensures WellFormed(Negate(Infix("+", Leaf(a), Leaf(b))))
    ensures Eval(Negate(Infix("+", Leaf(a), Leaf(b)))) == Ok(Dec(-(ParseNumber(a).value + ParseNumber(b).value)))
  {
    var va, vb := ParseNumber(a).value, ParseNumber(b).value;
    NumeralLeaf(a);
    NumeralLeaf(b);
    assert "+" in Operators;
    var sum := Infix("+", Leaf(a), Leaf(b));
    EvalInfix("+", Leaf(a), Leaf(b), Text(a), Text(b), va + vb);
    EvalNegate(sum, Dec(va + vb));
  }

  /** A negation whose operand evaluates and converts. */
  lemma EvalNegate(arg: Expr, x: Entry)
    requires WellFormed(arg) && Eval(arg) == Ok(x) && ToDecimal(x).Ok?
    ensures WellFormed(Negate(arg)) && Eval(Negate(arg)) == Ok(Dec(-ToDecimal(x).value))
  {
  }

  // ---------------------------------------------------------------------------
  // A bracketed sum

  /** `( a + b ) * c`: the `)` emits the `+` stacked above its `(`, so the sum is
      taken before the product. */
  lemma BracketedSum(a: string, b: string, c: string)
    requires IsNumeric(a) && IsNumeric(b) && IsNumeric(c)
    ensures Shunt(["(", a, "+", b, ")", "*", c]) == Ok([a, b, "+", c, "*"])
  {
    var tail := [")", "*", c];
    OpenThenNumeral(a, ["+", b] + tail);
    SumInsideBracket(a, b, tail);
    CloseThenProduct(a, b, c);
    assert ["(", a] + (["+", b] + tail) == ["(", a, "+", b, ")", "*", c];
    assert Reversed(["*"]) == ["*"];
    assert [a, b, "+", c] + ["*"] == [a, b, "+", c, "*"];
  }

  /** ... so its value is `(a + b) * c`. */
  lemma BracketedSumValue(a: string, b: string, c: string)
    requires IsNumeric(a) && IsNumeric(b) && IsNumeric(c)
    ensures Outcome([a, b, "+", c, "*"]) ==
      Ok(Dec((ParseNumber(a).value + ParseNumber(b).value) * ParseNumber(c).value))
  {
    var e := Infix("*", Infix("+", Leaf(a), Leaf(b)), Leaf(c));
    ProductTreeValue(a, b, c);
    ProductTreeEmit(a, b, c);
    OutcomeOfEmit(e);
  }

  lemma ProductTreeEmit(a: string, b: string, c: string)
    ensures Emit(Infix("*", Infix("+", Leaf(a), Leaf(b)), Leaf(c))) == [a, b, "+", c, "*"]
  {
    assert Emit(Infix("+", Leaf(a), Leaf(b))) == [a] + [b] + ["+"];
    assert Emit(Infix("*", Infix("+", Leaf(a), Leaf(b)), Leaf(c))) == [a, b, "+"] + [c] + ["*"];
  }

  /** The tree `(a + b) * c` is worth `(a + b) * c`. */
  lemma ProductTreeValue(a: string, b: string, c: string)
    requires IsNumeric(a) && IsNumeric(b) && IsNumeric(c)
    ensures WellFormed(Infix("*", Infix("+", Leaf(a), Leaf(b)), Leaf(c)))
    ensures Eval(Infix("*", Infix("+", Leaf(a), Leaf(b)), Leaf(c))) ==
      Ok(Dec((ParseNumber(a).value + ParseNumber(b).value) * ParseNumber(c).value))
  {
    var va, vb, vc := ParseNumber(a).value, ParseNumber(b).value, ParseNumber(c).value;
    var sum := Infix("+", Leaf(a), Leaf(b));
    NumeralLeaf(a);
    NumeralLeaf(b);
    NumeralLeaf(c);
    assert "+" in Operators && "*" in Operators;
    var total := va + vb;
    EvalInfix("+", Leaf(a), Leaf(b), Text(a), Text(b), total);
    Product(total, vc);
    assert ToDecimal(Dec(total)) == Ok(total);
    EvalInfix("*", sum, Leaf(c), Dec(total), Text(c), total * vc);
  }

  lemma Product(x: real, y: real)
    ensures "*" in Operators && Arithmetic("*", x, y) == Ok(x * y)
  {
  }

  lemma OpenThenNumeral(a: string, tail: seq<string>)
    requires IsNumeric(a)
    ensures Stackable(["("])
    ensures Convert(Conversion([], []), ["(", a] + tail) == Convert(Conversion(["("], [a]), tail)
  {
    var c0 := Conversion([], []);
    var c1 := Conversion(["("], []);
    SymbolIsNoNumeral("(");
    assert [] + ["("] == ["("];
    assert Step(c0, "(") == Ok(c1);
    NumeralStep(c1, a);
    assert [] + [a] == [a];
    ConvertPair(c0, c1, Conversion(["("], [a]), "(", a, tail);
  }

  lemma SumInsideBracket(a: string, b: string, tail: seq<string>)
    requires IsNumeric(b)
    ensures Stackable(["(", "+"])
    ensures Convert(Conversion(["("], [a]), ["+", b] + tail) == Convert(Conversion(["(", "+"], [a, b]), tail)
  {
    var c2 := Conversion(["("], [a]);
    var c3 := Conversion(["(", "+"], [a]);
    OpenRankedLowest();
    assert "+" in Precedence && "+" in Operators && Precedence["+"] == 1;
    assert Stackable(["("]);
    OperatorPushed(c2, "+");
    assert ["("] + ["+"] == ["(", "+"];
    NumeralAppended(["(", "+"], a, b);
    ConvertPair(c2, c3, Conversion(["(", "+"], [a, b]), "+", b, tail);
  }

  lemma CloseThenProduct(a: string, b: string, c: string)
    requires IsNumeric(c)
    ensures Stackable(["(", "+"])
    ensures Convert(Conversion(["(", "+"], [a, b]), [")", "*", c]) == Ok(Conversion(["*"], [a, b, "+", c]))
  {
    var c4 := Conversion(["(", "+"], [a, b]);
    var c5 := Conversion([], [a, b, "+"]);
    var c6 := Conversion(["*"], [a, b, "+"]);
    CloseSum(a, b);
    assert "*" in Precedence && "*" in Operators;
    OperatorPushed(c5, "*");
    assert [] + ["*"] == ["*"];
    ConvertPair(c4, c5, c6, ")", "*", [c]);
    NumeralStep(c6, c);
    assert [a, b, "+"] + [c] == [a, b, "+", c];
    assert Convert(c6, [c]) == Convert(Conversion(["*"], [a, b, "+", c]), []);
    assert [")", "*"] + [c] == [")", "*", c];
  }

  lemma CloseSum(a: string, b: string)
    ensures Stackable(["(", "+"])
    ensures Step(Conversion(["(", "+"], [a, b]), ")") == Ok(Conversion([], [a, b, "+"]))
  {
    var c4 := Conversion(["(", "+"], [a, b]);
    assert "(" in Precedence && "+" in Precedence;
    SymbolIsNoNumeral(")");
    assert Step(c4, ")") == CloseGroup(c4);
    assert ["(", "+"][..1] == ["("] && ["("][..0] == [];
    assert [a, b] + ["+"] == [a, b, "+"];
  }

  // ---------------------------------------------------------------------------
  // Operators of different precedence

  /** `a lo b hi c` with `hi` binding at least as tightly as `lo`: `hi` does not
      pop `lo` and is stacked on it, so `hi` is emitted first and takes `b` and `c`. */
  lemma TighterLast(a: string, b: string, c: string, lo: string, hi: string)
    requires IsNumeric(a) && IsNumeric(b) && IsNumeric(c)
    requires lo in Operators && hi in Operators && lo != "neg" && hi != "neg"
    requires Precedence[lo] <= Precedence[hi]
    ensures Shunt([a, lo, b, hi, c]) == Ok([a, b, c, hi, lo])
    ensures Shunt([a, lo, b, hi, c]) == Ok(Emit(Infix(lo, Leaf(a), Infix(hi, Leaf(b), Leaf(c)))))
  {
    var e := Conversion([lo, hi], [a, b, c]);
    TighterLastConvert(a, b, c, lo, hi);
    Shunted([a, lo, b, hi, c], e);
    DrainedPair([a, b, c], lo, hi);
    assert [a, b, c] + [hi, lo] == [a, b, c, hi, lo];
    EmitRightNested(a, b, c, lo, hi);
  }

  lemma TighterLastConvert(a: string, b: string, c: string, lo: string, hi: string)
    requires IsNumeric(a) && IsNumeric(b) && IsNumeric(c)
    requires lo in Operators && hi in Operators && lo != "neg" && hi != "neg"
    requires Precedence[lo] <= Precedence[hi]
    ensures Convert(Conversion([], []), [a, lo, b, hi, c]) == Ok(Conversion([lo, hi], [a, b, c]))
  {
    OperatorRanked(lo);
    OperatorRanked(hi);
    var c1 := Conversion([], [a]);
    var c2 := Conversion([lo], [a]);
    var c3 := Conversion([lo], [a, b]);
    var c4 := Conversion([lo, hi], [a, b]);
    var c5 := Conversion([lo, hi], [a, b, c]);
    Appended(Conversion([], []), a, c1);
    Pushed(c1, lo, c2);
    Appended(c2, b, c3);
    Pushed(c3, hi, c4);
    Appended(c4, c, c5);
    ConvertFiveSteps(Conversion([], []), c1, c2, c3, c4, c5, a, lo, b, hi, c);
  }

  /** `a hi b lo c` with `hi` binding tighter than `lo`: `lo` pops `hi`, so `hi`
      is emitted first and takes `a` and `b`. */
  lemma TighterFirst(a: string, b: string, c: string, lo: string, hi: string)
    requires IsNumeric(a) && IsNumeric(b) && IsNumeric(c)
    requires lo in Operators && hi in Operators && lo != "neg" && hi != "neg"
    requires Precedence[lo] < Precedence[hi]
    ensures Shunt([a, hi, b, lo, c]) == Ok([a, b, hi, c, lo])
    ensures Shunt([a, hi, b, lo, c]) == Ok(Emit(Infix(lo, Infix(hi, Leaf(a), Leaf(b)), Leaf(c))))
  {
    var e := Conversion([lo], [a, b, hi, c]);
    TighterFirstConvert(a, b, c, lo, hi);
    Shunted([a, hi, b, lo, c], e);
    DrainedLone([a, b, hi, c], lo);
    assert [a, b, hi, c] + [lo] == [a, b, hi, c, lo];
    EmitLeftNested(a, b, c, lo, hi);
  }

  lemma TighterFirstConvert(a: string, b: string, c: string, lo: string, hi: string)
    requires IsNumeric(a) && IsNumeric(b) && IsNumeric(c)
    requires lo in Operators && hi in Operators && lo != "neg" && hi != "neg"
    requires Precedence[lo] < Precedence[hi]
    ensures Convert(Conversion([], []), [a, hi, b, lo, c]) == Ok(Conversion([lo], [a, b, hi, c]))
  {
    OperatorRanked(lo);
    OperatorRanked(hi);
    var c1 := Conversion([], [a]);
    var c2 := Conversion([hi], [a]);
    var c3 := Conversion([hi], [a, b]);
    var c4 := Conversion([lo], [a, b, hi]);
    var c5 := Conversion([lo], [a, b, hi, c]);
    Appended(Conversion([], []), a, c1);
    Pushed(c1, hi, c2);
    Appended(c2, b, c3);
    PopsLone(c3, lo, c4);
    Appended(c4, c, c5);
    ConvertFiveSteps(Conversion([], []), c1, c2, c3, c4, c5, a, hi, b, lo, c);
  }

  /** A numeral step: the numeral is appended to the output. */
  lemma Appended(c: Conversion, x: string, d: Conversion)
    requires Stackable(c.operations) && IsNumeric(x)
    requires d == Conversion(c.operations, c.postfix + [x])
    ensures Step(c, x) == Ok(d)
  {
    NumeralStep(c, x);
  }

  /** An operator on a stack whose top does not outrank it is stacked. */
  lemma Pushed(c: Conversion, o: string, d: Conversion)
    requires Stackable(c.operations) && o in Precedence && o in Operators
    requires c.operations == [] || Precedence[c.operations[|c.operations| - 1]] <= Precedence[o]
    requires d == Conversion(c.operations + [o], c.postfix)
    ensures Step(c, o) == Ok(d)
  {
    OperatorPushed(c, o);
  }

  /** An operator arriving on a lone key of strictly higher precedence pops it. */
  lemma PopsLone(c: Conversion, o: string, d: Conversion)
    requires |c.operations| == 1 && c.operations[0] in Precedence && o in Operators
    requires Precedence[o] < Precedence[c.operations[0]]
    requires d == Conversion([o], c.postfix + [c.operations[0]])
    ensures Stackable(c.operations)
    ensures Step(c, o) == Ok(d)
  {
    var top := c.operations[0];
    OperatorStep(c, o);
    var e := PopAbove(c, Precedence[o]);
    assert e.operations == [];
    assert Reversed(c.operations[0..]) == [top] by {
      assert c.operations[0..] == [top];
    }
    assert [] + [o] == [o];
  }

  /** Five tokens that step without error from `c0` through `c1` ... to `c5`. */
  lemma ConvertFiveSteps(c0: Conversion, c1: Conversion, c2: Conversion, c3: Conversion, c4: Conversion, c5: Conversion,
                         t1: string, t2: string, t3: string, t4: string, t5: string)
    requires Stackable(c0.operations) && Step(c0, t1) == Ok(c1) && Step(c1, t2) == Ok(c2)
    requires Step(c2, t3) == Ok(c3) && Step(c3, t4) == Ok(c4) && Step(c4, t5) == Ok(c5)
    ensures Convert(c0, [t1, t2, t3, t4, t5]) == Ok(c5)
  {
    assert [t1, t2, t3, t4, t5] == [t1, t2] + [t3, t4, t5];
    ConvertPair(c0, c1, c2, t1, t2, [t3, t4, t5]);
    assert [t3, t4, t5] == [t3, t4] + [t5];
    ConvertPair(c2, c3, c4, t3, t4, [t5]);
    ConvertHead(c4, [t5]);
    assert [t5][1..] == [];
  }

  lemma Shunted(ts: seq<string>, e: Conversion)
    requires Convert(Conversion([], []), ts) == Ok(e)
    ensures Shunt(ts) == Ok(Drain(e))
  {
  }

  lemma DrainedPair(postfix: seq<string>, lo: string, hi: string)
    ensures Drain(Conversion([lo, hi], postfix)) == postfix + [hi, lo]
  {
    assert Reversed([lo, hi]) == [hi, lo];
  }

  lemma DrainedLone(postfix: seq<string>, o: string)
    ensures Drain(Conversion([o], postfix)) == postfix + [o]
  {
    assert Reversed([o]) == [o];
  }

  lemma EmitRightNested(a: string, b: string, c: string, lo: string, hi: string)
    ensures Emit(Infix(lo, Leaf(a), Infix(hi, Leaf(b), Leaf(c)))) == [a, b, c, hi, lo]
  {
    assert Emit(Infix(hi, Leaf(b), Leaf(c))) == [b, c, hi];
    assert Emit(Infix(lo, Leaf(a), Infix(hi, Leaf(b), Leaf(c)))) == [a] + [b, c, hi] + [lo];
  }

  lemma EmitLeftNested(a: string, b: string, c: string, lo: string, hi: string)
    ensures Emit(Infix(lo, Infix(hi, Leaf(a), Leaf(b)), Leaf(c))) == [a, b, hi, c, lo]
  {
    assert Emit(Infix(hi, Leaf(a), Leaf(b))) == [a] + [b] + [hi];
    assert Emit(Infix(lo, Infix(hi, Leaf(a), Leaf(b)), Leaf(c))) == [a, b, hi] + [c] + [lo];
  }

  /** So `evaluate` applies the tighter operator first, whichever side it is on. */
  lemma TighterEvaluatesFirst(a: string, b: string, c: string, lo: string, hi: string)
    requires IsNumeric(a) && IsNumeric(b) && IsNumeric(c)
    requires lo in Operators && hi in Operators && lo != "neg" && hi != "neg"
    requires Precedence[lo] < Precedence[hi]
    ensures WellFormed(Infix(lo, Leaf(a), Infix(hi, Leaf(b), Leaf(c))))
    ensures WellFormed(Infix(lo, Infix(hi, Leaf(a), Leaf(b)), Leaf(c)))
    ensures Outcome([a, b, c, hi, lo]) == Eval(Infix(lo, Leaf(a), Infix(hi, Leaf(b), Leaf(c))))
    ensures Outcome([a, b, hi, c, lo]) == Eval(Infix(lo, Infix(hi, Leaf(a), Leaf(b)), Leaf(c)))
  {
    NumeralIsNoSymbol(a);
    NumeralIsNoSymbol(b);
    NumeralIsNoSymbol(c);
    TighterLast(a, b, c, lo, hi);
    TighterFirst(a, b, c, lo, hi);
    OutcomeOfEmit(Infix(lo, Leaf(a), Infix(hi, Leaf(b), Leaf(c))));
    OutcomeOfEmit(Infix(lo, Infix(hi, Leaf(a), Leaf(b)), Leaf(c)));
  }

  /** `a + b * c` becomes `a b c * +` and is worth `a + b * c`; `a * b + c`
      becomes `a b * c +` and is worth `a * b + c`. */
  lemma ProductBeforeSum(a: string, b: string, c: string)
    requires IsNumeric(a) && IsNumeric(b) && IsNumeric(c)
    ensures Shunt([a, "+", b, "*", c]) == Ok([a, b, c, "*", "+"])
    ensures Shunt([a, "*", b, "+", c]) == Ok([a, b, "*", c, "+"])
    ensures Outcome([a, b, c, "*", "+"]) ==
      Ok(Dec(ParseNumber(a).value + ParseNumber(b).value * ParseNumber(c).value))
    ensures Outcome([a, b, "*", c, "+"]) ==
      Ok(Dec(ParseNumber(a).value * ParseNumber(b).value + ParseNumber(c).value))
  {
    SumProductRanked();
    TighterLast(a, b, c, "+", "*");
    TighterFirst(a, b, c, "+", "*");
    TighterEvaluatesFirst(a, b, c, "+", "*");
    SumOfProductTree(a, b, c);
    ProductPlusTree(a, b, c);
  }

  lemma SumProductRanked()
    ensures "+" in Operators && "*" in Operators && "+" != "neg" && "*" != "neg"
    ensures "+" in Precedence && "*" in Precedence && Precedence["+"] < Precedence["*"]
  {
  }

  /** The tree `a + (b * c)` is worth `a + b * c`. */
  lemma SumOfProductTree(a: string, b: string, c: string)
    requires IsNumeric(a) && IsNumeric(b) && IsNumeric(c)
    ensures WellFormed(Infix("+", Leaf(a), Infix("*", Leaf(b), Leaf(c))))
    ensures Eval(Infix("+", Leaf(a), Infix("*", Leaf(b), Leaf(c)))) ==
      Ok(Dec(ParseNumber(a).value + ParseNumber(b).value * ParseNumber(c).value))
  {
    var va, vb, vc := ParseNumber(a).value, ParseNumber(b).value, ParseNumber(c).value;
    NumeralLeaf(a);
    NumeralLeaf(b);
    NumeralLeaf(c);
    var p := vb * vc;
    Product(vb, vc);
    EvalInfix("*", Leaf(b), Leaf(c), Text(b), Text(c), p);
    assert "+" in Operators && ToDecimal(Dec(p)) == Ok(p);
    EvalInfix("+", Leaf(a), Infix("*", Leaf(b), Leaf(c)), Text(a), Dec(p), va + p);
  }

  /** The tree `(a * b) + c` is worth `a * b + c`. */
  lemma ProductPlusTree(a: string, b: string, c: string)
    requires IsNumeric(a) && IsNumeric(b) && IsNumeric(c)
    ensures WellFormed(Infix("+", Infix("*", Leaf(a), Leaf(b)), Leaf(c)))
    ensures Eval(Infix("+", Infix("*", Leaf(a), Leaf(b)), Leaf(c))) ==
      Ok(Dec(ParseNumber(a).value * ParseNumber(b).value + ParseNumber(c).value))
  {
    var va, vb, vc := ParseNumber(a).value, ParseNumber(b).value, ParseNumber(c).value;
    NumeralLeaf(a);
    NumeralLeaf(b);
    NumeralLeaf(c);
    var q := va * vb;
    Product(va, vb);
    EvalInfix("*", Leaf(a), Leaf(b), Text(a), Text(b), q);
    assert "+" in Operators && ToDecimal(Dec(q)) == Ok(q);
    EvalInfix("+", Infix("*", Leaf(a), Leaf(b)), Leaf(c), Dec(q), Text(c), q + vc);
  }

  /** `2 + 3 * 4` becomes `2 3 4 * +` and evaluates to 14. */
  lemma TwoPlusThreeTimesFour()
    ensures Shunt(["2", "+", "3", "*", "4"]) == Ok(["2", "3", "4", "*", "+"])
    ensures Outcome(["2", "3", "4", "*", "+"]) == Ok(Dec(14.0))
  {
    DigitNumeral('2');
    DigitNumeral('3');
    DigitNumeral('4');
    assert IsNumeric("2") && IsNumeric("3") && IsNumeric("4");
    ProductBeforeSum("2", "3", "4");
  }

  // ---------------------------------------------------------------------------
  // evaluate: the height of the `results` stack

  /** How much the `results` loop grows the stack over `ts`: any other token
      pushes one entry, a key of `OPERATORS` pops its arity and pushes one. */
  function Effect(ts: seq<string>): int
    decreases |ts|
  {
    if ts == [] then 0
    else (if ts[0] in Operators then 1 - Arity(ts[0]) else 1) + Effect(ts[1..])
  }

  lemma {:induction false} RunHeight(results: seq<Entry>, ts: seq<string>)
    requires Run(results, ts).Ok?
    ensures |Run(results, ts).value| == |results| + Effect(ts)
    decreases |ts|
  {
    if ts != [] {
      RunHeight(Reduce(results, ts[0]).value, ts[1..]);
    }
  }

  lemma {:induction false} RunAppend(results: seq<Entry>, a: seq<string>, b: seq<string>)
    ensures Run(results, a + b) == if Run(results, a).Ok? then Run(Run(results, a).value, b) else Err(Run(results, a).error)
    decreases |a|
  {
    if a == [] {
      assert a + b == b;
    } else {
      assert (a + b)[1..] == a[1..] + b;
      if Reduce(results, a[0]).Ok? {
        RunAppend(Reduce(results, a[0]).value, a[1..], b);
      }
    }
  }

  /** Popping an empty stack raises IndexError: a key of `OPERATORS` that arrives
      when the tokens before it have left fewer entries than it pops stops the loop. */
  lemma Underflow(results: seq<Entry>, ts: seq<string>, j: nat)
    requires j < |ts| && ts[j] in Operators && Run(results, ts[..j]).Ok?
    requires |results| + Effect(ts[..j]) < Arity(ts[j])
    ensures Run(results, ts) == Err(IndexError)
  {
    var stack := Run(results, ts[..j]).value;
    RunHeight(results, ts[..j]);
    SplitAt(ts, j);
    RunAppend(results, ts[..j], [ts[j]] + ts[j + 1..]);
    RunPrepend(stack, ts[j], ts[j + 1..]);
  }

  /** Conversely, when the loop runs through, every operator found its operands,
      and the stack ends `Effect(ts)` entries higher. */
  lemma NoUnderflow(results: seq<Entry>, ts: seq<string>, j: nat)
    requires j < |ts| && ts[j] in Operators && Run(results, ts).Ok?
    ensures Run(results, ts[..j]).Ok?
    ensures Arity(ts[j]) <= |results| + Effect(ts[..j])
  {
    SplitAt(ts, j);
    RunAppend(results, ts[..j], [ts[j]] + ts[j + 1..]);
    var stack := Run(results, ts[..j]).value;
    RunHeight(results, ts[..j]);
    RunPrepend(stack, ts[j], ts[j + 1..]);
  }

  // ---------------------------------------------------------------------------
  // Whole expressions

  /** A lone numeral is returned as the string it was typed as: it is pushed,
      never converted, and `results[-1]` is that string. */
  lemma LoneNumeral(s: string)
    requires IsNumeric(s)
    ensures ValueOf([s]) == Ok(Text(s))
  {
    LoneTokens(s);
    LoneShunt(s);
    NumeralIsNoSymbol(s);
    RunPrepend([], s, []);
    assert [] + [Text(s)] == [Text(s)];
  }

  lemma LoneTokens(s: string)
    requires s != [] && s != "-"
    ensures TokensOf([s]) == Ok([s])
  {
    assert Filter([s], NonEmpty) == [s] by {
      assert [s][..0] == [];
    }
    assert !UnaryMinusAt([s], 0);
    assert UnaryMinusPositions([s]) == [];
    NoSwaps([s], "neg");
  }

  lemma LoneShunt(s: string)
    requires IsNumeric(s)
    ensures Shunt([s]) == Ok([s])
  {
    var c := Conversion([], []);
    NumeralStep(c, s);
    ConvertHead(c, [s]);
    assert [s][1..] == [];
    assert [] + [s] == [s];
    assert Convert(c, [s]) == Ok(Conversion([], [s]));
    assert Reversed<string>([]) == [];
    assert Drain(Conversion([], [s])) == [s];
  }

  /** Blank tokens are skipped by `to_postfix`. */
  lemma {:induction false} ConvertBlank(c: Conversion, ts: seq<string>)
    requires Stackable(c.operations)
    requires forall i :: 0 <= i < |ts| ==> IsBlank(ts[i])
    ensures Convert(c, ts) == Ok(c)
    decreases |ts|
  {
    if ts != [] {
      ConvertHead(c, ts);
      ConvertBlank(c, ts[1..]);
    }
  }

  /** An expression with nothing but blanks leaves the `results` stack empty,
      and `results[-1]` raises IndexError. */
  lemma BlankExpression(lexemes: seq<string>)
    requires forall i :: 0 <= i < |lexemes| ==> IsBlank(lexemes[i])
    ensures ValueOf(lexemes) == Err(IndexError)
  {
    var ts := Filter(lexemes, NonEmpty);
    BlankKept(lexemes);
    BlankTokens(ts);
    ConvertBlank(Conversion([], []), ts);
    assert Reversed<string>([]) == [];
  }

  lemma BlankTokens(ts: seq<string>)
    requires forall i :: 0 <= i < |ts| ==> IsBlank(ts[i])
    ensures Swapped(ts, UnaryMinusPositions(ts), "neg") == Ok(ts)
  {
    assert UnaryMinusPositions(ts) == [] by {
      var r := UnaryMinusPositions(ts);
      if r != [] {
        assert UnaryMinusAt(ts, r[0]);
        BlankIsNoMinus(ts[r[0]]);
      }
    }
    NoSwaps(ts, "neg");
  }

  lemma BlankIsNoMinus(t: string)
    requires IsBlank(t)
    ensures t != "-"
  {
    if t == "-" {
      SymbolIsNoNumeral("-");
    }
  }

  lemma {:induction false} BlankKept(lexemes: seq<string>)
    requires forall i :: 0 <= i < |lexemes| ==> IsBlank(lexemes[i])
    ensures forall i :: 0 <= i < |Filter(lexemes, NonEmpty)| ==> IsBlank(Filter(lexemes, NonEmpty)[i])
    decreases |lexemes|
  {
    if lexemes != [] {
      BlankKept(lexemes[..|lexemes| - 1]);
    }
  }
}
