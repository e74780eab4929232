# pyCalc evaluator, modelled in Dafny

pyCalc is a desktop calculator. The calculator has two evaluators of infix
expressions, and this project models both. Each evaluator runs the same
three-stage pipeline:

1. `get_tokens` keeps the non-empty lexemes. It marks each `-` that starts the
   expression, or that follows an operator, as unary. It then rewrites each
   marked pair `- x` into `x neg`.
2. `to_postfix` runs Dijkstra's shunting-yard algorithm. Operators wait on a
   stack. Numbers go straight to the output. The stack is drained at the end.
3. `evaluate` folds the postfix sequence over a stack of results and returns
   the top entry.

There are two variants:

- **`Calculations`** (`pyCalc/calculations.py`)
  - Uses the `Operators` enumeration: `( + - * / % ! neg`, with precedences
    0 1 1 3 4 5 5 6.
  - Every lexeme is classified as a number or an operator, and an unknown
    lexeme raises `ValueError`.
  - `to_postfix` pops while the incoming precedence is `<=` the top's.
    Chains of equal precedence therefore group to the left: `8 - 3 - 2` is 3.
- **`Gui`** (`pyCalc/gui.py:17-121`), the functions the `=` button of the
  window calls.
  - Uses string tokens and the `PRECEDENCE` and `OPERATORS` dictionaries, in
    which `neg` has precedence 1.
  - Handles `)`.
  - Pops only while the incoming precedence is strictly `<` the top's. Chains
    of equal precedence therefore group to the right: `8 - 3 - 2` is 7, and
    `5 neg + 3` becomes `5 3 + neg`.

Each loop of the source is a method. Each method is proved equal to a
specification function: a recursive fold over the tokens. The properties
are lemmas about those functions:

- the output of `to_postfix` is a permutation of its emitted input;
- numbers keep their order;
- the shape of the operator stack;
- the balance of parentheses;
- which way chains group, and their values;
- the depth of the result stack, and when `evaluate` underflows.

Python exceptions are values of `Outcomes.Exception`, carried in a `Result`.

Model of the inputs and values:

- **Input.** The input is the sequence of lexeme strings that
  `tokenize.generate_tokens` yields.
- **`float(s)` succeeds.** Modelled as `Numerals.IsNumeric`: digits with at
  most one decimal point and at least one digit.
- **`Decimal`.** Arithmetic is on exact `real`s.
  - `x / 0` raises `DivisionByZero`.
  - `0 / 0` raises `InvalidOperation`.
- **Stack entries.** A number pushed by `evaluate` stays its string,
  `Values.Entry.Text`, until an operator turns it into `Values.Entry.Dec`. A
  lone number therefore comes back as its own string.

## Model

| member | source | states |
|---|---|---|
| Numerals.Strip | pyCalc/calculations.py:107 | `str.strip()` gives a slice of the lexeme whose cut-off ends are whitespace (the characters Python's `str.isspace` accepts); it is empty exactly when the lexeme is all whitespace, and otherwise it neither starts nor ends with whitespace |
| Numerals.ParseNumber | pyCalc/calculations.py:86-92 | a value is produced exactly when the lexeme is a decimal numeral, and that value is never negative |
| Numerals.AppendWholeDigit | pyCalc/calculations.py:86-92 | appending a digit `d` to a numeral without a point turns its value `x` into `10x + d` |
| Numerals.AppendPoint | pyCalc/calculations.py:86-92 | appending a point to a numeral without one keeps its value |
| Numerals.PointDigit | pyCalc/calculations.py:86-92 | `.d` has the value `d / 10` |
| Numerals.AppendFractionDigit | pyCalc/calculations.py:86-92 | appending a digit `d` to a numeral with `k` digits after its point adds `d / 10^(k + 1)` to its value |
| Values.ToDecimal | pyCalc/gui.py:108 | `Decimal(x)` of a pushed string succeeds exactly for numerals and raises InvalidOperation otherwise; a computed value converts to itself |
| Values.Quotient | pyCalc/calculations.py:27 | true division gives `a / b` when `b != 0`; otherwise DivisionByZero for `x / 0` and InvalidOperation for `0 / 0` |
| Sequences.ApplySwaps | pyCalc/calculations.py:120-122 | the in-place swap loop computes `Swapped`: each recorded unary minus becomes its operand followed by `neg`, and IndexError if a marked `-` is last |
| Sequences.SwappedElements | pyCalc/gui.py:92-95 | the swaps keep the length and bring in nothing but the `neg` marker |
| Sequences.SwappedKeepsOrder | pyCalc/gui.py:92-95 | the swaps keep the order of every token that is not the marker or a swapped `-` |
| Calculations.Precedence | pyCalc/calculations.py:22-30 | only `(` has precedence 0; `neg` alone has the top precedence 6 |
| Calculations.Lookup | pyCalc/calculations.py:32-38 | finds an operator with the given symbol, or reports that none has it |
| Calculations.LookupSymbol | pyCalc/calculations.py:32-38 | looking up an operator's own symbol gives back that operator |
| Calculations.Index | pyCalc/calculations.py:22-30 | every operator has a position in the enumeration's declaration order |
| Calculations.FromSymbol | pyCalc/calculations.py:32-38 | the loop over the enumeration returns an operator with that symbol, or raises ValueError when no operator has it |
| Calculations.IsValidSymbol | pyCalc/calculations.py:40-48 | the flag loop answers true exactly when some operator has the symbol |
| Calculations.Classify | pyCalc/calculations.py:113-118 | a lexeme is a number exactly when it is numeric, a symbol token names its operator, and ValueError is raised exactly for lexemes that are neither |
| Calculations.Classified | pyCalc/calculations.py:105-118 | classifying every lexeme keeps the length or fails with ValueError |
| Calculations.ClassifiedFails | pyCalc/calculations.py:113-116 | one unknown lexeme anywhere makes the whole classification raise ValueError |
| Calculations.ClassifiedAt | pyCalc/calculations.py:113-118 | the k-th token is the classification of the k-th lexeme |
| Calculations.SubtractionSymbol | pyCalc/calculations.py:109 | `-` is the symbol of subtraction and of no other operator |
| Calculations.UnaryMinusPositions | pyCalc/calculations.py:109-111 | the recorded indices rise, lie inside the tokens, and are exactly the `-` tokens that come first or follow an operator |
| Calculations.ClassifyLexeme | pyCalc/calculations.py:113-118 | the `try float / from_symbol` step computes `Classify`, and yields subtraction exactly for the lexeme `-` |
| Calculations.CollectTokens | pyCalc/calculations.py:105-118 | the loop classifies the stripped non-empty lexemes in order and records exactly the unary-minus positions |
| Calculations.GetTokens | pyCalc/calculations.py:101-124 | `get_tokens` computes `TokensOf`: classification followed by the swaps |
| Calculations.PopCount | pyCalc/calculations.py:80-82 | the `while` pops exactly the top entries whose precedence is at least the incoming one, and stops at the first lower one |
| Calculations.Shunting | pyCalc/calculations.py:66-96 | the shunting loop and the final drain compute `Shunt` |
| Calculations.ToPostfix | pyCalc/calculations.py:63-98 | `to_postfix` computes `PostfixOf`: the tokens, then the shunting |
| Calculations.ToFloat | pyCalc/calculations.py:140 | `float(operand)` succeeds exactly when `Decimal` would, with the same value, and raises ValueError otherwise |
| Calculations.FactorialOf | pyCalc/calculations.py:138-140 | `math.factorial` of a float succeeds exactly for non-negative integral values, and raises ValueError otherwise |
| Calculations.Binary | pyCalc/calculations.py:142-146 | a binary entry fails exactly for `(`, whose function is None (TypeError), and for division by zero |
| Calculations.ApplyOperator | pyCalc/calculations.py:133-149 | IndexError exactly when the stack holds fewer entries than the arity; otherwise the operands are replaced by one computed value and the entries below are unchanged |
| Calculations.ApplyToStack | pyCalc/calculations.py:133-149 | the pops and the push of one operator compute `ApplyOperator` |
| Calculations.Evaluate | pyCalc/calculations.py:127-154 | `evaluate` computes `ValueOf`: the postfix fold, then the top entry, or IndexError on an empty stack |
| Calculations.EvaluatePostfix | pyCalc/calculations.py:131-154 | the loop over the postfix tokens computes `Outcome`: the fold, then the top entry |
| CalculationsProofs.DrainPopAtLeast | pyCalc/calculations.py:79-84 | popping the higher operators to the output does not change what the final drain produces |
| CalculationsProofs.PopAtLeastStops | pyCalc/calculations.py:80-82 | an operator never pops a `(`, and afterwards the top is below the incoming precedence |
| CalculationsProofs.ShuntPermutation | pyCalc/calculations.py:63-98 | the postfix output is a permutation of the input's operators and numerals; non-numeric numbers are dropped |
| CalculationsProofs.ShuntKeepsNumberOrder | pyCalc/calculations.py:86-92 | the numbers of the output are the numerals of the input, in the same order |
| CalculationsProofs.ConvertRising | pyCalc/calculations.py:79-84 | between `(` markers the stacked precedences strictly rise |
| CalculationsProofs.NegationPoppedFirst | pyCalc/calculations.py:80-82 | an operator arriving on a stacked `neg` first emits that `neg` |
| CalculationsProofs.ConvertKeepsParentheses | pyCalc/calculations.py:70-71 | every `(` stays on the stack until the drain; none reaches the output before it |
| CalculationsProofs.ParenthesisedTokensFail | pyCalc/calculations.py:142-146 | an expression holding `(` never evaluates, because `(` reaches `evaluate` and fails there |
| CalculationsProofs.ClosingParenthesisRaises | pyCalc/calculations.py:113-116 | a `)` lexeme makes `get_tokens` raise ValueError, so the `)` branch of `to_postfix` is unreachable |
| CalculationsProofs.ParenthesesNeverEvaluate | pyCalc/calculations.py:127-154 | any expression with a parenthesis fails to evaluate |
| CalculationsProofs.ApplyUnary | pyCalc/calculations.py:134-140 | `neg`, `%` and `!` replace the top entry by their result, and the entries below are unchanged |
| CalculationsProofs.ApplyBinary | pyCalc/calculations.py:142-146 | a binary operator replaces the top two entries by `op(first, second)` |
| CalculationsProofs.OutcomeOfEmit | pyCalc/calculations.py:127-154 | evaluating the postfix emission of an expression tree gives the tree's value |
| CalculationsProofs.ConvertAppend | pyCalc/calculations.py:69-92 | converting `a + b` is converting `a` and then `b` |
| CalculationsProofs.ChainGroupsLeft | pyCalc/calculations.py:80-84 | a chain of equal-precedence binary operators is emitted as the left-grouped tree |
| CalculationsProofs.ChainEvaluatesLeft | pyCalc/calculations.py:127-154 | such a chain evaluates to the value of the left-grouped tree |
| CalculationsProofs.TighterLast | pyCalc/calculations.py:79-84 | for any numerals and binary operators `lo`, `hi` with `1 <= prec(lo) < prec(hi)`, `a lo b hi c` becomes `a b c hi lo`, the emission of the tree `lo(a, hi(b, c))` |
| CalculationsProofs.TighterFirst | pyCalc/calculations.py:80-84 | in the mirror case, `a hi b lo c` becomes `a b hi c lo`, the emission of `lo(hi(a, b), c)`: `lo` pops `hi` |
| CalculationsProofs.TighterEvaluatesFirst | pyCalc/calculations.py:127-154 | both orders evaluate to the value of the tree in which the tighter operator takes its two neighbours |
| CalculationsProofs.ProductBeforeSum | pyCalc/calculations.py:127-154 | `a + b * c` is worth `a + (b * c)` and `a * b + c` is worth `(a * b) + c`, over the parsed values |
| CalculationsProofs.TwoPlusThreeTimesFour | pyCalc/calculations.py:127-154 | `2 + 3 * 4` becomes `2 3 4 * +` and evaluates to 14 |
| CalculationsProofs.MinusChainPostfix | pyCalc/calculations.py:80-84 | `a - b - c` becomes `a b - c -` |
| CalculationsProofs.MinusChainValue | pyCalc/calculations.py:142-146 | `a - b - c` evaluates to `(a - b) - c` |
| CalculationsProofs.EightMinusThreeMinusTwo | pyCalc/calculations.py:127-154 | `8 - 3 - 2` evaluates to 3 |
| CalculationsProofs.TokensOfShape | pyCalc/calculations.py:120-122 | the swaps raise IndexError exactly when the last token is a unary minus; otherwise they keep the length and the numbers in order |
| CalculationsProofs.TokensAreNumerals | pyCalc/calculations.py:113-118 | every number token that `get_tokens` yields is a numeral |
| CalculationsProofs.PostfixPermutation | pyCalc/calculations.py:63-98 | when `get_tokens` succeeds, `to_postfix` does too, and its output is a permutation of the tokens |
| CalculationsProofs.PostfixKeepsNumbers | pyCalc/calculations.py:86-92 | `to_postfix` keeps the numbers of the expression in their order |
| CalculationsProofs.RunHeight | pyCalc/calculations.py:132-152 | after a successful fold the stack height is the start height plus one per number, minus the arity less one per operator |
| CalculationsProofs.Underflow | pyCalc/calculations.py:135 | an operator reached with fewer entries than its arity makes `evaluate` raise IndexError |
| CalculationsProofs.NoUnderflow | pyCalc/calculations.py:143-144 | in a successful fold every operator finds at least its arity on the stack |
| CalculationsProofs.BlankExpression | pyCalc/calculations.py:154 | an expression of blank lexemes raises IndexError at `results[-1]` |
| Gui.UnaryMinusPositions | pyCalc/gui.py:85-88 | the recorded indices rise, lie inside the tokens, and are exactly the `-` tokens that come first or follow a key of `PRECEDENCE` |
| Gui.CollectTokens | pyCalc/gui.py:83-90 | the loop keeps the non-empty lexemes in order and records exactly the unary-minus positions |
| Gui.GetTokens | pyCalc/gui.py:79-97 | `get_tokens` computes `TokensOf`: the kept lexemes, then the swaps |
| Gui.OperatorRanked | pyCalc/gui.py:17-32 | every key of `OPERATORS` has a precedence of at least 1 and is not a parenthesis |
| Gui.PopAbove | pyCalc/gui.py:58-60 | the `while` pops the longest suffix of the stack whose every entry has a precedence above the incoming one, and appends it to the output top first; the new top has precedence at most the incoming one |
| Gui.PopHigher | pyCalc/gui.py:58-60 | the popping loop computes `PopAbove` |
| Gui.CloseGroup | pyCalc/gui.py:51-55 | `)` raises IndexError exactly when no `(` is stacked; otherwise it cuts the stack at the nearest `(`, drops that `(`, and appends the entries above it to the output top first |
| Gui.CloseParenthesis | pyCalc/gui.py:51-55 | the `)` loop computes `CloseGroup` |
| Gui.Step | pyCalc/gui.py:45-70 | one token keeps every stacked entry a key of `PRECEDENCE` |
| Gui.HandleToken | pyCalc/gui.py:45-70 | the loop body for one token computes `Step` |
| Gui.EmptyStack | pyCalc/gui.py:72-74 | the final loop computes `Drain`: the stack emptied top first onto the output |
| Gui.Shunting | pyCalc/gui.py:41-74 | the shunting loop and the final drain compute `Shunt` |
| Gui.ToPostfix | pyCalc/gui.py:38-76 | `to_postfix` computes `PostfixOf`: the tokens, then the shunting |
| Gui.Arithmetic | pyCalc/gui.py:26-30 | `+ - *` are exact, and `/` fails exactly on a zero divisor |
| Gui.ApplyOperator | pyCalc/gui.py:105-116 | IndexError exactly when the stack holds fewer entries than the arity; otherwise the operands are replaced by one computed value and the entries below are unchanged |
| Gui.ApplyToStack | pyCalc/gui.py:105-116 | the pops and the push of one operator compute `ApplyOperator` |
| Gui.Evaluate | pyCalc/gui.py:100-121 | `evaluate` computes `ValueOf`: the postfix fold, then the top entry, or IndexError on an empty stack |
| GuiProofs.OperatorsAreKeys | pyCalc/gui.py:17-32 | the keys of `OPERATORS` are the keys of `PRECEDENCE` other than `(`, each of precedence at least 1 |
| GuiProofs.NumeralIsNoSymbol | pyCalc/gui.py:64-70 | a numeral is never blank, `)` or a dictionary key, so it always takes the number branch |
| GuiProofs.MinusAfterOperandIsBinary | pyCalc/gui.py:87 | a `-` right after a number or `)` is left as subtraction |
| GuiProofs.TokensOfShape | pyCalc/gui.py:92-95 | the swaps raise IndexError exactly when the last kept lexeme is a unary minus; otherwise they keep the length and the numbers in order |
| GuiProofs.PopAboveMoves | pyCalc/gui.py:58-60 | popping higher operators changes neither what the drain will produce, nor the number of open `(`, nor the numbers emitted |
| GuiProofs.CloseGroupMoves | pyCalc/gui.py:51-55 | `)` fails exactly when no `(` is open; otherwise it closes one `(`, the drain then produces the same entries less that `(`, and the numbers emitted are unchanged |
| GuiProofs.StepDepth | pyCalc/gui.py:48-55 | a token fails exactly when it is a `)` with no `(` open, and `(` and `)` move the depth by one |
| GuiProofs.ConvertBalance | pyCalc/gui.py:44-70 | converting fails exactly when some `)` closes a `(` that was never opened, and then with IndexError |
| GuiProofs.ShuntBalance | pyCalc/gui.py:38-76 | `to_postfix` raises IndexError exactly on an unopened `)` |
| GuiProofs.ShuntCounts | pyCalc/gui.py:38-76 | the output holds each operator and numeral of the input as often as the input does; unknown lexemes are dropped; no `)` is emitted, and only the unclosed `(` are |
| GuiProofs.ShuntKeepsNumberOrder | pyCalc/gui.py:64-70 | the numbers of the output are the numerals of the input, in order |
| GuiProofs.OperatorClimbing | pyCalc/gui.py:57-62 | pushing an operator keeps the stacked precedences non-decreasing between `(` markers |
| GuiProofs.ConvertClimbing | pyCalc/gui.py:44-70 | between `(` markers the stacked precedences never fall from bottom to top |
| GuiProofs.ApplyNegation | pyCalc/gui.py:105-109 | `neg` replaces the top entry by its negation |
| GuiProofs.ApplyBinary | pyCalc/gui.py:111-116 | a binary key replaces the top two entries by `op(first, second)` |
| GuiProofs.OutcomeOfEmit | pyCalc/gui.py:100-121 | evaluating the postfix emission of an expression tree gives the tree's value |
| GuiProofs.ChainGroupsRight | pyCalc/gui.py:58 | a chain of equal-precedence binary keys is emitted as the right-grouped tree |
| GuiProofs.ChainEvaluatesRight | pyCalc/gui.py:100-121 | such a chain evaluates to the value of the right-grouped tree |
| GuiProofs.TighterLast | pyCalc/gui.py:57-62 | for any numerals and binary keys with `prec(lo) <= prec(hi)`, `a lo b hi c` becomes `a b c hi lo`, the emission of the tree `lo(a, hi(b, c))` |
| GuiProofs.TighterFirst | pyCalc/gui.py:57-62 | in the mirror case with `prec(lo) < prec(hi)`, `a hi b lo c` becomes `a b hi c lo`, the emission of `lo(hi(a, b), c)`: `lo` pops `hi` |
| GuiProofs.TighterEvaluatesFirst | pyCalc/gui.py:100-121 | both postfix forms evaluate to the value of the tree in which the tighter key takes its two neighbours |
| GuiProofs.ProductBeforeSum | pyCalc/gui.py:38-121 | `a + b * c` becomes `a b c * +` and is worth `a + (b * c)`; `a * b + c` becomes `a b * c +` and is worth `(a * b) + c` |
| GuiProofs.TwoPlusThreeTimesFour | pyCalc/gui.py:38-121 | `2 + 3 * 4` becomes `2 3 4 * +` and evaluates to 14 |
| GuiProofs.MinusChainPostfix | pyCalc/gui.py:57-62 | `a - b - c` becomes `a b c - -` |
| GuiProofs.MinusChainValue | pyCalc/gui.py:111-116 | `a b c - -` evaluates to `a - (b - c)` |
| GuiProofs.EightMinusThreeMinusTwo | pyCalc/gui.py:38-121 | `8 - 3 - 2` becomes `8 3 2 - -` and evaluates to 7 |
| GuiProofs.NegationThenPlus | pyCalc/gui.py:57-62 | `a neg + b` becomes `a b + neg`, because `neg` and `+` share precedence 1 |
| GuiProofs.NegatedSum | pyCalc/gui.py:105-116 | `a b + neg` evaluates to `-(a + b)` |
| GuiProofs.RunHeight | pyCalc/gui.py:104-119 | after a successful fold the stack height is the start height plus one per non-operator, minus the arity less one per operator |
| GuiProofs.Underflow | pyCalc/gui.py:106 | an operator reached with fewer entries than its arity makes `evaluate` raise IndexError |
| GuiProofs.NoUnderflow | pyCalc/gui.py:112-113 | in a successful fold every operator finds at least its arity on the stack |
| GuiProofs.LoneNumeral | pyCalc/gui.py:118-121 | a lone number comes back as its own string |
| GuiProofs.BlankExpression | pyCalc/gui.py:121 | an expression of blank lexemes raises IndexError at `results[-1]` |
| GuiProofs.BracketedSum | pyCalc/gui.py:44-74 | `( a + b ) * c` becomes `a b + c *`: the `)` empties the bracket before `*` is stacked |
| GuiProofs.BracketedSumValue | pyCalc/gui.py:100-121 | `a b + c *` evaluates to `(a + b) * c` |

## Left out

- The lexer (`tokenize.generate_tokens` over a `StringIO`) is not modelled. Both
  `get_tokens` take the sequence of lexeme strings it would yield. Its own
  errors, such as an unterminated bracket, are not modelled either.
- `float` is modelled on plain decimal numerals only. Exponents, `inf`, `nan`,
  underscores, signs and surrounding whitespace are not accepted.
  - In `Gui`, a lexeme with surrounding whitespace that `float` would accept is
    dropped by the model. The Python lexer does not yield such lexemes.
- `Decimal` is modelled on exact reals. The 28-digit context rounding, and the
  difference between `Decimal` and `float` values on the stack, are left out.
- The model follows Python 3.7. Later versions differ in two places:
  - `token in Operators` on a string that is not a member is False up to 3.7
    and from 3.12. In 3.8 to 3.11 it raises TypeError, so in those versions
    `calculations.py` fails at line 79 on every numeric token, and at line 110
    on a `-` that follows a number. The model keeps the False answer.
  - `math.factorial` accepts an integral float up to 3.9 and raises
    TypeError for any float from 3.10. The model accepts an integral value and
    raises ValueError for anything else, so `!` in 3.10 and later, which always
    fails, is not modelled.
  - The factorial of an exact integral real is computed exactly. Float overflow
    is not modelled.
- Logging (`logger.debug`) is left out.
- The `TkGUI` window, `settings.py` and `main.py` are not part of this model.
  - The window's `calculate` catches every exception. In this model that is the
    `Err` case of `Gui.Evaluate`.
- `token in Operators` on a value that is not a member is modelled as "the token
  is a symbol token", on the typed tokens of `Calculations.Token`.
- The `)` branch of `calculations.py` `to_postfix` is not modelled as a step.
  `get_tokens` already raises ValueError on `)`, so that branch is unreachable.
  `CalculationsProofs.ClosingParenthesisRaises` proves this.
