# Tautology checker — a Dafny model

This project models a small propositional-formula pipeline and the brute-force
tautology checker built on it:

- `utils.dfy` (module `Utils`) models `utils.py`:
  - `infixToPostfix`, a shunting-yard variant. `!` has precedence 3. `&` and `|`
    share precedence 2. `(` is a barrier. Blanks and every other character that
    is neither a letter nor an operator are dropped.
  - `postfixToExpressionTree`, the stack-based tree builder.
  - The two evaluators. `evaluateExpr` works over postfix with a stack.
    `evaluateExprTree` works over the tree and short-circuits.
  - The symbolic pre-evaluator `preEvaluateExprFromTree` and its helpers
    `notOp`, `andOp` and `orOp`.
- `tautology.dfy` (module `Tautology`) models `tautology.py`:
  - the class `PropositionStatement`;
  - its variable map, collected in first-occurrence order;
  - the early "no letter repeats" rejection;
  - the enumeration of all 2^n assignments.
- `tautology_test.dfy` (module `TautologyTest`) proves the expected values that
  the repository's unit tests assert.

Python's exceptions are failure values of a `Result` datatype:

- popping an empty list is `EmptyPop`;
- a missing dictionary key is `MissingKey(key)`.

The loops of `infixToPostfix`, `postfixToExpressionTree`, `evaluateExpr`,
`_getVariableMap` and `isTautology` are methods with loop invariants. Each is
proved equal to a functional specification. The properties are lemmas about
those specifications.

The converter's output is written as `postfix`. The converter only appends to
it, so converting a concatenation is converting its parts one after the other
(`ScanConcat`). The test-vector lemmas follow a statement through the converter
piece by piece this way.

The code raises no error for unbalanced brackets or unknown characters:

- An unmatched `)` pops the whole stack and raises nothing. An unclosed `(` is
  flushed into the postfix.
- Characters outside the alphabet are silently dropped.
- The negation that `notOp` builds is plain text, even for a boolean (`"!True"`).

## Model

| member | source | states |
|---|---|---|
| Utils.PostfixToExpressionTree | utils.py:47-59 | The loop's result is the builder specification `BuildTree`: each letter becomes a leaf, `!` takes one subtree, `&`/`|` take the last two subtrees (right one first), and popping an empty stack fails with `EmptyPop`. |
| Utils.BuildTreeOfPostOrder | utils.py:47-59 | Building from the post-order traversal of any tree returns exactly that tree. |
| Utils.BuildTreeRoundTrip | utils.py:47-59 | Postfix that reduces to a single tree is reproduced by that tree's post-order traversal. |
| Utils.BuildTreeSuffix | utils.py:58 | The returned root is the last tree pushed: its post-order is a suffix of the postfix. |
| Utils.BuildTreeErrors | utils.py:53-58 | The builder's only failure is a pop from an empty stack. |
| Utils.BuildTreeShape | utils.py:47-59 | A built tree has letters only at leaves, connectives at inner nodes, and brackets only as binary nodes; postfix over letters and `!&|` builds a proper formula. |
| Utils.BuildFromPostOrder | utils.py:49-57 | Reading a tree's post-order pushes exactly that tree onto whatever stack is there. |
| Utils.BuildFromAppend | utils.py:49-57 | Building from `p + q` is building from `p` and then from `q`, a failure stopping everything. |
| Utils.BuildFromFlatten | utils.py:49-57 | Every successful build keeps the read postfix as the post-order of the stack's trees. |
| Utils.PopTighter | utils.py:83-89 | The pop loop leaves a stack whose top is `(`, binds less tightly than the incoming operator, or is empty, and it only removes operators from the top. |
| Utils.PopTighterPops | utils.py:83-89 | The pop loop stops at the first entry that blocks: every entry it removes is not `(` (the barrier of utils.py:84-85) and binds at least as tightly as the incoming operator (the `>=` test of utils.py:86). |
| Utils.PopTighterOutputOrder | utils.py:86-88 | The entries the pop loop removes reach the postfix top first, exactly as the final flush would move them. |
| Utils.PopWhileTighter | utils.py:79-89 | The `temp_top` loop, which walks down from `top`, stops at `(` and pops the top while it binds at least as tightly, leaves the stack and postfix `PopTighter` describes, with `top` one below the stack height. |
| Utils.PopToOpenBracket | utils.py:71-77 | The `)` loop leaves the stack and postfix `CloseBracket` describes: operators up to the nearest `(` are appended, the `(` is dropped, and an empty stack ends it without error. |
| Utils.InfixToPostfix | utils.py:61-97 | The loop over the input, which runs the two pop loops above for `)` and for `!`/`&`/`|` and keeps `top` equal to the stack height minus one, computes the converter specification `ToPostfix`. |
| Utils.ToPostfixLetters | utils.py:69-93 | The letters of the postfix are the letters of the infix, in the same order; the output holds only letters and `!&|()`. |
| Utils.ScanOutput | utils.py:69-93 | Converting any input appends its letters in order to the output, and nothing outside the converter's alphabet. |
| Utils.PopTighterAppends | utils.py:83-89 | The pop loop only appends to the postfix: from any output it leaves the same stack and appends what it appends from an empty output. |
| Utils.CloseBracketAppends | utils.py:71-77 | The `)` loop only appends to the postfix, in the same sense. |
| Utils.FlushAppends | utils.py:94-96 | The final flush appends the remaining stack, top first, to whatever postfix there is. |
| Utils.StepAppends | utils.py:69-93 | One input character only appends to the postfix. |
| Utils.ScanAppends | utils.py:69-93 | Converting any input only appends to the postfix. |
| Utils.ScanConcat | utils.py:69-93 | Converting `p + q` is converting `p` and then `q` from where `p` left the stack and output. |
| Utils.IsOperand | utils.py:9-10 | A letter is never one of the operator characters, so the converter's and the builder's letter and operator branches never overlap. |
| Utils.EvaluateExprTree | utils.py:166-190 | The short-circuit evaluator fails only with a missing key, for a letter of the tree that the map lacks; its values are the tree's truth value by `EvaluateExprTreeMeaning`. |
| Utils.EvaluateExprTreeMeaning | utils.py:173-190 | A value the tree evaluator returns is the truth value of the tree; it fails only on a letter of the tree the map lacks; it cannot fail when the map binds every letter. |
| Utils.HoldsOnlyReadsItsLetters | utils.py:175-176 | The truth value of a tree depends only on the values of its own letters. |
| Utils.EvaluateExpr | utils.py:125-164 | The stack loop computes the postfix evaluator specification `PostfixValue`. |
| Utils.EvalFromAppend | utils.py:136-160 | Evaluating `p + q` is evaluating `p` and then `q`, a failure stopping everything. |
| Utils.EvalFromPostOrder | utils.py:136-160 | Evaluating a proper tree's post-order pushes its value (or the letter itself, for a leaf) when the map binds its letters, and otherwise fails on a missing letter of the tree. |
| Utils.PostfixValueOfTree | utils.py:125-164 | The postfix evaluator on a tree's post-order returns the tree's truth value when the map binds its letters, and otherwise fails with a missing letter of the tree. |
| Utils.EvaluatorsAgree | utils.py:125-190 | For postfix over letters and `!&|` that builds one tree, the postfix evaluator and the tree evaluator return the same value, the tree's truth value, under every map binding its letters; otherwise the postfix evaluator fails on a missing letter of the tree, and the tree evaluator either fails the same way or returns the tree's truth value. |
| Utils.NotOp | utils.py:12-13 | `notOp` never decides: its result is always a non-empty, hence truthy, string. |
| Utils.NotOpOfDecided | utils.py:12-13 | A decided boolean is not negated but turned into text: True gives `"!True"` and False gives `"!False"`. |
| Utils.AndOp | utils.py:31-45 | `andOp` returns one of its arguments, False, or the residual `a&b` of two strings; its rules are in `OpRules`. |
| Utils.OrOp | utils.py:15-29 | `orOp` returns one of its arguments, True, or the residual `a|b` of two strings; its rules are in `OpRules`. |
| Utils.OpRules | utils.py:15-45 | Equal arguments give that argument; a one-letter string against its negation, either order, gives False for `andOp` and True for `orOp`; other strings give the residual `a&b` / `a|b`; False absorbs `andOp` and True absorbs `orOp`. |
| Utils.PreEvaluateExprFromTree | utils.py:99-123 | A residual string from the pass is never empty, so Python's truthiness tests on it in `andOp`/`orOp` always succeed; its consequences are `RepeatedLetterCollapses`, `Complement` and `NegationFreeStaysSymbolic`. |
| Utils.Complement | utils.py:99-121 | A letter against its own negation, in either order, pre-evaluates to False under `&` and to True under `|` (so `a&!a` gives False and `a|!a` gives True). |
| Utils.RepeatedLetterCollapses | utils.py:99-121 | A tree of `&`/`|` over one repeated letter pre-evaluates to that letter (so `a&a` gives `a`). |
| Utils.NegationFreeStaysSymbolic | utils.py:99-121 | A proper tree without `!` pre-evaluates to a non-empty residual string without `!`. |
| Utils.PreEvaluateIsUnsound | utils.py:99-121 | `a & (b | !b)` pre-evaluates to True although it is false whenever `a` is. |
| Utils.LetterSeqAppend | utils.py:92-93 | The letters of a concatenation are the letters of its parts, in order. |
| Tautology.DistinctLettersSpec | tautology.py:18-28 | The collected keys are distinct and are exactly the letters of the statement. |
| Tautology.DistinctLettersOrder | tautology.py:18-28 | The keys appear in order of first occurrence in the statement. |
| Tautology.NoRepeatedLetterSnoc | tautology.py:22-25 | Reading one more character clears the "unique" flag exactly when it is a letter already seen. |
| Tautology.SnocStep | tautology.py:22-27 | One more character adds a new key exactly when it is an unseen letter, and updates the flag accordingly. |
| Tautology.LetterSetIsKeySet | tautology.py:18-28 | The letters of the statement are the keys of the variable map. |
| Tautology.AssignmentForBits | tautology.py:73-76 | Round `i` gives key number `k` bit `k` of `i`, and binds exactly the keys. |
| Tautology.AssignmentOfBits | tautology.py:73-76 | A map over the keys whose key number `k` holds bit `k` of `i` is round `i`'s assignment. |
| Tautology.RoundOfBound | tautology.py:72 | The round an assignment is read back to lies below 2^n. |
| Tautology.AssignmentForRoundOf | tautology.py:72-76 | Every assignment to the keys is produced by the round it reads back to. |
| Tautology.RoundOfAssignmentFor | tautology.py:72-76 | Round `i`'s assignment reads back to `i`. |
| Tautology.EveryAssignmentHasARound | tautology.py:72-76 | Every assignment to the keys is produced by some round below 2^n. |
| Tautology.EnumerationIsBijective | tautology.py:72-76 | The 2^n rounds produce every assignment to the keys, each exactly once. |
| Tautology.EnumerateMeaning | tautology.py:72-79 | The enumeration answers False at the first falsifying round, True when every round holds, and never fails when the tree's letters are keys. |
| Tautology.AllRoundsMeansTautologous | tautology.py:72-79 | Holding in all 2^n rounds is holding under every assignment to the keys. |
| Tautology.TreeLettersAreKeys | tautology.py:69-71 | Every letter of the parsed tree is a key of the variable map, so the lookup never fails. |
| Tautology.VerdictDecidesTautology | tautology.py:69-79 | With a repeated letter and a tree that builds, the verdict is whether the tree holds under every assignment to the statement's letters. |
| Tautology.CounterexampleRefutes | tautology.py:77-78 | One falsifying assignment refutes the tautology. |
| Tautology.VerdictFailures | tautology.py:67-71 | The verdict fails exactly when some letter repeats and the tree cannot be built, and then with `EmptyPop`. |
| Tautology.WitnessSpec | tautology.py:65 | A read-once formula can be made true and can be made false by an assignment to its letters. |
| Tautology.DistinctPostOrderIsReadOnce | tautology.py:65 | A tree whose post-order has no repeated letter reads each letter once. |
| Tautology.NoRepeatedLetterIsReadOnce | tautology.py:64-68 | A statement without a repeated letter builds a read-once tree. |
| Tautology.UniqueLettersAreNoTautology | tautology.py:64-68 | The early rejection is sound: a statement without a repeated letter whose tree is a proper formula is not a tautology. |
| Tautology.VerdictIsCorrect | tautology.py:56-79 | For every statement that builds a proper formula the verdict is whether it is a tautology. |
| Tautology.PropositionStatement.constructor | tautology.py:7-16 | The statement is stored unchanged. |
| Tautology.PropositionStatement.GetVariableMap | tautology.py:18-28 | The loop returns the distinct letters in first-occurrence order, all bound to 0 (false), and a flag that is true exactly when no letter repeats. |
| Tautology.PropositionStatement.EvaluateExprTree | tautology.py:30-54 | The class's evaluator returns exactly what the module-level tree evaluator returns, on every tree and map. |
| Tautology.PropositionStatement.IsTautology | tautology.py:56-79 | The nested loops, which overwrite the map's values in place and return at the first false round, compute the verdict specification `TautologyVerdict`. |
| TautologyTest.ConvertsLetter | tautology_test.py:8-10 | `a` converts to `a`. |
| TautologyTest.ConvertsConjunction | tautology_test.py:12-14 | `a&b` converts to `ab&`. |
| TautologyTest.ConvertsGroupedDisjunction | tautology_test.py:16-18 | `a & (b | c)` converts to `abc|&`. |
| TautologyTest.ConvertsNegations | tautology_test.py:20-22 | `!a & !b` converts to `a!b!&`. |
| TautologyTest.ConvertsContradiction | tautology_test.py:24-26 | `a & !a` converts to `aa!&`. |
| TautologyTest.ConvertsNested | tautology_test.py:28-30 | `(a & (!b | b)) | (!a & (!b | b))` converts to `ab!b|&a!b!b|&|`. |
| TautologyTest.ConvertsLeftToRight | utils.py:83-90 | `a&b|c` converts to `ab&c|`: `&` and `|` group from the left. |
| TautologyTest.ConvertsUnmatchedClose | utils.py:71-77 | `a)&b` converts to `ab&`: an unmatched `)` raises nothing. |
| TautologyTest.ConvertsUnclosedOpen | utils.py:94-96 | `(a&b` converts to `ab&(`: an unclosed `(` is flushed into the postfix. |
| TautologyTest.ConvertsDoubleNegation | utils.py:83-90 | `!!a` converts to `!a!`: the second `!` pops the first. |
| TautologyTest.DoubleNegationDoesNotBuild | utils.py:53 | The postfix of `!!a` fails to build with `EmptyPop`. |
| TautologyTest.EvaluatesLetter | tautology_test.py:33-37 | `a` with `a` false evaluates to false, through the postfix and through the tree. |
| TautologyTest.EvaluatesExcludedMiddle | tautology_test.py:39-46 | `a | !a` with `a` false evaluates to true, through the postfix and through the tree. |
| TautologyTest.EvaluatesNested | tautology_test.py:48-55 | The nested formula with `a` false and `b` true evaluates to true, both ways. |
| TautologyTest.EvaluatesThreeLetters | tautology_test.py:57-64 | `a & b | c` with `a`, `c` false and `b` true evaluates to false, both ways. |
| TautologyTest.VerdictLetter | tautology_test.py:67-69 | `a` is not a tautology. |
| TautologyTest.VerdictExcludedMiddle | tautology_test.py:71-73 | `a | !a` is a tautology. |
| TautologyTest.VerdictNested | tautology_test.py:75-77 | `(a & (!b | b)) | (!a & (!b | b))` is a tautology. |
| TautologyTest.VerdictThreeLetters | tautology_test.py:79-81 | `a & b | c` is not a tautology. |
| TautologyTest.VerdictOneLetter | tautology_test.py:83-85 | `(!a | (a & a))` is a tautology. |
| TautologyTest.VerdictTwoLetters | tautology_test.py:87-89 | `(!a | (b & !a))` is not a tautology. |
| TautologyTest.VerdictFourLetters | tautology_test.py:91-93 | `(a & b) | (!a & b) | (c & d) | (!c & d)` is not a tautology. |
| TautologyTest.VerdictFourLettersWithNegations | tautology_test.py:95-97 | The same formula with `| (!b & !d)` appended is a tautology. |
| TautologyTest.VerdictFourLettersRegrouped | tautology_test.py:99-101 | `((a & b) | (!a & b) | (c & d)) | ((!c & d) | (!b & d))` is not a tautology. |
| TautologyTest.VerdictFourLettersWithOr | tautology_test.py:103-105 | `(a & b) | (!a & b) | (c & d) | (!c & d) | (!b | d)` is a tautology. |
| TautologyTest.VerdictFourLettersWithOrRegrouped | tautology_test.py:107-109 | The regrouped form of the previous formula is a tautology. |
| TautologyTest.VerdictTrueDisjunct | tautology_test.py:111-113 | `((!a | a) | (...))` is a tautology. |
| TautologyTest.VerdictTrueConjunct | tautology_test.py:115-117 | `((!a | a) & (...))` is not a tautology. |
| TautologyTest.VerdictFalseDisjunct | tautology_test.py:119-121 | `((!a & a) | (...))` is not a tautology. |

## Left out

- Logging and the `__main__` demonstration prints of `utils.py`: output only.
- `TreeNode` and its `in_traversal` printer (`treeNode.py` is not part of this model). The tree is the datatype `Expr`, with a `Bracket` node for the `(`/`)` characters the builder treats as binary operators.
- Python truthiness. Map values are the ints 0/1 and `and`/`or` return operands; the model uses `bool` throughout, so `evaluateExpr` and the tree evaluators return booleans. The pre-evaluator keeps the value-or-string distinction (`Value = B(bool) | S(string)`).
- A `Leaf` whose character is not a letter reads as true in the tree evaluators, as the code's final `return True` does for a non-operator node; such leaves only arise from postfix built by hand.
- The unit tests as a harness: their imports of names `tautology.py` does not define, the `TreeNode` printing, and the first `test_tautology_divided_by_true_with_expression_and` (tautology_test.py:115), which the second method of that name replaces. `VerdictTrueConjunct` still proves the value that first test expects.
- The test-vector lemmas state each input as a concatenation of a few string literals (`"a & " + "(b | c)"`). This is the same string as the single literal; it is written in parts so that each part can be followed through the converter separately.
- The pre-evaluator is modelled as written and only its rule-level facts are proved; it is not sound (`PreEvaluateIsUnsound`), and no corrected version is given.
- Well-formedness of the converter's output is not claimed for every input: `!!a` becomes `!a!`, which does not build (`DoubleNegationDoesNotBuild`).
- Integers: the round counter `i` and the bit extraction `(i & (1 << k)) >> k` are modelled on unbounded naturals as bit `k` of `i`; Python's integers are unbounded too.
