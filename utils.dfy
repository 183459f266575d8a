/** Model of utils.py: the infix-to-postfix converter, the postfix-to-tree
    builder, the two evaluators (stack over postfix, short-circuit over the
    tree) and the assignment-free symbolic pre-evaluator. */
module Utils {

  // ---------------------------------------------------------------------------
  // Failures. The source has no error type: a failed `list.pop()` raises
  // IndexError and a failed dictionary lookup raises KeyError.
  // ---------------------------------------------------------------------------

  datatype Error = EmptyPop | MissingKey(key: char)

  datatype Result<T> = Success(value: T) | Failure(error: Error) {
    predicate IsFailure() { Failure? }
    function PropagateFailure<U>(): Result<U> requires Failure? { Failure(error) }
    function Extract(): T requires Success? { value }
  }

  // ---------------------------------------------------------------------------
  // Symbols
  // ---------------------------------------------------------------------------

  const OPERATORS: string := "&|!()"

  /** A variable is a single ASCII letter. */
  function IsOperand(s: char): (r: bool)
    ensures r ==> !IsStackOperator(s) && s != ')'
  {
    ('A' <= s <= 'Z') || ('a' <= s <= 'z')
  }

  /** The characters infixToPostfix ever keeps on its operator stack. */
  predicate IsStackOperator(c: char) {
    c == '(' || c == '!' || c == '&' || c == '|'
  }

  /** The precedence table of infixToPostfix: '!' binds tightest, '&' and '|'
      share one level, '(' is lowest so that it is never popped by precedence. */
  function Precedence(op: char): nat
    requires IsStackOperator(op)
  {
    if op == '!' then 3 else if op == '&' || op == '|' then 2 else 1
  }

  /** The letters of `s`, in order. */
  function LetterSeq(s: string): (r: string)
    ensures |r| <= |s|
  {
    if s == [] then [] else (if IsOperand(s[0]) then [s[0]] else []) + LetterSeq(s[1..])
  }

  lemma {:induction false} LetterSeqAppend(a: string, b: string)
    ensures LetterSeq(a + b) == LetterSeq(a) + LetterSeq(b)
  {
    if a == [] {
      assert a + b == b;
    } else {
      var head := if IsOperand(a[0]) then [a[0]] else [];
      assert (a + b)[0] == a[0] && (a + b)[1..] == a[1..] + b;
      LetterSeqAppend(a[1..], b);
      calc {
        LetterSeq(a + b);
        head + LetterSeq(a[1..] + b);
        head + (LetterSeq(a[1..]) + LetterSeq(b));
        (head + LetterSeq(a[1..])) + LetterSeq(b);
      }
    }
  }

  function Last<T>(s: seq<T>): T
    requires s != []
  {
    s[|s| - 1]
  }

  function Front<T>(s: seq<T>): seq<T>
    requires s != []
  {
    s[..|s| - 1]
  }

  // ---------------------------------------------------------------------------
  // Expression tree (the TreeNode objects the source links through .left and
  // .right; a node is never changed after it is built)
  // ---------------------------------------------------------------------------

  /** `Leaf` is a node without children: the builder makes one for every
      character that is not an operator, so a leaf names a variable when its
      character is a letter. '!' keeps its one child in `.left`. '&' and '|'
      have two children; so have '(' and ')', which the builder also treats as
      binary operators (`Bracket`). */
  datatype Expr =
    | Leaf(data: char)
    | Not(child: Expr)
    | And(left: Expr, right: Expr)
    | Or(left: Expr, right: Expr)
    | Bracket(sym: char, left: Expr, right: Expr)

  /** The node the builder makes for a binary operator character. */
  function Binary(op: char, left: Expr, right: Expr): Expr {
    if op == '&' then And(left, right)
    else if op == '|' then Or(left, right)
    else Bracket(op, left, right)
  }

  /** Post-order traversal: the postfix string a tree stands for. */
  function PostOrder(t: Expr): string {
    match t
    case Leaf(c) => [c]
    case Not(e) => PostOrder(e) + "!"
    case And(l, r) => PostOrder(l) + PostOrder(r) + "&"
    case Or(l, r) => PostOrder(l) + PostOrder(r) + "|"
    case Bracket(c, l, r) => PostOrder(l) + PostOrder(r) + [c]
  }

  /** The labels the builder can produce: leaves carry no operator, bracket
      nodes carry '(' or ')'. */
  predicate WellLabelled(t: Expr) {
    match t
    case Leaf(c) => c !in OPERATORS
    case Not(e) => WellLabelled(e)
    case And(l, r) => WellLabelled(l) && WellLabelled(r)
    case Or(l, r) => WellLabelled(l) && WellLabelled(r)
    case Bracket(c, l, r) => (c == '(' || c == ')') && WellLabelled(l) && WellLabelled(r)
  }

  /** A propositional formula proper: letters, negation, conjunction and
      disjunction only. */
  predicate Proper(t: Expr) {
    match t
    case Leaf(c) => IsOperand(c)
    case Not(e) => Proper(e)
    case And(l, r) => Proper(l) && Proper(r)
    case Or(l, r) => Proper(l) && Proper(r)
    case Bracket(_, _, _) => false
  }

  /** The variables a tree mentions. */
  function TreeLetters(t: Expr): set<char> {
    match t
    case Leaf(c) => if IsOperand(c) then {c} else {}
    case Not(e) => TreeLetters(e)
    case And(l, r) => TreeLetters(l) + TreeLetters(r)
    case Or(l, r) => TreeLetters(l) + TreeLetters(r)
    case Bracket(_, l, r) => TreeLetters(l) + TreeLetters(r)
  }

  lemma {:induction false} TreeLettersOfPostOrder(t: Expr)
    requires WellLabelled(t)
    ensures TreeLetters(t) == LetterSet(PostOrder(t))
  {
    match t
    case Leaf(c) =>
      assert PostOrder(t)[0] == c;
    case Not(e) =>
      TreeLettersOfPostOrder(e);
      TwoPartLetters(PostOrder(e), "", '!');
      assert PostOrder(e) + "" + "!" == PostOrder(t);
    case And(l, r) =>
      TreeLettersOfPostOrder(l); TreeLettersOfPostOrder(r);
      TwoPartLetters(PostOrder(l), PostOrder(r), '&');
    case Or(l, r) =>
      TreeLettersOfPostOrder(l); TreeLettersOfPostOrder(r);
      TwoPartLetters(PostOrder(l), PostOrder(r), '|');
    case Bracket(c, l, r) =>
      TreeLettersOfPostOrder(l); TreeLettersOfPostOrder(r);
      TwoPartLetters(PostOrder(l), PostOrder(r), c);
  }

  function LetterSet(s: string): set<char> {
    set k | 0 <= k < |s| && IsOperand(s[k]) :: s[k]
  }

  lemma TwoPartLetters(a: string, b: string, c: char)
    ensures LetterSet(a + b + [c]) == LetterSet(a) + LetterSet(b) + (if IsOperand(c) then {c} else {})
  {
    var s := a + b + [c];
    forall x | x in LetterSet(s)
      ensures x in LetterSet(a) + LetterSet(b) + (if IsOperand(c) then {c} else {})
    {
      var k :| 0 <= k < |s| && IsOperand(s[k]) && s[k] == x;
      if k < |a| { assert a[k] == x; }
      else if k < |a| + |b| { assert b[k - |a|] == x; }
    }
    forall x | x in LetterSet(a) ensures x in LetterSet(s) {
      var k :| 0 <= k < |a| && IsOperand(a[k]) && a[k] == x;
      assert s[k] == x;
    }
    forall x | x in LetterSet(b) ensures x in LetterSet(s) {
      var k :| 0 <= k < |b| && IsOperand(b[k]) && b[k] == x;
      assert s[|a| + k] == x;
    }
    if IsOperand(c) { assert s[|s| - 1] == c; }
  }

  // ---------------------------------------------------------------------------
  // postfixToExpressionTree
  // ---------------------------------------------------------------------------

  /** One step of the builder: a non-operator becomes a leaf; '!' takes the top
      of the stack as its only child; every other operator takes the top as its
      right child and the entry below it as its left child. */
  function BuildStep(stack: seq<Expr>, e: char): Result<seq<Expr>> {
    if e !in OPERATORS then Success(stack + [Leaf(e)])
    else if e == '!' then
      if |stack| < 1 then Failure(EmptyPop)
      else Success(Front(stack) + [Not(Last(stack))])
    else if |stack| < 2 then Failure(EmptyPop)
    else Success(stack[..|stack| - 2] + [Binary(e, stack[|stack| - 2], Last(stack))])
  }

  /** The builder's stack after consuming `postfix`, starting from `stack`. */
  function BuildFrom(stack: seq<Expr>, postfix: string): Result<seq<Expr>>
    decreases |postfix|
  {
    if postfix == [] then Success(stack)
    else
      var next :- BuildStep(stack, postfix[0]);
      BuildFrom(next, postfix[1..])
  }

  /** The tree postfixToExpressionTree returns: the last entry left on the stack
      (entries below it are dropped). */
  function BuildTree(postfix: string): Result<Expr> {
    var stack :- BuildFrom([], postfix);
    if stack == [] then Failure(EmptyPop) else Success(Last(stack))
  }

  method PostfixToExpressionTree(postfix: string) returns (root: Result<Expr>)
    ensures root == BuildTree(postfix)
  {
    var exprTreeStack: seq<Expr> := [];
    for i := 0 to |postfix|
      invariant BuildFrom(exprTreeStack, postfix[i..]) == BuildFrom([], postfix)
    {
      assert postfix[i..][0] == postfix[i] && postfix[i..][1..] == postfix[i + 1..];
      ghost var before := exprTreeStack;
      var e := postfix[i];
      var node := Leaf(e);
      if e in OPERATORS {
        if e == '!' {
          if exprTreeStack == [] { return Failure(EmptyPop); }
          node := Not(Last(exprTreeStack));
          exprTreeStack := Front(exprTreeStack);
        } else {
          if exprTreeStack == [] { return Failure(EmptyPop); }
          var right := Last(exprTreeStack);
          exprTreeStack := Front(exprTreeStack);
          if exprTreeStack == [] { return Failure(EmptyPop); }
          var left := Last(exprTreeStack);
          exprTreeStack := Front(exprTreeStack);
          node := Binary(e, left, right);
          assert exprTreeStack == before[..|before| - 2];
        }
      }
      exprTreeStack := exprTreeStack + [node];
      assert BuildStep(before, e) == Success(exprTreeStack);
    }
    if exprTreeStack == [] { return Failure(EmptyPop); }
    root := Success(Last(exprTreeStack));
  }

  /** The postfix strings of a stack of trees, bottom first. */
  function Flatten(stack: seq<Expr>): string {
    if stack == [] then [] else Flatten(Front(stack)) + PostOrder(Last(stack))
  }

  lemma {:induction false} BuildFromAppend(stack: seq<Expr>, p: string, q: string)
    ensures BuildFrom(stack, p + q) ==
              match BuildFrom(stack, p)
              case Failure(e) => Failure(e)
              case Success(mid) => BuildFrom(mid, q)
    decreases |p|
  {
    if p == [] {
      assert p + q == q;
    } else {
      assert (p + q)[0] == p[0] && (p + q)[1..] == p[1..] + q;
      match BuildStep(stack, p[0])
      case Failure(_) =>
      case Success(next) => BuildFromAppend(next, p[1..], q);
    }
  }

  lemma BuildStepFlatten(stack: seq<Expr>, e: char)
    requires BuildStep(stack, e).Success?
    ensures Flatten(BuildStep(stack, e).value) == Flatten(stack) + [e]
  {
    var next := BuildStep(stack, e).value;
    if e !in OPERATORS {
      assert Front(next) == stack;
    } else if e == '!' {
      assert Front(next) == Front(stack);
    } else {
      var n := |stack|;
      assert Front(next) == stack[..n - 2];
      assert Front(Front(stack)) == stack[..n - 2];
      assert PostOrder(Binary(e, stack[n - 2], stack[n - 1]))
          == PostOrder(stack[n - 2]) + PostOrder(stack[n - 1]) + [e];
    }
  }

  /** The builder keeps this invariant: the post-order traversals of its stack
      spell out exactly the postfix consumed so far. */
  lemma {:induction false} BuildFromFlatten(stack: seq<Expr>, p: string)
    requires BuildFrom(stack, p).Success?
    ensures Flatten(BuildFrom(stack, p).value) == Flatten(stack) + p
    decreases |p|
  {
    if p == [] {
    } else {
      var next := BuildStep(stack, p[0]).value;
      BuildStepFlatten(stack, p[0]);
      BuildFromFlatten(next, p[1..]);
      assert [p[0]] + p[1..] == p;
    }
  }

  /** Building a tree's own post-order traversal pushes exactly that tree. */
  lemma {:induction false} BuildFromPostOrder(stack: seq<Expr>, t: Expr)
    requires WellLabelled(t)
    ensures BuildFrom(stack, PostOrder(t)) == Success(stack + [t])
    decreases t
  {
    match t
    case Leaf(c) =>
    case Not(e) =>
      BuildFromPostOrder(stack, e);
      BuildFromAppend(stack, PostOrder(e), "!");
      assert Front(stack + [e]) == stack;
    case And(l, r) =>
      BuildFromPostOrder(stack, l); BuildFromPostOrder(stack + [l], r);
      BuildBinaryPostOrder(stack, l, r, '&');
    case Or(l, r) =>
      BuildFromPostOrder(stack, l); BuildFromPostOrder(stack + [l], r);
      BuildBinaryPostOrder(stack, l, r, '|');
    case Bracket(c, l, r) =>
      BuildFromPostOrder(stack, l); BuildFromPostOrder(stack + [l], r);
      BuildBinaryPostOrder(stack, l, r, c);
  }

  lemma {:induction false} BuildBinaryPostOrder(stack: seq<Expr>, l: Expr, r: Expr, op: char)
    requires WellLabelled(l) && WellLabelled(r) && op in OPERATORS && op != '!'
    requires BuildFrom(stack, PostOrder(l)) == Success(stack + [l])
    requires BuildFrom(stack + [l], PostOrder(r)) == Success(stack + [l] + [r])
    ensures BuildFrom(stack, PostOrder(l) + PostOrder(r) + [op]) == Success(stack + [Binary(op, l, r)])
  {
    BuildFromAppend(stack, PostOrder(l), PostOrder(r));
    BuildFromAppend(stack, PostOrder(l) + PostOrder(r), [op]);
    var s := stack + [l] + [r];
    assert s[..|s| - 2] == stack;
  }

  /** Round trip, tree to postfix to tree: building the post-order traversal
      of any tree the builder can produce gives that tree back, alone on the
      stack. */
  lemma BuildTreeOfPostOrder(t: Expr)
    requires WellLabelled(t)
    ensures BuildFrom([], PostOrder(t)) == Success([t])
    ensures BuildTree(PostOrder(t)) == Success(t)
  {
    BuildFromPostOrder([], t);
    assert [] + [t] == [t];
  }

  /** Round trip, postfix to tree to postfix: when the postfix reduces to a
      single tree, that tree's post-order traversal is the postfix itself. */
  lemma BuildTreeRoundTrip(postfix: string, t: Expr)
    requires BuildFrom([], postfix) == Success([t])
    ensures BuildTree(postfix) == Success(t)
    ensures PostOrder(t) == postfix
  {
    BuildFromFlatten([], postfix);
    assert Front([t]) == [];
    assert Flatten([t]) == Flatten([]) + PostOrder(t) == PostOrder(t);
  }

  /** Whatever the builder returns is the tree of a suffix of its input (the
      trees left below it on the stack account for the rest). */
  lemma BuildTreeSuffix(postfix: string, t: Expr)
    requires BuildTree(postfix) == Success(t)
    ensures |PostOrder(t)| <= |postfix|
    ensures postfix[|postfix| - |PostOrder(t)|..] == PostOrder(t)
  {
    var stack := BuildFrom([], postfix).value;
    BuildFromFlatten([], postfix);
    assert postfix == Flatten(Front(stack)) + PostOrder(t);
  }

  /** The builder's only error is popping an empty stack (IndexError). */
  lemma {:induction false} BuildFromErrors(stack: seq<Expr>, p: string)
    ensures BuildFrom(stack, p).Failure? ==> BuildFrom(stack, p).error == EmptyPop
    decreases |p|
  {
    if p != [] && BuildStep(stack, p[0]).Success? {
      BuildFromErrors(BuildStep(stack, p[0]).value, p[1..]);
    }
  }

  lemma BuildTreeErrors(postfix: string)
    ensures BuildTree(postfix).Failure? ==> BuildTree(postfix).error == EmptyPop
  {
    BuildFromErrors([], postfix);
  }

  /** The characters of well-formed postfix: letters and the three connectives. */
  predicate PostfixSymbol(c: char) {
    IsOperand(c) || c == '!' || c == '&' || c == '|'
  }

  /** Every tree on the builder's stack is well labelled, and over well-formed
      postfix every one is a proper formula. */
  lemma {:induction false} BuildFromShapes(stack: seq<Expr>, p: string)
    requires BuildFrom(stack, p).Success?
    requires forall k :: 0 <= k < |stack| ==> WellLabelled(stack[k])
    ensures var after := BuildFrom(stack, p).value;
      forall k :: 0 <= k < |after| ==> WellLabelled(after[k])
    ensures var after := BuildFrom(stack, p).value;
      (forall k :: 0 <= k < |stack| ==> Proper(stack[k])) &&
      (forall k :: 0 <= k < |p| ==> PostfixSymbol(p[k])) ==>
      forall k :: 0 <= k < |after| ==> Proper(after[k])
    decreases |p|
  {
    if p != [] {
      var next := BuildStep(stack, p[0]).value;
      var n := |stack|;
      assert forall k :: 0 <= k < |next| - 1 ==> next[k] == stack[k];
      BuildFromShapes(next, p[1..]);
      if (forall k :: 0 <= k < |stack| ==> Proper(stack[k])) &&
         (forall k :: 0 <= k < |p| ==> PostfixSymbol(p[k])) {
        assert PostfixSymbol(p[0]);
        assert forall k :: 0 <= k < |p[1..]| ==> PostfixSymbol(p[1..][k]) by {
          forall k | 0 <= k < |p[1..]| ensures PostfixSymbol(p[1..][k]) {
            assert p[1..][k] == p[k + 1];
          }
        }
      }
    }
  }

  /** The tree built from well-formed postfix is a proper formula. */
  lemma BuildTreeShape(postfix: string, t: Expr)
    requires BuildTree(postfix) == Success(t)
    ensures WellLabelled(t)
    ensures (forall k :: 0 <= k < |postfix| ==> PostfixSymbol(postfix[k])) ==> Proper(t)
  {
    BuildFromShapes([], postfix);
  }

  // ---------------------------------------------------------------------------
  // infixToPostfix
  // ---------------------------------------------------------------------------

  /** The converter's state: its operator stack (top last) and the output. */
  datatype Shunt = Shunt(stack: seq<char>, output: string)

  predicate OperatorStack(stack: seq<char>) {
    forall k :: 0 <= k < |stack| ==> IsStackOperator(stack[k])
  }

  /** True when the incoming operator `op` pops nothing: the stack is empty,
      its top is '(' or its top binds less tightly than `op`. */
  predicate Blocks(stack: seq<char>, op: char)
    requires OperatorStack(stack) && IsStackOperator(op)
  {
    stack == [] || Last(stack) == '(' || Precedence(Last(stack)) < Precedence(op)
  }

  /** What an incoming '!', '&' or '|' does before it is pushed: move
      operators from the top of the stack to the output while the top is not
      '(' and has precedence at least that of the incoming operator. */
  function PopTighter(st: Shunt, op: char): (r: Shunt)
    requires OperatorStack(st.stack) && IsStackOperator(op)
    ensures OperatorStack(r.stack) && Blocks(r.stack, op)
    ensures |r.stack| <= |st.stack| && r.stack == st.stack[..|r.stack|]
    decreases |st.stack|
  {
    if Blocks(st.stack, op) then st
    else PopTighter(Shunt(Front(st.stack), st.output + [Last(st.stack)]), op)
  }

  /** The pop loop stops at the first entry that blocks `op`: every entry it
      removes is an operator other than '(' (so '(' is a barrier) binding at
      least as tightly as `op`. */
  lemma {:induction false} PopTighterPops(st: Shunt, op: char)
    requires OperatorStack(st.stack) && IsStackOperator(op)
    ensures var r := PopTighter(st, op);
      forall k :: |r.stack| <= k < |st.stack| ==>
        st.stack[k] != '(' && Precedence(st.stack[k]) >= Precedence(op)
    decreases |st.stack|
  {
    if !Blocks(st.stack, op) {
      PopTighterPops(Shunt(Front(st.stack), st.output + [Last(st.stack)]), op);
    }
  }

  /** The entries the pop loop removes reach the output top first, exactly
      as the final flush would move them. */
  lemma {:induction false} PopTighterOutputOrder(st: Shunt, op: char)
    requires OperatorStack(st.stack) && IsStackOperator(op)
    ensures var r := PopTighter(st, op);
      r.output == Flush(Shunt(st.stack[|r.stack|..], st.output))
    decreases |st.stack|
  {
    var r := PopTighter(st, op);
    if Blocks(st.stack, op) {
      assert st.stack[|st.stack|..] == [];
    } else {
      var next := Shunt(Front(st.stack), st.output + [Last(st.stack)]);
      PopTighterOutputOrder(next, op);
      assert r == PopTighter(next, op);
      var removed := st.stack[|r.stack|..];
      assert Last(removed) == Last(st.stack) && Front(removed) == next.stack[|r.stack|..];
    }
  }

  /** What ')' does: move operators to the output until a '(' is popped and
      dropped, or until the stack is empty (an unmatched ')' raises nothing). */
  function CloseBracket(st: Shunt): (r: Shunt)
    requires OperatorStack(st.stack)
    ensures OperatorStack(r.stack)
    decreases |st.stack|
  {
    if st.stack == [] then st
    else if Last(st.stack) == '(' then Shunt(Front(st.stack), st.output)
    else CloseBracket(Shunt(Front(st.stack), st.output + [Last(st.stack)]))
  }

  /** The final flush: every operator left, '(' included, goes to the output,
      top first. */
  function Flush(st: Shunt): string
    decreases |st.stack|
  {
    if st.stack == [] then st.output
    else Flush(Shunt(Front(st.stack), st.output + [Last(st.stack)]))
  }

  /** One character of input. Letters go straight to the output; characters
      that are neither letters nor operators (blanks among them) are dropped. */
  function Step(st: Shunt, c: char): (r: Shunt)
    requires OperatorStack(st.stack)
    ensures OperatorStack(r.stack)
  {
    if c in OPERATORS then
      if c == ')' then CloseBracket(st)
      else if c == '(' then Shunt(st.stack + [c], st.output)
      else
        var popped := PopTighter(st, c);
        Shunt(popped.stack + [c], popped.output)
    else if IsOperand(c) then Shunt(st.stack, st.output + [c])
    else st
  }

  function Scan(st: Shunt, infix: string): (r: Shunt)
    requires OperatorStack(st.stack)
    ensures OperatorStack(r.stack)
    decreases |infix|
  {
    if infix == [] then st else Scan(Step(st, infix[0]), infix[1..])
  }

  /** The postfix string infixToPostfix returns. */
  function ToPostfix(infix: string): string {
    Flush(Scan(Shunt([], ""), infix))
  }

  /** The loop that ')' runs (utils.py:72-77): pop operators onto the output
      until a '(' is popped and dropped or the stack is empty, keeping `top`
      one below the stack height. */
  method PopToOpenBracket(stack: seq<char>, out: string, top: int)
      returns (operatorStack: seq<char>, postfix: string, newTop: int)
    requires OperatorStack(stack) && top == |stack| - 1
    ensures Shunt(operatorStack, postfix) == CloseBracket(Shunt(stack, out))
    ensures newTop == |operatorStack| - 1
  {
    operatorStack, postfix, newTop := stack, out, top;
    while operatorStack != []
      invariant newTop == |operatorStack| - 1
      invariant OperatorStack(operatorStack)
      invariant CloseBracket(Shunt(operatorStack, postfix)) == CloseBracket(Shunt(stack, out))
      decreases |operatorStack|
    {
      var op := Last(operatorStack);
      operatorStack := Front(operatorStack);
      newTop := newTop - 1;
      if op == '(' {
        return;
      }
      postfix := postfix + [op];
    }
  }

  /** The loop that '!', '&' and '|' run before they are pushed
      (utils.py:79-89). `tempTop` walks down from `top`; it stops at a '(',
      and the operator at `top` is popped while its precedence is at least
      that of `s`. Once the top binds less tightly nothing more is popped,
      though `tempTop` keeps walking down. */
  method PopWhileTighter(stack: seq<char>, out: string, top: int, s: char)
      returns (operatorStack: seq<char>, postfix: string, newTop: int)
    requires OperatorStack(stack) && top == |stack| - 1
    requires s == '!' || s == '&' || s == '|'
    ensures Shunt(operatorStack, postfix) == PopTighter(Shunt(stack, out), s)
    ensures newTop == |operatorStack| - 1
  {
    operatorStack, postfix, newTop := stack, out, top;
    var tempTop := newTop;
    while tempTop > -1
      invariant -1 <= tempTop <= newTop == |operatorStack| - 1
      invariant OperatorStack(operatorStack)
      invariant PopTighter(Shunt(operatorStack, postfix), s) == PopTighter(Shunt(stack, out), s)
      invariant tempTop < newTop ==> Blocks(operatorStack, s)
      decreases tempTop
    {
      if operatorStack[tempTop] == '(' {
        assert Blocks(operatorStack, s);
        break;
      }
      if Precedence(operatorStack[newTop]) >= Precedence(s) {
        assert operatorStack[newTop] == Last(operatorStack) && !Blocks(operatorStack, s);
        postfix := postfix + [operatorStack[newTop]];
        operatorStack := operatorStack[..newTop];
        newTop := newTop - 1;
      }
      tempTop := tempTop - 1;
    }
    assert Blocks(operatorStack, s);
  }

  method InfixToPostfix(infix: string) returns (postfix: string)
    ensures postfix == ToPostfix(infix)
  {
    var top := -1;
    var operatorStack: seq<char> := [];
    postfix := "";
    for i := 0 to |infix|
      invariant top == |operatorStack| - 1
      invariant OperatorStack(operatorStack)
      invariant Scan(Shunt(operatorStack, postfix), infix[i..]) == Scan(Shunt([], ""), infix)
    {
      assert infix[i..][0] == infix[i] && infix[i..][1..] == infix[i + 1..];
      ghost var before := Shunt(operatorStack, postfix);
      var s := infix[i];
      if s in OPERATORS {
        if s == ')' {
          operatorStack, postfix, top := PopToOpenBracket(operatorStack, postfix, top);
        } else {
          if s == '(' {
            operatorStack := operatorStack + [s];
          } else {
            operatorStack, postfix, top := PopWhileTighter(operatorStack, postfix, top, s);
            operatorStack := operatorStack + [s];
          }
          top := top + 1;
        }
      } else if IsOperand(s) {
        postfix := postfix + [s];
      }
      assert Step(before, s) == Shunt(operatorStack, postfix);
    }
    while operatorStack != []
      invariant top == |operatorStack| - 1
      invariant Flush(Shunt(operatorStack, postfix)) == ToPostfix(infix)
      decreases |operatorStack|
    {
      postfix := postfix + [Last(operatorStack)];
      operatorStack := Front(operatorStack);
      top := top - 1;
    }
  }

  // Properties of the converter ------------------------------------------------

  /** The characters the converter can output: letters and stacked operators. */
  predicate ConverterAlphabet(s: string) {
    forall k :: 0 <= k < |s| ==> IsOperand(s[k]) || IsStackOperator(s[k])
  }

  /** Moving one operator from the stack to the output adds no letter and keeps
      the output within the converter's alphabet. */
  lemma EmitOperator(out: string, op: char)
    requires IsStackOperator(op)
    ensures LetterSeq(out + [op]) == LetterSeq(out)
    ensures ConverterAlphabet(out) ==> ConverterAlphabet(out + [op])
  {
    LetterSeqAppend(out, [op]);
  }

  lemma {:induction false} PopTighterOutput(st: Shunt, op: char)
    requires OperatorStack(st.stack) && IsStackOperator(op)
    ensures LetterSeq(PopTighter(st, op).output) == LetterSeq(st.output)
    ensures ConverterAlphabet(st.output) ==> ConverterAlphabet(PopTighter(st, op).output)
    decreases |st.stack|
  {
    if !Blocks(st.stack, op) {
      EmitOperator(st.output, Last(st.stack));
      PopTighterOutput(Shunt(Front(st.stack), st.output + [Last(st.stack)]), op);
    }
  }

  lemma {:induction false} CloseBracketOutput(st: Shunt)
    requires OperatorStack(st.stack)
    ensures LetterSeq(CloseBracket(st).output) == LetterSeq(st.output)
    ensures ConverterAlphabet(st.output) ==> ConverterAlphabet(CloseBracket(st).output)
    decreases |st.stack|
  {
    if st.stack != [] && Last(st.stack) != '(' {
      EmitOperator(st.output, Last(st.stack));
      CloseBracketOutput(Shunt(Front(st.stack), st.output + [Last(st.stack)]));
    }
  }

  lemma {:induction false} FlushOutput(st: Shunt)
    requires OperatorStack(st.stack)
    ensures LetterSeq(Flush(st)) == LetterSeq(st.output)
    ensures ConverterAlphabet(st.output) ==> ConverterAlphabet(Flush(st))
    decreases |st.stack|
  {
    if st.stack != [] {
      EmitOperator(st.output, Last(st.stack));
      FlushOutput(Shunt(Front(st.stack), st.output + [Last(st.stack)]));
    }
  }

  lemma StepOutput(st: Shunt, c: char)
    requires OperatorStack(st.stack)
    ensures LetterSeq(Step(st, c).output) == LetterSeq(st.output) + LetterSeq([c])
    ensures ConverterAlphabet(st.output) ==> ConverterAlphabet(Step(st, c).output)
  {
    assert LetterSeq([c]) == (if IsOperand(c) then [c] else []);
    if c in OPERATORS {
      if c == ')' {
        CloseBracketOutput(st);
      } else if c != '(' {
        PopTighterOutput(st, c);
      }
    } else if IsOperand(c) {
      LetterSeqAppend(st.output, [c]);
    }
  }

  lemma {:induction false} ScanOutput(st: Shunt, infix: string)
    requires OperatorStack(st.stack)
    ensures LetterSeq(Scan(st, infix).output) == LetterSeq(st.output) + LetterSeq(infix)
    ensures ConverterAlphabet(st.output) ==> ConverterAlphabet(Scan(st, infix).output)
    decreases |infix|
  {
    if infix != [] {
      StepOutput(st, infix[0]);
      ScanOutput(Step(st, infix[0]), infix[1..]);
      assert infix == [infix[0]] + infix[1..];
      LetterSeqAppend([infix[0]], infix[1..]);
    }
  }

  /** The converter copies the letters of its input to its output, in order,
      and adds none: only the operators and the dropped characters move. Its
      output holds letters, '!', '&', '|' and possibly an unclosed '(', never
      a ')'. */
  lemma ToPostfixLetters(infix: string)
    ensures LetterSeq(ToPostfix(infix)) == LetterSeq(infix)
    ensures ConverterAlphabet(ToPostfix(infix))
  {
    var st := Scan(Shunt([], ""), infix);
    ScanOutput(Shunt([], ""), infix);
    FlushOutput(st);
  }

  // The converter only ever appends to `postfix` and never reads it back:
  // converting from a state with some output already written gives that
  // output followed by what converting from an empty output gives.

  lemma {:induction false} PopTighterAppends(stack: seq<char>, out: string, op: char)
    requires OperatorStack(stack) && IsStackOperator(op)
    ensures var r := PopTighter(Shunt(stack, ""), op);
      PopTighter(Shunt(stack, out), op) == Shunt(r.stack, out + r.output)
    decreases |stack|
  {
    if !Blocks(stack, op) {
      PopTighterAppends(Front(stack), out + [Last(stack)], op);
      PopTighterAppends(Front(stack), [Last(stack)], op);
      assert [] + [Last(stack)] == [Last(stack)];
    }
  }

  lemma {:induction false} CloseBracketAppends(stack: seq<char>, out: string)
    requires OperatorStack(stack)
    ensures var r := CloseBracket(Shunt(stack, ""));
      CloseBracket(Shunt(stack, out)) == Shunt(r.stack, out + r.output)
    decreases |stack|
  {
    if stack != [] && Last(stack) != '(' {
      CloseBracketAppends(Front(stack), out + [Last(stack)]);
      CloseBracketAppends(Front(stack), [Last(stack)]);
      assert [] + [Last(stack)] == [Last(stack)];
    }
  }

  /** The final flush appends the stacked operators, top first, to whatever
      output has been written. */
  lemma {:induction false} FlushAppends(stack: seq<char>, out: string)
    ensures Flush(Shunt(stack, out)) == out + Flush(Shunt(stack, ""))
    decreases |stack|
  {
    if stack != [] {
      FlushAppends(Front(stack), out + [Last(stack)]);
      FlushAppends(Front(stack), [Last(stack)]);
      assert [] + [Last(stack)] == [Last(stack)];
    }
  }

  lemma StepAppends(stack: seq<char>, out: string, c: char)
    requires OperatorStack(stack)
    ensures var r := Step(Shunt(stack, ""), c);
      Step(Shunt(stack, out), c) == Shunt(r.stack, out + r.output)
  {
    if c in OPERATORS {
      if c == ')' {
        CloseBracketAppends(stack, out);
      } else if c != '(' {
        PopTighterAppends(stack, out, c);
      }
    }
  }

  /** Converting any input from a state whose output is `out` leaves the same
      operator stack as converting it from an empty output, and an output that
      extends `out` by exactly what that conversion writes. */
  lemma {:induction false} ScanAppends(stack: seq<char>, out: string, infix: string)
    requires OperatorStack(stack)
    ensures var r := Scan(Shunt(stack, ""), infix);
      Scan(Shunt(stack, out), infix) == Shunt(r.stack, out + r.output)
    decreases |infix|
  {
    if infix != [] {
      StepAppends(stack, out, infix[0]);
      var r := Step(Shunt(stack, ""), infix[0]);
      ScanAppends(r.stack, out + r.output, infix[1..]);
      ScanAppends(r.stack, r.output, infix[1..]);
    }
  }

  /** The input is read left to right in one pass: converting p + q is
      converting p and then q from the state p leaves. */
  lemma {:induction false} ScanConcat(st: Shunt, p: string, q: string)
    requires OperatorStack(st.stack)
    ensures Scan(st, p + q) == Scan(Scan(st, p), q)
    decreases |p|
  {
    if p == [] {
      assert p + q == q;
    } else {
      assert (p + q)[0] == p[0] && (p + q)[1..] == p[1..] + q;
      ScanConcat(Step(st, p[0]), p[1..], q);
    }
  }

  // ---------------------------------------------------------------------------
  // evaluateExprTree and the reference meaning of a tree
  // ---------------------------------------------------------------------------

  /** The short-circuit tree evaluator. A letter is looked up in the map (a
      missing one raises KeyError); '!' negates its child; '&' stops at a false
      left child and '|' at a true one without visiting the right child;
      anything else (a leaf that is not a letter, a bracket node) yields True
      once its children have been visited. */
  function EvaluateExprTree(root: Expr, variableMap: map<char, bool>): (r: Result<bool>)
    ensures r.Failure? ==>
              r.error.MissingKey? && r.error.key in TreeLetters(root) && r.error.key !in variableMap
  {
    match root
    case Leaf(c) =>
      if IsOperand(c) then
        if c in variableMap then Success(variableMap[c]) else Failure(MissingKey(c))
      else Success(true)
    case Not(e) =>
      var left :- EvaluateExprTree(e, variableMap);
      Success(!left)
    case And(l, r) =>
      var left :- EvaluateExprTree(l, variableMap);
      if !left then Success(false) else EvaluateExprTree(r, variableMap)
    case Or(l, r) =>
      var left :- EvaluateExprTree(l, variableMap);
      if left then Success(true) else EvaluateExprTree(r, variableMap)
    case Bracket(_, l, r) =>
      var _ :- EvaluateExprTree(l, variableMap);
      var _ :- EvaluateExprTree(r, variableMap);
      Success(true)
  }

  /** The truth value of a tree under an assignment, read as ordinary boolean
      algebra with both operands always considered (an unbound letter reads
      as false; nodes that are not connectives as true). */
  function Holds(t: Expr, a: map<char, bool>): bool {
    match t
    case Leaf(c) => if IsOperand(c) then c in a && a[c] else true
    case Not(e) => !Holds(e, a)
    case And(l, r) => Holds(l, a) && Holds(r, a)
    case Or(l, r) => Holds(l, a) || Holds(r, a)
    case Bracket(_, _, _) => true
  }

  /** Short-circuiting changes nothing but which lookups happen: whenever the
      tree evaluator returns a value it is the tree's truth value; it fails
      only on a letter of the tree that the map lacks; and when the map binds
      every letter of the tree it does not fail. */
  lemma {:induction false} EvaluateExprTreeMeaning(t: Expr, a: map<char, bool>)
    ensures EvaluateExprTree(t, a).Success? ==> EvaluateExprTree(t, a).value == Holds(t, a)
    ensures EvaluateExprTree(t, a).Failure? ==>
              var e := EvaluateExprTree(t, a).error;
              e.MissingKey? && e.key in TreeLetters(t) && e.key !in a
    ensures TreeLetters(t) <= a.Keys ==> EvaluateExprTree(t, a).Success?
  {
    match t
    case Leaf(c) =>
    case Not(e) =>
      EvaluateExprTreeMeaning(e, a);
    case And(l, r) =>
      EvaluateExprTreeMeaning(l, a);
      EvaluateExprTreeMeaning(r, a);
    case Or(l, r) =>
      EvaluateExprTreeMeaning(l, a);
      EvaluateExprTreeMeaning(r, a);
    case Bracket(_, l, r) =>
      EvaluateExprTreeMeaning(l, a);
      EvaluateExprTreeMeaning(r, a);
  }

  /** The truth value of a tree depends only on the values of its own letters
      (a letter a map lacks reading as false). */
  lemma {:induction false} HoldsOnlyReadsItsLetters(t: Expr, a: map<char, bool>, b: map<char, bool>)
    requires forall c :: c in TreeLetters(t) ==> (c in a && a[c]) == (c in b && b[c])
    ensures Holds(t, a) == Holds(t, b)
  {
    match t
    case Leaf(c) =>
    case Not(e) =>
      HoldsOnlyReadsItsLetters(e, a, b);
    case And(l, r) =>
      HoldsOnlyReadsItsLetters(l, a, b);
      HoldsOnlyReadsItsLetters(r, a, b);
    case Or(l, r) =>
      HoldsOnlyReadsItsLetters(l, a, b);
      HoldsOnlyReadsItsLetters(r, a, b);
    case Bracket(_, _, _) =>
  }

  // ---------------------------------------------------------------------------
  // evaluateExpr: the stack evaluator over postfix
  // ---------------------------------------------------------------------------

  /** An entry of evaluateExpr's stack: a letter not yet looked up, or a value
      an operator has computed. */
  datatype Slot = Ref(name: char) | Val(value: bool)

  /** Looking an entry up: letters go through the map, values stay. */
  function Resolve(x: Slot, variableMap: map<char, bool>): Result<bool> {
    match x
    case Val(b) => Success(b)
    case Ref(c) => if c in variableMap then Success(variableMap[c]) else Failure(MissingKey(c))
  }

  /** One symbol of evaluateExpr. A letter is pushed unresolved; '!' pops one
      entry; '&' and '|' pop the right operand, then the left one, and look up
      the right one first; '(' and ')' and every other character do nothing. */
  function EvalStep(stack: seq<Slot>, e: char, variableMap: map<char, bool>): Result<seq<Slot>> {
    if IsOperand(e) then Success(stack + [Ref(e)])
    else if e == '!' then
      if |stack| < 1 then Failure(EmptyPop)
      else
        var val :- Resolve(Last(stack), variableMap);
        Success(Front(stack) + [Val(!val)])
    else if e == '&' || e == '|' then
      if |stack| < 2 then Failure(EmptyPop)
      else
        var valA :- Resolve(Last(stack), variableMap);
        var valB :- Resolve(stack[|stack| - 2], variableMap);
        Success(stack[..|stack| - 2] + [Val(if e == '&' then valA && valB else valA || valB)])
    else Success(stack)
  }

  function EvalFrom(stack: seq<Slot>, postfix: string, variableMap: map<char, bool>): Result<seq<Slot>>
    decreases |postfix|
  {
    if postfix == [] then Success(stack)
    else
      var next :- EvalStep(stack, postfix[0], variableMap);
      EvalFrom(next, postfix[1..], variableMap)
  }

  /** What evaluateExpr returns: the last entry of the stack, looked up
      (entries below it are ignored). */
  function PostfixValue(postfix: string, variableMap: map<char, bool>): Result<bool> {
    var stack :- EvalFrom([], postfix, variableMap);
    if stack == [] then Failure(EmptyPop) else Resolve(Last(stack), variableMap)
  }

  method EvaluateExpr(postfix: string, variableMap: map<char, bool>) returns (result: Result<bool>)
    ensures result == PostfixValue(postfix, variableMap)
  {
    var resultStack: seq<Slot> := [];
    for i := 0 to |postfix|
      invariant EvalFrom(resultStack, postfix[i..], variableMap) == EvalFrom([], postfix, variableMap)
    {
      assert postfix[i..][0] == postfix[i] && postfix[i..][1..] == postfix[i + 1..];
      ghost var before := resultStack;
      var e := postfix[i];
      if IsOperand(e) {
        resultStack := resultStack + [Ref(e)];
      } else if e in OPERATORS {
        if e == '!' {
          if resultStack == [] { return Failure(EmptyPop); }
          var val := Last(resultStack);
          resultStack := Front(resultStack);
          var v := Resolve(val, variableMap);
          if v.Failure? { return Failure(v.error); }
          resultStack := resultStack + [Val(!v.value)];
        } else if e == '&' || e == '|' {
          if resultStack == [] { return Failure(EmptyPop); }
          var valA := Last(resultStack);
          resultStack := Front(resultStack);
          if resultStack == [] { return Failure(EmptyPop); }
          var valB := Last(resultStack);
          resultStack := Front(resultStack);
          assert resultStack == before[..|before| - 2];
          var a := Resolve(valA, variableMap);
          if a.Failure? { return Failure(a.error); }
          var b := Resolve(valB, variableMap);
          if b.Failure? { return Failure(b.error); }
          if e == '&' {
            resultStack := resultStack + [Val(a.value && b.value)];
          } else {
            resultStack := resultStack + [Val(a.value || b.value)];
          }
        }
      }
      assert EvalStep(before, e, variableMap) == Success(resultStack);
    }
    if resultStack == [] { return Failure(EmptyPop); }
    result := Resolve(Last(resultStack), variableMap);
  }

  lemma {:induction false} EvalFromAppend(stack: seq<Slot>, p: string, q: string, a: map<char, bool>)
    ensures EvalFrom(stack, p + q, a) ==
              match EvalFrom(stack, p, a)
              case Failure(e) => Failure(e)
              case Success(mid) => EvalFrom(mid, q, a)
    decreases |p|
  {
    if p == [] {
      assert p + q == q;
    } else {
      assert (p + q)[0] == p[0] && (p + q)[1..] == p[1..] + q;
      match EvalStep(stack, p[0], a)
      case Failure(_) =>
      case Success(next) => EvalFromAppend(next, p[1..], q, a);
    }
  }

  lemma EvalFromSingle(stack: seq<Slot>, c: char, a: map<char, bool>)
    ensures EvalFrom(stack, [c], a) == EvalStep(stack, c, a)
  {
    assert [c][1..] == [];
  }

  /** The entry the stack evaluator leaves for a tree: a bare letter stays
      unresolved, anything larger has been computed. */
  function Pushed(t: Expr, a: map<char, bool>): Slot {
    if t.Leaf? then Ref(t.data) else Val(Holds(t, a))
  }

  lemma ResolvePushed(t: Expr, a: map<char, bool>)
    requires Proper(t) && (t.Leaf? || TreeLetters(t) <= a.Keys)
    ensures TreeLetters(t) <= a.Keys ==> Resolve(Pushed(t, a), a) == Success(Holds(t, a))
    ensures !(TreeLetters(t) <= a.Keys) ==>
              t.data in TreeLetters(t) && t.data !in a &&
              Resolve(Pushed(t, a), a) == Failure(MissingKey(t.data))
  {
  }

  /** Evaluating a proper tree's post-order traversal on top of any stack
      pushes one entry for the tree and touches nothing below it; it fails
      exactly when the tree is larger than a letter and the map lacks one of
      its letters, and then on such a letter. */
  lemma {:induction false} EvalFromPostOrder(stack: seq<Slot>, t: Expr, a: map<char, bool>)
    requires Proper(t)
    ensures t.Leaf? || TreeLetters(t) <= a.Keys ==>
              EvalFrom(stack, PostOrder(t), a) == Success(stack + [Pushed(t, a)])
    ensures !t.Leaf? && !(TreeLetters(t) <= a.Keys) ==>
              var r := EvalFrom(stack, PostOrder(t), a);
              r.Failure? && r.error.MissingKey? && r.error.key in TreeLetters(t) && r.error.key !in a
    decreases t, 1
  {
    match t
    case Leaf(c) =>
    case Not(e) =>
      EvalFromPostOrder(stack, e, a);
      EvalFromAppend(stack, PostOrder(e), "!", a);
      if e.Leaf? || TreeLetters(e) <= a.Keys {
        var s1 := stack + [Pushed(e, a)];
        assert Front(s1) == stack && Last(s1) == Pushed(e, a);
        EvalFromSingle(s1, '!', a);
        assert "!" == ['!'];
        assert EvalFrom(stack, PostOrder(t), a) == EvalFrom(s1, "!", a);
        assert EvalFrom(s1, "!", a) == EvalStep(s1, '!', a);
        ResolvePushed(e, a);
        assert EvalFrom(stack, PostOrder(t), a) == EvalFrom(s1, "!", a);
        assert EvalFrom(s1, "!", a) == EvalStep(s1, '!', a);

      }
    case And(_, _) =>
      EvalBinaryPostOrder(stack, t, a);
    case Or(_, _) =>
      EvalBinaryPostOrder(stack, t, a);
  }

  lemma {:induction false} EvalBinaryPostOrder(stack: seq<Slot>, t: Expr, a: map<char, bool>)
    requires (t.And? || t.Or?) && Proper(t)
    ensures TreeLetters(t) <= a.Keys ==>
              EvalFrom(stack, PostOrder(t), a) == Success(stack + [Pushed(t, a)])
    ensures !(TreeLetters(t) <= a.Keys) ==>
              var res := EvalFrom(stack, PostOrder(t), a);
              res.Failure? && res.error.MissingKey? && res.error.key in TreeLetters(t) && res.error.key !in a
    decreases t, 0
  {
    var l, r, op := t.left, t.right, if t.And? then '&' else '|';
    assert PostOrder(t) == PostOrder(l) + PostOrder(r) + [op];
    assert TreeLetters(t) == TreeLetters(l) + TreeLetters(r);
    EvalFromPostOrder(stack, l, a);
    EvalFromAppend(stack, PostOrder(l), PostOrder(r), a);
    EvalFromAppend(stack, PostOrder(l) + PostOrder(r), [op], a);
    if l.Leaf? || TreeLetters(l) <= a.Keys {
      var s1 := stack + [Pushed(l, a)];
      EvalFromPostOrder(s1, r, a);
      if r.Leaf? || TreeLetters(r) <= a.Keys {
        var s2 := s1 + [Pushed(r, a)];
        assert s2[..|s2| - 2] == stack && s2[|s2| - 2] == Pushed(l, a) && Last(s2) == Pushed(r, a);
        EvalFromSingle(s2, op, a);
        ResolvePushed(l, a);
        ResolvePushed(r, a);
        assert EvalFrom(stack, PostOrder(l) + PostOrder(r), a) == Success(s2);
        assert EvalFrom(stack, PostOrder(t), a) == EvalStep(s2, op, a);

      }
    }
  }

  /** The stack evaluator over the post-order traversal of a proper tree
      yields the tree's truth value when the map binds its letters, and fails
      on one of its missing letters otherwise. */
  lemma PostfixValueOfTree(t: Expr, a: map<char, bool>)
    requires Proper(t)
    ensures TreeLetters(t) <= a.Keys ==> PostfixValue(PostOrder(t), a) == Success(Holds(t, a))
    ensures !(TreeLetters(t) <= a.Keys) ==>
              var r := PostfixValue(PostOrder(t), a);
              r.Failure? && r.error.MissingKey? && r.error.key in TreeLetters(t) && r.error.key !in a
  {
    EvalFromPostOrder([], t, a);
    assert [] + [Pushed(t, a)] == [Pushed(t, a)];
    if t.Leaf? || TreeLetters(t) <= a.Keys {
      ResolvePushed(t, a);
    }
  }

  /** The two evaluators agree. Take postfix over letters and the three
      connectives that reduces to a single tree. Under every map that binds
      the tree's letters, the stack evaluator over the postfix and the
      short-circuit evaluator over the tree return the same value, the tree's
      truth value. Under a map that lacks one of them, the stack evaluator
      fails on a missing letter, and the tree evaluator either fails the same
      way or returns the same truth value without reaching it. */
  lemma EvaluatorsAgree(postfix: string, t: Expr, a: map<char, bool>)
    requires forall k :: 0 <= k < |postfix| ==> PostfixSymbol(postfix[k])
    requires BuildFrom([], postfix) == Success([t])
    ensures TreeLetters(t) <= a.Keys ==>
              PostfixValue(postfix, a) == EvaluateExprTree(t, a) == Success(Holds(t, a))
    ensures !(TreeLetters(t) <= a.Keys) ==>
              var r := PostfixValue(postfix, a);
              r.Failure? && r.error.MissingKey? && r.error.key in TreeLetters(t) && r.error.key !in a
    ensures EvaluateExprTree(t, a).Success? ==> EvaluateExprTree(t, a).value == Holds(t, a)
  {
    BuildTreeRoundTrip(postfix, t);
    BuildTreeShape(postfix, t);
    PostfixValueOfTree(t, a);
    EvaluateExprTreeMeaning(t, a);
  }

  // ---------------------------------------------------------------------------
  // preEvaluateExprFromTree and its pairwise rules notOp, andOp, orOp
  // ---------------------------------------------------------------------------

  /** A partial result of the symbolic pass: a decided boolean, or the text of
      what is still undecided. */
  datatype Value = B(b: bool) | S(s: string)

  /** Python truthiness of a partial result. */
  predicate Truthy(v: Value) {
    match v
    case B(b) => b
    case S(s) => s != []
  }

  /** How a partial result is written into a string ("True", "False" or the
      text itself). */
  function Show(v: Value): string {
    match v
    case B(b) => if b then "True" else "False"
    case S(s) => s
  }

  /** notOp prefixes '!' to the text of its operand, even to a decided
      boolean: the negation of True is the string "!True". */
  function NotOp(a: Value): (r: Value)
    ensures r.S? && Truthy(r)
  {
    S("!" + Show(a))
  }

  /** notOp does not negate a decided boolean: it turns it into text. */
  lemma NotOpOfDecided()
    ensures NotOp(B(true)) == S("!True") && NotOp(B(false)) == S("!False")
  {
  }

  /** True when `a` is exactly '!' followed by the one-character string `b`. */
  predicate NegatesLetter(a: string, b: string) {
    |a| > |b| && |b| == 1 && a == "!" + b
  }

  function AndOp(a: Value, b: Value): (r: Value)
    ensures r == a || r == b || r == B(false) || (a.S? && b.S? && r == S(a.s + "&" + b.s))
  {
    if a == b then a
    else if a.S? && b.S? then
      if NegatesLetter(a.s, b.s) then B(false)
      else if NegatesLetter(b.s, a.s) then B(false)
      else S(a.s + "&" + b.s)
    else if a == B(false) || b == B(false) then B(false)
    else if Truthy(a) then b
    // here `a` is the empty string and `b` is True, so the source's last
    // test, `if b: return a`, always succeeds
    else a
  }

  function OrOp(a: Value, b: Value): (r: Value)
    ensures r == a || r == b || r == B(true) || (a.S? && b.S? && r == S(a.s + "|" + b.s))
  {
    if a == b then a
    else if a.S? && b.S? then
      if NegatesLetter(a.s, b.s) then B(true)
      else if NegatesLetter(b.s, a.s) then B(true)
      else S(a.s + "|" + b.s)
    else if a == B(true) || b == B(true) then B(true)
    else if !Truthy(a) then b
    // here `b` is False, so the source's last test, `if not b: return a`,
    // always succeeds
    else a
  }

  /** The pairwise rules: equal operands give that operand; a one-letter
      string against its negation, in either order, gives False for andOp
      and True for orOp; any other pair of strings gives the residual text
      joined by the operator; and a decided False (andOp) or True (orOp)
      absorbs the other side. */
  lemma OpRules(a: Value, b: Value)
    ensures AndOp(a, a) == a && OrOp(a, a) == a
    ensures a.S? && b.S? && |b.s| == 1 && a.s == "!" + b.s ==>
              AndOp(a, b) == AndOp(b, a) == B(false) && OrOp(a, b) == OrOp(b, a) == B(true)
    ensures a.S? && b.S? && a != b && !NegatesLetter(a.s, b.s) && !NegatesLetter(b.s, a.s) ==>
              AndOp(a, b) == S(a.s + "&" + b.s) && OrOp(a, b) == S(a.s + "|" + b.s)
    ensures AndOp(a, B(false)) == AndOp(B(false), a) == B(false)
    ensures OrOp(a, B(true)) == OrOp(B(true), a) == B(true)
  {
  }

  /** The assignment-free pass: a letter stays as its own text; '!' applies
      notOp to its child's result; '&' with a decided-False left side is False
      and '|' with a decided-True left side is True, without visiting the
      right side; otherwise andOp/orOp combine both sides. A leaf that is not
      a letter, and a bracket node, give True. */
  function PreEvaluateExprFromTree(root: Expr): (r: Value)
    ensures r.S? ==> r.s != []
  {
    match root
    case Leaf(c) => if IsOperand(c) then S([c]) else B(true)
    case Not(e) => NotOp(PreEvaluateExprFromTree(e))
    case And(l, r) =>
      var left := PreEvaluateExprFromTree(l);
      if left == B(false) then B(false) else AndOp(left, PreEvaluateExprFromTree(r))
    case Or(l, r) =>
      var left := PreEvaluateExprFromTree(l);
      if left == B(true) then B(true) else OrOp(left, PreEvaluateExprFromTree(r))
    case Bracket(_, _, _) => B(true)
  }

  /** Only '&' and '|' over one and the same letter. */
  predicate RepeatsOnly(t: Expr, x: char) {
    match t
    case Leaf(c) => c == x
    case And(l, r) => RepeatsOnly(l, x) && RepeatsOnly(r, x)
    case Or(l, r) => RepeatsOnly(l, x) && RepeatsOnly(r, x)
    case _ => false
  }

  /** Equality short-circuit, lifted to whole trees: any '&'/'|' combination of
      one repeated letter reduces to that letter. */
  lemma {:induction false} RepeatedLetterCollapses(t: Expr, x: char)
    requires IsOperand(x) && RepeatsOnly(t, x)
    ensures PreEvaluateExprFromTree(t) == S([x])
  {
    match t
    case Leaf(_) =>
    case And(l, r) =>
      RepeatedLetterCollapses(l, x);
      RepeatedLetterCollapses(r, x);
    case Or(l, r) =>
      RepeatedLetterCollapses(l, x);
      RepeatedLetterCollapses(r, x);
  }

  /** A letter against its own negation, in either order: '&' decides False
      and '|' decides True, because notOp gives exactly "!" followed by the
      letter and andOp/orOp recognise that pair. */
  lemma Complement(x: char)
    requires IsOperand(x)
    ensures PreEvaluateExprFromTree(And(Leaf(x), Not(Leaf(x)))) == B(false)
    ensures PreEvaluateExprFromTree(And(Not(Leaf(x)), Leaf(x))) == B(false)
    ensures PreEvaluateExprFromTree(Or(Leaf(x), Not(Leaf(x)))) == B(true)
    ensures PreEvaluateExprFromTree(Or(Not(Leaf(x)), Leaf(x))) == B(true)
  {
    assert NotOp(S([x])) == S("!" + [x]);
  }

  /** Without '!' nothing can be decided: on a proper formula with no
      negation the pass always returns residual text, never a boolean, and
      that text contains no '!'. */
  lemma {:induction false} NegationFreeStaysSymbolic(t: Expr)
    requires Proper(t) && NegationFree(t)
    ensures PreEvaluateExprFromTree(t).S?
    ensures '!' !in PreEvaluateExprFromTree(t).s
    ensures PreEvaluateExprFromTree(t).s != []
  {
    match t
    case Leaf(_) =>
    case And(l, r) =>
      NegationFreeStaysSymbolic(l);
      NegationFreeStaysSymbolic(r);
    case Or(l, r) =>
      NegationFreeStaysSymbolic(l);
      NegationFreeStaysSymbolic(r);
  }

  predicate NegationFree(t: Expr) {
    match t
    case Leaf(_) => true
    case Not(_) => false
    case And(l, r) => NegationFree(l) && NegationFree(r)
    case Or(l, r) => NegationFree(l) && NegationFree(r)
    case Bracket(_, l, r) => NegationFree(l) && NegationFree(r)
  }

  /** The pass is not sound: for a & (b | !b) it decides True, because orOp
      decides b | !b to be True and andOp('a', True) returns True; yet the
      formula is false whenever a is. */
  lemma PreEvaluateIsUnsound()
    ensures var t := And(Leaf('a'), Or(Leaf('b'), Not(Leaf('b'))));
      PreEvaluateExprFromTree(t) == B(true) && !Holds(t, map['a' := false, 'b' := false])
  {
    assert NotOp(S("b")) == S("!b");
  }
}
