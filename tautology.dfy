/** Model of tautology.py: a proposition statement decides whether it is a
    tautology by a fast reject on formulas without a repeated letter, then by
    evaluating its tree under every 0/1 assignment of its letters. */
module Tautology {
  import opened Utils

  // ---------------------------------------------------------------------------
  // The letters of a statement
  // ---------------------------------------------------------------------------

  /** The distinct letters of `s` in order of first occurrence: the keys of
      the dictionary _getVariableMap builds, in insertion order. */
  function DistinctLetters(s: string): seq<char>
    decreases |s|
  {
    if s == [] then []
    else
      var seen := DistinctLetters(Front(s));
      if IsOperand(Last(s)) && Last(s) !in seen then seen + [Last(s)] else seen
  }

  /** No letter occurs twice in `s`. */
  predicate NoRepeatedLetter(s: string) {
    forall i, j :: 0 <= i < j < |s| && IsOperand(s[i]) ==> s[i] != s[j]
  }

  /** No element occurs twice in `keys`. */
  predicate Distinct(keys: seq<char>) {
    forall i, j :: 0 <= i < j < |keys| ==> keys[i] != keys[j]
  }

  function KeySet(keys: seq<char>): set<char> {
    set k | k in keys
  }

  /** The position of the first occurrence of `c` in `s`. */
  function FirstIndex(s: string, c: char): (r: nat)
    requires c in s
    ensures r < |s| && s[r] == c
    ensures forall q :: 0 <= q < r ==> s[q] != c
    decreases |s|
  {
    if c in Front(s) then FirstIndex(Front(s), c) else |s| - 1
  }

  /** The keys are the letters of the statement, each listed once. */
  lemma {:induction false} DistinctLettersSpec(s: string)
    ensures Distinct(DistinctLetters(s))
    ensures forall c :: c in DistinctLetters(s) <==> IsOperand(c) && c in s
    decreases |s|
  {
    if s != [] {
      DistinctLettersSpec(Front(s));
      assert s == Front(s) + [Last(s)];
    }
  }

  /** The keys are listed in the order in which each first occurs. */
  lemma {:induction false} DistinctLettersOrder(s: string)
    ensures forall c :: c in DistinctLetters(s) ==> c in s
    ensures forall i, j :: 0 <= i < j < |DistinctLetters(s)| ==>
              FirstIndex(s, DistinctLetters(s)[i]) < FirstIndex(s, DistinctLetters(s)[j])
    decreases |s|
  {
    if s != [] {
      var p := Front(s);
      DistinctLettersSpec(p);
      DistinctLettersOrder(p);
      assert s == p + [Last(s)];
      forall c | c in p ensures c in s && FirstIndex(s, c) == FirstIndex(p, c) {
      }
      var keys := DistinctLetters(s);
      forall i, j | 0 <= i < j < |keys|
        ensures FirstIndex(s, keys[i]) < FirstIndex(s, keys[j])
      {
        if j == |keys| - 1 && keys != DistinctLetters(p) {
          assert keys[j] == Last(s) && Last(s) !in p;
          assert keys[i] in DistinctLetters(p);
        }
      }
    }
  }

  /** Appending one character keeps the statement free of repeated letters
      exactly when the character is not a letter already present. */
  lemma NoRepeatedLetterSnoc(s: string, c: char)
    ensures NoRepeatedLetter(s + [c]) <==> NoRepeatedLetter(s) && !(IsOperand(c) && c in s)
  {
    var t := s + [c];
    assert forall k :: 0 <= k < |s| ==> t[k] == s[k];
    assert t[|s|] == c;
  }

  /** How the keys and the repetition flag change when the loop reads one
      more character. */
  lemma SnocStep(seen: string, e: char)
    ensures DistinctLetters(seen + [e]) ==
              if IsOperand(e) && e !in KeySet(DistinctLetters(seen)) then DistinctLetters(seen) + [e]
              else DistinctLetters(seen)
    ensures NoRepeatedLetter(seen + [e]) <==>
              NoRepeatedLetter(seen) && !(IsOperand(e) && e in KeySet(DistinctLetters(seen)))
  {
    var s := seen + [e];
    assert Front(s) == seen && Last(s) == e;
    DistinctLettersSpec(seen);
    NoRepeatedLetterSnoc(seen, e);
  }

  lemma LetterSetIsKeySet(s: string)
    ensures LetterSet(s) == KeySet(DistinctLetters(s))
  {
    DistinctLettersSpec(s);
    forall c | c in KeySet(DistinctLetters(s)) ensures c in LetterSet(s) {
      var k :| 0 <= k < |s| && s[k] == c;
    }
  }

  // ---------------------------------------------------------------------------
  // The enumeration of assignments
  // ---------------------------------------------------------------------------

  function Pow2(n: nat): (r: nat)
    ensures r >= 1
  {
    if n == 0 then 1 else 2 * Pow2(n - 1)
  }

  /** Bit `k` of `i` (counting from the least significant): what the source
      computes as (i & (1 << k)) >> k, read as a boolean. */
  function Bit(i: nat, k: nat): bool {
    if k == 0 then i % 2 == 1 else Bit(i / 2, k - 1)
  }

  /** The assignment of round `i`: key number k gets bit k of i. */
  function AssignmentFor(keys: seq<char>, i: nat): map<char, bool>
    decreases |keys|
  {
    if keys == [] then map[]
    else AssignmentFor(keys[1..], i / 2)[keys[0] := i % 2 == 1]
  }

  /** The round that produces assignment `a`: key number k contributes 2^k
      when it is true. */
  function RoundOf(keys: seq<char>, a: map<char, bool>): nat
    requires KeySet(keys) <= a.Keys
    decreases |keys|
  {
    if keys == [] then 0
    else (if a[keys[0]] then 1 else 0) + 2 * RoundOf(keys[1..], a)
  }

  /** The assignment of round i binds exactly the keys, key number k to bit
      k of i. */
  lemma {:induction false} AssignmentForBits(keys: seq<char>, i: nat)
    requires Distinct(keys)
    ensures AssignmentFor(keys, i).Keys == KeySet(keys)
    ensures forall k :: 0 <= k < |keys| ==> AssignmentFor(keys, i)[keys[k]] == Bit(i, k)
    decreases |keys|
  {
    if keys != [] {
      AssignmentForBits(keys[1..], i / 2);
      forall k | 0 <= k < |keys| ensures AssignmentFor(keys, i)[keys[k]] == Bit(i, k) {
        if k > 0 { assert keys[1..][k - 1] == keys[k]; }
      }
    }
  }

  lemma {:induction false} RoundOfReadsKeysOnly(keys: seq<char>, a: map<char, bool>, b: map<char, bool>)
    requires KeySet(keys) <= a.Keys && KeySet(keys) <= b.Keys
    requires forall k :: k in keys ==> a[k] == b[k]
    ensures RoundOf(keys, a) == RoundOf(keys, b)
    decreases |keys|
  {
    if keys != [] {
      RoundOfReadsKeysOnly(keys[1..], a, b);
    }
  }

  lemma {:induction false} RoundOfBound(keys: seq<char>, a: map<char, bool>)
    requires KeySet(keys) <= a.Keys
    ensures RoundOf(keys, a) < Pow2(|keys|)
    decreases |keys|
  {
    if keys != [] {
      RoundOfBound(keys[1..], a);
    }
  }

  /** Every assignment of the keys is produced by its round. */
  lemma {:induction false} AssignmentForRoundOf(keys: seq<char>, a: map<char, bool>)
    requires Distinct(keys) && a.Keys == KeySet(keys)
    ensures AssignmentFor(keys, RoundOf(keys, a)) == a
    decreases |keys|
  {
    if keys != [] {
      var rest := keys[1..];
      var a' := map k | k in rest :: a[k];
      assert a'.Keys == KeySet(rest);
      RoundOfReadsKeysOnly(rest, a, a');
      AssignmentForRoundOf(rest, a');
      var i := RoundOf(keys, a);
      assert i / 2 == RoundOf(rest, a);
      assert (i % 2 == 1) == a[keys[0]];
    }
  }

  /** Round i produces an assignment whose round is i again. */
  lemma {:induction false} RoundOfAssignmentFor(keys: seq<char>, i: nat)
    requires Distinct(keys) && i < Pow2(|keys|)
    ensures KeySet(keys) <= AssignmentFor(keys, i).Keys
    ensures RoundOf(keys, AssignmentFor(keys, i)) == i
    decreases |keys|
  {
    AssignmentForBits(keys, i);
    if keys != [] {
      var rest := keys[1..];
      var m := AssignmentFor(keys, i);
      var m' := AssignmentFor(rest, i / 2);
      RoundOfAssignmentFor(rest, i / 2);
      assert keys[0] !in rest;
      RoundOfReadsKeysOnly(rest, m, m');
    }
  }

  /** Some round below 2^n produces assignment `a`. */
  ghost predicate Enumerated(keys: seq<char>, a: map<char, bool>) {
    exists i: nat :: i < Pow2(|keys|) && AssignmentFor(keys, i) == a
  }

  /** Every assignment of exactly the keys is the assignment of some round
      below 2^n. */
  lemma EveryAssignmentHasARound(keys: seq<char>, a: map<char, bool>)
    requires Distinct(keys) && a.Keys == KeySet(keys)
    ensures Enumerated(keys, a)
  {
    RoundOfBound(keys, a);
    AssignmentForRoundOf(keys, a);
  }

  /** The enumeration covers every assignment of the n keys exactly once:
      the rounds 0 .. 2^n - 1 give assignments of exactly the keys, every
      assignment of the keys is given by some round, and no two rounds give
      the same one. */
  lemma EnumerationIsBijective(keys: seq<char>)
    requires Distinct(keys)
    ensures forall i :: 0 <= i < Pow2(|keys|) ==> AssignmentFor(keys, i).Keys == KeySet(keys)
    ensures forall a: map<char, bool> :: a.Keys == KeySet(keys) ==> Enumerated(keys, a)
    ensures forall i, j :: 0 <= i < j < Pow2(|keys|) ==> AssignmentFor(keys, i) != AssignmentFor(keys, j)
  {
    forall i | 0 <= i < Pow2(|keys|) ensures AssignmentFor(keys, i).Keys == KeySet(keys) {
      AssignmentForBits(keys, i);
    }
    forall a: map<char, bool> | a.Keys == KeySet(keys)
      ensures Enumerated(keys, a)
    {
      EveryAssignmentHasARound(keys, a);
    }
    forall i, j | 0 <= i < j < Pow2(|keys|) ensures AssignmentFor(keys, i) != AssignmentFor(keys, j) {
      RoundOfAssignmentFor(keys, i);
      RoundOfAssignmentFor(keys, j);
    }
  }

  /** The assignment the inner loop leaves behind in round i is the
      assignment of that round. */
  /** One step of the inner loop of isTautology: binding key `offset` to
      its bit keeps the key set and every binding made before it. */
  lemma SetBit(keys: seq<char>, m: map<char, bool>, i: nat, offset: nat)
    requires Distinct(keys) && m.Keys == KeySet(keys) && offset < |keys|
    requires forall k :: 0 <= k < offset ==> m[keys[k]] == Bit(i, k)
    ensures var m' := m[keys[offset] := Bit(i, offset)];
      m'.Keys == KeySet(keys) &&
      forall k :: 0 <= k < offset + 1 ==> m'[keys[k]] == Bit(i, k)
  {
  }

  lemma AssignmentOfBits(keys: seq<char>, i: nat, m: map<char, bool>)
    requires Distinct(keys)
    requires m.Keys == KeySet(keys)
    requires forall k :: 0 <= k < |keys| ==> m[keys[k]] == Bit(i, k)
    ensures m == AssignmentFor(keys, i)
  {
    AssignmentForBits(keys, i);
    forall c | c in m.Keys ensures m[c] == AssignmentFor(keys, i)[c] {
      var k :| 0 <= k < |keys| && keys[k] == c;
    }
  }

  // ---------------------------------------------------------------------------
  // What isTautology decides
  // ---------------------------------------------------------------------------

  /** The tree is true under every assignment of exactly the keys. */
  ghost predicate Tautologous(t: Expr, keys: seq<char>) {
    forall a: map<char, bool> :: a.Keys == KeySet(keys) ==> Holds(t, a)
  }

  /** The tree is true under the assignments of rounds lo .. hi - 1. */
  ghost predicate HoldsInRounds(t: Expr, keys: seq<char>, lo: nat, hi: nat) {
    forall j: nat :: lo <= j < hi ==> Holds(t, AssignmentFor(keys, j))
  }

  /** The rounds lo .. hi - 1 of the enumeration: the first round whose
      assignment makes the tree false answers False, a failed evaluation is
      passed on, and True once every round has been tried. */
  function Enumerate(t: Expr, keys: seq<char>, lo: nat, hi: nat): Result<bool>
    decreases hi - lo
  {
    if lo >= hi then Success(true)
    else
      var value :- EvaluateExprTree(t, AssignmentFor(keys, lo));
      if !value then Success(false) else Enumerate(t, keys, lo + 1, hi)
  }

  /** The answer isTautology computes for a statement: False at once when no
      letter repeats; otherwise the failure of the tree builder, if it fails,
      or the outcome of the enumeration over the 2^n assignments of the n
      distinct letters. */
  function TautologyVerdict(statement: string): Result<bool> {
    if NoRepeatedLetter(statement) then Success(false)
    else
      var root :- BuildTree(ToPostfix(statement));
      var keys := DistinctLetters(statement);
      Enumerate(root, keys, 0, Pow2(|keys|))
  }

  /** When the keys bind every letter of the tree, the enumeration never
      fails and answers whether the tree holds in every round. */
  lemma {:induction false} EnumerateMeaning(t: Expr, keys: seq<char>, lo: nat, hi: nat)
    requires Distinct(keys) && TreeLetters(t) <= KeySet(keys)
    ensures Enumerate(t, keys, lo, hi) == Success(HoldsInRounds(t, keys, lo, hi))
    decreases hi - lo
  {
    if lo < hi {
      var a := AssignmentFor(keys, lo);
      AssignmentForBits(keys, lo);
      EvaluateExprTreeMeaning(t, a);
      EnumerateMeaning(t, keys, lo + 1, hi);
      if !Holds(t, a) {
        assert !HoldsInRounds(t, keys, lo, hi);
      }
    }
  }

  /** Holding in all 2^n rounds is the same as holding under every
      assignment of the n keys. */
  lemma AllRoundsMeansTautologous(t: Expr, keys: seq<char>)
    requires Distinct(keys)
    ensures HoldsInRounds(t, keys, 0, Pow2(|keys|)) <==> Tautologous(t, keys)
  {
    EnumerationIsBijective(keys);
    if HoldsInRounds(t, keys, 0, Pow2(|keys|)) {
      forall a: map<char, bool> | a.Keys == KeySet(keys) ensures Holds(t, a) {
        assert Enumerated(keys, a);
        var i: nat :| i < Pow2(|keys|) && AssignmentFor(keys, i) == a;
      }
    }
  }

  /** Every letter of the tree built from a statement is a letter of the
      statement, hence one of its keys. */
  lemma TreeLettersAreKeys(statement: string, t: Expr)
    requires BuildTree(ToPostfix(statement)) == Success(t)
    ensures TreeLetters(t) <= KeySet(DistinctLetters(statement))
  {
    var postfix := ToPostfix(statement);
    BuildTreeSuffix(postfix, t);
    BuildTreeShape(postfix, t);
    TreeLettersOfPostOrder(t);
    var d := |postfix| - |PostOrder(t)|;
    forall c | c in LetterSet(PostOrder(t)) ensures c in LetterSet(postfix) {
      var k :| 0 <= k < |PostOrder(t)| && IsOperand(PostOrder(t)[k]) && PostOrder(t)[k] == c;
      assert postfix[d + k] == c;
    }
    ToPostfixLetters(statement);
    LetterSetOfLetterSeq(postfix);
    LetterSetOfLetterSeq(statement);
    LetterSetIsKeySet(statement);
  }

  /** The letters of a string are the elements of its letter sequence. */
  lemma {:induction false} LetterSetOfLetterSeq(s: string)
    ensures LetterSet(s) == set c | c in LetterSeq(s)
    decreases |s|
  {
    if s != [] {
      LetterSetOfLetterSeq(s[1..]);
      forall c | c in LetterSet(s)
        ensures c in LetterSeq(s)
      {
        var k :| 0 <= k < |s| && IsOperand(s[k]) && s[k] == c;
        if k > 0 {
          assert s[1..][k - 1] == c;
          assert c in LetterSet(s[1..]);
        }
      }
      forall c | c in LetterSeq(s) ensures c in LetterSet(s) {
        if c !in LetterSeq(s[1..]) {
          assert s[0] == c && IsOperand(c);
        } else {
          assert c in LetterSet(s[1..]);
          var k :| 0 <= k < |s[1..]| && IsOperand(s[1..][k]) && s[1..][k] == c;
          assert s[k + 1] == c;
        }
      }
    }
  }

  /** For a statement with a repeated letter whose tree builds, the verdict is
      whether that tree holds under every assignment of the statement's
      letters: the enumeration is a complete truth-table check. */
  lemma VerdictDecidesTautology(statement: string, t: Expr)
    requires !NoRepeatedLetter(statement)
    requires BuildTree(ToPostfix(statement)) == Success(t)
    ensures TautologyVerdict(statement) == Success(Tautologous(t, DistinctLetters(statement)))
  {
    var keys := DistinctLetters(statement);
    DistinctLettersSpec(statement);
    TreeLettersAreKeys(statement, t);
    EnumerateMeaning(t, keys, 0, Pow2(|keys|));
    AllRoundsMeansTautologous(t, keys);
  }

  /** One falsifying assignment, of any letters, is enough to show that the
      tree of a statement is not a tautology over the statement's letters. */
  lemma CounterexampleRefutes(statement: string, t: Expr, w: map<char, bool>)
    requires BuildTree(ToPostfix(statement)) == Success(t)
    requires !Holds(t, w)
    ensures !Tautologous(t, DistinctLetters(statement))
  {
    TreeLettersAreKeys(statement, t);
    var keys := DistinctLetters(statement);
    var a := map k | k in KeySet(keys) :: k in w && w[k];
    HoldsOnlyReadsItsLetters(t, a, w);
    assert a.Keys == KeySet(keys) && !Holds(t, a);
  }

  /** The verdict fails exactly when a letter repeats and the tree builder
      pops an empty stack; no lookup ever misses a key. */
  lemma VerdictFailures(statement: string)
    ensures TautologyVerdict(statement).Failure? <==>
              !NoRepeatedLetter(statement) && BuildTree(ToPostfix(statement)).Failure?
    ensures TautologyVerdict(statement).Failure? ==> TautologyVerdict(statement).error == EmptyPop
  {
    var postfix := ToPostfix(statement);
    BuildTreeErrors(postfix);
    if !NoRepeatedLetter(statement) && BuildTree(postfix).Success? {
      VerdictDecidesTautology(statement, BuildTree(postfix).value);
    }
  }

  // ---------------------------------------------------------------------------
  // The shortcut for statements without a repeated letter
  // ---------------------------------------------------------------------------

  /** No letter occurs on both sides of a binary node. */
  predicate ReadOnce(t: Expr) {
    match t
    case Leaf(_) => true
    case Not(e) => ReadOnce(e)
    case And(l, r) => ReadOnce(l) && ReadOnce(r) && TreeLetters(l) !! TreeLetters(r)
    case Or(l, r) => ReadOnce(l) && ReadOnce(r) && TreeLetters(l) !! TreeLetters(r)
    case Bracket(_, l, r) => ReadOnce(l) && ReadOnce(r) && TreeLetters(l) !! TreeLetters(r)
  }

  /** An assignment of the tree's own letters meant to give it the value
      `want`. */
  function Witness(t: Expr, want: bool): map<char, bool>
    requires Proper(t) && ReadOnce(t)
  {
    match t
    case Leaf(c) => map[c := want]
    case Not(e) => Witness(e, !want)
    case And(l, r) => Witness(l, want) + Witness(r, true)
    case Or(l, r) => Witness(l, want) + Witness(r, false)
  }

  /** A read-once formula takes either truth value: the witness binds
      exactly its letters and gives it the value asked for. */
  lemma {:induction false} WitnessSpec(t: Expr, want: bool)
    requires Proper(t) && ReadOnce(t)
    ensures Witness(t, want).Keys == TreeLetters(t)
    ensures Holds(t, Witness(t, want)) == want
  {
    match t
    case Leaf(c) =>
    case Not(e) =>
      WitnessSpec(e, !want);
    case And(l, r) =>
      WitnessSpec(l, want);
      WitnessSpec(r, true);
      HoldsOnlyReadsItsLetters(l, Witness(t, want), Witness(l, want));
      HoldsOnlyReadsItsLetters(r, Witness(t, want), Witness(r, true));
    case Or(l, r) =>
      WitnessSpec(l, want);
      WitnessSpec(r, false);
      HoldsOnlyReadsItsLetters(l, Witness(t, want), Witness(l, want));
      HoldsOnlyReadsItsLetters(r, Witness(t, want), Witness(r, false));
  }

  /** Distinct elements of a concatenation: both parts are distinct and
      share no element. */
  lemma DistinctSplit(x: seq<char>, y: seq<char>)
    requires Distinct(x + y)
    ensures Distinct(x) && Distinct(y) && KeySet(x) !! KeySet(y)
  {
    var z := x + y;
    forall i, j | 0 <= i < j < |x| ensures x[i] != x[j] {
      assert z[i] == x[i] && z[j] == x[j];
    }
    forall i, j | 0 <= i < j < |y| ensures y[i] != y[j] {
      assert z[|x| + i] == y[i] && z[|x| + j] == y[j];
    }
    forall i, j | 0 <= i < |x| && 0 <= j < |y| ensures x[i] != y[j] {
      assert z[i] == x[i] && z[|x| + j] == y[j];
    }
  }

  /** A statement without a repeated letter has its letters distinct. */
  lemma {:induction false} DistinctLetterSeq(s: string)
    requires NoRepeatedLetter(s)
    ensures Distinct(LetterSeq(s))
    decreases |s|
  {
    if s != [] {
      var rest := s[1..];
      assert NoRepeatedLetter(rest) by {
        forall i, j | 0 <= i < j < |rest| && IsOperand(rest[i]) ensures rest[i] != rest[j] {
          assert rest[i] == s[i + 1] && rest[j] == s[j + 1];
        }
      }
      DistinctLetterSeq(rest);
      LetterSetOfLetterSeq(rest);
      if IsOperand(s[0]) {
        forall c | c in LetterSeq(rest) ensures c != s[0] {
          assert c in LetterSet(rest);
          var k :| 0 <= k < |rest| && IsOperand(rest[k]) && rest[k] == c;
          assert s[k + 1] == c;
        }
        var ls := LetterSeq(s);
        assert ls == [s[0]] + LetterSeq(rest);
        forall i, j | 0 <= i < j < |ls| ensures ls[i] != ls[j] {
          assert ls[j] == LetterSeq(rest)[j - 1] && LetterSeq(rest)[j - 1] in LetterSeq(rest);
          if i > 0 { assert ls[i] == LetterSeq(rest)[i - 1]; }
        }
      }
    }
  }

  /** A tree whose post-order letters are distinct is read-once. */
  lemma {:induction false} DistinctPostOrderIsReadOnce(t: Expr)
    requires WellLabelled(t)
    requires Distinct(LetterSeq(PostOrder(t)))
    ensures ReadOnce(t)
  {
    match t
    case Leaf(_) =>
    case Not(e) =>
      LetterSeqAppend(PostOrder(e), "!");
      assert LetterSeq("!") == [];
      assert LetterSeq(PostOrder(e)) + [] == LetterSeq(PostOrder(e));
      DistinctPostOrderIsReadOnce(e);
    case And(l, r) =>
      BinaryLetters(l, r, '&');
      DistinctPostOrderIsReadOnce(l);
      DistinctPostOrderIsReadOnce(r);
    case Or(l, r) =>
      BinaryLetters(l, r, '|');
      DistinctPostOrderIsReadOnce(l);
      DistinctPostOrderIsReadOnce(r);
    case Bracket(c, l, r) =>
      BinaryLetters(l, r, c);
      DistinctPostOrderIsReadOnce(l);
      DistinctPostOrderIsReadOnce(r);
  }

  /** The letters of a binary node's post-order split into the two
      children's, which then are distinct and disjoint. */
  lemma BinaryLetters(l: Expr, r: Expr, op: char)
    requires WellLabelled(l) && WellLabelled(r) && op in OPERATORS
    requires Distinct(LetterSeq(PostOrder(l) + PostOrder(r) + [op]))
    ensures Distinct(LetterSeq(PostOrder(l))) && Distinct(LetterSeq(PostOrder(r)))
    ensures TreeLetters(l) !! TreeLetters(r)
  {
    var pl, pr := PostOrder(l), PostOrder(r);
    LetterSeqAppend(pl + pr, [op]);
    LetterSeqAppend(pl, pr);
    assert LetterSeq([op]) == [];
    assert LetterSeq(pl + pr + [op]) == LetterSeq(pl) + LetterSeq(pr);
    DistinctSplit(LetterSeq(pl), LetterSeq(pr));
    TreeLettersOfPostOrder(l);
    TreeLettersOfPostOrder(r);
    LetterSetOfLetterSeq(pl);
    LetterSetOfLetterSeq(pr);
  }

  /** The tree of a statement without a repeated letter is read-once. */
  lemma NoRepeatedLetterIsReadOnce(statement: string, t: Expr)
    requires NoRepeatedLetter(statement)
    requires BuildTree(ToPostfix(statement)) == Success(t)
    ensures ReadOnce(t)
  {
    var postfix := ToPostfix(statement);
    BuildTreeSuffix(postfix, t);
    BuildTreeShape(postfix, t);
    var d := |postfix| - |PostOrder(t)|;
    assert postfix == postfix[..d] + PostOrder(t);
    LetterSeqAppend(postfix[..d], PostOrder(t));
    DistinctLetterSeq(statement);
    ToPostfixLetters(statement);
    DistinctSplit(LetterSeq(postfix[..d]), LetterSeq(PostOrder(t)));
    DistinctPostOrderIsReadOnce(t);
  }

  /** The shortcut is sound for formulas proper: when no letter repeats, some
      assignment of the statement's letters makes the tree false, so the
      statement is not a tautology. */
  lemma UniqueLettersAreNoTautology(statement: string, t: Expr)
    requires NoRepeatedLetter(statement)
    requires BuildTree(ToPostfix(statement)) == Success(t)
    requires Proper(t)
    ensures !Tautologous(t, DistinctLetters(statement))
  {
    NoRepeatedLetterIsReadOnce(statement, t);
    TreeLettersAreKeys(statement, t);
    var w := Witness(t, false);
    WitnessSpec(t, false);
    var keys := DistinctLetters(statement);
    var a := map k | k in KeySet(keys) :: if k in w then w[k] else false;
    HoldsOnlyReadsItsLetters(t, a, w);
    assert a.Keys == KeySet(keys) && !Holds(t, a);
  }

  /** isTautology is correct on every statement whose tree is a formula
      proper: its answer is whether the tree holds under every assignment of
      the statement's letters, with or without the shortcut. */
  lemma VerdictIsCorrect(statement: string, t: Expr)
    requires BuildTree(ToPostfix(statement)) == Success(t)
    requires Proper(t)
    ensures TautologyVerdict(statement) == Success(Tautologous(t, DistinctLetters(statement)))
  {
    if NoRepeatedLetter(statement) {
      UniqueLettersAreNoTautology(statement, t);
    } else {
      VerdictDecidesTautology(statement, t);
    }
  }

  // ---------------------------------------------------------------------------
  // The class
  // ---------------------------------------------------------------------------

  /** A proposition statement in infix notation. No validation is done on it. */
  class PropositionStatement {
    const statement: string

    constructor (statement: string)
      ensures this.statement == statement
    {
      this.statement := statement;
    }

    /** The letters of the statement in order of first occurrence (the keys
        of the dictionary, each bound to 0, here false), and whether no letter
        occurs twice. */
    method GetVariableMap(statement: string) returns (keys: seq<char>, variableMap: map<char, bool>, uniqueVariables: bool)
      ensures keys == DistinctLetters(statement)
      ensures variableMap.Keys == KeySet(keys)
      ensures forall k :: k in variableMap ==> !variableMap[k]
      ensures uniqueVariables <==> NoRepeatedLetter(statement)
    {
      keys, variableMap, uniqueVariables := [], map[], true;
      for i := 0 to |statement|
        invariant keys == DistinctLetters(statement[..i])
        invariant variableMap.Keys == KeySet(keys)
        invariant forall k :: k in variableMap ==> !variableMap[k]
        invariant uniqueVariables <==> NoRepeatedLetter(statement[..i])
      {
        var e := statement[i];
        ghost var seen := statement[..i];
        assert statement[..i + 1] == seen + [e];
        SnocStep(seen, e);
        assert e in variableMap <==> e in KeySet(DistinctLetters(seen));
        if IsOperand(e) {
          if e in variableMap {
            uniqueVariables := false;
          } else {
            keys := keys + [e];
            variableMap := variableMap[e := false];
          }
        }
      }
      assert statement[..|statement|] == statement;
    }

    /** The short-circuit tree evaluator of the class; it computes the same
        result as the module-level tree evaluator on every tree and map. */
    function EvaluateExprTree(root: Expr, variableMap: map<char, bool>): (r: Result<bool>)
      ensures r == Utils.EvaluateExprTree(root, variableMap)
    {
      match root
      case Leaf(c) =>
        if IsOperand(c) then
          if c in variableMap then Success(variableMap[c]) else Failure(MissingKey(c))
        else Success(true)
      case Not(e) =>
        var left :- EvaluateExprTree(e, variableMap);
        Success(!left)
      case And(l, r) =>
        var left :- EvaluateExprTree(l, variableMap);
        if !left then Success(false) else EvaluateExprTree(r, variableMap)
      case Or(l, r) =>
        var left :- EvaluateExprTree(l, variableMap);
        if left then Success(true) else EvaluateExprTree(r, variableMap)
      case Bracket(_, l, r) =>
        var _ :- EvaluateExprTree(l, variableMap);
        var _ :- EvaluateExprTree(r, variableMap);
        Success(true)
    }

    /** Whether the statement is a tautology (see TautologyVerdict and the
        lemmas about it). */
    method IsTautology() returns (r: Result<bool>)
      ensures r == TautologyVerdict(statement)
    {
      var keys, variableMap, uniqueVariables := GetVariableMap(statement);
      if uniqueVariables {
        return Success(false);
      }
      DistinctLettersSpec(statement);
      var numVariables := |keys|;
      var postfix := InfixToPostfix(statement);
      var root := PostfixToExpressionTree(postfix);
      if root.Failure? {
        return Failure(root.error);
      }
      var tree := root.value;
      var rounds := Pow2(numVariables);
      assert TautologyVerdict(statement) == Enumerate(tree, keys, 0, rounds);
      for i := 0 to rounds
        invariant variableMap.Keys == KeySet(keys)
        invariant Enumerate(tree, keys, i, rounds) == Enumerate(tree, keys, 0, rounds)
      {
        for offset := 0 to |keys|
          invariant variableMap.Keys == KeySet(keys)
          invariant forall k :: 0 <= k < offset ==> variableMap[keys[k]] == Bit(i, k)
        {
          SetBit(keys, variableMap, i, offset);
          variableMap := variableMap[keys[offset] := Bit(i, offset)];
        }
        AssignmentOfBits(keys, i, variableMap);
        var value := EvaluateExprTree(tree, variableMap);
        if value.Failure? {
          return Failure(value.error);
        }
        if !value.value {
          return Success(false);
        }
      }
      return Success(true);
    }
  }
}
