/** `all_valid_nerdles`: a depth-first search that extends a partial word one
    character at a time, offering only the characters its syntax rules allow,
    and keeps the complete words `is_valid_nerdle` accepts. */
module Generator {
  import opened Text
  import opened LeadingZeros
  import opened Validity

  /** `nerdle_length`. */
  const NerdleLength: nat := 8

  /** `include_nerdles_with_no_operator`. */
  const IncludeNerdlesWithNoOperator: bool := false

  /** `max_expression_length`: one slot is kept for `=` and one for a result digit. */
  const MaxExpressionLength: nat := NerdleLength - 2

  /** An order in which the unordered `numbers` set may be iterated: every
      digit, each exactly once, and nothing else. */
  predicate IsDigitOrder(order: seq<char>) {
    Distinct(order) && forall x :: x in order <==> IsDigit(x)
  }

  /** `numbers_sorted` is one such order, so the requirement can be met. */
  lemma SortedDigitsIsDigitOrder()
    ensures IsDigitOrder(Digits)
  {
    forall x
      ensures x in Digits <==> IsDigit(x)
    {
      DigitMembership(x);
    }
  }

  /** `next_possible_chars` for a partial word that is not yet one character
      short of complete, in the order they are tried. */
  function NextChars(partial: string, includeNoOperator: bool): seq<char> {
    if '=' in partial then Digits
    else if |partial| == 0 then Digits
    else if IsOperator(partial[|partial| - 1]) then Digits
    else if |partial| == MaxExpressionLength then ['=']
    else if |partial| == MaxExpressionLength - 2 && !HasOperator(partial) then Operators
    else if |partial| == MaxExpressionLength - 1 then Digits + ['=']
    else if HasOperator(partial) || includeNoOperator then Digits + Operators + ['=']
    else Digits + Operators
  }

  /** The rules of `next_possible_chars` by character class, read as a set:
      after `=` or an operator, or at the start, only a digit; `=` alone when
      the expression has reached its maximum length; an operator when only
      room for one operand and `=` would remain and there is none yet; a digit
      or `=` one short of the maximum; otherwise a digit, an operator, or `=`
      once the expression holds an operator (or operator-free words are
      allowed). */
  predicate Offered(partial: string, includeNoOperator: bool, c: char) {
    if '=' in partial || |partial| == 0 || IsOperator(partial[|partial| - 1]) then IsDigit(c)
    else if |partial| == MaxExpressionLength then c == '='
    else if |partial| == MaxExpressionLength - 2 && !HasOperator(partial) then IsOperator(c)
    else if |partial| == MaxExpressionLength - 1 then IsDigit(c) || c == '='
    else IsDigit(c) || IsOperator(c) || (c == '=' && (HasOperator(partial) || includeNoOperator))
  }

  lemma OperatorMembership(c: char)
    ensures c in Operators <==> IsOperator(c)
  {
  }

  /** The lists of `next_possible_chars` hold exactly the characters the rules
      offer. */
  lemma NextCharsOffered(partial: string, includeNoOperator: bool, c: char)
    ensures c in NextChars(partial, includeNoOperator) <==> Offered(partial, includeNoOperator, c)
  {
    DigitMembership(c);
    OperatorMembership(c);
    var chars := NextChars(partial, includeNoOperator);
    assert c in Digits + ['='] <==> c in Digits || c == '=';
    assert c in Digits + Operators <==> c in Digits || c in Operators;
    assert c in Digits + Operators + ['='] <==> c in Digits || c in Operators || c == '=';
  }

  lemma NextCharsAllOffered(partial: string, includeNoOperator: bool)
    ensures forall c :: c in NextChars(partial, includeNoOperator) ==> Offered(partial, includeNoOperator, c)
  {
    forall c | c in NextChars(partial, includeNoOperator)
      ensures Offered(partial, includeNoOperator, c)
    {
      NextCharsOffered(partial, includeNoOperator, c);
    }
  }

  /** `is_valid_nerdle` as the search sees it: a verdict on a complete word,
      or the exception it raised. The script's top level passes the validity
      check of `Validity` for a given evaluator. */
  type Checker = string -> Result<bool>

  /** What consuming the generator produces: the words yielded, in order, and
      the exception that ended it early, if any. */
  datatype Run = Run(yielded: seq<string>, aborted: Option<NerdleError>)

  /** The last step of `all_valid_nerdles`: try each remaining digit of
      `digits` as the final character and yield the words found valid. */
  function Complete(check: Checker, partial: string, digits: seq<char>): Run
    decreases |digits|
  {
    if |digits| == 0 then Run([], None)
    else
      var nerdle := partial + [digits[0]];
      match check(nerdle)
      case Err(e) => Run([], Some(e))
      case Ok(valid) =>
        var rest := Complete(check, partial, digits[1..]);
        if valid then Run([nerdle] + rest.yielded, rest.aborted) else rest
  }

  /** `all_valid_nerdles(partial_nerdle)`, with `order` the iteration order of
      the `numbers` set in the final step. */
  function Gen(check: Checker, includeNoOperator: bool, order: seq<char>, partial: string): Run
    requires IsDigitOrder(order)
    requires |partial| < NerdleLength
    decreases NerdleLength - |partial|, 1
  {
    if |partial| == NerdleLength - 1 then Complete(check, partial, order)
    else GenAll(check, includeNoOperator, order, partial, NextChars(partial, includeNoOperator))
  }

  /** The loop `for c in next_possible_chars` over the characters still to try. */
  function GenAll(check: Checker, includeNoOperator: bool, order: seq<char>, partial: string, chars: seq<char>): Run
    requires IsDigitOrder(order)
    requires |partial| < NerdleLength - 1
    decreases NerdleLength - |partial|, 0, |chars|
  {
    if |chars| == 0 then Run([], None)
    else
      var first := Gen(check, includeNoOperator, order, partial + [chars[0]]);
      if first.aborted.Some? then first
      else
        var rest := GenAll(check, includeNoOperator, order, partial, chars[1..]);
        Run(first.yielded + rest.yielded, rest.aborted)
  }

  /** Every character of `w` from position `from` up to its last is one the
      rules offer for the part of `w` before it. */
  predicate FollowsRules(w: string, from: nat, includeNoOperator: bool) {
    forall k :: from <= k < |w| - 1 ==> Offered(w[..k], includeNoOperator, w[k])
  }

  lemma FollowsRulesExtend(w: string, from: nat, includeNoOperator: bool)
    requires from < |w| - 1 && Offered(w[..from], includeNoOperator, w[from])
    requires FollowsRules(w, from + 1, includeNoOperator)
    ensures FollowsRules(w, from, includeNoOperator)
  {
  }

  lemma FollowsRulesLater(w: string, from: nat, later: nat, includeNoOperator: bool)
    requires from <= later && FollowsRules(w, from, includeNoOperator)
    ensures FollowsRules(w, later, includeNoOperator)
  {
  }

  /** A complete word the search can build: each character offered by the
      rules, and a digit at the end. */
  predicate Generated(w: string, includeNoOperator: bool) {
    |w| == NerdleLength && FollowsRules(w, 0, includeNoOperator) && IsDigit(w[|w| - 1])
  }

  // ---------------------------------------------------------------------------
  // Syntactic shape of every partial word the search visits

  predicate InAlphabet(c: char) {
    IsDigit(c) || IsOperator(c) || c == '='
  }

  /** What holds of every partial word the search reaches. */
  predicate SyntaxInvariant(p: string, includeNoOperator: bool) {
    && |p| < NerdleLength
    && (forall i :: 0 <= i < |p| ==> InAlphabet(p[i]))
    && (|p| > 0 ==> IsDigit(p[0]))
    && (forall i :: 0 <= i < |p| - 1 && IsOperator(p[i]) ==> IsDigit(p[i + 1]))
    && (forall i :: 0 < i < |p| && p[i] == '=' ==> IsDigit(p[i - 1]))
    && (forall i, j :: 0 <= i < j < |p| && p[i] == '=' ==> IsDigit(p[j]))
    && ('=' !in p ==> |p| <= MaxExpressionLength)
    && (|p| >= MaxExpressionLength ==> !IsOperator(p[MaxExpressionLength - 1]))
    && (!includeNoOperator && ('=' in p || |p| > MaxExpressionLength - 2) ==> HasOperator(p))
  }

  /** An expression side the search can produce: digits and operators, starting
      and ending with a digit, every operator followed by a digit. */
  predicate WellFormedExpression(e: string) {
    && |e| > 0 && IsDigit(e[0]) && IsDigit(e[|e| - 1])
    && (forall i :: 0 <= i < |e| ==> IsDigit(e[i]) || IsOperator(e[i]))
    && (forall i :: 0 <= i < |e| - 1 && IsOperator(e[i]) ==> IsDigit(e[i + 1]))
  }

  /** A complete word of the right length with one `=`, a well-formed
      expression before it, only digits after it, and an operator unless
      operator-free words are allowed. */
  predicate WellFormedWord(w: string, includeNoOperator: bool) {
    && |w| == NerdleLength
    && SplitOnEquals(w).Some?
    && WellFormedExpression(SplitOnEquals(w).value.0)
    && |SplitOnEquals(w).value.1| > 0 && AllDigits(SplitOnEquals(w).value.1)
    && (!includeNoOperator ==> HasOperator(SplitOnEquals(w).value.0))
  }

  /** An offered character keeps the word within the alphabet and keeps the
      rules about what may follow an operator or `=`. */
  lemma StepKeepsAdjacency(p: string, c: char, includeNoOperator: bool)
    requires SyntaxInvariant(p, includeNoOperator)
    requires |p| < NerdleLength - 1
    requires Offered(p, includeNoOperator, c)
    ensures forall i :: 0 <= i < |p + [c]| ==> InAlphabet((p + [c])[i])
    ensures |p + [c]| > 0 ==> IsDigit((p + [c])[0])
    ensures forall i :: 0 <= i < |p + [c]| - 1 && IsOperator((p + [c])[i]) ==> IsDigit((p + [c])[i + 1])
    ensures forall i :: 0 < i < |p + [c]| && (p + [c])[i] == '=' ==> IsDigit((p + [c])[i - 1])
    ensures forall i, j :: 0 <= i < j < |p + [c]| && (p + [c])[i] == '=' ==> IsDigit((p + [c])[j])
  {
    var q := p + [c];
    assert InAlphabet(c);
    assert forall i :: 0 <= i < |p| ==> q[i] == p[i];
    if '=' in p {
      assert IsDigit(c);
    } else if |p| > 0 && !IsOperator(p[|p| - 1]) {
      assert IsDigit(p[|p| - 1]);
    }
  }

  /** An offered character keeps the length limits and the operator
      requirement. */
  lemma StepKeepsLimits(p: string, c: char, includeNoOperator: bool)
    requires SyntaxInvariant(p, includeNoOperator)
    requires |p| < NerdleLength - 1
    requires Offered(p, includeNoOperator, c)
    ensures '=' !in p + [c] ==> |p + [c]| <= MaxExpressionLength
    ensures |p + [c]| >= MaxExpressionLength ==> !IsOperator((p + [c])[MaxExpressionLength - 1])
    ensures !includeNoOperator && ('=' in p + [c] || |p + [c]| > MaxExpressionLength - 2) ==> HasOperator(p + [c])
  {
    var q := p + [c];
    var inc := includeNoOperator;
    assert forall i :: 0 <= i < |p| ==> q[i] == p[i];
    assert '=' in q <==> '=' in p || c == '=';
    if !inc && ('=' in q || |q| > MaxExpressionLength - 2) {
      if HasOperator(p) {
        var i :| 0 <= i < |p| && IsOperator(p[i]);
        assert IsOperator(q[i]);
      } else {
        assert IsOperator(q[|p|]);
      }
    }
  }

  /** Each offered character keeps the invariant. */
  lemma SyntaxInvariantStep(p: string, c: char, includeNoOperator: bool)
    requires SyntaxInvariant(p, includeNoOperator)
    requires |p| < NerdleLength - 1
    requires Offered(p, includeNoOperator, c)
    ensures SyntaxInvariant(p + [c], includeNoOperator)
  {
    StepKeepsAdjacency(p, c, includeNoOperator);
    StepKeepsLimits(p, c, includeNoOperator);
  }

  /** In a word one character short of complete, the first `=` splits off an
      expression with no `=` and a right side of digits. */
  lemma FinalWordSides(p: string, d: char, includeNoOperator: bool, e: nat)
    requires SyntaxInvariant(p, includeNoOperator)
    requires |p| == NerdleLength - 1 && IsDigit(d)
    requires e < |p| && p[e] == '=' && '=' !in p[..e]
    ensures p + [d] == (p + [d])[..e] + "=" + (p + [d])[e + 1..]
    ensures '=' !in (p + [d])[..e]
    ensures |(p + [d])[e + 1..]| > 0 && AllDigits((p + [d])[e + 1..])
  {
    var w := p + [d];
    var result := w[e + 1..];
    assert w[..e] == p[..e];
    forall k | 0 <= k < |result|
      ensures IsDigit(result[k])
    {
      assert result[k] == w[e + 1 + k];
    }
  }

  /** In the same word, the expression before the first `=` is well formed,
      with an operator unless operator-free words are allowed. */
  lemma FinalExpressionWellFormed(p: string, d: char, includeNoOperator: bool, e: nat)
    requires SyntaxInvariant(p, includeNoOperator)
    requires |p| == NerdleLength - 1
    requires e < |p| && p[e] == '=' && '=' !in p[..e]
    ensures WellFormedExpression((p + [d])[..e])
    ensures !includeNoOperator ==> HasOperator((p + [d])[..e])
  {
    var expression := (p + [d])[..e];
    assert expression == p[..e];
    assert e > 0;
    assert forall i :: 0 <= i < e ==> expression[i] == p[i] && p[i] != '=';
    if !includeNoOperator {
      var i :| 0 <= i < |p| && IsOperator(p[i]);
      assert i < e;
      assert IsOperator(expression[i]);
    }
  }

  /** Every word the search completes is well formed. */
  lemma FinalWordWellFormed(p: string, d: char, includeNoOperator: bool)
    requires SyntaxInvariant(p, includeNoOperator)
    requires |p| == NerdleLength - 1 && IsDigit(d)
    ensures WellFormedWord(p + [d], includeNoOperator)
  {
    var w := p + [d];
    assert '=' in p;
    var e := IndexOf(p, '=').value;
    FinalWordSides(p, d, includeNoOperator, e);
    FinalExpressionWellFormed(p, d, includeNoOperator, e);
    SplitOnEqualsInverse(w[..e], w[e + 1..]);
  }

  /** A well-formed word always splits, and its right side always parses, so
      `is_valid_nerdle` answers without raising. */
  lemma WellFormedWordIsDecided(eval: Evaluator, w: string, includeNoOperator: bool)
    requires WellFormedWord(w, includeNoOperator)
    ensures IsValidNerdle(eval, w).Ok?
  {
    var (expression, result) := SplitOnEquals(w).value;
    IsValidNerdleOnSplitWord(eval, expression, result);
  }

  /** The checker answers, without raising, on every well-formed word. */
  ghost predicate DecidesWellFormed(check: Checker, includeNoOperator: bool) {
    forall w :: WellFormedWord(w, includeNoOperator) ==> check(w).Ok?
  }

  /** A prefix built by following the rules satisfies the invariant. */
  lemma {:induction false} FollowedPrefixInvariant(w: string, k: nat, includeNoOperator: bool)
    requires FollowsRules(w, 0, includeNoOperator)
    requires k < NerdleLength && k <= |w|
    requires k == 0 || k - 1 < |w| - 1
    ensures SyntaxInvariant(w[..k], includeNoOperator)
    decreases k
  {
    if k > 0 {
      FollowedPrefixInvariant(w, k - 1, includeNoOperator);
      assert Offered(w[..k - 1], includeNoOperator, w[k - 1]);
      SyntaxInvariantStep(w[..k - 1], w[k - 1], includeNoOperator);
      assert w[..k - 1] + [w[k - 1]] == w[..k];
    }
  }

  /** Every word the rules can build is well formed: it has one `=`, only
      digits after it, a well-formed expression before it, and an operator
      unless operator-free words are allowed. */
  lemma GeneratedIsWellFormed(w: string, includeNoOperator: bool)
    requires Generated(w, includeNoOperator)
    ensures WellFormedWord(w, includeNoOperator)
  {
    FollowedPrefixInvariant(w, NerdleLength - 1, includeNoOperator);
    FinalWordWellFormed(w[..NerdleLength - 1], w[NerdleLength - 1], includeNoOperator);
    assert w[..NerdleLength - 1] + [w[NerdleLength - 1]] == w;
  }

  /** With operator-free words excluded, the pruning loses nothing: every
      well-formed word is one the rules can build. Together with
      `GeneratedIsWellFormed`, the rules build exactly the well-formed words. */
  lemma WellFormedIsGenerated(w: string)
    requires WellFormedWord(w, false)
    ensures Generated(w, false)
  {
    forall k | 0 <= k < |w| - 1
      ensures Offered(w[..k], false, w[k])
    {
      WellFormedCharOffered(w, k);
    }
  }

  /** Each character of a well-formed word is one the rules offer after the
      characters before it. */
  lemma WellFormedCharOffered(w: string, k: nat)
    requires WellFormedWord(w, false) && k < |w| - 1
    ensures Offered(w[..k], false, w[k])
  {
    var (expression, result) := SplitOnEquals(w).value;
    var e := |expression|;
    assert w[e] == '=';
    assert forall i :: 0 <= i < e ==> w[i] == expression[i];
    assert forall i :: e < i < |w| ==> w[i] == result[i - e - 1];
    var p := w[..k];
    if k > e {
      assert p[e] == '=';
    } else {
      assert '=' !in p;
      if k == e {
        var i :| 0 <= i < e && IsOperator(expression[i]);
        assert IsOperator(p[i]);
      }
    }
  }

  /** With operator-free words allowed, the rule that forces an operator once
      four characters hold none still applies. So a well-formed operator-free
      word whose left side has four or more digits is never built. */
  lemma NoOperatorWordNotBuilt(left: string, right: string)
    requires |left| >= MaxExpressionLength - 2 && |left| + 1 + |right| == NerdleLength && |right| > 0
    requires AllDigits(left) && AllDigits(right)
    ensures WellFormedWord(left + "=" + right, true)
    ensures !Generated(left + "=" + right, true)
  {
    var w := left + "=" + right;
    var k := MaxExpressionLength - 2;
    assert '=' !in left && '=' !in right;
    SplitOnEqualsInverse(left, right);
    assert forall i :: 0 <= i < |w| ==> w[i] != '+' && w[i] != '-' && w[i] != '*' && w[i] != '/' by {
      forall i | 0 <= i < |w|
        ensures !IsOperator(w[i])
      {
        if i < |left| {
          assert w[i] == left[i];
        } else if i > |left| {
          assert w[i] == right[i - |left| - 1];
        }
      }
    }
    assert w[..k] == left[..k];
    assert !HasOperator(w[..k]);
    assert !Offered(w[..k], true, w[k]);
  }

  /** `0123=123` is such a word, and the validity check accepts it. */
  lemma OperatorFreeWordAccepted(eval: Evaluator)
    requires eval("123") == Some(123 as real)
    ensures IsValidNerdle(eval, "0123" + "=" + "123") == Ok(true)
    ensures !Generated("0123" + "=" + "123", true)
  {
    assert AllDigits("0123") && AllDigits("123");
    ZeroPaddedOperand();
    IsValidNerdleOnSplitWord(eval, "0123", "123");
    NoOperatorWordNotBuilt("0123", "123");
  }

  // ---------------------------------------------------------------------------
  // The search never raises from a reachable prefix

  lemma {:induction false} CompleteNoAbort(check: Checker, p: string, digits: seq<char>, includeNoOperator: bool)
    requires DecidesWellFormed(check, includeNoOperator)
    requires SyntaxInvariant(p, includeNoOperator) && |p| == NerdleLength - 1
    requires forall d :: d in digits ==> IsDigit(d)
    ensures Complete(check, p, digits).aborted.None?
    decreases |digits|
  {
    if |digits| > 0 {
      FinalWordWellFormed(p, digits[0], includeNoOperator);
      CompleteNoAbort(check, p, digits[1..], includeNoOperator);
    }
  }

  lemma {:induction false} GenNoAbort(check: Checker, includeNoOperator: bool, order: seq<char>, p: string)
    requires DecidesWellFormed(check, includeNoOperator)
    requires IsDigitOrder(order)
    requires SyntaxInvariant(p, includeNoOperator)
    ensures Gen(check, includeNoOperator, order, p).aborted.None?
    decreases NerdleLength - |p|, 1
  {
    if |p| == NerdleLength - 1 {
      CompleteNoAbort(check, p, order, includeNoOperator);
    } else {
      var chars := NextChars(p, includeNoOperator);
      assert Gen(check, includeNoOperator, order, p) == GenAll(check, includeNoOperator, order, p, chars);
      NextCharsAllOffered(p, includeNoOperator);
      GenAllNoAbort(check, includeNoOperator, order, p, chars);
    }
  }

  lemma {:induction false} GenAllNoAbort(check: Checker, includeNoOperator: bool, order: seq<char>, p: string, chars: seq<char>)
    requires DecidesWellFormed(check, includeNoOperator)
    requires IsDigitOrder(order)
    requires SyntaxInvariant(p, includeNoOperator) && |p| < NerdleLength - 1
    requires forall c :: c in chars ==> Offered(p, includeNoOperator, c)
    ensures GenAll(check, includeNoOperator, order, p, chars).aborted.None?
    decreases NerdleLength - |p|, 0, |chars|
  {
    if |chars| > 0 {
      SyntaxInvariantStep(p, chars[0], includeNoOperator);
      GenNoAbort(check, includeNoOperator, order, p + [chars[0]]);
      GenAllNoAbort(check, includeNoOperator, order, p, chars[1..]);
    }
  }

  // ---------------------------------------------------------------------------
  // Soundness: everything yielded is built by the rules and is valid

  lemma {:induction false} CompleteSound(check: Checker, p: string, digits: seq<char>, w: string)
    requires w in Complete(check, p, digits).yielded
    ensures |w| == |p| + 1 && w[..|p|] == p && w[|p|] in digits
    ensures check(w) == Ok(true)
    decreases |digits|
  {
    var nerdle := p + [digits[0]];
    if check(nerdle) == Ok(true) && w == nerdle {
      assert w[..|p|] == p;
    } else {
      CompleteSound(check, p, digits[1..], w);
    }
  }

  lemma {:induction false} GenSound(check: Checker, includeNoOperator: bool, order: seq<char>, p: string, w: string)
    requires IsDigitOrder(order) && |p| < NerdleLength
    requires w in Gen(check, includeNoOperator, order, p).yielded
    ensures |w| == NerdleLength && w[..|p|] == p
    ensures FollowsRules(w, |p|, includeNoOperator) && IsDigit(w[|w| - 1])
    ensures check(w) == Ok(true)
    decreases NerdleLength - |p|, 1
  {
    if |p| == NerdleLength - 1 {
      assert Gen(check, includeNoOperator, order, p) == Complete(check, p, order);
      CompleteSound(check, p, order, w);
      assert FollowsRules(w, |p|, includeNoOperator);
    } else {
      var chars := NextChars(p, includeNoOperator);
      assert Gen(check, includeNoOperator, order, p) == GenAll(check, includeNoOperator, order, p, chars);
      GenAllSound(check, includeNoOperator, order, p, chars, w);
      NextCharsOffered(p, includeNoOperator, w[|p|]);
      FollowsRulesExtend(w, |p|, includeNoOperator);
    }
  }

  lemma {:induction false} GenAllSound(check: Checker, includeNoOperator: bool, order: seq<char>, p: string, chars: seq<char>, w: string)
    requires IsDigitOrder(order) && |p| < NerdleLength - 1
    requires w in GenAll(check, includeNoOperator, order, p, chars).yielded
    ensures |w| == NerdleLength && w[..|p|] == p && w[|p|] in chars
    ensures FollowsRules(w, |p| + 1, includeNoOperator) && IsDigit(w[|w| - 1])
    ensures check(w) == Ok(true)
    decreases NerdleLength - |p|, 0, |chars|
  {
    if w in Gen(check, includeNoOperator, order, p + [chars[0]]).yielded {
      ExtendSound(check, includeNoOperator, order, p, chars[0], w);
    } else {
      GenAllSound(check, includeNoOperator, order, p, chars[1..], w);
    }
  }

  /** A word yielded below `p + [c]` extends `p` by `c`. */
  lemma {:induction false} ExtendSound(check: Checker, includeNoOperator: bool, order: seq<char>, p: string, c: char, w: string)
    requires IsDigitOrder(order) && |p| < NerdleLength - 1
    requires w in Gen(check, includeNoOperator, order, p + [c]).yielded
    ensures |w| == NerdleLength && w[..|p|] == p && w[|p|] == c
    ensures FollowsRules(w, |p| + 1, includeNoOperator) && IsDigit(w[|w| - 1])
    ensures check(w) == Ok(true)
    decreases NerdleLength - |p|, 0, 0
  {
    var q := p + [c];
    GenSound(check, includeNoOperator, order, q, w);
    assert w[..|q|][..|p|] == w[..|p|];
    assert w[|p|] == w[..|q|][|p|];
  }

  // ---------------------------------------------------------------------------
  // Completeness: every valid word the rules can build is yielded

  lemma {:induction false} CompleteIncludes(check: Checker, p: string, digits: seq<char>, d: char, includeNoOperator: bool)
    requires DecidesWellFormed(check, includeNoOperator)
    requires SyntaxInvariant(p, includeNoOperator) && |p| == NerdleLength - 1
    requires forall x :: x in digits ==> IsDigit(x)
    requires d in digits && check(p + [d]) == Ok(true)
    ensures p + [d] in Complete(check, p, digits).yielded
    decreases |digits|
  {
    FinalWordWellFormed(p, digits[0], includeNoOperator);
    if digits[0] != d {
      CompleteIncludes(check, p, digits[1..], d, includeNoOperator);
    }
  }

  lemma GenIncludesLast(check: Checker, includeNoOperator: bool, order: seq<char>, p: string, d: char)
    requires DecidesWellFormed(check, includeNoOperator)
    requires IsDigitOrder(order) && SyntaxInvariant(p, includeNoOperator) && |p| == NerdleLength - 1
    requires IsDigit(d) && check(p + [d]) == Ok(true)
    ensures p + [d] in Gen(check, includeNoOperator, order, p).yielded
  {
    CompleteIncludes(check, p, order, d, includeNoOperator);
  }

  lemma {:induction false} GenComplete(check: Checker, includeNoOperator: bool, order: seq<char>, p: string, w: string)
    requires DecidesWellFormed(check, includeNoOperator)
    requires IsDigitOrder(order) && SyntaxInvariant(p, includeNoOperator)
    requires |w| == NerdleLength && w[..|p|] == p
    requires FollowsRules(w, |p|, includeNoOperator) && IsDigit(w[|w| - 1])
    requires check(w) == Ok(true)
    ensures w in Gen(check, includeNoOperator, order, p).yielded
    decreases NerdleLength - |p|
  {
    if |p| == NerdleLength - 1 {
      assert w == p + [w[|p|]];
      assert w[|p|] == w[|w| - 1];
      GenIncludesLast(check, includeNoOperator, order, p, w[|p|]);
    } else {
      var c := w[|p|];
      var q := p + [c];
      var chars := NextChars(p, includeNoOperator);
      assert Offered(w[..|p|], includeNoOperator, c);
      NextCharsOffered(p, includeNoOperator, c);
      NextCharsAllOffered(p, includeNoOperator);
      SyntaxInvariantStep(p, c, includeNoOperator);
      PrefixExtend(w, p);
      FollowsRulesLater(w, |p|, |q|, includeNoOperator);
      GenComplete(check, includeNoOperator, order, q, w);
      GenAllIncludes(check, includeNoOperator, order, p, chars, c, w);
      assert Gen(check, includeNoOperator, order, p) == GenAll(check, includeNoOperator, order, p, chars);
    }
  }

  lemma {:induction false} GenAllIncludes(check: Checker, includeNoOperator: bool, order: seq<char>, p: string, chars: seq<char>, c: char, w: string)
    requires DecidesWellFormed(check, includeNoOperator)
    requires IsDigitOrder(order) && SyntaxInvariant(p, includeNoOperator) && |p| < NerdleLength - 1
    requires forall x :: x in chars ==> Offered(p, includeNoOperator, x)
    requires c in chars && w in Gen(check, includeNoOperator, order, p + [c]).yielded
    ensures w in GenAll(check, includeNoOperator, order, p, chars).yielded
    decreases |chars|
  {
    SyntaxInvariantStep(p, chars[0], includeNoOperator);
    GenNoAbort(check, includeNoOperator, order, p + [chars[0]]);
    if chars[0] != c {
      GenAllIncludes(check, includeNoOperator, order, p, chars[1..], c, w);
    }
  }

  // ---------------------------------------------------------------------------
  // No word is yielded twice

  /** Each list `next_possible_chars` can return holds no character twice. */
  lemma CharListsDistinct()
    ensures Distinct(Digits) && Distinct(Operators)
    ensures Distinct(Digits + ['=']) && Distinct(Digits + Operators)
    ensures Distinct(Digits + Operators + ['='])
  {
    assert Distinct(Digits);
    assert Distinct(Operators);
    forall x | x in Digits
      ensures x !in Operators && x != '='
    {
      DigitMembership(x);
    }
    DistinctConcat(Digits, ['=']);
    DistinctConcat(Digits, Operators);
    forall x | x in Digits + Operators
      ensures x != '='
    {
      DigitMembership(x);
    }
    DistinctConcat(Digits + Operators, ['=']);
  }

  lemma NextCharsDistinct(partial: string, includeNoOperator: bool)
    ensures Distinct(NextChars(partial, includeNoOperator))
  {
    CharListsDistinct();
  }

  lemma {:induction false} CompleteDistinct(check: Checker, p: string, digits: seq<char>)
    requires Distinct(digits)
    ensures Distinct(Complete(check, p, digits).yielded)
    decreases |digits|
  {
    if |digits| > 0 {
      var nerdle := p + [digits[0]];
      var rest := Complete(check, p, digits[1..]);
      CompleteDistinct(check, p, digits[1..]);
      forall w | w in rest.yielded
        ensures w != nerdle
      {
        CompleteSound(check, p, digits[1..], w);
        assert digits[0] !in digits[1..];
      }
      DistinctConcat([nerdle], rest.yielded);
    }
  }

  lemma {:induction false} GenDistinct(check: Checker, includeNoOperator: bool, order: seq<char>, p: string)
    requires IsDigitOrder(order) && |p| < NerdleLength
    ensures Distinct(Gen(check, includeNoOperator, order, p).yielded)
    decreases NerdleLength - |p|, 1
  {
    if |p| == NerdleLength - 1 {
      assert Gen(check, includeNoOperator, order, p) == Complete(check, p, order);
      CompleteDistinct(check, p, order);
    } else {
      var chars := NextChars(p, includeNoOperator);
      assert Gen(check, includeNoOperator, order, p) == GenAll(check, includeNoOperator, order, p, chars);
      NextCharsDistinct(p, includeNoOperator);
      GenAllDistinct(check, includeNoOperator, order, p, chars);
    }
  }

  lemma {:induction false} GenAllDistinct(check: Checker, includeNoOperator: bool, order: seq<char>, p: string, chars: seq<char>)
    requires IsDigitOrder(order) && |p| < NerdleLength - 1
    requires Distinct(chars)
    ensures Distinct(GenAll(check, includeNoOperator, order, p, chars).yielded)
    decreases NerdleLength - |p|, 0, |chars|
  {
    if |chars| > 0 {
      var q := p + [chars[0]];
      var first := Gen(check, includeNoOperator, order, q);
      GenDistinct(check, includeNoOperator, order, q);
      if first.aborted.None? {
        var rest := GenAll(check, includeNoOperator, order, p, chars[1..]);
        GenAllDistinct(check, includeNoOperator, order, p, chars[1..]);
        forall w | w in first.yielded
          ensures w !in rest.yielded
        {
          GenSound(check, includeNoOperator, order, q, w);
          assert w[|p|] == w[..|q|][|p|] == chars[0];
          if w in rest.yielded {
            GenAllSound(check, includeNoOperator, order, p, chars[1..], w);
          }
        }
        DistinctConcat(first.yielded, rest.yielded);
      }
    }
  }

  // ---------------------------------------------------------------------------
  // The whole search

  /** The search from the empty word yields exactly the valid words the rules
      can build, each once, all well formed, and never raises. */
  lemma GenFromEmpty(check: Checker, includeNoOperator: bool, order: seq<char>)
    requires DecidesWellFormed(check, includeNoOperator)
    requires IsDigitOrder(order)
    ensures Gen(check, includeNoOperator, order, []).aborted.None?
    ensures Distinct(Gen(check, includeNoOperator, order, []).yielded)
    ensures forall w :: w in Gen(check, includeNoOperator, order, []).yielded <==>
              Generated(w, includeNoOperator) && check(w) == Ok(true)
    ensures forall w :: w in Gen(check, includeNoOperator, order, []).yielded ==>
              WellFormedWord(w, includeNoOperator)
  {
    var r := Gen(check, includeNoOperator, order, []);
    GenNoAbort(check, includeNoOperator, order, []);
    GenDistinct(check, includeNoOperator, order, []);
    forall w | w in r.yielded
      ensures Generated(w, includeNoOperator) && check(w) == Ok(true)
      ensures WellFormedWord(w, includeNoOperator)
    {
      GenSound(check, includeNoOperator, order, [], w);
      GeneratedIsWellFormed(w, includeNoOperator);
    }
    forall w | Generated(w, includeNoOperator) && check(w) == Ok(true)
      ensures w in r.yielded
    {
      assert w[..0] == [];
      GenComplete(check, includeNoOperator, order, [], w);
    }
  }

  /** The script's top level: `all_valid_nerdles([])` with the configured flag,
      each word checked by `is_valid_nerdle` under the evaluator `eval`. */
  function AllValidNerdles(eval: Evaluator, order: seq<char>): (r: Run)
    requires IsDigitOrder(order)
    ensures r.aborted.None?
    ensures Distinct(r.yielded)
    ensures forall w :: w in r.yielded <==>
              Generated(w, IncludeNerdlesWithNoOperator) && IsValidNerdle(eval, w) == Ok(true)
    ensures forall w :: w in r.yielded <==>
              WellFormedWord(w, IncludeNerdlesWithNoOperator) && IsValidNerdle(eval, w) == Ok(true)
  {
    var check := (w: string) => IsValidNerdle(eval, w);
    assert DecidesWellFormed(check, IncludeNerdlesWithNoOperator) by {
      forall w | WellFormedWord(w, IncludeNerdlesWithNoOperator)
        ensures check(w).Ok?
      {
        WellFormedWordIsDecided(eval, w, IncludeNerdlesWithNoOperator);
      }
    }
    GenFromEmpty(check, IncludeNerdlesWithNoOperator, order);
    assert forall w :: WellFormedWord(w, IncludeNerdlesWithNoOperator) ==> Generated(w, IncludeNerdlesWithNoOperator) by {
      forall w | WellFormedWord(w, IncludeNerdlesWithNoOperator)
        ensures Generated(w, IncludeNerdlesWithNoOperator)
      {
        WellFormedIsGenerated(w);
      }
    }
    Gen(check, IncludeNerdlesWithNoOperator, order, [])
  }
}
