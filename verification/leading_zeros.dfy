/** The leading-zero handling of the generator's validity check: the rewrite
    applied to an expression before it is evaluated, the trim applied to the
    result side, and the decimal value of a digit string. */
module LeadingZeros {
  import opened Text

  /** Whether `remove_leading_zeros` appends the character `c` it has just
      read, given what it has emitted so far (`result`) and what is still to be
      read (`rest`): anything but `'0'` is appended; a `'0'` is appended when it
      is the last character, when the next character is not a digit, or when
      the last emitted character is a digit. */
  predicate Keeps(result: string, c: char, rest: string) {
    if c != '0' then true
    else if |rest| == 0 then true
    else if !IsDigit(rest[0]) then true
    else |result| != 0 && IsDigit(result[|result| - 1])
  }

  /** The loop of `remove_leading_zeros`, one character per step. */
  function Scan(result: string, expression: string): string
    decreases |expression|
  {
    if |expression| == 0 then result
    else
      var c := expression[0];
      var rest := expression[1..];
      Scan(if Keeps(result, c, rest) then result + [c] else result, rest)
  }

  /** `remove_leading_zeros`. Its meaning is given by `RemoveLeadingZerosIsCanonical`. */
  function RemoveLeadingZeros(expression: string): string {
    Scan([], expression)
  }

  /** The loop that drops the first character of the result side while it is
      a `0` and more than one character remains. An empty string, on which the
      loop would raise, is returned as is. */
  function TrimLeadingZeros(s: string): (r: string)
    ensures |r| <= |s| && r == s[|s| - |r|..]
    ensures forall i :: 0 <= i < |s| - |r| ==> s[i] == '0'
    ensures |s| > 0 ==> |r| > 0
    ensures |r| > 1 ==> r[0] != '0'
  {
    if |s| > 1 && s[0] == '0' then TrimLeadingZeros(s[1..]) else s
  }

  /** Length of the longest prefix of `s` made of digits. */
  function DigitRun(s: string): (n: nat)
    ensures n <= |s| && AllDigits(s[..n])
    ensures n == |s| || !IsDigit(s[n])
  {
    if |s| > 0 && IsDigit(s[0]) then
      var m := DigitRun(s[1..]);
      assert s[..m + 1] == [s[0]] + s[1..][..m];
      m + 1
    else 0
  }

  /** Reference meaning of the rewrite, independent of its loop: every maximal
      run of digits (a number) is trimmed of its leading zeros, keeping at least
      its last digit, and every other character is copied. */
  function Canonical(s: string): string
    decreases |s|
  {
    if |s| == 0 then []
    else if !IsDigit(s[0]) then [s[0]] + Canonical(s[1..])
    else
      var n := DigitRun(s);
      TrimLeadingZeros(s[..n]) + Canonical(s[n..])
  }

  /** Position `i` of `s` is a `'0'` that begins a number of two or more digits. */
  predicate StartsLeadingZero(s: string, i: nat)
    requires i < |s|
  {
    s[i] == '0' && i + 1 < |s| && IsDigit(s[i + 1]) && (i == 0 || !IsDigit(s[i - 1]))
  }

  /** No number in `s` has more than one digit and starts with `'0'`. */
  predicate NoLeadingZeroNumber(s: string) {
    forall i :: 0 <= i < |s| ==> !StartsLeadingZero(s, i)
  }

  /** Nothing emitted yet, or the last emitted character ends no number. */
  predicate AtBoundary(result: string) {
    |result| == 0 || !IsDigit(result[|result| - 1])
  }

  /** After a digit has been emitted, every further digit is kept. */
  lemma {:induction false} ScanKeepsDigits(result: string, s: string, m: nat)
    requires |result| > 0 && IsDigit(result[|result| - 1])
    requires m <= |s| && AllDigits(s[..m])
    ensures Scan(result, s) == Scan(result + s[..m], s[m..])
    decreases m
  {
    if m > 0 {
      assert IsDigit(s[..m][0]);
      assert Scan(result, s) == Scan(result + [s[0]], s[1..]);
      assert s[1..][..m - 1] == s[1..m];
      ScanKeepsDigits(result + [s[0]], s[1..], m - 1);
      assert result + [s[0]] + s[1..m] == result + s[..m];
      assert s[1..][m - 1..] == s[m..];
    } else {
      assert result + s[..m] == result;
      assert s[m..] == s;
    }
  }

  /** A `'0'` read at a boundary and followed by a digit is dropped. */
  lemma ScanDropsLeadingZero(result: string, s: string)
    requires AtBoundary(result)
    requires |s| > 1 && s[0] == '0' && IsDigit(s[1])
    ensures Scan(result, s) == Scan(result, s[1..])
  {
    assert !Keeps(result, s[0], s[1..]);
  }

  /** A first digit that is not a dropped zero is emitted. */
  lemma ScanEmitsFirstDigit(result: string, s: string)
    requires |s| > 0 && IsDigit(s[0])
    requires s[0] != '0' || |s| == 1 || !IsDigit(s[1])
    ensures Scan(result, s) == Scan(result + [s[0]], s[1..])
  {
    assert Keeps(result, s[0], s[1..]);
  }

  /** The digit run of `s[1..]` is the digit run of `s` less its first digit. */
  lemma DigitRunTail(s: string, n: nat)
    requires 1 <= n <= |s| && AllDigits(s[..n])
    requires n == |s| || !IsDigit(s[n])
    ensures AllDigits(s[1..][..n - 1]) && s[1..][..n - 1] == s[1..n] == s[..n][1..]
    ensures s[1..][n - 1..] == s[n..]
    ensures n - 1 == |s[1..]| || !IsDigit(s[1..][n - 1])
  {
    var t := s[1..][..n - 1];
    forall k | 0 <= k < |t|
      ensures IsDigit(t[k])
    {
      assert t[k] == s[..n][k + 1];
    }
  }

  /** Reading one whole number from a boundary emits exactly its trimmed form. */
  lemma {:induction false} ScanNumber(result: string, s: string, n: nat)
    requires AtBoundary(result)
    requires 1 <= n <= |s| && AllDigits(s[..n])
    requires n == |s| || !IsDigit(s[n])
    ensures Scan(result, s) == Scan(result + TrimLeadingZeros(s[..n]), s[n..])
    decreases n
  {
    assert IsDigit(s[..n][0]);
    if n == 1 {
      assert s[..n] == [s[0]];
      ScanEmitsFirstDigit(result, s);
    } else {
      assert IsDigit(s[..n][1]);
      DigitRunTail(s, n);
      if s[0] == '0' {
        ScanDropsLeadingZero(result, s);
        ScanNumber(result, s[1..], n - 1);
      } else {
        ScanEmitsFirstDigit(result, s);
        ScanKeepsDigits(result + [s[0]], s[1..], n - 1);
        assert result + [s[0]] + s[1..n] == result + s[..n];
      }
    }
  }

  /** `Canonical` of a string starting with a non-digit copies it. */
  lemma CanonicalNonDigit(s: string)
    requires |s| > 0 && !IsDigit(s[0])
    ensures Canonical(s) == [s[0]] + Canonical(s[1..])
  {
  }

  /** `Canonical` of a string starting with a digit trims its first number. */
  lemma CanonicalNumber(s: string)
    requires |s| > 0 && IsDigit(s[0])
    ensures Canonical(s) == TrimLeadingZeros(s[..DigitRun(s)]) + Canonical(s[DigitRun(s)..])
  {
  }

  /** From a point where the next character does not continue a number, the
      loop emits `Canonical` of what is left. */
  lemma {:induction false} ScanIsCanonical(result: string, s: string)
    requires |s| == 0 || !IsDigit(s[0]) || AtBoundary(result)
    ensures Scan(result, s) == result + Canonical(s)
    decreases |s|
  {
    if |s| == 0 {
      assert result + [] == result;
    } else if !IsDigit(s[0]) {
      var next := result + [s[0]];
      assert Keeps(result, s[0], s[1..]);
      ScanIsCanonical(next, s[1..]);
      CanonicalNonDigit(s);
      ConcatAssociative(result, [s[0]], Canonical(s[1..]));
    } else {
      var n := DigitRun(s);
      var trimmed := TrimLeadingZeros(s[..n]);
      ScanNumber(result, s, n);
      ScanIsCanonical(result + trimmed, s[n..]);
      CanonicalNumber(s);
      ConcatAssociative(result, trimmed, Canonical(s[n..]));
    }
  }

  /** The character-by-character rewrite does exactly what `Canonical` says. */
  lemma RemoveLeadingZerosIsCanonical(expression: string)
    ensures RemoveLeadingZeros(expression) == Canonical(expression)
  {
    ScanIsCanonical([], expression);
    assert [] + Canonical(expression) == Canonical(expression);
  }

  /** A non-digit in front of a string free of leading-zero numbers keeps it so. */
  lemma NoLeadingZeroAfterNonDigit(c: char, tail: string)
    requires !IsDigit(c) && NoLeadingZeroNumber(tail)
    ensures NoLeadingZeroNumber([c] + tail)
  {
    var r := [c] + tail;
    forall i | 0 <= i < |r|
      ensures !StartsLeadingZero(r, i)
    {
      if i > 0 {
        assert r[i] == tail[i - 1];
        assert i + 1 < |r| ==> r[i + 1] == tail[i];
        assert i > 1 ==> r[i - 1] == tail[i - 2];
        assert !StartsLeadingZero(tail, i - 1);
      }
    }
  }

  /** A number with no leading zero, followed by a string free of leading-zero
      numbers that does not continue the number, gives such a string. */
  lemma NoLeadingZeroAfterNumber(t: string, tail: string)
    requires |t| > 0 && AllDigits(t) && (|t| > 1 ==> t[0] != '0')
    requires NoLeadingZeroNumber(tail) && (|tail| == 0 || !IsDigit(tail[0]))
    ensures NoLeadingZeroNumber(t + tail)
  {
    var r := t + tail;
    forall i | 0 <= i < |r|
      ensures !StartsLeadingZero(r, i)
    {
      if i < |t| {
        assert r[i] == t[i];
        if i > 0 {
          assert IsDigit(r[i - 1]) by { assert r[i - 1] == t[i - 1]; }
        } else if |t| > 1 {
          assert r[0] == t[0];
        } else if |r| > 1 {
          assert r[1] == tail[0];
        }
      } else if i > |t| {
        assert r[i] == tail[i - |t|];
        assert i + 1 < |r| ==> r[i + 1] == tail[i - |t| + 1];
        assert r[i - 1] == tail[i - |t| - 1];
        assert !StartsLeadingZero(tail, i - |t|);
      }
    }
  }

  /** Trimming a run of digits leaves a non-empty run of digits with no
      leading zero unless it is a lone digit. */
  lemma TrimmedRun(s: string, n: nat)
    requires 1 <= n <= |s| && AllDigits(s[..n])
    ensures |TrimLeadingZeros(s[..n])| > 0 && AllDigits(TrimLeadingZeros(s[..n]))
    ensures |TrimLeadingZeros(s[..n])| > 1 ==> TrimLeadingZeros(s[..n])[0] != '0'
  {
    var run := s[..n];
    var t := TrimLeadingZeros(run);
    forall k | 0 <= k < |t|
      ensures IsDigit(t[k])
    {
      assert t[k] == run[|run| - |t| + k];
    }
  }

  lemma {:induction false} CanonicalHasNoLeadingZero(s: string)
    ensures NoLeadingZeroNumber(Canonical(s))
    decreases |s|
  {
    if |s| == 0 {
    } else if !IsDigit(s[0]) {
      CanonicalHasNoLeadingZero(s[1..]);
      CanonicalNonDigit(s);
      NoLeadingZeroAfterNonDigit(s[0], Canonical(s[1..]));
    } else {
      var n := DigitRun(s);
      CanonicalHasNoLeadingZero(s[n..]);
      if n < |s| {
        CanonicalNonDigit(s[n..]);
      }
      TrimmedRun(s, n);
      CanonicalNumber(s);
      NoLeadingZeroAfterNumber(TrimLeadingZeros(s[..n]), Canonical(s[n..]));
    }
  }

  /** Cutting `s` where no number is split keeps it free of leading-zero numbers. */
  lemma NoLeadingZeroSuffix(s: string, k: nat)
    requires NoLeadingZeroNumber(s)
    requires k <= |s|
    requires k == 0 || k == |s| || !IsDigit(s[k]) || !IsDigit(s[k - 1])
    ensures NoLeadingZeroNumber(s[k..])
  {
    var t := s[k..];
    forall i | 0 <= i < |t|
      ensures !StartsLeadingZero(t, i)
    {
      assert !StartsLeadingZero(s, k + i);
    }
  }

  /** A string that already has no leading-zero number is left unchanged. */
  lemma {:induction false} CanonicalFixesCanonical(s: string)
    requires NoLeadingZeroNumber(s)
    ensures Canonical(s) == s
    decreases |s|
  {
    if |s| == 0 {
    } else if !IsDigit(s[0]) {
      NoLeadingZeroSuffix(s, 1);
      CanonicalFixesCanonical(s[1..]);
      assert Canonical(s) == [s[0]] + Canonical(s[1..]);
      assert [s[0]] + s[1..] == s;
    } else {
      var n := DigitRun(s);
      var run := s[..n];
      assert TrimLeadingZeros(run) == run by {
        assert !StartsLeadingZero(s, 0);
        assert n > 1 ==> run[1] == s[1];
      }
      NoLeadingZeroSuffix(s, n);
      CanonicalFixesCanonical(s[n..]);
      assert Canonical(s) == run + Canonical(s[n..]);
      assert run + s[n..] == s;
    }
  }

  /** The rewrite removes every leading zero of every number. */
  lemma RemoveLeadingZerosNoLeadingZero(expression: string)
    ensures NoLeadingZeroNumber(RemoveLeadingZeros(expression))
  {
    RemoveLeadingZerosIsCanonical(expression);
    CanonicalHasNoLeadingZero(expression);
  }

  /** Applying the rewrite twice is the same as applying it once. */
  lemma RemoveLeadingZerosIdempotent(expression: string)
    ensures RemoveLeadingZeros(RemoveLeadingZeros(expression)) == RemoveLeadingZeros(expression)
  {
    var once := RemoveLeadingZeros(expression);
    RemoveLeadingZerosNoLeadingZero(expression);
    RemoveLeadingZerosIsCanonical(once);
    CanonicalFixesCanonical(once);
  }

  /** An expression with no leading-zero number, such as one containing a lone
      `0` operand, comes back unchanged. */
  lemma RemoveLeadingZerosKeepsCanonical(expression: string)
    requires NoLeadingZeroNumber(expression)
    ensures RemoveLeadingZeros(expression) == expression
  {
    RemoveLeadingZerosIsCanonical(expression);
    CanonicalFixesCanonical(expression);
  }

  /** A string of zeros has nothing left once its zeros are deleted. */
  lemma {:induction false} WithoutAllZeros(s: string)
    requires forall i :: 0 <= i < |s| ==> s[i] == '0'
    ensures Without(s, '0') == []
    decreases |s|
  {
    if |s| > 0 {
      WithoutAllZeros(s[1..]);
    }
  }

  /** Trimming deletes only zeros and keeps the order of what is left. */
  lemma TrimDeletesOnlyZeros(s: string)
    ensures Without(TrimLeadingZeros(s), '0') == Without(s, '0')
    ensures IsSubsequence(TrimLeadingZeros(s), s)
  {
    var r := TrimLeadingZeros(s);
    var k := |s| - |r|;
    assert s == s[..k] + r;
    WithoutConcat(s[..k], r, '0');
    WithoutAllZeros(s[..k]);
    SuffixIsSubsequence(s, k);
  }

  /** Deleting only zeros, in order, from two pieces deletes only zeros, in
      order, from their concatenation. */
  lemma DeletesOnlyZerosConcat(a: string, b: string, c: string, d: string)
    requires Without(a, '0') == Without(b, '0') && IsSubsequence(a, b)
    requires Without(c, '0') == Without(d, '0') && IsSubsequence(c, d)
    ensures Without(a + c, '0') == Without(b + d, '0')
    ensures IsSubsequence(a + c, b + d)
  {
    WithoutConcat(a, c, '0');
    WithoutConcat(b, d, '0');
    SubsequenceConcat(a, b, c, d);
  }

  /** Rewriting an expression only deletes `'0'` characters: the output is a
      subsequence of the input and every other character survives, in order. */
  lemma {:induction false} CanonicalDeletesOnlyZeros(s: string)
    ensures Without(Canonical(s), '0') == Without(s, '0')
    ensures IsSubsequence(Canonical(s), s)
    decreases |s|
  {
    if |s| == 0 {
    } else if !IsDigit(s[0]) {
      CanonicalDeletesOnlyZeros(s[1..]);
      CanonicalNonDigit(s);
      SubsequenceReflexive([s[0]]);
      DeletesOnlyZerosConcat([s[0]], [s[0]], Canonical(s[1..]), s[1..]);
      SplitAt(s, 1);
      assert s[..1] == [s[0]];
    } else {
      var n := DigitRun(s);
      CanonicalDeletesOnlyZeros(s[n..]);
      TrimDeletesOnlyZeros(s[..n]);
      CanonicalNumber(s);
      DeletesOnlyZerosConcat(TrimLeadingZeros(s[..n]), s[..n], Canonical(s[n..]), s[n..]);
      SplitAt(s, n);
    }
  }

  lemma RemoveLeadingZerosDeletesOnlyZeros(expression: string)
    ensures Without(RemoveLeadingZeros(expression), '0') == Without(expression, '0')
    ensures IsSubsequence(RemoveLeadingZeros(expression), expression)
  {
    RemoveLeadingZerosIsCanonical(expression);
    CanonicalDeletesOnlyZeros(expression);
  }

  /** A lone zero operand is kept. */
  lemma LoneZeroKept()
    ensures RemoveLeadingZeros("0+23") == "0+23"
  {
    assert Scan([], "0+23") == Scan("0", "+23");
    assert Scan("0", "+23") == Scan("0+", "23");
    assert Scan("0+", "23") == Scan("0+2", "3");
  }

  /** `0123` becomes `123`, whose value is 123. */
  lemma ZeroPaddedOperand()
    ensures RemoveLeadingZeros("0123") == "123"
    ensures ParseNat("123") == 123
  {
    ScanDropsLeadingZero([], "0123");
    assert "0123"[1..] == "123";
    ScanEmitsFirstDigit([], "123");
    assert "123"[1..] == "23";
    ScanEmitsFirstDigit("1", "23");
    assert "23"[1..] == "3";
    assert Scan("12", "3") == Scan("123", "");
    assert "123"[..2] == "12" && "12"[..1] == "1";
  }

  /** The leading zero of a multi-digit number is dropped. */
  lemma LeadingZeroDropped()
    ensures RemoveLeadingZeros("023") == "23"
  {
    assert Scan([], "023") == Scan([], "23");
    assert Scan([], "23") == Scan("2", "3");
  }

  /** The value of a non-negative decimal literal, as Python's `int` gives it. */
  function ParseNat(s: string): nat
    requires AllDigits(s)
  {
    if |s| == 0 then 0
    else 10 * ParseNat(s[..|s| - 1]) + (s[|s| - 1] as int - '0' as int)
  }

  lemma {:induction false} ParseNatLeadingZero(s: string)
    requires AllDigits(s)
    ensures AllDigits(['0'] + s) && ParseNat(['0'] + s) == ParseNat(s)
    decreases |s|
  {
    var z := ['0'] + s;
    if |s| > 0 {
      assert z[..|z| - 1] == ['0'] + s[..|s| - 1];
      ParseNatLeadingZero(s[..|s| - 1]);
    }
  }

  /** Trimming the result side never changes the integer it denotes. */
  lemma {:induction false} TrimPreservesValue(s: string)
    requires AllDigits(s)
    ensures AllDigits(TrimLeadingZeros(s))
    ensures ParseNat(TrimLeadingZeros(s)) == ParseNat(s)
    decreases |s|
  {
    if |s| > 1 && s[0] == '0' {
      var t := s[1..];
      assert AllDigits(t) by {
        forall k | 0 <= k < |t|
          ensures IsDigit(t[k])
        {
          assert t[k] == s[k + 1];
        }
      }
      TrimPreservesValue(t);
      ParseNatLeadingZero(t);
      assert ['0'] + t == s;
      assert TrimLeadingZeros(s) == TrimLeadingZeros(t);
    }
  }
}
