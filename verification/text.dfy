/** Characters, counting and the few Python string operations the three Nerdle
    scripts rely on (`str.count`, `str.replace(x, "")`, `str.strip()`), plus
    the search for a character behind the model of `split`, stated over
    `string == seq<char>`. */
module Text {

  datatype Option<+T> = None | Some(value: T)

  /** Membership in the `numbers` set of the generator: the ASCII digits. */
  predicate IsDigit(c: char) {
    '0' <= c <= '9'
  }

  /** Membership in `operators`. */
  predicate IsOperator(c: char) {
    c == '+' || c == '-' || c == '*' || c == '/'
  }

  /** `numbers_sorted`: the digits in ascending order. */
  const Digits: seq<char> := ['0', '1', '2', '3', '4', '5', '6', '7', '8', '9']

  /** `operators_sorted`. */
  const Operators: seq<char> := ['+', '-', '*', '/']

  lemma DigitMembership(c: char)
    ensures c in Digits <==> IsDigit(c)
  {
    if IsDigit(c) {
      var k := c as int - '0' as int;
      assert Digits[k] == c;
    }
  }

  predicate AllDigits(s: string) {
    forall i :: 0 <= i < |s| ==> IsDigit(s[i])
  }

  predicate HasOperator(s: string) {
    exists i :: 0 <= i < |s| && IsOperator(s[i])
  }

  /** The characters Python's `str.isspace` accepts, which is what `str.strip()`
      with no argument removes. */
  predicate IsWhitespace(c: char) {
    || '\U{0009}' <= c <= '\U{000D}'
    || '\U{001C}' <= c <= '\U{0020}'
    || c == '\U{0085}' || c == '\U{00A0}' || c == '\U{1680}'
    || '\U{2000}' <= c <= '\U{200A}'
    || c == '\U{2028}' || c == '\U{2029}' || c == '\U{202F}' || c == '\U{205F}' || c == '\U{3000}'
  }

  /** `s.count(c)` for a one-character `c`. */
  function Count<T(==)>(s: seq<T>, c: T): (n: nat)
    ensures n == 0 <==> c !in s
    ensures n <= |s|
  {
    if |s| == 0 then 0
    else (if s[0] == c then 1 else 0) + Count(s[1..], c)
  }

  lemma {:induction false} CountConcat<T>(a: seq<T>, b: seq<T>, c: T)
    ensures Count(a + b, c) == Count(a, c) + Count(b, c)
    decreases |a|
  {
    if |a| == 0 {
      assert a + b == b;
    } else {
      assert (a + b)[1..] == a[1..] + b;
      CountConcat(a[1..], b, c);
    }
  }

  /** No element occurs at two positions of `s`. */
  predicate Distinct<T(==)>(s: seq<T>) {
    forall i, j :: 0 <= i < j < |s| ==> s[i] != s[j]
  }

  lemma DistinctConcat<T>(a: seq<T>, b: seq<T>)
    requires Distinct(a) && Distinct(b)
    requires forall x :: x in a ==> x !in b
    ensures Distinct(a + b)
  {
    forall i, j | 0 <= i < j < |a + b|
      ensures (a + b)[i] != (a + b)[j]
    {
      if i < |a| && j >= |a| {
        assert (a + b)[i] in a && (a + b)[j] in b;
      }
    }
  }

  /** `a` can be obtained from `b` by deleting elements. */
  predicate IsSubsequence<T(==)>(a: seq<T>, b: seq<T>)
    decreases |b|
  {
    if |a| == 0 then true
    else if |b| == 0 then false
    else (a[0] == b[0] && IsSubsequence(a[1..], b[1..])) || IsSubsequence(a, b[1..])
  }

  lemma {:induction false} SubsequenceOfLonger<T>(a: seq<T>, b: seq<T>, d: seq<T>)
    requires IsSubsequence(a, d)
    ensures IsSubsequence(a, b + d)
    decreases |b|
  {
    if |b| > 0 {
      assert (b + d)[1..] == b[1..] + d;
      SubsequenceOfLonger(a, b[1..], d);
    } else {
      assert b + d == d;
    }
  }

  lemma {:induction false} SubsequenceConcat<T>(a: seq<T>, b: seq<T>, c: seq<T>, d: seq<T>)
    requires IsSubsequence(a, b) && IsSubsequence(c, d)
    ensures IsSubsequence(a + c, b + d)
    decreases |b|
  {
    if |a| == 0 {
      assert a + c == c;
      SubsequenceOfLonger(c, b, d);
    } else {
      assert |b| > 0;
      assert (b + d)[1..] == b[1..] + d;
      if a[0] == b[0] && IsSubsequence(a[1..], b[1..]) {
        assert (a + c)[1..] == a[1..] + c;
        SubsequenceConcat(a[1..], b[1..], c, d);
      } else {
        SubsequenceConcat(a, b[1..], c, d);
      }
    }
  }

  lemma {:induction false} SubsequenceReflexive<T>(s: seq<T>)
    ensures IsSubsequence(s, s)
    decreases |s|
  {
    if |s| > 0 {
      SubsequenceReflexive(s[1..]);
    }
  }

  lemma {:induction false} SubsequenceTransitive<T>(a: seq<T>, b: seq<T>, c: seq<T>)
    requires IsSubsequence(a, b) && IsSubsequence(b, c)
    ensures IsSubsequence(a, c)
    decreases |c|
  {
    if |a| > 0 {
      if b[0] == c[0] && IsSubsequence(b[1..], c[1..]) {
        if a[0] == b[0] && IsSubsequence(a[1..], b[1..]) {
          SubsequenceTransitive(a[1..], b[1..], c[1..]);
        } else {
          SubsequenceTransitive(a, b[1..], c[1..]);
        }
      } else {
        SubsequenceTransitive(a, b, c[1..]);
      }
    }
  }

  lemma SliceIsSubsequence<T>(s: seq<T>, i: nat, j: nat)
    requires i <= j <= |s|
    ensures IsSubsequence(s[i..j], s)
  {
    SubsequenceReflexive(s[i..j]);
    SubsequenceConcat(s[i..j], s[i..j], [], s[j..]);
    assert s[i..j] + [] == s[i..j];
    SubsequenceOfLonger(s[i..j], s[..i], s[i..j] + s[j..]);
    assert s[..i] + (s[i..j] + s[j..]) == s;
  }

  lemma SuffixIsSubsequence<T>(s: seq<T>, k: nat)
    requires k <= |s|
    ensures IsSubsequence(s[k..], s)
  {
    SubsequenceReflexive(s[k..]);
    SubsequenceOfLonger(s[k..], s[..k], s[k..]);
    assert s[..k] + s[k..] == s;
  }

  lemma ConcatAssociative<T>(a: seq<T>, b: seq<T>, c: seq<T>)
    ensures a + b + c == a + (b + c)
  {
  }

  lemma SplitAt<T>(s: seq<T>, k: nat)
    requires k <= |s|
    ensures s[..k] + s[k..] == s
  {
  }

  lemma PrefixExtend<T>(w: seq<T>, p: seq<T>)
    requires |p| < |w| && w[..|p|] == p
    ensures w[..|p| + 1] == p + [w[|p|]]
  {
  }

  /** `s.replace(c, "")` for a one-character `c`: no `c` is left;
      `WithoutKeepsOthers` adds that everything else is kept, in order. */
  function Without(s: string, c: char): (r: string)
    ensures c !in r
  {
    if |s| == 0 then []
    else if s[0] == c then Without(s[1..], c)
    else [s[0]] + Without(s[1..], c)
  }

  /** Deleting `c` keeps every other character, as often as it occurs and in
      the same order. */
  lemma {:induction false} WithoutKeepsOthers(s: string, c: char)
    ensures forall x :: x != c ==> Count(Without(s, c), x) == Count(s, x)
    ensures IsSubsequence(Without(s, c), s)
    decreases |s|
  {
    if |s| > 0 {
      WithoutKeepsOthers(s[1..], c);
      if s[0] != c {
        assert ([s[0]] + Without(s[1..], c))[1..] == Without(s[1..], c);
      }
    }
  }

  lemma {:induction false} WithoutConcat(a: string, b: string, c: char)
    ensures Without(a + b, c) == Without(a, c) + Without(b, c)
    decreases |a|
  {
    if |a| == 0 {
      assert a + b == b;
    } else {
      assert (a + b)[1..] == a[1..] + b;
      WithoutConcat(a[1..], b, c);
    }
  }

  /** The characters of `s` that are not whitespace, in order. */
  function Visible(s: string): (r: string)
    ensures forall k :: 0 <= k < |r| ==> !IsWhitespace(r[k])
  {
    if |s| == 0 then []
    else (if IsWhitespace(s[0]) then [] else [s[0]]) + Visible(s[1..])
  }

  lemma {:induction false} VisibleConcat(a: string, b: string)
    ensures Visible(a + b) == Visible(a) + Visible(b)
    decreases |a|
  {
    if |a| == 0 {
      assert a + b == b;
    } else {
      assert (a + b)[1..] == a[1..] + b;
      VisibleConcat(a[1..], b);
    }
  }

  /** Whitespace is invisible: counting a visible character in `Visible(s)`
      counts it in `s`. */
  lemma {:induction false} VisibleCount(s: string, c: char)
    requires !IsWhitespace(c)
    ensures Count(Visible(s), c) == Count(s, c)
    decreases |s|
  {
    if |s| > 0 {
      VisibleCount(s[1..], c);
      CountConcat(if IsWhitespace(s[0]) then [] else [s[0]], Visible(s[1..]), c);
    }
  }

  /** Deleting a whitespace character changes nothing visible. */
  lemma {:induction false} VisibleWithout(s: string, c: char)
    requires IsWhitespace(c)
    ensures Visible(Without(s, c)) == Visible(s)
    decreases |s|
  {
    if |s| > 0 {
      VisibleWithout(s[1..], c);
      if s[0] != c {
        assert ([s[0]] + Without(s[1..], c))[1..] == Without(s[1..], c);
      }
    }
  }

  /** `s.lstrip()`: whitespace is cut from the front, nothing else. */
  function StripLeading(s: string): (r: string)
    ensures |r| <= |s| && r == s[|s| - |r|..]
    ensures forall i :: 0 <= i < |s| - |r| ==> IsWhitespace(s[i])
    ensures |r| == 0 || !IsWhitespace(r[0])
  {
    if |s| > 0 && IsWhitespace(s[0]) then StripLeading(s[1..]) else s
  }

  /** Cutting leading whitespace leaves every visible character in place. */
  lemma {:induction false} StripLeadingVisible(s: string)
    ensures Visible(StripLeading(s)) == Visible(s)
    decreases |s|
  {
    if |s| > 0 && IsWhitespace(s[0]) {
      StripLeadingVisible(s[1..]);
      assert Visible(s) == [] + Visible(s[1..]);
    }
  }

  /** `s.rstrip()`: whitespace is cut from the back, nothing else. */
  function StripTrailing(s: string): (r: string)
    ensures |r| <= |s| && r == s[..|r|]
    ensures forall i :: |r| <= i < |s| ==> IsWhitespace(s[i])
    ensures |r| == 0 || !IsWhitespace(r[|r| - 1])
  {
    if |s| > 0 && IsWhitespace(s[|s| - 1]) then StripTrailing(s[..|s| - 1]) else s
  }

  /** Cutting trailing whitespace leaves every visible character in place. */
  lemma {:induction false} StripTrailingVisible(s: string)
    ensures Visible(StripTrailing(s)) == Visible(s)
    decreases |s|
  {
    if |s| > 0 && IsWhitespace(s[|s| - 1]) {
      var front := s[..|s| - 1];
      StripTrailingVisible(front);
      assert s == front + [s[|s| - 1]];
      VisibleConcat(front, [s[|s| - 1]]);
      assert Visible([s[|s| - 1]]) == [] + Visible([]);
    }
  }

  /** `s.strip()`: the result neither starts nor ends with whitespace;
      `StripIsTrim` adds that what is cut comes off the two ends, and
      `StripKeepsVisible` that every non-whitespace character survives. */
  function Strip(s: string): (r: string)
    ensures |r| == 0 || (!IsWhitespace(r[0]) && !IsWhitespace(r[|r| - 1]))
  {
    StripTrailing(StripLeading(s))
  }

  /** Stripping deletes only whitespace: every non-whitespace character of
      `s` survives, in order. */
  lemma StripKeepsVisible(s: string)
    ensures Visible(Strip(s)) == Visible(s)
  {
    StripLeadingVisible(s);
    StripTrailingVisible(StripLeading(s));
  }

  /** A string that neither starts nor ends with whitespace is its own strip. */
  lemma StripUntrimmed(s: string)
    requires |s| == 0 || (!IsWhitespace(s[0]) && !IsWhitespace(s[|s| - 1]))
    ensures Strip(s) == s
  {
  }

  /** Stripping twice is stripping once. */
  lemma StripIdempotent(s: string)
    ensures Strip(Strip(s)) == Strip(s)
  {
    StripUntrimmed(Strip(s));
  }

  /** Stripping adds no character. */
  lemma StripAddsNothing(s: string, c: char)
    requires c !in s
    ensures c !in Strip(s)
  {
    var i, j := StripIsTrim(s);
    forall k | 0 <= k < j - i
      ensures Strip(s)[k] != c
    {
      assert Strip(s)[k] == s[i + k];
    }
  }

  /** Stripping only deletes characters. */
  lemma StripIsSubsequence(s: string)
    ensures IsSubsequence(Strip(s), s)
  {
    var left := StripLeading(s);
    var i, j := TrimmedPiece(s, left, StripTrailing(left));
    SliceIsSubsequence(s, i, j);
  }

  /** Cutting whitespace off the front of `s` and then off the back of what
      is left leaves one contiguous piece of `s` with only whitespace around
      it. */
  lemma TrimmedPiece(s: string, left: string, r: string) returns (i: nat, j: nat)
    requires |left| <= |s| && left == s[|s| - |left|..]
    requires forall k :: 0 <= k < |s| - |left| ==> IsWhitespace(s[k])
    requires |r| <= |left| && r == left[..|r|]
    requires forall k :: |r| <= k < |left| ==> IsWhitespace(left[k])
    ensures i <= j <= |s| && r == s[i..j]
    ensures forall k :: 0 <= k < i ==> IsWhitespace(s[k])
    ensures forall k :: j <= k < |s| ==> IsWhitespace(s[k])
  {
    i, j := |s| - |left|, |s| - |left| + |r|;
    forall k | j <= k < |s|
      ensures IsWhitespace(s[k])
    {
      assert s[k] == left[k - i];
    }
  }

  /** The result of `Strip` is one contiguous piece of `s` with only
      whitespace before and after it. */
  lemma StripIsTrim(s: string) returns (i: nat, j: nat)
    ensures i <= j <= |s| && Strip(s) == s[i..j]
    ensures forall k :: 0 <= k < i ==> IsWhitespace(s[k])
    ensures forall k :: j <= k < |s| ==> IsWhitespace(s[k])
  {
    var left := StripLeading(s);
    i, j := TrimmedPiece(s, left, StripTrailing(left));
  }

  /** The first position of `c` in `s`, if any: where `split` cuts a word. */
  function IndexOf(s: string, c: char): (r: Option<nat>)
    ensures r.None? <==> c !in s
    ensures r.Some? ==> r.value < |s| && s[r.value] == c && c !in s[..r.value]
  {
    if |s| == 0 then None
    else if s[0] == c then Some(0)
    else match IndexOf(s[1..], c)
      case None => None
      case Some(k) => assert s[..k + 1] == [s[0]] + s[1..][..k]; Some(k + 1)
  }
}
