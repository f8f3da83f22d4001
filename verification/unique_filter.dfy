/** `grep_unique_characters.py`: keep the lines, once spaces and surrounding
    whitespace are removed, in which no character occurs twice. */
module UniqueFilter {
  import opened Text

  /** `line.replace(" ", "").strip()`: no space is left and the result neither
      starts nor ends with whitespace. */
  function Normalize(line: string): (r: string)
    ensures ' ' !in r
    ensures |r| == 0 || (!IsWhitespace(r[0]) && !IsWhitespace(r[|r| - 1]))
  {
    var spaceless := Without(line, ' ');
    StripAddsNothing(spaceless, ' ');
    Strip(spaceless)
  }

  /** Normalising deletes only whitespace: the line's non-whitespace
      characters all survive, in order. */
  lemma NormalizeKeepsVisible(line: string)
    ensures Visible(Normalize(line)) == Visible(line)
  {
    var spaceless := Without(line, ' ');
    VisibleWithout(line, ' ');
    StripKeepsVisible(spaceless);
  }

  /** Normalising only deletes characters. */
  lemma NormalizeIsSubsequence(line: string)
    ensures IsSubsequence(Normalize(line), line)
  {
    var spaceless := Without(line, ' ');
    WithoutKeepsOthers(line, ' ');
    StripIsSubsequence(spaceless);
    SubsequenceTransitive(Strip(spaceless), spaceless, line);
  }

  /** Normalising never changes how often a non-whitespace character occurs,
      so it cannot create or hide a repeat of one. */
  lemma NormalizeKeepsCounts(line: string, c: char)
    requires !IsWhitespace(c)
    ensures Count(Normalize(line), c) == Count(line, c)
  {
    NormalizeKeepsVisible(line);
    VisibleCount(Normalize(line), c);
    VisibleCount(line, c);
  }

  lemma {:induction false} DistinctCountsAtMostOne(s: string, c: char)
    requires Distinct(s)
    ensures Count(s, c) <= 1
    decreases |s|
  {
    if |s| > 0 {
      DistinctCountsAtMostOne(s[1..], c);
      if s[0] == c {
        assert forall k :: 0 <= k < |s[1..]| ==> s[1..][k] == s[k + 1] != s[0];
        assert c !in s[1..];
      }
    }
  }

  lemma RepeatCountsTwice(s: string, i: nat, j: nat)
    requires i < j < |s| && s[i] == s[j]
    ensures Count(s, s[i]) > 1
  {
    assert s == s[..j] + s[j..];
    CountConcat(s[..j], s[j..], s[i]);
    assert s[i] in s[..j] && s[i] in s[j..];
  }

  /** Distinctness is what the script tests character by character: every
      character of the line occurs in it at most once. */
  lemma DistinctIffCountsAtMostOne(s: string)
    ensures Distinct(s) <==> forall k :: 0 <= k < |s| ==> Count(s, s[k]) <= 1
  {
    if Distinct(s) {
      forall k | 0 <= k < |s|
        ensures Count(s, s[k]) <= 1
      {
        DistinctCountsAtMostOne(s, s[k]);
      }
    } else {
      var a, b :| 0 <= a < b < |s| && s[a] == s[b];
      RepeatCountsTwice(s, a, b);
    }
  }

  /** The loop over the characters of a normalised line, with its early
      `break`: it reports a repeat exactly when some character occurs twice,
      which is exactly when some character's count exceeds one, so stopping
      at the first such character changes nothing. */
  method HasRepeats(line: string) returns (hasRepeats: bool)
    ensures hasRepeats <==> !Distinct(line)
  {
    hasRepeats := false;
    var i := 0;
    while i < |line|
      invariant 0 <= i <= |line|
      invariant !hasRepeats
      invariant forall k :: 0 <= k < i ==> Count(line, line[k]) <= 1
    {
      if Count(line, line[i]) > 1 {
        hasRepeats := true;
        break;
      }
      i := i + 1;
    }
    if hasRepeats {
      if Distinct(line) {
        DistinctCountsAtMostOne(line, line[i]);
      }
    } else {
      forall a, b | 0 <= a < b < |line|
        ensures line[a] != line[b]
      {
        if line[a] == line[b] {
          RepeatCountsTwice(line, a, b);
        }
      }
    }
  }

  /** `f` applied to every line. */
  function MapLines(f: string -> string, lines: seq<string>): seq<string> {
    seq(|lines|, i requires 0 <= i < |lines| => f(lines[i]))
  }

  /** Mapping line by line commutes with concatenation. */
  lemma MapLinesConcat(f: string -> string, a: seq<string>, b: seq<string>)
    ensures MapLines(f, a + b) == MapLines(f, a) + MapLines(f, b)
  {
    var l, r := MapLines(f, a + b), MapLines(f, a) + MapLines(f, b);
    forall k | 0 <= k < |l|
      ensures l[k] == r[k]
    {
      if k < |a| {
        assert (a + b)[k] == a[k];
      } else {
        assert (a + b)[k] == b[k - |a|];
      }
    }
  }

  /** The lines as the script sees them after normalisation. */
  function NormalizedLines(lines: seq<string>): seq<string> {
    MapLines(Normalize, lines)
  }

  /** What one normalised line contributes to the output: itself when it has
      no repeated character, nothing otherwise. */
  function Kept(line: string): seq<string> {
    if Distinct(line) then [line] else []
  }

  /** The lines of `ls` with no repeated character, in order. */
  function KeepDistinct(ls: seq<string>): seq<string>
    decreases |ls|
  {
    if |ls| == 0 then [] else Kept(ls[0]) + KeepDistinct(ls[1..])
  }

  /** Reference meaning of the script's output: the normalised lines with no
      repeated character, in input order. */
  function UniqueLines(lines: seq<string>): seq<string> {
    KeepDistinct(NormalizedLines(lines))
  }

  lemma {:induction false} KeepDistinctIsSubsequence(ls: seq<string>)
    ensures IsSubsequence(KeepDistinct(ls), ls)
    decreases |ls|
  {
    if |ls| > 0 {
      var rest := KeepDistinct(ls[1..]);
      KeepDistinctIsSubsequence(ls[1..]);
      if Distinct(ls[0]) {
        assert ([ls[0]] + rest)[1..] == rest;
      } else {
        assert Kept(ls[0]) + rest == rest;
        SubsequenceOfLonger(rest, [ls[0]], ls[1..]);
        assert [ls[0]] + ls[1..] == ls;
      }
    }
  }

  lemma {:induction false} KeepDistinctMembership(ls: seq<string>, l: string)
    ensures l in KeepDistinct(ls) <==> l in ls && Distinct(l)
    decreases |ls|
  {
    if |ls| > 0 {
      KeepDistinctMembership(ls[1..], l);
      assert ls == [ls[0]] + ls[1..];
    }
  }

  lemma {:induction false} KeepDistinctConcat(a: seq<string>, b: seq<string>)
    ensures KeepDistinct(a + b) == KeepDistinct(a) + KeepDistinct(b)
    decreases |a|
  {
    if |a| == 0 {
      assert a + b == b;
    } else {
      assert (a + b)[0] == a[0];
      assert (a + b)[1..] == a[1..] + b;
      KeepDistinctConcat(a[1..], b);
      ConcatAssociative(Kept(a[0]), KeepDistinct(a[1..]), KeepDistinct(b));
    }
  }

  /** The output keeps the order of the input: it is a subsequence of the
      normalised lines. */
  lemma UniqueLinesIsSubsequence(lines: seq<string>)
    ensures IsSubsequence(UniqueLines(lines), NormalizedLines(lines))
  {
    KeepDistinctIsSubsequence(NormalizedLines(lines));
  }

  /** A normalised line is output exactly when it has no repeated character. */
  lemma UniqueLinesMembership(lines: seq<string>, l: string)
    ensures l in UniqueLines(lines) <==> l in NormalizedLines(lines) && Distinct(l)
  {
    KeepDistinctMembership(NormalizedLines(lines), l);
  }

  /** Lines are judged one at a time: filtering a concatenation is filtering
      each part. */
  lemma UniqueLinesConcat(a: seq<string>, b: seq<string>)
    ensures UniqueLines(a + b) == UniqueLines(a) + UniqueLines(b)
  {
    MapLinesConcat(Normalize, a, b);
    KeepDistinctConcat(NormalizedLines(a), NormalizedLines(b));
  }

  /** One more line extends the output by what that line contributes. */
  lemma UniqueLinesStep(lines: seq<string>, i: nat)
    requires i < |lines|
    ensures UniqueLines(lines[..i + 1]) == UniqueLines(lines[..i]) + Kept(Normalize(lines[i]))
  {
    assert lines[..i + 1] == lines[..i] + [lines[i]];
    UniqueLinesConcat(lines[..i], [lines[i]]);
    var single := NormalizedLines([lines[i]]);
    assert single == [Normalize(lines[i])];
    assert KeepDistinct(single) == Kept(single[0]) + KeepDistinct([]);
  }

  /** The script's loop: normalise each line, print it when it has no repeat. */
  method GrepUniqueCharacters(lines: seq<string>) returns (out: seq<string>)
    ensures out == UniqueLines(lines)
  {
    out := [];
    var i := 0;
    while i < |lines|
      invariant 0 <= i <= |lines|
      invariant out == UniqueLines(lines[..i])
    {
      var line := Normalize(lines[i]);
      var hasRepeats := HasRepeats(line);
      UniqueLinesStep(lines, i);
      if !hasRepeats {
        out := out + [line];
      } else {
        assert out + Kept(line) == out;
      }
      i := i + 1;
    }
    assert lines[..i] == lines;
  }

  /** The two worked cases: a repeated `4` rejects a word, an all-distinct word
      is kept. */
  lemma DistinctExamples()
    ensures !Distinct("12+34=46")
    ensures Distinct("12+35=47")
  {
    assert "12+34=46"[4] == "12+34=46"[6];
  }
}
