# Nerdle analysis in Dafny

A model of the three scripts of the Nerdle analysis tools. Nerdle is a word game
whose eight-character words are arithmetic equations such as `12+35=47`.

- **Generator** (`all_valid_nerdles.py`). A depth-first search builds candidate
  words one character at a time. Syntax rules decide which characters may follow a
  prefix. Each complete word goes to the validity check, which:
  - removes the leading zeros of the numbers on the left of `=`;
  - evaluates that side;
  - trims the leading zeros of the right side;
  - compares the two values.
- **Unique-character filter** (`grep_unique_characters.py`). Each input line has
  its spaces removed and surrounding whitespace stripped. The line is printed when
  no character, `=` included, occurs in it twice.
- **Pair finder** (`unique_char_nerdle_pairs.py`). The words are indexed by the
  characters they contain, `=` excepted. Each word then gets the set of words that
  have a character other than `=` and share none of its characters other than `=`.

Modules, one per file:

- `Text` (`text.dfy`): the character classes, plus the Python string operations
  the scripts use: `count`, `replace(c, "")` and `strip`. It also has `IndexOf`,
  the search for the `=` behind the model of `split("=")`, and the list
  predicates `Distinct` and `IsSubsequence`.
- `LeadingZeros` (`leading_zeros.dfy`): `remove_leading_zeros`, the trim of the
  result side, and the decimal value of a digit string.
- `Validity` (`validity.dfy`): `is_valid_nerdle`, with its exceptions as a
  `Result`.
- `Generator` (`generator.dfy`): `all_valid_nerdles` and the top-level run.
- `UniqueFilter` (`unique_filter.dfy`): the line filter.
- `PairFinder` (`pair_finder.dfy`): the index and the pair selection.

Modelling choices:

- **`eval`** becomes a parameter `eval: string -> Option<real>`. `None` means
  evaluation divided by zero.
- **Exceptions** become a `Result`. `is_valid_nerdle` can raise three:
  - the word does not unpack into two sides on `=`;
  - the right side is empty, so `result[0]` fails;
  - `int(result)` rejects the right side.
- **Generator output.** Consuming the Python generator is a `Run`: the words
  yielded, in order, plus the exception that ended the run, if any.
- **Unordered sets.** The final digit of a word is tried by iterating the
  unordered set `numbers`. That order is a parameter `order`, which may be any
  arrangement of the ten digits. In the pair finder, the partners printed after a
  word come from a set, so each output block is a `set`.
- **Configuration.** The word length is the constant `NerdleLength = 8`. The
  generator takes `include_nerdles_with_no_operator` as a parameter. The top
  level, `AllValidNerdles`, uses the script's constant `false`.

Points of the code worth knowing:

- **Order of the last digit.** Every position but the last tries the sorted
  lists of characters. The last character comes from iterating the unordered set
  `numbers` (all_valid_nerdles.py:90), so the model leaves that order open.
- **Pair finder input.** Each word is `line.strip()` (unique_char_nerdle_pairs.py:16),
  which trims whitespace from both ends.
- **Symmetry of pairs.** A pair is printed in both directions only when both
  words have a character other than `=`. A blank line, or a line that is just
  `=`, gets every word that has a character other than `=` as a partner, but is
  nobody's partner.
  `PairFinder.BlankWordPairsOneWay` states this for any such line.
- **Operator-free words.** With the script's setting
  `include_nerdles_with_no_operator = False`, the pruning rules lose no
  well-formed word (`Generator.WellFormedIsGenerated`). With the setting `True`,
  the rule that forces an operator at the fifth character
  (all_valid_nerdles.py:116) still applies. So a well-formed, operator-free word
  whose `=` comes fifth, sixth or seventh (a left side of four to six digits),
  such as `0123=123` or `000005=5`, is never built
  (`Generator.NoOperatorWordNotBuilt`).

## Model

| member | source | states |
|---|---|---|
| LeadingZeros.RemoveLeadingZerosIsCanonical | all_valid_nerdles.py:22-37 | The character-by-character rewrite equals the reference rewrite. The reference copies every non-digit, and trims each maximal run of digits down to its first non-zero digit or its last digit. |
| LeadingZeros.RemoveLeadingZerosNoLeadingZero | all_valid_nerdles.py:22-37 | After the rewrite, no number of two or more digits starts with `0`. |
| LeadingZeros.RemoveLeadingZerosIdempotent | all_valid_nerdles.py:22-37 | Rewriting an already rewritten expression changes nothing. |
| LeadingZeros.RemoveLeadingZerosKeepsCanonical | all_valid_nerdles.py:22-37 | An expression with no leading-zero number comes back unchanged. This covers a lone `0` operand. |
| LeadingZeros.RemoveLeadingZerosDeletesOnlyZeros | all_valid_nerdles.py:22-37 | The rewrite only deletes `0` characters. Its output is a subsequence of the input, and the non-`0` characters are the same, in order. |
| LeadingZeros.LoneZeroKept | all_valid_nerdles.py:30-33 | `0+23` is unchanged. A `0` followed by a non-digit is kept. |
| LeadingZeros.LeadingZeroDropped | all_valid_nerdles.py:27-34 | `023` becomes `23`. A `0` that starts a number is dropped. |
| LeadingZeros.ZeroPaddedOperand | all_valid_nerdles.py:22-37 | `0123` becomes `123`, and the value of `123` is 123. |
| LeadingZeros.TrimLeadingZeros | all_valid_nerdles.py:66-67 | The result is a suffix of the input, and only `0`s are cut. A non-empty input gives a non-empty result. A result longer than one character does not start with `0`. |
| LeadingZeros.TrimDeletesOnlyZeros | all_valid_nerdles.py:66-67 | Trimming only deletes `0` characters, and what is left keeps its order. |
| LeadingZeros.TrimPreservesValue | all_valid_nerdles.py:66-68 | On a digit string, trimming leaves digits that denote the same integer. |
| Text.Strip | grep_unique_characters.py:10 | The result neither starts nor ends with whitespace. |
| Text.StripKeepsVisible | grep_unique_characters.py:10 | Every non-whitespace character of the input survives stripping, in order. |
| Text.StripIsSubsequence | grep_unique_characters.py:10 | Stripping only deletes characters. |
| Text.StripIdempotent | unique_char_nerdle_pairs.py:16 | Stripping an already stripped word changes nothing. |
| Text.StripAddsNothing | grep_unique_characters.py:10 | A character absent from the input is absent from the stripped result. |
| Text.StripIsTrim | unique_char_nerdle_pairs.py:16 | The stripped word is one contiguous slice of the line. Everything before and after that slice is whitespace. |
| Text.Without | grep_unique_characters.py:10 | `replace(c, "")` leaves no `c`. |
| Text.WithoutKeepsOthers | grep_unique_characters.py:10 | Every character other than `c` keeps its number of occurrences, and the result is a subsequence of the input. |
| Text.IndexOf | all_valid_nerdles.py:52 | The helper behind the model of `split("=")`: it gives the first position of the character, or none exactly when the character is absent. |
| Validity.SplitOnEquals | all_valid_nerdles.py:51-55 | The word splits exactly when it holds one `=`. The two sides, joined by `=`, give back the word, and neither side holds `=`. |
| Validity.SplitOnEqualsInverse | all_valid_nerdles.py:52 | Joining two `=`-free sides with `=` and splitting again gives back both sides. |
| Validity.IsValidNerdle | all_valid_nerdles.py:40-71 | The malformed-word error is raised exactly when the word does not hold exactly one `=`. Every error names the word. |
| Validity.IsValidNerdleOnSplitWord | all_valid_nerdles.py:60-71 | For a word with one `=`: division by zero makes it invalid, whatever the right side holds. An empty right side raises. A right side of digits makes it valid exactly when the left value equals that side's integer value, leading zeros and all. |
| Generator.SortedDigitsIsDigitOrder | all_valid_nerdles.py:16-17 | `numbers_sorted` holds each of the ten digits exactly once, so it is one of the orders the final loop may use. |
| Generator.NextCharsDistinct | all_valid_nerdles.py:96-129 | No list of next characters holds a character twice. |
| Generator.SyntaxInvariantStep | all_valid_nerdles.py:96-129 | Every character the rules offer keeps the prefix syntax invariant. Under it, the word is built from digits, operators and `=`, and has these properties: it starts with a digit; an operator is followed by a digit; `=` follows a digit and only digits follow `=`; the expression is at most six characters and does not end in an operator; there is an operator once `=` is placed or the prefix is longer than four characters, unless operator-free words are allowed. |
| Generator.GeneratedIsWellFormed | all_valid_nerdles.py:96-129 | A word built by the rules has one `=`, a well-formed expression before it and at least one digit after it. It has an operator unless operator-free words are allowed. |
| Generator.WellFormedIsGenerated | all_valid_nerdles.py:96-129 | With operator-free words excluded, the pruning rules lose nothing. Every well-formed word with an operator is one the rules build, so the rules build exactly the well-formed words. |
| Generator.NoOperatorWordNotBuilt | all_valid_nerdles.py:116-127 | With operator-free words allowed, a well-formed operator-free word whose left side has four or more digits is never built, because an operator is still forced at the fifth character. |
| Generator.OperatorFreeWordAccepted | all_valid_nerdles.py:40-71 | `0123=123` is accepted by the validity check, yet the rules never build it when operator-free words are allowed. |
| Generator.WellFormedWordIsDecided | all_valid_nerdles.py:40-71 | The validity check never raises on a well-formed word. |
| Generator.GenNoAbort | all_valid_nerdles.py:74-133 | From any prefix the rules can reach, the search never raises. |
| Generator.GenSound | all_valid_nerdles.py:74-133 | Every yielded word has length 8, extends the prefix, follows the rules from there, ends in a digit and is accepted by the validity check. |
| Generator.GenComplete | all_valid_nerdles.py:74-133 | Every word of length 8 that the validity check accepts and that extends the prefix is yielded, provided it follows the rules from there and ends in a digit. |
| Generator.GenDistinct | all_valid_nerdles.py:74-133 | The search yields no word twice. |
| Generator.GenFromEmpty | all_valid_nerdles.py:74-133 | For any validity check that answers on well-formed words, the search from the empty word never raises. It yields exactly the accepted words the rules can build, each once, and each is well formed. |
| Generator.AllValidNerdles | all_valid_nerdles.py:136-137 | The script's run never raises. It prints each word once. It prints exactly the well-formed words with an operator that the validity check accepts, which are exactly the accepted words the rules build. |
| UniqueFilter.Normalize | grep_unique_characters.py:10 | The normalised line has no space and does not start or end with whitespace. |
| UniqueFilter.NormalizeKeepsVisible | grep_unique_characters.py:10 | The non-whitespace characters of the normalised line are those of the line, in order. |
| UniqueFilter.NormalizeIsSubsequence | grep_unique_characters.py:10 | Normalising only deletes characters. |
| UniqueFilter.NormalizeKeepsCounts | grep_unique_characters.py:10-13 | Normalising does not change how often a non-whitespace character occurs. |
| UniqueFilter.DistinctIffCountsAtMostOne | grep_unique_characters.py:12-15 | A line has no repeated character exactly when every character's count is at most one, so the script's `count` test decides distinctness. |
| UniqueFilter.HasRepeats | grep_unique_characters.py:11-15 | The loop with its early `break` reports a repeat exactly when some character, `=` included, occurs twice. |
| UniqueFilter.UniqueLinesIsSubsequence | grep_unique_characters.py:9-17 | The output keeps input order: it is a subsequence of the normalised lines. |
| UniqueFilter.UniqueLinesMembership | grep_unique_characters.py:9-17 | A line is in the output exactly when it is a normalised input line with no repeated character. |
| UniqueFilter.UniqueLinesConcat | grep_unique_characters.py:9-17 | Lines are judged independently: filtering a concatenation gives the concatenation of the filtered parts. |
| UniqueFilter.UniqueLinesStep | grep_unique_characters.py:9-17 | Each further line adds itself, normalised, to the output when it has no repeat, and nothing otherwise. |
| UniqueFilter.GrepUniqueCharacters | grep_unique_characters.py:9-17 | The script's loop prints exactly the reference output. |
| UniqueFilter.DistinctExamples | grep_unique_characters.py:12-15 | `12+34=46` has a repeat; `12+35=47` has none. |
| PairFinder.AddChars | unique_char_nerdle_pairs.py:18-20 | After a word is added, each of its characters other than `=` maps to its old set plus the word. Every other key is unchanged, and no other key appears. |
| PairFinder.Categorise | unique_char_nerdle_pairs.py:15-20 | A character is a key exactly when some word contains it as a character other than `=`. Each key maps to exactly the input words that contain it as a character other than `=`. |
| PairFinder.EqualsNeverIndexed | unique_char_nerdle_pairs.py:19-20 | `=` is never a key. |
| PairFinder.PairsForCategorise | unique_char_nerdle_pairs.py:22-31 | Over the index of the input, the partners of a word are exactly the input words that have a character other than `=` and share none with it. |
| PairFinder.FindPairs | unique_char_nerdle_pairs.py:22-33 | There is one block per line, in input order, headed by the stripped line. Two lines with the same word print the same block. |
| PairFinder.FindPairsPartners | unique_char_nerdle_pairs.py:23-31 | Soundness and completeness: a block lists exactly the input words that have a character other than `=` and share none with the block's word. |
| PairFinder.NoSelfPair | unique_char_nerdle_pairs.py:24-30 | No word is its own partner. |
| PairFinder.PartnersSymmetric | unique_char_nerdle_pairs.py:22-33 | If a word with a character other than `=` lists `p`, then `p` heads a block that lists the word. |
| PairFinder.BlankWordPairsOneWay | unique_char_nerdle_pairs.py:18-24 | A line with no character other than `=` lists every word that has one, but is listed by none of them. |

## Left out

- Python's `eval`: its arithmetic, floating-point rounding, and any exception other than `ZeroDivisionError`. The evaluator is a parameter returning a `real`, or nothing on division by zero.
- Validity.IsValidNerdle: accepts only a plain ASCII digit string on the right side. Python's `int` also accepts surrounding whitespace, a sign, underscores between digits and non-ASCII digits, and the model reports all of these as `ResultNotInteger`. The search only ever builds digit strings.
- Validity.IsValidNerdle: the `Bad nerdle` message written to standard error before the exception is re-raised.
- Generator.AllValidNerdles: the output is the whole sequence the generator yields, not a lazy stream. Printing one word per line is not modelled.
- Generator.GenFromEmpty: results are proved for the script's word length of 8 only, not for other values of `nerdle_length`.
- Generator.GenFromEmpty: for either setting of `include_nerdles_with_no_operator`, the output is characterised against the words the rules build. Equality with all well-formed valid words (`AllValidNerdles`) holds only for the script's setting `False`. With `True` it fails, as `NoOperatorWordNotBuilt` shows.
- UniqueFilter.GrepUniqueCharacters: reading standard input and printing are not modelled. The input is a sequence of lines and the output is the sequence of printed lines.
- PairFinder.FindPairs: each block's partners are a set, because their printing order is set iteration order. The rendering `"<word> & <partner>"` and reading standard input are not modelled.
