/** `unique_char_nerdle_pairs.py`: index the words by the characters they
    contain, then, for every word, select the words that share none of its
    characters. The `=` of a word is ignored throughout. */
module PairFinder {
  import opened Text

  /** `nerdles_sets_by_char`: for each character, the words containing it. */
  type Index = map<char, set<string>>

  /** `set(nerdle.replace("=", ""))`: the characters of a word that take part
      in pairing. */
  function Chars(nerdle: string): set<char> {
    set c | c in nerdle && c != '='
  }

  /** Reading `nerdles_sets_by_char[c]` on the `defaultdict`: a missing key
      reads as the empty set. */
  function Lookup(index: Index, c: char): set<string> {
    if c in index then index[c] else {}
  }

  /** The words of `words` that contain `c` as a pairing character. */
  function WordsWith(words: seq<string>, c: char): set<string> {
    set w | w in words && c in Chars(w)
  }

  /** Filing one word in the index: each of its characters other than `=`
      gains the word, in the order the characters occur. */
  function AddChars(index: Index, nerdle: string, cs: string): (r: Index)
    ensures forall c :: c in r <==> c in index || (c in cs && c != '=')
    ensures forall c :: c in r ==>
              r[c] == if c in cs && c != '=' then Lookup(index, c) + {nerdle} else index[c]
    decreases |cs|
  {
    if |cs| == 0 then index
    else
      var c := cs[0];
      var next := if c != '=' then index[c := Lookup(index, c) + {nerdle}] else index;
      AddChars(next, nerdle, cs[1..])
  }

  /** The words in `words`, with the last one split off. */
  lemma WordsWithLast(words: seq<string>, c: char)
    requires |words| > 0
    ensures WordsWith(words, c)
              == WordsWith(words[..|words| - 1], c)
                 + (if c in Chars(words[|words| - 1]) then {words[|words| - 1]} else {})
  {
    assert words == words[..|words| - 1] + [words[|words| - 1]];
  }

  /** The index built by filing the words in input order. Every
      character is a key exactly when some word contains it, `=` is never a
      key, and each key maps to exactly the words that contain it. */
  function Categorise(words: seq<string>): (index: Index)
    ensures forall c :: c in index <==> WordsWith(words, c) != {}
    ensures forall c :: Lookup(index, c) == WordsWith(words, c)
    decreases |words|
  {
    if |words| == 0 then map[]
    else
      var front := words[..|words| - 1];
      var last := words[|words| - 1];
      var index := AddChars(Categorise(front), last, last);
      assert forall c :: Lookup(index, c) == WordsWith(words, c) by {
        forall c
          ensures Lookup(index, c) == WordsWith(words, c)
        {
          WordsWithLast(words, c);
        }
      }
      index
  }

  /** `=` is never a key of the index. */
  lemma EqualsNeverIndexed(words: seq<string>)
    ensures '=' !in Categorise(words)
  {
    assert WordsWith(words, '=') == {};
  }

  /** The union of the `non_pair_sets`: every indexed word that shares a
      character with `chars`. */
  function NonPairs(index: Index, chars: set<char>): (r: set<string>)
    ensures forall p :: p in r <==> exists c :: c in chars && p in Lookup(index, c)
  {
    set c, p | c in index && c in chars && p in index[c] :: p
  }

  /** The partners selected for one word: the words filed under a character
      the word lacks that do not appear under any character it has. */
  function PairsFor(index: Index, nerdle: string): (pairs: set<string>)
    ensures forall p :: p in pairs <==>
              && (exists c :: c !in Chars(nerdle) && p in Lookup(index, c))
              && (forall c :: c in Chars(nerdle) ==> p !in Lookup(index, c))
  {
    var chars := Chars(nerdle);
    var nonPairs := NonPairs(index, chars);
    var pairs := set c, p | c in index && c !in chars && p in index[c] && p !in nonPairs :: p;
    forall p | (exists c :: c !in chars && p in Lookup(index, c)) && p !in nonPairs
      ensures p in pairs
    {
      var c :| c !in chars && p in Lookup(index, c);
      assert c in index && p in index[c];
    }
    pairs
  }

  /** Over the index of `words`, the partners of a word are exactly the
      words of the input that have a pairing character and share none with
      it. */
  lemma PairsForCategorise(words: seq<string>, nerdle: string, p: string)
    ensures p in PairsFor(Categorise(words), nerdle) <==>
              p in words && Chars(p) != {} && Chars(p) !! Chars(nerdle)
  {
    var index := Categorise(words);
    if p in words && Chars(p) != {} && Chars(p) !! Chars(nerdle) {
      var c :| c in Chars(p);
      assert p in WordsWith(words, c);
      forall d | d in Chars(nerdle)
        ensures p !in Lookup(index, d)
      {
        assert p !in WordsWith(words, d);
      }
    }
    if p in PairsFor(index, nerdle) {
      var c :| c !in Chars(nerdle) && p in Lookup(index, c);
      assert p in WordsWith(words, c);
      forall d | d in Chars(p)
        ensures d !in Chars(nerdle)
      {
        assert p in WordsWith(words, d);
      }
    }
  }

  /** One block of output: a word and the partners printed after it as
      `"<word> & <partner>"`, one line per partner. */
  datatype Block = Block(nerdle: string, partners: set<string>)

  /** The stripped input lines, as `all_nerdles` holds them. */
  function Words(lines: seq<string>): (words: seq<string>)
    ensures |words| == |lines|
    ensures forall i :: 0 <= i < |lines| ==> words[i] == Strip(lines[i])
  {
    seq(|lines|, i requires 0 <= i < |lines| => Strip(lines[i]))
  }

  /** The whole script: one block per input line, in input order; two lines
      that strip to the same word print the same block. */
  function FindPairs(lines: seq<string>): (blocks: seq<Block>)
    ensures |blocks| == |lines|
    ensures forall i :: 0 <= i < |lines| ==> blocks[i].nerdle == Strip(lines[i])
    ensures forall i, j :: 0 <= i < |lines| && 0 <= j < |lines| && Strip(lines[i]) == Strip(lines[j])
              ==> blocks[i] == blocks[j]
  {
    var words := Words(lines);
    var index := Categorise(words);
    seq(|words|, i requires 0 <= i < |words| => Block(words[i], PairsFor(index, words[i])))
  }

  /** Soundness and completeness: a block lists exactly the input words that
      have a pairing character and share none with the block's word. */
  lemma FindPairsPartners(lines: seq<string>, i: nat, p: string)
    requires i < |lines|
    ensures p in FindPairs(lines)[i].partners <==>
              p in Words(lines) && Chars(p) != {} && Chars(p) !! Chars(Strip(lines[i]))
  {
    PairsForCategorise(Words(lines), Strip(lines[i]), p);
  }

  /** No word is its own partner: one with a pairing character shares it with
      itself, and one without is nobody's partner. */
  lemma NoSelfPair(lines: seq<string>, i: nat)
    requires i < |lines|
    ensures Strip(lines[i]) !in FindPairs(lines)[i].partners
  {
    var w := Strip(lines[i]);
    FindPairsPartners(lines, i, w);
    if Chars(w) != {} {
      var c :| c in Chars(w);
      assert c in Chars(w) * Chars(w);
    }
  }

  /** Symmetry: when the block of line `i` lists `p` and line `i`'s word has
      a pairing character, `p` is the word of some line whose block lists
      line `i`'s word. */
  lemma PartnersSymmetric(lines: seq<string>, i: nat, p: string) returns (j: nat)
    requires i < |lines|
    requires Chars(Strip(lines[i])) != {}
    requires p in FindPairs(lines)[i].partners
    ensures j < |lines| && Strip(lines[j]) == p
    ensures Strip(lines[i]) in FindPairs(lines)[j].partners
  {
    FindPairsPartners(lines, i, p);
    var words := Words(lines);
    j :| 0 <= j < |words| && words[j] == p;
    FindPairsPartners(lines, j, Strip(lines[i]));
    assert Strip(lines[i]) == words[i];
  }

  /** A line with no pairing character, such as a blank line, lists every
      word that has one, but no block lists it: the symmetry above needs its
      precondition. */
  lemma BlankWordPairsOneWay(lines: seq<string>, i: nat, j: nat)
    requires i < |lines| && j < |lines|
    requires Chars(Strip(lines[i])) == {} && Chars(Strip(lines[j])) != {}
    ensures Strip(lines[j]) in FindPairs(lines)[i].partners
    ensures Strip(lines[i]) !in FindPairs(lines)[j].partners
  {
    assert Words(lines)[j] == Strip(lines[j]);
    FindPairsPartners(lines, i, Strip(lines[j]));
    FindPairsPartners(lines, j, Strip(lines[i]));
  }
}
