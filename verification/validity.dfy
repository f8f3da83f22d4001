/** `is_valid_nerdle`: split a word on its `=`, evaluate the left side after
    removing leading zeros, trim the right side and compare the two values. */
module Validity {
  import opened Text
  import opened LeadingZeros

  /** The value of an arithmetic expression as the host evaluator computes it,
      or `None` when the evaluation divides by zero. The evaluator itself is a
      parameter of the model: its arithmetic is not modelled. */
  type Evaluator = string -> Option<real>

  /** The exceptions `is_valid_nerdle` lets escape. */
  datatype NerdleError =
    | MalformedWord(word: string)     // the word does not split into exactly two sides on `=`
    | EmptyResult(word: string)       // the right side is empty, so `result[0]` fails
    | ResultNotInteger(word: string)  // `int(result)` rejects the right side

  datatype Result<+T> = Ok(value: T) | Err(error: NerdleError)

  /** `expression, result = nerdle.split("=")`, which only unpacks when the word
      holds exactly one `=`. */
  function SplitOnEquals(nerdle: string): (r: Option<(string, string)>)
    ensures r.Some? <==> Count(nerdle, '=') == 1
    ensures r.Some? ==> && nerdle == r.value.0 + "=" + r.value.1
                        && '=' !in r.value.0 && '=' !in r.value.1
  {
    match IndexOf(nerdle, '=')
    case None => None
    case Some(i) =>
      var expression := nerdle[..i];
      var result := nerdle[i + 1..];
      assert nerdle == expression + "=" + result;
      CountConcat(expression + "=", result, '=');
      CountConcat(expression, "=", '=');
      if '=' in result then None else Some((expression, result))
  }

  /** The two sides of a word with one `=` are recovered exactly. */
  lemma SplitOnEqualsInverse(expression: string, result: string)
    requires '=' !in expression && '=' !in result
    ensures SplitOnEquals(expression + "=" + result) == Some((expression, result))
  {
    var nerdle := expression + "=" + result;
    var i := IndexOf(nerdle, '=').value;
    assert nerdle[|expression|] == '=';
    assert forall k :: 0 <= k < |expression| ==> nerdle[k] == expression[k];
    assert i == |expression|;
    assert nerdle[..i] == expression;
    assert nerdle[i + 1..] == result;
  }

  /** `is_valid_nerdle`. A word without exactly one `=` raises before anything
      is evaluated; a division by zero makes the word invalid, not an error. */
  function IsValidNerdle(eval: Evaluator, nerdle: string): (r: Result<bool>)
    ensures r == Err(MalformedWord(nerdle)) <==> Count(nerdle, '=') != 1
    ensures r.Err? ==> r.error.word == nerdle
  {
    match SplitOnEquals(nerdle)
    case None => Err(MalformedWord(nerdle))
    case Some((expression, result)) =>
      match eval(RemoveLeadingZeros(expression))
      case None => Ok(false)
      case Some(value) =>
        if |result| == 0 then Err(EmptyResult(nerdle))
        else
          var trimmed := TrimLeadingZeros(result);
          if AllDigits(trimmed) then Ok(value == ParseNat(trimmed) as real)
          else Err(ResultNotInteger(nerdle))
  }

  /** What `is_valid_nerdle` answers for a word with one `=`: invalid on a
      division by zero, whatever the right side holds; otherwise, for a
      right side of digits, valid exactly when the left side's value is the
      integer the right side denotes, leading zeros and all. */
  lemma IsValidNerdleOnSplitWord(eval: Evaluator, expression: string, result: string)
    requires '=' !in expression && '=' !in result
    ensures eval(RemoveLeadingZeros(expression)).None? ==>
              IsValidNerdle(eval, expression + "=" + result) == Ok(false)
    ensures eval(RemoveLeadingZeros(expression)).Some? && |result| == 0 ==>
              IsValidNerdle(eval, expression + "=" + result) == Err(EmptyResult(expression + "=" + result))
    ensures eval(RemoveLeadingZeros(expression)).Some? && |result| > 0 && AllDigits(result) ==>
              IsValidNerdle(eval, expression + "=" + result)
                == Ok(eval(RemoveLeadingZeros(expression)).value == ParseNat(result) as real)
  {
    SplitOnEqualsInverse(expression, result);
    if AllDigits(result) {
      TrimPreservesValue(result);
    }
  }
}
