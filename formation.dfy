/** `number_formation`, which folds a short run of number words into one
    integer by place value, and `get_decimal_string`, which spells the words
    after the point as a string of digits. */
module Formation {
  import opened Base
  import opened Text
  import opened Lexicons

  /** The values of a run of number words, in order. */
  function Values(lex: Lexicon, words: seq<string>): (vs: seq<int>)
    requires AllNumberWords(lex, words)
    ensures |vs| == |words|
    ensures forall i :: 0 <= i < |words| ==> vs[i] == Value(lex, words[i])
    decreases |words|
  {
    if words == [] then [] else Values(lex, words[..|words| - 1]) + [Value(lex, words[|words| - 1])]
  }

  /** The place-value rules of `number_formation` on the values of a run. */
  function Combine(c: Combiner, v: seq<int>): int
    requires |v| > 0
  {
    match c
    case Standard =>
      if |v| == 4 then v[0] * v[1] + v[2] + v[3]
      else if |v| == 3 then v[0] * v[1] + v[2]
      else if |v| == 2 then (if v[0] == 100 || v[1] == 100 then v[0] * v[1] else v[0] + v[1])
      else v[0]
    case CompoundHundred =>
      // a long run that opens below 100 opens with an implied hundred
      var head := if |v| > 3 && v[0] < 100 then v[0] * 100 else v[0];
      if |v| == 4 then head * v[1] + v[2] + v[3]
      else if |v| == 3 then head + v[1] + v[2]
      else if |v| == 2 then head + v[1]
      else head
  }

  /** `number_formation(words)`: looks each word up, then combines the values
      with the lexicon's rule set. */
  method NumberFormation(lex: Lexicon, words: seq<string>) returns (r: int)
    requires |words| > 0 && AllNumberWords(lex, words)
    ensures r == Combine(lex.combiner, Values(lex, words))
  {
    var numbers: seq<int> := [];
    for i := 0 to |words|
      invariant numbers == Values(lex, words[..i])
    {
      assert words[..i + 1][..i] == words[..i];
      numbers := numbers + [Value(lex, words[i])];
    }
    assert words[..|words|] == words;
    if lex.combiner == CompoundHundred {
      if |numbers| > 3 {
        if numbers[0] < 100 {
          numbers := numbers[0 := numbers[0] * 100];
        }
      }
      if |numbers| == 4 {
        return (numbers[0] * numbers[1]) + numbers[2] + numbers[3];
      } else if |numbers| == 3 {
        return numbers[0] + numbers[1] + numbers[2];
      } else if |numbers| == 2 {
        return numbers[0] + numbers[1];
      } else {
        return numbers[0];
      }
    } else {
      if |numbers| == 4 {
        return (numbers[0] * numbers[1]) + numbers[2] + numbers[3];
      } else if |numbers| == 3 {
        return numbers[0] * numbers[1] + numbers[2];
      } else if |numbers| == 2 {
        if 100 in numbers {
          return numbers[0] * numbers[1];
        } else {
          return numbers[0] + numbers[1];
        }
      } else {
        return numbers[0];
      }
    }
  }

  /** Non-negative values combine to a non-negative number under both rule
      sets. */
  lemma CombineNonNegative(c: Combiner, v: seq<int>)
    requires |v| > 0 && forall i :: 0 <= i < |v| ==> v[i] >= 0
    ensures Combine(c, v) >= 0
  {
  }

  /** A run of one word is worth that word's value under both rule sets. */
  lemma CombineSingle(c: Combiner, x: int)
    ensures Combine(c, [x]) == x
  {
  }

  /** The "ru" rules recover an implied hundred: a four-word run opening below
      100 combines as the standard rules combine the same run with its first
      value multiplied by 100. */
  lemma CompoundHundredIsImpliedHundred(v: seq<int>)
    requires |v| == 4 && v[0] < 100
    ensures Combine(CompoundHundred, v) == Combine(Standard, [v[0] * 100] + v[1..])
  {
  }

  /** The two rule sets agree on a single value, on a pair without 100 and on a
      four-value run that opens at 100 or above; they differ only through the
      implied hundred, the product rule for pairs with 100 and the product
      rule for triples. */
  lemma RuleSetsAgree(v: seq<int>)
    requires |v| > 0
    requires |v| == 1 || (|v| == 2 && v[0] != 100 && v[1] != 100) || (|v| == 4 && v[0] >= 100)
    ensures Combine(CompoundHundred, v) == Combine(Standard, v)
  {
  }

  // ---------------------------------------------------------------------------
  // get_decimal_string

  /** `''.join(map(str, values))`. */
  function JoinDecimal(values: seq<int>): string
    requires forall i :: 0 <= i < |values| ==> values[i] >= 0
    decreases |values|
  {
    if values == [] then "" else JoinDecimal(values[..|values| - 1]) + NatToString(values[|values| - 1])
  }

  predicate AllDigitWords(lex: Lexicon, words: seq<string>)
  {
    forall i :: 0 <= i < |words| ==> words[i] in lex.digitWords
  }

  /** The text `get_decimal_string(words)` contributes after the point:
      `None` stands for the 0 it returns as soon as a word is not a digit word. */
  function DecimalDigits(lex: Lexicon, words: seq<string>): Option<string>
    requires Valid(lex)
  {
    if AllDigitWords(lex, words) then Some(JoinDecimal(Values(lex, words))) else None
  }

  /** The digit values of a run are written side by side, one character each:
      concatenated as text, not added. */
  lemma {:induction false} JoinDecimalDigits(values: seq<int>)
    requires forall i :: 0 <= i < |values| ==> 0 <= values[i] <= 9
    ensures |JoinDecimal(values)| == |values|
    ensures forall i :: 0 <= i < |values| ==> JoinDecimal(values)[i] == DigitChar(values[i])
    decreases |values|
  {
    if values != [] {
      JoinDecimalDigits(values[..|values| - 1]);
    }
  }

  /** What `get_decimal_string` yields: the lenient 0 exactly when some word
      after the point is not a digit word, otherwise one digit character per
      word, in order. */
  lemma DecimalDigitsMeaning(lex: Lexicon, words: seq<string>)
    requires Valid(lex)
    ensures DecimalDigits(lex, words).None? <==> exists i :: 0 <= i < |words| && words[i] !in lex.digitWords
    ensures DecimalDigits(lex, words).Some? ==>
      var text := DecimalDigits(lex, words).value;
      && |text| == |words|
      && forall i :: 0 <= i < |words| ==> text[i] == DigitChar(Value(lex, words[i]))
  {
    if AllDigitWords(lex, words) {
      JoinDecimalDigits(Values(lex, words));
    }
  }

  /** `get_decimal_string(words)`: collects the digit values, stopping with the
      lenient 0 at the first word that is not a digit word, and joins them. */
  method GetDecimalString(lex: Lexicon, words: seq<string>) returns (r: Option<string>)
    requires Valid(lex)
    ensures r == DecimalDigits(lex, words)
  {
    var digits: seq<int> := [];
    for i := 0 to |words|
      invariant AllDigitWords(lex, words[..i])
      invariant digits == Values(lex, words[..i])
    {
      if words[i] !in lex.digitWords {
        return None;
      }
      assert words[..i + 1][..i] == words[..i];
      digits := digits + [Value(lex, words[i])];
    }
    assert words[..|words|] == words;
    return Some(JoinDecimal(digits));
  }
}
