/** `word_to_num`: the public entry point. Numbers pass through, a digit string
    is parsed, and any other sentence is normalized, split into tokens,
    filtered down to number words and the point word, validated, and valued as
    an integer part and an optional run of digits after the point. */
module Converter {
  import opened Base
  import opened Text
  import opened Lexicons
  import opened Normalizer
  import opened Formation
  import opened Segmenter

  /** What a caller may pass: the type tests of `word_to_num` tell a string, an
      `int` and a `float` apart (`type(x) is ...`, so a `bool` is none of them)
      and reject everything else. */
  datatype Input = Str(text: string) | Int(n: int) | Float(x: real) | Other

  /** What `word_to_num` returns: an integer, a float handed in unchanged, or
      the decimal literal `whole.fraction` the source hands to `float(...)`. */
  datatype Number = IntVal(n: int) | FloatVal(x: real) | DecVal(whole: int, fraction: string)

  /** A token the filter keeps: a number word or the point word. */
  predicate Kept(lex: Lexicon, w: string)
  {
    IsNumberWord(lex, w) || w == lex.point
  }

  /** The clean list: each token replaced by its single-word entry, and kept
      only when the result is a number word or the point word, in input order. */
  function Filter(lex: Lexicon, words: seq<string>): (clean: seq<string>)
    ensures |clean| <= |words|
    ensures forall i :: 0 <= i < |clean| ==> Kept(lex, clean[i])
    decreases |words|
  {
    if words == [] then []
    else
      var w := Replacement(lex.replace, words[|words| - 1]);
      Filter(lex, words[..|words| - 1]) + (if Kept(lex, w) then [w] else [])
  }

  /** Filtering works token by token: it keeps the order of the tokens. */
  lemma {:induction false} FilterAppend(lex: Lexicon, a: seq<string>, b: seq<string>)
    ensures Filter(lex, a + b) == Filter(lex, a) + Filter(lex, b)
    decreases |b|
  {
    if b == [] {
      assert a + b == a;
    } else {
      var b' := b[..|b| - 1];
      assert (a + b)[..|a + b| - 1] == a + b';
      assert (a + b)[|a + b| - 1] == b[|b| - 1];
      FilterAppend(lex, a, b');
    }
  }

  /** The clean list is empty exactly when no token, after its replacement, is
      a number word or the point word. */
  lemma {:induction false} FilterEmpty(lex: Lexicon, words: seq<string>)
    ensures Filter(lex, words) == [] <==>
      forall i :: 0 <= i < |words| ==> !Kept(lex, Replacement(lex.replace, words[i]))
    decreases |words|
  {
    if words != [] {
      var pre := words[..|words| - 1];
      var v := Replacement(lex.replace, words[|words| - 1]);
      assert Filter(lex, words) == Filter(lex, pre) + (if Kept(lex, v) then [v] else []);
      FilterEmpty(lex, pre);
      assert forall i :: 0 <= i < |pre| ==> pre[i] == words[i];
    }
  }

  /** A token is read as itself when it has no single-word replacement and is
      a number word or the point word. */
  predicate ReadAsItself(lex: Lexicon, w: string)
  {
    Replacement(lex.replace, w) == w && Kept(lex, w)
  }

  /** Tokens that are all read as themselves pass the filter unchanged. */
  lemma {:induction false} FilterKeeps(lex: Lexicon, words: seq<string>)
    requires forall i :: 0 <= i < |words| ==> ReadAsItself(lex, words[i])
    ensures Filter(lex, words) == words
    decreases |words|
  {
    if words != [] {
      FilterKeeps(lex, words[..|words| - 1]);
    }
  }

  /** One token: it is replaced by its single-word entry, if it has one, and
      kept when the result is a number word or the point word. With
      `FilterAppend` this fixes the clean list of any token list. */
  lemma FilterOne(lex: Lexicon, w: string)
    ensures var v := Replacement(lex.replace, w);
      Filter(lex, [w]) == if Kept(lex, v) then [v] else []
  {
  }

  /** The clean list split at its only point word, if any. */
  datatype Parts = Parts(intPart: seq<string>, fraction: seq<string>)

  /** Lines 318-322: with one point word, the words before it are the integer
      part and the words after it the fraction; with none, all words are the
      integer part. */
  function SplitAtPoint(lex: Lexicon, clean: seq<string>): (p: Parts)
    ensures lex.point !in p.intPart
    ensures lex.point !in clean ==> p == Parts(clean, [])
  {
    var i := IndexOf(clean, lex.point);
    if i == -1 then Parts(clean, []) else Parts(clean[..i], clean[i + 1..])
  }

  /** The split loses nothing: the parts and the point word between them, when
      there is one, make up the clean list again. */
  lemma SplitAtPointRejoins(lex: Lexicon, clean: seq<string>)
    ensures var p := SplitAtPoint(lex, clean);
      p.intPart + (if lex.point in clean then [lex.point] else []) + p.fraction == clean
  {
    var i := IndexOf(clean, lex.point);
    if i != -1 {
      assert clean == clean[..i] + [clean[i]] + clean[i + 1..];
    }
  }

  /** With at most one point word, none is left after the split. */
  lemma SplitAtPointOnce(lex: Lexicon, clean: seq<string>)
    requires Count(clean, lex.point) <= 1
    ensures lex.point !in SplitAtPoint(lex, clean).fraction
  {
    var i := IndexOf(clean, lex.point);
    if i != -1 {
      var before, after := clean[..i], clean[i + 1..];
      assert clean == before + ([clean[i]] + after);
      CountAppend(before, [clean[i]] + after, lex.point);
      CountAppend([clean[i]], after, lex.point);
    }
  }

  /** Kept words other than the point word are number words. */
  lemma KeptWithoutPoint(lex: Lexicon, ws: seq<string>)
    requires forall i :: 0 <= i < |ws| ==> Kept(lex, ws[i])
    requires lex.point !in ws
    ensures AllNumberWords(lex, ws)
  {
  }

  /** The integer part of a clean list is number words: every kept word but
      the point word is one. */
  lemma IntPartNumberWords(lex: Lexicon, clean: seq<string>)
    requires forall i :: 0 <= i < |clean| ==> Kept(lex, clean[i])
    ensures AllNumberWords(lex, SplitAtPoint(lex, clean).intPart)
  {
    var i := IndexOf(clean, lex.point);
    if i == -1 {
      KeptWithoutPoint(lex, clean);
    } else {
      KeptWithoutPoint(lex, clean[..i]);
    }
  }

  /** So is the fraction of a clean list with at most one point word. */
  lemma FractionNumberWords(lex: Lexicon, clean: seq<string>)
    requires Count(clean, lex.point) <= 1
    requires forall i :: 0 <= i < |clean| ==> Kept(lex, clean[i])
    ensures AllNumberWords(lex, SplitAtPoint(lex, clean).fraction)
  {
    SplitAtPointOnce(lex, clean);
    var fraction := SplitAtPoint(lex, clean).fraction;
    assert forall k :: 0 <= k < |fraction| ==> Kept(lex, fraction[k]) by {
      var i := IndexOf(clean, lex.point);
      if i != -1 {
        assert fraction == clean[i + 1..];
      }
    }
    KeptWithoutPoint(lex, fraction);
  }

  /** The scale words `check_double_input` is called for, in call order. */
  const Scales: seq<int> := [1_000, 1_000_000, 1_000_000_000, 1_000_000_000_000]

  /** Some `check_double_input` call raises. */
  predicate AnyRedundant(lex: Lexicon, clean: seq<string>)
  {
    exists k :: 0 <= k < |Scales| && IsRedundant(lex, Scales[k], clean)
  }

  /** `str(get_decimal_string(words))`: the lenient 0 becomes the text "0". */
  function FractionText(digits: Option<string>): string
  {
    match digits
    case None => "0"
    case Some(d) => d
  }

  /** `word_to_num` from the clean list on: validate in the source's order (no
      word kept, a redundant scale word, a redundant point word, scale words
      out of order), then value the integer part and the digits after the
      point. */
  function ValueClean(lex: Lexicon, clean: seq<string>): (r: Result<Number, Error>)
    requires Valid(lex) && forall i :: 0 <= i < |clean| ==> Kept(lex, clean[i])
    ensures r == Err(NoValidWords) <==> clean == []
    ensures r.Err? ==> r.error != TypeMismatch
    ensures r.Ok? ==> r.value.IntVal? || r.value.DecVal?
  {
    if clean == [] then Err(NoValidWords)
    else if AnyRedundant(lex, clean) then Err(RedundantNumberWord)
    else if Count(clean, lex.point) > 1 then Err(RedundantPoint)
    else
      var parts := SplitAtPoint(lex, clean);
      IntPartNumberWords(lex, clean);
      FractionNumberWords(lex, clean);
      if OutOfOrder(lex, parts.intPart) then Err(Malformed)
      else
        var whole := Segment(lex, parts.intPart, Tiers);
        if parts.fraction == [] then Ok(IntVal(whole))
        else Ok(DecVal(whole, FractionText(DecimalDigits(lex, parts.fraction))))
  }

  /** `word_to_num` from the token list on: filter, then validate and value. */
  function ConvertWords(lex: Lexicon, words: seq<string>): (r: Result<Number, Error>)
    requires Valid(lex)
    ensures r == Err(NoValidWords) <==>
      forall i :: 0 <= i < |words| ==> !Kept(lex, Replacement(lex.replace, words[i]))
    ensures r.Err? ==> r.error != TypeMismatch
    ensures r.Ok? ==> r.value.IntVal? || r.value.DecVal?
  {
    FilterEmpty(lex, words);
    ValueClean(lex, Filter(lex, words))
  }

  /** `word_to_num(x)`. */
  function Convert(lex: Lexicon, input: Input): (r: Result<Number, Error>)
    requires Valid(lex)
    ensures r == Err(TypeMismatch) <==> input.Other?
    ensures input.Int? ==> r == Ok(IntVal(input.n))
    ensures input.Float? ==> r == Ok(FloatVal(input.x))
    ensures input.Str? && r.Ok? ==> !r.value.FloatVal?
  {
    match input
    case Float(x) => Ok(FloatVal(x))
    case Int(n) => Ok(IntVal(n))
    case Other => Err(TypeMismatch)
    case Str(text) =>
      var s := ApplyPhraseRules(Lower(text), lex.replace);
      if IsDigits(s) then Ok(IntVal(ParseNat(s))) else ConvertWords(lex, Words(s))
  }

  /** The filter loop of `word_to_num` (lines 298-303). */
  method CleanNumbers(lex: Lexicon, splitWords: seq<string>) returns (clean: seq<string>)
    ensures clean == Filter(lex, splitWords)
  {
    clean := [];
    for k := 0 to |splitWords|
      invariant clean == Filter(lex, splitWords[..k])
    {
      assert splitWords[..k + 1][..k] == splitWords[..k];
      var word := Replacement(lex.replace, splitWords[k]);
      if IsNumberWord(lex, word) {
        clean := clean + [word];
      } else if word == lex.point {
        clean := clean + [word];
      }
    }
    assert splitWords[..|splitWords|] == splitWords;
  }

  /** Validation and valuation of the clean list (lines 306-331). */
  method ValueOfClean(lex: Lexicon, clean: seq<string>) returns (r: Result<Number, Error>)
    requires Valid(lex) && forall i :: 0 <= i < |clean| ==> Kept(lex, clean[i])
    ensures r == ValueClean(lex, clean)
  {
    if |clean| == 0 {
      return Err(NoValidWords);
    }
    for k := 0 to |Scales|
      invariant forall m :: 0 <= m < k ==> !IsRedundant(lex, Scales[m], clean)
    {
      if IsRedundant(lex, Scales[k], clean) {
        return Err(RedundantNumberWord);
      }
    }
    var point := lex.point;
    if Count(clean, point) > 1 {
      return Err(RedundantPoint);
    }
    var intWords, decimalWords := clean, [];
    if Count(clean, point) == 1 {
      var index := IndexOf(clean, point);
      decimalWords := clean[index + 1..];
      intWords := clean[..index];
    }
    assert SplitAtPoint(lex, clean) == Parts(intWords, decimalWords);
    IntPartNumberWords(lex, clean);
    FractionNumberWords(lex, clean);
    var totalSum := GetNumberValue(lex, intWords);
    if totalSum.Err? {
      return Err(totalSum.error);
    }
    if |decimalWords| > 0 {
      var digits := GetDecimalString(lex, decimalWords);
      return Ok(DecVal(totalSum.value, FractionText(digits)));
    }
    return Ok(IntVal(totalSum.value));
  }

  /** `word_to_num(x)`, step by step as the source does it. */
  method WordToNum(lex: Lexicon, input: Input) returns (r: Result<Number, Error>)
    requires Valid(lex)
    ensures r == Convert(lex, input)
  {
    match input {
      case Float(x) => return Ok(FloatVal(x));
      case Int(n) => return Ok(IntVal(n));
      case Other => return Err(TypeMismatch);
      case Str(text) =>
        var sentence := Normalize(text, lex.replace);
        if IsDigits(sentence) {
          return Ok(IntVal(ParseNat(sentence)));
        }
        var splitWords := Words(sentence);
        var clean := CleanNumbers(lex, splitWords);
        r := ValueOfClean(lex, clean);
        assert r == ConvertWords(lex, splitWords);
    }
  }

  // ---------------------------------------------------------------------------
  // What `word_to_num` promises

  /** A number written out in digits is read back as itself. */
  lemma DigitStringRoundTrip(lex: Lexicon, n: nat)
    requires Valid(lex)
    ensures Convert(lex, Str(NatToString(n))) == Ok(IntVal(n))
  {
    var s := NatToString(n);
    DigitsArePlain(s);
    LowerIsLower(s);
    FewSpacesUnchanged(s, lex.replace);
    ParseNatToString(n);
  }

  /** Normalization leaves a sentence of one or two lower-case words as it
      is, and any lower-case sentence when there are no phrase rules. */
  lemma NormalizedSentence(lex: Lexicon, ws: seq<string>)
    requires forall i :: 0 <= i < |ws| ==> IsWord(ws[i]) && NoUpper(ws[i])
    requires |ws| <= 2 || PhraseRules(lex.replace) == []
    ensures ApplyPhraseRules(Lower(Join(ws)), lex.replace) == Join(ws)
  {
    var s := Join(ws);
    JoinNoUpper(ws);
    LowerIsLower(s);
    if |ws| <= 2 {
      JoinSpaces(ws);
      FewSpacesUnchanged(s, lex.replace);
    } else {
      NoPhraseRulesUnchanged(s, lex.replace);
    }
  }

  /** A sentence whose first word is not a digit string is not one either. */
  lemma SentenceNotDigits(ws: seq<string>)
    requires ws != [] && !IsDigits(ws[0]) && IsWord(ws[0])
    ensures !IsDigits(Join(ws))
  {
    JoinStartsWithFirst(ws);
    var j :| 0 <= j < |ws[0]| && !IsDigit(ws[0][j]);
    assert Join(ws)[j] == ws[0][j];
  }

  /** A sentence of one or two lower-case words, the first not a digit
      string, is read token by token; so is any such sentence when the
      lexicon has no phrase rules. */
  lemma SentenceOfWords(lex: Lexicon, ws: seq<string>)
    requires Valid(lex)
    requires ws != [] && !IsDigits(ws[0])
    requires forall i :: 0 <= i < |ws| ==> IsWord(ws[i]) && NoUpper(ws[i])
    requires |ws| <= 2 || PhraseRules(lex.replace) == []
    ensures Convert(lex, Str(Join(ws))) == ConvertWords(lex, ws)
  {
    NormalizedSentence(lex, ws);
    SentenceNotDigits(ws);
    WordsOfJoin(ws);
  }

  /** A single token whose replacement (the token itself when it has no
      entry) is a number word is worth that word's value. */
  lemma SingleWord(lex: Lexicon, w: string)
    requires Valid(lex)
    requires IsNumberWord(lex, Replacement(lex.replace, w)) && Replacement(lex.replace, w) != lex.point
    ensures ConvertWords(lex, [w]) == Ok(IntVal(Value(lex, Replacement(lex.replace, w))))
  {
    var v := Replacement(lex.replace, w);
    FilterOne(lex, w);
    assert Filter(lex, [w]) == [v];
    CleanSingleWord(lex, [v]);
  }

  /** The round trip of a number word: the first word for a value, written
      as a sentence of its own, converts back to that value. */
  lemma CanonicalWord(lex: Lexicon, v: int)
    requires Valid(lex) && NameOf(lex.numbers, v).Some?
    requires var w := NameOf(lex.numbers, v).value;
      IsWord(w) && NoUpper(w) && !IsDigits(w) && ReadAsItself(lex, w) && w != lex.point
    ensures Convert(lex, Str(NameOf(lex.numbers, v).value)) == Ok(IntVal(v))
  {
    var w := NameOf(lex.numbers, v).value;
    NameThenValue(lex, v);
    assert Join([w]) == w;
    SentenceOfWords(lex, [w]);
    SingleWord(lex, w);
  }

  /** A clean list of one number word passes every check and is worth that
      word's value. */
  lemma CleanSingleWord(lex: Lexicon, clean: seq<string>)
    requires Valid(lex) && |clean| == 1
    requires IsNumberWord(lex, clean[0]) && clean[0] != lex.point
    ensures forall i :: 0 <= i < |clean| ==> Kept(lex, clean[i])
    ensures ValueClean(lex, clean) == Ok(IntVal(Value(lex, clean[0])))
  {
    assert !AnyRedundant(lex, clean) by {
      assert forall k :: 0 <= k < |Scales| ==> !IsRedundant(lex, Scales[k], clean);
    }
    assert lex.point !in clean;
    assert !OutOfOrder(lex, clean);
    WholeClean(lex, clean);
    assert Segment(lex, clean, Tiers) == Value(lex, clean[0]) by {
      SegmentSingleWord(lex, clean[0], Tiers);
      assert clean == [clean[0]];
    }
  }

  /** A clean list of number words without the point word, whose scale words
      are single and in order, is worth its tier-by-tier value. */
  lemma WholeClean(lex: Lexicon, clean: seq<string>)
    requires Valid(lex) && clean != [] && AllNumberWords(lex, clean) && lex.point !in clean
    requires !AnyRedundant(lex, clean) && !OutOfOrder(lex, clean)
    ensures forall i :: 0 <= i < |clean| ==> Kept(lex, clean[i])
    ensures ValueClean(lex, clean) == Ok(IntVal(Segment(lex, clean, Tiers)))
  {
    assert Count(clean, lex.point) == 0;
  }

  /** Filtering a sentence with a word read as itself at two places. */
  lemma FilterAround(lex: Lexicon, a: seq<string>, w: string, b: seq<string>, c: seq<string>)
    requires ReadAsItself(lex, w)
    ensures Filter(lex, a + [w] + b + [w] + c)
      == Filter(lex, a) + [w] + Filter(lex, b) + [w] + Filter(lex, c)
  {
    FilterKeeps(lex, [w]);
    FilterAppend(lex, a, [w]);
    FilterAppend(lex, a + [w], b);
    FilterAppend(lex, a + [w] + b, [w]);
    FilterAppend(lex, a + [w] + b + [w], c);
  }

  /** The word of a checked scale standing twice anywhere among the tokens is
      rejected as redundant, whatever else the sentence holds, a second point
      word included. */
  lemma ScaleWordTwice(lex: Lexicon, k: nat, a: seq<string>, b: seq<string>, c: seq<string>)
    requires Valid(lex) && k < |Scales| && NameOf(lex.numbers, Scales[k]).Some?
    requires Replacement(lex.replace, NameOf(lex.numbers, Scales[k]).value) == NameOf(lex.numbers, Scales[k]).value
    ensures var w := NameOf(lex.numbers, Scales[k]).value;
      ConvertWords(lex, a + [w] + b + [w] + c) == Err(RedundantNumberWord)
  {
    var w := NameOf(lex.numbers, Scales[k]).value;
    NameThenValue(lex, Scales[k]);
    FilterAround(lex, a, w, b, c);
    var clean := Filter(lex, a + [w] + b + [w] + c);
    var fa, fb := Filter(lex, a), Filter(lex, b);
    assert clean[|fa|] == w && clean[|fa| + 1 + |fb|] == w;
    assert IsRedundant(lex, Scales[k], clean);
  }

  /** A second point word is rejected once no scale word is redundant. */
  lemma PointTwice(lex: Lexicon, a: seq<string>, b: seq<string>, c: seq<string>)
    requires Valid(lex) && Replacement(lex.replace, lex.point) == lex.point
    requires !AnyRedundant(lex, Filter(lex, a + [lex.point] + b + [lex.point] + c))
    ensures ConvertWords(lex, a + [lex.point] + b + [lex.point] + c) == Err(RedundantPoint)
  {
    var p := lex.point;
    FilterAround(lex, a, p, b, c);
    var clean := Filter(lex, a + [p] + b + [p] + c);
    var fa, fb := Filter(lex, a), Filter(lex, b);
    assert clean[|fa|] == p && clean[|fa| + 1 + |fb|] == p;
    CountTwice(clean, p);
    assert Count(clean, p) > 1;
  }

  /** On the clean list: one point word between words that are not the point
      word splits it into the words before and the words after. */
  lemma SplitAtThePoint(lex: Lexicon, intWords: seq<string>, fracWords: seq<string>)
    requires lex.point !in intWords && lex.point !in fracWords
    ensures Count(intWords + [lex.point] + fracWords, lex.point) == 1
    ensures SplitAtPoint(lex, intWords + [lex.point] + fracWords) == Parts(intWords, fracWords)
  {
    OnePoint(intWords, lex.point, fracWords);
    var clean := intWords + [lex.point] + fracWords;
    assert clean[|intWords|] == lex.point && clean[..|intWords|] == intWords;
    assert IndexOf(clean, lex.point) == |intWords|;
    assert clean[|intWords| + 1..] == fracWords;
  }

  lemma OnePoint(a: seq<string>, p: string, b: seq<string>)
    requires p !in a && p !in b
    ensures Count(a + [p] + b, p) == 1
  {
    assert a + [p] + b == a + ([p] + b);
    CountAppend(a, [p] + b, p);
    CountAppend([p], b, p);
  }

  /** The point word splits the sentence: the words before it give the whole
      part and the words after it the digits of the fraction. */
  lemma PointSplit(lex: Lexicon, intWords: seq<string>, fracWords: seq<string>)
    requires Valid(lex) && fracWords != []
    requires forall i :: 0 <= i < |intWords| ==> ReadAsItself(lex, intWords[i])
    requires forall i :: 0 <= i < |fracWords| ==> ReadAsItself(lex, fracWords[i])
    requires Replacement(lex.replace, lex.point) == lex.point
    requires lex.point !in intWords && lex.point !in fracWords
    requires !AnyRedundant(lex, intWords + [lex.point] + fracWords)
    requires !OutOfOrder(lex, intWords)
    ensures AllNumberWords(lex, intWords)
    ensures ConvertWords(lex, intWords + [lex.point] + fracWords)
      == Ok(DecVal(Segment(lex, intWords, Tiers), FractionText(DecimalDigits(lex, fracWords))))
  {
    var clean := intWords + [lex.point] + fracWords;
    assert forall i :: 0 <= i < |clean| ==> ReadAsItself(lex, clean[i]);
    FilterKeeps(lex, clean);
    KeptWithoutPoint(lex, intWords);
    SplitAtThePoint(lex, intWords, fracWords);
  }

  /** The words spelling a run of digits, one number word per digit. */
  function Spell(lex: Lexicon, digits: seq<int>): seq<string>
    requires forall i :: 0 <= i < |digits| ==> NameOf(lex.numbers, digits[i]).Some?
  {
    seq(|digits|, i requires 0 <= i < |digits| => NameOf(lex.numbers, digits[i]).value)
  }

  /** The digit characters of a run of digits, in order. */
  function DigitText(digits: seq<int>): string
    requires forall i :: 0 <= i < |digits| ==> 0 <= digits[i] <= 9
  {
    seq(|digits|, i requires 0 <= i < |digits| => DigitChar(digits[i]))
  }

  /** The digits after the point round-trip: spelling digits with their
      digit words and reading the words back gives the digit characters in
      order. */
  lemma SpelledDigits(lex: Lexicon, digits: seq<int>)
    requires Valid(lex)
    requires forall i :: 0 <= i < |digits| ==>
      0 <= digits[i] <= 9 && NameOf(lex.numbers, digits[i]).Some? &&
      NameOf(lex.numbers, digits[i]).value in lex.digitWords
    ensures DecimalDigits(lex, Spell(lex, digits)) == Some(DigitText(digits))
  {
    var ws := Spell(lex, digits);
    var text := DigitText(digits);
    forall i | 0 <= i < |digits|
      ensures ws[i] in lex.digitWords && Value(lex, ws[i]) == digits[i]
    {
      NameThenValue(lex, digits[i]);
    }
    assert AllDigitWords(lex, ws);
    DecimalDigitsMeaning(lex, ws);
    var d := DecimalDigits(lex, ws);
    assert d.Some? && |d.value| == |text|;
    assert forall i :: 0 <= i < |text| ==> d.value[i] == text[i];
    assert d.value == text;
    assert d == Some(text);
  }

  /** With non-negative values in the lexicon, every integer the sentence is
      read as, and every whole part, is non-negative. */
  lemma NonNegative(lex: Lexicon, words: seq<string>)
    requires Valid(lex)
    requires forall i :: 0 <= i < |lex.numbers| ==> lex.numbers[i].1 >= 0
    ensures var r := ConvertWords(lex, words);
      && (r.Ok? && r.value.IntVal? ==> r.value.n >= 0)
      && (r.Ok? && r.value.DecVal? ==> r.value.whole >= 0)
  {
    var clean := Filter(lex, words);
    if clean != [] && !AnyRedundant(lex, clean) && Count(clean, lex.point) <= 1 {
      IntPartNumberWords(lex, clean);
      SegmentNonNegative(lex, SplitAtPoint(lex, clean).intPart, Tiers);
    }
  }

  /** A sentence without the point word whose scale words are single and in
      order is read as the value of its words. */
  lemma WholeNumber(lex: Lexicon, ws: seq<string>)
    requires Valid(lex) && ws != [] && lex.point !in ws
    requires forall i :: 0 <= i < |ws| ==> ReadAsItself(lex, ws[i])
    requires !AnyRedundant(lex, ws) && !OutOfOrder(lex, ws)
    ensures AllNumberWords(lex, ws)
    ensures ConvertWords(lex, ws) == Ok(IntVal(Segment(lex, ws, Tiers)))
  {
    FilterKeeps(lex, ws);
    KeptWithoutPoint(lex, ws);
    assert Count(ws, lex.point) == 0;
  }

  /** A sentence without a repeated word is never redundant. */
  lemma DistinctNotRedundant(lex: Lexicon, ws: seq<string>)
    requires forall i, j | 0 <= i < j < |ws| :: ws[i] != ws[j]
    ensures !AnyRedundant(lex, ws)
  {
  }

  /** A sentence ending in the point word is read as its integer part: with
      nothing after the point there is no fraction. */
  lemma PointEndsSentence(lex: Lexicon, intWords: seq<string>)
    requires Valid(lex) && Replacement(lex.replace, lex.point) == lex.point
    requires forall i :: 0 <= i < |intWords| ==> ReadAsItself(lex, intWords[i])
    requires lex.point !in intWords
    requires !AnyRedundant(lex, intWords + [lex.point])
    requires !OutOfOrder(lex, intWords)
    ensures AllNumberWords(lex, intWords)
    ensures ConvertWords(lex, intWords + [lex.point]) == Ok(IntVal(Segment(lex, intWords, Tiers)))
  {
    var clean := intWords + [lex.point];
    assert clean == intWords + [lex.point] + [];
    assert forall i :: 0 <= i < |clean| ==> ReadAsItself(lex, clean[i]);
    FilterKeeps(lex, clean);
    KeptWithoutPoint(lex, intWords);
    SplitAtThePoint(lex, intWords, []);
  }

  /** The point word alone is read as 0. */
  lemma PointAlone(lex: Lexicon)
    requires Valid(lex) && Replacement(lex.replace, lex.point) == lex.point
    ensures ConvertWords(lex, [lex.point]) == Ok(IntVal(0))
  {
    var none: seq<string> := [];
    assert none + [lex.point] == [lex.point];
    assert !AnyRedundant(lex, [lex.point]) by {
      forall k | 0 <= k < |Scales|
        ensures !IsRedundant(lex, Scales[k], [lex.point])
      {
      }
    }
    PointEndsSentence(lex, none);
    SegmentEmpty(lex, Tiers);
  }

  /** A sentence without the point word, its scale words single but out of
      order, is rejected as malformed. */
  lemma OutOfOrderMalformed(lex: Lexicon, ws: seq<string>)
    requires Valid(lex) && ws != [] && lex.point !in ws
    requires forall i :: 0 <= i < |ws| ==> ReadAsItself(lex, ws[i])
    requires !AnyRedundant(lex, ws) && OutOfOrder(lex, ws)
    ensures ConvertWords(lex, ws) == Err(Malformed)
  {
    FilterKeeps(lex, ws);
    KeptWithoutPoint(lex, ws);
    assert Count(ws, lex.point) == 0;
  }

  /** Text without word characters, such as a lone hyphen or nothing at all,
      holds no number word. It is never rewritten when it has at most one
      space or when every phrase key holds a word character. */
  lemma NoWordsNoNumber(lex: Lexicon, s: string)
    requires Valid(lex)
    requires forall i :: 0 <= i < |s| ==> !IsWordChar(s[i])
    requires Count(s, ' ') <= 1 || PhraseKeysHaveWords(lex.replace)
    ensures Convert(lex, Str(s)) == Err(NoValidWords)
  {
    var t := ApplyPhraseRules(Lower(s), lex.replace);
    assert t == s by {
      assert NoUpper(s);
      LowerIsLower(s);
      if Count(s, ' ') <= 1 {
        FewSpacesUnchanged(s, lex.replace);
      } else {
        NoWordCharsUnchanged(s, lex.replace);
      }
    }
    assert !IsDigits(t) by {
      if s != [] {
        assert !IsDigit(s[0]);
      }
    }
    assert Words(t) == [] by {
      WordsNone(s);
    }
  }

  /** The empty sentence holds no number word. */
  lemma EmptySentence(lex: Lexicon)
    requires Valid(lex)
    ensures Convert(lex, Str("")) == Err(NoValidWords)
  {
    NoWordsNoNumber(lex, "");
  }

  /** "thousand trillion" passes every check and is worth a thousand
      trillion: the order check never looks at the trillion word. */
  lemma ThousandTrillion(lex: Lexicon, ws: seq<string>)
    requires Valid(lex)
    requires NameOf(lex.numbers, 1_000).Some? && NameOf(lex.numbers, 1_000_000_000_000).Some?
    requires |ws| == 2 && ws[0] == NameOf(lex.numbers, 1_000).value
    requires ws[1] == NameOf(lex.numbers, 1_000_000_000_000).value
    requires ReadAsItself(lex, ws[0]) && ReadAsItself(lex, ws[1])
    requires lex.point != ws[0] && lex.point != ws[1]
    ensures ConvertWords(lex, ws) == Ok(IntVal(1_000_000_000_000_000))
  {
    assert !AnyRedundant(lex, ws) by {
      NamesDiffer(lex, 1_000, 1_000_000_000_000);
      TwoDistinctWords(lex, ws);
    }
    assert !OutOfOrder(lex, ws) by {
      if NameOf(lex.numbers, 1_000_000).Some? {
        NamesDiffer(lex, 1_000_000, 1_000);
        NamesDiffer(lex, 1_000_000, 1_000_000_000_000);
        TwoWords(ws, NameOf(lex.numbers, 1_000_000).value);
      }
      if NameOf(lex.numbers, 1_000_000_000).Some? {
        NamesDiffer(lex, 1_000_000_000, 1_000);
        NamesDiffer(lex, 1_000_000_000, 1_000_000_000_000);
        TwoWords(ws, NameOf(lex.numbers, 1_000_000_000).value);
      }
      OrderNeedsMillionOrBillion(lex, ws);
    }
    assert lex.point !in ws by {
      TwoWords(ws, lex.point);
    }
    TwoWordsReadAsThemselves(lex, ws);
    WholeNumber(lex, ws);
    ThousandTrillionValue(lex, ws);
  }

  /** The members of a two-word list are its two words; stated on its own so
      that the proof of `ThousandTrillion` stays small. */
  lemma TwoWords(ws: seq<string>, x: string)
    requires |ws| == 2
    ensures x in ws <==> x == ws[0] || x == ws[1]
  {
    if x in ws {
      var i :| 0 <= i < |ws| && ws[i] == x;
    }
  }

  /** Two different words are not redundant; stated on its own so that the
      proof of `ThousandTrillion` stays small. */
  lemma TwoDistinctWords(lex: Lexicon, ws: seq<string>)
    requires |ws| == 2 && ws[0] != ws[1]
    ensures !AnyRedundant(lex, ws)
  {
    forall i, j | 0 <= i < j < |ws|
      ensures ws[i] != ws[j]
    {
      assert i == 0 && j == 1;
    }
    DistinctNotRedundant(lex, ws);
  }

  /** Both words of a pair are read as themselves: the pair form of the
      requires of `WholeNumber`, stated on its own so that the proof of
      `ThousandTrillion` stays small. */
  lemma TwoWordsReadAsThemselves(lex: Lexicon, ws: seq<string>)
    requires |ws| == 2 && ReadAsItself(lex, ws[0]) && ReadAsItself(lex, ws[1])
    ensures forall i :: 0 <= i < |ws| ==> ReadAsItself(lex, ws[i])
  {
    forall i | 0 <= i < |ws|
      ensures ReadAsItself(lex, ws[i])
    {
      assert ws[i] == ws[0] || ws[i] == ws[1];
    }
  }
}
