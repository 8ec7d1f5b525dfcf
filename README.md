# word2numberi18n: `word_to_num` in Dafny

This project models the conversion core of `word2numberi18n` (`python/word2numberi18n/w2n.py`). That core turns a sentence such as
"two million twenty three thousand and forty nine point two three" into a number, using the number words of one language.

The language's data file is not read. It becomes a `Lexicon` value passed to every operation, with these fields:

- `numbers`: the number words with their values, in file order;
- `point`: the decimal-point word;
- `replace`: the `replace:` entries, in file order;
- `digitWords`: the words allowed after the point;
- `combiner`: the place-value rule set, `CompoundHundred` for Russian and `Standard` for every other language.

`Lexicons.Valid` states what the data files guarantee and the code relies on:

- keys are unique;
- a word for 1 exists;
- the digit words are number words worth 0 to 9.

The pipeline, module by module:

- `Normalizer`: lower-case the sentence, then apply each `replace:` entry whose key holds more than one space, as a substring rewrite (`normalize`).
- `Text`: ASCII models of `str.lower`, `str.replace`, `re.findall(r'\w+', ...)`, `str.isdigit`, `int(...)` and `str(...)`.
- `Converter`: replace single words through the `replace:` entries, and keep only number words and the point word (the clean list).
- `Lexicons`: word and value lookups (`get_name_by_number_value`, `get_index_for_number`), and the redundancy test of `check_double_input`, which is applied to the thousand, million, billion and trillion words.
- `Segmenter`:
  - reject scale words out of order;
  - then peel the tiers from trillion down to hundred. Each tier's word multiplies the words before it, and the word for 1 stands in when there are none (`get_number_value`).
- `Formation`:
  - combine a run of up to four values by place value (`number_formation`);
  - spell the words after the point as digits (`get_decimal_string`).

The steps of the source that update variables as they go are methods, each proved equal to a specification function. Two of them are written out by hand in the source and become loops here: `SumOfTiers` runs the five straight-line tier blocks of `get_number_value` (lines 223-262) as one loop over the tiers, and `ValueOfClean` runs the four successive `check_double_input` calls (lines 309-312) as one loop over the scales.

- `Normalize`
- `NumberFormation`
- `GetDecimalString`
- `GetNumberValue` and `SumOfTiers`
- `CleanNumbers`
- `ValueOfClean`
- `WordToNum`

The properties are stated as lemmas about those functions.

Errors are values of `Base.Error`:

- `TypeMismatch`: the input is not a string, an int or a float;
- `NoValidWords`: no number word is left after filtering;
- `RedundantNumberWord`: a scale word stands twice;
- `RedundantPoint`: the point word stands twice;
- `Malformed`: scale words are out of order.

The model follows the code where the unit tests of the repository (`python/unit_testing_en.py:96` and `:100`) expect otherwise:

- "thousand trillion" is accepted and is worth 10^15 (`Converter.ThousandTrillion`). The order check never looks at the trillion word (`Segmenter.OrderNeedsMillionOrBillion`).
- "three million point two hundred and five" is read as the whole part 3000000 with the fraction text "0". `get_decimal_string` answers 0 as soon as a word after the point is not a digit word (`Formation.DecimalDigitsMeaning`).

## Model

| member | source | states |
|---|---|---|
| Base.Count | python/word2numberi18n/w2n.py:150 | `list.count`: at most the length, and 0 exactly when the item is absent |
| Base.CountTwice | python/word2numberi18n/w2n.py:150 | a count above 1 means exactly that the item stands at two different positions |
| Base.IndexOf | python/word2numberi18n/w2n.py:181 | `list.index` guarded by `in`: -1 exactly when absent, else a position holding the item with no earlier occurrence |
| Text.Lower | python/word2numberi18n/w2n.py:117 | reference definition of `str.lower` on ASCII: each upper-case letter mapped to its lower-case letter, every other character kept |
| Text.LowerIsLower | python/word2numberi18n/w2n.py:117 | lower-casing leaves no upper-case letter and changes nothing in lower-case text |
| Text.ReplaceAll | python/word2numberi18n/w2n.py:129 | reference definition of `str.replace(k, v)`: a left-to-right scan that substitutes `v` for each non-overlapping occurrence of `k` |
| Text.Matches | python/word2numberi18n/w2n.py:129 | reference definition of `s.count(k)`: the non-overlapping occurrences of `k` that `ReplaceAll` substitutes, counted left to right |
| Text.ReplaceAllLength | python/word2numberi18n/w2n.py:129 | `str.replace` substitutes every matched occurrence: the length changes by `|v| - |k|` per match |
| Text.ReplaceAllSelf | python/word2numberi18n/w2n.py:129 | replacing a key by itself leaves the text unchanged |
| Text.ReplaceAllFewer | python/word2numberi18n/w2n.py:128-129 | a key with more occurrences of some character than the text never matches, so the text is unchanged |
| Text.ReplaceAllNoUpper | python/word2numberi18n/w2n.py:129 | replacing with lower-case text keeps lower-case text lower-case |
| Text.WordLength | python/word2numberi18n/w2n.py:292 | the longest run of `\w` characters at the front of the text |
| Text.Words | python/word2numberi18n/w2n.py:292 | reference definition of `re.findall(r'\w+')`: the maximal runs of word characters, in order; its ensures state only that each token is a non-empty run of word characters, and the lemmas below state the splitting |
| Text.WordsOfWord | python/word2numberi18n/w2n.py:292 | a single word is exactly one token |
| Text.WordsNone | python/word2numberi18n/w2n.py:292 | text without word characters, such as a lone hyphen, yields no token |
| Text.WordsSplit | python/word2numberi18n/w2n.py:292 | any non-word character (a space, a comma, a hyphen) separates the tokens before it from the tokens after it |
| Text.WordsOfJoin | python/word2numberi18n/w2n.py:292 | tokenizing undoes joining words with spaces: the words come back in order |
| Text.JoinSpaces | python/word2numberi18n/w2n.py:128 | a sentence of two words holds exactly one space and a single word none, too few for a phrase key |
| Text.JoinNoUpper | python/word2numberi18n/w2n.py:117 | joining lower-case words gives lower-case text |
| Text.JoinStartsWithFirst | python/word2numberi18n/w2n.py:289 | a joined sentence opens with its first word |
| Text.NatToString | python/word2numberi18n/w2n.py:328 | `str(n)` for a natural number is a non-empty digit string |
| Text.IsDigits | python/word2numberi18n/w2n.py:289 | reference definition of `str.isdigit` on ASCII: non-empty, decimal digits only |
| Text.ParseNat | python/word2numberi18n/w2n.py:290 | reference definition of `int(s)` on a digit string: the decimal value of its digits |
| Text.ParseNatToString | python/word2numberi18n/w2n.py:289-290 | `int(str(n)) == n` |
| Text.DigitsArePlain | python/word2numberi18n/w2n.py:289 | a digit string holds no space and no upper-case letter |
| Lexicons.ValueOf | python/word2numberi18n/w2n.py:57 | `number_system[w]`: a value found is one of `w`'s entries, and none is found exactly when `w` has no entry |
| Lexicons.IsNumberWord | python/word2numberi18n/w2n.py:300 | reference definition of `word in number_system` for a word other than the point key: the word has an entry among the number words |
| Lexicons.NameOf | python/word2numberi18n/w2n.py:157-167 | `get_name_by_number_value`: the first key in lexicon order holding the value, or none exactly when no key holds it |
| Lexicons.Replacement | python/word2numberi18n/w2n.py:299 | `normalize_data.get(w, w)`: the word itself when it has no entry, and the value of its (first) entry when it has one |
| Lexicons.Valid | python/word2numberi18n/w2n.py:10-45 | reference definition of what a loaded data file provides: unique keys, a word for 1, digit words worth 0 to 9 |
| Lexicons.NameThenValue | python/word2numberi18n/w2n.py:157-167 | looking up the word found for a value gives that value back |
| Lexicons.NamesDiffer | python/word2numberi18n/w2n.py:157-167 | different values never share their word |
| Lexicons.ImpliedOne | python/word2numberi18n/w2n.py:226 | the stand-in multiplier is a number word worth 1 |
| Lexicons.IndexFor | python/word2numberi18n/w2n.py:170-181 | `get_index_for_number`: -1 exactly when the value has no word or the word is absent, else the word's first position |
| Lexicons.IsRedundant | python/word2numberi18n/w2n.py:134-154 | `check_double_input` raises exactly when the value's word exists and stands at two positions |
| Normalizer.PhraseRules | python/word2numberi18n/w2n.py:127-128 | only keys with more than one space are applied |
| Normalizer.ApplyPhraseRules | python/word2numberi18n/w2n.py:127-129 | reference definition of the rewrite loop: each entry whose key has more than one space replaces its key everywhere, entries taken in order |
| Normalizer.Normalize | python/word2numberi18n/w2n.py:103-131 | the result is the lower-cased text rewritten by each phrase rule in turn |
| Normalizer.OnlyPhraseRulesApply | python/word2numberi18n/w2n.py:127-129 | entries whose key has at most one space play no part in normalization |
| Normalizer.FewSpacesUnchanged | python/word2numberi18n/w2n.py:127-129 | a sentence with at most one space comes out of the rewrites unchanged |
| Normalizer.PhraseKeysHaveWords | python/word2numberi18n/w2n.py:127-129 | reference definition of a rule list whose phrase keys (more than one space) each hold a word character, as number words joined by spaces do |
| Normalizer.NoWordCharsUnchanged | python/word2numberi18n/w2n.py:127-129 | a sentence without word characters comes out of the rewrites unchanged when every phrase key holds a word character |
| Normalizer.NoPhraseRulesUnchanged | python/word2numberi18n/w2n.py:127-129 | without phrase keys the rewrites change nothing |
| Normalizer.NormalizedIsLower | python/word2numberi18n/w2n.py:117-129 | normalized text stays lower-case when the composed values are |
| Formation.Values | python/word2numberi18n/w2n.py:55-57 | one value per word, in order, each the word's lexicon value |
| Formation.Combine | python/word2numberi18n/w2n.py:58-82 | reference definition of the place-value rules for one to four values under each rule set; five or more values yield the first value (multiplied by 100 under the Russian rules when below 100) |
| Formation.NumberFormation | python/word2numberi18n/w2n.py:48-82 | the loop's result is the place-value combination of the words' values under the language's rule set |
| Formation.CombineNonNegative | python/word2numberi18n/w2n.py:58-82 | non-negative values combine to a non-negative number under both rule sets |
| Formation.CombineSingle | python/word2numberi18n/w2n.py:69-70 | a run of one value is worth that value under both rule sets |
| Formation.CompoundHundredIsImpliedHundred | python/word2numberi18n/w2n.py:58-64 | the Russian rules on four values opening below 100 equal the standard rules with the first value multiplied by 100 |
| Formation.RuleSetsAgree | python/word2numberi18n/w2n.py:58-82 | the two rule sets agree on one value, on a pair without 100 and on four values opening at 100 or more |
| Formation.JoinDecimalDigits | python/word2numberi18n/w2n.py:99 | single-digit values are written side by side, one character each, in order |
| Formation.DecimalDigits | python/word2numberi18n/w2n.py:85-100 | reference definition of `get_decimal_string`: the joined digit values when every word is a digit word, else the lenient 0 (`None`) |
| Formation.JoinDecimal | python/word2numberi18n/w2n.py:99 | reference definition of `''.join(map(str, values))`: the decimal texts of the values, concatenated in order |
| Formation.DecimalDigitsMeaning | python/word2numberi18n/w2n.py:85-100 | the lenient 0 comes exactly when some word is not a digit word, otherwise one digit character per word, in order |
| Formation.GetDecimalString | python/word2numberi18n/w2n.py:85-100 | the loop returns the lenient 0 at the first non-digit word, else the joined digits |
| Segmenter.PrecedesByIndex | python/word2numberi18n/w2n.py:198 | comparing first indices of two different words is the same as the first standing before the second |
| Segmenter.RuleByIndex | python/word2numberi18n/w2n.py:198 | one ordering test on indices, with -1 for an absent word, holds exactly when both words occur and the lower tier's word comes first |
| Segmenter.OutOfOrder | python/word2numberi18n/w2n.py:198 | reference definition of a malformed phrase: the thousand word before the million or billion word, or the million word before the billion word |
| Segmenter.OutOfOrderByIndex | python/word2numberi18n/w2n.py:193-199 | the index test rejects exactly the phrases whose thousand, million and billion words are out of order |
| Segmenter.OrderNeedsMillionOrBillion | python/word2numberi18n/w2n.py:198 | without the million and billion words no phrase is out of order, wherever the thousand and trillion words stand |
| Segmenter.MultiplierWords | python/word2numberi18n/w2n.py:225-226 | the multiplier of a tier is never empty and consists of number words |
| Segmenter.Segment | python/word2numberi18n/w2n.py:223-269 | reference definition of the tier-by-tier value: each tier word present multiplies the words before it (or the word for 1) by the tier, the search goes on after it, and the rest is combined as one run |
| Segmenter.GetNumberValue | python/word2numberi18n/w2n.py:184-269 | `Malformed` exactly for phrases out of order, else the tier-by-tier value |
| Segmenter.SumOfTiers | python/word2numberi18n/w2n.py:223-269 | the five tier blocks and the remainder sum to the tier-by-tier value |
| Segmenter.SegmentStep | python/word2numberi18n/w2n.py:223-262 | the unfolding of `Segment` for one tier block, stated for use by `SumOfTiers`: an absent tier word changes nothing, a present one adds its multiplier times the tier and continues after it |
| Segmenter.SegmentEmpty | python/word2numberi18n/w2n.py:263-269 | no words are worth 0 |
| Segmenter.SegmentSingleWord | python/word2numberi18n/w2n.py:223-269 | a single number word is worth its value, a bare scale word through the implied 1 |
| Segmenter.PeelTier | python/word2numberi18n/w2n.py:223-262 | a tier word after words that do not hold it contributes the tier times their combined value, and the rest is valued on its own |
| Segmenter.PeelLastTier | python/word2numberi18n/w2n.py:223-262 | a tier word that ends the phrase contributes its multiplier times the tier and nothing more |
| Segmenter.ThousandTrillionValue | python/word2numberi18n/w2n.py:223-269 | the thousand word followed by the trillion word is worth 10^15 |
| Segmenter.SegmentWithoutTiers | python/word2numberi18n/w2n.py:263-265 | a phrase with no tier word is combined as one run |
| Segmenter.ValuesNonNegative | python/word2numberi18n/w2n.py:55-57 | with non-negative lexicon values every looked-up value is non-negative |
| Segmenter.RunNonNegative | python/word2numberi18n/w2n.py:48-82 | a run of non-negative values combines to a non-negative number |
| Segmenter.SegmentNonNegative | python/word2numberi18n/w2n.py:223-269 | with non-negative values and tiers the integer part is non-negative |
| Converter.Kept | python/word2numberi18n/w2n.py:300-303 | reference definition of a kept token: a number word or the point word |
| Converter.Filter | python/word2numberi18n/w2n.py:298-303 | the clean list is no longer than the tokens and holds only number words and the point word |
| Converter.FilterAppend | python/word2numberi18n/w2n.py:298-303 | the filter works token by token and keeps their order |
| Converter.FilterEmpty | python/word2numberi18n/w2n.py:298-307 | the clean list is empty exactly when no replaced token is a number word or the point word |
| Converter.FilterKeeps | python/word2numberi18n/w2n.py:298-303 | tokens that are read as themselves pass through unchanged |
| Converter.FilterOne | python/word2numberi18n/w2n.py:298-303 | one token is replaced by its entry, if any, and kept exactly when the result is a number word or the point word; with `FilterAppend` this fixes every clean list |
| Converter.SplitAtPoint | python/word2numberi18n/w2n.py:318-322 | the integer part never holds the point word; without a point word everything is the integer part |
| Converter.FractionText | python/word2numberi18n/w2n.py:328 | reference definition of `str(get_decimal_string(...))`: the digit text itself, or "0" for the lenient 0 |
| Converter.SplitAtPointRejoins | python/word2numberi18n/w2n.py:318-322 | the parts, with the point word between them when there is one, give back the clean list |
| Converter.SplitAtPointOnce | python/word2numberi18n/w2n.py:314-322 | with at most one point word, none is left in the fraction |
| Converter.KeptWithoutPoint | python/word2numberi18n/w2n.py:300-303 | kept words other than the point word are number words |
| Converter.IntPartNumberWords | python/word2numberi18n/w2n.py:322-324 | the integer part consists of number words |
| Converter.FractionNumberWords | python/word2numberi18n/w2n.py:315-321 | the fraction of a clean list with at most one point word consists of number words |
| Converter.AnyRedundant | python/word2numberi18n/w2n.py:309-312 | reference definition of the four redundancy checks: some thousand, million, billion or trillion word stands twice |
| Converter.ValueClean | python/word2numberi18n/w2n.py:306-331 | `NoValidWords` exactly for an empty clean list; never a type error; an integer or a decimal literal otherwise |
| Converter.ConvertWords | python/word2numberi18n/w2n.py:294-331 | `NoValidWords` exactly when no token survives the filter; never a type error; never a float passed through |
| Converter.Convert | python/word2numberi18n/w2n.py:272-331 | `TypeMismatch` exactly for an input that is not a string, an int or a float; ints and floats come back unchanged; a string never yields a passed-through float |
| Converter.CleanNumbers | python/word2numberi18n/w2n.py:294-303 | the loop builds the clean list |
| Converter.ValueOfClean | python/word2numberi18n/w2n.py:306-331 | the checks in the source's order and the valuation give the specified result |
| Converter.WordToNum | python/word2numberi18n/w2n.py:272-331 | the step-by-step conversion equals the specified conversion for every input |
| Converter.DigitStringRoundTrip | python/word2numberi18n/w2n.py:287-290 | a natural number written in digits is read back as itself |
| Converter.NormalizedSentence | python/word2numberi18n/w2n.py:287 | normalization leaves a lower-case sentence of one or two words unchanged, and any such sentence without phrase rules |
| Converter.SentenceNotDigits | python/word2numberi18n/w2n.py:289 | a sentence whose first word is not a digit string is not one either |
| Converter.SentenceOfWords | python/word2numberi18n/w2n.py:287-303 | such a sentence is converted exactly as its list of words |
| Converter.SingleWord | python/word2numberi18n/w2n.py:272-331 | a single token whose replacement (itself when it has no entry) is a number word converts to that word's value |
| Converter.CanonicalWord | python/word2numberi18n/w2n.py:272-331 | the first word for a value, written as a sentence of its own, converts back to that value |
| Converter.CleanSingleWord | python/word2numberi18n/w2n.py:306-331 | a clean list of one number word passes the redundancy, point and order checks and is worth that word's value |
| Converter.FilterAround | python/word2numberi18n/w2n.py:298-303 | a word read as itself at two places stays at two places of the clean list |
| Converter.ScaleWordTwice | python/word2numberi18n/w2n.py:309-312 | a thousand, million, billion or trillion word at two places is rejected as redundant, whatever else the sentence holds |
| Converter.PointTwice | python/word2numberi18n/w2n.py:315-316 | a second point word is rejected once no scale word is redundant |
| Converter.SplitAtThePoint | python/word2numberi18n/w2n.py:318-322 | a single point word splits the clean list into the words before and after it |
| Converter.OnePoint | python/word2numberi18n/w2n.py:319 | a word placed once between lists without it is counted once |
| Converter.PointSplit | python/word2numberi18n/w2n.py:318-331 | the words before the point give the whole part and the words after it the digits of the fraction |
| Converter.Spell | python/word2numberi18n/w2n.py:94-98 | reference definition of the digit words for a run of digits, the first word for each digit's value; the input of the `SpelledDigits` round trip |
| Converter.DigitText | python/word2numberi18n/w2n.py:99 | reference definition of the expected digit text, one character per digit, in order |
| Converter.SpelledDigits | python/word2numberi18n/w2n.py:85-100 | spelling digits with their digit words and reading them back gives the digit characters in order |
| Converter.NonNegative | python/word2numberi18n/w2n.py:272-331 | with non-negative lexicon values every integer result and whole part is non-negative |
| Converter.WholeNumber | python/word2numberi18n/w2n.py:306-324 | a sentence without the point word, with single scale words in order, is worth its tier-by-tier value |
| Converter.WholeClean | python/word2numberi18n/w2n.py:306-324 | a clean list of number words without the point word, with single scale words in order, passes every check and is worth its tier-by-tier value |
| Converter.DistinctNotRedundant | python/word2numberi18n/w2n.py:309-312 | a sentence without a repeated word never triggers the redundancy check |
| Converter.PointEndsSentence | python/word2numberi18n/w2n.py:318-331 | a sentence ending in the point word, with nothing after it, is read as its integer part |
| Converter.PointAlone | python/word2numberi18n/w2n.py:306-331 | the point word alone is read as 0 |
| Converter.OutOfOrderMalformed | python/word2numberi18n/w2n.py:193-199 | a sentence without the point word whose single scale words are out of order is rejected as malformed |
| Converter.NoWordsNoNumber | python/word2numberi18n/w2n.py:287-307 | text without word characters, the empty sentence and a lone hyphen included, gives `NoValidWords`, whenever it has at most one space or every phrase key holds a word character |
| Converter.EmptySentence | python/word2numberi18n/w2n.py:287-307 | the empty sentence gives `NoValidWords` under every valid lexicon |
| Converter.ThousandTrillion | python/word2numberi18n/w2n.py:193-269 | "thousand trillion" passes every check and is worth 10^15 |
| Converter.TwoDistinctWords | python/word2numberi18n/w2n.py:309-312 | two different words never trigger the redundancy check |

## Left out

- Loading the language (lines 10-45): the locale, the environment variable, the data file and its parsing are replaced by the `Lexicon` parameter.
- The choice of digit words as the first ten keys of the data file (line 45) is taken as given, as the set `digitWords`, with `Valid` requiring them to be number words worth 0 to 9.
- The literal key `point` is kept apart from the number words; the source stores it in `number_system`, where a sentence containing the word "point" would meet it as a number word with a string value.
- `Valid` rules out data files without a word for 1 or with digit words outside 0 to 9; the source would raise `KeyError` or build odd digit text for them.
- `float(...)` at line 329 is not modelled: the result is `DecVal(whole, fraction)`, the decimal literal the source hands to `float`, so the rounding of binary floating point is not captured.
- `str.lower`, `\w` and `str.isdigit` are modelled on ASCII; Unicode letters, digits and case mappings outside ASCII are not.
- `Converter.NoWordsNoNumber`: for text with two or more spaces, stated only for lexicons whose phrase keys each hold a word character; a phrase key made of spaces and punctuation alone could rewrite such text, and that case is not followed.
- `Converter.SentenceOfWords`: stated only for sentences of one or two words, or for lexicons without phrase rules; longer sentences may be rewritten by a phrase key, and that case is left to `Normalizer.Normalize`.
- Python's `bool` (a subclass of `int`) and `None` are not told apart from other non-string inputs: both are `Other`, as the exact type tests at lines 279-285 treat them.
- The Python error messages are replaced by the `Error` values; the text of the messages is not modelled.
