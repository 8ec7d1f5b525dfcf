/** The per-language lexicon the converter reads, passed in as a value, and the
    lookups `w2n.py` makes in it: word to value, value to word
    (`get_name_by_number_value`), the index of a value's word in a token list
    (`get_index_for_number`) and the redundancy test (`check_double_input`). */
module Lexicons {
  import opened Base

  /** The place-value rule set `number_formation` uses: `CompoundHundred` is the
      branch taken when the language is "ru", `Standard` every other language. */
  datatype Combiner = Standard | CompoundHundred

  /** One language's data:
      - `numbers`: the number words with their values, in file order
        (`number_system` without its `point` entry);
      - `point`: the decimal-point word (`number_system['point']`);
      - `replace`: the `replace:` entries, in file order (`normalize_data`);
      - `digitWords`: the words allowed after the point (`decimal_words`);
      - `combiner`: the rule set of `number_formation`. */
  datatype Lexicon = Lexicon(
    numbers: seq<(string, int)>,
    point: string,
    replace: seq<(string, string)>,
    digitWords: set<string>,
    combiner: Combiner)

  /** `number_system.get(w)`: the value of the entry whose key is `w`. */
  function ValueOf(entries: seq<(string, int)>, w: string): (r: Option<int>)
    ensures r.Some? ==> exists i :: 0 <= i < |entries| && entries[i] == (w, r.value)
    ensures r.None? <==> forall i :: 0 <= i < |entries| ==> entries[i].0 != w
  {
    if entries == [] then None
    else if entries[0].0 == w then Some(entries[0].1)
    else
      ValueOf(entries[1..], w)
  }

  /** `w in number_system`, for a word that is not the point key. */
  predicate IsNumberWord(lex: Lexicon, w: string)
  {
    ValueOf(lex.numbers, w).Some?
  }

  predicate AllNumberWords(lex: Lexicon, ws: seq<string>)
  {
    forall i :: 0 <= i < |ws| ==> IsNumberWord(lex, ws[i])
  }

  /** The value of a word known to be in the lexicon. */
  function Value(lex: Lexicon, w: string): int
    requires IsNumberWord(lex, w)
  {
    ValueOf(lex.numbers, w).value
  }

  /** `get_name_by_number_value(v)`: the first key, in lexicon order, whose
      value is `v`; `None` when there is none. */
  function NameOf(entries: seq<(string, int)>, v: int): (r: Option<string>)
    ensures r.Some? ==> exists i :: 0 <= i < |entries| && entries[i] == (r.value, v) &&
                                    forall j :: 0 <= j < i ==> entries[j].1 != v
    ensures r.None? <==> forall i :: 0 <= i < |entries| ==> entries[i].1 != v
  {
    if entries == [] then None
    else if entries[0].1 == v then Some(entries[0].0)
    else
      NameOf(entries[1..], v)
  }

  /** `normalize_data.get(w, w)`: the replacement of a single word, or the word
      itself when it has no entry. */
  function Replacement(rules: seq<(string, string)>, w: string): (r: string)
    ensures (forall i :: 0 <= i < |rules| ==> rules[i].0 != w) ==> r == w
    ensures r != w ==> exists i :: 0 <= i < |rules| && rules[i] == (w, r)
    ensures forall i | 0 <= i < |rules| && rules[i].0 == w ::
      (forall j | 0 <= j < i :: rules[j].0 != w) ==> r == rules[i].1
  {
    if rules == [] then w
    else if rules[0].0 == w then rules[0].1
    else
      Replacement(rules[1..], w)
  }

  /** No key occurs twice (the entries come from a dictionary). */
  predicate UniqueKeys<V>(entries: seq<(string, V)>)
    decreases |entries|
  {
    entries == [] ||
    ((forall k | 1 <= k < |entries| :: entries[k].0 != entries[0].0) && UniqueKeys(entries[1..]))
  }

  /** What the data file of a language guarantees and the converter relies on:
      keys are unique (they come from dictionaries), a word for 1 exists (the
      implied multiplier of a bare scale word), and the words allowed after the
      point are number words whose values are single digits. */
  predicate Valid(lex: Lexicon)
  {
    && UniqueKeys(lex.numbers)
    && UniqueKeys(lex.replace)
    && NameOf(lex.numbers, 1).Some?
    && (forall w | w in lex.digitWords :: IsNumberWord(lex, w) && 0 <= Value(lex, w) <= 9)
  }

  lemma {:induction false} NameThenValueIn(entries: seq<(string, int)>, v: int)
    requires UniqueKeys(entries) && NameOf(entries, v).Some?
    ensures ValueOf(entries, NameOf(entries, v).value) == Some(v)
    decreases |entries|
  {
    if entries[0].1 != v {
      var w := NameOf(entries[1..], v).value;
      NameThenValueIn(entries[1..], v);
      var i :| 0 <= i < |entries[1..]| && entries[1..][i] == (w, v);
      assert entries[i + 1].0 == w;
    }
  }

  /** Looking up the word found for a value gives that value back. */
  lemma NameThenValue(lex: Lexicon, v: int)
    requires Valid(lex) && NameOf(lex.numbers, v).Some?
    ensures IsNumberWord(lex, NameOf(lex.numbers, v).value)
    ensures Value(lex, NameOf(lex.numbers, v).value) == v
  {
    NameThenValueIn(lex.numbers, v);
  }

  /** Different values never share their word. */
  lemma NamesDiffer(lex: Lexicon, v1: int, v2: int)
    requires Valid(lex) && v1 != v2
    requires NameOf(lex.numbers, v1).Some? && NameOf(lex.numbers, v2).Some?
    ensures NameOf(lex.numbers, v1) != NameOf(lex.numbers, v2)
  {
    NameThenValue(lex, v1);
    NameThenValue(lex, v2);
  }

  /** The word for 1, used in place of an empty multiplier. */
  function ImpliedOne(lex: Lexicon): (w: string)
    requires Valid(lex)
    ensures IsNumberWord(lex, w) && Value(lex, w) == 1
  {
    NameThenValue(lex, 1);
    NameOf(lex.numbers, 1).value
  }

  /** `get_index_for_number(v, clean)`: the first position of the word for `v`
      in `clean`, or -1 when `v` has no word or its word does not occur. */
  function IndexFor(lex: Lexicon, v: int, clean: seq<string>): (i: int)
    ensures -1 <= i < |clean|
    ensures i == -1 <==> NameOf(lex.numbers, v).None? || NameOf(lex.numbers, v).value !in clean
    ensures 0 <= i ==> clean[i] == NameOf(lex.numbers, v).value &&
                       NameOf(lex.numbers, v).value !in clean[..i]
  {
    match NameOf(lex.numbers, v)
    case None => -1
    case Some(w) => IndexOf(clean, w)
  }

  /** `check_double_input(v, clean)` raises exactly when the word for `v`
      exists and stands at two different positions of `clean`; a value with no
      word never raises. */
  predicate IsRedundant(lex: Lexicon, v: int, clean: seq<string>)
    ensures IsRedundant(lex, v, clean) <==>
      NameOf(lex.numbers, v).Some? &&
      exists i, j | 0 <= i < j < |clean| ::
        clean[i] == NameOf(lex.numbers, v).value && clean[j] == NameOf(lex.numbers, v).value
  {
    match NameOf(lex.numbers, v)
    case None => false
    case Some(w) =>
      CountTwice(clean, w);
      Count(clean, w) > 1
  }
}
