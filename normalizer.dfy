/** `normalize`: lower-cases the sentence and rewrites the multi-word phrases of
    the lexicon's `replace:` entries into their composed form. Single-word
    entries are not applied here; the converter applies them word by word. */
module Normalizer {
  import opened Base
  import opened Text

  /** A `replace:` key `normalize` applies: one with more than one space. */
  predicate IsPhraseKey(k: string)
  {
    Count(k, ' ') > 1
  }

  /** One rule applied to the sentence. */
  function ApplyRule(s: string, rule: (string, string)): string
  {
    if IsPhraseKey(rule.0) then ReplaceAll(s, rule.0, rule.1) else s
  }

  /** The rules applied one after the other, in lexicon order. */
  function ApplyPhraseRules(s: string, rules: seq<(string, string)>): string
    decreases |rules|
  {
    if rules == [] then s else ApplyPhraseRules(ApplyRule(s, rules[0]), rules[1..])
  }

  /** The rules `normalize` applies, in their order. */
  function PhraseRules(rules: seq<(string, string)>): (r: seq<(string, string)>)
    ensures forall i :: 0 <= i < |r| ==> IsPhraseKey(r[i].0)
  {
    if rules == [] then []
    else if IsPhraseKey(rules[0].0) then [rules[0]] + PhraseRules(rules[1..])
    else PhraseRules(rules[1..])
  }

  /** `normalize(text)` for a string: lower-case it, then rewrite every
      occurrence of each phrase key into its composed value, rule by rule. */
  method Normalize(text: string, rules: seq<(string, string)>) returns (s: string)
    ensures s == ApplyPhraseRules(Lower(text), rules)
  {
    s := Lower(text);
    for i := 0 to |rules|
      invariant ApplyPhraseRules(s, rules[i..]) == ApplyPhraseRules(Lower(text), rules)
    {
      assert rules[i..][1..] == rules[i + 1..];
      var (key, composed) := rules[i];
      if Count(key, ' ') > 1 {
        s := ReplaceAll(s, key, composed);
      }
    }
  }

  /** Single-word entries play no part in normalization: applying all rules is
      the same as applying the phrase rules alone. */
  lemma {:induction false} OnlyPhraseRulesApply(s: string, rules: seq<(string, string)>)
    ensures ApplyPhraseRules(s, rules) == ApplyPhraseRules(s, PhraseRules(rules))
    decreases |rules|
  {
    if rules != [] {
      OnlyPhraseRulesApply(ApplyRule(s, rules[0]), rules[1..]);
      if IsPhraseKey(rules[0].0) {
        assert ([rules[0]] + PhraseRules(rules[1..]))[1..] == PhraseRules(rules[1..]);
      }
    }
  }

  /** A sentence with at most one space is left as it is: every key applied
      holds at least two. */
  lemma {:induction false} FewSpacesUnchanged(s: string, rules: seq<(string, string)>)
    requires Count(s, ' ') <= 1
    ensures ApplyPhraseRules(s, rules) == s
    decreases |rules|
  {
    if rules != [] {
      var k := rules[0].0;
      if IsPhraseKey(k) {
        ReplaceAllFewer(s, k, rules[0].1, ' ');
      }
      FewSpacesUnchanged(s, rules[1..]);
    }
  }

  /** Every phrase key holds a word character, as the keys of the language
      data files (number words joined by spaces) do. */
  predicate PhraseKeysHaveWords(rules: seq<(string, string)>)
  {
    forall r | r in rules && IsPhraseKey(r.0) :: exists j :: 0 <= j < |r.0| && IsWordChar(r.0[j])
  }

  /** Text without word characters never matches a phrase key holding one,
      so it is never rewritten. */
  lemma {:induction false} NoWordCharsUnchanged(s: string, rules: seq<(string, string)>)
    requires forall i :: 0 <= i < |s| ==> !IsWordChar(s[i])
    requires PhraseKeysHaveWords(rules)
    ensures ApplyPhraseRules(s, rules) == s
    decreases |rules|
  {
    if rules != [] {
      var k := rules[0].0;
      if IsPhraseKey(k) {
        assert rules[0] in rules;
        var j :| 0 <= j < |k| && IsWordChar(k[j]);
        assert k[j] in k && k[j] !in s;
        ReplaceAllFewer(s, k, rules[0].1, k[j]);
      }
      assert forall r | r in rules[1..] :: r in rules;
      NoWordCharsUnchanged(s, rules[1..]);
    }
  }

  /** With no phrase key among the rules, nothing is rewritten. */
  lemma NoPhraseRulesUnchanged(s: string, rules: seq<(string, string)>)
    requires PhraseRules(rules) == []
    ensures ApplyPhraseRules(s, rules) == s
  {
    OnlyPhraseRulesApply(s, rules);
  }

  /** Normalizing lower-cases the sentence: when the composed values hold no
      upper-case letter, neither does the result. */
  lemma {:induction false} NormalizedIsLower(s: string, rules: seq<(string, string)>)
    requires NoUpper(s)
    requires forall i :: 0 <= i < |rules| ==> NoUpper(rules[i].1)
    ensures NoUpper(ApplyPhraseRules(s, rules))
    decreases |rules|
  {
    if rules != [] {
      if IsPhraseKey(rules[0].0) {
        ReplaceAllNoUpper(s, rules[0].0, rules[0].1);
      }
      NormalizedIsLower(ApplyRule(s, rules[0]), rules[1..]);
    }
  }
}
