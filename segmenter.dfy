/** `get_number_value`: the integer part of a phrase. It first rejects scale
    words in the wrong order, then peels the scale tiers from trillion down to
    hundred: each tier multiplies the words before it and the search goes on
    after it; what remains at the end is added as it is. */
module Segmenter {
  import opened Base
  import opened Lexicons
  import opened Formation

  /** The scale tiers, in the order they are peeled. */
  const Tiers: seq<int> := [1_000_000_000_000, 1_000_000_000, 1_000_000, 1_000, 100]

  /** In `s`, the first `a` stands before the first `b`, both occurring. */
  predicate Precedes(s: seq<string>, a: string, b: string)
  {
    exists i, j | 0 <= i < j < |s| :: s[i] == a && s[j] == b && b !in s[..i]
  }

  /** Comparing first indices is the same as `Precedes`. */
  lemma PrecedesByIndex(s: seq<string>, a: string, b: string)
    requires a != b
    ensures (IndexOf(s, a) >= 0 && IndexOf(s, b) >= 0 && IndexOf(s, a) < IndexOf(s, b)) <==> Precedes(s, a, b)
  {
    var ia, ib := IndexOf(s, a), IndexOf(s, b);
    if ia >= 0 && ib >= 0 && ia < ib {
      assert s[..ia] <= s[..ib];
      assert b !in s[..ia];
      assert s[ia] == a && s[ib] == b;
    }
    if Precedes(s, a, b) {
      var i, j :| 0 <= i < j < |s| && s[i] == a && s[j] == b && b !in s[..i];
      assert a in s && b in s;
      assert ia <= i;
      assert ib > i;
    }
  }

  /** The word of tier `lo` stands before the word of tier `hi`. */
  predicate TierBefore(lex: Lexicon, clean: seq<string>, lo: int, hi: int)
  {
    && NameOf(lex.numbers, lo).Some?
    && NameOf(lex.numbers, hi).Some?
    && Precedes(clean, NameOf(lex.numbers, lo).value, NameOf(lex.numbers, hi).value)
  }

  /** A phrase whose scale words are out of order: the thousand word before the
      million word or the billion word, or the million word before the billion
      word. The trillion word's position plays no part. */
  predicate OutOfOrder(lex: Lexicon, clean: seq<string>)
  {
    || TierBefore(lex, clean, 1_000, 1_000_000)
    || TierBefore(lex, clean, 1_000, 1_000_000_000)
    || TierBefore(lex, clean, 1_000_000, 1_000_000_000)
  }

  /** One ordering rule on first indices, -1 standing for an absent word:
      the word of `lo` is present and stands before the word of `hi`. */
  lemma RuleByIndex(lex: Lexicon, clean: seq<string>, lo: int, hi: int)
    requires Valid(lex) && lo != hi
    ensures var l, h := IndexFor(lex, lo, clean), IndexFor(lex, hi, clean);
      (l > -1 && l < h) <==> TierBefore(lex, clean, lo, hi)
  {
    var a, b := NameOf(lex.numbers, lo), NameOf(lex.numbers, hi);
    if a.Some? && b.Some? {
      NamesDiffer(lex, lo, hi);
      PrecedesByIndex(clean, a.value, b.value);
    }
  }

  /** The source's test on first indices, with -1 for an absent word, rejects
      exactly the phrases out of order. */
  lemma OutOfOrderByIndex(lex: Lexicon, clean: seq<string>)
    requires Valid(lex)
    ensures
      var t, m, b := IndexFor(lex, 1_000, clean), IndexFor(lex, 1_000_000, clean), IndexFor(lex, 1_000_000_000, clean);
      ((t > -1 && (t < m || t < b)) || (m > -1 && m < b)) <==> OutOfOrder(lex, clean)
  {
    RuleByIndex(lex, clean, 1_000, 1_000_000);
    RuleByIndex(lex, clean, 1_000, 1_000_000_000);
    RuleByIndex(lex, clean, 1_000_000, 1_000_000_000);
  }

  /** Without the million word and the billion word, the scale words are never
      out of order: every ordering rule needs one of them after the other word,
      so the thousand word may stand anywhere, before the trillion word
      included. */
  lemma OrderNeedsMillionOrBillion(lex: Lexicon, ws: seq<string>)
    requires NameOf(lex.numbers, 1_000_000).Some? ==> NameOf(lex.numbers, 1_000_000).value !in ws
    requires NameOf(lex.numbers, 1_000_000_000).Some? ==> NameOf(lex.numbers, 1_000_000_000).value !in ws
    ensures !OutOfOrder(lex, ws)
  {
  }

  /** The words that multiply a tier: the words before it, or the word for 1
      when there are none. */
  function MultiplierWords(lex: Lexicon, before: seq<string>): (ws: seq<string>)
    requires Valid(lex) && AllNumberWords(lex, before)
    ensures |ws| > 0 && AllNumberWords(lex, ws)
  {
    if |before| > 0 then before else [ImpliedOne(lex)]
  }

  /** The value of `clean` when the tiers `tiers` are peeled in order, and
      the remainder is combined on its own. */
  function Segment(lex: Lexicon, clean: seq<string>, tiers: seq<int>): int
    requires Valid(lex) && AllNumberWords(lex, clean)
    decreases |tiers|
  {
    if tiers == [] then
      if clean == [] then 0 else Combine(lex.combiner, Values(lex, clean))
    else
      var i := IndexFor(lex, tiers[0], clean);
      if i == -1 then Segment(lex, clean, tiers[1..])
      else
        Combine(lex.combiner, Values(lex, MultiplierWords(lex, clean[..i]))) * tiers[0]
        + Segment(lex, clean[i + 1..], tiers[1..])
  }

  /** `get_number_value(clean)`: `Malformed` for scale words out of order,
      otherwise the value of the phrase. */
  method GetNumberValue(lex: Lexicon, clean: seq<string>) returns (r: Result<int, Error>)
    requires Valid(lex) && AllNumberWords(lex, clean)
    ensures r == if OutOfOrder(lex, clean) then Err(Malformed) else Ok(Segment(lex, clean, Tiers))
  {
    var thousandIndex := IndexFor(lex, 1_000, clean);
    var millionIndex := IndexFor(lex, 1_000_000, clean);
    var billionIndex := IndexFor(lex, 1_000_000_000, clean);
    var malformed := (thousandIndex > -1 && (thousandIndex < millionIndex || thousandIndex < billionIndex))
                     || (millionIndex > -1 && millionIndex < billionIndex);
    assert malformed == OutOfOrder(lex, clean) by {
      OutOfOrderByIndex(lex, clean);
    }
    if malformed {
      return Err(Malformed);
    }
    var result := SumOfTiers(lex, clean);
    return Ok(result);
  }

  /** The five tier blocks of `get_number_value`, trillion down to hundred, one
      per turn, and the remainder added at the end. */
  method SumOfTiers(lex: Lexicon, clean: seq<string>) returns (result: int)
    requires Valid(lex) && AllNumberWords(lex, clean)
    ensures result == Segment(lex, clean, Tiers)
  {
    result := 0;
    var rest := clean;
    var tiers := Tiers;
    while tiers != []
      invariant AllNumberWords(lex, rest)
      invariant result + Segment(lex, rest, tiers) == Segment(lex, clean, Tiers)
    {
      var tier := tiers[0];
      var index := IndexFor(lex, tier, rest);
      SegmentStep(lex, rest, tiers);
      if index > -1 {
        var param := rest[..index];
        param := if |param| > 0 then param else [ImpliedOne(lex)];
        var multiplier := NumberFormation(lex, param);
        result := result + multiplier * tier;
        rest := rest[index + 1..];
      }
      tiers := tiers[1..];
    }
    if |rest| > 0 {
      var multiplier := NumberFormation(lex, rest);
      result := result + multiplier * 1;
    }
  }

  /** One tier block of `get_number_value`: an absent tier word leaves the
      words as they are; a present one contributes its multiplier times the
      tier, and the search goes on strictly after it. */
  lemma SegmentStep(lex: Lexicon, rest: seq<string>, tiers: seq<int>)
    requires Valid(lex) && AllNumberWords(lex, rest) && tiers != []
    ensures
      var i := IndexFor(lex, tiers[0], rest);
      if i == -1 then
        Segment(lex, rest, tiers) == Segment(lex, rest, tiers[1..])
      else
        && AllNumberWords(lex, rest[i + 1..])
        && MultiplierWords(lex, rest[..i]) == (if i > 0 then rest[..i] else [ImpliedOne(lex)])
        && Segment(lex, rest, tiers)
           == Combine(lex.combiner, Values(lex, MultiplierWords(lex, rest[..i]))) * tiers[0]
              + Segment(lex, rest[i + 1..], tiers[1..])
  {
  }

  /** Nothing to peel is worth 0. */
  lemma {:induction false} SegmentEmpty(lex: Lexicon, tiers: seq<int>)
    requires Valid(lex)
    ensures Segment(lex, [], tiers) == 0
    decreases |tiers|
  {
    if tiers != [] {
      SegmentEmpty(lex, tiers[1..]);
    }
  }

  /** A single number word is worth its value: a bare scale word is multiplied
      by the implied 1, any other word is the remainder. */
  lemma {:induction false} SegmentSingleWord(lex: Lexicon, w: string, tiers: seq<int>)
    requires Valid(lex) && IsNumberWord(lex, w)
    ensures Segment(lex, [w], tiers) == Value(lex, w)
    decreases |tiers|
  {
    if tiers != [] {
      var i := IndexFor(lex, tiers[0], [w]);
      if i == -1 {
        SegmentSingleWord(lex, w, tiers[1..]);
      } else {
        assert [w][..i] == [] && [w][i + 1..] == [];
        var one := MultiplierWords(lex, []);
        assert Values(lex, one) == [1];
        CombineSingle(lex.combiner, 1);
        NameThenValue(lex, tiers[0]);
        SegmentEmpty(lex, tiers[1..]);
        assert Segment(lex, [w], tiers) == 1 * tiers[0] + Segment(lex, [], tiers[1..]);
      }
    }
  }

  /** Peeling one tier: when the tier's word follows the words `before` (which
      do not hold it), the phrase is worth the tier times the value of `before`
      (1 if there are none) plus the value of what follows under the lower
      tiers. */
  lemma PeelTier(lex: Lexicon, before: seq<string>, after: seq<string>, tiers: seq<int>)
    requires Valid(lex) && tiers != [] && NameOf(lex.numbers, tiers[0]).Some?
    requires AllNumberWords(lex, before) && AllNumberWords(lex, after)
    requires NameOf(lex.numbers, tiers[0]).value !in before
    ensures
      var w := NameOf(lex.numbers, tiers[0]).value;
      Segment(lex, before + [w] + after, tiers)
        == Combine(lex.combiner, Values(lex, MultiplierWords(lex, before))) * tiers[0]
           + Segment(lex, after, tiers[1..])
  {
    var w := NameOf(lex.numbers, tiers[0]).value;
    NameThenValue(lex, tiers[0]);
    var clean := before + [w] + after;
    assert clean[|before|] == w && clean[..|before|] == before;
    assert IndexOf(clean, w) == |before|;
    assert clean[|before| + 1..] == after;
  }

  /** A tier word that ends the phrase contributes its multiplier times the
      tier, and nothing comes after it. */
  lemma PeelLastTier(lex: Lexicon, before: seq<string>, tiers: seq<int>)
    requires Valid(lex) && tiers != [] && NameOf(lex.numbers, tiers[0]).Some?
    requires AllNumberWords(lex, before) && NameOf(lex.numbers, tiers[0]).value !in before
    ensures var w := NameOf(lex.numbers, tiers[0]).value;
      && AllNumberWords(lex, before + [w])
      && Segment(lex, before + [w], tiers)
         == Combine(lex.combiner, Values(lex, MultiplierWords(lex, before))) * tiers[0]
  {
    var w := NameOf(lex.numbers, tiers[0]).value;
    var clean := before + [w];
    assert AllNumberWords(lex, clean) by {
      NameThenValue(lex, tiers[0]);
    }
    assert IndexFor(lex, tiers[0], clean) == |before| by {
      assert clean[|before|] == w && clean[..|before|] == before;
    }
    assert clean[..|before|] == before && clean[|before| + 1..] == [];
    SegmentEmpty(lex, tiers[1..]);
  }

  /** The thousand word before the trillion word is worth a thousand
      trillion: the trillion tier takes the thousand word as its multiplier
      and nothing is left after it. */
  lemma ThousandTrillionValue(lex: Lexicon, ws: seq<string>)
    requires Valid(lex)
    requires NameOf(lex.numbers, 1_000).Some? && NameOf(lex.numbers, 1_000_000_000_000).Some?
    requires |ws| == 2 && ws[0] == NameOf(lex.numbers, 1_000).value
    requires ws[1] == NameOf(lex.numbers, 1_000_000_000_000).value
    ensures AllNumberWords(lex, ws) && Segment(lex, ws, Tiers) == 1_000_000_000_000_000
  {
    var before := ws[..1];
    assert before + [ws[1]] == ws;
    assert AllNumberWords(lex, before) && Value(lex, before[0]) == 1_000 by {
      NameThenValue(lex, 1_000);
    }
    assert NameOf(lex.numbers, Tiers[0]).value !in before by {
      NamesDiffer(lex, 1_000, 1_000_000_000_000);
    }
    PeelLastTier(lex, before, Tiers);
    assert Combine(lex.combiner, Values(lex, MultiplierWords(lex, before))) == 1_000 by {
      assert MultiplierWords(lex, before) == before;
      assert Values(lex, before) == [1_000];
      CombineSingle(lex.combiner, 1_000);
    }
  }

  /** A phrase without any tier word is combined as one run. */
  lemma {:induction false} SegmentWithoutTiers(lex: Lexicon, clean: seq<string>, tiers: seq<int>)
    requires Valid(lex) && AllNumberWords(lex, clean) && clean != []
    requires forall k :: 0 <= k < |tiers| ==> IndexFor(lex, tiers[k], clean) == -1
    ensures Segment(lex, clean, tiers) == Combine(lex.combiner, Values(lex, clean))
    decreases |tiers|
  {
    if tiers != [] {
      assert IndexFor(lex, tiers[0], clean) == -1;
      SegmentWithoutTiers(lex, clean, tiers[1..]);
    }
  }

  /** Non-negative entries give non-negative values. */
  lemma ValuesNonNegative(lex: Lexicon, ws: seq<string>)
    requires AllNumberWords(lex, ws)
    requires forall i :: 0 <= i < |lex.numbers| ==> lex.numbers[i].1 >= 0
    ensures forall i :: 0 <= i < |ws| ==> Values(lex, ws)[i] >= 0
  {
    forall i | 0 <= i < |ws|
      ensures Values(lex, ws)[i] >= 0
    {
      var r := ValueOf(lex.numbers, ws[i]);
      assert r.Some?;
      var j :| 0 <= j < |lex.numbers| && lex.numbers[j] == (ws[i], r.value);
    }
  }

  lemma ProductNonNegative(a: int, b: int)
    requires a >= 0 && b >= 0
    ensures a * b >= 0
  {
  }

  /** A run of non-negative values combines to a non-negative number. */
  lemma RunNonNegative(lex: Lexicon, ws: seq<string>)
    requires |ws| > 0 && AllNumberWords(lex, ws)
    requires forall i :: 0 <= i < |lex.numbers| ==> lex.numbers[i].1 >= 0
    ensures Combine(lex.combiner, Values(lex, ws)) >= 0
  {
    ValuesNonNegative(lex, ws);
    CombineNonNegative(lex.combiner, Values(lex, ws));
  }

  /** With non-negative tiers and number values, the value is non-negative. */
  lemma {:induction false} SegmentNonNegative(lex: Lexicon, clean: seq<string>, tiers: seq<int>)
    requires Valid(lex) && AllNumberWords(lex, clean)
    requires forall i :: 0 <= i < |lex.numbers| ==> lex.numbers[i].1 >= 0
    requires forall k :: 0 <= k < |tiers| ==> tiers[k] >= 0
    ensures Segment(lex, clean, tiers) >= 0
    decreases |tiers|
  {
    if tiers == [] {
      if clean != [] {
        RunNonNegative(lex, clean);
      }
    } else {
      var i := IndexFor(lex, tiers[0], clean);
      SegmentStep(lex, clean, tiers);
      if i == -1 {
        SegmentNonNegative(lex, clean, tiers[1..]);
      } else {
        var m := MultiplierWords(lex, clean[..i]);
        RunNonNegative(lex, m);
        SegmentNonNegative(lex, clean[i + 1..], tiers[1..]);
        ProductNonNegative(Combine(lex.combiner, Values(lex, m)), tiers[0]);
      }
    }
  }
}
