/** The string primitives the converter takes from Python, over ASCII:
    `str.lower`, `str.replace`, `re.findall(r'\w+', ...)`, `str.isdigit`,
    `int(...)` on a digit string and `str(...)` on a natural number. */
module Text {
  import opened Base

  predicate IsUpper(c: char) { 'A' <= c <= 'Z' }

  predicate NoUpper(s: string) { forall i :: 0 <= i < |s| ==> !IsUpper(s[i]) }

  function LowerChar(c: char): char
  {
    if IsUpper(c) then (c as int + 32) as char else c
  }

  /** `str.lower` on ASCII text. */
  function Lower(s: string): string
  {
    seq(|s|, i requires 0 <= i < |s| => LowerChar(s[i]))
  }

  /** Lower-casing leaves no upper-case letter and is the identity on text that
      has none. */
  lemma LowerIsLower(s: string)
    ensures NoUpper(Lower(s))
    ensures NoUpper(s) ==> Lower(s) == s
  {
  }

  // ---------------------------------------------------------------------------
  // str.replace

  /** `s.replace(k, v)`: scans left to right and substitutes every
      non-overlapping occurrence of the non-empty key `k`. */
  function ReplaceAll(s: string, k: string, v: string): string
    requires |k| > 0
    decreases |s|
  {
    if |s| < |k| then s
    else if s[..|k|] == k then v + ReplaceAll(s[|k|..], k, v)
    else [s[0]] + ReplaceAll(s[1..], k, v)
  }

  /** The number of occurrences `ReplaceAll` substitutes (`s.count(k)`). */
  function Matches(s: string, k: string): nat
    requires |k| > 0
    decreases |s|
  {
    if |s| < |k| then 0
    else if s[..|k|] == k then 1 + Matches(s[|k|..], k)
    else Matches(s[1..], k)
  }

  /** Every matched occurrence is substituted: the length changes by
      `|v| - |k|` per occurrence and nothing else changes length. */
  lemma {:induction false} ReplaceAllLength(s: string, k: string, v: string)
    requires |k| > 0
    ensures |ReplaceAll(s, k, v)| == |s| + Matches(s, k) * (|v| - |k|)
    decreases |s|
  {
    if |s| < |k| {
    } else if s[..|k|] == k {
      var t := s[|k|..];
      ReplaceAllLength(t, k, v);
      var d, m := |v| - |k|, Matches(t, k);
      assert |ReplaceAll(s, k, v)| == |v| + |ReplaceAll(t, k, v)|;
      assert Matches(s, k) == 1 + m;
      OneMore(m, d);
    } else {
      var t := s[1..];
      ReplaceAllLength(t, k, v);
      assert |ReplaceAll(s, k, v)| == 1 + |ReplaceAll(t, k, v)|;
      assert Matches(s, k) == Matches(t, k);
    }
  }

  lemma OneMore(m: int, d: int)
    ensures (1 + m) * d == d + m * d
  {
  }

  /** Replacing a key by itself changes nothing. */
  lemma {:induction false} ReplaceAllSelf(s: string, k: string)
    requires |k| > 0
    ensures ReplaceAll(s, k, k) == s
    decreases |s|
  {
    if |s| < |k| {
    } else if s[..|k|] == k {
      ReplaceAllSelf(s[|k|..], k);
      assert s == s[..|k|] + s[|k|..];
    } else {
      ReplaceAllSelf(s[1..], k);
      assert s == [s[0]] + s[1..];
    }
  }

  /** A key holding more occurrences of some character than the whole text
      never matches. */
  lemma {:induction false} ReplaceAllFewer(s: string, k: string, v: string, c: char)
    requires |k| > 0 && Count(s, c) < Count(k, c)
    ensures ReplaceAll(s, k, v) == s
    decreases |s|
  {
    if |s| >= |k| {
      assert s == s[..|k|] + s[|k|..];
      CountAppend(s[..|k|], s[|k|..], c);
      assert s[..|k|] != k;
      assert s == [s[0]] + s[1..];
      CountAppend([s[0]], s[1..], c);
      ReplaceAllFewer(s[1..], k, v, c);
    }
  }

  /** Replacing with lower-case text keeps lower-case text lower-case. */
  lemma {:induction false} ReplaceAllNoUpper(s: string, k: string, v: string)
    requires |k| > 0 && NoUpper(s) && NoUpper(v)
    ensures NoUpper(ReplaceAll(s, k, v))
    decreases |s|
  {
    if |s| < |k| {
    } else if s[..|k|] == k {
      ReplaceAllNoUpper(s[|k|..], k, v);
      var r := ReplaceAll(s[|k|..], k, v);
      assert forall i :: 0 <= i < |v + r| ==> (v + r)[i] == (if i < |v| then v[i] else r[i - |v|]);
    } else {
      ReplaceAllNoUpper(s[1..], k, v);
      var r := ReplaceAll(s[1..], k, v);
      assert forall i :: 0 <= i < |[s[0]] + r| ==> ([s[0]] + r)[i] == (if i < 1 then s[0] else r[i - 1]);
    }
  }

  // ---------------------------------------------------------------------------
  // re.findall(r'\w+', s)

  /** The `\w` character class over ASCII. */
  predicate IsWordChar(c: char)
  {
    'a' <= c <= 'z' || 'A' <= c <= 'Z' || '0' <= c <= '9' || c == '_'
  }

  /** A token `\w+` can match: non-empty, word characters only. */
  predicate IsWord(w: string)
  {
    |w| > 0 && forall j :: 0 <= j < |w| ==> IsWordChar(w[j])
  }

  /** Length of the longest prefix of `s` made of word characters. */
  function WordLength(s: string): (n: nat)
    ensures n <= |s|
    ensures forall i :: 0 <= i < n ==> IsWordChar(s[i])
    ensures n < |s| ==> !IsWordChar(s[n])
  {
    if s == [] || !IsWordChar(s[0]) then 0 else 1 + WordLength(s[1..])
  }

  /** The maximal runs of word characters in `s`, in order
      (`re.findall(r'\w+', s)`). */
  function Words(s: string): (ws: seq<string>)
    ensures forall i :: 0 <= i < |ws| ==> IsWord(ws[i])
    decreases |s|
  {
    if s == [] then []
    else if !IsWordChar(s[0]) then Words(s[1..])
    else
      var n := WordLength(s);
      [s[..n]] + Words(s[n..])
  }

  /** Tokens joined by single spaces. */
  function Join(ws: seq<string>): string
  {
    if ws == [] then ""
    else if |ws| == 1 then ws[0]
    else ws[0] + " " + Join(ws[1..])
  }

  lemma {:induction false} WordLengthOfWord(w: string, t: string)
    requires forall j :: 0 <= j < |w| ==> IsWordChar(w[j])
    requires t == [] || !IsWordChar(t[0])
    ensures WordLength(w + t) == |w|
    decreases |w|
  {
    if w == [] {
      assert w + t == t;
    } else {
      assert (w + t)[1..] == w[1..] + t;
      WordLengthOfWord(w[1..], t);
    }
  }

  /** Splitting undoes joining: `findall` recovers the tokens of a
      space-separated sentence of words. */
  lemma {:induction false} WordsOfJoin(ws: seq<string>)
    requires forall i :: 0 <= i < |ws| ==> IsWord(ws[i])
    ensures Words(Join(ws)) == ws
    decreases |ws|
  {
    if |ws| == 1 {
      WordsOfWord(ws[0]);
    } else if |ws| > 1 {
      var w, rest := ws[0], Join(ws[1..]);
      assert Join(ws) == w + [' '] + rest;
      WordsSplit(w, ' ', rest);
      WordsOfWord(w);
      WordsOfJoin(ws[1..]);
      assert ws == [w] + ws[1..];
    }
  }

  /** The first run of word characters is cut at the end of `a` when `a` holds
      a non-word character, or when what follows `a` does not go on with a
      word character. */
  lemma {:induction false} WordLengthPrefix(a: string, t: string)
    requires WordLength(a) < |a| || t == [] || !IsWordChar(t[0])
    ensures WordLength(a + t) == WordLength(a)
    decreases |a|
  {
    if a == [] {
      assert a + t == t;
    } else if IsWordChar(a[0]) {
      assert (a + t)[1..] == a[1..] + t;
      WordLengthPrefix(a[1..], t);
    }
  }

  /** A single word is one token. */
  lemma WordsOfWord(w: string)
    requires IsWord(w)
    ensures Words(w) == [w]
  {
    WordLengthOfWord(w, []);
    assert w + [] == w;
    assert w[..|w|] == w && w[|w|..] == [];
  }

  /** Text without word characters holds no token. */
  lemma {:induction false} WordsNone(s: string)
    requires forall i :: 0 <= i < |s| ==> !IsWordChar(s[i])
    ensures Words(s) == []
    decreases |s|
  {
    if s != [] {
      WordsNone(s[1..]);
    }
  }

  /** Any non-word character separates tokens: a comma, a hyphen or a space
      splits the text into the tokens before it and the tokens after it. */
  lemma {:induction false} WordsSplit(a: string, c: char, b: string)
    requires !IsWordChar(c)
    ensures Words(a + [c] + b) == Words(a) + Words(b)
    decreases |a|, 1
  {
    if a == [] {
      var s := a + [c] + b;
      assert s == [c] + b;
      assert s[1..] == b;
    } else if !IsWordChar(a[0]) {
      WordsSplitSkip(a, c, b);
    } else {
      WordsSplitTake(a, c, b);
    }
  }

  /** `WordsSplit` when the text opens with a non-word character. */
  lemma {:induction false} WordsSplitSkip(a: string, c: char, b: string)
    requires !IsWordChar(c) && a != [] && !IsWordChar(a[0])
    ensures Words(a + [c] + b) == Words(a) + Words(b)
    decreases |a|, 0
  {
    var s := a + [c] + b;
    assert s[0] == a[0];
    assert s[1..] == a[1..] + [c] + b;
    WordsSplit(a[1..], c, b);
  }

  /** `WordsSplit` when the text opens with a word character. */
  lemma {:induction false} WordsSplitTake(a: string, c: char, b: string)
    requires !IsWordChar(c) && a != [] && IsWordChar(a[0])
    ensures Words(a + [c] + b) == Words(a) + Words(b)
    decreases |a|, 0
  {
    var s := a + [c] + b;
    var m := WordLength(a);
    assert WordLength(s) == m by {
      assert s == a + ([c] + b);
      WordLengthPrefix(a, [c] + b);
    }
    assert Words(s) == [s[..m]] + Words(s[m..]) by {
      assert s[0] == a[0];
    }
    assert s[..m] == a[..m] && s[m..] == a[m..] + [c] + b;
    WordsSplit(a[m..], c, b);
  }

  lemma NoSpaceInWord(w: string)
    requires IsWord(w)
    ensures Count(w, ' ') == 0
  {
    assert ' ' !in w by {
      forall j | 0 <= j < |w| ensures w[j] != ' ' {
        assert IsWordChar(w[j]);
      }
    }
  }

  /** Two words joined hold exactly one space, and one word none. */
  lemma JoinSpaces(ws: seq<string>)
    requires |ws| <= 2 && forall i :: 0 <= i < |ws| ==> IsWord(ws[i])
    ensures Count(Join(ws), ' ') == if ws == [] then 0 else |ws| - 1
  {
    if |ws| == 2 {
      var a, b := ws[0], ws[1];
      NoSpaceInWord(a);
      NoSpaceInWord(b);
      assert Join(ws) == a + " " + b by {
        assert Join(ws[1..]) == b;
      }
      CountAppend(a + " ", b, ' ');
      CountAppend(a, " ", ' ');
      assert Count(" ", ' ') == 1;
    } else if |ws| == 1 {
      NoSpaceInWord(ws[0]);
    }
  }

  /** Joining lower-case words gives lower-case text. */
  lemma {:induction false} JoinNoUpper(ws: seq<string>)
    requires forall i :: 0 <= i < |ws| ==> NoUpper(ws[i])
    ensures NoUpper(Join(ws))
    decreases |ws|
  {
    if |ws| > 1 {
      JoinNoUpper(ws[1..]);
      var t := Join(ws[1..]);
      assert forall j :: 0 <= j < |ws[0] + " " + t| ==>
        (ws[0] + " " + t)[j] == (if j < |ws[0]| then ws[0][j] else if j == |ws[0]| then ' ' else t[j - |ws[0]| - 1]);
    }
  }

  /** A sentence opens with its first word. */
  lemma JoinStartsWithFirst(ws: seq<string>)
    requires ws != []
    ensures |ws[0]| <= |Join(ws)| && Join(ws)[..|ws[0]|] == ws[0]
  {
    if |ws| > 1 {
      assert Join(ws) == ws[0] + (" " + Join(ws[1..]));
    }
  }

  // ---------------------------------------------------------------------------
  // str.isdigit, int(...), str(...)

  predicate IsDigit(c: char) { '0' <= c <= '9' }

  /** `s.isdigit()` over ASCII: non-empty and digits only. */
  predicate IsDigits(s: string)
  {
    |s| > 0 && forall i :: 0 <= i < |s| ==> IsDigit(s[i])
  }

  /** `int(s)` for a string of decimal digits. */
  function ParseNat(s: string): nat
    requires forall i :: 0 <= i < |s| ==> IsDigit(s[i])
    decreases |s|
  {
    if s == [] then 0
    else
      assert IsDigit(s[|s| - 1]);
      ParseNat(s[..|s| - 1]) * 10 + (s[|s| - 1] as int - '0' as int)
  }

  /** The digit character of `d`. */
  function DigitChar(d: int): char
    requires 0 <= d <= 9
  {
    ('0' as int + d) as char
  }

  /** `str(n)` for a natural number: decimal digits without leading zeros. */
  function NatToString(n: nat): (s: string)
    ensures IsDigits(s)
    ensures n < 10 ==> s == [DigitChar(n)]
  {
    if n < 10 then [DigitChar(n)] else NatToString(n / 10) + [DigitChar(n % 10)]
  }

  /** `int(str(n)) == n`. */
  lemma {:induction false} ParseNatToString(n: nat)
    ensures ParseNat(NatToString(n)) == n
  {
    var s := NatToString(n);
    if n >= 10 {
      ParseNatToString(n / 10);
      assert s[..|s| - 1] == NatToString(n / 10);
    }
  }

  /** A digit string holds no space and no upper-case letter. */
  lemma DigitsArePlain(s: string)
    requires IsDigits(s)
    ensures ' ' !in s && NoUpper(s)
  {
  }
}
