/** Failure-compatible wrappers, the converter's error taxonomy, and the two list
    queries the converter relies on: `list.count` and a first-index search that
    answers -1 when the element is absent. */
module Base {

  datatype Option<T> = None | Some(value: T)

  datatype Result<T, E> = Ok(value: T) | Err(error: E)

  /** The failures `word_to_num` raises (all of them a `ValueError` in the
      source), listed in the order in which they are checked. */
  datatype Error =
    | TypeMismatch          // the input is neither a string nor a number (None included)
    | NoValidWords          // nothing survives the filtering of words
    | RedundantNumberWord   // the word for 10^3, 10^6, 10^9 or 10^12 occurs twice
    | RedundantPoint        // the decimal-point word occurs twice
    | Malformed             // scale words out of descending order

  /** Number of occurrences of `x` in `s` (Python's `list.count`). */
  function Count<T(==)>(s: seq<T>, x: T): (n: nat)
    ensures n <= |s|
    ensures n == 0 <==> x !in s
  {
    if s == [] then 0 else (if s[0] == x then 1 else 0) + Count(s[1..], x)
  }

  /** Counting distributes over concatenation. */
  lemma {:induction false} CountAppend<T>(a: seq<T>, b: seq<T>, x: T)
    ensures Count(a + b, x) == Count(a, x) + Count(b, x)
  {
    if a != [] {
      assert (a + b)[1..] == a[1..] + b;
      CountAppend(a[1..], b, x);
    } else {
      assert a + b == b;
    }
  }

  /** "Occurs more than once" is the same as "occurs at two distinct positions". */
  lemma {:induction false} CountTwice<T>(s: seq<T>, x: T)
    ensures Count(s, x) > 1 <==> exists i, j | 0 <= i < j < |s| :: s[i] == x && s[j] == x
  {
    if s != [] {
      var t := s[1..];
      CountTwice(t, x);
      if Count(s, x) > 1 {
        if s[0] == x {
          var j :| 0 <= j < |t| && t[j] == x;
          assert s[0] == x && s[j + 1] == x;
        } else {
          var i, j :| 0 <= i < j < |t| && t[i] == x && t[j] == x;
          assert s[i + 1] == x && s[j + 1] == x;
        }
      }
      if exists i, j | 0 <= i < j < |s| :: s[i] == x && s[j] == x {
        var i, j :| 0 <= i < j < |s| && s[i] == x && s[j] == x;
        if i == 0 {
          assert t[j - 1] == x;
        } else {
          assert t[i - 1] == x && t[j - 1] == x;
        }
      }
    }
  }

  /** First index of `x` in `s`, or -1 when `x` does not occur
      (`s.index(x) if x in s else -1`). */
  function IndexOf<T(==)>(s: seq<T>, x: T): (i: int)
    ensures -1 <= i < |s|
    ensures i == -1 <==> x !in s
    ensures 0 <= i ==> s[i] == x && x !in s[..i]
  {
    if s == [] then -1
    else if s[0] == x then 0
    else
      var j := IndexOf(s[1..], x);
      if j == -1 then -1
      else
        assert s[..j + 1] == [s[0]] + s[1..][..j];
        j + 1
  }
}
