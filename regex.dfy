/**
 * `pattern.sub(repl, text)` with the pattern left abstract.  A compiled
 * pattern is a `Matcher`: `m(s, i)` is the length of the match that the
 * pattern finds starting exactly at position i of s (0 for none).  The
 * matcher sees the whole string, so look-behind and `\b` are expressible.
 * `Sub` scans left to right and replaces every leftmost, non-overlapping
 * match, which is what `re.sub` does for patterns that never match the
 * empty string (none of the modelled patterns do).
 */
module Regex {

  type Matcher = (string, nat) -> nat

  /** The match at i, or 0 when there is none or it would run past the end. */
  function MatchAt(m: Matcher, s: string, i: nat): (n: nat)
    ensures i + n <= |s| || n == 0
  {
    if i + m(s, i) <= |s| then m(s, i) else 0
  }

  /** The substitution on the suffix s[i..], scanning from position i. */
  function SubFrom(m: Matcher, repl: string, s: string, i: nat): string
    requires i <= |s|
    decreases |s| - i
  {
    if i == |s| then []
    else if MatchAt(m, s, i) > 0 then repl + SubFrom(m, repl, s, i + MatchAt(m, s, i))
    else [s[i]] + SubFrom(m, repl, s, i + 1)
  }

  /** `re.sub(pattern, repl, s)` */
  function Sub(m: Matcher, repl: string, s: string): string {
    SubFrom(m, repl, s, 0)
  }

  /** One step of the scan where nothing matches at i. */
  lemma SubFromCopy(m: Matcher, repl: string, s: string, i: nat)
    requires i < |s| && MatchAt(m, s, i) == 0
    ensures SubFrom(m, repl, s, i) == [s[i]] + SubFrom(m, repl, s, i + 1)
  {
  }

  /** One step of the scan where a match starting at i ends at j. */
  lemma SubFromReplace(m: Matcher, repl: string, s: string, i: nat, j: nat)
    requires i < j <= |s| && MatchAt(m, s, i) == j - i
    ensures SubFrom(m, repl, s, i) == repl + SubFrom(m, repl, s, j)
  {
  }

  /** A stretch s[i..j] where nothing matches is copied. */
  lemma {:induction false} SubFromCopyUpTo(m: Matcher, repl: string, s: string, i: nat, j: nat)
    requires i <= j <= |s| && forall p :: i <= p < j ==> MatchAt(m, s, p) == 0
    ensures SubFrom(m, repl, s, i) == s[i..j] + SubFrom(m, repl, s, j)
    decreases j - i
  {
    if i < j {
      SubFromCopy(m, repl, s, i);
      SubFromCopyUpTo(m, repl, s, i + 1, j);
      assert s[i..j] == [s[i]] + s[i + 1..j];
    }
  }

  /** For a pattern that only looks at the text from its start position on, the scan
      from i in s is the scan from i - k in the suffix s[k..]. */
  lemma {:induction false} SubFromSuffix(m: Matcher, repl: string, s: string, k: nat, i: nat)
    requires k <= i <= |s|
    requires forall p :: k <= p < |s| ==> MatchAt(m, s, p) == MatchAt(m, s[k..], p - k)
    ensures SubFrom(m, repl, s, i) == SubFrom(m, repl, s[k..], i - k)
    decreases |s| - i
  {
    if i < |s| {
      assert s[k..][i - k] == s[i];
      var n := MatchAt(m, s, i);
      if n > 0 {
        SubFromSuffix(m, repl, s, k, i + n);
      } else {
        SubFromSuffix(m, repl, s, k, i + 1);
      }
    }
  }

  /** The pattern finds nothing anywhere in s[i..]. */
  predicate NoMatchFrom(m: Matcher, s: string, i: nat) {
    forall j :: i <= j < |s| ==> MatchAt(m, s, j) == 0
  }

  lemma {:induction false} SubFromNoMatch(m: Matcher, repl: string, s: string, i: nat)
    requires i <= |s| && NoMatchFrom(m, s, i)
    ensures SubFrom(m, repl, s, i) == s[i..]
    decreases |s| - i
  {
    if i < |s| {
      SubFromNoMatch(m, repl, s, i + 1);
      assert s[i..] == [s[i]] + s[i + 1..];
    }
  }

  /** Where the pattern never matches, the substitution changes nothing. */
  lemma SubNoMatch(m: Matcher, repl: string, s: string)
    requires NoMatchFrom(m, s, 0)
    ensures Sub(m, repl, s) == s
  {
    SubFromNoMatch(m, repl, s, 0);
  }

  lemma {:induction false} SubFromChars(m: Matcher, repl: string, s: string, i: nat)
    requires i <= |s|
    ensures forall c :: c in SubFrom(m, repl, s, i) ==> c in s[i..] || c in repl
    decreases |s| - i
  {
    if i < |s| {
      var n := MatchAt(m, s, i);
      if n > 0 {
        SubFromChars(m, repl, s, i + n);
        assert forall c :: c in s[i + n..] ==> c in s[i..] by {
          assert s[i..] == s[i..i + n] + s[i + n..];
        }
      } else {
        SubFromChars(m, repl, s, i + 1);
        assert s[i..] == [s[i]] + s[i + 1..];
      }
    }
  }

  /** Every character of the result comes from the input or from the replacement. */
  lemma SubChars(m: Matcher, repl: string, s: string)
    ensures forall c :: c in Sub(m, repl, s) ==> c in s || c in repl
  {
    SubFromChars(m, repl, s, 0);
    assert s[0..] == s;
  }
}
