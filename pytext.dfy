/**
 * The pieces of Python's `str` and `re` that the modelled code relies on:
 * character classes, `lower()`, `strip()`, `split()`, `join()`, slicing, and
 * the whitespace-run substitution `re.sub(r'\s+', rep, s)`.
 */
module PyText {

  /** The characters for which `str.isspace()` holds; `\s` in a str pattern and
      `str.strip()` without arguments use the same set. */
  predicate IsSpace(c: char) {
    || c == ' '
    || ('\t' <= c <= '\r')
    || ('\U{1C}' <= c <= '\U{1F}')
    || c == '\U{85}' || c == '\U{A0}' || c == '\U{1680}'
    || ('\U{2000}' <= c <= '\U{200A}')
    || c == '\U{2028}' || c == '\U{2029}' || c == '\U{202F}' || c == '\U{205F}' || c == '\U{3000}'
  }

  predicate IsAsciiLetter(c: char) { 'a' <= c <= 'z' || 'A' <= c <= 'Z' }

  predicate IsLowerLetter(c: char) { 'a' <= c <= 'z' }

  /** `\d`, restricted to ASCII digits. */
  predicate IsDigit(c: char) { '0' <= c <= '9' }

  /** `\w`, restricted to ASCII letters, digits and `_`. */
  predicate IsWordChar(c: char) { IsAsciiLetter(c) || IsDigit(c) || c == '_' }

  /** `not s.strip()`: the string is empty or all whitespace. */
  predicate IsBlank(s: string) {
    forall i :: 0 <= i < |s| ==> IsSpace(s[i])
  }

  function LowerChar(c: char): char {
    if 'A' <= c <= 'Z' then (c as int + 32) as char else c
  }

  /** `s.lower()` on ASCII letters. */
  function Lower(s: string): string {
    seq(|s|, i requires 0 <= i < |s| => LowerChar(s[i]))
  }

  lemma LowerIdempotent(s: string)
    ensures Lower(Lower(s)) == Lower(s)
  {
    assert forall i :: 0 <= i < |s| ==> Lower(Lower(s))[i] == Lower(s)[i];
  }

  /** `s.replace(a, b)` for single characters. */
  function ReplaceChar(s: string, a: char, b: char): string {
    seq(|s|, i requires 0 <= i < |s| => if s[i] == a then b else s[i])
  }

  /** The first position at or after i that is not whitespace, or |s|. */
  function SkipSpaces(s: string, i: nat): (r: nat)
    requires i <= |s|
    ensures i <= r <= |s|
    ensures forall j :: i <= j < r ==> IsSpace(s[j])
    ensures r < |s| ==> !IsSpace(s[r])
    decreases |s| - i
  {
    if i < |s| && IsSpace(s[i]) then SkipSpaces(s, i + 1) else i
  }

  /** The end of s[a..b] once its trailing whitespace is cut. */
  function BackSpaces(s: string, a: nat, b: nat): (r: nat)
    requires a <= b <= |s|
    ensures a <= r <= b
    ensures forall j :: r <= j < b ==> IsSpace(s[j])
    ensures r > a ==> !IsSpace(s[r - 1])
    decreases b
  {
    if b > a && IsSpace(s[b - 1]) then BackSpaces(s, a, b - 1) else b
  }

  /** Where `s.strip()` starts: the number of leading whitespace characters. */
  function StripOffset(s: string): (a: nat)
    ensures a <= |s|
  {
    SkipSpaces(s, 0)
  }

  /** `s.lstrip()`: what is left once the leading whitespace is cut. */
  function TrimStart(s: string): (r: string)
    ensures |r| <= |s|
    ensures s != [] && IsSpace(s[0]) ==> |r| < |s|
    ensures r != [] ==> !IsSpace(r[0])
  {
    s[StripOffset(s)..]
  }

  /** `s.strip()`: the longest infix that neither starts nor ends with whitespace,
      with only whitespace cut on either side. */
  function Strip(s: string): (r: string)
    ensures StripOffset(s) + |r| <= |s|
    ensures r == s[StripOffset(s)..StripOffset(s) + |r|]
    ensures forall j :: 0 <= j < StripOffset(s) ==> IsSpace(s[j])
    ensures forall j :: StripOffset(s) + |r| <= j < |s| ==> IsSpace(s[j])
    ensures r == [] <==> IsBlank(s)
    ensures r != [] ==> !IsSpace(r[0]) && !IsSpace(r[|r| - 1])
  {
    var a := StripOffset(s);
    var b := BackSpaces(s, a, |s|);
    s[a..b]
  }

  /** `re.sub(r'\s+', rep, s)`: every maximal run of whitespace becomes `rep`. */
  function ReplaceWsRuns(s: string, rep: string): (r: string)
    ensures s != [] && !IsSpace(s[0]) ==> r != [] && r[0] == s[0]
    decreases |s|
  {
    if s == [] then []
    else if IsSpace(s[0]) then rep + ReplaceWsRuns(TrimStart(s), rep)
    else [s[0]] + ReplaceWsRuns(s[1..], rep)
  }

  /** No whitespace other than ' ' and never two spaces in a row. */
  predicate SingleSpaced(s: string) {
    && (forall i :: 0 <= i < |s| && IsSpace(s[i]) ==> s[i] == ' ')
    && (forall i :: 0 <= i < |s| - 1 ==> !(s[i] == ' ' && s[i + 1] == ' '))
  }

  /** Single-spaced, and no space at either end. */
  predicate Normalized(s: string) {
    SingleSpaced(s) && (s != [] ==> s[0] != ' ' && s[|s| - 1] != ' ')
  }

  lemma {:induction false} RunsToSpaceAreSingle(s: string)
    ensures SingleSpaced(ReplaceWsRuns(s, " "))
    decreases |s|
  {
    if s == [] {
    } else if IsSpace(s[0]) {
      var t := TrimStart(s);
      RunsToSpaceAreSingle(t);
      var rt := ReplaceWsRuns(t, " ");
      assert rt != [] ==> !IsSpace(rt[0]);
      assert ReplaceWsRuns(s, " ") == " " + rt;
    } else {
      RunsToSpaceAreSingle(s[1..]);
      assert ReplaceWsRuns(s, " ") == [s[0]] + ReplaceWsRuns(s[1..], " ");
    }
  }

  lemma StripKeepsSingleSpaced(s: string)
    requires SingleSpaced(s)
    ensures Normalized(Strip(s))
  {
    var r := Strip(s);
    var a := StripOffset(s);
    forall i | 0 <= i < |r| ensures r[i] == s[a + i] {
    }
  }

  /** `re.sub(r'\s+', ' ', s).strip()` */
  function Normalize(s: string): (r: string)
    ensures Normalized(r)
    ensures |r| <= |s|
  {
    RunsToSpaceAreSingle(s);
    RunsNoLonger(s, " ");
    StripKeepsSingleSpaced(ReplaceWsRuns(s, " "));
    Strip(ReplaceWsRuns(s, " "))
  }

  lemma {:induction false} RunsNoLonger(s: string, rep: string)
    requires |rep| <= 1
    ensures |ReplaceWsRuns(s, rep)| <= |s|
    decreases |s|
  {
    if s == [] {
    } else if IsSpace(s[0]) {
      RunsNoLonger(TrimStart(s), rep);
    } else {
      RunsNoLonger(s[1..], rep);
    }
  }

  lemma {:induction false} RunsFixSingleSpaced(s: string)
    requires SingleSpaced(s)
    ensures ReplaceWsRuns(s, " ") == s
    decreases |s|
  {
    if s == [] {
    } else if IsSpace(s[0]) {
      assert s[0] == ' ';
      assert |s| > 1 ==> !IsSpace(s[1]);
      assert TrimStart(s) == s[1..] by {
        assert TrimStart(s) == TrimStart(s[1..]);
      }
      assert SingleSpaced(s[1..]) by {
        forall i | 0 <= i < |s[1..]| - 1 ensures !(s[1..][i] == ' ' && s[1..][i + 1] == ' ') {
          assert s[1..][i] == s[i + 1] && s[1..][i + 1] == s[i + 2];
        }
      }
      RunsFixSingleSpaced(s[1..]);
      assert s == [s[0]] + s[1..];
    } else {
      assert SingleSpaced(s[1..]) by {
        forall i | 0 <= i < |s[1..]| - 1 ensures !(s[1..][i] == ' ' && s[1..][i + 1] == ' ') {
          assert s[1..][i] == s[i + 1] && s[1..][i + 1] == s[i + 2];
        }
      }
      RunsFixSingleSpaced(s[1..]);
      assert s == [s[0]] + s[1..];
    }
  }

  lemma StripFixesTrimmed(s: string)
    requires s != [] ==> !IsSpace(s[0]) && !IsSpace(s[|s| - 1])
    ensures Strip(s) == s
  {
  }

  /** Normalizing a normalized string changes nothing (so `Normalize` is idempotent). */
  lemma NormalizeFixesNormalized(s: string)
    requires Normalized(s)
    ensures Normalize(s) == s
  {
    RunsFixSingleSpaced(s);
    StripFixesTrimmed(s);
  }

  lemma NormalizeIdempotent(s: string)
    ensures Normalize(Normalize(s)) == Normalize(s)
  {
    NormalizeFixesNormalized(Normalize(s));
  }

  /** Replacing whitespace runs keeps the non-whitespace characters and adds only rep. */
  lemma {:induction false} RunsChars(s: string, rep: string)
    ensures forall c :: c in ReplaceWsRuns(s, rep) ==> (c in s && !IsSpace(c)) || c in rep
    decreases |s|
  {
    if s != [] {
      if IsSpace(s[0]) {
        var t := TrimStart(s);
        RunsChars(t, rep);
        assert forall c :: c in t ==> c in s by {
          assert t == s[StripOffset(s)..];
        }
      } else {
        RunsChars(s[1..], rep);
        assert s == [s[0]] + s[1..];
      }
    }
  }

  /** Normalizing introduces no character other than ' '. */
  lemma NormalizeChars(s: string)
    ensures forall c :: c in Normalize(s) ==> c in s || c == ' '
  {
    var t := ReplaceWsRuns(s, " ");
    RunsChars(s, " ");
    var r := Strip(t);
    assert forall c :: c in r ==> c in t by {
      assert r == t[StripOffset(t)..StripOffset(t) + |r|];
    }
  }

  /** A blank string normalizes to the empty string. */
  lemma NormalizeBlank(s: string)
    requires IsBlank(s)
    ensures Normalize(s) == []
  {
    var t := ReplaceWsRuns(s, " ");
    if s != [] {
      assert t == " " + ReplaceWsRuns([], " ");
    }
    assert IsBlank(t);
  }

  /** The text with all its whitespace removed. */
  function NonSpaces(s: string): string
    decreases |s|
  {
    if s == [] then [] else (if IsSpace(s[0]) then [] else [s[0]]) + NonSpaces(s[1..])
  }

  lemma {:induction false} NonSpacesConcat(a: string, b: string)
    ensures NonSpaces(a + b) == NonSpaces(a) + NonSpaces(b)
    decreases |a|
  {
    if a != [] {
      assert (a + b)[1..] == a[1..] + b;
      NonSpacesConcat(a[1..], b);
      var h := if IsSpace(a[0]) then [] else [a[0]];
      assert NonSpaces(a + b) == h + (NonSpaces(a[1..]) + NonSpaces(b));
      assert NonSpaces(a) == h + NonSpaces(a[1..]);
      Assoc(h, NonSpaces(a[1..]), NonSpaces(b));
    } else {
      assert a + b == b;
    }
  }

  lemma {:induction false} NonSpacesOfBlank(s: string)
    requires IsBlank(s)
    ensures NonSpaces(s) == []
    decreases |s|
  {
    if s != [] {
      NonSpacesOfBlank(s[1..]);
    }
  }

  /** Whitespace on either side of a text does not count. */
  lemma NonSpacesPadded(l: string, r: string, t: string)
    requires IsBlank(l) && IsBlank(t)
    ensures NonSpaces(l + r + t) == NonSpaces(r)
  {
    NonSpacesConcat(l + r, t);
    NonSpacesConcat(l, r);
    NonSpacesOfBlank(l);
    NonSpacesOfBlank(t);
  }

  /** Replacing whitespace runs by a space keeps the other characters, in order. */
  lemma {:induction false} RunsKeepText(s: string)
    ensures NonSpaces(ReplaceWsRuns(s, " ")) == NonSpaces(s)
    decreases |s|
  {
    if s != [] {
      if IsSpace(s[0]) {
        var a := StripOffset(s);
        var t := s[a..];
        RunsKeepText(t);
        assert ReplaceWsRuns(s, " ") == " " + ReplaceWsRuns(t, " ");
        NonSpacesConcat(" ", ReplaceWsRuns(t, " "));
        assert NonSpaces(" ") == [];
        assert s == s[..a] + t;
        NonSpacesConcat(s[..a], t);
        NonSpacesOfBlank(s[..a]);
      } else {
        RunsKeepText(s[1..]);
        assert ReplaceWsRuns(s, " ") == [s[0]] + ReplaceWsRuns(s[1..], " ");
        NonSpacesConcat([s[0]], ReplaceWsRuns(s[1..], " "));
      }
    }
  }

  /** `strip()` cuts only whitespace. */
  lemma StripKeepsText(s: string)
    ensures NonSpaces(Strip(s)) == NonSpaces(s)
  {
    var r := Strip(s);
    var a := StripOffset(s);
    var b := a + |r|;
    var l, t := s[..a], s[b..];
    assert IsBlank(l) && IsBlank(t);
    assert s == l + r + t;
    NonSpacesPadded(l, r, t);
  }


  /** Collapsing and stripping keeps every non-whitespace character, in order. */
  lemma NormalizeKeepsText(s: string)
    ensures NonSpaces(Normalize(s)) == NonSpaces(s)
  {
    RunsKeepText(s);
    StripKeepsText(ReplaceWsRuns(s, " "));
  }

  /** The end of the run of non-whitespace characters that starts at i. */
  function WordEnd(s: string, i: nat): (r: nat)
    requires i <= |s|
    ensures i <= r <= |s|
    ensures forall j :: i <= j < r ==> !IsSpace(s[j])
    ensures r < |s| ==> IsSpace(s[r])
    decreases |s| - i
  {
    if i < |s| && !IsSpace(s[i]) then WordEnd(s, i + 1) else i
  }

  /** `s.split()` without a separator: the maximal runs of non-whitespace characters. */
  function Words(s: string): (ws: seq<string>)
    decreases |s|
  {
    if s == [] then []
    else if IsSpace(s[0]) then Words(s[1..])
    else
      var n := WordEnd(s, 0);
      [s[..n]] + Words(s[n..])
  }

  /** No whitespace at all. */
  predicate NoSpace(w: string) {
    forall j :: 0 <= j < |w| ==> !IsSpace(w[j])
  }

  /** Every word is non-empty and holds no whitespace. */
  lemma {:induction false} WordsShape(s: string)
    ensures forall k :: 0 <= k < |Words(s)| ==> Words(s)[k] != [] && NoSpace(Words(s)[k])
    decreases |s|
  {
    if s != [] {
      if IsSpace(s[0]) {
        WordsShape(s[1..]);
      } else {
        var n := WordEnd(s, 0);
        WordsShape(s[n..]);
        var ws := Words(s);
        assert ws == [s[..n]] + Words(s[n..]);
        forall k | 0 <= k < |ws| ensures ws[k] != [] && NoSpace(ws[k]) {
          if k > 0 {
            assert ws[k] == Words(s[n..])[k - 1];
          }
        }
      }
    }
  }

  /** Leading whitespace does not change the words. */
  lemma {:induction false} WordsSkipSpaces(s: string, i: nat)
    requires i <= |s|
    ensures Words(s[i..]) == Words(s[SkipSpaces(s, i)..])
    decreases |s| - i
  {
    if i < |s| && IsSpace(s[i]) {
      assert s[i..][1..] == s[i + 1..];
      WordsSkipSpaces(s, i + 1);
    }
  }

  /** A leading run of non-whitespace characters passes through the substitution. */
  lemma {:induction false} RunsWord(s: string, n: nat)
    requires n <= |s| && forall j :: 0 <= j < n ==> !IsSpace(s[j])
    ensures ReplaceWsRuns(s, " ") == s[..n] + ReplaceWsRuns(s[n..], " ")
    decreases n
  {
    if n > 0 {
      var t := s[1..];
      assert ReplaceWsRuns(s, " ") == [s[0]] + ReplaceWsRuns(t, " ");
      forall j | 0 <= j < n - 1 ensures !IsSpace(t[j]) {
        assert t[j] == s[j + 1];
      }
      RunsWord(t, n - 1);
      assert t[n - 1..] == s[n..];
      assert [s[0]] + t[..n - 1] == s[..n];
      Assoc([s[0]], t[..n - 1], ReplaceWsRuns(s[n..], " "));
    }
  }

  /** `" ".join` of a non-empty word list starts with the first word's first character
      and ends with the last word's last character. */
  lemma {:induction false} JoinEdges(ws: seq<string>)
    requires ws != [] && forall k :: 0 <= k < |ws| ==> ws[k] != []
    ensures Join(ws, " ") != []
    ensures Join(ws, " ")[0] == ws[0][0]
    ensures Join(ws, " ")[|Join(ws, " ")| - 1] == ws[|ws| - 1][|ws[|ws| - 1]| - 1]
    decreases |ws|
  {
    if |ws| > 1 {
      JoinEdges(ws[1..]);
    }
  }

  /** The single space that the substitution leaves when a text ends in whitespace. */
  function Trail(u: string): string {
    if u != [] && IsSpace(u[|u| - 1]) then " " else ""
  }

  /** For text that is empty or starts with a non-space: the substitution is the words
      joined by one space, plus one space when the text ends in whitespace. */
  lemma {:induction false} RunsAreJoinedWords(u: string)
    requires u == [] || !IsSpace(u[0])
    ensures ReplaceWsRuns(u, " ") == Join(Words(u), " ") + Trail(u)
    decreases |u|
  {
    if u != [] {
      var n := WordEnd(u, 0);
      if n == |u| {
        RunsLastWord(u);
      } else {
        var v := u[n..];
        var u' := v[SkipSpaces(v, 0)..];
        RunsAreJoinedWords(u');
        RunsWordThenSpace(u, u');
      }
    }
  }

  lemma RunsLastWord(u: string)
    requires u != [] && !IsSpace(u[0]) && WordEnd(u, 0) == |u|
    ensures ReplaceWsRuns(u, " ") == Join(Words(u), " ") + Trail(u)
  {
    var n := WordEnd(u, 0);
    assert u[..n] == u && u[n..] == [];
    assert Words(u) == [u] + Words([]);
    RunsWord(u, n);
    assert Trail(u) == "";
  }

  /** The step of RunsAreJoinedWords: a word, whitespace, and the text u' after it. */
  lemma RunsWordThenSpace(u: string, u': string)
    requires u != [] && !IsSpace(u[0]) && WordEnd(u, 0) < |u|
    requires u' == u[WordEnd(u, 0)..][SkipSpaces(u[WordEnd(u, 0)..], 0)..]
    requires ReplaceWsRuns(u', " ") == Join(Words(u'), " ") + Trail(u')
    ensures ReplaceWsRuns(u, " ") == Join(Words(u), " ") + Trail(u)
  {
    var n := WordEnd(u, 0);
    var w, v := u[..n], u[n..];
    assert Words(u) == [w] + Words(v);
    RunsWord(u, n);
    assert ReplaceWsRuns(v, " ") == " " + ReplaceWsRuns(u', " ");
    WordsSkipSpaces(v, 0);
    assert v[0..] == v;
    assert Words(v) == Words(u');
    if u' == [] {
      assert IsSpace(v[|v| - 1]);
      assert Trail(u) == " ";
      assert Words(u) == [w];
    } else {
      WordsShape(u');
      assert Words(u') != [];
      JoinCons(w, Words(u'));
      assert u[|u| - 1] == u'[|u'| - 1];
      assert Trail(u) == Trail(u');
      var jw := Join(Words(u'), " ");
      assert ReplaceWsRuns(u, " ") == w + (" " + (jw + Trail(u')));
      Regroup3(w, " ", jw, Trail(u'));
    }
  }

  lemma Regroup3(a: string, b: string, c: string, d: string)
    ensures a + (b + (c + d)) == a + b + c + d
  {
  }

  lemma JoinCons(w: string, ws: seq<string>)
    requires ws != []
    ensures Join([w] + ws, " ") == w + " " + Join(ws, " ")
  {
    assert ([w] + ws)[1..] == ws;
  }

  /** `strip()` of a text padded by whitespace on both sides is the text itself, when
      that neither starts nor ends with whitespace. */
  lemma StripPadded(l: string, j: string, t: string)
    requires IsBlank(l) && IsBlank(t)
    requires j != [] ==> !IsSpace(j[0]) && !IsSpace(j[|j| - 1])
    ensures Strip(l + j + t) == j
  {
    var s := l + j + t;
    var r := Strip(s);
    if j == [] {
      assert IsBlank(s);
    } else {
      var a := StripOffset(s);
      assert s[|l|] == j[0];
      assert a == |l|;
      assert s[|l| + |j| - 1] == j[|j| - 1];
      assert r != [];
      assert s[a + |r| - 1] == r[|r| - 1];
      assert |r| == |j|;
      assert r == s[|l|..|l| + |j|];
    }
  }

  lemma Assoc(a: string, b: string, c: string)
    ensures a + (b + c) == a + b + c
  {
  }

  /** The substitution on any text: an optional leading space, the joined words, and
      an optional trailing space. */
  lemma RunsPadded(s: string)
    ensures ReplaceWsRuns(s, " ") ==
      (if s != [] && IsSpace(s[0]) then " " else "") + Join(Words(s), " ") + Trail(s[SkipSpaces(s, 0)..])
  {
    var a := SkipSpaces(s, 0);
    var u := s[a..];
    WordsSkipSpaces(s, 0);
    assert s[0..] == s;
    RunsAreJoinedWords(u);
    if a == 0 {
      assert u == s;
    }
    Assoc(if s != [] && IsSpace(s[0]) then " " else "", Join(Words(s), " "), Trail(u));
  }

  /** Joined words neither start nor end with whitespace. */
  lemma JoinedWordsTrimmed(s: string)
    ensures Join(Words(s), " ") != [] ==>
      !IsSpace(Join(Words(s), " ")[0]) && !IsSpace(Join(Words(s), " ")[|Join(Words(s), " ")| - 1])
  {
    WordsShape(s);
    var ws := Words(s);
    if ws != [] {
      JoinEdges(ws);
      var first, last := ws[0], ws[|ws| - 1];
      assert NoSpace(first) && NoSpace(last);
    }
  }

  /** `re.sub(r'\s+', ' ', s).strip()` is `' '.join(s.split())`: the words of the text,
      in order, separated by single spaces. */
  lemma NormalizeIsJoinedWords(s: string)
    ensures Normalize(s) == Join(Words(s), " ")
  {
    RunsPadded(s);
    JoinedWordsTrimmed(s);
    StripPadded(if s != [] && IsSpace(s[0]) then " " else "", Join(Words(s), " "),
                Trail(s[SkipSpaces(s, 0)..]));
  }

  /** `sep.join(xs)` */
  function Join(xs: seq<string>, sep: string): string
  {
    if xs == [] then []
    else if |xs| == 1 then xs[0]
    else xs[0] + sep + Join(xs[1..], sep)
  }

  /** Index of the first occurrence of c in s, or |s| if there is none. */
  function IndexOf(s: string, c: char): (i: nat)
    ensures i <= |s|
    ensures i < |s| ==> s[i] == c
    ensures forall j :: 0 <= j < i ==> s[j] != c
  {
    if s == [] then 0 else if s[0] == c then 0 else 1 + IndexOf(s[1..], c)
  }

  /** `s.split(c)` for a one-character separator: the pieces between the separators. */
  function Split(s: string, c: char): (r: seq<string>)
    ensures |r| >= 1
    ensures forall i :: 0 <= i < |r| ==> c !in r[i]
    ensures Join(r, [c]) == s
    decreases |s|
  {
    var i := IndexOf(s, c);
    if i == |s| then [s]
    else
      var rest := Split(s[i + 1..], c);
      assert ([s[..i]] + rest)[1..] == rest;
      assert s == s[..i] + [c] + s[i + 1..];
      [s[..i]] + rest
  }

  /** Length of `s[:n]` for a sequence of length len, by Python's slice rules:
      a negative n counts from the end, out-of-range bounds are clamped. */
  function PrefixLen(n: int, len: nat): (m: nat)
    ensures m <= len
  {
    if n >= 0 then (if n <= len then n else len)
    else if len + n >= 0 then len + n else 0
  }

  /** `s[:n]` */
  function PyPrefix<T>(s: seq<T>, n: int): seq<T> {
    s[..PrefixLen(n, |s|)]
  }

  /** Whether s[j] exists and is a word character. */
  predicate WordAt(s: string, j: int) {
    0 <= j < |s| && IsWordChar(s[j])
  }

  /** `\b` at position p: a word character on exactly one side of p. */
  predicate WordBoundary(s: string, p: int) {
    WordAt(s, p - 1) != WordAt(s, p)
  }
}
