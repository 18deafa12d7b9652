/**
 * The text helpers of the job aggregator (job_aggregator.py): `text or
 * fallback`, `sanitize_filename`, `clean_html` and the split of a We Work
 * Remotely title into company and job title.
 */
module JobText {
  import opened Wrappers
  import opened PyText
  import Regex
  import Collections

  /** `text or fallback`: None and the empty string both give the fallback. */
  function OrElse(text: Option<string>, fallback: string): (r: string)
    ensures text.Some? && text.value != [] ==> r == text.value
    ensures text.None? || text.value == [] ==> r == fallback
  {
    if text.Some? && text.value != [] then text.value else fallback
  }

  // ---------------------------------------------------------------- sanitize_filename

  /** The characters kept by `re.sub(r"[^\w\s-]", "", ...)`. */
  predicate IsNameChar(c: char) {
    IsWordChar(c) || IsSpace(c) || c == '-'
  }

  /** The name used for a missing or empty text, and the one used when nothing is left. */
  const UnknownName: string := "unknown"
  const UnnamedFile: string := "unnamed"

  /** `sanitize_filename(text, max_len)` */
  function SanitizeFilename(text: Option<string>, maxLen: int): string {
    SanitizeName(OrElse(text, UnknownName), maxLen)
  }

  /** The body of `sanitize_filename` once `text or "unknown"` is evaluated. */
  function SanitizeName(name: string, maxLen: int): string {
    var kept := Collections.Filter(name, IsNameChar);
    var joined := ReplaceWsRuns(Strip(kept), "_");
    var cut := PyPrefix(joined, maxLen);
    if cut == [] then UnnamedFile else cut
  }

  /** Stripping and joining the runs with '_' leaves only word characters and '-'. */
  lemma JoinedNameChars(kept: string)
    requires forall c :: c in kept ==> IsNameChar(c)
    ensures forall c :: c in ReplaceWsRuns(Strip(kept), "_") ==> IsWordChar(c) || c == '-'
  {
    var stripped := Strip(kept);
    RunsChars(stripped, "_");
    forall c | c in stripped ensures c in kept {
      var m :| 0 <= m < |stripped| && stripped[m] == c;
      assert kept[StripOffset(kept) + m] == c;
    }
  }

  /** A prefix of the joined name keeps its characters and is at most maxLen long. */
  lemma PrefixShape(joined: string, maxLen: int)
    ensures forall c :: c in PyPrefix(joined, maxLen) ==> c in joined
    ensures 0 <= maxLen ==> |PyPrefix(joined, maxLen)| <= maxLen
  {
    var cut := PyPrefix(joined, maxLen);
    forall c | c in cut ensures c in joined {
      var m :| 0 <= m < |cut| && cut[m] == c;
      assert joined[m] == c;
    }
  }

  lemma UnnamedChars()
    ensures forall c :: c in UnnamedFile ==> IsWordChar(c)
  {
    assert forall i :: 0 <= i < |UnnamedFile| ==> IsAsciiLetter(UnnamedFile[i]);
  }

  /** The result is never empty, and it is at most maxLen long unless it is the
      fallback "unnamed". */
  lemma SanitizeFilenameLength(text: Option<string>, maxLen: int)
    ensures SanitizeFilename(text, maxLen) != []
    ensures SanitizeFilename(text, maxLen) == UnnamedFile || 0 > maxLen || |SanitizeFilename(text, maxLen)| <= maxLen
    ensures SanitizeFilename(text, maxLen) == UnnamedFile ||
      |SanitizeFilename(text, maxLen)| <= |OrElse(text, UnknownName)| + (if maxLen < 0 then maxLen else 0)
  {
    var kept := Collections.Filter(OrElse(text, UnknownName), IsNameChar);
    var joined := ReplaceWsRuns(Strip(kept), "_");
    PrefixShape(joined, maxLen);
    RunsNoLonger(Strip(kept), "_");
    assert |joined| <= |OrElse(text, UnknownName)|;
  }

  lemma SanitizeNameChars(name: string, maxLen: int)
    ensures forall c :: c in SanitizeName(name, maxLen) ==> (IsWordChar(c) || c == '-') && !IsSpace(c)
  {
    var kept := Collections.Filter(name, IsNameChar);
    var joined := ReplaceWsRuns(Strip(kept), "_");
    var cut := PyPrefix(joined, maxLen);
    if cut == [] {
      UnnamedChars();
    } else {
      JoinedNameChars(kept);
      PrefixShape(joined, maxLen);
      assert SanitizeName(name, maxLen) == cut;
    }
  }

  /** The result holds only word characters and '-', so no whitespace. */
  lemma SanitizeFilenameChars(text: Option<string>, maxLen: int)
    ensures forall c :: c in SanitizeFilename(text, maxLen) ==> (IsWordChar(c) || c == '-') && !IsSpace(c)
  {
    SanitizeNameChars(OrElse(text, UnknownName), maxLen);
  }

  /** A missing name and an empty one are both treated as "unknown". */
  lemma SanitizeMissing(maxLen: int)
    ensures SanitizeFilename(None, maxLen) == SanitizeFilename(Some(""), maxLen)
      == SanitizeFilename(Some(UnknownName), maxLen)
  {
  }

  // ---------------------------------------------------------------- clean_html

  /** The pattern `<[^>]+>` at position i: '<', at least one character other than '>',
      then the first '>' after it. */
  function TagMatch(s: string, i: nat): (n: nat)
    ensures n == 0 || i + n <= |s|
    ensures !(i < |s| && s[i] == '<') ==> n == 0
    ensures i < |s| && s[i] == '<' ==>
      (n == 0 <==> (i + 1 < |s| && s[i + 1] == '>') || '>' !in s[i + 1..])
  {
    if i < |s| && s[i] == '<' then
      var t := s[i + 1..];
      var k := IndexOf(t, '>');
      assert k == |t| ==> '>' !in t;
      assert 0 < k < |t| ==> t[0] != '>' && '>' in t;
      if 0 < k < |t| then k + 2 else 0
    else 0
  }

  /** A match runs from the '<' to the first '>' after it and is at least 3 long. */
  lemma TagMatchSpan(s: string, i: nat)
    ensures TagMatch(s, i) > 0 ==>
      TagMatch(s, i) >= 3 && s[i + TagMatch(s, i) - 1] == '>' && '>' !in s[i + 1..i + TagMatch(s, i) - 1]
  {
    var n := TagMatch(s, i);
    if n > 0 {
      var t := s[i + 1..];
      assert t[..n - 2] == s[i + 1..i + n - 1];
      assert t[n - 2] == s[i + n - 1];
    }
  }

  /** The tag pattern looks only forward from its start position. */
  lemma TagMatchSuffix(s: string, k: nat, p: nat)
    requires k <= p < |s|
    ensures Regex.MatchAt(TagMatch, s, p) == Regex.MatchAt(TagMatch, s[k..], p - k)
  {
    assert s[k..][p - k] == s[p];
    assert s[k..][p - k + 1..] == s[p + 1..];
  }

  /** A tag `<t>` after text a without '<' becomes one space: a is kept as it is and the
      rest b is substituted on its own. */
  lemma TagBecomesSpace(a: string, t: string, b: string)
    requires '<' !in a && t != [] && '>' !in t
    ensures Regex.Sub(TagMatch, " ", a + "<" + t + ">" + b) == a + " " + Regex.Sub(TagMatch, " ", b)
  {
    var s := a + "<" + t + ">" + b;
    TagPieces(a, t, b, s);
    TagSpanBecomesSpace(s, |a|, |a| + |t| + 2);
  }

  /** Where the pieces of a + "<" + t + ">" + b sit. */
  lemma TagPieces(a: string, t: string, b: string, s: string)
    requires s == a + "<" + t + ">" + b
    ensures |s| == |a| + |t| + 2 + |b|
    ensures s[..|a|] == a && s[|a| + |t| + 2..] == b
    ensures s[|a|] == '<' && s[|a| + |t| + 1] == '>'
    ensures s[|a| + 1..|a| + |t| + 1] == t
  {
  }

  /** The same statement over positions: a '<' at k whose first '>' after it, with at least
      one other character between, is at j - 1, and no '<' before k. */
  lemma TagSpanBecomesSpace(s: string, k: nat, j: nat)
    requires k + 3 <= j <= |s| && s[k] == '<' && s[j - 1] == '>'
    requires '>' !in s[k + 1..j - 1] && '<' !in s[..k]
    ensures Regex.Sub(TagMatch, " ", s) == s[..k] + " " + Regex.Sub(TagMatch, " ", s[j..])
  {
    var x := Regex.Sub(TagMatch, " ", s[j..]);
    TagSpanReplaced(s, k, j);
    SubFromTagSuffix(s, j);
    NoTagPrefixKept(s, k);
    Assoc(s[..k], " ", x);
  }

  /** The scan from the '<' at k puts one space for the tag and goes on at j. */
  lemma TagSpanReplaced(s: string, k: nat, j: nat)
    requires k + 3 <= j <= |s| && s[k] == '<' && s[j - 1] == '>' && '>' !in s[k + 1..j - 1]
    ensures Regex.SubFrom(TagMatch, " ", s, k) == " " + Regex.SubFrom(TagMatch, " ", s, j)
  {
    TagSpanAt(s, k, j);
    Regex.SubFromReplace(TagMatch, " ", s, k, j);
  }

  lemma TagSpanAt(s: string, k: nat, j: nat)
    requires k + 3 <= j <= |s| && s[k] == '<' && s[j - 1] == '>' && '>' !in s[k + 1..j - 1]
    ensures Regex.MatchAt(TagMatch, s, k) == j - k
  {
    var u := s[k + 1..];
    assert u[j - k - 2] == '>';
    assert u[..j - k - 2] == s[k + 1..j - 1];
    assert IndexOf(u, '>') == j - k - 2;
  }

  /** Text without '<' in front of position k is copied by the substitution. */
  lemma NoTagPrefixKept(s: string, k: nat)
    requires k <= |s| && '<' !in s[..k]
    ensures Regex.Sub(TagMatch, " ", s) == s[..k] + Regex.SubFrom(TagMatch, " ", s, k)
  {
    forall p | 0 <= p < k ensures Regex.MatchAt(TagMatch, s, p) == 0 {
      assert s[p] == s[..k][p];
    }
    Regex.SubFromCopyUpTo(TagMatch, " ", s, 0, k);
    assert s[0..k] == s[..k];
  }

  /** The scan from j is the substitution of the suffix s[j..]. */
  lemma SubFromTagSuffix(s: string, j: nat)
    requires j <= |s|
    ensures Regex.SubFrom(TagMatch, " ", s, j) == Regex.Sub(TagMatch, " ", s[j..])
  {
    forall p | j <= p < |s| ensures Regex.MatchAt(TagMatch, s, p) == Regex.MatchAt(TagMatch, s[j..], p - j) {
      TagMatchSuffix(s, j, p);
    }
    Regex.SubFromSuffix(TagMatch, " ", s, j, j);
  }

  /** No match of the tag pattern starts anywhere in s. */
  predicate NoTag(s: string) {
    forall i :: 0 <= i < |s| ==> TagMatch(s, i) == 0
  }

  /** `clean_html(raw)`: every tag becomes a space, then the ends are stripped. */
  function CleanHtml(raw: Option<string>): string {
    Strip(Regex.Sub(TagMatch, " ", OrElse(raw, "")))
  }

  /** A tag match at position j + 1 of c::t is the one at position j of t. */
  lemma TagMatchCons(c: char, t: string, j: nat)
    ensures TagMatch([c] + t, j + 1) == TagMatch(t, j)
  {
    var s := [c] + t;
    if j < |t| {
      assert s[j + 1] == t[j];
      assert s[j + 2..] == t[j + 1..];
    }
  }

  lemma NoTagCons(c: char, t: string)
    requires NoTag(t)
    requires c == '<' ==> (t != [] && t[0] == '>') || '>' !in t
    ensures NoTag([c] + t)
  {
    var s := [c] + t;
    forall i | 0 <= i < |s| ensures TagMatch(s, i) == 0 {
      if i > 0 {
        TagMatchCons(c, t, i - 1);
      } else if c == '<' {
        assert s[1..] == t;
      }
    }
  }

  /** A character that starts no tag is kept; in front of a tag-free rest of the
      substitution it leaves no tag. */
  lemma KeepNoTag(s: string, i: nat)
    requires i < |s| && Regex.MatchAt(TagMatch, s, i) == 0
    requires NoTag(Regex.SubFrom(TagMatch, " ", s, i + 1))
    ensures NoTag(Regex.SubFrom(TagMatch, " ", s, i))
  {
    var rest := Regex.SubFrom(TagMatch, " ", s, i + 1);
    assert Regex.SubFrom(TagMatch, " ", s, i) == [s[i]] + rest;
    if s[i] == '<' {
      assert TagMatch(s, i) == 0;
      if i + 1 < |s| && s[i + 1] == '>' {
        assert Regex.MatchAt(TagMatch, s, i + 1) == 0;
        assert rest == [s[i + 1]] + Regex.SubFrom(TagMatch, " ", s, i + 2);
      } else {
        Regex.SubFromChars(TagMatch, " ", s, i + 1);
        assert '>' !in s[i + 1..];
      }
    }
    NoTagCons(s[i], rest);
  }

  /** A tag becomes a space; in front of a tag-free rest it leaves no tag. */
  lemma ReplaceNoTag(s: string, i: nat)
    requires i < |s| && Regex.MatchAt(TagMatch, s, i) > 0
    requires NoTag(Regex.SubFrom(TagMatch, " ", s, i + Regex.MatchAt(TagMatch, s, i)))
    ensures NoTag(Regex.SubFrom(TagMatch, " ", s, i))
  {
    var rest := Regex.SubFrom(TagMatch, " ", s, i + Regex.MatchAt(TagMatch, s, i));
    assert Regex.SubFrom(TagMatch, " ", s, i) == [' '] + rest;
    NoTagCons(' ', rest);
  }

  /** One step of the scan leaves no tag in front of a tag-free rest. */
  lemma NoTagStep(s: string, i: nat)
    requires i < |s|
    requires Regex.MatchAt(TagMatch, s, i) > 0 ==>
      NoTag(Regex.SubFrom(TagMatch, " ", s, i + Regex.MatchAt(TagMatch, s, i)))
    requires Regex.MatchAt(TagMatch, s, i) == 0 ==> NoTag(Regex.SubFrom(TagMatch, " ", s, i + 1))
    ensures NoTag(Regex.SubFrom(TagMatch, " ", s, i))
  {
    if Regex.MatchAt(TagMatch, s, i) > 0 {
      ReplaceNoTag(s, i);
    } else {
      KeepNoTag(s, i);
    }
  }

  lemma {:induction false} SubFromNoTag(s: string, i: nat)
    requires i <= |s|
    ensures NoTag(Regex.SubFrom(TagMatch, " ", s, i))
    decreases |s| - i
  {
    if i < |s| {
      var n := Regex.MatchAt(TagMatch, s, i);
      if n > 0 {
        SubFromNoTag(s, i + n);
      } else {
        SubFromNoTag(s, i + 1);
      }
      NoTagStep(s, i);
    }
  }

  /** A piece of a tag-free string is tag-free. */
  lemma NoTagInfix(s: string, a: nat, b: nat, r: string)
    requires a <= b <= |s| && r == s[a..b] && NoTag(s)
    ensures NoTag(r)
  {
    forall j | 0 <= j < |r| ensures TagMatch(r, j) == 0 {
      if r[j] == '<' {
        assert s[a + j] == '<' && TagMatch(s, a + j) == 0;
        if j + 1 < |r| {
          assert r[j + 1] == s[a + j + 1];
          if '>' in r[j + 1..] {
            var m :| 0 <= m < |r[j + 1..]| && r[j + 1..][m] == '>';
            assert s[a + j + 1..][m] == '>';
          }
        }
      }
    }
  }

  lemma NoTagStrip(s: string)
    requires NoTag(s)
    ensures NoTag(Strip(s))
  {
    var r := Strip(s);
    NoTagInfix(s, StripOffset(s), StripOffset(s) + |r|, r);
  }

  /** The result has no tag left in it and no whitespace at either end. */
  lemma CleanHtmlShape(raw: Option<string>)
    ensures NoTag(CleanHtml(raw))
    ensures CleanHtml(raw) != [] ==> !IsSpace(CleanHtml(raw)[0]) && !IsSpace(CleanHtml(raw)[|CleanHtml(raw)| - 1])
  {
    SubFromNoTag(OrElse(raw, ""), 0);
    NoTagStrip(Regex.Sub(TagMatch, " ", OrElse(raw, "")));
  }

  /** A missing description gives the empty string. */
  lemma CleanHtmlMissing()
    ensures CleanHtml(None) == []
  {
    assert Regex.Sub(TagMatch, " ", OrElse(None, "")) == [];
  }

  /** Text without '<' only loses its surrounding whitespace. */
  lemma CleanHtmlPlain(raw: string)
    requires '<' !in raw
    ensures CleanHtml(Some(raw)) == Strip(raw)
  {
    forall j | 0 <= j < |raw| ensures Regex.MatchAt(TagMatch, raw, j) == 0 {
      assert raw[j] in raw;
    }
    Regex.SubNoMatch(TagMatch, " ", raw);
  }

  // ---------------------------------------------------------------- the WWR title split

  /** The two halves of a We Work Remotely title, "Company: Job Title". */
  datatype TitleParts = TitleParts(title: string, company: string)

  /** `title_raw.split(":", 1)`, both halves stripped; no ':' means no company. */
  function SplitTitle(raw: string): (r: TitleParts)
    ensures ':' !in raw ==> r == TitleParts(raw, "")
  {
    var i := IndexOf(raw, ':');
    if i == |raw| then TitleParts(raw, "")
    else TitleParts(Strip(raw[i + 1..]), Strip(raw[..i]))
  }

  /** The split is at the first ':': the company is the stripped text before it and
      the title the stripped text after it, colons included. */
  lemma SplitTitleFirstColon(company: string, title: string)
    requires ':' !in company
    ensures SplitTitle(company + ":" + title) == TitleParts(Strip(title), Strip(company))
  {
    var raw := company + ":" + title;
    assert raw[|company|] == ':';
    assert forall j :: 0 <= j < |company| ==> raw[j] == company[j];
    assert IndexOf(raw, ':') == |company|;
    assert raw[..|company|] == company;
    assert raw[|company| + 1..] == title;
  }

  /** No company without a ':', and a company never contains one. */
  lemma SplitTitleCompany(raw: string)
    ensures ':' !in SplitTitle(raw).company
    ensures SplitTitle(raw).company != [] ==> ':' in raw
  {
    var i := IndexOf(raw, ':');
    if i < |raw| {
      var c := Strip(raw[..i]);
      assert forall x :: x in c ==> x in raw[..i] by {
        assert c == raw[..i][StripOffset(raw[..i])..StripOffset(raw[..i]) + |c|];
      }
      assert raw[i] in raw;
    }
  }
}
