/**
 * The redaction steps that the résumé classifier and the dataset builder share:
 * the character filter, whitespace collapsing, labelled substitution rules,
 * the ZIP-code pattern, and splicing `[LABEL]` over named-entity spans.
 */
module Redaction {
  import opened PyText
  import Regex
  import Collections

  /** The characters kept by `re.sub(r'[^a-zA-Z0-9\s\.\,\-\/\(\)\@\+]', '', text)`. */
  predicate IsAllowedChar(c: char) {
    || IsAsciiLetter(c) || IsDigit(c) || IsSpace(c)
    || c == '.' || c == ',' || c == '-' || c == '/' || c == '(' || c == ')' || c == '@' || c == '+'
  }

  /** Drop every character outside the allow-set, keeping the order of the rest. */
  function FilterAllowed(s: string): (r: string)
    ensures |r| <= |s|
    ensures forall c :: c in r ==> c in s && IsAllowedChar(c)
  {
    Collections.Filter(s, IsAllowedChar)
  }

  /** The classifier's first two steps: filter, then collapse whitespace runs to a space and strip. */
  function NormalizeResume(s: string): string {
    Normalize(FilterAllowed(s))
  }

  /** Every character is in the allow-set, whitespace is single ' ' characters,
      and there is no space at either end. */
  lemma NormalizeResumeShape(s: string)
    ensures forall c :: c in NormalizeResume(s) ==> IsAllowedChar(c)
    ensures Normalized(NormalizeResume(s))
  {
    NormalizeChars(FilterAllowed(s));
  }

  lemma BracketsDropped()
    ensures FilterAllowed("[") == [] && FilterAllowed("]") == []
  {
    assert !IsAllowedChar('[');
    assert !IsAllowedChar(']');
  }

  /** The square brackets of a token are not in the allow-set, so a second pass
      through the filter turns `[EMAIL]` back into `EMAIL`: cleaning is not idempotent. */
  lemma FilterDropsTokenBrackets(name: string)
    requires forall i :: 0 <= i < |name| ==> IsAllowedChar(name[i])
    ensures FilterAllowed(Token(name)) == name
  {
    Collections.FilterAll(name, IsAllowedChar);
    Collections.FilterConcat("[", name, IsAllowedChar);
    Collections.FilterConcat("[" + name, "]", IsAllowedChar);
    BracketsDropped();
  }

  /** The replacement text for a label. */
  function Token(name: string): string {
    "[" + name + "]"
  }

  /** A substitution rule: every match of `pattern` becomes `[label]`. */
  datatype Rule = Rule(name: string, pattern: Regex.Matcher)

  /** `for label, pattern in rules: text = pattern.sub(f'[{label}]', text)` */
  function ApplyRules(text: string, rules: seq<Rule>): string
    decreases |rules|
  {
    if rules == [] then text
    else ApplyRules(Regex.Sub(rules[0].pattern, Token(rules[0].name), text), rules[1..])
  }

  lemma {:induction false} ApplyRulesConcat(text: string, r1: seq<Rule>, r2: seq<Rule>)
    ensures ApplyRules(text, r1 + r2) == ApplyRules(ApplyRules(text, r1), r2)
    decreases |r1|
  {
    if r1 == [] {
      assert r1 + r2 == r2;
    } else {
      var t := Regex.Sub(r1[0].pattern, Token(r1[0].name), text);
      assert (r1 + r2)[0] == r1[0];
      assert (r1 + r2)[1..] == r1[1..] + r2;
      assert ApplyRules(text, r1 + r2) == ApplyRules(t, r1[1..] + r2);
      assert ApplyRules(text, r1) == ApplyRules(t, r1[1..]);
      ApplyRulesConcat(Regex.Sub(r1[0].pattern, Token(r1[0].name), text), r1[1..], r2);
    }
  }

  /** No rule matches anywhere in the text as it stands when that rule runs. */
  predicate NoRuleMatches(text: string, rules: seq<Rule>)
    decreases |rules|
  {
    rules != [] ==>
      Regex.NoMatchFrom(rules[0].pattern, text, 0) && NoRuleMatches(text, rules[1..])
  }

  lemma {:induction false} ApplyRulesNoMatch(text: string, rules: seq<Rule>)
    requires NoRuleMatches(text, rules)
    ensures ApplyRules(text, rules) == text
    decreases |rules|
  {
    if rules != [] {
      Regex.SubNoMatch(rules[0].pattern, Token(rules[0].name), text);
      ApplyRulesNoMatch(text, rules[1..]);
    }
  }

  /** Every character of the result is from the text or from one of the tokens. */
  lemma {:induction false} ApplyRulesChars(text: string, rules: seq<Rule>)
    ensures forall c :: c in ApplyRules(text, rules) ==>
      c in text || exists i :: 0 <= i < |rules| && c in Token(rules[i].name)
    decreases |rules|
  {
    if rules != [] {
      var t := Regex.Sub(rules[0].pattern, Token(rules[0].name), text);
      Regex.SubChars(rules[0].pattern, Token(rules[0].name), text);
      ApplyRulesChars(t, rules[1..]);
      forall c | c in ApplyRules(text, rules)
        ensures c in text || exists i :: 0 <= i < |rules| && c in Token(rules[i].name)
      {
        if !(c in t) {
          var i :| 0 <= i < |rules[1..]| && c in Token(rules[1..][i].name);
          assert rules[1..][i] == rules[i + 1];
        } else if c !in text {
          assert c in Token(rules[0].name);
        }
      }
    }
  }

  /** n ASCII digits at s[i..i+n]. */
  predicate Digits(s: string, i: nat, n: nat) {
    i + n <= |s| && forall j :: i <= j < i + n ==> IsDigit(s[j])
  }

  /** The ZIP pattern `\b\d{5}(?:-\d{4})?\b|\b\d{6}\b` at position i: the optional
      `-dddd` group is tried first, then the plain five digits, then six digits. */
  function ZipMatch(s: string, i: nat): (n: nat)
    ensures n == 0 || n == 5 || n == 6 || n == 10
    ensures n > 0 ==> i + n <= |s| && IsDigit(s[i]) && WordBoundary(s, i) && WordBoundary(s, i + n)
    ensures n == 5 || n == 6 ==> Digits(s, i, n)
    ensures n == 10 <==> WordBoundary(s, i) && Digits(s, i, 5) && i + 10 <= |s| && s[i + 5] == '-'
                         && Digits(s, i + 6, 4) && WordBoundary(s, i + 10)
    ensures WordBoundary(s, i) && Digits(s, i, 5) && WordBoundary(s, i + 5) ==> n == 5 || n == 10
    ensures WordBoundary(s, i) && Digits(s, i, 6) && WordBoundary(s, i + 6) ==> n == 6
  {
    if !WordBoundary(s, i) then 0
    else if Digits(s, i, 5) && i + 10 <= |s| && s[i + 5] == '-' && Digits(s, i + 6, 4)
      && WordBoundary(s, i + 10) then 10
    else if Digits(s, i, 5) && WordBoundary(s, i + 5) then 5
    else if Digits(s, i, 6) && WordBoundary(s, i + 6) then 6
    else 0
  }

  /** No ASCII digit in s. */
  predicate NoDigits(s: string) {
    forall j :: 0 <= j < |s| ==> !IsDigit(s[j])
  }

  /** A five-digit code between word boundaries, in a text with no other digits, is
      replaced by `[ZIP]` and the rest of the text is kept. */
  lemma ZipRedacted(pre: string, code: string, post: string)
    requires |code| == 5 && Digits(code, 0, 5) && NoDigits(pre) && NoDigits(post)
    requires pre == [] || !IsWordChar(pre[|pre| - 1])
    requires post == [] || !IsWordChar(post[0])
    ensures Regex.Sub(ZipMatch, Token("ZIP"), pre + code + post) == pre + Token("ZIP") + post
  {
    var s := pre + code + post;
    var k, z := |pre|, Token("ZIP");
    forall p | 0 <= p < k ensures Regex.MatchAt(ZipMatch, s, p) == 0 {
      assert s[p] == pre[p];
      ZipNoDigitAt(s, p);
    }
    Regex.SubFromCopyUpTo(ZipMatch, z, s, 0, k);
    ZipCodeAt(pre, code, post);
    Regex.SubFromReplace(ZipMatch, z, s, k, k + 5);
    forall p | k + 5 <= p < |s| ensures Regex.MatchAt(ZipMatch, s, p) == 0 {
      assert s[p] == post[p - k - 5];
      ZipNoDigitAt(s, p);
    }
    Regex.SubFromNoMatch(ZipMatch, z, s, k + 5);
    assert s[0..k] == pre && s[k + 5..] == post;
    Assoc(pre, z, post);
  }

  lemma ZipCodeAt(pre: string, code: string, post: string)
    requires |code| == 5 && Digits(code, 0, 5) && NoDigits(post)
    requires pre == [] || !IsWordChar(pre[|pre| - 1])
    requires post == [] || !IsWordChar(post[0])
    ensures Regex.MatchAt(ZipMatch, pre + code + post, |pre|) == 5
  {
    var s, k := pre + code + post, |pre|;
    assert s[k..k + 5] == code;
    assert Digits(s, k, 5);
    assert k > 0 ==> s[k - 1] == pre[k - 1];
    assert WordBoundary(s, k);
    assert k + 5 < |s| ==> s[k + 5] == post[0];
    assert WordBoundary(s, k + 5);
    assert k + 10 <= |s| ==> s[k + 6] == post[1] && !IsDigit(s[k + 6]);
  }

  /** The example of a ZIP code in running text. */
  lemma ZipRedactsCode()
    ensures Regex.Sub(ZipMatch, Token("ZIP"), "zip 90210.") == "zip [ZIP]."
  {
    var pre, code, post := "zip ", "90210", ".";
    assert Digits(code, 0, 5) && NoDigits(pre) && NoDigits(post);
    assert !IsWordChar(pre[3]) && !IsWordChar(post[0]);
    ZipRedacted(pre, code, post);
    assert pre + code + post == "zip 90210.";
    assert pre + Token("ZIP") + post == "zip [ZIP].";
  }

  lemma ZipNoDigitAt(s: string, i: nat)
    requires i < |s| && !IsDigit(s[i])
    ensures Regex.MatchAt(ZipMatch, s, i) == 0
  {
  }

  /** A text without digits has no ZIP code to redact. */
  lemma ZipNeedsDigit(s: string)
    requires forall i :: 0 <= i < |s| ==> !IsDigit(s[i])
    ensures Regex.Sub(ZipMatch, Token("ZIP"), s) == s
  {
    assert forall j :: 0 <= j < |s| ==> Regex.MatchAt(ZipMatch, s, j) == 0;
    Regex.SubNoMatch(ZipMatch, Token("ZIP"), s);
  }

  /** A named-entity span: `ent.start_char`, `ent.end_char`, `ent.label_`. */
  datatype Span = Span(start: nat, end: nat, kind: string)

  /** Python's clamping of a slice bound n to a sequence of length len. */
  function Clamp(n: nat, len: nat): nat {
    if n <= len then n else len
  }

  /** `text[:start] + f"[{label}]" + text[end:]` when the label is allow-listed. */
  function Splice(text: string, sp: Span, allow: seq<string>): string {
    if sp.kind in allow then
      text[..Clamp(sp.start, |text|)] + Token(sp.kind) + text[Clamp(sp.end, |text|)..]
    else text
  }

  /** The reversed loop over the entities: the last span is spliced first. */
  function SpliceAll(text: string, spans: seq<Span>, allow: seq<string>): string
    decreases |spans|
  {
    if spans == [] then text
    else SpliceAll(Splice(text, spans[|spans| - 1], allow), spans[..|spans| - 1], allow)
  }

  /** Spans in increasing, non-overlapping order inside [from, to]. */
  predicate Ordered(spans: seq<Span>, from: nat, to: nat)
    ensures Ordered(spans, from, to) ==> from <= to
    decreases |spans|
  {
    if spans == [] then from <= to
    else from <= spans[0].start <= spans[0].end && Ordered(spans[1..], spans[0].end, to)
  }

  /** What a span contributes in a single left-to-right pass. */
  function Piece(text: string, sp: Span, allow: seq<string>): string
    requires sp.start <= sp.end <= |text|
  {
    if sp.kind in allow then Token(sp.kind) else text[sp.start..sp.end]
  }

  /** The reference redaction of text[from..to]: the text between spans is copied,
      allow-listed spans become their token and the others are copied. */
  function Render(text: string, spans: seq<Span>, allow: seq<string>, from: nat, to: nat): string
    requires to <= |text| && Ordered(spans, from, to)
    decreases |spans|
  {
    if spans == [] then text[from..to]
    else
      text[from..spans[0].start] + Piece(text, spans[0], allow)
        + Render(text, spans[1..], allow, spans[0].end, to)
  }

  lemma {:induction false} OrderedSnoc(init: seq<Span>, last: Span, from: nat, to: nat)
    ensures Ordered(init + [last], from, to) <==>
      Ordered(init, from, last.start) && last.start <= last.end <= to
    decreases |init|
  {
    if init == [] {
      assert [last][1..] == [];
    } else {
      assert (init + [last])[1..] == init[1..] + [last];
      OrderedSnoc(init[1..], last, init[0].end, to);
    }
  }

  lemma SliceOfPrefix(s: string, to: nat, a: nat, b: nat)
    requires a <= b <= to <= |s|
    ensures s[a..b] == s[..to][a..b]
  {
    assert forall k :: 0 <= k < b - a ==> s[a..b][k] == s[..to][a..b][k];
  }

  /** Render only reads text[..to]. */
  lemma {:induction false} RenderLocal(t1: string, t2: string, spans: seq<Span>, allow: seq<string>, from: nat, to: nat)
    requires to <= |t1| && to <= |t2| && t1[..to] == t2[..to] && Ordered(spans, from, to)
    ensures Render(t1, spans, allow, from, to) == Render(t2, spans, allow, from, to)
    decreases |spans|
  {
    if spans == [] {
      SliceOfPrefix(t1, to, from, to);
      SliceOfPrefix(t2, to, from, to);
    } else {
      var sp := spans[0];
      SliceOfPrefix(t1, to, from, sp.start);
      SliceOfPrefix(t2, to, from, sp.start);
      SliceOfPrefix(t1, to, sp.start, sp.end);
      SliceOfPrefix(t2, to, sp.start, sp.end);
      RenderLocal(t1, t2, spans[1..], allow, sp.end, to);
    }
  }

  /** Widening the window copies the extra text unchanged. */
  lemma {:induction false} RenderExtend(text: string, spans: seq<Span>, allow: seq<string>, from: nat, to: nat, to': nat)
    requires to <= to' <= |text| && Ordered(spans, from, to)
    ensures Ordered(spans, from, to')
    ensures Render(text, spans, allow, from, to') == Render(text, spans, allow, from, to) + text[to..to']
    decreases |spans|
  {
    if spans == [] {
      assert text[from..to'] == text[from..to] + text[to..to'];
    } else {
      var sp := spans[0];
      var head := text[from..sp.start] + Piece(text, sp, allow);
      RenderExtend(text, spans[1..], allow, sp.end, to, to');
      var tail := Render(text, spans[1..], allow, sp.end, to);
      calc {
        Render(text, spans, allow, from, to');
        head + Render(text, spans[1..], allow, sp.end, to');
        head + (tail + text[to..to']);
        (head + tail) + text[to..to'];
        Render(text, spans, allow, from, to) + text[to..to'];
      }
    }
  }

  /** Render with one more span at the end. */
  lemma {:induction false} RenderSnoc(text: string, init: seq<Span>, last: Span, allow: seq<string>, from: nat, to: nat)
    requires to <= |text| && Ordered(init, from, last.start) && last.start <= last.end <= to
    ensures Ordered(init + [last], from, to)
    ensures Render(text, init + [last], allow, from, to)
      == Render(text, init, allow, from, last.start) + Piece(text, last, allow) + text[last.end..to]
    decreases |init|
  {
    OrderedSnoc(init, last, from, to);
    if init == [] {
      assert [last][1..] == [];
    } else {
      OrderedSnoc(init[1..], last, init[0].end, to);
      RenderSnoc(text, init[1..], last, allow, init[0].end, to);
      RenderSnocCons(text, init, last, allow, from, to);
    }
  }

  /** The step of RenderSnoc: the statement for the spans after the first gives the
      statement for all of them. */
  lemma RenderSnocCons(text: string, init: seq<Span>, last: Span, allow: seq<string>, from: nat, to: nat)
    requires to <= |text| && init != [] && Ordered(init, from, last.start) && last.start <= last.end <= to
    requires Ordered(init[1..] + [last], init[0].end, to)
    requires Render(text, init[1..] + [last], allow, init[0].end, to)
      == Render(text, init[1..], allow, init[0].end, last.start) + Piece(text, last, allow) + text[last.end..to]
    ensures Ordered(init + [last], from, to)
    ensures Render(text, init + [last], allow, from, to)
      == Render(text, init, allow, from, last.start) + Piece(text, last, allow) + text[last.end..to]
  {
    var sp, rest, all := init[0], init[1..], init + [last];
    assert all[0] == sp && all[1..] == rest + [last];
    var head := text[from..sp.start] + Piece(text, sp, allow);
    var mid := Render(text, rest, allow, sp.end, last.start);
    var piece, after := Piece(text, last, allow), text[last.end..to];
    assert Render(text, all, allow, from, to) == head + (mid + piece + after);
    assert Render(text, init, allow, from, last.start) == head + mid;
    Regroup(head, mid, piece, after);
  }

  lemma Regroup(a: string, b: string, c: string, d: string)
    ensures a + (b + c + d) == (a + b) + c + d
  {
  }

  /** Splicing the spans right to left, one at a time, gives the single left-to-right
      rendering whenever the spans are in order, do not overlap and lie inside the
      text: each splice leaves the offsets of the spans before it valid. */
  lemma {:induction false} SpliceOffsetStable(text: string, spans: seq<Span>, allow: seq<string>)
    requires Ordered(spans, 0, |text|)
    ensures SpliceAll(text, spans, allow) == Render(text, spans, allow, 0, |text|)
    decreases |spans|
  {
    if spans != [] {
      var init, last := spans[..|spans| - 1], spans[|spans| - 1];
      assert spans == init + [last];
      var t' := Splice(text, last, allow);
      SpliceLast(text, init, last, allow);
      SpliceOffsetStable(t', init, allow);
    }
  }

  /** One splice of the last span: the rendering of the other spans in the
      new text is the rendering of all the spans in the old one. */
  lemma SpliceLast(text: string, init: seq<Span>, last: Span, allow: seq<string>)
    requires Ordered(init + [last], 0, |text|)
    ensures Ordered(init, 0, |Splice(text, last, allow)|)
    ensures Render(Splice(text, last, allow), init, allow, 0, |Splice(text, last, allow)|)
      == Render(text, init + [last], allow, 0, |text|)
  {
    OrderedSnoc(init, last, 0, |text|);
    RenderSnoc(text, init, last, allow, 0, |text|);
    assert text[last.end..|text|] == text[last.end..];
    SpliceRendersInit(text, init, last, allow);
  }

  /** After splicing a span that follows init, rendering init over the new text gives
      init's rendering over the old text, the span's piece, and the old text after it. */
  lemma SpliceRendersInit(text: string, init: seq<Span>, last: Span, allow: seq<string>)
    requires last.start <= last.end <= |text| && Ordered(init, 0, last.start)
    ensures Ordered(init, 0, |Splice(text, last, allow)|)
    ensures Render(Splice(text, last, allow), init, allow, 0, |Splice(text, last, allow)|)
      == Render(text, init, allow, 0, last.start) + Piece(text, last, allow) + text[last.end..]
  {
    var t' := Splice(text, last, allow);
    var s := last.start;
    SpliceShape(text, last, allow);
    assert t'[s..|t'|] == Piece(text, last, allow) + text[last.end..];
    RenderExtend(t', init, allow, 0, s, |t'|);
    RenderLocal(t', text, init, allow, 0, s);
  }

  /** Splicing a span in bounds keeps the text before it and replaces the span by its piece. */
  lemma SpliceShape(text: string, sp: Span, allow: seq<string>)
    requires sp.start <= sp.end <= |text|
    ensures sp.start <= |Splice(text, sp, allow)|
    ensures Splice(text, sp, allow)[..sp.start] == text[..sp.start]
    ensures Splice(text, sp, allow)[sp.start..] == Piece(text, sp, allow) + text[sp.end..]
  {
    assert text[sp.start..] == text[sp.start..sp.end] + text[sp.end..];
  }

  /** Spans whose labels are not allow-listed change nothing, in any order. */
  lemma {:induction false} SpliceNoneAllowed(text: string, spans: seq<Span>, allow: seq<string>)
    requires forall i :: 0 <= i < |spans| ==> spans[i].kind !in allow
    ensures SpliceAll(text, spans, allow) == text
    decreases |spans|
  {
    if spans != [] {
      SpliceNoneAllowed(text, spans[..|spans| - 1], allow);
    }
  }

  /** The reference rendering of ordered spans with no allow-listed label is the text itself. */
  lemma {:induction false} RenderNoneAllowed(text: string, spans: seq<Span>, allow: seq<string>, from: nat, to: nat)
    requires to <= |text| && Ordered(spans, from, to)
    requires forall i :: 0 <= i < |spans| ==> spans[i].kind !in allow
    ensures Render(text, spans, allow, from, to) == text[from..to]
    decreases |spans|
  {
    if spans != [] {
      var sp := spans[0];
      RenderNoneAllowed(text, spans[1..], allow, sp.end, to);
      assert text[from..to] == text[from..sp.start] + text[sp.start..sp.end] + text[sp.end..to];
    }
  }

  /** `for ent in reversed(doc.ents): if ent.label_ in entities: text = ...` */
  method SpliceEntities(text: string, spans: seq<Span>, allow: seq<string>) returns (r: string)
    ensures r == SpliceAll(text, spans, allow)
  {
    r := text;
    var i := |spans|;
    assert spans[..i] == spans;
    while i > 0
      invariant 0 <= i <= |spans|
      invariant SpliceAll(r, spans[..i], allow) == SpliceAll(text, spans, allow)
    {
      assert spans[..i][..i - 1] == spans[..i - 1];
      if spans[i - 1].kind in allow {
        r := Splice(r, spans[i - 1], allow);
      }
      i := i - 1;
    }
  }

  /** The steps before the entity pass: filter, collapse whitespace, substitute. */
  method Prepare(text: string, rules: seq<Rule>) returns (r: string)
    ensures r == ApplyRules(NormalizeResume(text), rules)
  {
    r := FilterAllowed(text);
    r := Normalize(r);
    r := SubstituteAll(r, rules);
  }

  /** `for label, pattern in rules: text = pattern.sub(f'[{label}]', text)` */
  method SubstituteAll(text: string, rules: seq<Rule>) returns (r: string)
    ensures r == ApplyRules(text, rules)
  {
    r := text;
    var i := 0;
    while i < |rules|
      invariant 0 <= i <= |rules|
      invariant ApplyRules(r, rules[i..]) == ApplyRules(text, rules)
    {
      assert rules[i..][1..] == rules[i + 1..];
      r := Regex.Sub(rules[i].pattern, Token(rules[i].name), r);
      i := i + 1;
    }
  }
}
