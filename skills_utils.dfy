/**
 * `SkillsExtractor` (utils/skills_utils.py): construction installs a sentence
 * splitter at the front of the language pipeline unless one is there, and
 * `extract_skills` turns the phrase matcher's matches into a dictionary from
 * lower-cased skill text to the sentence of its first mention.
 *
 * Tokenisation, sentence segmentation and phrase matching are spaCy's; here a
 * parsed document is its tokens and a token-to-sentence function, and the
 * matches are given.  A dict is a sequence of (key, value) entries in insertion
 * order with distinct keys.
 */
module SkillsUtils {
  import opened PyText
  import Collections

  const Sentencizer := "sentencizer"

  /** `pipe_names` after `if not nlp.has_pipe("sentencizer"): nlp.add_pipe("sentencizer", first=True)` */
  function InstallSentencizer(names: seq<string>): seq<string> {
    if Sentencizer in names then names else [Sentencizer] + names
  }

  /** Installing twice is installing once. */
  lemma InstallIdempotent(names: seq<string>)
    ensures InstallSentencizer(InstallSentencizer(names)) == InstallSentencizer(names)
  {
    assert Sentencizer in [Sentencizer] + names;
  }

  /** The splitter is present exactly once afterwards (pipe names are unique), and it is
      first whenever it was added. */
  lemma InstallOnce(names: seq<string>)
    requires Collections.Distinct(names)
    ensures Sentencizer in InstallSentencizer(names)
    ensures Collections.Distinct(InstallSentencizer(names))
    ensures Sentencizer !in names ==> InstallSentencizer(names)[0] == Sentencizer
  {
    if Sentencizer !in names {
      var r := [Sentencizer] + names;
      forall i, j | 0 <= i < j < |r| ensures r[i] != r[j] {
        if i == 0 {
          assert r[j] == names[j - 1];
        } else {
          assert r[i] == names[i - 1] && r[j] == names[j - 1];
        }
      }
    }
  }

  /** The other components, and their order, are untouched. */
  lemma InstallKeepsRest(names: seq<string>)
    ensures Without(InstallSentencizer(names), Sentencizer) == Without(names, Sentencizer)
  {
    if Sentencizer !in names {
      assert ([Sentencizer] + names)[1..] == names;
    }
  }

  /** xs with every occurrence of x removed. */
  function Without(xs: seq<string>, x: string): seq<string> {
    if xs == [] then [] else (if xs[0] == x then [] else [xs[0]]) + Without(xs[1..], x)
  }

  /** The language pipeline, as far as its component list goes. */
  class Pipeline {
    var names: seq<string>

    constructor (names0: seq<string>)
      ensures names == names0
    {
      names := names0;
    }

    predicate HasPipe(name: string)
      reads this
    {
      name in names
    }

    /** `add_pipe(name, first=True)`; a name already in use is refused. */
    method AddPipeFirst(name: string)
      requires name !in names
      modifies this
      ensures names == [name] + old(names)
    {
      names := [name] + names;
    }
  }

  /** A token: its text and the whitespace after it. */
  datatype Token = Token(text: string, ws: string)

  /** A parsed document: its tokens, and the text of the sentence holding each token. */
  datatype Doc = Doc(tokens: seq<Token>, sentenceOf: nat -> string)

  /** One phrase-matcher match `(match_id, start, end)`, a token range. */
  datatype Match = Match(id: nat, start: nat, end: nat)

  /** The matcher reports non-empty token ranges inside the document. */
  predicate ValidMatches(doc: Doc, matches: seq<Match>) {
    forall i :: 0 <= i < |matches| ==> matches[i].start < matches[i].end <= |doc.tokens|
  }

  /** `doc[start:end].text`: the tokens with the whitespace between them. */
  function SpanText(tokens: seq<Token>, start: nat, end: nat): string
    requires start < end <= |tokens|
    decreases end - start
  {
    if start + 1 == end then tokens[start].text
    else tokens[start].text + tokens[start].ws + SpanText(tokens, start + 1, end)
  }

  /** A dictionary entry: skill key and sentence. */
  type Entry = (string, string)

  function SkillOf(e: Entry): string { e.0 }

  /** What each match would contribute: `(doc[start:end].text.lower(), doc[start].sent.text.strip())`. */
  function Candidates(doc: Doc, matches: seq<Match>): (cs: seq<Entry>)
    requires ValidMatches(doc, matches)
    ensures |cs| == |matches|
  {
    seq(|matches|, i requires 0 <= i < |matches| =>
      (Lower(SpanText(doc.tokens, matches[i].start, matches[i].end)),
       Strip(doc.sentenceOf(matches[i].start))))
  }

  /** The dictionary `extract_skills` builds: the first candidate of every key. */
  function Skills(doc: Doc, matches: seq<Match>): seq<Entry>
    requires ValidMatches(doc, matches)
  {
    Collections.DedupBy(Candidates(doc, matches), SkillOf)
  }

  class SkillsExtractor {
    var nlp: Pipeline
    /** Running the pipeline on a text, and the phrase matcher on the resulting document. */
    const parse: string -> Doc
    const matcher: Doc -> seq<Match>

    /** `__init__` with both collaborators given: installs the sentence splitter. */
    constructor (nlp0: Pipeline, parse0: string -> Doc, matcher0: Doc -> seq<Match>)
      modifies nlp0
      ensures nlp == nlp0 && parse == parse0 && matcher == matcher0
      ensures nlp0.names == InstallSentencizer(old(nlp0.names))
    {
      if !nlp0.HasPipe(Sentencizer) {
        nlp0.AddPipeFirst(Sentencizer);
      }
      nlp := nlp0;
      parse := parse0;
      matcher := matcher0;
    }

    /** `extract_skills(text)` */
    method ExtractSkills(text: string) returns (results: seq<Entry>)
      requires ValidMatches(parse(text), matcher(parse(text)))
      ensures results == Skills(parse(text), matcher(parse(text)))
    {
      var doc := parse(text);
      var matches := matcher(doc);
      var cands := Candidates(doc, matches);
      var seen: set<string> := {};
      results := [];
      for i := 0 to |matches|
        invariant results == Collections.DedupBy(cands[..i], SkillOf)
        invariant forall k :: k in seen <==> k in Collections.Keys(results, SkillOf)
      {
        var skill := Lower(SpanText(doc.tokens, matches[i].start, matches[i].end));
        assert cands[..i + 1][..i] == cands[..i];
        assert cands[..i + 1][i] == cands[i] == (skill, Strip(doc.sentenceOf(matches[i].start)));
        if skill !in seen {
          seen := seen + {skill};
          Collections.KeysSnoc(results, cands[i], SkillOf);
          results := results + [(skill, Strip(doc.sentenceOf(matches[i].start)))];
        }
      }
      assert cands[..|matches|] == cands;
    }
  }

  /** Every key is the lower-cased text of some match, and every match's lower-cased
      text is a key; there are no more keys than matches. */
  lemma SkillKeys(doc: Doc, matches: seq<Match>, k: string)
    requires ValidMatches(doc, matches)
    ensures k in Collections.Keys(Skills(doc, matches), SkillOf) <==>
      exists i :: 0 <= i < |matches| && k == Lower(SpanText(doc.tokens, matches[i].start, matches[i].end))
    ensures |Skills(doc, matches)| <= |matches|
  {
    var cs := Candidates(doc, matches);
    Collections.DedupKeyIn(cs, SkillOf, k);
    if exists i :: 0 <= i < |matches| && k == Lower(SpanText(doc.tokens, matches[i].start, matches[i].end)) {
      var i :| 0 <= i < |matches| && k == Lower(SpanText(doc.tokens, matches[i].start, matches[i].end));
      assert SkillOf(cs[i]) == k;
      assert Collections.Keys(cs, SkillOf)[i] == k;
    }
    if k in Collections.Keys(cs, SkillOf) {
      var j :| 0 <= j < |cs| && Collections.Keys(cs, SkillOf)[j] == k;
      assert SkillOf(cs[j]) == Lower(SpanText(doc.tokens, matches[j].start, matches[j].end));
    }
  }

  /** Each key appears once, with the stripped sentence of the first match whose
      lower-cased text is that key; later repeats are ignored. */
  lemma SkillFirstMentionWins(doc: Doc, matches: seq<Match>)
    requires ValidMatches(doc, matches)
    ensures Collections.DistinctKeys(Skills(doc, matches), SkillOf)
    ensures forall a :: 0 <= a < |Skills(doc, matches)| ==>
      var i := Collections.FirstIndex(Candidates(doc, matches), SkillOf, Skills(doc, matches)[a].0);
      i < |matches| && Skills(doc, matches)[a].1 == Strip(doc.sentenceOf(matches[i].start))
  {
    Collections.DedupKeys(Candidates(doc, matches), SkillOf);
    Collections.DedupFirst(Candidates(doc, matches), SkillOf);
  }

  /** Keys come in the order of their first mention. */
  lemma SkillOrder(doc: Doc, matches: seq<Match>)
    requires ValidMatches(doc, matches)
    ensures forall a, b :: 0 <= a < b < |Skills(doc, matches)| ==>
      Collections.FirstIndex(Candidates(doc, matches), SkillOf, Skills(doc, matches)[a].0)
        < Collections.FirstIndex(Candidates(doc, matches), SkillOf, Skills(doc, matches)[b].0)
  {
    Collections.DedupOrder(Candidates(doc, matches), SkillOf);
  }

  /** No match, no entry: never an error. */
  lemma NoMatchNoSkills(doc: Doc)
    ensures Skills(doc, []) == []
  {
  }

  /** Keys are lower case: lower-casing them again changes nothing. */
  lemma SkillKeysLower(doc: Doc, matches: seq<Match>)
    requires ValidMatches(doc, matches)
    ensures forall a :: 0 <= a < |Skills(doc, matches)| ==>
      Lower(Skills(doc, matches)[a].0) == Skills(doc, matches)[a].0
  {
    var cs := Candidates(doc, matches);
    Collections.DedupFirst(cs, SkillOf);
    forall i | 0 <= i < |cs| ensures Lower(cs[i].0) == cs[i].0 {
      LowerIdempotent(SpanText(doc.tokens, matches[i].start, matches[i].end));
    }
  }
}
