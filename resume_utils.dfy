/**
 * `ResumeClassifier` (utils/resume_utils.py): construction with label
 * validation, `clean_resume` (PII redaction) and `classify_resume` (top-k
 * categories).  The loaded models are parameters: the named-entity recogniser
 * is a function from text to entity spans, and the embedder followed by the
 * linear model's `decision_function` is a function from text to one score per
 * class.
 */
module ResumeUtils {
  import opened Wrappers
  import opened PyText
  import opened Redaction
  import Regex
  import Collections

  datatype Error =
    | EmptyResume                                  // ValueError("Resume text is empty.")
    | TopKOutOfRange(classCount: nat, topK: int)   // ValueError("top_k must be between ...")
    | InvalidLabels(labels: seq<string>)           // AssertionError listing the bad labels

  /** A constructed classifier; none of its fields change after construction. */
  datatype Classifier = Classifier(
    patterns: seq<Rule>,          // pii_patterns, in dict order
    entities: seq<string>,        // NER labels to redact
    ner: string -> seq<Span>,     // nlp(text).ents
    classes: seq<string>,         // model.classes_
    scorer: string -> seq<int>)   // decision_function(embedder.encode(text))[0]
  {
    /** The linear model scores every class. */
    ghost predicate Valid() {
      forall t :: |scorer(t)| == |classes|
    }
  }

  /** The five redaction rules in dict order ADDRESS, PHONE, ZIP, POBOX, EMAIL; only ZIP
      is written out, the others are given. */
  function PiiPatterns(address: Regex.Matcher, phone: Regex.Matcher, pobox: Regex.Matcher,
                       email: Regex.Matcher): (rs: seq<Rule>)
    ensures |rs| == 5
    ensures rs[0].name == "ADDRESS" && rs[1].name == "PHONE" && rs[2].name == "ZIP"
      && rs[3].name == "POBOX" && rs[4].name == "EMAIL"
  {
    [Rule("ADDRESS", address), Rule("PHONE", phone), Rule("ZIP", ZipMatch),
     Rule("POBOX", pobox), Rule("EMAIL", email)]
  }

  /** `[e for e in entities if e not in valid_ner_labels]` */
  function UnknownLabels(entities: seq<string>, known: seq<string>): (r: seq<string>)
    ensures |r| <= |entities|
    ensures forall x :: x in r <==> x in entities && x !in known
  {
    if entities == [] then []
    else
      assert entities == [entities[0]] + entities[1..];
      (if entities[0] in known then [] else [entities[0]]) + UnknownLabels(entities[1..], known)
  }

  /** The constructor, past model loading: fails exactly when some requested entity
      label is not one of the recogniser's labels, and then lists those labels. */
  function NewClassifier(address: Regex.Matcher, phone: Regex.Matcher, pobox: Regex.Matcher,
                         email: Regex.Matcher, entities: seq<string>, nerLabels: seq<string>,
                         ner: string -> seq<Span>, classes: seq<string>,
                         scorer: string -> seq<int>): (r: Result<Classifier, Error>)
    ensures r.Success? <==> forall e :: e in entities ==> e in nerLabels
    ensures r.Success? ==> r.value == Classifier(PiiPatterns(address, phone, pobox, email),
                                                 entities, ner, classes, scorer)
    ensures r.Failure? ==> r.error.InvalidLabels? && r.error.labels != []
    ensures r.Failure? ==> forall x :: x in r.error.labels <==> x in entities && x !in nerLabels
  {
    var invalid := UnknownLabels(entities, nerLabels);
    if invalid != [] then
      assert invalid[0] in invalid;
      Failure(InvalidLabels(invalid))
    else Success(Classifier(PiiPatterns(address, phone, pobox, email), entities, ner, classes, scorer))
  }

  /** What `clean_resume` returns or raises. */
  function Clean(c: Classifier, resume: string): Result<string, Error> {
    if IsBlank(resume) then Failure(EmptyResume)
    else
      var text := ApplyRules(NormalizeResume(resume), c.patterns);
      Success(SpliceAll(text, c.ner(text), c.entities))
  }

  /** `clean_resume`, step by step. */
  method CleanResume(c: Classifier, resume: string) returns (r: Result<string, Error>)
    ensures r == Clean(c, resume)
  {
    if Strip(resume) == [] {
      return Failure(EmptyResume);
    }
    var text := Prepare(resume, c.patterns);
    var ents := c.ner(text);
    text := SpliceEntities(text, ents, c.entities);
    return Success(text);
  }

  /** A résumé is rejected exactly when it is empty or all whitespace. */
  lemma CleanRejectsBlank(c: Classifier, resume: string)
    ensures Clean(c, resume).Failure? <==> IsBlank(resume)
    ensures Clean(c, resume).Failure? ==> Clean(c, resume).error == EmptyResume
  {
  }

  /** With the classifier's own rules the text goes through ADDRESS, PHONE, ZIP, POBOX
      and EMAIL in that order, each applied to the previous one's output. */
  lemma RulesInOrder(address: Regex.Matcher, phone: Regex.Matcher, pobox: Regex.Matcher,
                     email: Regex.Matcher, text: string)
    ensures ApplyRules(text, PiiPatterns(address, phone, pobox, email))
      == Regex.Sub(email, "[EMAIL]",
           Regex.Sub(pobox, "[POBOX]",
             Regex.Sub(ZipMatch, "[ZIP]",
               Regex.Sub(phone, "[PHONE]",
                 Regex.Sub(address, "[ADDRESS]", text)))))
  {
    var rs := PiiPatterns(address, phone, pobox, email);
    var t1 := Regex.Sub(address, "[ADDRESS]", text);
    var t2 := Regex.Sub(phone, "[PHONE]", t1);
    var t3 := Regex.Sub(ZipMatch, "[ZIP]", t2);
    var t4 := Regex.Sub(pobox, "[POBOX]", t3);
    var t5 := Regex.Sub(email, "[EMAIL]", t4);
    assert Token("ADDRESS") == "[ADDRESS]" && Token("PHONE") == "[PHONE]" && Token("ZIP") == "[ZIP]";
    assert Token("POBOX") == "[POBOX]" && Token("EMAIL") == "[EMAIL]";
    assert ApplyRules(t5, rs[5..]) == t5;
    assert ApplyRules(t4, rs[4..]) == t5;
    assert ApplyRules(t3, rs[3..]) == t5;
    assert ApplyRules(t2, rs[2..]) == t5;
    assert ApplyRules(t1, rs[1..]) == t5;
  }

  /** When the recogniser's spans are in order and inside the text, every allow-listed
      span becomes its token and all other text is kept. */
  lemma CleanOffsetStable(c: Classifier, resume: string)
    requires !IsBlank(resume)
    requires Ordered(c.ner(ApplyRules(NormalizeResume(resume), c.patterns)), 0,
                     |ApplyRules(NormalizeResume(resume), c.patterns)|)
    ensures var text := ApplyRules(NormalizeResume(resume), c.patterns);
      Clean(c, resume) == Success(Render(text, c.ner(text), c.entities, 0, |text|))
  {
    var text := ApplyRules(NormalizeResume(resume), c.patterns);
    SpliceOffsetStable(text, c.ner(text), c.entities);
  }

  /** Normalized text of allowed characters, with no rule match and no allow-listed
      entity, comes back unchanged. */
  lemma CleanUnchanged(c: Classifier, resume: string)
    requires resume != [] && Normalized(resume)
    requires forall i :: 0 <= i < |resume| ==> IsAllowedChar(resume[i])
    requires NoRuleMatches(resume, c.patterns)
    requires forall i :: 0 <= i < |c.ner(resume)| ==> c.ner(resume)[i].kind !in c.entities
    ensures Clean(c, resume) == Success(resume)
  {
    assert !IsSpace(resume[0]);
    Collections.FilterAll(resume, IsAllowedChar);
    NormalizeFixesNormalized(resume);
    ApplyRulesNoMatch(resume, c.patterns);
    SpliceNoneAllowed(resume, c.ner(resume), c.entities);
  }

  /** After the filter and the collapse: allowed characters only, single spaces, no
      space at either end. */
  lemma CleanedTextShape(resume: string)
    ensures forall ch :: ch in NormalizeResume(resume) ==> IsAllowedChar(ch)
    ensures Normalized(NormalizeResume(resume))
  {
    NormalizeResumeShape(resume);
  }

  function ScoreAt(scores: seq<int>, i: nat): int {
    if i < |scores| then scores[i] else 0
  }

  function Range(n: nat): (r: seq<nat>)
    ensures |r| == n && forall i :: 0 <= i < n ==> r[i] == i
  {
    seq(n, i requires 0 <= i < n => i)
  }

  /** The score of each class index. */
  function ByScore(scores: seq<int>): nat -> int {
    (i: nat) => ScoreAt(scores, i)
  }

  /** `np.argsort(scores)[::-1]`: the class indices by descending score. */
  function Rank(scores: seq<int>): (r: seq<nat>)
    ensures |r| == |scores|
    ensures multiset(r) == multiset(Range(|scores|))
    ensures forall a :: 0 <= a < |r| ==> r[a] < |scores|
    ensures Collections.SortedDesc(r, ByScore(scores))
  {
    var r := Collections.SortDesc(Range(|scores|), ByScore(scores));
    assert forall a :: 0 <= a < |r| ==> r[a] in multiset(Range(|scores|));
    r
  }

  /** `[classes[i] for i in argsort(scores)[::-1][:k]]` */
  function TopLabels(classes: seq<string>, scores: seq<int>, k: nat): (r: seq<string>)
    requires |scores| == |classes| && k <= |classes|
    ensures |r| == k
  {
    var idx := Rank(scores);
    seq(k, j requires 0 <= j < k => classes[idx[j]])
  }

  /** `classify_resume`: the range check on top_k comes before any cleaning. */
  function Classify(c: Classifier, resume: string, topK: int): Result<seq<string>, Error>
    requires c.Valid()
  {
    if !(1 <= topK <= |c.classes|) then Failure(TopKOutOfRange(|c.classes|, topK))
    else match Clean(c, resume)
      case Failure(e) => Failure(e)
      case Success(cleaned) => Success(TopLabels(c.classes, c.scorer(cleaned), topK))
  }

  /** An out-of-range top_k is reported whatever the résumé, even an empty one. */
  lemma ClassifyChecksRangeFirst(c: Classifier, resume: string, topK: int)
    requires c.Valid()
    ensures !(1 <= topK <= |c.classes|) <==> Classify(c, resume, topK) == Failure(TopKOutOfRange(|c.classes|, topK))
  {
  }

  /** The scorer only ever sees the cleaned text: résumés that clean to the same text
      get the same categories, and a valid top_k gives exactly top_k of them. */
  lemma ClassifySeesCleanedText(c: Classifier, r1: string, r2: string, topK: int)
    requires c.Valid() && 1 <= topK <= |c.classes|
    requires Clean(c, r1) == Clean(c, r2)
    ensures Classify(c, r1, topK) == Classify(c, r2, topK)
    ensures Classify(c, r1, topK).Success? <==> !IsBlank(r1)
    ensures Classify(c, r1, topK).Success? ==> |Classify(c, r1, topK).value| == topK
  {
  }

  lemma RankDistinct(scores: seq<int>)
    ensures Collections.Distinct(Rank(scores))
  {
    Collections.SortDistinct(Range(|scores|), ByScore(scores));
  }

  /** Every class index occurs in the ranking. */
  lemma RankCovers(scores: seq<int>, j: nat)
    requires j < |scores|
    ensures exists p :: 0 <= p < |Rank(scores)| && Rank(scores)[p] == j
  {
    assert Range(|scores|)[j] == j;
    assert j in multiset(Rank(scores));
  }

  /** The first k indices of the ranking: in range, distinct, by non-increasing
      score, and no omitted class scores above the last one kept. */
  lemma TopKIndices(scores: seq<int>, k: nat)
    requires 1 <= k <= |scores|
    ensures forall a :: 0 <= a < k ==> Rank(scores)[a] < |scores|
    ensures forall a, b :: 0 <= a < b < k ==> Rank(scores)[a] != Rank(scores)[b]
    ensures forall a, b :: 0 <= a < b < k ==> scores[Rank(scores)[a]] >= scores[Rank(scores)[b]]
    ensures forall j :: 0 <= j < |scores| && j !in Rank(scores)[..k] ==>
      scores[j] <= scores[Rank(scores)[k - 1]]
  {
    var r := Rank(scores);
    RankDistinct(scores);
    forall a, b | 0 <= a < b < k ensures scores[r[a]] >= scores[r[b]] {
      assert ByScore(scores)(r[a]) >= ByScore(scores)(r[b]);
    }
    forall j | 0 <= j < |scores| && j !in r[..k] ensures scores[j] <= scores[r[k - 1]] {
      RankCovers(scores, j);
      var p :| 0 <= p < |r| && r[p] == j;
      assert ByScore(scores)(r[k - 1]) >= ByScore(scores)(r[p]);
    }
  }

  /** With distinct class names the returned labels are distinct, and each is a class. */
  lemma TopLabelsDistinct(classes: seq<string>, scores: seq<int>, k: nat)
    requires |scores| == |classes| && k <= |classes|
    requires Collections.Distinct(classes)
    ensures Collections.Distinct(TopLabels(classes, scores, k))
    ensures forall a :: 0 <= a < k ==> TopLabels(classes, scores, k)[a] in classes
  {
    RankDistinct(scores);
  }
}
