/**
 * The dataset builder (models/compose_dataset.py): the table that maps the
 * source data set's fine-grained categories onto twelve broad ones, and
 * `clean`, the redaction used when the training set is written.  `clean` filters
 * and collapses each text as the classifier does, but runs the rules in the order
 * EMAIL, PHONE, PO Box, ADDRESS, ZIP and writes PO Box matches as `[ADDRESS]`.
 */
module DatasetCategories {
  import opened Wrappers

  /** CATEGORY_MAP */
  const CategoryMap: map<string, string> := map[
    "Electrical Engineering" := "Engineering",
    "Mechanical Engineer" := "Engineering",
    "Civil Engineer" := "Engineering",
    "Architecture" := "Engineering",
    "Java Developer" := "Technology",
    "Python Developer" := "Technology",
    "React Developer" := "Technology",
    "DotNet Developer" := "Technology",
    "SAP Developer" := "Technology",
    "ETL Developer" := "Technology",
    "SQL Developer" := "Technology",
    "DevOps" := "Technology",
    "Database" := "Technology",
    "Network Security Engineer" := "Technology",
    "Information Technology" := "Technology",
    "Web Designing" := "Technology",
    "Blockchain" := "Technology",
    "Data Science" := "Technology",
    "Testing" := "Technology",
    "Management" := "Business & Management",
    "Consultant" := "Business & Management",
    "Business Analyst" := "Business & Management",
    "Operations Manager" := "Business & Management",
    "PMO" := "Business & Management",
    "BPO" := "Business & Management",
    "Accountant" := "Finance & Accounting",
    "Finance" := "Finance & Accounting",
    "Banking" := "Finance & Accounting",
    "Sales" := "Sales & Marketing",
    "Public Relations" := "Sales & Marketing",
    "Digital Media" := "Sales & Marketing",
    "Human Resources" := "Human & Social Services",
    "Education" := "Human & Social Services",
    "Advocate" := "Human & Social Services",
    "Arts" := "Creative & Design",
    "Designing" := "Creative & Design",
    "Apparel" := "Creative & Design",
    "Health and Fitness" := "Health & Lifestyle",
    "Food and Beverages" := "Health & Lifestyle",
    "Automobile" := "Automobile",
    "Aviation" := "Aviation & Transport",
    "Agriculture" := "Agriculture",
    "Building and Construction" := "Building & Construction"
  ]

  /** The twelve categories the classifier predicts. */
  const BroadCategories: set<string> := {
    "Technology", "Business & Management", "Engineering", "Human & Social Services",
    "Sales & Marketing", "Finance & Accounting", "Creative & Design", "Health & Lifestyle",
    "Building & Construction", "Aviation & Transport", "Automobile", "Agriculture"
  }

  /** There are twelve broad categories. */
  lemma BroadCount()
    ensures |BroadCategories| == 12
  {
  }

  /** Every value of the table is a broad category. */
  lemma CategoryMapIntoBroad()
    ensures forall k :: k in CategoryMap ==> CategoryMap[k] in BroadCategories
  {
  }

  /** Every broad category is the value of some entry of the table. */
  lemma CategoryMapOntoBroad()
    ensures forall b :: b in BroadCategories ==> exists k :: k in CategoryMap && CategoryMap[k] == b
  {
    assert CategoryMap["Testing"] == "Technology";
    assert CategoryMap["BPO"] == "Business & Management";
    assert CategoryMap["Architecture"] == "Engineering";
    assert CategoryMap["Advocate"] == "Human & Social Services";
    assert CategoryMap["Digital Media"] == "Sales & Marketing";
    assert CategoryMap["Banking"] == "Finance & Accounting";
    assert CategoryMap["Apparel"] == "Creative & Design";
    assert CategoryMap["Food and Beverages"] == "Health & Lifestyle";
    assert CategoryMap["Building and Construction"] == "Building & Construction";
    assert CategoryMap["Aviation"] == "Aviation & Transport";
    assert CategoryMap["Automobile"] == "Automobile";
    assert CategoryMap["Agriculture"] == "Agriculture";
  }

  /** `df['Category'].map(CATEGORY_MAP)`: an unmapped category becomes a missing value. */
  function MapColumn(categories: seq<string>): (r: seq<Option<string>>)
    ensures |r| == |categories|
    ensures forall i :: 0 <= i < |r| ==> (r[i].Some? <==> categories[i] in CategoryMap)
    ensures forall i :: 0 <= i < |r| && r[i].Some? ==> r[i].value in BroadCategories
  {
    CategoryMapIntoBroad();
    seq(|categories|, i requires 0 <= i < |categories| =>
      if categories[i] in CategoryMap then Some(CategoryMap[categories[i]]) else None)
  }
}

/** `clean`, the redaction applied to every text of the training set. */
module ComposeDataset {
  import opened PyText
  import Collections
  import opened Redaction
  import Regex

  /** The five substitutions of `clean`, in its order: PO Box matches are labelled ADDRESS. */
  function DatasetRules(email: Regex.Matcher, phone: Regex.Matcher, pobox: Regex.Matcher,
                        address: Regex.Matcher): (rs: seq<Rule>)
    ensures |rs| == 5
    ensures rs[0].name == "EMAIL" && rs[1].name == "PHONE" && rs[2].name == "ADDRESS"
            && rs[3].name == "ADDRESS" && rs[4].name == "ZIP"
  {
    [Rule("EMAIL", email), Rule("PHONE", phone), Rule("ADDRESS", pobox),
     Rule("ADDRESS", address), Rule("ZIP", ZipMatch)]
  }

  lemma DatasetRulesInOrder(email: Regex.Matcher, phone: Regex.Matcher, pobox: Regex.Matcher,
                            address: Regex.Matcher, text: string)
    ensures ApplyRules(text, DatasetRules(email, phone, pobox, address))
      == Regex.Sub(ZipMatch, "[ZIP]",
           Regex.Sub(address, "[ADDRESS]",
             Regex.Sub(pobox, "[ADDRESS]",
               Regex.Sub(phone, "[PHONE]",
                 Regex.Sub(email, "[EMAIL]", text)))))
  {
    var rs := DatasetRules(email, phone, pobox, address);
    var t1 := Regex.Sub(email, "[EMAIL]", text);
    var t2 := Regex.Sub(phone, "[PHONE]", t1);
    var t3 := Regex.Sub(pobox, "[ADDRESS]", t2);
    var t4 := Regex.Sub(address, "[ADDRESS]", t3);
    var t5 := Regex.Sub(ZipMatch, "[ZIP]", t4);
    assert Token("EMAIL") == "[EMAIL]" && Token("PHONE") == "[PHONE]";
    assert Token("ADDRESS") == "[ADDRESS]" && Token("ZIP") == "[ZIP]";
    assert ApplyRules(t5, rs[5..]) == t5;
    assert ApplyRules(t4, rs[4..]) == t5;
    assert ApplyRules(t3, rs[3..]) == t5;
    assert ApplyRules(t2, rs[2..]) == t5;
    assert ApplyRules(t1, rs[1..]) == t5;
  }

  /** One text up to the entity step: filter, collapse, the five substitutions. */
  function Redact(text: string, rules: seq<Rule>): string {
    ApplyRules(NormalizeResume(text), rules)
  }

  /** One text with the entity step. */
  function CleanOne(text: string, rules: seq<Rule>, ner: string -> seq<Span>,
                    entities: seq<string>): string {
    var t := Redact(text, rules);
    SpliceAll(t, ner(t), entities)
  }

  /** What `clean` returns: with NER off it is the first text's string, not a list. */
  datatype Output = FirstText(text: string) | AllTexts(texts: seq<string>)

  function CleanAll(texts: seq<string>, rules: seq<Rule>, ner: string -> seq<Span>,
                    entities: seq<string>, useNer: bool): Output {
    if !useNer && texts != [] then FirstText(Redact(texts[0], rules))
    else if !useNer then AllTexts([])
    else AllTexts(CleanEach(texts, rules, ner, entities))
  }

  /** CleanOne with the rules, the recogniser and the allow-list fixed. */
  function CleanWith(rules: seq<Rule>, ner: string -> seq<Span>, entities: seq<string>): string -> string {
    t => CleanOne(t, rules, ner, entities)
  }

  /** Every text cleaned on its own, in input order. */
  function CleanEach(texts: seq<string>, rules: seq<Rule>, ner: string -> seq<Span>,
                     entities: seq<string>): (r: seq<string>)
    ensures |r| == |texts|
  {
    Collections.Keys(texts, CleanWith(rules, ner, entities))
  }

  lemma CleanEachConcat(a: seq<string>, b: seq<string>, rules: seq<Rule>,
                        ner: string -> seq<Span>, entities: seq<string>)
    ensures CleanEach(a + b, rules, ner, entities)
      == CleanEach(a, rules, ner, entities) + CleanEach(b, rules, ner, entities)
  {
    Collections.KeysConcat(a, b, CleanWith(rules, ner, entities));
  }

  /** `clean(texts, nlp, entities, NER)` with the module's compiled patterns. */
  method Clean(texts: seq<string>, email: Regex.Matcher, phone: Regex.Matcher,
               pobox: Regex.Matcher, address: Regex.Matcher, ner: string -> seq<Span>,
               entities: seq<string>, useNer: bool) returns (out: Output)
    ensures out == CleanAll(texts, DatasetRules(email, phone, pobox, address), ner, entities, useNer)
  {
    out := CleanTexts(texts, DatasetRules(email, phone, pobox, address), ner, entities, useNer);
  }

  /** The loop of `clean`, for any list of substitution rules. */
  method CleanTexts(texts: seq<string>, rules: seq<Rule>, ner: string -> seq<Span>,
                    entities: seq<string>, useNer: bool) returns (out: Output)
    ensures out == CleanAll(texts, rules, ner, entities, useNer)
  {
    var cleaned: seq<string> := [];
    for i := 0 to |texts|
      invariant !useNer ==> i == 0
      invariant cleaned == CleanEach(texts[..i], rules, ner, entities)
    {
      var text := Prepare(texts[i], rules);
      if !useNer {
        return FirstText(text);
      }
      var ents := ner(text);
      var newText := SpliceEntities(text, ents, entities);
      CleanEachSnoc(texts, i, rules, ner, entities);
      cleaned := cleaned + [newText];
    }
    assert texts[..|texts|] == texts;
    return AllTexts(cleaned);
  }

  /** One more text cleaned is one more entry. */
  lemma CleanEachSnoc(texts: seq<string>, i: nat, rules: seq<Rule>,
                      ner: string -> seq<Span>, entities: seq<string>)
    requires i < |texts|
    ensures CleanEach(texts[..i + 1], rules, ner, entities)
      == CleanEach(texts[..i], rules, ner, entities) + [CleanOne(texts[i], rules, ner, entities)]
  {
    assert texts[..i + 1] == texts[..i] + [texts[i]];
    Collections.KeysSnoc(texts[..i], texts[i], CleanWith(rules, ner, entities));
  }

  /** With NER off only the first text matters. */
  lemma NoNerIgnoresRest(a: seq<string>, b: seq<string>, rules: seq<Rule>,
                         ner: string -> seq<Span>, entities: seq<string>)
    requires a != [] && b != [] && a[0] == b[0]
    ensures CleanAll(a, rules, ner, entities, false) == CleanAll(b, rules, ner, entities, false)
    ensures CleanAll(a, rules, ner, entities, false).FirstText?
  {
  }

  /** With NER on, texts are cleaned one by one and independently: the output for a
      concatenation is the concatenation of the outputs, one entry per text. */
  lemma NerOnePerText(a: seq<string>, b: seq<string>, rules: seq<Rule>,
                      ner: string -> seq<Span>, entities: seq<string>)
    ensures CleanAll(a + b, rules, ner, entities, true).texts
      == CleanAll(a, rules, ner, entities, true).texts + CleanAll(b, rules, ner, entities, true).texts
    ensures |CleanAll(a + b, rules, ner, entities, true).texts| == |a| + |b|
  {
    CleanEachConcat(a, b, rules, ner, entities);
  }

  lemma ApplyRulesEmpty(rules: seq<Rule>)
    ensures ApplyRules([], rules) == []
    decreases |rules|
  {
    if rules != [] {
      assert Regex.Sub(rules[0].pattern, Token(rules[0].name), []) == [];
      ApplyRulesEmpty(rules[1..]);
    }
  }

  /** Unlike the classifier, the dataset step does not reject a blank text: it becomes
      the empty string before the entity step. */
  lemma BlankBecomesEmpty(text: string, rules: seq<Rule>)
    requires IsBlank(text)
    ensures Redact(text, rules) == []
  {
    var f := FilterAllowed(text);
    assert IsBlank(f) by {
      forall i | 0 <= i < |f| ensures IsSpace(f[i]) {
        assert f[i] in f;
      }
    }
    NormalizeBlank(f);
    ApplyRulesEmpty(rules);
  }
}
