/**
 * The skill-map build of models/skills_matching.py.  The dictionary
 * `pattern_to_preferred` takes a lower-cased pattern text to the preferred
 * skill label it stands for, and the set `patterns` holds the texts given to
 * the phrase matcher.
 *
 * The ESCO skill table is read row by row with plain assignment, so a later
 * row overrides an earlier one.  After it, the O*NET skill, knowledge and
 * technology term sets are added with `setdefault`, which never overrides.
 *
 * The tables arrive as values; reading the CSV files, building the O*NET term
 * sets and writing the JSON file are not modelled.  A pattern document
 * (`nlp.make_doc`) is represented by its text.
 */
module SkillsMatching {
  import opened Wrappers
  import opened PyText
  import Collections

  /** One row of the ESCO table. `altLabels` is None when the cell is missing (`pd.isna`). */
  datatype SkillRow = SkillRow(preferredLabel: string, altLabels: Option<string>)

  type SkillMap = map<string, string>

  /** `row["preferredLabel"].strip().lower()` */
  function Preferred(row: SkillRow): string {
    Lower(Strip(row.preferredLabel))
  }

  /** The key an alt line contributes: none when the line is blank, otherwise the line
      stripped and lower-cased. */
  function AltKey(line: string): Option<string> {
    if IsBlank(line) then None else Some(Lower(Strip(line)))
  }

  /** `row["altLabels"].split("\n")`, and no line at all for a missing cell. */
  function AltLines(row: SkillRow): seq<string> {
    match row.altLabels
    case None => []
    case Some(a) => Split(a, '\n')
  }

  /** The keys a row writes, in order: its preferred label, then the key of every
      non-blank alt line. */
  function RowKeys(row: SkillRow): seq<string> {
    [Preferred(row)] + Collections.Somes(AltLines(row), AltKey)
  }

  /** `m[k] = v` for every k of ks, in order. */
  function Assign(m: SkillMap, ks: seq<string>, v: string): SkillMap
    decreases |ks|
  {
    if ks == [] then m else Assign(m, ks[..|ks| - 1], v)[ks[|ks| - 1] := v]
  }

  /** The rows' writes one after the other, starting from the empty dictionary: each row
      assigns its value to each of its keys. */
  function Apply<R>(rows: seq<R>, keys: R -> seq<string>, value: R -> string): SkillMap
    decreases |rows|
  {
    if rows == [] then map[]
    else Assign(Apply(rows[..|rows| - 1], keys, value), keys(rows[|rows| - 1]), value(rows[|rows| - 1]))
  }

  /** The map after the ESCO loop: every row maps its preferred label, and then each
      non-blank alt line, to the preferred label. */
  function RowsMap(rows: seq<SkillRow>): SkillMap {
    Apply(rows, RowKeys, Preferred)
  }

  /** `for t in terms: m.setdefault(t, t)`: each term that is not yet a key maps to itself,
      and every existing entry stays as it was. */
  function SetDefaults(m: SkillMap, terms: set<string>): SkillMap {
    map k | k in m.Keys + terms :: if k in m then m[k] else k
  }

  /** `setdefault` never changes an existing entry, and a term that was not a key maps
      to itself afterwards. */
  lemma SetDefaultsEffect(m: SkillMap, terms: set<string>, x: string)
    ensures x in SetDefaults(m, terms) <==> x in m || x in terms
    ensures x in m ==> SetDefaults(m, terms)[x] == m[x]
    ensures x !in m && x in terms ==> SetDefaults(m, terms)[x] == x
  {
  }

  /** The ESCO map, then the O*NET skills, the O*NET knowledge areas and the O*NET
      technology terms. */
  function SkillMapOf(rows: seq<SkillRow>, onetSkills: set<string>, onetKnowledge: set<string>,
                      onetTech: set<string>): SkillMap
  {
    SetDefaults(SetDefaults(SetDefaults(RowsMap(rows), onetSkills), onetKnowledge), onetTech)
  }

  /** One more term of the `setdefault` loop. */
  lemma SetDefaultsStep(m0: SkillMap, terms: set<string>, todo: set<string>, skill: string)
    requires skill in todo && todo <= terms
    ensures var m := SetDefaults(m0, terms - todo);
      SetDefaults(m0, terms - (todo - {skill})) == if skill in m then m else m[skill := skill]
  {
    assert terms - (todo - {skill}) == (terms - todo) + {skill};
  }

  /** `for skill in terms: m.setdefault(skill, skill); patterns.add(...)`, visiting the set
      in whatever order it yields its members. */
  method SetDefaultAll(m0: SkillMap, patterns0: set<string>, terms: set<string>)
    returns (m: SkillMap, patterns: set<string>)
    ensures m == SetDefaults(m0, terms)
    ensures patterns == patterns0 + terms
  {
    m, patterns := m0, patterns0;
    var todo := terms;
    while todo != {}
      invariant todo <= terms
      invariant m == SetDefaults(m0, terms - todo)
      invariant patterns == patterns0 + (terms - todo)
      decreases |todo|
    {
      var skill :| skill in todo;
      SetDefaultsStep(m0, terms, todo, skill);
      if skill !in m {
        m := m[skill := skill];
      }
      patterns := patterns + {skill};
      todo := todo - {skill};
    }
    assert terms - todo == terms;
  }

  lemma AssignSnoc(m: SkillMap, ks: seq<string>, k: string, v: string)
    ensures Assign(m, ks + [k], v) == Assign(m, ks, v)[k := v]
  {
    assert (ks + [k])[..|ks|] == ks;
  }

  /** One more alt line of the inner ESCO loop. */
  lemma AltLineStep(m0: SkillMap, p: string, lines: seq<string>, j: nat)
    requires j < |lines|
    ensures var m := Assign(m0, Collections.Somes(lines[..j], AltKey), p);
      Assign(m0, Collections.Somes(lines[..j + 1], AltKey), p)
        == if IsBlank(lines[j]) then m else m[Lower(Strip(lines[j])) := p]
  {
    assert lines[..j + 1][..j] == lines[..j];
    var done := Collections.Somes(lines[..j], AltKey);
    if !IsBlank(lines[j]) {
      assert Collections.Somes(lines[..j + 1], AltKey) == done + [Lower(Strip(lines[j]))];
      AssignSnoc(m0, done, Lower(Strip(lines[j])), p);
    } else {
      assert Collections.Somes(lines[..j + 1], AltKey) == done;
    }
  }

  /** Assigning a' keys and then b's is assigning the keys of a + b. */
  lemma {:induction false} AssignConcat(m: SkillMap, a: seq<string>, b: seq<string>, v: string)
    ensures Assign(Assign(m, a, v), b, v) == Assign(m, a + b, v)
    decreases |b|
  {
    if b == [] {
      assert a + b == a;
    } else {
      var b' := b[..|b| - 1];
      AssignConcat(m, a, b', v);
      AssignSnoc(m, a + b', b[|b| - 1], v);
      assert a + b == (a + b') + [b[|b| - 1]];
    }
  }

  lemma RowsMapStep(rows: seq<SkillRow>, i: nat)
    requires i < |rows|
    ensures RowsMap(rows[..i + 1]) == Assign(RowsMap(rows[..i]), RowKeys(rows[i]), Preferred(rows[i]))
  {
    assert rows[..i + 1][..i] == rows[..i];
  }

  /** `for alt in lines: if alt.strip(): pattern_to_preferred[alt.strip().lower()] = preferred`,
      with the matching pattern added. */
  method AddAltLines(m0: SkillMap, patterns0: set<string>, lines: seq<string>, preferred: string)
    returns (m: SkillMap, patterns: set<string>)
    requires patterns0 == m0.Keys
    ensures m == Assign(m0, Collections.Somes(lines, AltKey), preferred)
    ensures patterns == m.Keys
  {
    m, patterns := m0, patterns0;
    for j := 0 to |lines|
      invariant m == Assign(m0, Collections.Somes(lines[..j], AltKey), preferred)
      invariant patterns == m.Keys
    {
      var alt := lines[j];
      AltLineStep(m0, preferred, lines, j);
      if Strip(alt) != [] {
        m := m[Lower(Strip(alt)) := preferred];
        patterns := patterns + {Lower(Strip(alt))};
      }
    }
    assert lines[..|lines|] == lines;
  }

  /** One pass of the ESCO loop: `pattern_to_preferred[preferred.lower()] = preferred`, then,
      unless the alt labels are missing, the same for every non-blank alt line. */
  method AddRow(m0: SkillMap, patterns0: set<string>, row: SkillRow) returns (m: SkillMap, patterns: set<string>)
    requires patterns0 == m0.Keys
    ensures m == Assign(m0, RowKeys(row), Preferred(row))
    ensures patterns == m.Keys
  {
    var preferred := Lower(Strip(row.preferredLabel));
    patterns := patterns0 + {preferred};
    LowerIdempotent(Strip(row.preferredLabel));
    m := m0[Lower(preferred) := preferred];
    assert m == Assign(m0, [preferred], preferred) by {
      assert [preferred][..0] == [];
    }
    if row.altLabels.Some? {
      m, patterns := AddAltLines(m, patterns, Split(row.altLabels.value, '\n'), preferred);
    }
    AssignConcat(m0, [preferred], Collections.Somes(AltLines(row), AltKey), preferred);
  }

  /** The loop over the ESCO table, then the three `setdefault` loops. */
  method BuildSkillMap(rows: seq<SkillRow>, onetSkills: set<string>, onetKnowledge: set<string>,
                       onetTech: set<string>)
    returns (patternToPreferred: SkillMap, patterns: set<string>)
    ensures patternToPreferred == SkillMapOf(rows, onetSkills, onetKnowledge, onetTech)
    ensures patterns == patternToPreferred.Keys
  {
    var m: SkillMap := map[];
    patterns := {};
    for i := 0 to |rows|
      invariant m == RowsMap(rows[..i])
      invariant patterns == m.Keys
    {
      m, patterns := AddRow(m, patterns, rows[i]);
      RowsMapStep(rows, i);
    }
    assert rows[..|rows|] == rows;
    m, patterns := SetDefaultAll(m, patterns, onetSkills);
    m, patterns := SetDefaultAll(m, patterns, onetKnowledge);
    m, patterns := SetDefaultAll(m, patterns, onetTech);
    patternToPreferred := m;
  }

  /** After assigning v to the keys ks, a key is present exactly when it was before or
      is one of ks; each of ks maps to v and every other entry keeps its value. */
  lemma {:induction false} AssignEffect(m: SkillMap, ks: seq<string>, v: string, x: string)
    ensures x in Assign(m, ks, v) <==> x in m || x in ks
    ensures x in ks ==> Assign(m, ks, v)[x] == v
    ensures x !in ks && x in m ==> Assign(m, ks, v)[x] == m[x]
    decreases |ks|
  {
    if ks != [] {
      var init := ks[..|ks| - 1];
      AssignEffect(m, init, v, x);
      assert ks == init + [ks[|ks| - 1]];
    }
  }

  /** A key of the result is a key some row writes, and every such key is in it. */
  lemma {:induction false} ApplyKeys<R>(rows: seq<R>, keys: R -> seq<string>, value: R -> string, x: string)
    ensures x in Apply(rows, keys, value) <==> exists j :: 0 <= j < |rows| && x in keys(rows[j])
    decreases |rows|
  {
    if rows != [] {
      var init, last := rows[..|rows| - 1], rows[|rows| - 1];
      ApplyKeys(init, keys, value, x);
      AssignEffect(Apply(init, keys, value), keys(last), value(last), x);
      if exists j :: 0 <= j < |rows| && x in keys(rows[j]) {
        var j :| 0 <= j < |rows| && x in keys(rows[j]);
        if j < |init| {
          assert x in keys(init[j]);
        }
      }
      if exists j :: 0 <= j < |init| && x in keys(init[j]) {
        var j :| 0 <= j < |init| && x in keys(init[j]);
        assert x in keys(rows[j]);
      }
    }
  }

  /** The last writer wins: a key maps to the value of the last row that writes it. */
  lemma {:induction false} ApplyLastWriter<R>(rows: seq<R>, keys: R -> seq<string>, value: R -> string,
                                             x: string, j: nat)
    requires j < |rows| && x in keys(rows[j])
    requires forall l :: j < l < |rows| ==> x !in keys(rows[l])
    ensures x in Apply(rows, keys, value) && Apply(rows, keys, value)[x] == value(rows[j])
    decreases |rows|
  {
    var init, last := rows[..|rows| - 1], rows[|rows| - 1];
    AssignEffect(Apply(init, keys, value), keys(last), value(last), x);
    if j < |init| {
      assert forall l :: j < l < |init| ==> init[l] == rows[l];
      ApplyLastWriter(init, keys, value, x, j);
    }
  }

  /** The keys of the ESCO map are the keys its rows write. */
  lemma RowsMapKeys(rows: seq<SkillRow>, x: string)
    ensures x in RowsMap(rows) <==> exists j :: 0 <= j < |rows| && x in RowKeys(rows[j])
  {
    ApplyKeys(rows, RowKeys, Preferred, x);
  }

  /** In the ESCO map a key holds the preferred label of the last row that writes it,
      whether that row wrote it as its preferred label or as an alt label, so a later
      row overrides an earlier one. */
  lemma RowsMapLastWriter(rows: seq<SkillRow>, x: string, j: nat)
    requires j < |rows| && x in RowKeys(rows[j])
    requires forall l :: j < l < |rows| ==> x !in RowKeys(rows[l])
    ensures x in RowsMap(rows) && RowsMap(rows)[x] == Preferred(rows[j])
  {
    ApplyLastWriter(rows, RowKeys, Preferred, x, j);
  }

  /** A row's keys are its preferred label and the stripped, lower-cased non-blank lines
      of its alt labels; a row whose alt labels are missing has only the first. */
  lemma RowKeysAre(row: SkillRow, x: string)
    ensures row.altLabels.None? ==> RowKeys(row) == [Preferred(row)]
    ensures x in RowKeys(row) <==>
      x == Preferred(row) ||
      exists i :: 0 <= i < |AltLines(row)| && !IsBlank(AltLines(row)[i]) && x == Lower(Strip(AltLines(row)[i]))
  {
    var lines := AltLines(row);
    Collections.SomesIn(lines, AltKey, x);
    if exists i :: 0 <= i < |lines| && !IsBlank(lines[i]) && x == Lower(Strip(lines[i])) {
      var i :| 0 <= i < |lines| && !IsBlank(lines[i]) && x == Lower(Strip(lines[i]));
      assert AltKey(lines[i]) == Some(x);
    }
  }

  /** O*NET terms never override: an ESCO entry keeps its label, a new O*NET term maps to
      itself, and every O*NET term (in particular every technology term) is a key.  The
      technology terms come last, so no entry made before them is changed. */
  lemma SkillMapPrecedence(rows: seq<SkillRow>, onetSkills: set<string>, onetKnowledge: set<string>,
                           onetTech: set<string>, x: string)
    ensures var r := SkillMapOf(rows, onetSkills, onetKnowledge, onetTech);
      x in r <==> x in RowsMap(rows) || x in onetSkills || x in onetKnowledge || x in onetTech
    ensures x in RowsMap(rows) ==> SkillMapOf(rows, onetSkills, onetKnowledge, onetTech)[x] == RowsMap(rows)[x]
    ensures x !in RowsMap(rows) && (x in onetSkills || x in onetKnowledge || x in onetTech) ==>
      SkillMapOf(rows, onetSkills, onetKnowledge, onetTech)[x] == x
    ensures var before := SetDefaults(SetDefaults(RowsMap(rows), onetSkills), onetKnowledge);
      x in before ==> SkillMapOf(rows, onetSkills, onetKnowledge, onetTech)[x] == before[x]
  {
    var m1 := SetDefaults(RowsMap(rows), onetSkills);
    var m2 := SetDefaults(m1, onetKnowledge);
    SetDefaultsEffect(RowsMap(rows), onetSkills, x);
    SetDefaultsEffect(m1, onetKnowledge, x);
    SetDefaultsEffect(m2, onetTech, x);
  }
}
