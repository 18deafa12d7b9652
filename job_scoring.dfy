/**
 * Skill scoring and row building in the job aggregator (job_aggregator.py):
 * `score_skills` counts the skills that occur as whole words in a listing,
 * and `build_row` turns a listing with at least one match into a row of the
 * jobs table.  Writing the description file is not modelled; its path is.
 */
module JobScoring {
  import opened Wrappers
  import opened PyText
  import Collections
  import opened JobText

  // ---------------------------------------------------------------- score_skills

  /** w occurs in text at position p with a word boundary on either side of it:
      a match of `\b` + re.escape(w) + `\b` at p. */
  predicate WholeWordAt(text: string, w: string, p: nat) {
    p + |w| <= |text| && text[p..p + |w|] == w && WordBoundary(text, p) && WordBoundary(text, p + |w|)
  }

  /** `re.search` from position p: the position of the first whole-word occurrence of w,
      or |text| + 1 when there is none. */
  function SearchFrom(text: string, w: string, p: nat): (q: nat)
    requires p <= |text| + 1
    ensures p <= q <= |text| + 1
    decreases |text| + 1 - p
  {
    if p > |text| || WholeWordAt(text, w, p) then p else SearchFrom(text, w, p + 1)
  }

  /** The search stops at an occurrence, and at the first one. */
  lemma {:induction false} SearchFromFirst(text: string, w: string, p: nat)
    requires p <= |text| + 1
    ensures SearchFrom(text, w, p) <= |text| ==> WholeWordAt(text, w, SearchFrom(text, w, p))
    ensures forall j :: p <= j < SearchFrom(text, w, p) && j <= |text| ==> !WholeWordAt(text, w, j)
    decreases |text| + 1 - p
  {
    if !(p > |text| || WholeWordAt(text, w, p)) {
      SearchFromFirst(text, w, p + 1);
    }
  }

  predicate ContainsWholeWord(text: string, w: string) {
    SearchFrom(text, w, 0) <= |text|
  }

  /** The search succeeds exactly when some position holds a whole-word occurrence. */
  lemma ContainsWholeWordIff(text: string, w: string)
    ensures ContainsWholeWord(text, w) <==> exists p: nat :: p <= |text| && WholeWordAt(text, w, p)
  {
    SearchFromFirst(text, w, 0);
    if ContainsWholeWord(text, w) {
      assert WholeWordAt(text, w, SearchFrom(text, w, 0));
    }
  }

  /** `((title or "") + " " + (description or "")).lower()` */
  function Combined(title: Option<string>, desc: Option<string>): string {
    Lower(OrElse(title, "") + " " + OrElse(desc, ""))
  }

  /** Whether a skill, lower-cased, occurs as a whole word in the text. */
  function SkillIn(text: string): string -> bool {
    s => ContainsWholeWord(text, Lower(s))
  }

  /** `score_skills(skills, title, description)`: the number of matched skills and the list. */
  function ScoreSkills(skills: seq<string>, title: Option<string>, desc: Option<string>): (r: (nat, seq<string>))
    ensures r.0 == |r.1|
  {
    var matched := Collections.Filter(skills, SkillIn(Combined(title, desc)));
    (|matched|, matched)
  }

  /** The matched skills are exactly those whose lower-cased form occurs as a whole word
      in the lower-cased title and description. */
  lemma ScoreSkillsMatched(skills: seq<string>, title: Option<string>, desc: Option<string>, s: string)
    ensures s in ScoreSkills(skills, title, desc).1 <==>
      s in skills && ContainsWholeWord(Combined(title, desc), Lower(s))
  {
    Collections.FilterIn(skills, SkillIn(Combined(title, desc)), s);
  }

  /** The matched list keeps the order of the skills: scoring a concatenation of skill
      lists concatenates the matched lists. */
  lemma ScoreSkillsConcat(a: seq<string>, b: seq<string>, title: Option<string>, desc: Option<string>)
    ensures ScoreSkills(a + b, title, desc).1 == ScoreSkills(a, title, desc).1 + ScoreSkills(b, title, desc).1
    ensures ScoreSkills(a + b, title, desc).0 == ScoreSkills(a, title, desc).0 + ScoreSkills(b, title, desc).0
  {
    Collections.FilterConcat(a, b, SkillIn(Combined(title, desc)));
  }

  // ---------------------------------------------------------------- build_row

  /** One row of the jobs table. */
  datatype Row = Row(source: string, jobId: string, title: string, company: string,
                     location: string, url: string, skillsMatched: nat,
                     matchedSkills: string, descriptionFile: string)

  /** The path `save_description` returns for a job id and title. */
  function DescriptionFile(jobId: string, title: string): string {
    "job_descriptions/" + SanitizeFilename(Some(jobId), 60) + "_" + SanitizeFilename(Some(title), 60) + ".txt"
  }

  /** `f"{source.lower().replace(' ', '_')}_{uid}"` */
  function FileJobId(source: string, uid: string): string {
    ReplaceChar(Lower(source), ' ', '_') + "_" + uid
  }

  /** `build_row(...)`: no row when no skill matched. */
  function BuildRow(source: string, uid: string, title: string, company: string, location: string,
                    url: string, desc: string, skills: seq<string>): Option<Row>
  {
    var scored := ScoreSkills(skills, Some(title), Some(desc));
    if scored.0 == 0 then None
    else Some(Row(source, uid, title, company, location, url, scored.0, Join(scored.1, ", "),
                  DescriptionFile(FileJobId(source, uid), title)))
  }

  /** A built row carries the listing's id, title and company, a positive skill count
      and the matched skills joined by ", "; no row is built when the count is 0. */
  lemma BuildRowFields(source: string, uid: string, title: string, company: string, location: string,
                       url: string, desc: string, skills: seq<string>)
    ensures var r := BuildRow(source, uid, title, company, location, url, desc, skills);
      var score := ScoreSkills(skills, Some(title), Some(desc));
      && (r.None? <==> score.0 == 0)
      && (r.Some? ==> r.value.jobId == uid && r.value.title == title && r.value.company == company)
      && (r.Some? ==> r.value.skillsMatched == score.0 > 0)
      && (r.Some? ==> r.value.matchedSkills == Join(score.1, ", "))
  {
    var score := ScoreSkills(skills, Some(title), Some(desc));
    if score.0 > 0 {
      assert BuildRow(source, uid, title, company, location, url, desc, skills)
        == Some(Row(source, uid, title, company, location, url, score.0, Join(score.1, ", "),
                    DescriptionFile(FileJobId(source, uid), title)));
    }
  }

  /** A row is built exactly when at least one skill occurs as a whole word. */
  lemma BuildRowIff(source: string, uid: string, title: string, company: string, location: string,
                    url: string, desc: string, skills: seq<string>)
    ensures BuildRow(source, uid, title, company, location, url, desc, skills).Some? <==>
      exists s :: s in skills && ContainsWholeWord(Combined(Some(title), Some(desc)), Lower(s))
  {
    var r := ScoreSkills(skills, Some(title), Some(desc));
    BuildRowFields(source, uid, title, company, location, url, desc, skills);
    if r.0 > 0 {
      var s := r.1[0];
      ScoreSkillsMatched(skills, Some(title), Some(desc), s);
      assert s in skills && ContainsWholeWord(Combined(Some(title), Some(desc)), Lower(s));
    } else {
      forall s | s in skills ensures !ContainsWholeWord(Combined(Some(title), Some(desc)), Lower(s)) {
        ScoreSkillsMatched(skills, Some(title), Some(desc), s);
      }
    }
  }
}
