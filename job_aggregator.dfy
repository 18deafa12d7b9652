/**
 * The two bookkeeping steps of the job aggregator (job_aggregator.py): the
 * per-source loop that skips a listing whose uid has already produced a row,
 * and the final table that keeps, for every (title, company) pair, the row
 * with the most matched skills.
 *
 * HTTP requests, XML parsing, sleeps, printing and CSV output are not
 * modelled; a fetcher's listings arrive as a sequence.
 */
module JobAggregator {
  import opened Wrappers
  import Collections
  import opened JobScoring

  // ---------------------------------------------------------------- one fetcher's loop

  /** One listing as a fetcher reads it from a source. */
  datatype Listing = Listing(uid: string, title: string, company: string, location: string,
                             url: string, desc: string)

  /** `build_row` applied to a listing, for one source and skill list. */
  function RowFor(source: string, skills: seq<string>): Listing -> Option<Row> {
    (l: Listing) => BuildRow(source, l.uid, l.title, l.company, l.location, l.url, l.desc, skills)
  }

  function JobIdOf(r: Row): string { r.jobId }

  /** What a fetcher returns with a given row builder: the first row of every uid, in
      the order of the listings. */
  function Fetched(build: Listing -> Option<Row>, ls: seq<Listing>): seq<Row> {
    Collections.DedupBy(Collections.Somes(ls, build), JobIdOf)
  }

  /** The loop shared by the fetchers: skip a uid already in `seen`, otherwise build a
      row and, only when one is built, remember the uid and keep the row. */
  method CollectRows(source: string, skills: seq<string>, ls: seq<Listing>) returns (jobs: seq<Row>)
    ensures jobs == Fetched(RowFor(source, skills), ls)
  {
    var f := RowFor(source, skills);
    jobs := [];
    var seen: set<string> := {};
    for i := 0 to |ls|
      invariant jobs == Collections.DedupBy(Collections.Somes(ls[..i], f), JobIdOf)
      invariant seen == Collections.KeySet(jobs, JobIdOf)
    {
      RowForUid(source, skills, ls[i]);
      Collections.DedupSeenStep(ls, i, f, JobIdOf, jobs, seen, ls[i].uid);
      if ls[i].uid in seen {
        continue;
      }
      var row := BuildRow(source, ls[i].uid, ls[i].title, ls[i].company, ls[i].location,
                          ls[i].url, ls[i].desc, skills);
      RowForIs(source, skills, ls[i]);
      if row.Some? {
        seen := seen + {ls[i].uid};
        jobs := jobs + [row.value];
      }
    }
    assert ls[..|ls|] == ls;
  }

  lemma RowForIs(source: string, skills: seq<string>, l: Listing)
    ensures RowFor(source, skills)(l) == BuildRow(source, l.uid, l.title, l.company, l.location, l.url, l.desc, skills)
  {
  }

  /** The row built for a listing carries the listing's uid. */
  lemma RowForUid(source: string, skills: seq<string>, l: Listing)
    ensures RowFor(source, skills)(l).Some? ==> JobIdOf(RowFor(source, skills)(l).value) == l.uid
  {
    BuildRowFields(source, l.uid, l.title, l.company, l.location, l.url, l.desc, skills);
  }

  /** No two rows of a fetcher share a uid, and the uids kept are exactly those of the
      rows built: a uid whose listing produced no row is still taken from a later
      listing. With `build_row` the uid of a row is that of its listing (RowForUid). */
  lemma FetchedIds(build: Listing -> Option<Row>, ls: seq<Listing>, k: string)
    ensures Collections.DistinctKeys(Fetched(build, ls), JobIdOf)
    ensures k in Collections.Keys(Fetched(build, ls), JobIdOf) <==>
      exists i :: 0 <= i < |ls| && build(ls[i]).Some? && JobIdOf(build(ls[i]).value) == k
  {
    Collections.DedupKeys(Collections.Somes(ls, build), JobIdOf);
    Collections.DedupSomesKeys(ls, build, JobIdOf, k);
  }

  /** A listing that produces no row has no effect at all, so it cannot block its uid. */
  lemma NonMatchingIgnored(build: Listing -> Option<Row>, ls: seq<Listing>, i: nat)
    requires i < |ls| && build(ls[i]).None?
    ensures Fetched(build, ls) == Fetched(build, ls[..i] + ls[i + 1..])
  {
    Collections.SomesSkipNone(ls, i, build);
  }

  // ---------------------------------------------------------------- the final table

  function SkillsMatched(r: Row): int { r.skillsMatched }

  function TitleCompany(r: Row): (string, string) { (r.title, r.company) }

  /** `df.sort_values("skills_matched", ascending=False)` then
      `df.drop_duplicates(subset=["title", "company"], keep="first")`. */
  function FinalJobs(all: seq<Row>): seq<Row> {
    Collections.DedupBy(Collections.SortDesc(all, SkillsMatched), TitleCompany)
  }

  /** The data frame of `main`, as far as its rows go. */
  class JobTable {
    var rows: seq<Row>

    constructor (rows0: seq<Row>)
      ensures rows == rows0
    {
      rows := rows0;
    }

    /** `sort_values("skills_matched", ascending=False, inplace=True)` */
    method SortBySkillsMatched()
      modifies this
      ensures rows == Collections.SortDesc(old(rows), SkillsMatched)
    {
      rows := Collections.SortDesc(rows, SkillsMatched);
    }

    /** `drop_duplicates(subset=["title", "company"], keep="first", inplace=True)` */
    method DropDuplicatePairs()
      modifies this
      ensures rows == Collections.DedupBy(old(rows), TitleCompany)
    {
      rows := Collections.DedupBy(rows, TitleCompany);
    }
  }

  /** The deduplication in `main`. */
  method DedupJobs(all: seq<Row>) returns (rows: seq<Row>)
    ensures rows == FinalJobs(all)
  {
    var df := new JobTable(all);
    df.SortBySkillsMatched();
    df.DropDuplicatePairs();
    rows := df.rows;
  }

  /** Every (title, company) pair of the input appears exactly once, on a row of the input. */
  lemma FinalPairs(all: seq<Row>, k: (string, string))
    ensures Collections.DistinctKeys(FinalJobs(all), TitleCompany)
    ensures k in Collections.Keys(FinalJobs(all), TitleCompany) <==> k in Collections.Keys(all, TitleCompany)
    ensures forall a :: 0 <= a < |FinalJobs(all)| ==> FinalJobs(all)[a] in all
  {
    Collections.DedupPermutation(all, Collections.SortDesc(all, SkillsMatched), TitleCompany, k);
  }

  /** The kept row of a pair has the highest skill count of all rows with that pair,
      and the table is in non-increasing order of skill count. */
  lemma FinalKeepsBest(all: seq<Row>)
    ensures Collections.SortedDesc(FinalJobs(all), SkillsMatched)
    ensures forall a, r ::
      (0 <= a < |FinalJobs(all)| && r in all && TitleCompany(r) == TitleCompany(FinalJobs(all)[a]))
      ==> r.skillsMatched <= FinalJobs(all)[a].skillsMatched
  {
    var sorted := Collections.SortDesc(all, SkillsMatched);
    Collections.DedupSorted(sorted, TitleCompany, SkillsMatched);
    Collections.DedupKeepsBest(sorted, TitleCompany, SkillsMatched);
    forall a, r | 0 <= a < |FinalJobs(all)| && r in all && TitleCompany(r) == TitleCompany(FinalJobs(all)[a])
      ensures r.skillsMatched <= FinalJobs(all)[a].skillsMatched
    {
      assert r in multiset(all);
      var j :| 0 <= j < |sorted| && sorted[j] == r;
      assert SkillsMatched(sorted[j]) <= SkillsMatched(FinalJobs(all)[a]);
    }
  }
}
