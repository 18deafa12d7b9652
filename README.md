# Résumé and job pipeline, modelled in Dafny

This project models the text-processing core of a résumé and job-matching
system written in Python, and proves properties of it. The system does four things:

- It redacts personal data from a résumé.
- It ranks broad job categories for a résumé.
- It extracts skill mentions.
- It collects job listings from several boards and keeps, for each
  (title, company) pair, the best-matching listing.

The training-time helpers are modelled too:

- the dataset redaction variant and the category table;
- the document normaliser and hit counter of the category trainer;
- the build of the skill-phrase dictionary.

Modules, one per file:

| module | file | models |
|---|---|---|
| `Wrappers` | wrappers.dfy | `None` and raised exceptions as `Option` / `Result` values |
| `PyText` | pytext.dfy | the `str` operations used: `lower`, `strip`, `split`, `join`, slicing, `re.sub(r'\s+', …)` |
| `Regex` | regex.dfy | `pattern.sub(repl, text)` for an abstract pattern: leftmost, non-overlapping matches, left to right |
| `Collections` | collections.dfy | keep-first deduplication (a `seen` set, `drop_duplicates(keep="first")`), descending sort, filters, counting |
| `Redaction` | redaction.dfy | the parts of the two redaction functions that they share: the character filter, whitespace collapsing, labelled substitution rules, the ZIP pattern, and splicing `[LABEL]` over entity spans |
| `ResumeUtils` | resume_utils.dfy | `ResumeClassifier`: label validation at construction, `clean_resume`, `classify_resume` |
| `SkillsUtils` | skills_utils.dfy | `SkillsExtractor`: sentencizer install, `extract_skills` |
| `DatasetCategories`, `ComposeDataset` | compose_dataset.dfy | `CATEGORY_MAP` and its application, and `clean` |
| `JobText` | job_text.dfy | `text or fallback`, `sanitize_filename`, `clean_html`, the We Work Remotely title split |
| `JobScoring` | job_scoring.dfy | `score_skills` and `build_row` |
| `JobAggregator` | job_aggregator.dfy | the seen-uid fetch loop and the final sort and deduplication in `main` |
| `ResumeCategories` | resume_categories.dfy | `simple_normalize`, and the hit count of `top_k_accuracy` |
| `SkillsMatching` | skills_matching.dfy | the `pattern_to_preferred` / `patterns` build |

Outside collaborators are given as values or function parameters:

- the spaCy pipeline: entity spans, tokens, the sentence of each token, phrase matches;
- the embedder followed by `decision_function`: one integer score per class;
- the compiled ADDRESS, PHONE, PO Box and EMAIL patterns: a `Regex.Matcher` each;
- the data tables.

The ZIP pattern and the HTML-tag pattern are written out.

Loops in the source become methods with loop invariants. Each method is
proved equal to a function, and the properties are lemmas about that function:

- `CleanResume`, `SubstituteAll`, `SpliceEntities`;
- `ExtractSkills`, `CleanTexts`, `CollectRows`;
- `SimpleNormalize`, `TopKHits`;
- `BuildSkillMap`, `AddRow`, `AddAltLines`, `SetDefaultAll`.

Objects whose fields the source updates are classes:

- the spaCy pipeline's component list;
- the skills extractor;
- the jobs data frame.

Where the code and its docstrings or tests disagree, the model follows the code:

- `clean` in models/compose_dataset.py returns the first cleaned string, not a
  list, when called with `NER=False`. With no texts it returns the empty list.
- A PO Box match in that variant is labelled `[ADDRESS]`.
- `clean_resume` is not idempotent. Its character filter deletes the square
  brackets of the `[LABEL]` tokens it produced (`Redaction.FilterDropsTokenBrackets`).

## Model

| member | source | states |
|---|---|---|
| PyText.Strip | utils/resume_utils.py:113 | `strip()` returns an infix of the text such that everything cut before it and after it is whitespace; the infix is empty exactly when the text is blank, and otherwise starts and ends with a non-space |
| PyText.Normalize | utils/resume_utils.py:113 | collapsing whitespace runs to one space and stripping gives single-spaced text with no space at either end, never longer than the input |
| PyText.NormalizeKeepsText | utils/resume_utils.py:113 | removing all whitespace gives the same text before and after the collapse: every non-whitespace character survives, in order, and no other is added |
| PyText.NormalizeIsJoinedWords | utils/resume_utils.py:113 | `re.sub(r'\s+', ' ', s).strip()` equals `' '.join(s.split())`: the maximal non-whitespace runs of the text, in order, separated by single spaces |
| PyText.NormalizeIdempotent | utils/resume_utils.py:113 | collapsing and stripping a second time changes nothing |
| PyText.NormalizeFixesNormalized | utils/resume_utils.py:113 | text that is already single-spaced and trimmed comes back unchanged |
| PyText.NormalizeChars | utils/resume_utils.py:113 | the collapse introduces no character other than a space |
| PyText.NormalizeBlank | utils/resume_utils.py:109-113 | a blank text collapses to the empty string |
| PyText.LowerIdempotent | utils/skills_utils.py:43 | lower-casing twice is lower-casing once |
| PyText.Split | models/skills_matching.py:33 | `split` on one character gives at least one piece, no piece contains the separator, and joining the pieces with it gives the text back |
| PyText.IndexOf | job_aggregator.py:361 | the position found holds the character and no earlier position does; the text's length means it is absent |
| Regex.SubNoMatch | utils/resume_utils.py:115-116 | a substitution whose pattern matches nowhere leaves the text unchanged |
| Regex.SubChars | utils/resume_utils.py:115-116 | every character of a substitution's result comes from the input or from the replacement |
| Redaction.FilterAllowed | utils/resume_utils.py:112 | the filter keeps only characters of the allow-set, each taken from the input, and never lengthens the text |
| Redaction.NormalizeResumeShape | utils/resume_utils.py:112-113 | after filter and collapse: only allow-set characters, single spaces, no space at either end |
| Redaction.FilterDropsTokenBrackets | utils/resume_utils.py:112 | the filter turns a token `[NAME]` back into `NAME`, so cleaning a cleaned text is not the identity |
| Redaction.ApplyRulesConcat | utils/resume_utils.py:115-116 | applying a list of rules is applying each rule to the previous rule's output |
| Redaction.ApplyRulesNoMatch | utils/resume_utils.py:115-116 | when no rule matches the text it is given, the rules leave the text unchanged |
| Redaction.ApplyRulesChars | utils/resume_utils.py:115-116 | after the rules, every character comes from the text or from one of the rules' tokens |
| Redaction.ZipMatch | utils/resume_utils.py:80 | the ZIP pattern matches 5, 10 or 6 characters, bounded by word boundaries; a 5- or 6-character match is all digits; in the other direction, five digits, a `-` and four digits between boundaries match as 10 characters, five bounded digits match, and six bounded digits match as 6 |
| Redaction.ZipRedacted | utils/resume_utils.py:80 | a five-digit code with word boundaries on both sides, in a text with no other digits, is replaced by `[ZIP]` and the text around it is kept |
| Redaction.ZipRedactsCode | utils/resume_utils.py:80 | the ZIP rule turns `zip 90210.` into `zip [ZIP].` |
| Redaction.ZipNeedsDigit | utils/resume_utils.py:80 | a text without digits has no ZIP code to replace |
| Redaction.SpliceShape | utils/resume_utils.py:121 | one splice keeps the text before the span and puts the span's piece (the token, or the span itself) before the rest |
| Redaction.SpliceOffsetStable | utils/resume_utils.py:119-121 | for spans in order, not overlapping and inside the text, splicing right to left equals one left-to-right rendering in which allow-listed spans become `[LABEL]` and all other text is copied |
| Redaction.SpliceNoneAllowed | utils/resume_utils.py:119-121 | spans with no allow-listed label change nothing, in any order |
| Redaction.RenderNoneAllowed | utils/resume_utils.py:119-121 | the left-to-right rendering of spans with no allow-listed label is the text itself |
| Redaction.SpliceEntities | utils/resume_utils.py:119-121 | the reversed loop over the entities, splicing allow-listed ones, computes the right-to-left splice of all spans |
| Redaction.SubstituteAll | utils/resume_utils.py:115-116 | the loop over the rules computes the rules applied in order |
| Redaction.Prepare | utils/resume_utils.py:112-116 | filter, collapse, then the rules, in that order |
| ResumeUtils.PiiPatterns | utils/resume_utils.py:58-83 | there are five rules, named ADDRESS, PHONE, ZIP, POBOX and EMAIL in that order |
| ResumeUtils.RulesInOrder | utils/resume_utils.py:115-116 | the classifier's rules apply ADDRESS, PHONE, ZIP, POBOX, EMAIL in that order, each to the previous one's output, with tokens `[ADDRESS]` … `[EMAIL]` |
| ResumeUtils.UnknownLabels | utils/resume_utils.py:86 | the invalid labels are exactly the requested labels that the recogniser does not know |
| ResumeUtils.NewClassifier | utils/resume_utils.py:85-88 | construction succeeds exactly when every requested entity label is a recogniser label; otherwise it fails with a non-empty list of exactly the unknown labels |
| ResumeUtils.CleanResume | utils/resume_utils.py:90-123 | the step-by-step method equals the reference `Clean`: a blank résumé is an error, otherwise filter, collapse, the rules and the entity splice |
| ResumeUtils.CleanRejectsBlank | utils/resume_utils.py:109-110 | a résumé is rejected, with the empty-résumé error, exactly when it is empty or all whitespace |
| ResumeUtils.CleanedTextShape | utils/resume_utils.py:112-113 | the text given to the rules holds only allow-set characters, single spaces and no edge spaces |
| ResumeUtils.CleanOffsetStable | utils/resume_utils.py:118-121 | with ordered in-bounds spans from the recogniser, the result is the rule output with each allow-listed span replaced by its token and the rest kept |
| ResumeUtils.CleanUnchanged | utils/resume_utils.py:107-123 | a non-empty normalised text of allowed characters, with no rule match and no allow-listed entity, is returned unchanged |
| ResumeUtils.Rank | utils/resume_utils.py:150 | `argsort(scores)[::-1]` is a permutation of the class indices in non-increasing score order |
| ResumeUtils.RankDistinct | utils/resume_utils.py:150 | the ranking repeats no index |
| ResumeUtils.RankCovers | utils/resume_utils.py:150 | every class index occurs in the ranking |
| ResumeUtils.TopKIndices | utils/resume_utils.py:150-151 | the first k ranked indices are in range, distinct and in non-increasing score order, and no omitted class scores above the last one kept |
| ResumeUtils.TopLabels | utils/resume_utils.py:150-151 | a valid top_k gives exactly top_k labels |
| ResumeUtils.TopLabelsDistinct | utils/resume_utils.py:150-151 | with distinct class names, the returned labels are distinct and each is a class |
| ResumeUtils.ClassifyChecksRangeFirst | utils/resume_utils.py:143-147 | a top_k outside 1..number of classes gives the range error for every résumé (even a blank one), and only such a top_k does |
| ResumeUtils.ClassifySeesCleanedText | utils/resume_utils.py:147-151 | résumés with equal cleaning results get equal categories; with a valid top_k, classification succeeds exactly for a non-blank résumé and returns top_k labels |
| SkillsUtils.InstallIdempotent | utils/skills_utils.py:32-33 | installing the sentence splitter twice is installing it once |
| SkillsUtils.InstallOnce | utils/skills_utils.py:32-33 | with unique component names, the splitter is present exactly once afterwards, and first when it was added |
| SkillsUtils.InstallKeepsRest | utils/skills_utils.py:32-33 | the other components and their order are untouched |
| SkillsUtils.Pipeline.AddPipeFirst | utils/skills_utils.py:33 | `add_pipe(name, first=True)` puts a new name in front of the component list |
| SkillsUtils.SkillsExtractor.constructor | utils/skills_utils.py:30-35 | construction installs the splitter in the given pipeline and keeps the collaborators |
| SkillsUtils.Candidates | utils/skills_utils.py:43-46 | there is one candidate entry per match |
| SkillsUtils.SkillsExtractor.ExtractSkills | utils/skills_utils.py:37-47 | the loop with its `seen` set builds the dictionary of the first candidate for each key |
| SkillsUtils.SkillKeys | utils/skills_utils.py:42-46 | the keys are exactly the lower-cased texts of the matches, and there are no more keys than matches |
| SkillsUtils.SkillFirstMentionWins | utils/skills_utils.py:44-46 | each key occurs once, with the stripped sentence of the first match whose lower-cased text is that key |
| SkillsUtils.SkillOrder | utils/skills_utils.py:40-46 | keys are in the order of their first mention |
| SkillsUtils.NoMatchNoSkills | utils/skills_utils.py:39-47 | no match gives an empty dictionary and never an error |
| SkillsUtils.SkillKeysLower | utils/skills_utils.py:43 | every key is lower case |
| DatasetCategories.BroadCount | models/compose_dataset.py:20-74 | there are twelve broad categories |
| DatasetCategories.CategoryMapIntoBroad | models/compose_dataset.py:20-74 | every value of `CATEGORY_MAP` is one of the twelve broad categories |
| DatasetCategories.CategoryMapOntoBroad | models/compose_dataset.py:20-74 | every broad category is the value of some entry |
| DatasetCategories.MapColumn | models/compose_dataset.py:75 | mapping the column keeps its length; an entry is missing exactly when its category is not in the table, and otherwise it is a broad category |
| ComposeDataset.DatasetRules | models/compose_dataset.py:116-120 | `clean` uses five substitutions, with tokens EMAIL, PHONE, ADDRESS (for a PO Box), ADDRESS and ZIP in that order |
| ComposeDataset.DatasetRulesInOrder | models/compose_dataset.py:116-120 | the dataset rules apply EMAIL, PHONE, PO Box, ADDRESS, ZIP in that order, each to the previous output, and PO Box matches become `[ADDRESS]` |
| ComposeDataset.CleanTexts | models/compose_dataset.py:110-131 | the loop of `clean` computes the reference output for any rules: the first text alone when NER is off, otherwise every text cleaned in turn |
| ComposeDataset.Clean | models/compose_dataset.py:110-131 | `clean` with its five compiled patterns computes the reference output |
| ComposeDataset.CleanEach | models/compose_dataset.py:111-131 | one cleaned entry per text |
| ComposeDataset.CleanEachConcat | models/compose_dataset.py:111-131 | cleaning a concatenation concatenates the cleaned lists: texts are cleaned independently |
| ComposeDataset.NoNerIgnoresRest | models/compose_dataset.py:122-123 | with NER off the result is one string and depends only on the first text |
| ComposeDataset.NerOnePerText | models/compose_dataset.py:111-131 | with NER on the output has one entry per text, in input order, and is compositional |
| ComposeDataset.BlankBecomesEmpty | models/compose_dataset.py:113-114 | a blank text is not rejected: filter and collapse turn it into the empty string before the entity step |
| JobText.OrElse | job_aggregator.py:89 | `text or fallback` gives the text when it is present and non-empty, and the fallback otherwise |
| JobText.SanitizeFilenameLength | job_aggregator.py:88-91 | the file name is never empty, and is at most max_len long unless it is the fallback `"unnamed"`; for a negative max_len it is at most the name's length less the absolute value of max_len |
| JobText.SanitizeFilenameChars | job_aggregator.py:89-90 | the file name holds only word characters and `-`, so no whitespace |
| JobText.SanitizeMissing | job_aggregator.py:89 | a missing name and an empty one are both treated as `"unknown"` |
| JobText.TagMatch | job_aggregator.py:95 | the tag pattern matches exactly at a `<` that has at least one character other than `>` after it, followed by a `>` |
| JobText.TagMatchSpan | job_aggregator.py:95 | a match runs from the `<` to the first `>` after it and is at least 3 characters long |
| JobText.TagBecomesSpace | job_aggregator.py:95 | a tag `<t>` after text without `<` becomes one space: the text before it is kept as it is and the rest is substituted on its own |
| JobText.TagSpanBecomesSpace | job_aggregator.py:95 | the same over positions: a `<` at k with no `<` before it, whose first `>` after it is at j - 1, gives the text before k, one space, and the substitution of the text from j |
| JobText.CleanHtmlShape | job_aggregator.py:94-95 | the result contains no tag and has no whitespace at either end |
| JobText.CleanHtmlMissing | job_aggregator.py:95 | a missing description gives the empty string |
| JobText.CleanHtmlPlain | job_aggregator.py:95 | text without `<` only loses its surrounding whitespace |
| JobText.SplitTitle | job_aggregator.py:360-363 | a title without `:` is kept whole, with an empty company |
| JobText.SplitTitleFirstColon | job_aggregator.py:360-361 | the split is at the first `:`: the company is the stripped text before it and the job title the stripped rest, colons included |
| JobText.SplitTitleCompany | job_aggregator.py:360-363 | the company never contains `:`, and it is empty when the raw title has no `:` |
| JobScoring.SearchFrom | job_aggregator.py:103 | the search position never moves backwards and stays within one past the end |
| JobScoring.SearchFromFirst | job_aggregator.py:103 | the search stops at the first whole-word occurrence |
| JobScoring.ContainsWholeWordIff | job_aggregator.py:103 | `re.search(r"\b" + re.escape(w) + r"\b", text)` succeeds exactly when some position holds w with a word boundary on both sides |
| JobScoring.ScoreSkills | job_aggregator.py:98-105 | the count is the length of the matched list |
| JobScoring.ScoreSkillsMatched | job_aggregator.py:100-104 | a skill is matched exactly when it is in the list and its lower-cased form occurs as a whole word in the lower-cased title and description |
| JobScoring.ScoreSkillsConcat | job_aggregator.py:101-104 | the matched list keeps the order of the skills: scoring a concatenation concatenates the matched lists and adds the counts |
| JobScoring.BuildRowFields | job_aggregator.py:125-145 | no row exactly when the score is 0; a row carries the uid, title and company, the positive score, and the matched skills joined by `", "` |
| JobScoring.BuildRowIff | job_aggregator.py:128-130 | a row is built exactly when some skill occurs as a whole word |
| JobAggregator.CollectRows | job_aggregator.py:165-176 | the fetch loop with its `seen` set keeps, in listing order, the first built row of every uid |
| JobAggregator.RowForUid | job_aggregator.py:135-137 | a row built for a listing carries that listing's uid |
| JobAggregator.FetchedIds | job_aggregator.py:165-176 | no two kept rows share a uid, and a uid is kept exactly when some listing with it produced a row |
| JobAggregator.NonMatchingIgnored | job_aggregator.py:173-176 | a listing that builds no row has no effect on the result, so a later listing with the same uid is still considered |
| JobAggregator.JobTable.SortBySkillsMatched | job_aggregator.py:565 | the in-place sort leaves the rows ordered by descending skill count |
| JobAggregator.JobTable.DropDuplicatePairs | job_aggregator.py:566 | the in-place deduplication keeps the first row of every (title, company) pair |
| JobAggregator.DedupJobs | job_aggregator.py:564-567 | sorting then deduplicating the data frame gives the reference final table |
| JobAggregator.FinalPairs | job_aggregator.py:564-566 | each (title, company) pair of the input appears exactly once in the final table, on a row of the input |
| JobAggregator.FinalKeepsBest | job_aggregator.py:564-566 | the final table is in non-increasing score order, and each kept row has the highest score among the rows of its pair |
| Collections.FilterIn | job_aggregator.py:101-104 | a comprehension with an `if` keeps exactly the elements that pass the test |
| Collections.FilterConcat | job_aggregator.py:101-104 | a comprehension keeps the input order |
| Collections.SomesIn | models/skills_matching.py:33-36 | a value is produced exactly when some element produces it |
| Collections.DedupKeys | utils/skills_utils.py:44-46 | keep-first deduplication gives one element per key, and the keys of the input |
| Collections.DedupFirst | utils/skills_utils.py:44-46 | each kept element is the first element of the input with its key |
| Collections.DedupOrder | utils/skills_utils.py:40-46 | kept elements appear in the order in which their keys first appear |
| Collections.DedupSeenStep | job_aggregator.py:167-176 | one step of a `seen`-set loop: a known key or a missing value changes nothing, and a new key adds its value and the key |
| Collections.DedupSomesKeys | job_aggregator.py:165-176 | the keys kept are the keys of the values produced |
| Collections.SomesSkipNone | job_aggregator.py:173-176 | an element that produces no value can be removed without changing the values |
| Collections.InsertDescSorted | job_aggregator.py:565 | inserting into a sequence sorted by descending score keeps it sorted |
| Collections.InsertDescCount | job_aggregator.py:565 | inserting adds exactly the one element |
| Collections.SortDesc | job_aggregator.py:565 | the descending sort is a permutation of its input in non-increasing score order |
| Collections.SortDistinct | utils/resume_utils.py:150 | sorting a sequence without repetition gives one without repetition |
| Collections.DedupPermutation | job_aggregator.py:565-566 | deduplicating a rearrangement keeps every key of the original exactly once, on an original element |
| Collections.DedupSorted | job_aggregator.py:565-566 | deduplicating a sorted sequence keeps it sorted |
| Collections.DedupKeepsBest | job_aggregator.py:565-566 | in a sequence sorted by descending score, the element kept for a key scores at least as high as every element with that key |
| Collections.CountTrueBounds | models/resume_categories.py:106-110 | the count of true flags is at most their number, equals it exactly when all are set, and is 0 exactly when none is |
| Collections.CountTrueMonotone | models/resume_categories.py:106-110 | setting more flags never lowers the count |
| ResumeCategories.SimpleNormalize | models/resume_categories.py:94-101 | the loop returns one normalised document per input document, in order |
| ResumeCategories.NormalizeDocShape | models/resume_categories.py:97-99 | a normalised document holds only `a`–`z` and single spaces, with no space at either end |
| ResumeCategories.NormalizeDocIdempotent | models/resume_categories.py:97-99 | normalising a normalised document changes nothing |
| ResumeCategories.HitFlags | models/resume_categories.py:107-110 | there is one hit flag per item |
| ResumeCategories.TopKHits | models/resume_categories.py:103-110 | the `correct` counter equals the number of items whose true label is among the k best-scoring classes |
| ResumeCategories.HitCountBounds | models/resume_categories.py:106-110 | the count is at most the number of items |
| ResumeCategories.HitCountFull | models/resume_categories.py:106-110 | the count equals the number of items exactly when every item is a hit |
| ResumeCategories.HitCountZero | models/resume_categories.py:106-110 | the count is 0 exactly when no item is a hit |
| ResumeCategories.TopKPrefix | models/resume_categories.py:108 | for 0 <= k1 <= k2, the k1 best labels are a prefix of the k2 best |
| ResumeCategories.HitMonotone | models/resume_categories.py:108-109 | for 0 <= k1 <= k2, a hit for k1 is a hit for k2 |
| ResumeCategories.HitCountMonotone | models/resume_categories.py:106-110 | the hit count does not decrease as k grows from 0 |
| ResumeCategories.HitAllClasses | models/resume_categories.py:108-109 | with k at least the number of classes, a label is a hit exactly when it is a class |
| ResumeCategories.HitCountAll | models/resume_categories.py:106-110 | with k at least the number of classes and every true label a class, every item is a hit |
| SkillsMatching.SetDefaultsEffect | models/skills_matching.py:37-42 | `setdefault` over a set of terms never changes an existing entry, maps each new term to itself, and adds exactly the terms as keys |
| SkillsMatching.SetDefaultAll | models/skills_matching.py:37-42 | the `setdefault` loop over a set, in any visiting order, computes the reference map and adds every term to the patterns |
| SkillsMatching.AddAltLines | models/skills_matching.py:33-36 | the alt-line loop maps each non-blank line, stripped and lower-cased, to the preferred label, and keeps the patterns equal to the keys |
| SkillsMatching.AddRow | models/skills_matching.py:28-36 | one row assigns its preferred label and then each of its alt keys to the preferred label |
| SkillsMatching.BuildSkillMap | models/skills_matching.py:25-53 | the nested loops compute the ESCO map followed by the three O*NET `setdefault` passes, and the pattern set is the set of keys |
| SkillsMatching.AssignEffect | models/skills_matching.py:30-35 | after assignments, a key is present exactly when it was before or was assigned; assigned keys hold the value and the others keep theirs |
| SkillsMatching.ApplyKeys | models/skills_matching.py:27-36 | a key of the row-by-row map is a key some row writes, and every such key is in it |
| SkillsMatching.ApplyLastWriter | models/skills_matching.py:27-36 | with plain assignment, a key maps to the value of the last row that writes it |
| SkillsMatching.RowsMapKeys | models/skills_matching.py:27-36 | the keys of the ESCO map are exactly the keys its rows write |
| SkillsMatching.RowsMapLastWriter | models/skills_matching.py:28-35 | a key holds the preferred label of the last row writing it, as preferred label or alt label, so a later row overrides an earlier one |
| SkillsMatching.RowKeysAre | models/skills_matching.py:28-36 | a row's keys are its stripped lower-cased preferred label and its non-blank alt lines, stripped and lower-cased; a row with missing alt labels has only the first |
| SkillsMatching.SkillMapPrecedence | models/skills_matching.py:37-53 | the final keys are the ESCO keys and all O*NET terms; an ESCO entry keeps its label, a new O*NET term maps to itself, and the technology pass changes no earlier entry |

## Left out

- I/O is not modelled: HTTP requests, XML and JSON parsing, CSV files, `time.sleep`, printing, command-line parsing, description-file writes (`save_description`; the path it returns is modelled) and the JSON dump of the skill map.
- Model loading is not modelled: joblib, spaCy, the SentenceTransformer, the HuggingFace lookup and their error checks (utils/resume_utils.py:44-56). The constructor starts after loading.
- spaCy tokenisation, entity recognition, sentence segmentation and phrase matching are not modelled. Their results are inputs, and a parsed document is its tokens plus a token-to-sentence function.
- The ADDRESS, PHONE, PO Box and EMAIL patterns are abstract matchers. Their regex semantics (look-ahead, IGNORECASE, Unicode `\w`) are not reproduced.
- `\w`, `\d` and `lower()` are ASCII only. Python's Unicode versions are not modelled.
- Embedding and `decision_function` produce floats. The model takes one integer score per class, which preserves the ordering.
- ResumeUtils.Rank: `np.argsort` is not stable and pandas `sort_values` defaults to quicksort, so the source leaves tie order unspecified. The model fixes one order: its stable descending sort puts tied classes in ascending index order. A stable `argsort` followed by `[::-1]` would give descending index order instead. On ties, the values of ResumeUtils.Classify, ResumeCategories.TopKLabels and ResumeCategories.HitCount follow the model's choice. The contracts state only the descending-score order.
- The `TypeError` for a résumé that is not a `str` (utils/resume_utils.py:107-108) is not modelled, because the Dafny type `string` rules that input out.
- Collections.SortDesc: the same tie-order caveat applies to `sort_values` in job_aggregator.py:565.
- The float ratio `correct / len(y_true)` of `top_k_accuracy` is not modelled, nor its division by zero on an empty label list. The integer count is modelled.
- The training script's data loading, pipelines, grid search and reports are not modelled.
- The tech-term de-org step (models/skills_matching.py:44-50) is not modelled, because it depends on entity recognition.
- SkillsMatching.SkillMapPrecedence: without the de-org step a new technology term maps to itself. In the source it may instead map to its de-orged text, which is set first.
- SkillsMatching.BuildSkillMap: de-orged texts are added to `patterns` in the source. The model's `patterns == keys` therefore does not cover them.
- SkillsMatching: a pattern document (`nlp.make_doc`) is represented by its text. The pattern set is a set of texts, not of distinct document objects.
- SkillsMatching: building the O*NET term sets from the CSV columns (models/skills_matching.py:20-22) is not modelled. The sets are inputs.
- SkillsMatching: dictionaries are `map`s, so insertion order is not modelled. A missing `preferredLabel` (NaN) is not modelled.
- SkillsUtils: the extracted dictionary is a sequence of entries with distinct keys, which keeps insertion order.
- JobAggregator.FetchedIds and JobAggregator.NonMatchingIgnored are stated for any row builder. RowForUid supplies the fact that `build_row` gives a row the listing's uid.
- JobAggregator.CollectRows models the per-listing loop shared by every fetcher. Paging, error handling, the `break` on an empty page and the field extraction of each board are not modelled.
- `reset_index` and the early return of `main` on an empty job list only affect output and are not modelled. JSON fields that are `None` are taken as strings.
- Redaction.SpliceEntities: its contract is the right-to-left splice `SpliceAll`. The left-to-right reading is the separate lemma Redaction.SpliceOffsetStable, which requires ordered, non-overlapping, in-bounds spans (what spaCy produces).
- ResumeCategories.TopKPrefix, ResumeCategories.HitMonotone and ResumeCategories.HitCountMonotone need k1 >= 0. Python's `[:k]` with negative k counts from the end and is not monotone.
- The Flask layer (backend/app.py) is not part of this model.
