/**
 * The two helpers of the training script models/resume_categories.py:
 * `simple_normalize`, which lower-cases each document, blanks out everything
 * that is not a letter or whitespace and collapses the whitespace, and the
 * hit counter inside `top_k_accuracy`, which counts the items whose true label
 * is among the k best-scoring classes.
 *
 * The classifier's `decision_function` is not modelled: its scores arrive as
 * one integer row per item.  The final ratio `correct / len(y_true)` is a
 * floating-point division and is left out; the count is modelled.
 */
module ResumeCategories {
  import opened PyText
  import ResumeUtils
  import Collections

  // ---------------------------------------------------------------- simple_normalize

  /** `re.sub(r"[^a-z\s]", " ", text)`: every character that is neither a lower-case
      letter nor whitespace becomes a space. */
  function KeepLetters(s: string): string {
    seq(|s|, i requires 0 <= i < |s| => if IsLowerLetter(s[i]) || IsSpace(s[i]) then s[i] else ' ')
  }

  /** What `simple_normalize` makes of one document. */
  function NormalizeDoc(doc: string): string {
    Normalize(KeepLetters(Lower(doc)))
  }

  /** Only lower-case letters and spaces. */
  predicate LettersAndSpaces(s: string) {
    forall i :: 0 <= i < |s| ==> IsLowerLetter(s[i]) || s[i] == ' '
  }

  /** `simple_normalize(docs)`: one cleaned string per document, in order. */
  method SimpleNormalize(docs: seq<string>) returns (cleaned: seq<string>)
    ensures |cleaned| == |docs|
    ensures forall i :: 0 <= i < |docs| ==> cleaned[i] == NormalizeDoc(docs[i])
  {
    cleaned := [];
    for i := 0 to |docs|
      invariant |cleaned| == i
      invariant forall j :: 0 <= j < i ==> cleaned[j] == NormalizeDoc(docs[j])
    {
      var text := Lower(docs[i]);
      text := KeepLetters(text);
      text := Normalize(text);
      cleaned := cleaned + [text];
    }
  }

  /** A cleaned document holds only lower-case letters and single spaces, with no
      space at either end. */
  lemma NormalizeDocShape(doc: string)
    ensures LettersAndSpaces(NormalizeDoc(doc))
    ensures Normalized(NormalizeDoc(doc))
  {
    var t := KeepLetters(Lower(doc));
    var r := Normalize(t);
    NormalizeChars(t);
    forall i | 0 <= i < |r| ensures IsLowerLetter(r[i]) || r[i] == ' ' {
      assert r[i] in r;
      if r[i] != ' ' {
        var j :| 0 <= j < |t| && t[j] == r[i];
      }
    }
  }

  /** Cleaning a cleaned document changes nothing. */
  lemma NormalizeDocIdempotent(doc: string)
    ensures NormalizeDoc(NormalizeDoc(doc)) == NormalizeDoc(doc)
  {
    var r := NormalizeDoc(doc);
    NormalizeDocShape(doc);
    assert Lower(r) == r;
    assert KeepLetters(r) == r;
    NormalizeFixesNormalized(r);
  }

  // ---------------------------------------------------------------- top_k_accuracy

  /** `classes[np.argsort(scores)[::-1][:k]]`: the labels of the k best-scoring classes,
      with Python's slice rules for k. */
  function TopKLabels(classes: seq<string>, scores: seq<int>, k: int): seq<string>
    requires |scores| == |classes|
  {
    var idx := PyPrefix(ResumeUtils.Rank(scores), k);
    seq(|idx|, j requires 0 <= j < |idx| => classes[idx[j]])
  }

  /** `true_label in top_k_labels` */
  predicate Hit(classes: seq<string>, scores: seq<int>, truth: string, k: int)
    requires |scores| == |classes|
  {
    truth in TopKLabels(classes, scores, k)
  }

  /** One score row per item, one score per class in each row. */
  predicate Shaped(classes: seq<string>, scores: seq<seq<int>>, yTrue: seq<string>) {
    |scores| == |yTrue| && forall i :: 0 <= i < |scores| ==> |scores[i]| == |classes|
  }

  /** Whether each item is a hit. */
  function HitFlags(classes: seq<string>, scores: seq<seq<int>>, yTrue: seq<string>, k: int): (fs: seq<bool>)
    requires Shaped(classes, scores, yTrue)
    ensures |fs| == |yTrue|
  {
    seq(|yTrue|, i requires 0 <= i < |yTrue| => Hit(classes, scores[i], yTrue[i], k))
  }

  /** The number of items whose true label is among the k best classes. */
  function HitCount(classes: seq<string>, scores: seq<seq<int>>, yTrue: seq<string>, k: int): nat
    requires Shaped(classes, scores, yTrue)
  {
    Collections.CountTrue(HitFlags(classes, scores, yTrue, k))
  }

  /** The `correct` counter of `top_k_accuracy`. */
  method TopKHits(classes: seq<string>, scores: seq<seq<int>>, yTrue: seq<string>, k: int) returns (correct: nat)
    requires Shaped(classes, scores, yTrue)
    ensures correct == HitCount(classes, scores, yTrue, k)
  {
    ghost var flags := HitFlags(classes, scores, yTrue, k);
    correct := 0;
    for i := 0 to |yTrue|
      invariant correct == Collections.CountTrue(flags[..i])
    {
      var topK := TopKLabels(classes, scores[i], k);
      Collections.CountTrueSnoc(flags, i);
      assert flags[i] == (yTrue[i] in topK);
      if yTrue[i] in topK {
        correct := correct + 1;
      }
    }
    assert flags[..|yTrue|] == flags;
  }

  /** The count is at most the number of items. */
  lemma HitCountBounds(classes: seq<string>, scores: seq<seq<int>>, yTrue: seq<string>, k: int)
    requires Shaped(classes, scores, yTrue)
    ensures HitCount(classes, scores, yTrue, k) <= |yTrue|
  {
    Collections.CountTrueBounds(HitFlags(classes, scores, yTrue, k));
  }

  /** The count equals the number of items exactly when every item is a hit. */
  lemma HitCountFull(classes: seq<string>, scores: seq<seq<int>>, yTrue: seq<string>, k: int)
    requires Shaped(classes, scores, yTrue)
    ensures HitCount(classes, scores, yTrue, k) == |yTrue| <==>
      forall i :: 0 <= i < |yTrue| ==> Hit(classes, scores[i], yTrue[i], k)
  {
    var fs := HitFlags(classes, scores, yTrue, k);
    Collections.CountTrueBounds(fs);
    if Collections.CountTrue(fs) == |yTrue| {
      forall i | 0 <= i < |yTrue| ensures Hit(classes, scores[i], yTrue[i], k) {
        assert fs[i];
      }
    }
    if forall i :: 0 <= i < |yTrue| ==> Hit(classes, scores[i], yTrue[i], k) {
      forall i | 0 <= i < |fs| ensures fs[i] {
        assert Hit(classes, scores[i], yTrue[i], k);
      }
    }
  }

  /** The count is 0 exactly when no item is a hit. */
  lemma HitCountZero(classes: seq<string>, scores: seq<seq<int>>, yTrue: seq<string>, k: int)
    requires Shaped(classes, scores, yTrue)
    ensures HitCount(classes, scores, yTrue, k) == 0 <==>
      forall i :: 0 <= i < |yTrue| ==> !Hit(classes, scores[i], yTrue[i], k)
  {
    var fs := HitFlags(classes, scores, yTrue, k);
    Collections.CountTrueBounds(fs);
    if Collections.CountTrue(fs) == 0 {
      forall i | 0 <= i < |yTrue| ensures !Hit(classes, scores[i], yTrue[i], k) {
        assert !fs[i];
      }
    }
    if forall i :: 0 <= i < |yTrue| ==> !Hit(classes, scores[i], yTrue[i], k) {
      forall i | 0 <= i < |fs| ensures !fs[i] {
        assert !Hit(classes, scores[i], yTrue[i], k);
      }
    }
  }

  /** For 0 <= k1 <= k2, the k1 best labels are the first of the k2 best ones. */
  lemma TopKPrefix(classes: seq<string>, scores: seq<int>, k1: int, k2: int)
    requires |scores| == |classes| && 0 <= k1 <= k2
    ensures TopKLabels(classes, scores, k1) <= TopKLabels(classes, scores, k2)
  {
  }

  /** With 0 <= k1 <= k2, every hit for k1 is a hit for k2. */
  lemma HitMonotone(classes: seq<string>, scores: seq<int>, truth: string, k1: int, k2: int)
    requires |scores| == |classes| && 0 <= k1 <= k2
    ensures Hit(classes, scores, truth, k1) ==> Hit(classes, scores, truth, k2)
  {
    TopKPrefix(classes, scores, k1, k2);
    var a, b := TopKLabels(classes, scores, k1), TopKLabels(classes, scores, k2);
    if truth in a {
      var j :| 0 <= j < |a| && a[j] == truth;
      assert b[j] == truth;
    }
  }

  /** The hit count does not decrease as k grows from 0. */
  lemma HitCountMonotone(classes: seq<string>, scores: seq<seq<int>>, yTrue: seq<string>, k1: int, k2: int)
    requires Shaped(classes, scores, yTrue) && 0 <= k1 <= k2
    ensures HitCount(classes, scores, yTrue, k1) <= HitCount(classes, scores, yTrue, k2)
  {
    var a, b := HitFlags(classes, scores, yTrue, k1), HitFlags(classes, scores, yTrue, k2);
    forall i | 0 <= i < |a| && a[i] ensures b[i] {
      HitMonotone(classes, scores[i], yTrue[i], k1, k2);
    }
    Collections.CountTrueMonotone(a, b);
  }

  /** Once k reaches the number of classes, a true label is a hit exactly when it is a class. */
  lemma HitAllClasses(classes: seq<string>, scores: seq<int>, truth: string, k: int)
    requires |scores| == |classes| && k >= |classes|
    ensures Hit(classes, scores, truth, k) <==> truth in classes
  {
    var r := ResumeUtils.Rank(scores);
    var t := TopKLabels(classes, scores, k);
    assert PyPrefix(r, k) == r;
    if truth in classes {
      var j :| 0 <= j < |classes| && classes[j] == truth;
      ResumeUtils.RankCovers(scores, j);
      var p :| 0 <= p < |r| && r[p] == j;
      assert t[p] == truth;
    }
    if truth in t {
      var p :| 0 <= p < |t| && t[p] == truth;
      assert classes[r[p]] == truth;
    }
  }

  /** With k at least the number of classes and every true truth a class, every item is a hit. */
  lemma HitCountAll(classes: seq<string>, scores: seq<seq<int>>, yTrue: seq<string>, k: int)
    requires Shaped(classes, scores, yTrue) && k >= |classes|
    requires forall i :: 0 <= i < |yTrue| ==> yTrue[i] in classes
    ensures HitCount(classes, scores, yTrue, k) == |yTrue|
  {
    forall i | 0 <= i < |yTrue| ensures Hit(classes, scores[i], yTrue[i], k) {
      HitAllClasses(classes, scores[i], yTrue[i], k);
    }
    HitCountFull(classes, scores, yTrue, k);
  }
}
