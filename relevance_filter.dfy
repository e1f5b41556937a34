/** `RelevantParagraphExtractor`: keeps the paragraphs whose relevance score
    against the query reaches the threshold, in their original order, each
    wrapped in a one-element list. The scores themselves (TF-IDF vectors of
    the query and the paragraphs, then cosine similarity) are an input here:
    one real per paragraph. */
module RelevanceFilter {
  import opened Subsequences
  import opened ParagraphConcatenator

  /** Default of `relevance_threshold` in the extractor's constructor. */
  const DefaultRelevanceThreshold: real := 0.25

  /** Whether each score reaches the threshold. */
  function PassingMask(scores: seq<real>, threshold: real): (mask: seq<bool>)
    ensures |mask| == |scores|
    ensures forall i :: 0 <= i < |scores| ==> (mask[i] <==> scores[i] >= threshold)
  {
    seq(|scores|, i requires 0 <= i < |scores| => scores[i] >= threshold)
  }

  /** What the selection loop has appended after visiting the given scores:
      `[paragraphs[i]]` for each visited index `i` whose score reaches the
      threshold. */
  function Selection(paragraphs: seq<string>, scores: seq<real>, threshold: real): seq<seq<string>>
    requires |scores| <= |paragraphs|
  {
    if scores == [] then []
    else
      var n := |scores| - 1;
      Selection(paragraphs, scores[..n], threshold)
        + (if scores[n] >= threshold then [[paragraphs[n]]] else [])
  }

  class RelevantParagraphExtractor {
    const paragraphs: seq<string>
    const query: string
    const relevanceThreshold: real

    constructor (paragraphs: seq<string>, query: string, relevanceThreshold: real)
      ensures this.paragraphs == paragraphs && this.query == query
      ensures this.relevanceThreshold == relevanceThreshold
    {
      this.paragraphs := paragraphs;
      this.query := query;
      this.relevanceThreshold := relevanceThreshold;
    }

    /** The constructor called without a threshold. */
    constructor WithDefaultThreshold(paragraphs: seq<string>, query: string)
      ensures this.paragraphs == paragraphs && this.query == query
      ensures this.relevanceThreshold == DefaultRelevanceThreshold
    {
      this.paragraphs := paragraphs;
      this.query := query;
      this.relevanceThreshold := DefaultRelevanceThreshold;
    }

    /** The selection loop of `get_relevant_paragraphs`, with `scores[i]` the
        similarity of paragraph `i` to the query. */
    method GetRelevantParagraphs(scores: seq<real>) returns (relevant: seq<seq<string>>)
      requires |scores| == |paragraphs|
      ensures relevant == Selection(paragraphs, scores, relevanceThreshold)
    {
      relevant := [];
      for i := 0 to |scores|
        invariant relevant == Selection(paragraphs, scores[..i], relevanceThreshold)
      {
        assert scores[..i + 1][..i] == scores[..i];
        if scores[i] >= relevanceThreshold {
          relevant := relevant + [[paragraphs[i]]];
        }
      }
      assert scores[..|scores|] == scores;
    }
  }

  /** The selection holds, in increasing index order and once per index,
      `[paragraphs[i]]` for exactly the indices `i` whose score reaches the
      threshold. */
  lemma {:induction false} SelectionPositions(paragraphs: seq<string>, scores: seq<real>, threshold: real)
    requires |scores| <= |paragraphs|
    ensures var idx := Positions(PassingMask(scores, threshold));
      var selected := Selection(paragraphs, scores, threshold);
      |selected| == |idx| && forall k :: 0 <= k < |idx| ==> selected[k] == [paragraphs[idx[k]]]
  {
    if scores != [] {
      var n := |scores| - 1;
      SelectionPositions(paragraphs, scores[..n], threshold);
      var mask := PassingMask(scores, threshold);
      assert mask[..n] == PassingMask(scores[..n], threshold);
      var wrapped := seq(|paragraphs|, i requires 0 <= i < |paragraphs| => [paragraphs[i]]);
      AppendPick(wrapped[..|scores|], mask, Positions(mask[..n]), Selection(paragraphs, scores[..n], threshold));
    }
  }

  /** Soundness: every section of the selection is a one-element list holding
      a paragraph whose score reaches the threshold. Completeness: every
      paragraph whose score reaches the threshold is selected. Neither holds
      of a paragraph position whose score is below it. */
  lemma SelectionSoundAndComplete(paragraphs: seq<string>, scores: seq<real>, threshold: real)
    requires |scores| == |paragraphs|
    ensures |Selection(paragraphs, scores, threshold)| <= |paragraphs|
    ensures forall section :: section in Selection(paragraphs, scores, threshold) ==>
      exists i :: 0 <= i < |paragraphs| && scores[i] >= threshold && section == [paragraphs[i]]
    ensures forall i :: 0 <= i < |paragraphs| && scores[i] >= threshold ==>
      [paragraphs[i]] in Selection(paragraphs, scores, threshold)
  {
    SelectionPositions(paragraphs, scores, threshold);
    var idx := Positions(PassingMask(scores, threshold));
    var selected := Selection(paragraphs, scores, threshold);
    forall section | section in selected
      ensures exists i :: 0 <= i < |paragraphs| && scores[i] >= threshold && section == [paragraphs[i]]
    {
      var k :| 0 <= k < |selected| && selected[k] == section;
      var i := idx[k];
      assert 0 <= i < |paragraphs| && scores[i] >= threshold && section == [paragraphs[i]];
    }
    forall i | 0 <= i < |paragraphs| && scores[i] >= threshold ensures [paragraphs[i]] in selected {
      var k :| 0 <= k < |idx| && idx[k] == i;
      assert selected[k] == [paragraphs[i]];
    }
  }

  /** The selection is empty exactly when no score reaches the threshold. */
  lemma SelectionEmpty(paragraphs: seq<string>, scores: seq<real>, threshold: real)
    requires |scores| <= |paragraphs|
    ensures Selection(paragraphs, scores, threshold) == [] <==>
      forall i :: 0 <= i < |scores| ==> scores[i] < threshold
  {
    SelectionPositions(paragraphs, scores, threshold);
  }

  /** Every section is a one-element list, so `concatenate_paragraphs` can
      take its first element. */
  lemma {:induction false} SelectionSingletons(paragraphs: seq<string>, scores: seq<real>, threshold: real)
    requires |scores| <= |paragraphs|
    ensures AllNonEmpty(Selection(paragraphs, scores, threshold))
    ensures forall k :: 0 <= k < |Selection(paragraphs, scores, threshold)| ==>
      |Selection(paragraphs, scores, threshold)[k]| == 1
    decreases |scores|
  {
    if scores != [] {
      SelectionSingletons(paragraphs, scores[..|scores| - 1], threshold);
    }
  }

  /** The test case of the extractor: of the four paragraphs, only the first
      and the third share a word with "I drink tea." (so only their cosine
      similarities are positive, and they are above the default threshold). */
  lemma ExtractingRelevantParagraphs(scores: seq<real>)
    requires |scores| == 4
    requires scores[0] >= DefaultRelevanceThreshold && scores[2] >= DefaultRelevanceThreshold
    requires scores[1] < DefaultRelevanceThreshold && scores[3] < DefaultRelevanceThreshold
    ensures Selection(["I drink melon soda when I am in Japan.", "I ate soup", "One tea for me", "I got two donuts"],
                      scores, DefaultRelevanceThreshold)
         == [["I drink melon soda when I am in Japan."], ["One tea for me"]]
  {
    var paragraphs := ["I drink melon soda when I am in Japan.", "I ate soup", "One tea for me", "I got two donuts"];
    var t := DefaultRelevanceThreshold;
    assert scores[..3][..2] == scores[..2];
    assert scores[..2][..1] == scores[..1];
    assert scores[..1][..0] == [];
    assert Selection(paragraphs, scores[..1], t) == [[paragraphs[0]]];
    assert Selection(paragraphs, scores[..2], t) == [[paragraphs[0]]];
    assert Selection(paragraphs, scores[..3], t) == [[paragraphs[0]], [paragraphs[2]]];
    assert scores[..4] == scores;
  }
}
