/** The part of the command-line entry point that prepares the context for the
    language model: split the book into paragraphs, keep the relevant ones,
    concatenate them, and fail with `InformationNotFoundException` when
    nothing is left. Language detection, translation and the model call are
    not modelled; the similarity scores are an input. */
module AnswerContext {
  import opened Subsequences
  import opened ParagraphSplitter
  import opened ParagraphConcatenator
  import opened RelevanceFilter

  /** Default of `similarity_threshold` in the entry point. */
  const DefaultSimilarityThreshold: real := 0.6

  const NotFoundMessage: string := "No relevant information found for the query in the text."

  /** The context handed to the model, or the error raised instead. */
  datatype Context = Found(text: string) | InformationNotFound(message: string)

  /** Splitting the context on blank lines gives an empty first piece and then
      exactly the selected paragraphs: the paragraphs of the text at the
      positions whose score reaches the threshold, in their order in the text. */
  lemma ContextSplitsBack(text: string, minParagraphLength: int, scores: seq<real>, threshold: real)
    requires |scores| == |SplitTextIntoParagraphs(text, minParagraphLength)|
    ensures var paragraphs := SplitTextIntoParagraphs(text, minParagraphLength);
      var selected := Selection(paragraphs, scores, threshold);
      var idx := Positions(PassingMask(scores, threshold));
      AllNonEmpty(selected) &&
      Split(Concatenation(selected)) == [""] + Heads(selected) &&
      |Heads(selected)| == |idx| &&
      forall k :: 0 <= k < |idx| ==> Heads(selected)[k] == paragraphs[idx[k]]
  {
    var paragraphs := SplitTextIntoParagraphs(text, minParagraphLength);
    var selected := Selection(paragraphs, scores, threshold);
    var idx := Positions(PassingMask(scores, threshold));
    SelectionSingletons(paragraphs, scores, threshold);
    SelectionPositions(paragraphs, scores, threshold);
    PickWellSeparated(paragraphs, Heads(selected), idx);
    ConcatenationSplit(selected);
  }

  /** Lines 51-60 of the entry point, on the text the book's file yields and
      the similarity of each of its paragraphs to the question. */
  method RelevantContext(text: string, question: string, scores: seq<real>,
                         similarityThreshold: real, minParagraphLength: int)
    returns (context: Context)
    requires |scores| == |SplitTextIntoParagraphs(text, minParagraphLength)|
    ensures context.InformationNotFound? <==> forall i :: 0 <= i < |scores| ==> scores[i] < similarityThreshold
    ensures context.InformationNotFound? ==> context.message == NotFoundMessage
    ensures context.Found? ==>
      var paragraphs := SplitTextIntoParagraphs(text, minParagraphLength);
      var selected := Selection(paragraphs, scores, similarityThreshold);
      AllNonEmpty(selected) && context.text == Concatenation(selected) &&
      Split(context.text) == [""] + Heads(selected)
  {
    var paragraphs := SplitTextIntoParagraphs(text, minParagraphLength);
    var extractor := new RelevantParagraphExtractor(paragraphs, question, similarityThreshold);
    var relevant := extractor.GetRelevantParagraphs(scores);
    SelectionSingletons(paragraphs, scores, similarityThreshold);
    var joined := ConcatenateParagraphs(relevant);
    ConcatenationEmpty(relevant);
    SelectionEmpty(paragraphs, scores, similarityThreshold);
    ContextSplitsBack(text, minParagraphLength, scores, similarityThreshold);
    if |joined| == 0 {
      context := InformationNotFound(NotFoundMessage);
    } else {
      context := Found(joined);
    }
  }
}
