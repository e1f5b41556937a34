# Relevant-paragraph extraction, modelled in Dafny

This project models the deterministic text handling of a question-answering
script. The script answers questions about a public-domain book. The book's
text is cut into paragraphs at blank lines, and paragraphs that are too short
are dropped. The paragraphs whose relevance score against the question reaches
a threshold are kept, in book order, each wrapped in a one-element list. The
kept paragraphs are concatenated into the context handed to a language model.
When the context is empty, the script raises `InformationNotFoundException`
instead.

Modules:

- `ParagraphSplitter` (`paragraph_splitter.dfy`) covers `split_text_into_paragraphs`. It applies Python's `str.split('\n\n')` and then keeps the pieces longer than the minimum. `Split` is proved to be the inverse of `Join`, and to be the only function with that property whose pieces are well separated.
- `ParagraphConcatenator` (`paragraph_concatenator.dfy`) covers `concatenate_paragraphs`. It is an imperative loop, proved against the function `Concatenation`.
- `RelevanceFilter` (`relevance_filter.dfy`) covers the class `RelevantParagraphExtractor`. Its selection loop is a method proved against the function `Selection`. Soundness, completeness and order are proved about `Selection`.
- `AnswerContext` (`answer_context.dfy`) covers the empty-context guard of the entry point. The whole pipeline is connected end to end: the context, split again on blank lines, gives back exactly the selected paragraphs.
- `Subsequences` (`subsequences.dfy`) is a helper. `Positions(mask)` lists the indices a filter keeps, in increasing order. Both filters are characterised through it.

The entry point's docstring (src/main.py:25-26) calls `min_paragraph_length` "the minimum length a paragraph must have". That reads as if a paragraph of exactly that length is kept. The splitter keeps only pieces strictly longer than the minimum (src/algorithms/relevant_paragraph_extractor.py:9), so such a piece is dropped. The model follows the code (`PieceOfMinimumLengthDropped`).

## Model

| member | source | states |
|---|---|---|
| `ParagraphSplitter.Split` | src/algorithms/relevant_paragraph_extractor.py:8 | `str.split('\n\n')` yields at least one piece. The first piece is a prefix of the text. It is the whole text when there is a single piece. Otherwise it is followed in the text by the separator. |
| `ParagraphSplitter.SplitJoin` | src/algorithms/relevant_paragraph_extractor.py:8 | Joining the split pieces with `"\n\n"` rebuilds the original text exactly. |
| `ParagraphSplitter.SplitWellSeparated` | src/algorithms/relevant_paragraph_extractor.py:8 | No piece of the split contains `"\n\n"`. No piece but the last ends with a newline, because matches are taken left to right without overlap. |
| `ParagraphSplitter.JoinSplit` | src/algorithms/relevant_paragraph_extractor.py:8 | Splitting the join of any non-empty, well-separated list gives that list back. So the split is uniquely determined by the two lemmas above. |
| `ParagraphSplitter.SplitFree` | src/algorithms/relevant_paragraph_extractor.py:8 | A text without a blank line splits into the one-element list holding that text. |
| `ParagraphSplitter.SplitAfterPiece` | src/algorithms/relevant_paragraph_extractor.py:8 | A separator-free piece not ending in a newline, followed by the separator, becomes the first piece of the split. The rest is split on its own. |
| `ParagraphSplitter.KeepLongerThan` | src/algorithms/relevant_paragraph_extractor.py:9 | Every kept piece comes from the input and is strictly longer than the minimum. Every input piece longer than the minimum is kept. The result is no longer than the input. |
| `ParagraphSplitter.KeepLongerThanPositions` | src/algorithms/relevant_paragraph_extractor.py:9 | The filter keeps, once each and in original order, exactly the pieces at the positions that pass the length test. It is an order-preserving subsequence. |
| `ParagraphSplitter.PickWellSeparated` | src/algorithms/relevant_paragraph_extractor.py:9 | Any order-preserving pick from a well-separated list is well separated. |
| `ParagraphSplitter.SplitTextIntoParagraphs` | src/algorithms/relevant_paragraph_extractor.py:6-10 | Every returned paragraph is longer than `min_paragraph_length` and contains no blank line. The list is well separated. |
| `ParagraphSplitter.ParagraphsOfText` | src/algorithms/relevant_paragraph_extractor.py:6-10 | The paragraphs are exactly the split pieces longer than the minimum, in text order, once per position. The pieces join back to the text. |
| `ParagraphSplitter.PieceOfMinimumLengthDropped` | src/algorithms/relevant_paragraph_extractor.py:9 | A piece of exactly the minimum length is dropped, and a longer piece after it is kept. |
| `ParagraphConcatenator.ConcatenateParagraphs` | src/algorithms/relevant_paragraph_extractor.py:13-21 | The accumulator loop returns `Concatenation` of the sections: `"\n\n" + section[0]` for each section, in order. |
| `ParagraphConcatenator.ConcatenationLength` | src/algorithms/relevant_paragraph_extractor.py:18-21 | The length of the result is the sum over the sections of `2 + len(section[0])`. |
| `ParagraphConcatenator.TotalLengthSnoc` | src/algorithms/relevant_paragraph_extractor.py:18-21 | Appending a section adds `2 + len(section[0])` to the total length. |
| `ParagraphConcatenator.ConcatenationEmpty` | src/algorithms/relevant_paragraph_extractor.py:18-21 | The result is the empty string exactly when the list of sections is empty. A non-empty result starts with `"\n\n"`. |
| `ParagraphConcatenator.ConcatenationJoin` | src/algorithms/relevant_paragraph_extractor.py:18-21 | A non-empty result is `"\n\n"` followed by the first elements of the sections joined with `"\n\n"`. |
| `ParagraphConcatenator.JoinSnoc` | src/algorithms/relevant_paragraph_extractor.py:20 | Appending a piece to a non-empty list appends the separator and the piece to the join. |
| `ParagraphConcatenator.ConcatenationSplit` | src/algorithms/relevant_paragraph_extractor.py:18-21 | Splitting the result on blank lines gives an empty piece, then the first elements of the sections, when those are well separated. |
| `RelevanceFilter.RelevantParagraphExtractor.constructor` | src/algorithms/relevant_paragraph_extractor.py:56-59 | The extractor holds the paragraphs, the query and the threshold it was given. |
| `RelevanceFilter.RelevantParagraphExtractor.WithDefaultThreshold` | src/algorithms/relevant_paragraph_extractor.py:56 | Without a threshold argument, the threshold is 0.25. |
| `RelevanceFilter.RelevantParagraphExtractor.GetRelevantParagraphs` | src/algorithms/relevant_paragraph_extractor.py:69-76 | The selection loop returns `Selection`: `[paragraphs[i]]` for each index whose score is `>=` the threshold, appended in index order. |
| `RelevanceFilter.SelectionPositions` | src/algorithms/relevant_paragraph_extractor.py:71-76 | The selection holds, once per index and in increasing index order, `[paragraphs[i]]` for exactly the indices whose score reaches the threshold. |
| `RelevanceFilter.SelectionSoundAndComplete` | src/algorithms/relevant_paragraph_extractor.py:73-75 | Every selected section is `[p]` for a paragraph `p` whose score is `>=` the threshold. Every paragraph scoring `>=` the threshold is selected. The result is no longer than the paragraph list. |
| `RelevanceFilter.SelectionEmpty` | src/algorithms/relevant_paragraph_extractor.py:71-76 | The selection is empty exactly when every score is below the threshold. |
| `RelevanceFilter.SelectionSingletons` | src/algorithms/relevant_paragraph_extractor.py:75 | Every selected section is a one-element list, so `section[0]` in the concatenation is defined. |
| `RelevanceFilter.ExtractingRelevantParagraphs` | test/algorithms/relevant_paragraph_extractor_test.py:13-18 | Suppose the scores of the test's four paragraphs reach the default threshold at indices 0 and 2 only. Then the result is `[[p0], [p2]]`. |
| `AnswerContext.ContextSplitsBack` | src/main.py:39-56 | Take the paragraphs of the book's text, select by score and concatenate. Splitting that context on blank lines gives an empty piece, then the paragraphs at the passing positions, in text order. |
| `AnswerContext.RelevantContext` | src/main.py:51-60 | `InformationNotFoundException` is raised exactly when no paragraph's score reaches the threshold, with the source's message. Otherwise the context is the concatenation of the selection, and it splits back into the selected paragraphs. |

## Left out

- Opening and decoding the file in `split_text_into_paragraphs` (relevant_paragraph_extractor.py:7). The model starts from the text the file yields, as a sequence of characters.
- Computing the relevance scores (relevant_paragraph_extractor.py:64-68). This is TF-IDF fitting and cosine similarity in a foreign library. The scores are a parameter, one per paragraph, which is what that library returns. Its own errors, such as an empty vocabulary, are not modelled.
- Stop-word removal on the query (relevant_paragraph_extractor.py:58). It is a foreign library with a stop-word list that is not part of this model. `RelevantParagraphExtractor.constructor` stores the query unchanged. The query plays no part in the selection once the scores are given.
- The `vectorizer` attribute (relevant_paragraph_extractor.py:60) belongs to the score computation above.
- Floating point: scores and thresholds are reals. The model has no rounding and no NaN.
- `ParagraphConcatenator.ConcatenateParagraphs`: requires every section to be non-empty. On an empty section the source raises `IndexError`, and that path is not modelled. A caller that passes strings instead of lists, where `section[0]` is one character, is not modelled either. The only caller passes the selection, whose sections are one-element lists (`SelectionSingletons`).
- `RelevanceFilter.RelevantParagraphExtractor.GetRelevantParagraphs`: requires one score per paragraph, as the similarity computation produces.
- The numeric values in the test are not reproduced. The test's TF-IDF scores involve square roots, and the scoring library is not modelled. `ExtractingRelevantParagraphs` takes any scores with the test's pass/fail pattern.
- The rest of the entry point (src/main.py): working-directory lookup, language detection, translation, the model call and writing to standard output. These are I/O and network calls. `AnswerContext.RelevantContext` models lines 51-60 only. It takes the file's text and the scores as parameters.
- src/algorithms/translate_and_answer.py is not part of this model. It consists of calls to a hosted language model, text splitting, embeddings and a vector index.
- src/utils.py is not part of this model. It sets environment variables and defines the exception class. The exception is modelled as the `InformationNotFound` case of `AnswerContext.Context`.
