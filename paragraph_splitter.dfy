/** `split_text_into_paragraphs`: the text of the book is cut at every blank
    line (Python's `str.split` on the separator "\n\n") and only the pieces
    longer than a minimum length are kept. Reading the file is not modelled:
    the functions here start from the string the file yields. */
module ParagraphSplitter {
  import opened Subsequences

  /** The separator the source splits on: two consecutive newlines. */
  const Separator: string := "\n\n"

  /** Default of `min_paragraph_length` in the splitter's signature. */
  const DefaultMinParagraphLength: int := 30

  /** `p` holds no occurrence of the separator. */
  predicate FreeOfSeparator(p: string) {
    forall i :: 0 <= i < |p| - 1 ==> p[i] == '\n' ==> p[i + 1] != '\n'
  }

  predicate EndsWithNewline(p: string) {
    |p| > 0 && p[|p| - 1] == '\n'
  }

  /** The shape of the pieces a split produces: no piece holds the separator,
      and no piece but the last ends with a newline (otherwise that newline and
      the following separator would have matched one character earlier). */
  predicate WellSeparated(pieces: seq<string>) {
    (forall k :: 0 <= k < |pieces| ==> FreeOfSeparator(pieces[k])) &&
    (forall k :: 0 <= k < |pieces| - 1 ==> !EndsWithNewline(pieces[k]))
  }

  /** Python's `'\n\n'.join(pieces)`. */
  function Join(pieces: seq<string>): string {
    if pieces == [] then ""
    else if |pieces| == 1 then pieces[0]
    else pieces[0] + Separator + Join(pieces[1..])
  }

  /** Python's `text.split('\n\n')`: matches are taken left to right without
      overlap, and empty pieces are kept. The first piece is the text up to the
      first separator, or the whole text when there is none. */
  function Split(text: string): (pieces: seq<string>)
    ensures |pieces| >= 1
    ensures pieces[0] <= text
    ensures |pieces| == 1 ==> pieces[0] == text
    ensures |pieces| >= 2 ==>
      |pieces[0]| + 2 <= |text| && text[|pieces[0]|] == '\n' && text[|pieces[0]| + 1] == '\n'
    decreases |text|
  {
    if |text| < 2 then [text]
    else if text[0] == '\n' && text[1] == '\n' then [""] + Split(text[2..])
    else
      var rest := Split(text[1..]);
      [[text[0]] + rest[0]] + rest[1..]
  }

  /** Prepending a character to the first piece prepends it to the join. */
  lemma JoinConsFirst(c: char, pieces: seq<string>)
    requires pieces != []
    ensures Join([[c] + pieces[0]] + pieces[1..]) == [c] + Join(pieces)
  {
    var q := [[c] + pieces[0]] + pieces[1..];
    if |pieces| > 1 {
      assert q[1..] == pieces[1..];
    }
  }

  /** Joining the pieces of a split with the separator gives back the text. */
  lemma {:induction false} SplitJoin(text: string)
    ensures Join(Split(text)) == text
    decreases |text|
  {
    if |text| < 2 {
    } else if text[0] == '\n' && text[1] == '\n' {
      var rest := Split(text[2..]);
      SplitJoin(text[2..]);
      assert ([""] + rest)[1..] == rest;
      assert text == Separator + text[2..];
    } else {
      var rest := Split(text[1..]);
      SplitJoin(text[1..]);
      JoinConsFirst(text[0], rest);
      assert text == [text[0]] + text[1..];
    }
  }

  /** The pieces of a split never hold the separator, and only the last may
      end with a newline. */
  lemma {:induction false} SplitWellSeparated(text: string)
    ensures WellSeparated(Split(text))
    decreases |text|
  {
    if |text| < 2 {
    } else if text[0] == '\n' && text[1] == '\n' {
      SplitWellSeparated(text[2..]);
      var rest := Split(text[2..]);
      var pieces := [""] + rest;
      forall k | 0 <= k < |pieces| ensures FreeOfSeparator(pieces[k]) {
        if k > 0 { assert pieces[k] == rest[k - 1]; }
      }
      forall k | 0 <= k < |pieces| - 1 ensures !EndsWithNewline(pieces[k]) {
        if k > 0 { assert pieces[k] == rest[k - 1]; }
      }
    } else {
      SplitWellSeparated(text[1..]);
      var rest := Split(text[1..]);
      var head := [text[0]] + rest[0];
      var pieces := [head] + rest[1..];
      assert FreeOfSeparator(head) by {
        forall i | 0 <= i < |head| - 1 && head[i] == '\n' ensures head[i + 1] != '\n' {
          if i == 0 {
            assert head[1] == rest[0][0] == text[1];
          } else {
            assert head[i] == rest[0][i - 1] && head[i + 1] == rest[0][i];
          }
        }
      }
      assert |pieces| > 1 ==> !EndsWithNewline(head) by {
        if |pieces| > 1 && |rest[0]| == 0 {
          assert text[1] == '\n';
        }
      }
      forall k | 0 <= k < |pieces| ensures FreeOfSeparator(pieces[k]) {
        if k > 0 { assert pieces[k] == rest[k]; }
      }
      forall k | 0 <= k < |pieces| - 1 ensures !EndsWithNewline(pieces[k]) {
        if k > 0 { assert pieces[k] == rest[k]; }
      }
    }
  }

  /** Text without a separator is not cut at all. */
  lemma {:induction false} SplitFree(p: string)
    requires FreeOfSeparator(p)
    ensures Split(p) == [p]
    decreases |p|
  {
    if |p| >= 2 {
      assert FreeOfSeparator(p[1..]) by {
        forall i | 0 <= i < |p[1..]| - 1 && p[1..][i] == '\n' ensures p[1..][i + 1] != '\n' {
          assert p[i + 1] == '\n';
        }
      }
      SplitFree(p[1..]);
      assert [p[0]] + p[1..] == p;
    }
  }

  /** A separator-free piece that does not end with a newline is cut off at
      the separator that follows it. */
  lemma {:induction false} SplitAfterPiece(p: string, rest: string)
    requires FreeOfSeparator(p) && !EndsWithNewline(p)
    ensures Split(p + Separator + rest) == [p] + Split(rest)
    decreases |p|
  {
    var text := p + Separator + rest;
    if p == [] {
      assert text[2..] == rest;
    } else {
      var tail := p[1..];
      assert text[1..] == tail + Separator + rest;
      assert !(text[0] == '\n' && text[1] == '\n') by {
        if |p| == 1 {
          assert p[0] != '\n';
        } else {
          assert text[1] == p[1];
        }
      }
      assert FreeOfSeparator(tail) by {
        forall i | 0 <= i < |tail| - 1 && tail[i] == '\n' ensures tail[i + 1] != '\n' {
          assert p[i + 1] == '\n';
        }
      }
      assert !EndsWithNewline(tail);
      SplitAfterPiece(tail, rest);
      assert [p[0]] + tail == p;
    }
  }

  /** The converse of `SplitJoin`: splitting the join of a non-empty,
      well-separated list gives the list back. With `SplitJoin` and
      `SplitWellSeparated` this makes `Split` a bijection between strings and
      non-empty well-separated lists, so it is the only function with those
      properties. */
  lemma {:induction false} JoinSplit(pieces: seq<string>)
    requires pieces != [] && WellSeparated(pieces)
    ensures Split(Join(pieces)) == pieces
    decreases |pieces|
  {
    if |pieces| == 1 {
      SplitFree(pieces[0]);
    } else {
      var rest := pieces[1..];
      assert WellSeparated(rest) by {
        forall k | 0 <= k < |rest| ensures FreeOfSeparator(rest[k]) {
          assert rest[k] == pieces[k + 1];
        }
        forall k | 0 <= k < |rest| - 1 ensures !EndsWithNewline(rest[k]) {
          assert rest[k] == pieces[k + 1];
        }
      }
      JoinSplit(rest);
      assert FreeOfSeparator(pieces[0]) && !EndsWithNewline(pieces[0]);
      SplitAfterPiece(pieces[0], Join(rest));
      assert [pieces[0]] + rest == pieces;
    }
  }

  /** Whether each piece is longer than `minLength`. */
  function LongerMask(pieces: seq<string>, minLength: int): (mask: seq<bool>)
    ensures |mask| == |pieces|
    ensures forall i :: 0 <= i < |pieces| ==> (mask[i] <==> |pieces[i]| > minLength)
  {
    seq(|pieces|, i requires 0 <= i < |pieces| => |pieces[i]| > minLength)
  }

  /** The list comprehension `[line for line in txt if len(line) > minLength]`. */
  function KeepLongerThan(pieces: seq<string>, minLength: int): (kept: seq<string>)
    ensures |kept| <= |pieces|
    ensures forall p :: p in kept ==> p in pieces && |p| > minLength
    ensures forall p :: p in pieces && |p| > minLength ==> p in kept
  {
    if pieces == [] then []
    else
      var n := |pieces| - 1;
      var front := pieces[..n];
      assert pieces == front + [pieces[n]];
      KeepLongerThan(front, minLength) + (if |pieces[n]| > minLength then [pieces[n]] else [])
  }

  /** The filter keeps, in their original order and once each, exactly the
      pieces whose position passes the length test. */
  lemma {:induction false} KeepLongerThanPositions(pieces: seq<string>, minLength: int)
    ensures var idx := Positions(LongerMask(pieces, minLength));
      var kept := KeepLongerThan(pieces, minLength);
      |kept| == |idx| && forall k :: 0 <= k < |idx| ==> kept[k] == pieces[idx[k]]
  {
    if pieces != [] {
      var n := |pieces| - 1;
      var front := pieces[..n];
      KeepLongerThanPositions(front, minLength);
      var mask := LongerMask(pieces, minLength);
      assert mask[..n] == LongerMask(front, minLength);
      var frontIdx := Positions(mask[..n]);
      var frontKept := KeepLongerThan(front, minLength);
      forall k | 0 <= k < |frontIdx| ensures frontKept[k] == pieces[frontIdx[k]] {
        assert frontKept[k] == front[frontIdx[k]];
      }
      AppendPick(pieces, mask, frontIdx, frontKept);
      assert KeepLongerThan(pieces, minLength) == frontKept + (if mask[n] then [pieces[n]] else []);
    }
  }

  /** Any list picked out of a well-separated list by increasing positions is
      well-separated: a piece that is not last in the pick was not last in the
      original list. */
  lemma PickWellSeparated(pieces: seq<string>, picked: seq<string>, idx: seq<nat>)
    requires WellSeparated(pieces)
    requires StrictlyIncreasingBelow(idx, |pieces|) && |picked| == |idx|
    requires forall k :: 0 <= k < |idx| ==> picked[k] == pieces[idx[k]]
    ensures WellSeparated(picked)
  {
    forall k | 0 <= k < |picked| - 1 ensures !EndsWithNewline(picked[k]) {
      assert idx[k] < idx[k + 1] < |pieces|;
    }
  }

  /** `split_text_into_paragraphs` on the contents of the file. */
  function SplitTextIntoParagraphs(text: string, minParagraphLength: int): (paragraphs: seq<string>)
    ensures forall p :: p in paragraphs ==> |p| > minParagraphLength && FreeOfSeparator(p)
    ensures WellSeparated(paragraphs)
  {
    var pieces := Split(text);
    SplitWellSeparated(text);
    KeepLongerThanPositions(pieces, minParagraphLength);
    PickWellSeparated(pieces, KeepLongerThan(pieces, minParagraphLength),
                      Positions(LongerMask(pieces, minParagraphLength)));
    KeepLongerThan(pieces, minParagraphLength)
  }

  /** The paragraphs are exactly the blank-line-separated pieces of the text
      that are longer than the minimum, in their order in the text. */
  lemma ParagraphsOfText(text: string, minParagraphLength: int)
    ensures var pieces := Split(text);
      var idx := Positions(LongerMask(pieces, minParagraphLength));
      var paragraphs := SplitTextIntoParagraphs(text, minParagraphLength);
      Join(pieces) == text &&
      |paragraphs| == |idx| &&
      (forall k :: 0 <= k < |idx| ==> paragraphs[k] == pieces[idx[k]]) &&
      (forall i :: 0 <= i < |pieces| ==> (i in idx <==> |pieces[i]| > minParagraphLength))
  {
    SplitJoin(text);
    KeepLongerThanPositions(Split(text), minParagraphLength);
  }

  /** A paragraph of exactly the minimum length is dropped, and a longer one
      after it is kept. */
  lemma PieceOfMinimumLengthDropped(short: string, long: string, minLength: int)
    requires FreeOfSeparator(short) && !EndsWithNewline(short) && FreeOfSeparator(long)
    requires |short| == minLength < |long|
    ensures SplitTextIntoParagraphs(short + Separator + long, minLength) == [long]
  {
    var pieces := [short, long];
    JoinSplit(pieces);
    assert pieces[..1] == [short];
    assert KeepLongerThan([short], minLength) == [];
  }
}
