/** `concatenate_paragraphs`: the selected sections (each a list whose first
    element is a paragraph) become one context string, every paragraph
    preceded by a blank-line separator. */
module ParagraphConcatenator {
  import opened ParagraphSplitter

  /** Every section has a first element; `section[0]` on an empty section
      raises `IndexError` in the source. */
  predicate AllNonEmpty(sections: seq<seq<string>>) {
    forall k :: 0 <= k < |sections| ==> sections[k] != []
  }

  /** The first element of every section, in order. */
  function Heads(sections: seq<seq<string>>): (heads: seq<string>)
    requires AllNonEmpty(sections)
    ensures |heads| == |sections|
    ensures forall k :: 0 <= k < |sections| ==> heads[k] == sections[k][0]
  {
    seq(|sections|, k requires 0 <= k < |sections| => sections[k][0])
  }

  /** The string the accumulator holds after the given sections: the
      separator and the first element of each section, appended in order. */
  function Concatenation(sections: seq<seq<string>>): string
    requires AllNonEmpty(sections)
  {
    if sections == [] then ""
    else
      var n := |sections| - 1;
      Concatenation(sections[..n]) + Separator + sections[n][0]
  }

  /** The loop of `concatenate_paragraphs`. */
  method ConcatenateParagraphs(sections: seq<seq<string>>) returns (text: string)
    requires AllNonEmpty(sections)
    ensures text == Concatenation(sections)
  {
    text := "";
    for i := 0 to |sections|
      invariant text == Concatenation(sections[..i])
    {
      assert sections[..i + 1][..i] == sections[..i];
      text := text + Separator + sections[i][0];
    }
    assert sections[..|sections|] == sections;
  }

  /** Sum over the sections of the separator's length plus the first
      element's length. */
  function TotalLength(sections: seq<seq<string>>): nat
    requires AllNonEmpty(sections)
  {
    if sections == [] then 0
    else 2 + |sections[0][0]| + TotalLength(sections[1..])
  }

  /** The length of the context is the sum of `2 + |section[0]|`. */
  lemma {:induction false} ConcatenationLength(sections: seq<seq<string>>)
    requires AllNonEmpty(sections)
    ensures |Concatenation(sections)| == TotalLength(sections)
    decreases |sections|
  {
    if sections != [] {
      var n := |sections| - 1;
      ConcatenationLength(sections[..n]);
      TotalLengthSnoc(sections[..n], sections[n]);
      assert sections[..n] + [sections[n]] == sections;
    }
  }

  /** `TotalLength` read from the back. */
  lemma {:induction false} TotalLengthSnoc(sections: seq<seq<string>>, last: seq<string>)
    requires AllNonEmpty(sections) && last != []
    ensures TotalLength(sections + [last]) == TotalLength(sections) + 2 + |last[0]|
    decreases |sections|
  {
    if sections != [] {
      assert (sections + [last])[1..] == sections[1..] + [last];
      TotalLengthSnoc(sections[1..], last);
    }
  }

  /** The context is empty exactly when there are no sections; otherwise it
      starts with the separator. */
  lemma ConcatenationEmpty(sections: seq<seq<string>>)
    requires AllNonEmpty(sections)
    ensures Concatenation(sections) == "" <==> sections == []
    ensures sections != [] ==> Separator <= Concatenation(sections)
  {
    ConcatenationLength(sections);
    if sections != [] {
      assert Concatenation(sections) == Separator + Join(Heads(sections)) by {
        ConcatenationJoin(sections);
      }
    }
  }

  /** A non-empty context is the separator followed by the first elements of
      the sections joined with the separator. */
  lemma {:induction false} ConcatenationJoin(sections: seq<seq<string>>)
    requires AllNonEmpty(sections) && sections != []
    ensures Concatenation(sections) == Separator + Join(Heads(sections))
    decreases |sections|
  {
    var n := |sections| - 1;
    var front := sections[..n];
    if n > 0 {
      ConcatenationJoin(front);
      assert Heads(sections) == Heads(front) + [sections[n][0]];
      JoinSnoc(Heads(front), sections[n][0]);
    } else {
      assert Heads(sections) == [sections[0][0]];
    }
  }

  /** `Join` read from the back. */
  lemma {:induction false} JoinSnoc(pieces: seq<string>, last: string)
    requires pieces != []
    ensures Join(pieces + [last]) == Join(pieces) + Separator + last
    decreases |pieces|
  {
    if |pieces| > 1 {
      assert (pieces + [last])[1..] == pieces[1..] + [last];
      JoinSnoc(pieces[1..], last);
    }
  }

  /** Splitting the context on blank lines again gives an empty first piece
      followed by exactly the first elements of the sections, provided these
      are shaped like the output of a split. */
  lemma ConcatenationSplit(sections: seq<seq<string>>)
    requires AllNonEmpty(sections) && WellSeparated(Heads(sections))
    ensures Split(Concatenation(sections)) == [""] + Heads(sections)
  {
    if sections != [] {
      var joined := Join(Heads(sections));
      ConcatenationJoin(sections);
      JoinSplit(Heads(sections));
      assert (Separator + joined)[2..] == joined;
    }
  }
}
