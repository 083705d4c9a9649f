/** Splitting text on a newline and joining it back, as search and paging both do. */
module Lines {

  const NEWLINE: char := '\n'

  /** Python's `text.split("\n")`: one more segment than there are newlines. */
  function Split(text: string): (lines: seq<string>)
    ensures lines != []
    decreases |text|
  {
    if text == "" then [""]
    else
      var rest := Split(text[1..]);
      if text[0] == NEWLINE then [""] + rest else [[text[0]] + rest[0]] + rest[1..]
  }

  /** Python's `"\n".join(lines)`. */
  function Join(lines: seq<string>): string
    decreases |lines|
  {
    if lines == [] then ""
    else if |lines| == 1 then lines[0]
    else lines[0] + [NEWLINE] + Join(lines[1..])
  }

  lemma {:induction false} JoinSplit(text: string)
    ensures Join(Split(text)) == text
    decreases |text|
  {
    if text != "" {
      JoinSplit(text[1..]);
      var lines, rest := Split(text), Split(text[1..]);
      if text[0] == NEWLINE {
        assert lines[1..] == rest;
        assert Join(lines) == "" + [NEWLINE] + Join(rest);
      } else if |rest| == 1 {
        assert Join(lines) == [text[0]] + rest[0];
      } else {
        assert lines[1..] == rest[1..];
        assert Join(lines) == [text[0]] + rest[0] + [NEWLINE] + Join(rest[1..]);
      }
      assert text == [text[0]] + text[1..];
    }
  }

  lemma {:induction false} SegmentsHoldNoNewline(text: string)
    ensures forall line <- Split(text) :: NEWLINE !in line
    decreases |text|
  {
    if text != "" {
      SegmentsHoldNoNewline(text[1..]);
      assert Split(text[1..])[0] in Split(text[1..]);
    }
  }

  /** Joining two runs of lines with one newline joins the whole. */
  lemma {:induction false} JoinConcat(xs: seq<string>, ys: seq<string>)
    requires xs != [] && ys != []
    ensures Join(xs + ys) == Join(xs) + [NEWLINE] + Join(ys)
    decreases |xs|
  {
    if |xs| == 1 {
      assert (xs + ys)[1..] == ys;
    } else {
      JoinConcat(xs[1..], ys);
      assert (xs + ys)[1..] == xs[1..] + ys;
    }
  }
}
