/**
 * `TestUtil.parseTestingComment` of
 * serializer/src/main/java/serializer/peg/testing/TestUtil.java: the text
 * between an `<expected>` line and the next `</expected>` line of a
 * comment, each line trimmed and followed by a space.
 */
module TestUtil {
  import opened Wrappers
  import opened JavaLang
  import opened CommentLines

  const ExpectedOpen := "<expected>"
  const ExpectedClose := "</expected>"

  /** The loop over the comment's lines: whether an open tag was seen, and the text collected since. */
  function ScanExpected(lines: seq<string>, inTag: bool, sb: string): (r: Outcome<Option<string>>)
    ensures r.Throws? ==> r.exc.kind == IllegalState
    decreases |lines|
  {
    if lines == [] then Returns(None)
    else
      var line := Trim(lines[0]);
      if line == ExpectedOpen then
        if inTag then Throws(Throw(IllegalState, "Encountered nested tags"))
        else ScanExpected(lines[1..], true, sb)
      else if line == ExpectedClose then
        if !inTag then Throws(Throw(IllegalState, "Encountered closing tag while not in an open tag in line: " + line))
        else Returns(Some(sb))
      else if inTag then ScanExpected(lines[1..], true, sb + line + " ")
      else ScanExpected(lines[1..], false, sb)
  }

  /** `parseTestingComment(comment)`: nothing for a missing comment, else the scan of its lines. */
  function ParseTestingComment(comment: Option<string>): (r: Outcome<Option<string>>)
    ensures comment.None? ==> r == Returns(None)
  {
    match comment
    case None => Returns(None)
    case Some(c) => ScanExpected(RegexSplit(TestingBreak, c), false, "")
  }

  /** Lines before the open tag that are neither tag are skipped. */
  lemma {:induction false} ScanOutside(pre: seq<string>, rest: seq<string>)
    requires TagFree(pre, ExpectedOpen, ExpectedClose)
    ensures ScanExpected(pre + rest, false, "") == ScanExpected(rest, false, "")
    decreases |pre|
  {
    if pre != [] {
      ConsAppend(pre, rest);
      TagFreeCons(pre, ExpectedOpen, ExpectedClose);
      LineStep(pre[0], pre[1..] + rest, false, "");
      ScanOutside(pre[1..], rest);
    } else {
      assert pre + rest == rest;
    }
  }

  /** Lines inside the tags that are neither tag are collected. */
  lemma {:induction false} ScanInside(body: seq<string>, rest: seq<string>, sb: string)
    requires TagFree(body, ExpectedOpen, ExpectedClose)
    ensures ScanExpected(body + rest, true, sb) == ScanExpected(rest, true, sb + Collected(body))
    decreases |body|
  {
    if body == [] {
      assert body + rest == rest && sb + Collected(body) == sb;
    } else {
      ConsAppend(body, rest);
      TagFreeCons(body, ExpectedOpen, ExpectedClose);
      LineStep(body[0], body[1..] + rest, true, sb);
      ScanInside(body[1..], rest, sb + Trim(body[0]) + " ");
      CollectedCons(sb, body);
    }
  }

  /** A line that is neither tag is collected inside the tags and skipped outside them. */
  lemma LineStep(line: string, tail: seq<string>, inTag: bool, sb: string)
    requires Trim(line) != ExpectedOpen && Trim(line) != ExpectedClose
    ensures ScanExpected([line] + tail, inTag, sb)
            == ScanExpected(tail, inTag, if inTag then sb + Trim(line) + " " else sb)
  {
    assert ([line] + tail)[0] == line && ([line] + tail)[1..] == tail;
  }

  /** The lines of a comment holding one tag pair, with `body` between the tags. */
  function Tagged(pre: seq<string>, body: seq<string>, post: seq<string>): seq<string> {
    pre + [ExpectedOpen] + body + [ExpectedClose] + post
  }

  /** The tags trim to themselves. */
  lemma TagsTrimmed()
    ensures Trim(ExpectedOpen) == ExpectedOpen && Trim(ExpectedClose) == ExpectedClose
  {
    TrimKeeps(ExpectedOpen);
    TrimKeeps(ExpectedClose);
  }

  /** An open tag line starts the collection, or is refused inside the tags. */
  lemma OpenStep(lines: seq<string>, sb: string)
    requires lines != [] && lines[0] == ExpectedOpen
    ensures ScanExpected(lines, false, sb) == ScanExpected(lines[1..], true, sb)
    ensures ScanExpected(lines, true, sb) == Throws(Throw(IllegalState, "Encountered nested tags"))
  {
    TagsTrimmed();
  }

  /** A close tag line ends the scan with the collected text, or is refused outside the tags. */
  lemma CloseStep(lines: seq<string>, sb: string)
    requires lines != [] && lines[0] == ExpectedClose
    ensures ScanExpected(lines, true, sb) == Returns(Some(sb))
    ensures ScanExpected(lines, false, sb)
            == Throws(Throw(IllegalState, "Encountered closing tag while not in an open tag in line: " + ExpectedClose))
  {
    TagsTrimmed();
    assert ExpectedClose != ExpectedOpen by {
      assert ExpectedClose[1] != ExpectedOpen[1];
    }
  }

  /** From an open tag, the tag-free lines of `body` are collected. */
  lemma OpenedAt(body: seq<string>, rest: seq<string>)
    requires TagFree(body, ExpectedOpen, ExpectedClose)
    ensures ScanExpected([ExpectedOpen] + (body + rest), false, "") == ScanExpected(rest, true, Collected(body))
  {
    var lines := [ExpectedOpen] + (body + rest);
    OpenStep(lines, "");
    assert lines[1..] == body + rest;
    ScanInside(body, rest, "");
    assert "" + Collected(body) == Collected(body);
  }

  /** A tag pair yields the trimmed lines between the tags, whatever follows the close tag. */
  lemma ExpectedFound(pre: seq<string>, body: seq<string>, post: seq<string>)
    requires TagFree(pre, ExpectedOpen, ExpectedClose) && TagFree(body, ExpectedOpen, ExpectedClose)
    ensures ScanExpected(Tagged(pre, body, post), false, "") == Returns(Some(Collected(body)))
  {
    var rest := [ExpectedOpen] + (body + ([ExpectedClose] + post));
    assert Tagged(pre, body, post) == pre + rest;
    ScanOutside(pre, rest);
    PairFound(body, post);
  }

  /** From the open tag on, a tag pair yields the text between the tags. */
  lemma PairFound(body: seq<string>, post: seq<string>)
    requires TagFree(body, ExpectedOpen, ExpectedClose)
    ensures ScanExpected([ExpectedOpen] + (body + ([ExpectedClose] + post)), false, "") == Returns(Some(Collected(body)))
  {
    var close := [ExpectedClose] + post;
    OpenedAt(body, close);
    CloseStep(close, Collected(body));
  }

  /** A second open tag before the close tag is refused. */
  lemma ExpectedNested(pre: seq<string>, body: seq<string>, post: seq<string>)
    requires TagFree(pre, ExpectedOpen, ExpectedClose) && TagFree(body, ExpectedOpen, ExpectedClose)
    ensures ScanExpected(pre + [ExpectedOpen] + body + [ExpectedOpen] + post, false, "")
            == Throws(Throw(IllegalState, "Encountered nested tags"))
  {
    var again := [ExpectedOpen] + post;
    var rest := [ExpectedOpen] + (body + again);
    assert pre + [ExpectedOpen] + body + [ExpectedOpen] + post == pre + rest;
    ScanOutside(pre, rest);
    OpenedAt(body, again);
    OpenStep(again, Collected(body));
  }

  /** A close tag before any open tag is refused, naming the line. */
  lemma ExpectedStrayClose(pre: seq<string>, post: seq<string>)
    requires TagFree(pre, ExpectedOpen, ExpectedClose)
    ensures ScanExpected(pre + [ExpectedClose] + post, false, "")
            == Throws(Throw(IllegalState, "Encountered closing tag while not in an open tag in line: " + ExpectedClose))
  {
    var close := [ExpectedClose] + post;
    assert pre + [ExpectedClose] + post == pre + close;
    ScanOutside(pre, close);
    CloseStep(close, "");
  }

  /** An open tag that is never closed yields nothing, as does a comment with no tag. */
  lemma ExpectedUnclosed(pre: seq<string>, body: seq<string>)
    requires TagFree(pre, ExpectedOpen, ExpectedClose) && TagFree(body, ExpectedOpen, ExpectedClose)
    ensures ScanExpected(pre + [ExpectedOpen] + body, false, "") == Returns(None)
    ensures ScanExpected(pre, false, "") == Returns(None)
  {
    var rest := [ExpectedOpen] + (body + []);
    assert pre + [ExpectedOpen] + body == pre + rest;
    ScanOutside(pre, rest);
    OpenedAt(body, []);
    ScanOutside(pre, []);
    assert pre + [] == pre;
  }

  /**
   * A comment written line by line, with a tag pair, reads back as the
   * trimmed lines between the tags.
   */
  lemma ParseWrittenComment(pre: seq<string>, body: seq<string>, post: seq<string>, gap: string)
    requires TagFree(pre, ExpectedOpen, ExpectedClose) && TagFree(body, ExpectedOpen, ExpectedClose)
    requires Writable(TestingBreak, Tagged(pre, body, post), gap)
    ensures ParseTestingComment(Some(JoinLines(Tagged(pre, body, post), Break(gap)))) == Returns(Some(Collected(body)))
  {
    SplitLinesJoin(TestingBreak, Tagged(pre, body, post), gap);
    ExpectedFound(pre, body, post);
  }
}
