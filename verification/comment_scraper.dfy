/**
 * `PegCommentScraperVisitor` of
 * serializer/src/main/java/serializer/peg/PegCommentScraperVisitor.java:
 * the expected PEG of a method is written in its javadoc between
 * `<tag>` and `</tag>` lines, and the scraper maps each method's
 * signature to that text.  The method's declaration text comes from the
 * Java parser and is a parameter here.
 */
module CommentScraper {
  import opened Wrappers
  import opened JavaLang
  import opened CommentLines

  /** The two tag lines the scraper looks for. */
  datatype Scraper = Scraper(openTag: string, closeTag: string)

  const DefaultTag := "target-peg"

  /** `new PegCommentScraperVisitor(tag)`: a tag holding an angle bracket is refused. */
  function NewScraper(tag: string): (r: Outcome<Scraper>)
    ensures r.Returns? <==> '<' !in tag && '>' !in tag
    ensures r.Throws? ==> r.exc == Throw(IllegalArgument, "provided tag must not contain angle braces '<' or '>'")
  {
    if '<' in tag || '>' in tag then Throws(Throw(IllegalArgument, "provided tag must not contain angle braces '<' or '>'"))
    else Returns(Scraper("<" + tag + ">", "</" + tag + ">"))
  }

  /** The two tags differ, and each gives back the tag it was made from. */
  lemma ScraperTags(tag: string)
    requires NewScraper(tag).Returns?
    ensures var sc := NewScraper(tag).value;
      sc.openTag != sc.closeTag
      && sc.openTag[1..|sc.openTag| - 1] == tag && sc.closeTag[2..|sc.closeTag| - 1] == tag
  {
    var sc := NewScraper(tag).value;
    assert |sc.openTag| != |sc.closeTag|;
  }

  /** The default scraper is made without error. */
  lemma DefaultScraper()
    ensures NewScraper(DefaultTag) == Returns(Scraper("<target-peg>", "</target-peg>"))
  {
    assert forall i :: 0 <= i < |DefaultTag| ==> DefaultTag[i] != '<' && DefaultTag[i] != '>';
    assert "<" + DefaultTag + ">" == "<target-peg>" && "</" + DefaultTag + ">" == "</target-peg>";
  }

  /** `s.replaceAll("\\s+", "")`. */
  function RemoveSpace(s: string): (r: string)
    ensures NoSpace(r) && |r| <= |s|
  {
    if s == [] then ""
    else if Space(s[0]) then RemoveSpace(s[1..])
    else [s[0]] + RemoveSpace(s[1..])
  }

  /** Removing white space keeps a string without any, and works piece by piece. */
  lemma {:induction false} RemoveSpaceParts(a: string, b: string)
    ensures RemoveSpace(a + b) == RemoveSpace(a) + RemoveSpace(b)
    ensures NoSpace(a) ==> RemoveSpace(a) == a
    decreases |a|
  {
    if a == [] {
      assert a + b == b;
    } else {
      assert (a + b)[0] == a[0] && (a + b)[1..] == a[1..] + b;
      RemoveSpaceParts(a[1..], b);
      if NoSpace(a) {
        assert NoSpace(a[1..]) by {
          assert forall i :: 0 <= i < |a[1..]| ==> a[1..][i] == a[i + 1];
        }
      }
    }
  }

  /**
   * The key of a method: its declaration without modifiers, throws clause
   * or parameter names, trimmed, cut after the first space (which ends
   * the return type) and stripped of white space.
   */
  function DeclKey(decl: string): (k: string)
    ensures NoSpace(k)
  {
    var d := Trim(decl);
    RemoveSpace(d[IndexOfChar(d, ' ') + 1..])
  }

  /** The first space of `ret sig` is the one after a space-free `ret`. */
  lemma FirstSpace(ret: string, sig: string)
    requires ' ' !in ret
    ensures IndexOfChar(ret + " " + sig, ' ') == |ret|
  {
    var d := ret + " " + sig;
    assert forall k :: 0 <= k < |ret| ==> d[k] == ret[k] && ret[k] in ret;
    assert d[|ret|] == ' ';
  }

  /** A declaration `ret sig` with a space-free return type keys as the signature without its white space. */
  lemma DeclKeyOfSignature(ret: string, sig: string)
    requires ret != [] && ' ' !in ret && !Blank(ret[0])
    requires sig != [] && !Blank(sig[|sig| - 1])
    ensures DeclKey(ret + " " + sig) == RemoveSpace(sig)
  {
    var d := ret + " " + sig;
    assert d[0] == ret[0] && d[|d| - 1] == sig[|sig| - 1];
    TrimKeeps(d);
    FirstSpace(ret, sig);
    assert d[|ret| + 1..] == sig;
  }

  /** The loop over the comment's lines: in a tag, a tag already seen, the collected text, and the map so far. */
  function ScanTarget(sc: Scraper, lines: seq<string>, key: string, inTag: bool, found: bool, sb: string,
                      m: map<string, string>): (r: Outcome<map<string, string>>)
    ensures r.Throws? ==> r.exc.kind == IllegalState
    ensures r.Returns? ==> m.Keys <= r.value.Keys
    decreases |lines|
  {
    if lines == [] then Returns(m)
    else
      var line := Trim(lines[0]);
      if line == sc.openTag then
        if inTag then Throws(Throw(IllegalState, "Encountered nested tags"))
        else if found then Throws(Throw(IllegalState, "Encountered Multiple tags"))
        else ScanTarget(sc, lines[1..], key, true, true, sb, m)
      else if line == sc.closeTag then
        if !inTag then Throws(Throw(IllegalState, "Encountered closing tag while not in an open tag"))
        else ScanTarget(sc, lines[1..], key, false, found, sb, m[key := sb])
      else if inTag then ScanTarget(sc, lines[1..], key, true, found, sb + line + " ", m)
      else ScanTarget(sc, lines[1..], key, false, found, sb, m)
  }

  /** `visit(method, map)`: a method without a comment leaves the map alone. */
  function VisitMethod(sc: Scraper, comment: Option<string>, decl: string, m: map<string, string>): (r: Outcome<map<string, string>>)
    ensures comment.None? ==> r == Returns(m)
  {
    match comment
    case None => Returns(m)
    case Some(c) => ScanTarget(sc, RegexSplit(ScraperBreak, c), DeclKey(decl), false, false, "", m)
  }

  /** `scrape`: the methods, as comment and declaration, visited in order; the first refusal ends it. */
  function Scrape(sc: Scraper, methods: seq<(Option<string>, string)>, m: map<string, string>): (r: Outcome<map<string, string>>)
    decreases |methods|
  {
    if methods == [] then Returns(m)
    else
      var m1 :- VisitMethod(sc, methods[0].0, methods[0].1, m);
      Scrape(sc, methods[1..], m1)
  }

  /** Lines that are neither tag leave the scan where it is, outside the tags. */
  lemma {:induction false} ScanOutside(sc: Scraper, pre: seq<string>, rest: seq<string>, key: string, found: bool,
                                       sb: string, m: map<string, string>)
    requires TagFree(pre, sc.openTag, sc.closeTag)
    ensures ScanTarget(sc, pre + rest, key, false, found, sb, m) == ScanTarget(sc, rest, key, false, found, sb, m)
    decreases |pre|
  {
    if pre != [] {
      ConsAppend(pre, rest);
      TagFreeCons(pre, sc.openTag, sc.closeTag);
      OutsideStep(sc, pre[0], pre[1..] + rest, key, found, sb, m);
      ScanOutside(sc, pre[1..], rest, key, found, sb, m);
    } else {
      assert pre + rest == rest;
    }
  }

  /** Lines inside the tags that are neither tag are collected. */
  lemma {:induction false} ScanInside(sc: Scraper, body: seq<string>, rest: seq<string>, key: string, sb: string,
                                      m: map<string, string>)
    requires TagFree(body, sc.openTag, sc.closeTag)
    ensures ScanTarget(sc, body + rest, key, true, true, sb, m) == ScanTarget(sc, rest, key, true, true, sb + Collected(body), m)
    decreases |body|
  {
    if body == [] {
      assert body + rest == rest && sb + Collected(body) == sb;
    } else {
      ConsAppend(body, rest);
      TagFreeCons(body, sc.openTag, sc.closeTag);
      InsideStep(sc, body[0], body[1..] + rest, key, sb, m);
      ScanInside(sc, body[1..], rest, key, sb + Trim(body[0]) + " ", m);
      CollectedCons(sb, body);
    }
  }

  /** Outside the tags, a line that is neither tag is skipped. */
  lemma OutsideStep(sc: Scraper, line: string, tail: seq<string>, key: string, found: bool, sb: string, m: map<string, string>)
    requires Trim(line) != sc.openTag && Trim(line) != sc.closeTag
    ensures ScanTarget(sc, [line] + tail, key, false, found, sb, m) == ScanTarget(sc, tail, key, false, found, sb, m)
  {
    assert ([line] + tail)[0] == line && ([line] + tail)[1..] == tail;
  }

  /** Inside the tags, a line that is neither tag is collected. */
  lemma InsideStep(sc: Scraper, line: string, tail: seq<string>, key: string, sb: string, m: map<string, string>)
    requires Trim(line) != sc.openTag && Trim(line) != sc.closeTag
    ensures ScanTarget(sc, [line] + tail, key, true, true, sb, m) == ScanTarget(sc, tail, key, true, true, sb + Trim(line) + " ", m)
  {
    assert ([line] + tail)[0] == line && ([line] + tail)[1..] == tail;
  }

  /** A scraper made from a tag: tags trim to themselves and differ. */
  ghost predicate Made(sc: Scraper) {
    exists tag :: NewScraper(tag) == Returns(sc)
  }

  lemma MadeTags(sc: Scraper)
    requires Made(sc)
    ensures Trim(sc.openTag) == sc.openTag && Trim(sc.closeTag) == sc.closeTag && sc.openTag != sc.closeTag
  {
    var tag :| NewScraper(tag) == Returns(sc);
    ScraperTags(tag);
    TrimKeeps(sc.openTag);
    TrimKeeps(sc.closeTag);
  }

  /** An open tag line starts the collection; a second one is refused, inside the tags or after them. */
  lemma OpenStep(sc: Scraper, lines: seq<string>, key: string, sb: string, m: map<string, string>)
    requires Made(sc) && lines != [] && lines[0] == sc.openTag
    ensures ScanTarget(sc, lines, key, false, false, sb, m) == ScanTarget(sc, lines[1..], key, true, true, sb, m)
    ensures ScanTarget(sc, lines, key, true, true, sb, m) == Throws(Throw(IllegalState, "Encountered nested tags"))
    ensures ScanTarget(sc, lines, key, false, true, sb, m) == Throws(Throw(IllegalState, "Encountered Multiple tags"))
  {
    MadeTags(sc);
  }

  /** A close tag line records the collected text and the scan goes on; outside the tags it is refused. */
  lemma CloseStep(sc: Scraper, lines: seq<string>, key: string, sb: string, m: map<string, string>)
    requires Made(sc) && lines != [] && lines[0] == sc.closeTag
    ensures ScanTarget(sc, lines, key, true, true, sb, m) == ScanTarget(sc, lines[1..], key, false, true, sb, m[key := sb])
    ensures ScanTarget(sc, lines, key, false, true, sb, m)
            == Throws(Throw(IllegalState, "Encountered closing tag while not in an open tag"))
  {
    MadeTags(sc);
  }

  /** The lines of a comment holding one tag pair. */
  function Tagged(sc: Scraper, pre: seq<string>, body: seq<string>, post: seq<string>): seq<string> {
    pre + [sc.openTag] + body + [sc.closeTag] + post
  }

  /** From an open tag, the tag-free lines of `body` are collected. */
  lemma OpenedAt(sc: Scraper, body: seq<string>, rest: seq<string>, key: string, m: map<string, string>)
    requires Made(sc) && TagFree(body, sc.openTag, sc.closeTag)
    ensures ScanTarget(sc, [sc.openTag] + (body + rest), key, false, false, "", m)
            == ScanTarget(sc, rest, key, true, true, Collected(body), m)
  {
    var lines := [sc.openTag] + (body + rest);
    OpenStep(sc, lines, key, "", m);
    assert lines[1..] == body + rest;
    ScanInside(sc, body, rest, key, "", m);
    assert "" + Collected(body) == Collected(body);
  }

  /** From a close tag, the text is recorded and the tag-free lines of `mid` are skipped. */
  lemma ClosedAt(sc: Scraper, mid: seq<string>, rest: seq<string>, key: string, sb: string, m: map<string, string>)
    requires Made(sc) && TagFree(mid, sc.openTag, sc.closeTag)
    ensures ScanTarget(sc, [sc.closeTag] + (mid + rest), key, true, true, sb, m)
            == ScanTarget(sc, rest, key, false, true, sb, m[key := sb])
  {
    var lines := [sc.closeTag] + (mid + rest);
    CloseStep(sc, lines, key, sb, m);
    assert lines[1..] == mid + rest;
    ScanOutside(sc, mid, rest, key, true, sb, m[key := sb]);
  }

  /** One tag pair maps the key to the trimmed lines between the tags. */
  lemma TargetFound(sc: Scraper, pre: seq<string>, body: seq<string>, post: seq<string>, key: string, m: map<string, string>)
    requires Made(sc)
    requires TagFree(pre, sc.openTag, sc.closeTag) && TagFree(body, sc.openTag, sc.closeTag)
    requires TagFree(post, sc.openTag, sc.closeTag)
    ensures ScanTarget(sc, Tagged(sc, pre, body, post), key, false, false, "", m) == Returns(m[key := Collected(body)])
  {
    var rest := [sc.openTag] + (body + ([sc.closeTag] + (post + [])));
    assert Tagged(sc, pre, body, post) == pre + rest;
    ScanOutside(sc, pre, rest, key, false, "", m);
    PairFound(sc, body, post, key, m);
  }

  /** From the open tag on, one tag pair maps the key to the text between the tags. */
  lemma PairFound(sc: Scraper, body: seq<string>, post: seq<string>, key: string, m: map<string, string>)
    requires Made(sc)
    requires TagFree(body, sc.openTag, sc.closeTag) && TagFree(post, sc.openTag, sc.closeTag)
    ensures ScanTarget(sc, [sc.openTag] + (body + ([sc.closeTag] + (post + []))), key, false, false, "", m)
            == Returns(m[key := Collected(body)])
  {
    var close := [sc.closeTag] + (post + []);
    OpenedAt(sc, body, close, key, m);
    ClosedAt(sc, post, [], key, Collected(body), m);
  }

  /** A second tag pair in the same comment is refused. */
  lemma TargetMultiple(sc: Scraper, pre: seq<string>, body: seq<string>, mid: seq<string>, post: seq<string>,
                       key: string, m: map<string, string>)
    requires Made(sc)
    requires TagFree(pre, sc.openTag, sc.closeTag) && TagFree(body, sc.openTag, sc.closeTag)
    requires TagFree(mid, sc.openTag, sc.closeTag)
    ensures ScanTarget(sc, Tagged(sc, pre, body, mid + [sc.openTag] + post), key, false, false, "", m)
            == Throws(Throw(IllegalState, "Encountered Multiple tags"))
  {
    var rest := [sc.openTag] + (body + ([sc.closeTag] + (mid + ([sc.openTag] + post))));
    TaggedRest(sc, pre, body, mid, [sc.openTag] + post);
    assert mid + [sc.openTag] + post == mid + ([sc.openTag] + post);
    ScanOutside(sc, pre, rest, key, false, "", m);
    PairThenAgain(sc, body, mid, post, key, m);
  }

  /** The lines of a tagged comment, grouped from the open tag on. */
  lemma TaggedRest(sc: Scraper, pre: seq<string>, body: seq<string>, mid: seq<string>, post: seq<string>)
    ensures Tagged(sc, pre, body, mid + post) == pre + ([sc.openTag] + (body + ([sc.closeTag] + (mid + post))))
  {
  }

  /** From the first open tag on, a closed pair followed by another open tag is refused. */
  lemma PairThenAgain(sc: Scraper, body: seq<string>, mid: seq<string>, post: seq<string>, key: string, m: map<string, string>)
    requires Made(sc)
    requires TagFree(body, sc.openTag, sc.closeTag) && TagFree(mid, sc.openTag, sc.closeTag)
    ensures ScanTarget(sc, [sc.openTag] + (body + ([sc.closeTag] + (mid + ([sc.openTag] + post)))), key, false, false, "", m)
            == Throws(Throw(IllegalState, "Encountered Multiple tags"))
  {
    OpenedAt(sc, body, [sc.closeTag] + (mid + ([sc.openTag] + post)), key, m);
    AgainAfterClose(sc, mid, post, key, Collected(body), m);
  }

  /** After a close tag, the next open tag is refused. */
  lemma AgainAfterClose(sc: Scraper, mid: seq<string>, post: seq<string>, key: string, sb: string, m: map<string, string>)
    requires Made(sc) && TagFree(mid, sc.openTag, sc.closeTag)
    ensures ScanTarget(sc, [sc.closeTag] + (mid + ([sc.openTag] + post)), key, true, true, sb, m)
            == Throws(Throw(IllegalState, "Encountered Multiple tags"))
  {
    ClosedAt(sc, mid, [sc.openTag] + post, key, sb, m);
    OpenStep(sc, [sc.openTag] + post, key, sb, m[key := sb]);
  }

  /** A comment with neither tag leaves the map alone. */
  lemma TargetAbsent(sc: Scraper, lines: seq<string>, key: string, m: map<string, string>)
    requires TagFree(lines, sc.openTag, sc.closeTag)
    ensures ScanTarget(sc, lines, key, false, false, "", m) == Returns(m)
  {
    ScanOutside(sc, lines, [], key, false, "", m);
    assert lines + [] == lines;
  }

  /**
   * A method whose javadoc is written line by line with one tag pair is
   * mapped, under its signature, to the trimmed lines between the tags.
   */
  lemma VisitWrittenComment(sc: Scraper, pre: seq<string>, body: seq<string>, post: seq<string>, gap: string,
                            decl: string, m: map<string, string>)
    requires Made(sc)
    requires TagFree(pre, sc.openTag, sc.closeTag) && TagFree(body, sc.openTag, sc.closeTag)
    requires TagFree(post, sc.openTag, sc.closeTag)
    requires Writable(ScraperBreak, Tagged(sc, pre, body, post), gap)
    ensures VisitMethod(sc, Some(JoinLines(Tagged(sc, pre, body, post), Break(gap))), decl, m)
            == Returns(m[DeclKey(decl) := Collected(body)])
  {
    SplitLinesJoin(ScraperBreak, Tagged(sc, pre, body, post), gap);
    TargetFound(sc, pre, body, post, DeclKey(decl), m);
  }

  /** Scraping only ever adds keys, and methods without comments add none. */
  lemma {:induction false} ScrapeKeys(sc: Scraper, methods: seq<(Option<string>, string)>, m: map<string, string>)
    ensures Scrape(sc, methods, m).Returns? ==> m.Keys <= Scrape(sc, methods, m).value.Keys
    ensures (forall i :: 0 <= i < |methods| ==> methods[i].0.None?) ==> Scrape(sc, methods, m) == Returns(m)
    decreases |methods|
  {
    if methods != [] {
      var v := VisitMethod(sc, methods[0].0, methods[0].1, m);
      if v.Returns? {
        ScrapeKeys(sc, methods[1..], v.value);
      }
      if forall i :: 0 <= i < |methods| ==> methods[i].0.None? {
        assert forall i :: 0 <= i < |methods[1..]| ==> methods[1..][i] == methods[i + 1];
      }
    }
  }
}
