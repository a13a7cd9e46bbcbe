/**
 * The comment readers of serializer/src/main/java/serializer/peg/testing/TestUtil.java
 * and serializer/src/main/java/serializer/peg/PegCommentScraperVisitor.java
 * cut a comment's text into lines with `String.split` on a line-break
 * pattern, trim each line and look for a pair of tag lines.  This module
 * holds what the two share: the two patterns, `split` over them, and the
 * text a tag pair encloses.
 */
module CommentLines {
  import opened Wrappers
  import opened JavaLang

  /** The characters of the regular-expression class `\s`. */
  predicate Space(c: char) {
    c == ' ' || c == '\t' || c == '\n' || c == '\U{B}' || c == '\U{C}' || c == '\r'
  }

  predicate NoSpace(s: string) {
    forall i :: 0 <= i < |s| ==> !Space(s[i])
  }

  /** The length of the longest prefix of `s` whose characters satisfy `p`. */
  function Run(s: string, p: char -> bool): (n: nat)
    ensures n <= |s|
    ensures forall i :: 0 <= i < n ==> p(s[i])
    ensures n < |s| ==> !p(s[n])
  {
    if s == [] || !p(s[0]) then 0
    else
      var m := Run(s[1..], p);
      assert forall i :: 1 <= i < 1 + m ==> s[i] == s[1..][i - 1];
      1 + m
  }

  /**
   * The two line-break patterns: `\n\s*\** *` of the testing comments,
   * which matches at every line break, and `\n\s*\*` of the scraper,
   * which matches only where the first character after the white space
   * is a `*`.
   */
  datatype Pattern = TestingBreak | ScraperBreak

  /**
   * The length of the match of `p` at the start of `s`, if it matches
   * there.  Each greedy run stops at a character that cannot begin the
   * next part of the pattern, so the first attempt of the matcher is the
   * match, or (for the scraper) no shorter white-space run can be followed
   * by a `*` either.
   */
  function MatchAt(p: Pattern, s: string): (r: Option<nat>)
    ensures r.Some? ==> s != [] && s[0] == '\n' && 0 < r.value <= |s|
    ensures p == TestingBreak ==> (r.Some? <==> s != [] && s[0] == '\n')
  {
    if s == [] || s[0] != '\n' then None
    else
      var w := 1 + Run(s[1..], Space);
      match p
      case TestingBreak =>
        var st := w + Run(s[w..], Is('*'));
        Some(st + Run(s[st..], Is(' ')))
      case ScraperBreak =>
        if w < |s| && s[w] == '*' then Some(w + 1) else None
  }

  /** The first match of `p` in `s`, as its start and its end. */
  function FirstMatch(p: Pattern, s: string): (r: Option<(nat, nat)>)
    ensures r.Some? ==> r.value.0 < r.value.1 <= |s| && s[r.value.0] == '\n'
    ensures p == TestingBreak && r.Some? ==> forall k :: 0 <= k < r.value.0 ==> s[k] != '\n'
    ensures p == TestingBreak && r.None? ==> forall k :: 0 <= k < |s| ==> s[k] != '\n'
  {
    if s == [] then None
    else if MatchAt(p, s).Some? then Some((0, MatchAt(p, s).value))
    else
      match FirstMatch(p, s[1..])
      case None => None
      case Some((i, e)) => Some((i + 1, e + 1))
  }

  /** The pieces between successive matches, the search resuming where each match ends. */
  function Pieces(p: Pattern, s: string): (r: seq<string>)
    ensures |r| >= 1
    decreases |s|
  {
    match FirstMatch(p, s)
    case None => [s]
    case Some((i, e)) => [s[..i]] + Pieces(p, s[e..])
  }

  /**
   * `s.split(regex)`: the string itself when the pattern does not occur,
   * otherwise the pieces with the empty pieces at the end removed.
   */
  function RegexSplit(p: Pattern, s: string): (r: seq<string>)
    ensures FirstMatch(p, s).None? ==> r == [s]
    ensures FirstMatch(p, s).Some? ==> r == DropTrailingEmpty(Pieces(p, s))
  {
    if FirstMatch(p, s).None? then [s] else DropTrailingEmpty(Pieces(p, s))
  }

  /** A string with no line break holds no match of either pattern. */
  lemma {:induction false} NoBreakNoMatch(p: Pattern, s: string)
    requires '\n' !in s
    ensures FirstMatch(p, s).None?
    decreases |s|
  {
    if s != [] {
      assert s[0] in s;
      assert '\n' !in s[1..] by {
        assert forall k :: 0 <= k < |s[1..]| ==> s[1..][k] == s[k + 1];
      }
      NoBreakNoMatch(p, s[1..]);
    }
  }

  /** No piece of a testing split holds a line break: every line break begins a match. */
  lemma {:induction false} TestingPiecesUnbroken(s: string)
    ensures forall i :: 0 <= i < |Pieces(TestingBreak, s)| ==> '\n' !in Pieces(TestingBreak, s)[i]
    decreases |s|
  {
    match FirstMatch(TestingBreak, s)
    case None =>
    case Some((i, e)) =>
      assert forall k :: 0 <= k < i ==> s[..i][k] == s[k];
      TestingPiecesUnbroken(s[e..]);
  }

  lemma TestingSplitUnbroken(s: string)
    ensures forall i :: 0 <= i < |RegexSplit(TestingBreak, s)| ==> '\n' !in RegexSplit(TestingBreak, s)[i]
  {
    TestingPiecesUnbroken(s);
  }

  /** `ls` joined with `sep` between consecutive lines. */
  function JoinLines(ls: seq<string>, sep: string): string {
    if ls == [] then "" else if |ls| == 1 then ls[0] else ls[0] + sep + JoinLines(ls[1..], sep)
  }

  /** The line break of a comment written line by line: a new line, white space, then a `*`. */
  function Break(gap: string): string {
    "\n" + gap + "*"
  }

  /**
   * Lines that read back as themselves when joined with `Break(gap)`: no
   * line holds a line break, the last is not empty (the split drops
   * trailing empty pieces), and for the testing pattern, which also eats
   * further `*` and spaces, no line after the first begins with either.
   */
  ghost predicate Writable(p: Pattern, ls: seq<string>, gap: string) {
    |ls| >= 1 && ls[|ls| - 1] != ""
    && (forall k :: 0 <= k < |gap| ==> Space(gap[k]))
    && (forall i :: 0 <= i < |ls| ==> '\n' !in ls[i])
    && (p == TestingBreak ==> forall i :: 1 <= i < |ls| ==> ls[i] == "" || (ls[i][0] != '*' && ls[i][0] != ' '))
  }

  /** A first character that is not a line break only shifts the first match. */
  lemma FirstMatchSkip(p: Pattern, s: string)
    requires s != [] && s[0] != '\n' && FirstMatch(p, s[1..]).Some?
    ensures FirstMatch(p, s) == Some((FirstMatch(p, s[1..]).value.0 + 1, FirstMatch(p, s[1..]).value.1 + 1))
  {
    assert MatchAt(p, s) == None;
  }

  /** A break-free string starts with something other than a break, and so does its tail. */
  lemma NoBreakTail(l: string)
    requires '\n' !in l && l != []
    ensures l[0] != '\n' && '\n' !in l[1..]
  {
    assert l[0] in l;
    assert forall k :: 0 <= k < |l[1..]| ==> l[1..][k] == l[k + 1];
  }

  lemma TailOfAppend(l: string, t: string)
    requires l != []
    ensures (l + t)[0] == l[0] && (l + t)[1..] == l[1..] + t
  {
  }

  /** A match right after a break-free prefix is the first match. */
  lemma {:induction false} FirstMatchAfter(p: Pattern, l: string, t: string)
    requires '\n' !in l && MatchAt(p, t).Some?
    ensures FirstMatch(p, l + t) == Some((|l|, |l| + MatchAt(p, t).value))
    decreases |l|
  {
    var m := MatchAt(p, t).value;
    if l == [] {
      MatchHere(p, l, t);
    } else {
      NoBreakTail(l);
      FirstMatchAfter(p, l[1..], t);
      AfterStep(p, l, t, m);
    }
  }

  /** One more character that is not a break before the match moves it one place. */
  lemma AfterStep(p: Pattern, l: string, t: string, m: nat)
    requires l != [] && l[0] != '\n' && FirstMatch(p, l[1..] + t) == Some((|l| - 1, |l| - 1 + m))
    ensures FirstMatch(p, l + t) == Some((|l|, |l| + m))
  {
    TailOfAppend(l, t);
    ConsMatch(p, l + t, l[1..] + t, (|l| - 1, |l| - 1 + m));
  }

  /** A match at the start is the first match. */
  lemma MatchHere(p: Pattern, l: string, t: string)
    requires l == [] && MatchAt(p, t).Some?
    ensures FirstMatch(p, l + t) == Some((|l|, |l| + MatchAt(p, t).value))
  {
    assert l + t == t;
  }

  /** A first match in the tail of a string moves one place when a character that is not a break comes before it. */
  lemma ConsMatch(p: Pattern, s: string, tail: string, v: (nat, nat))
    requires s != [] && s[0] != '\n' && s[1..] == tail && FirstMatch(p, tail) == Some(v)
    ensures FirstMatch(p, s) == Some((v.0 + 1, v.1 + 1))
  {
    FirstMatchSkip(p, s);
  }

  /** The break matches exactly, whatever follows it, as long as that does not extend it. */
  lemma BreakMatch(p: Pattern, gap: string, rest: string)
    requires forall k :: 0 <= k < |gap| ==> Space(gap[k])
    requires p == TestingBreak ==> rest == [] || (rest[0] != '*' && rest[0] != ' ')
    ensures MatchAt(p, Break(gap) + rest) == Some(|Break(gap)|)
  {
    var s := Break(gap) + rest;
    assert s[1..] == gap + "*" + rest;
    assert Run(s[1..], Space) == |gap| by {
      assert forall k :: 0 <= k < |gap| ==> s[1..][k] == gap[k];
      assert s[1..][|gap|] == '*';
      RunPrefix(s[1..], |gap|, Space);
    }
    assert s[1 + |gap|] == '*';
    if p == TestingBreak {
      var w := 1 + |gap|;
      assert s[w..] == "*" + rest;
      assert Run(s[w..], Is('*')) == 1 by {
        RunPrefix(s[w..], 1, Is('*'));
      }
      assert s[w + 1..] == rest;
      assert Run(rest, Is(' ')) == 0;
    }
  }

  /** `Run` is the length of any all-satisfying prefix followed by a character that fails. */
  lemma RunPrefix(s: string, n: nat, p: char -> bool)
    requires n <= |s| && (forall i :: 0 <= i < n ==> p(s[i])) && (n < |s| ==> !p(s[n]))
    ensures Run(s, p) == n
  {
  }

  /** What follows a break cannot extend it: it is empty, the next break, or the next line. */
  lemma AfterBreak(p: Pattern, ls: seq<string>, gap: string)
    requires Writable(p, ls, gap) && |ls| >= 2
    ensures var rest := JoinLines(ls[1..], Break(gap));
      p == TestingBreak ==> rest == [] || (rest[0] != '*' && rest[0] != ' ')
  {
    var rest := JoinLines(ls[1..], Break(gap));
    assert ls[1..][0] == ls[1];
    if |ls| > 2 {
      assert rest == ls[1] + Break(gap) + JoinLines(ls[2..], Break(gap));
      if ls[1] == [] {
        assert rest[0] == '\n';
      } else {
        assert rest[0] == ls[1][0];
      }
    }
  }

  /** After a break-free line, the first match is the break that ends it. */
  lemma BreakFirst(p: Pattern, l: string, gap: string, rest: string)
    requires '\n' !in l && forall k :: 0 <= k < |gap| ==> Space(gap[k])
    requires p == TestingBreak ==> rest == [] || (rest[0] != '*' && rest[0] != ' ')
    ensures FirstMatch(p, l + (Break(gap) + rest)) == Some((|l|, |l| + |Break(gap)|))
  {
    BreakMatch(p, gap, rest);
    FirstMatchAfter(p, l, Break(gap) + rest);
  }

  /** Joined lines are the first line, a break, and the rest joined. */
  lemma JoinFirst(ls: seq<string>, sep: string)
    requires |ls| >= 2
    ensures var s := JoinLines(ls, sep);
      s == ls[0] + (sep + JoinLines(ls[1..], sep))
      && s[..|ls[0]|] == ls[0] && s[|ls[0]| + |sep|..] == JoinLines(ls[1..], sep)
  {
    var s := ls[0] + (sep + JoinLines(ls[1..], sep));
    assert s[..|ls[0]|] == ls[0];
    assert s[|ls[0]| + |sep|..] == JoinLines(ls[1..], sep);
  }

  /** The first match in joined lines is the first break, and the text around it is the first line and the rest. */
  lemma JoinStep(p: Pattern, ls: seq<string>, gap: string)
    requires |ls| >= 2 && '\n' !in ls[0] && forall k :: 0 <= k < |gap| ==> Space(gap[k])
    requires var rest := JoinLines(ls[1..], Break(gap));
      p == TestingBreak ==> rest == [] || (rest[0] != '*' && rest[0] != ' ')
    ensures var s := JoinLines(ls, Break(gap));
      var n := |ls[0]| + |Break(gap)|;
      FirstMatch(p, s) == Some((|ls[0]|, n)) && n <= |s|
      && s[..|ls[0]|] == ls[0] && s[n..] == JoinLines(ls[1..], Break(gap))
  {
    JoinFirst(ls, Break(gap));
    BreakFirst(p, ls[0], gap, JoinLines(ls[1..], Break(gap)));
  }

  /** Splitting at the breaks of `JoinLines` gives the lines back. */
  lemma {:induction false} PiecesJoin(p: Pattern, ls: seq<string>, gap: string)
    requires Writable(p, ls, gap)
    ensures Pieces(p, JoinLines(ls, Break(gap))) == ls
    decreases |ls|
  {
    if |ls| == 1 {
      NoBreakNoMatch(p, ls[0]);
    } else {
      assert Writable(p, ls[1..], gap) by {
        assert forall i :: 0 <= i < |ls[1..]| ==> ls[1..][i] == ls[i + 1];
      }
      PiecesJoin(p, ls[1..], gap);
      PiecesStep(p, ls, gap);
      assert ls == [ls[0]] + ls[1..];
    }
  }

  /** The pieces of joined lines are the first line and the pieces of the rest joined. */
  lemma PiecesStep(p: Pattern, ls: seq<string>, gap: string)
    requires Writable(p, ls, gap) && |ls| >= 2
    ensures Pieces(p, JoinLines(ls, Break(gap))) == [ls[0]] + Pieces(p, JoinLines(ls[1..], Break(gap)))
  {
    assert ls[0] in ls;
    AfterBreak(p, ls, gap);
    JoinStep(p, ls, gap);
  }

  /** A comment written with `Break(gap)` between its lines splits back into those lines. */
  lemma SplitLinesJoin(p: Pattern, ls: seq<string>, gap: string)
    requires Writable(p, ls, gap)
    ensures RegexSplit(p, JoinLines(ls, Break(gap))) == ls
  {
    PiecesJoin(p, ls, gap);
    if |ls| == 1 {
      NoBreakNoMatch(p, ls[0]);
    } else {
      AfterBreak(p, ls, gap);
      JoinStep(p, ls, gap);
      assert DropTrailingEmpty(ls) == ls;
    }
  }

  // ---------------------------------------------------------------- tag lines

  /** No line of `lines` trims to either tag. */
  ghost predicate TagFree(lines: seq<string>, open: string, close: string) {
    forall i :: 0 <= i < |lines| ==> Trim(lines[i]) != open && Trim(lines[i]) != close
  }

  /** The first of a tag-free run of lines is neither tag, and the rest stay tag-free. */
  lemma TagFreeCons(lines: seq<string>, open: string, close: string)
    requires lines != [] && TagFree(lines, open, close)
    ensures Trim(lines[0]) != open && Trim(lines[0]) != close && TagFree(lines[1..], open, close)
  {
    assert forall i :: 0 <= i < |lines[1..]| ==> lines[1..][i] == lines[i + 1];
  }

  /** A run of lines in front of `rest`, seen as its first line and the remainder. */
  lemma ConsAppend<T>(lines: seq<T>, rest: seq<T>)
    requires lines != []
    ensures lines + rest == [lines[0]] + (lines[1..] + rest)
  {
  }

  /** The text a tag pair encloses: each line trimmed and followed by a space. */
  function Collected(body: seq<string>): string {
    if body == [] then "" else Trim(body[0]) + " " + Collected(body[1..])
  }

  /** Collecting the first line and then the rest collects them all. */
  lemma CollectedCons(sb: string, body: seq<string>)
    requires body != []
    ensures sb + Trim(body[0]) + " " + Collected(body[1..]) == sb + Collected(body)
  {
  }
}
