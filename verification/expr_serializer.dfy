/**
 * The reading side of serializer/src/main/java/serializer/ExprSerializer.java:
 * the command line, the log of translation errors, the line format of the
 * files of maximal expressions and their mutants that the mutator writes,
 * and the two helpers of a maximal expression (`getInitCtx` and
 * `trimParseErrorMessage`).  Whether JavaParser accepts a piece of Java
 * source is the parameter `parses`.
 */
module ExprSerializer {
  import opened Wrappers
  import opened Primitives
  import opened Decimal
  import opened JavaLang
  import JavaLibrary
  import CommentLines
  import Text

  // ---------------------------------------------------------------- command line

  /** What `parseArgs` records: the expression directories, the two flags, and the expression files. */
  datatype Options = Options(exprDirs: seq<string>, logErrors: bool, verbose: bool, files: seq<string>)

  const NoOptions := Options([], false, false, [])

  /** The arguments `parseArgs` gives a meaning of their own. */
  predicate IsFlag(a: string) {
    a == "-d" || a == "--exprdir" || a == "-l" || a == "--log-translation-errors" || a == "-v" || a == "--verbose"
  }

  /**
   * The loop of `parseArgs` from the argument at hand: `-d` takes the next
   * argument as a directory (ArrayIndexOutOfBoundsException when there is
   * none), `-l` and `-v` set their flags, anything else names a file.
   */
  function ParseArgsFrom(args: seq<string>, o: Options): (r: Outcome<Options>)
    ensures r.Throws? ==> r.exc == Exception(IndexOutOfBounds, None)
    decreases |args|
  {
    if args == [] then Returns(o)
    else
      var arg := args[0];
      if arg == "-d" || arg == "--exprdir" then
        if |args| == 1 then Throws(Exception(IndexOutOfBounds, None))
        else ParseArgsFrom(args[2..], o.(exprDirs := o.exprDirs + [args[1]]))
      else if arg == "--log-translation-errors" || arg == "-l" then ParseArgsFrom(args[1..], o.(logErrors := true))
      else if arg == "--verbose" || arg == "-v" then ParseArgsFrom(args[1..], o.(verbose := true))
      else ParseArgsFrom(args[1..], o.(files := o.files + [arg]))
  }

  function ParseArgs(args: seq<string>): Outcome<Options> {
    ParseArgsFrom(args, NoOptions)
  }

  /** Each directory behind its own `-d`. */
  function DirArgs(ds: seq<string>): (r: seq<string>)
    ensures |r| == 2 * |ds|
  {
    if ds == [] then [] else ["-d", ds[0]] + DirArgs(ds[1..])
  }

  /** A command line that asks for `o`. */
  function RenderArgs(o: Options): seq<string> {
    DirArgs(o.exprDirs) + (if o.logErrors then ["-l"] else []) + (if o.verbose then ["-v"] else []) + o.files
  }

  lemma {:induction false} ReadDirs(ds: seq<string>, rest: seq<string>, o: Options)
    ensures ParseArgsFrom(DirArgs(ds) + rest, o) == ParseArgsFrom(rest, o.(exprDirs := o.exprDirs + ds))
    decreases |ds|
  {
    if ds == [] {
      assert DirArgs(ds) + rest == rest && o.exprDirs + ds == o.exprDirs;
    } else {
      DirArgsCons(ds, rest);
      DirStep(DirArgs(ds) + rest, o);
      ReadDirs(ds[1..], rest, o.(exprDirs := o.exprDirs + [ds[0]]));
      DirsAppend(o, ds);
    }
  }

  /** The first directory of a rendered list comes right after its `-d`. */
  lemma DirArgsCons(ds: seq<string>, rest: seq<string>)
    requires ds != []
    ensures var args := DirArgs(ds) + rest;
      |args| >= 2 && args[0] == "-d" && args[1] == ds[0] && args[2..] == DirArgs(ds[1..]) + rest
  {
    var pair := ["-d", ds[0]];
    assert DirArgs(ds) + rest == pair + (DirArgs(ds[1..]) + rest);
    DropPair(pair, DirArgs(ds[1..]) + rest);
  }

  lemma DropPair(pair: seq<string>, u: seq<string>)
    requires |pair| == 2
    ensures (pair + u)[0] == pair[0] && (pair + u)[1] == pair[1] && (pair + u)[2..] == u
  {
  }

  /** A `-d` followed by an argument records that argument as a directory. */
  lemma DirStep(args: seq<string>, o: Options)
    requires |args| >= 2 && args[0] == "-d"
    ensures ParseArgsFrom(args, o) == ParseArgsFrom(args[2..], o.(exprDirs := o.exprDirs + [args[1]]))
  {
  }

  lemma DirsAppend(o: Options, ds: seq<string>)
    requires ds != []
    ensures o.(exprDirs := o.exprDirs + [ds[0]]).(exprDirs := o.exprDirs + [ds[0]] + ds[1..]) == o.(exprDirs := o.exprDirs + ds)
  {
    assert o.exprDirs + [ds[0]] + ds[1..] == o.exprDirs + ds;
  }

  lemma {:induction false} ReadFiles(fs: seq<string>, o: Options)
    requires forall i :: 0 <= i < |fs| ==> !IsFlag(fs[i])
    ensures ParseArgsFrom(fs, o) == Returns(o.(files := o.files + fs))
    decreases |fs|
  {
    if fs == [] {
      assert o.files + fs == o.files;
    } else {
      assert !IsFlag(fs[0]);
      ReadFiles(fs[1..], o.(files := o.files + [fs[0]]));
      assert o.files + [fs[0]] + fs[1..] == o.files + fs;
    }
  }

  lemma ReadLogFlag(b: bool, rest: seq<string>, o: Options)
    ensures ParseArgsFrom((if b then ["-l"] else []) + rest, o) == ParseArgsFrom(rest, o.(logErrors := o.logErrors || b))
  {
    var args := (if b then ["-l"] else []) + rest;
    if b { assert args[0] == "-l" && args[1..] == rest; } else { assert args == rest; }
  }

  lemma ReadVerboseFlag(b: bool, rest: seq<string>, o: Options)
    ensures ParseArgsFrom((if b then ["-v"] else []) + rest, o) == ParseArgsFrom(rest, o.(verbose := o.verbose || b))
  {
    var args := (if b then ["-v"] else []) + rest;
    if b { assert args[0] == "-v" && args[1..] == rest; } else { assert args == rest; }
  }

  /** A rendered command line reads back as the options it was rendered from, when no file name is itself a flag. */
  lemma ArgsRoundTrip(o: Options)
    requires forall i :: 0 <= i < |o.files| ==> !IsFlag(o.files[i])
    ensures ParseArgs(RenderArgs(o)) == Returns(o)
  {
    var v := (if o.verbose then ["-v"] else []) + o.files;
    var rest := (if o.logErrors then ["-l"] else []) + v;
    assert RenderArgs(o) == DirArgs(o.exprDirs) + rest;
    ReadDirs(o.exprDirs, rest, NoOptions);
    var o1 := NoOptions.(exprDirs := [] + o.exprDirs);
    ReadLogFlag(o.logErrors, v, o1);
    var o2 := o1.(logErrors := o.logErrors);
    ReadVerboseFlag(o.verbose, o.files, o2);
    var o3 := o2.(verbose := o.verbose);
    ReadFiles(o.files, o3);
    assert [] + o.exprDirs == o.exprDirs && [] + o.files == o.files;
  }

  /** A `-d` with nothing after it, behind a command line that reads, is refused. */
  lemma {:induction false} DanglingDir(args: seq<string>, o: Options)
    requires ParseArgsFrom(args, o).Returns?
    ensures ParseArgsFrom(args + ["-d"], o) == Throws(Exception(IndexOutOfBounds, None))
    decreases |args|
  {
    var a := args + ["-d"];
    if args == [] {
      assert a == ["-d"];
    } else {
      assert a[0] == args[0];
      var arg := args[0];
      if arg == "-d" || arg == "--exprdir" {
        assert |args| >= 2 && a[1] == args[1] && a[2..] == args[2..] + ["-d"];
        DanglingDir(args[2..], o.(exprDirs := o.exprDirs + [args[1]]));
      } else {
        assert a[1..] == args[1..] + ["-d"];
        if arg == "--log-translation-errors" || arg == "-l" {
          DanglingDir(args[1..], o.(logErrors := true));
        } else if arg == "--verbose" || arg == "-v" {
          DanglingDir(args[1..], o.(verbose := true));
        } else {
          DanglingDir(args[1..], o.(files := o.files + [arg]));
        }
      }
    }
  }

  // ---------------------------------------------------------------- translation error log

  const UnknownStatusPrefix := "UnknownStatus:"
  const UnknownIdentStatus := "UnknownIdentStatus"

  /** The sources logged under `key`, none when the key is absent. */
  function Bucket(log: map<string, seq<string>>, key: string): seq<string> {
    if key in log then log[key] else []
  }

  /** The key an error is logged under: every unknown identifier status shares one. */
  function ErrorKey(error: string): string {
    if JavaLibrary.StartsWith(error, UnknownStatusPrefix) then UnknownIdentStatus else error
  }

  /** `logPegTranslationError(error, source)`: the source is added to its error's list. */
  function LogError(log: map<string, seq<string>>, error: string, source: string): map<string, seq<string>> {
    var key := ErrorKey(error);
    log[key := Bucket(log, key) + [source]]
  }

  /** A run of translation errors, each with the source it arose in, logged in turn. */
  function LogAll(log: map<string, seq<string>>, errors: seq<(string, string)>): map<string, seq<string>>
    decreases |errors|
  {
    if errors == [] then log else LogAll(LogError(log, errors[0].0, errors[0].1), errors[1..])
  }

  /** The sources of the errors logged under `key`, in order. */
  function SourcesUnder(errors: seq<(string, string)>, key: string): seq<string>
    decreases |errors|
  {
    if errors == [] then []
    else (if ErrorKey(errors[0].0) == key then [errors[0].1] else []) + SourcesUnder(errors[1..], key)
  }

  /** After a run of errors, each key's list is what it held plus the sources of the errors with that key, in order. */
  lemma {:induction false} LogAllBuckets(log: map<string, seq<string>>, errors: seq<(string, string)>, key: string)
    ensures Bucket(LogAll(log, errors), key) == Bucket(log, key) + SourcesUnder(errors, key)
    decreases |errors|
  {
    if errors == [] {
      assert Bucket(log, key) + [] == Bucket(log, key);
    } else {
      var log1 := LogError(log, errors[0].0, errors[0].1);
      LogAllBuckets(log1, errors[1..], key);
      if ErrorKey(errors[0].0) == key {
        assert Bucket(log1, key) == Bucket(log, key) + [errors[0].1];
      } else {
        assert Bucket(log1, key) == Bucket(log, key);
      }
    }
  }

  /** Nothing is logged under an error message that starts with `UnknownStatus:`; its source goes to the shared key. */
  lemma UnknownStatusShared(errors: seq<(string, string)>, i: nat)
    requires i < |errors| && JavaLibrary.StartsWith(errors[i].0, UnknownStatusPrefix)
    ensures errors[i].0 != UnknownIdentStatus ==> SourcesUnder(errors, errors[i].0) == []
    ensures ErrorKey(errors[i].0) == UnknownIdentStatus
  {
    if errors[i].0 != UnknownIdentStatus {
      NothingUnder(errors, errors[i].0);
    }
  }

  /** No error is logged under a key that starts with `UnknownStatus:`. */
  lemma {:induction false} NothingUnder(errors: seq<(string, string)>, key: string)
    requires JavaLibrary.StartsWith(key, UnknownStatusPrefix) && key != UnknownIdentStatus
    ensures SourcesUnder(errors, key) == []
    decreases |errors|
  {
    if errors != [] {
      NothingUnder(errors[1..], key);
      assert ErrorKey(errors[0].0) != key;
    }
  }

  // ---------------------------------------------------------------- initial context

  const Local := "LOCAL"
  const Global := "GLOBAL"

  function UnknownStatusMessage(ident: string, status: string): string {
    UnknownStatusPrefix + " ident:" + ident + ", status:" + status
  }

  /**
   * `getInitCtx()` over the entries of `identMap` in the map's iteration
   * order: a `LOCAL` identifier joins the parameter list, a `GLOBAL` one the
   * set of globals, and any other status is a RuntimeException naming it.
   */
  function InitCtx(entries: seq<(string, string)>, globals: set<string>, locals: seq<string>): (r: Outcome<(set<string>, seq<string>)>)
    ensures r.Throws? ==> r.exc.kind == Runtime && r.exc.message.Some?
    decreases |entries|
  {
    if entries == [] then Returns((globals, locals))
    else
      var (ident, status) := entries[0];
      if status == Local then InitCtx(entries[1..], globals, locals + [ident])
      else if status == Global then InitCtx(entries[1..], globals + {ident}, locals)
      else Throws(Throw(Runtime, UnknownStatusMessage(ident, status)))
  }

  /** The identifiers of the entries with a status, in order. */
  function WithStatus(entries: seq<(string, string)>, status: string): (r: seq<string>)
    decreases |entries|
  {
    if entries == [] then []
    else (if entries[0].1 == status then [entries[0].0] else []) + WithStatus(entries[1..], status)
  }

  /** Every entry's status is one of the two known ones. */
  predicate KnownStatuses(entries: seq<(string, string)>) {
    forall i :: 0 <= i < |entries| ==> entries[i].1 == Local || entries[i].1 == Global
  }

  /** The position of the first entry whose status is neither `LOCAL` nor `GLOBAL`, or the length when there is none. */
  function FirstUnknown(entries: seq<(string, string)>): (n: nat)
    ensures n <= |entries| && KnownStatuses(entries[..n])
    ensures n < |entries| <==> !KnownStatuses(entries)
    ensures n < |entries| ==> entries[n].1 != Local && entries[n].1 != Global
    decreases |entries|
  {
    if entries == [] then 0
    else if entries[0].1 != Local && entries[0].1 != Global then 0
    else
      var n := FirstUnknown(entries[1..]);
      assert forall i :: 0 <= i < n ==> entries[..n + 1][i + 1] == entries[1..][..n][i];
      assert forall i :: 1 <= i < |entries| ==> entries[i] == entries[1..][i - 1];
      n + 1
  }

  /** The initial context is built exactly when every status is known, and an error names the first unknown one. */
  lemma {:induction false} InitCtxFails(entries: seq<(string, string)>, globals: set<string>, locals: seq<string>)
    ensures InitCtx(entries, globals, locals).Returns? <==> KnownStatuses(entries)
    ensures InitCtx(entries, globals, locals).Throws? ==>
              var e := entries[FirstUnknown(entries)];
              InitCtx(entries, globals, locals).exc.message == Some(UnknownStatusMessage(e.0, e.1))
    decreases |entries|
  {
    if entries != [] {
      var (ident, status) := entries[0];
      if status == Local {
        InitCtxFails(entries[1..], globals, locals + [ident]);
      } else if status == Global {
        InitCtxFails(entries[1..], globals + {ident}, locals);
      }
    }
  }

  /** A built initial context holds the `LOCAL` identifiers as parameters, in order, and the `GLOBAL` ones as globals. */
  lemma {:induction false} InitCtxSorts(entries: seq<(string, string)>, globals: set<string>, locals: seq<string>)
    requires InitCtx(entries, globals, locals).Returns?
    ensures InitCtx(entries, globals, locals).value.1 == locals + WithStatus(entries, Local)
    ensures InitCtx(entries, globals, locals).value.0 == globals + (set g | g in WithStatus(entries, Global))
    decreases |entries|
  {
    if entries == [] {
      assert locals + [] == locals;
    } else {
      var (ident, status) := entries[0];
      var tail := entries[1..];
      if status == Local {
        InitCtxSorts(tail, globals, locals + [ident]);
        assert locals + [ident] + WithStatus(tail, Local) == locals + WithStatus(entries, Local);
      } else {
        InitCtxSorts(tail, globals + {ident}, locals);
        assert globals + {ident} + (set g | g in WithStatus(tail, Global)) == globals + (set g | g in WithStatus(entries, Global));
      }
    }
  }

  /** The error of an unknown status is logged under the shared key for unknown statuses. */
  lemma UnknownStatusLogged(entries: seq<(string, string)>, globals: set<string>, locals: seq<string>,
                            log: map<string, seq<string>>, source: string)
    requires InitCtx(entries, globals, locals).Throws?
    ensures var msg := InitCtx(entries, globals, locals).exc.message.value;
            LogError(log, msg, source) == log[UnknownIdentStatus := Bucket(log, UnknownIdentStatus) + [source]]
  {
    InitCtxFails(entries, globals, locals);
    var e := entries[FirstUnknown(entries)];
    var msg := UnknownStatusMessage(e.0, e.1);
    assert msg[..|UnknownStatusPrefix|] == UnknownStatusPrefix;
  }

  // ---------------------------------------------------------------- expression files

  /** A mutant of a maximal expression: its number and its source as written. */
  datatype Mutant = Mutant(mNo: i32, source: string)

  /** A maximal expression: namespace and source trimmed, the start position once read, the identifier statuses, the mutants. */
  datatype MaxExpr = MaxExpr(ns: string, source: string, startPos: Option<string>, identMap: map<string, string>, mutants: seq<Mutant>)

  /**
   * The state of the loop over a file's lines: the number of lines read,
   * the namespace of the last `[..]` line (`null` before the first), the
   * expressions of each namespace in the order read, the namespace under
   * which the current expression was filed (`null` when there is none),
   * and the count of mutants skipped for want of one.
   */
  datatype Reader = Reader(lineNo: nat, ns: Option<string>, groups: map<string, seq<MaxExpr>>, current: Option<string>, skipped: nat)

  const Start := Reader(0, None, map[], None, 0)

  const MaxExprTag := "maxExpr:"
  const StartPosTag := "startPos:"
  const IdentMapTag := "identMap:"
  const Separator := "-----"

  /** The expressions filed under `ns`, none when the key is absent. */
  function Group(groups: map<string, seq<MaxExpr>>, ns: string): seq<MaxExpr> {
    if ns in groups then groups[ns] else []
  }

  /** The current expression: the last one filed under its namespace. */
  function Current(r: Reader): Option<MaxExpr> {
    if r.current.Some? && |Group(r.groups, r.current.value)| > 0 then
      var g := r.groups[r.current.value];
      Some(g[|g| - 1])
    else None
  }

  /** The current expression replaced by `e`. */
  function SetCurrent(r: Reader, e: MaxExpr): (r': Reader)
    requires Current(r).Some?
    ensures Current(r') == Some(e)
  {
    var g := r.groups[r.current.value];
    var g' := g[..|g| - 1] + [e];
    r.(groups := r.groups[r.current.value := g'])
  }

  /** The text after the first `:` of a line. */
  function AfterColon(line: string): string
    requires ':' in line
  {
    line[IndexOfChar(line, ':') + 1..]
  }

  /** `^\d+:`: one or more ASCII digits, then a colon. */
  predicate IsMutantLine(line: string) {
    var k := CommentLines.Run(line, IsDigit);
    0 < k < |line| && line[k] == ':'
  }

  /** The `put`s of the `key:value` pieces of an `identMap:` line into `m`; a piece without two parts is an ArrayIndexOutOfBoundsException. */
  function PutAll(pieces: seq<string>, m: map<string, string>): (r: Outcome<map<string, string>>)
    ensures r.Throws? ==> r.exc == Exception(IndexOutOfBounds, None)
    decreases |pieces|
  {
    if pieces == [] then Returns(m)
    else
      var split := Split(pieces[0], ':');
      if |split| < 2 then Throws(Exception(IndexOutOfBounds, None))
      else PutAll(pieces[1..], m[Trim(split[0]) := Trim(split[1])])
  }

  /** The kinds of line, tried in the order the `ExprFile` constructor tries them. */
  datatype LineKind = NamespaceKind | MaxExprKind | StartPosKind | IdentMapKind | MutantKind | SeparatorKind | EmptyKind | InvalidKind

  function KindOf(line: string): (k: LineKind)
    ensures k == MaxExprKind || k == StartPosKind || k == IdentMapKind || k == MutantKind ==> ':' in line
  {
    if JavaLibrary.StartsWith(line, "[") then NamespaceKind
    else if JavaLibrary.StartsWith(line, MaxExprTag) then
      assert line[7] == ':';
      MaxExprKind
    else if JavaLibrary.StartsWith(line, StartPosTag) then
      assert line[8] == ':';
      StartPosKind
    else if JavaLibrary.StartsWith(line, IdentMapTag) then
      assert line[8] == ':';
      IdentMapKind
    else if IsMutantLine(line) then
      assert line[CommentLines.Run(line, IsDigit)] == ':';
      MutantKind
    else if JavaLibrary.StartsWith(line, Separator) then SeparatorKind
    else if line == [] then EmptyKind
    else InvalidKind
  }

  /** A `maxExpr:` line: a new current expression filed under the namespace, or none when the source does not parse. */
  function OnMaxExpr(r: Reader, line: string, parses: string -> bool): Outcome<Reader>
    requires ':' in line
  {
    if r.ns.None? then Throws(Exception(NullPointer, None))
    else
      var source := AfterColon(line);
      if parses(source) then
        var ns := r.ns.value;
        var e := MaxExpr(Trim(ns), Trim(source), None, map[], []);
        Returns(r.(groups := r.groups[ns := Group(r.groups, ns) + [e]], current := Some(ns)))
      else Returns(r.(current := None))
  }

  /** A `startPos:` line: the current expression's start position. */
  function OnStartPos(r: Reader, line: string): Reader
    requires ':' in line
  {
    match Current(r)
    case None => r
    case Some(e) => SetCurrent(r, e.(startPos := Some(Trim(AfterColon(line)))))
  }

  /** An `identMap:` line: its `key:value` pieces put into the current expression's map, when the value holds a comma. */
  function OnIdentMap(r: Reader, line: string): Outcome<Reader>
    requires ':' in line
  {
    match Current(r)
    case None => Returns(r)
    case Some(e) =>
      var mapString := AfterColon(line);
      if ',' in mapString then
        var m :- PutAll(Split(mapString, ','), e.identMap);
        Returns(SetCurrent(r, e.(identMap := m)))
      else Returns(r)
  }

  /** A mutant line: the mutant added to the current expression, or counted as skipped when there is none. */
  function OnMutant(r: Reader, line: string, parses: string -> bool): Outcome<Reader>
    requires ':' in line
  {
    match Current(r)
    case None => Returns(r.(skipped := r.skipped + 1))
    case Some(e) =>
      var idx := IndexOfChar(line, ':');
      var n :- ParseInt(line[..idx]);
      var source := line[idx + 1..];
      if parses(source) then Returns(SetCurrent(r, e.(mutants := e.mutants + [Mutant(n, source)])))
      else Throws(Exception(Runtime, None))
  }

  /**
   * One trip of the loop of the `ExprFile` constructor over a trimmed line.
   * A namespace line drops its brackets (StringIndexOutOfBoundsException for
   * a lone `[`).  A `maxExpr:` line files a new current expression under the
   * namespace (NullPointerException before any namespace), or leaves none
   * when its source does not parse.  `startPos:`, `identMap:` and mutant
   * lines fill in the current expression, and are ignored, or for a mutant
   * counted as skipped, when there is none; an `identMap:` value without a
   * comma is ignored too.  A mutant whose number is not an `int` or whose
   * source does not parse is an error.  A separator ends the current
   * expression, and any other non-empty line is an error naming it.
   */
  function Step(r0: Reader, raw: string, parses: string -> bool): Outcome<Reader> {
    var r := r0.(lineNo := r0.lineNo + 1);
    var line := Trim(raw);
    match KindOf(line)
    case NamespaceKind =>
      var ns :- Substring(line, 1, |line| - 1);
      Returns(r.(ns := Some(ns)))
    case MaxExprKind => OnMaxExpr(r, line, parses)
    case StartPosKind => Returns(OnStartPos(r, line))
    case IdentMapKind => OnIdentMap(r, line)
    case MutantKind => OnMutant(r, line, parses)
    case SeparatorKind => Returns(r.(current := None))
    case EmptyKind => Returns(r)
    case InvalidKind => Throws(Throw(Runtime, "Invalid file line: " + NatToString(r.lineNo) + ": " + line))
  }

  /** The loop over the remaining lines. */
  function Lines(r: Reader, lines: seq<string>, parses: string -> bool): Outcome<Reader>
    decreases |lines|
  {
    if lines == [] then Returns(r)
    else
      var r1 :- Step(r, lines[0], parses);
      Lines(r1, lines[1..], parses)
  }

  /** A line that steps to `r1` leaves the rest of the loop to start from `r1`. */
  lemma LinesStep(r: Reader, lines: seq<string>, r1: Reader, parses: string -> bool)
    requires lines != [] && Step(r, lines[0], parses) == Returns(r1)
    ensures Lines(r, lines, parses) == Lines(r1, lines[1..], parses)
  {
  }

  /** `new ExprFile(file)`, up to the translation of the expressions: the lines read from the start. */
  function ReadExprFile(lines: seq<string>, parses: string -> bool): Outcome<Reader> {
    Lines(Start, lines, parses)
  }

  // ---------------------------------------------------------------- what one line does

  /** No blank at either end: what `trim` keeps. */
  predicate Clean(s: string) {
    s == [] || (!Blank(s[0]) && !Blank(s[|s| - 1]))
  }

  /** No blank at the end. */
  predicate EndsClean(s: string) {
    s == [] || !Blank(s[|s| - 1])
  }

  /** The current expression, when there is one, is the last one filed under its namespace. */
  ghost predicate Tracking(r: Reader) {
    r.current.Some? ==> Current(r).Some?
  }

  lemma TagLine(p: string, x: string)
    requires p != [] && !Blank(p[0]) && !Blank(p[|p| - 1]) && EndsClean(x)
    ensures Trim(p + x) == p + x && JavaLibrary.StartsWith(p + x, p)
  {
    var s := p + x;
    assert s[0] == p[0] && s[..|p|] == p;
    assert s[|s| - 1] == if x == [] then p[|p| - 1] else x[|x| - 1];
    TrimKeeps(s);
  }

  lemma OtherTag(s: string, p: string)
    requires s != [] && p != [] && s[0] != p[0]
    ensures !JavaLibrary.StartsWith(s, p)
  {
    if |p| <= |s| {
      assert s[..|p|][0] == s[0];
    }
  }

  lemma ColonAfter(p: string, x: string)
    requires p != [] && p[|p| - 1] == ':' && ':' !in p[..|p| - 1]
    ensures ':' in p + x && AfterColon(p + x) == x
  {
    var s := p + x;
    assert s[|p| - 1] == ':';
    assert s[..|p| - 1] == p[..|p| - 1];
    IndexOfCharAt(s, ':', |p| - 1);
    assert s[|p|..] == x;
  }

  /** A line that does not start with a digit is not a mutant line. */
  lemma NotMutant(s: string)
    requires s != [] && !IsDigit(s[0])
    ensures !IsMutantLine(s)
  {
    CommentLines.RunPrefix(s, 0, IsDigit);
  }

  lemma MaxExprKindOf(x: string)
    requires EndsClean(x)
    ensures var line := MaxExprTag + x;
            Trim(line) == line && KindOf(line) == MaxExprKind && AfterColon(line) == x
  {
    var line := MaxExprTag + x;
    TagLine(MaxExprTag, x);
    OtherTag(line, "[");
    ColonAfter(MaxExprTag, x);
  }

  lemma StartPosKindOf(x: string)
    requires EndsClean(x)
    ensures var line := StartPosTag + x;
            Trim(line) == line && KindOf(line) == StartPosKind && AfterColon(line) == x
  {
    var line := StartPosTag + x;
    TagLine(StartPosTag, x);
    OtherTag(line, "[");
    OtherTag(line, MaxExprTag);
    ColonAfter(StartPosTag, x);
  }

  lemma IdentMapKindOf(x: string)
    requires EndsClean(x)
    ensures var line := IdentMapTag + x;
            Trim(line) == line && KindOf(line) == IdentMapKind && AfterColon(line) == x
  {
    var line := IdentMapTag + x;
    TagLine(IdentMapTag, x);
    OtherTag(line, "[");
    OtherTag(line, MaxExprTag);
    OtherTag(line, StartPosTag);
    ColonAfter(IdentMapTag, x);
  }

  /** `[ns]` makes `ns` the namespace, and changes nothing else. */
  lemma NamespaceLine(r: Reader, ns: string, parses: string -> bool)
    ensures Step(r, "[" + ns + "]", parses) == Returns(r.(lineNo := r.lineNo + 1, ns := Some(ns)))
  {
    var line := "[" + ns + "]";
    TagLine("[", ns + "]");
    assert line == "[" + (ns + "]");
    assert line[1..|line| - 1] == ns;
  }

  /** A lone `[` is a StringIndexOutOfBoundsException. */
  lemma LoneBracket(r: Reader, parses: string -> bool)
    ensures Step(r, "[", parses) == Throws(Exception(IndexOutOfBounds, None))
  {
    TagLine("[", "");
    assert "[" + "" == "[";
  }

  lemma MaxExprStep(r: Reader, line: string, parses: string -> bool)
    requires KindOf(line) == MaxExprKind && Trim(line) == line
    ensures Step(r, line, parses) == OnMaxExpr(r.(lineNo := r.lineNo + 1), line, parses)
  {
  }

  /** A `maxExpr:` line files a new current expression under the namespace, or leaves none when its source does not parse. */
  lemma MaxExprLine(r: Reader, source: string, parses: string -> bool)
    requires r.ns.Some? && Clean(source)
    ensures var r1 := r.(lineNo := r.lineNo + 1);
            var ns := r.ns.value;
            Step(r, MaxExprTag + source, parses)
            == if parses(source)
               then Returns(r1.(groups := r.groups[ns := Group(r.groups, ns) + [MaxExpr(Trim(ns), source, None, map[], [])]],
                                current := Some(ns)))
               else Returns(r1.(current := None))
  {
    MaxExprKindOf(source);
    TrimKeeps(source);
    MaxExprStep(r, MaxExprTag + source, parses);
  }

  /** A `maxExpr:` line before any namespace line is a NullPointerException. */
  lemma MaxExprWithoutNamespace(r: Reader, source: string, parses: string -> bool)
    requires r.ns.None? && EndsClean(source)
    ensures Step(r, MaxExprTag + source, parses) == Throws(Exception(NullPointer, None))
  {
    MaxExprKindOf(source);
    MaxExprStep(r, MaxExprTag + source, parses);
  }

  lemma StartPosStep(r: Reader, line: string, parses: string -> bool)
    requires KindOf(line) == StartPosKind && Trim(line) == line && Current(r).Some?
    ensures Step(r, line, parses)
            == Returns(SetCurrent(r.(lineNo := r.lineNo + 1), Current(r).value.(startPos := Some(Trim(AfterColon(line))))))
  {
    var r1 := r.(lineNo := r.lineNo + 1);
    assert Current(r1) == Current(r);
  }

  /** A `startPos:` line sets the current expression's start position. */
  lemma StartPosLine(r: Reader, pos: string, parses: string -> bool)
    requires Current(r).Some? && Clean(pos)
    ensures Step(r, StartPosTag + pos, parses)
            == Returns(SetCurrent(r.(lineNo := r.lineNo + 1), Current(r).value.(startPos := Some(pos))))
  {
    StartPosKindOf(pos);
    TrimKeeps(pos);
    StartPosStep(r, StartPosTag + pos, parses);
  }

  /** The text of an `identMap:` line: `key:value` pieces, each followed by a comma. */
  function IdentText(ps: seq<(string, string)>): string {
    if ps == [] then "" else Text.Join(PairTexts(ps) + [""], ',')
  }

  function PairTexts(ps: seq<(string, string)>): (r: seq<string>)
    ensures |r| == |ps|
  {
    seq(|ps|, i requires 0 <= i < |ps| => ps[i].0 + ":" + ps[i].1)
  }

  /** The pairs put into `m` in turn, a later one replacing an earlier one with the same key. */
  function PairsMap(ps: seq<(string, string)>, m: map<string, string>): map<string, string>
    decreases |ps|
  {
    if ps == [] then m else PairsMap(ps[1..], m[ps[0].0 := ps[0].1])
  }

  /** Keys and values that an `identMap:` line carries unchanged. */
  ghost predicate PairsReadable(ps: seq<(string, string)>) {
    forall i :: 0 <= i < |ps| ==>
      Clean(ps[i].0) && Clean(ps[i].1) && ps[i].1 != []
      && ',' !in ps[i].0 && ':' !in ps[i].0 && ',' !in ps[i].1 && ':' !in ps[i].1
  }

  lemma {:induction false} PutPairs(ps: seq<(string, string)>, m: map<string, string>)
    requires PairsReadable(ps)
    ensures PutAll(PairTexts(ps), m) == Returns(PairsMap(ps, m))
    decreases |ps|
  {
    if ps != [] {
      var (k, v) := ps[0];
      assert k + ":" + v == Text.Join([k, v], ':');
      SplitJoin([k, v], ':');
      TrimKeeps(k);
      TrimKeeps(v);
      assert PairTexts(ps)[0] == k + ":" + v;
      assert PairTexts(ps)[1..] == PairTexts(ps[1..]);
      assert PairsReadable(ps[1..]) by {
        assert forall i :: 0 <= i < |ps[1..]| ==> ps[1..][i] == ps[i + 1];
      }
      PutPairs(ps[1..], m[k := v]);
    }
  }

  lemma IdentTextSplits(ps: seq<(string, string)>)
    requires ps != [] && PairsReadable(ps)
    ensures ',' in IdentText(ps) && EndsClean(IdentText(ps))
    ensures Split(IdentText(ps), ',') == PairTexts(ps)
  {
    var ts := PairTexts(ps);
    Text.JoinSnoc(ts, "", ',');
    var s := IdentText(ps);
    assert s == Text.Join(ts, ',') + [','] + "";
    assert s[|s| - 1] == ',';
    forall i | 0 <= i < |ts| ensures ',' !in ts[i] {
      assert ts[i] == ps[i].0 + ":" + ps[i].1;
    }
    assert ts[|ts| - 1] != "";
    SplitJoinTrailing(ts, ',');
  }

  lemma IdentMapStep(r: Reader, line: string, parses: string -> bool)
    requires KindOf(line) == IdentMapKind && Trim(line) == line && Current(r).Some?
    ensures var e := Current(r).value;
            var mapString := AfterColon(line);
            Step(r, line, parses)
            == if ',' !in mapString then Returns(r.(lineNo := r.lineNo + 1))
               else match PutAll(Split(mapString, ','), e.identMap)
                    case Returns(m) => Returns(SetCurrent(r.(lineNo := r.lineNo + 1), e.(identMap := m)))
                    case Throws(x) => Throws(x)
  {
    var r1 := r.(lineNo := r.lineNo + 1);
    assert Current(r1) == Current(r);
  }

  /** An `identMap:` line with at least one comma puts every `key:value` piece into the current expression's map. */
  lemma IdentMapLine(r: Reader, ps: seq<(string, string)>, parses: string -> bool)
    requires Current(r).Some? && ps != [] && PairsReadable(ps)
    ensures var e := Current(r).value;
            Step(r, IdentMapTag + IdentText(ps), parses)
            == Returns(SetCurrent(r.(lineNo := r.lineNo + 1), e.(identMap := PairsMap(ps, e.identMap))))
  {
    IdentTextSplits(ps);
    IdentMapKindOf(IdentText(ps));
    PutPairs(ps, Current(r).value.identMap);
    IdentMapStep(r, IdentMapTag + IdentText(ps), parses);
  }

  /** An `identMap:` value without a comma, a single `key:value` entry among them, is dropped. */
  lemma IdentMapWithoutComma(r: Reader, text: string, parses: string -> bool)
    requires Current(r).Some? && ',' !in text && EndsClean(text)
    ensures Step(r, IdentMapTag + text, parses) == Returns(r.(lineNo := r.lineNo + 1))
  {
    IdentMapKindOf(text);
    IdentMapStep(r, IdentMapTag + text, parses);
  }

  /** The line of mutant number `n`. */
  function MutantText(n: i32, source: string): string {
    IntToString(n as int) + ":" + source
  }

  lemma MutantKindOf(n: i32, source: string)
    requires n >= 0 && EndsClean(source)
    ensures var line := MutantText(n, source);
            var d := IntToString(n as int);
            Trim(line) == line && KindOf(line) == MutantKind && IndexOfChar(line, ':') == |d|
            && line[..|d|] == d && line[|d| + 1..] == source
  {
    var d := IntToString(n as int);
    var line := MutantText(n, source);
    assert line[..|d|] == d && line[|d|] == ':' && line[|d| + 1..] == source;
    assert line[0] == d[0] && IsDigit(d[0]);
    assert line[|line| - 1] == if source == [] then ':' else source[|source| - 1];
    TrimKeeps(line);
    CommentLines.RunPrefix(line, |d|, IsDigit);
    IndexOfCharAt(line, ':', |d|);
    OtherTag(line, "[");
    OtherTag(line, MaxExprTag);
    OtherTag(line, StartPosTag);
    OtherTag(line, IdentMapTag);
  }

  lemma MutantStep(r: Reader, line: string, parses: string -> bool)
    requires KindOf(line) == MutantKind && Trim(line) == line
    ensures Step(r, line, parses) == OnMutant(r.(lineNo := r.lineNo + 1), line, parses)
  {
  }

  /** A mutant line adds the mutant to the current expression, its source as written. */
  lemma MutantLineAdds(r: Reader, n: i32, source: string, parses: string -> bool)
    requires Current(r).Some? && n >= 0 && EndsClean(source) && parses(source)
    ensures var e := Current(r).value;
            Step(r, MutantText(n, source), parses)
            == Returns(SetCurrent(r.(lineNo := r.lineNo + 1), e.(mutants := e.mutants + [Mutant(n, source)])))
  {
    MutantKindOf(n, source);
    ParseIntRoundTrip(n);
    MutantStep(r, MutantText(n, source), parses);
    assert Current(r.(lineNo := r.lineNo + 1)) == Current(r);
  }

  /** Without a current expression a `startPos:` line is ignored. */
  lemma StartPosIgnored(r: Reader, text: string, parses: string -> bool)
    requires Current(r).None? && EndsClean(text)
    ensures Step(r, StartPosTag + text, parses) == Returns(r.(lineNo := r.lineNo + 1))
  {
    StartPosKindOf(text);
    StartPosNone(r, StartPosTag + text, parses);
  }

  /** Without a current expression an `identMap:` line is ignored. */
  lemma IdentMapIgnored(r: Reader, text: string, parses: string -> bool)
    requires Current(r).None? && EndsClean(text)
    ensures Step(r, IdentMapTag + text, parses) == Returns(r.(lineNo := r.lineNo + 1))
  {
    IdentMapKindOf(text);
    IdentMapNone(r, IdentMapTag + text, parses);
  }

  /** Without a current expression a mutant line is counted as skipped, whether or not it would parse. */
  lemma MutantSkipped(r: Reader, n: i32, text: string, parses: string -> bool)
    requires Current(r).None? && EndsClean(text) && n >= 0
    ensures Step(r, MutantText(n, text), parses) == Returns(r.(lineNo := r.lineNo + 1, skipped := r.skipped + 1))
  {
    MutantKindOf(n, text);
    MutantStep(r, MutantText(n, text), parses);
    assert Current(r.(lineNo := r.lineNo + 1)) == None;
  }

  lemma StartPosNone(r: Reader, line: string, parses: string -> bool)
    requires KindOf(line) == StartPosKind && Trim(line) == line && Current(r).None?
    ensures Step(r, line, parses) == Returns(r.(lineNo := r.lineNo + 1))
  {
    assert Current(r.(lineNo := r.lineNo + 1)) == None;
  }

  lemma IdentMapNone(r: Reader, line: string, parses: string -> bool)
    requires KindOf(line) == IdentMapKind && Trim(line) == line && Current(r).None?
    ensures Step(r, line, parses) == Returns(r.(lineNo := r.lineNo + 1))
  {
    assert Current(r.(lineNo := r.lineNo + 1)) == None;
  }

  /** A separator ends the current expression. */
  lemma SeparatorLine(r: Reader, parses: string -> bool)
    ensures Step(r, Separator, parses) == Returns(r.(lineNo := r.lineNo + 1, current := None))
  {
    TagLine(Separator, "");
    assert Separator + "" == Separator;
    OtherTag(Separator, "[");
    OtherTag(Separator, MaxExprTag);
    OtherTag(Separator, StartPosTag);
    OtherTag(Separator, IdentMapTag);
    NotMutant(Separator);
    assert KindOf(Separator) == SeparatorKind;
  }

  /** A non-empty line that starts with none of the characters the known lines start with is refused, naming its number. */
  lemma InvalidLine(r: Reader, line: string, parses: string -> bool)
    requires Clean(line) && line != [] && line[0] !in "[msi-" && !IsDigit(line[0])
    ensures Step(r, line, parses)
            == Throws(Throw(Runtime, "Invalid file line: " + NatToString(r.lineNo + 1) + ": " + line))
  {
    TrimKeeps(line);
    OtherTag(line, "[");
    OtherTag(line, MaxExprTag);
    OtherTag(line, StartPosTag);
    OtherTag(line, IdentMapTag);
    OtherTag(line, Separator);
    NotMutant(line);
    assert KindOf(line) == InvalidKind;
  }

  // ---------------------------------------------------------------- what a written entry reads as

  /**
   * One maximal expression as the mutator writes it: its source, its start
   * position, the status of each identifier, and its numbered mutants.
   */
  datatype Entry = Entry(source: string, startPos: string, idents: seq<(string, string)>, mutants: seq<(i32, string)>)

  function MutantLines(ms: seq<(i32, string)>): (r: seq<string>)
    ensures |r| == |ms|
  {
    seq(|ms|, i requires 0 <= i < |ms| => MutantText(ms[i].0, ms[i].1))
  }

  /** The lines of an entry, ending with the separator. */
  function EntryLines(e: Entry): (r: seq<string>)
    ensures |r| == |e.mutants| + 4
  {
    [MaxExprTag + e.source, StartPosTag + e.startPos, IdentMapTag + IdentText(e.idents)] + MutantLines(e.mutants) + [Separator]
  }

  function AsMutants(ms: seq<(i32, string)>): (r: seq<Mutant>)
    ensures |r| == |ms|
  {
    seq(|ms|, i requires 0 <= i < |ms| => Mutant(ms[i].0, ms[i].1))
  }

  /** The expression an entry stands for, filed under namespace `ns`. */
  function Written(ns: string, e: Entry): MaxExpr {
    MaxExpr(Trim(ns), e.source, Some(e.startPos), PairsMap(e.idents, map[]), AsMutants(e.mutants))
  }

  /** An entry whose text survives trimming and splitting, and whose sources parse. */
  ghost predicate Readable(e: Entry, parses: string -> bool) {
    Clean(e.source) && parses(e.source) && Clean(e.startPos) && PairsReadable(e.idents)
    && forall i :: 0 <= i < |e.mutants| ==> e.mutants[i].0 >= 0 && EndsClean(e.mutants[i].1) && parses(e.mutants[i].1)
  }

  /** `x` filed as the current expression under `ns`. */
  function Filed(r: Reader, ns: string, x: MaxExpr): Reader {
    r.(groups := r.groups[ns := Group(r.groups, ns) + [x]], current := Some(ns))
  }

  /** Setting the current expression replaces the one just filed. */
  lemma FiledSet(r: Reader, ns: string, x: MaxExpr, y: MaxExpr, n: nat)
    ensures SetCurrent(Filed(r, ns, x).(lineNo := n), y) == Filed(r.(lineNo := n), ns, y)
  {
    var g := Group(r.groups, ns) + [x];
    assert g[..|g| - 1] == Group(r.groups, ns);
  }

  /** The next line's update of the expression just filed files the updated expression instead. */
  lemma FiledNext(r: Reader, ns: string, x: MaxExpr, y: MaxExpr)
    ensures var r0 := Filed(r, ns, x);
            Current(r0) == Some(x) && SetCurrent(r0.(lineNo := r0.lineNo + 1), y) == Filed(r.(lineNo := r.lineNo + 1), ns, y)
    ensures Counted(r, 1) == r.(lineNo := r.lineNo + 1)
  {
    FiledSet(r, ns, x, y, r.lineNo + 1);
  }

  /** Counting a line past the expression just filed is filing it one line later. */
  lemma FiledCounted(r: Reader, ns: string, x: MaxExpr)
    ensures var r0 := Filed(r, ns, x);
            Current(r0) == Some(x) && r0.(lineNo := r0.lineNo + 1) == Filed(Counted(r, 1), ns, x)
  {
  }

  lemma MutantFiled(r: Reader, ns: string, x: MaxExpr, n: i32, src: string, parses: string -> bool)
    requires n >= 0 && EndsClean(src) && parses(src)
    ensures Step(Filed(r, ns, x), MutantText(n, src), parses)
            == Returns(Filed(r.(lineNo := r.lineNo + 1), ns, x.(mutants := x.mutants + [Mutant(n, src)])))
  {
    FiledNext(r, ns, x, x.(mutants := x.mutants + [Mutant(n, src)]));
    MutantLineAdds(Filed(r, ns, x), n, src, parses);
  }

  lemma MutantsCons(ms: seq<(i32, string)>)
    requires ms != []
    ensures MutantLines(ms) == [MutantText(ms[0].0, ms[0].1)] + MutantLines(ms[1..])
    ensures AsMutants(ms) == [Mutant(ms[0].0, ms[0].1)] + AsMutants(ms[1..])
  {
    MutantLinesHead(ms);
    AsMutantsHead(ms);
  }

  lemma MutantLinesHead(ms: seq<(i32, string)>)
    requires ms != []
    ensures MutantLines(ms) == [MutantText(ms[0].0, ms[0].1)] + MutantLines(ms[1..])
  {
    var a, b := MutantLines(ms), [MutantText(ms[0].0, ms[0].1)] + MutantLines(ms[1..]);
    forall i | 0 <= i < |a|
      ensures a[i] == b[i]
    {
      if i > 0 {
        assert b[i] == MutantLines(ms[1..])[i - 1];
      }
    }
  }

  lemma AsMutantsHead(ms: seq<(i32, string)>)
    requires ms != []
    ensures AsMutants(ms) == [Mutant(ms[0].0, ms[0].1)] + AsMutants(ms[1..])
  {
    var a, b := AsMutants(ms), [Mutant(ms[0].0, ms[0].1)] + AsMutants(ms[1..]);
    forall i | 0 <= i < |a|
      ensures a[i] == b[i]
    {
      if i > 0 {
        assert b[i] == AsMutants(ms[1..])[i - 1];
      }
    }
  }

  /** `r` after `k` more lines. */
  function Counted(r: Reader, k: nat): Reader {
    r.(lineNo := r.lineNo + k)
  }

  /** `x` with the mutants `ms` added. */
  function Extended(x: MaxExpr, ms: seq<(i32, string)>): MaxExpr {
    x.(mutants := x.mutants + AsMutants(ms))
  }

  lemma ExtendedCons(x: MaxExpr, ms: seq<(i32, string)>)
    requires ms != []
    ensures Extended(Extended(x, ms[..1]), ms[1..]) == Extended(x, ms)
    ensures Extended(x, ms[..1]) == x.(mutants := x.mutants + [Mutant(ms[0].0, ms[0].1)])
  {
    MutantsCons(ms);
    assert AsMutants(ms[..1]) == [Mutant(ms[0].0, ms[0].1)];
  }

  lemma MutantLinesCons(ms: seq<(i32, string)>, rest: seq<string>)
    requires ms != []
    ensures (MutantLines(ms) + rest)[0] == MutantText(ms[0].0, ms[0].1)
    ensures (MutantLines(ms) + rest)[1..] == MutantLines(ms[1..]) + rest
  {
    var m := MutantLines(ms);
    assert m[1..] == MutantLines(ms[1..]);
    assert (m + rest)[1..] == m[1..] + rest;
  }

  /** Mutant lines add their mutants, in order, to the expression just filed. */
  lemma {:induction false} ReadMutants(r: Reader, ns: string, x: MaxExpr, ms: seq<(i32, string)>, lines: seq<string>,
                                       rest: seq<string>, parses: string -> bool)
    requires forall i :: 0 <= i < |ms| ==> ms[i].0 >= 0 && EndsClean(ms[i].1) && parses(ms[i].1)
    requires lines == MutantLines(ms) + rest
    ensures Lines(Filed(r, ns, x), lines, parses) == Lines(Filed(Counted(r, |ms|), ns, Extended(x, ms)), rest, parses)
    decreases |ms|
  {
    if ms == [] {
      NoMutants(r, x, ms, lines, rest);
    } else {
      var x1 := Extended(x, ms[..1]);
      var r1 := Counted(r, 1);
      ReadMutantStep(r, ns, x, ms, lines, rest, parses);
      MutantsTail(ms, parses);
      ReadMutants(r1, ns, x1, ms[1..], lines[1..], rest, parses);
      FiledAfterMutants(r, ns, x, ms);
    }
  }

  lemma MutantsTail(ms: seq<(i32, string)>, parses: string -> bool)
    requires ms != []
    requires forall i :: 0 <= i < |ms| ==> ms[i].0 >= 0 && EndsClean(ms[i].1) && parses(ms[i].1)
    ensures forall i :: 0 <= i < |ms[1..]| ==> ms[1..][i].0 >= 0 && EndsClean(ms[1..][i].1) && parses(ms[1..][i].1)
  {
    forall i | 0 <= i < |ms[1..]|
      ensures ms[1..][i].0 >= 0 && EndsClean(ms[1..][i].1) && parses(ms[1..][i].1)
    {
      assert ms[1..][i] == ms[i + 1];
    }
  }

  /** Filing the first mutant and then the others is filing them all. */
  lemma FiledAfterMutants(r: Reader, ns: string, x: MaxExpr, ms: seq<(i32, string)>)
    requires ms != []
    ensures Filed(Counted(Counted(r, 1), |ms[1..]|), ns, Extended(Extended(x, ms[..1]), ms[1..]))
            == Filed(Counted(r, |ms|), ns, Extended(x, ms))
  {
    ExtendedCons(x, ms);
  }

  lemma NoMutants(r: Reader, x: MaxExpr, ms: seq<(i32, string)>, lines: seq<string>, rest: seq<string>)
    requires ms == [] && lines == MutantLines(ms) + rest
    ensures lines == rest && Extended(x, ms) == x && Counted(r, |ms|) == r
  {
    assert MutantLines(ms) == [];
    assert AsMutants(ms) == [];
  }

  /** The first mutant line adds the first mutant and leaves the lines of the others. */
  lemma ReadMutantStep(r: Reader, ns: string, x: MaxExpr, ms: seq<(i32, string)>, lines: seq<string>,
                       rest: seq<string>, parses: string -> bool)
    requires ms != [] && ms[0].0 >= 0 && EndsClean(ms[0].1) && parses(ms[0].1)
    requires lines == MutantLines(ms) + rest
    ensures lines[1..] == MutantLines(ms[1..]) + rest
    ensures Lines(Filed(r, ns, x), lines, parses) == Lines(Filed(Counted(r, 1), ns, Extended(x, ms[..1])), lines[1..], parses)
  {
    MutantLinesCons(ms, rest);
    FirstMutantFiled(r, ns, x, ms, parses);
    LinesStep(Filed(r, ns, x), lines, Filed(Counted(r, 1), ns, Extended(x, ms[..1])), parses);
  }

  lemma FirstMutantFiled(r: Reader, ns: string, x: MaxExpr, ms: seq<(i32, string)>, parses: string -> bool)
    requires ms != [] && ms[0].0 >= 0 && EndsClean(ms[0].1) && parses(ms[0].1)
    ensures Step(Filed(r, ns, x), MutantText(ms[0].0, ms[0].1), parses) == Returns(Filed(Counted(r, 1), ns, Extended(x, ms[..1])))
  {
    MutantFiled(r, ns, x, ms[0].0, ms[0].1, parses);
    FirstFiled(r, ns, x, ms);
  }

  lemma FirstFiled(r: Reader, ns: string, x: MaxExpr, ms: seq<(i32, string)>)
    requires ms != []
    ensures Filed(Counted(r, 1), ns, Extended(x, ms[..1]))
            == Filed(r.(lineNo := r.lineNo + 1), ns, x.(mutants := x.mutants + [Mutant(ms[0].0, ms[0].1)]))
  {
    ExtendedCons(x, ms);
  }

  lemma MaxExprFiled(r: Reader, line: string, parses: string -> bool)
    requires KindOf(line) == MaxExprKind && Trim(line) == line
    requires r.ns.Some? && parses(AfterColon(line)) && Trim(AfterColon(line)) == AfterColon(line)
    ensures Step(r, line, parses)
            == Returns(Filed(Counted(r, 1), r.ns.value, MaxExpr(Trim(r.ns.value), AfterColon(line), None, map[], [])))
  {
    MaxExprStep(r, line, parses);
  }

  /** A `maxExpr:` line whose source parses files a fresh expression under the namespace. */
  lemma FiledMaxExpr(r: Reader, source: string, parses: string -> bool)
    requires r.ns.Some? && Clean(source) && parses(source)
    ensures Step(r, MaxExprTag + source, parses)
            == Returns(Filed(Counted(r, 1), r.ns.value, MaxExpr(Trim(r.ns.value), source, None, map[], [])))
  {
    MaxExprKindOf(source);
    TrimKeeps(source);
    MaxExprFiled(r, MaxExprTag + source, parses);
  }

  /** A `startPos:` line sets the start position of the expression just filed. */
  lemma FiledStartPos(r: Reader, ns: string, x: MaxExpr, pos: string, parses: string -> bool)
    requires Clean(pos)
    ensures Step(Filed(r, ns, x), StartPosTag + pos, parses) == Returns(Filed(Counted(r, 1), ns, x.(startPos := Some(pos))))
  {
    FiledNext(r, ns, x, x.(startPos := Some(pos)));
    StartPosLine(Filed(r, ns, x), pos, parses);
  }

  /** An `identMap:` line written from `ps` gives the expression just filed the map of `ps`, also when `ps` is empty. */
  lemma FiledIdentMap(r: Reader, ns: string, x: MaxExpr, ps: seq<(string, string)>, parses: string -> bool)
    requires PairsReadable(ps) && x.identMap == map[]
    ensures Step(Filed(r, ns, x), IdentMapTag + IdentText(ps), parses)
            == Returns(Filed(Counted(r, 1), ns, x.(identMap := PairsMap(ps, map[]))))
  {
    if ps == [] {
      FiledCounted(r, ns, x);
      assert IdentMapTag + IdentText(ps) == IdentMapTag + "";
      IdentMapWithoutComma(Filed(r, ns, x), "", parses);
      assert x.(identMap := PairsMap(ps, map[])) == x;
    } else {
      FiledIdentPairs(r, ns, x, ps, parses);
    }
  }

  lemma FiledIdentPairs(r: Reader, ns: string, x: MaxExpr, ps: seq<(string, string)>, parses: string -> bool)
    requires PairsReadable(ps) && x.identMap == map[] && ps != []
    ensures Step(Filed(r, ns, x), IdentMapTag + IdentText(ps), parses)
            == Returns(Filed(Counted(r, 1), ns, x.(identMap := PairsMap(ps, map[]))))
  {
    var y := x.(identMap := PairsMap(ps, x.identMap));
    FiledNext(r, ns, x, y);
    IdentMapLine(Filed(r, ns, x), ps, parses);
  }

  /** The separator closes the expression just filed. */
  lemma FiledSeparator(r: Reader, ns: string, x: MaxExpr, parses: string -> bool)
    ensures Step(Filed(r, ns, x), Separator, parses) == Returns(Filed(Counted(r, 1), ns, x).(current := None))
  {
    SeparatorLine(Filed(r, ns, x), parses);
  }

  /** The three header lines of an entry file its expression, with no mutants yet. */
  lemma ReadHeader(r: Reader, e: Entry, rest: seq<string>, parses: string -> bool)
    requires r.ns.Some? && Readable(e, parses)
    ensures var ns := r.ns.value;
            Lines(r, EntryLines(e) + rest, parses)
            == Lines(Filed(Counted(r, 3), ns, Written(ns, e).(mutants := [])), MutantLines(e.mutants) + ([Separator] + rest), parses)
  {
    var ns := r.ns.value;
    var lines := EntryLines(e) + rest;
    var x0 := MaxExpr(Trim(ns), e.source, None, map[], []);
    var x1 := x0.(startPos := Some(e.startPos));
    var x2 := x1.(identMap := PairsMap(e.idents, map[]));
    assert x2 == Written(ns, e).(mutants := []);
    assert lines[0] == MaxExprTag + e.source && lines[1] == StartPosTag + e.startPos;
    assert lines[2] == IdentMapTag + IdentText(e.idents);
    assert lines[1..][1..][1..] == MutantLines(e.mutants) + ([Separator] + rest);
    FiledMaxExpr(r, e.source, parses);
    LinesStep(r, lines, Filed(Counted(r, 1), ns, x0), parses);
    FiledStartPos(Counted(r, 1), ns, x0, e.startPos, parses);
    LinesStep(Filed(Counted(r, 1), ns, x0), lines[1..], Filed(Counted(Counted(r, 1), 1), ns, x1), parses);
    FiledIdentMap(Counted(Counted(r, 1), 1), ns, x1, e.idents, parses);
    LinesStep(Filed(Counted(Counted(r, 1), 1), ns, x1), lines[1..][1..], Filed(Counted(Counted(Counted(r, 1), 1), 1), ns, x2), parses);
    assert Counted(Counted(Counted(r, 1), 1), 1) == Counted(r, 3);
  }

  /**
   * The lines of an entry, read after its namespace line, file the
   * expression the entry stands for under that namespace and leave no
   * current expression, whatever follows.
   */
  lemma ReadEntry(r: Reader, e: Entry, rest: seq<string>, parses: string -> bool)
    requires r.ns.Some? && Readable(e, parses)
    ensures var ns := r.ns.value;
            Lines(r, EntryLines(e) + rest, parses)
            == Lines(Filed(Counted(r, |EntryLines(e)|), ns, Written(ns, e)).(current := None), rest, parses)
  {
    var ns := r.ns.value;
    var w := Written(ns, e);
    var r4 := Counted(Counted(r, 3), |e.mutants|);
    var tail := [Separator] + rest;
    ReadEntryLines(r, e, rest, parses);
    ReadSeparator(r4, ns, w, rest, parses);
    assert Counted(r4, 1) == Counted(r, |EntryLines(e)|);
  }

  /** An entry's header and mutant lines file its expression, up to the separator. */
  lemma ReadEntryLines(r: Reader, e: Entry, rest: seq<string>, parses: string -> bool)
    requires r.ns.Some? && Readable(e, parses)
    ensures var ns := r.ns.value;
            Lines(r, EntryLines(e) + rest, parses)
            == Lines(Filed(Counted(Counted(r, 3), |e.mutants|), ns, Written(ns, e)), [Separator] + rest, parses)
  {
    var ns := r.ns.value;
    var tail := [Separator] + rest;
    ReadHeader(r, e, rest, parses);
    ReadableMutants(e, parses);
    ReadMutants(Counted(r, 3), ns, Written(ns, e).(mutants := []), e.mutants, MutantLines(e.mutants) + tail, tail, parses);
    WrittenExtended(ns, e);
  }

  lemma ReadableMutants(e: Entry, parses: string -> bool)
    requires Readable(e, parses)
    ensures forall i :: 0 <= i < |e.mutants| ==> e.mutants[i].0 >= 0 && EndsClean(e.mutants[i].1) && parses(e.mutants[i].1)
  {
  }

  /** An entry's expression is its header's with its mutants added. */
  lemma WrittenExtended(ns: string, e: Entry)
    ensures Extended(Written(ns, e).(mutants := []), e.mutants) == Written(ns, e)
  {
  }

  /** The separator closes the entry being read. */
  lemma ReadSeparator(r: Reader, ns: string, w: MaxExpr, rest: seq<string>, parses: string -> bool)
    ensures Lines(Filed(r, ns, w), [Separator] + rest, parses) == Lines(Filed(Counted(r, 1), ns, w).(current := None), rest, parses)
  {
    var tail := [Separator] + rest;
    FiledSeparator(r, ns, w, parses);
    LinesStep(Filed(r, ns, w), tail, Filed(Counted(r, 1), ns, w).(current := None), parses);
    assert tail[1..] == rest;
  }

  /** The lines of several entries, one after the other. */
  function AllEntryLines(es: seq<Entry>): (r: seq<string>)
    decreases |es|
  {
    if es == [] then [] else EntryLines(es[0]) + AllEntryLines(es[1..])
  }

  /** A file of one namespace: its line, then its entries. */
  function FileLines(ns: string, es: seq<Entry>): seq<string> {
    ["[" + ns + "]"] + AllEntryLines(es)
  }

  /** The expressions the entries stand for, in order. */
  function WrittenAll(ns: string, es: seq<Entry>): (r: seq<MaxExpr>)
    ensures |r| == |es|
  {
    seq(|es|, i requires 0 <= i < |es| => Written(ns, es[i]))
  }

  /** The reader after the entries `es` of namespace `ns`, each filed and closed in turn. */
  function Appended(r: Reader, ns: string, es: seq<Entry>): Reader
    decreases |es|
  {
    if es == [] then r
    else Appended(Filed(Counted(r, |EntryLines(es[0])|), ns, Written(ns, es[0])).(current := None), ns, es[1..])
  }

  lemma AllEntryLinesCons(es: seq<Entry>, rest: seq<string>)
    requires es != []
    ensures AllEntryLines(es) + rest == EntryLines(es[0]) + (AllEntryLines(es[1..]) + rest)
  {
    ConcatAssoc(EntryLines(es[0]), AllEntryLines(es[1..]), rest);
  }

  lemma ConcatAssoc(a: seq<string>, b: seq<string>, c: seq<string>)
    ensures (a + b) + c == a + (b + c)
  {
  }

  /** Entries read one after the other file their expressions in turn. */
  lemma {:induction false} ReadEntries(r: Reader, es: seq<Entry>, rest: seq<string>, parses: string -> bool)
    requires r.ns.Some? && forall i :: 0 <= i < |es| ==> Readable(es[i], parses)
    ensures Lines(r, AllEntryLines(es) + rest, parses) == Lines(Appended(r, r.ns.value, es), rest, parses)
    decreases |es|
  {
    if es == [] {
      assert AllEntryLines(es) + rest == rest;
    } else {
      var ns := r.ns.value;
      var r1 := Filed(Counted(r, |EntryLines(es[0])|), ns, Written(ns, es[0])).(current := None);
      AllEntryLinesCons(es, rest);
      ReadEntry(r, es[0], AllEntryLines(es[1..]) + rest, parses);
      assert forall i :: 0 <= i < |es[1..]| ==> es[1..][i] == es[i + 1];
      ReadEntries(r1, es[1..], rest, parses);
    }
  }

  /**
   * After the entries, the namespace holds their expressions after the ones
   * it held, no other namespace changes, no mutant was skipped, each line
   * was counted, and no expression is current.
   */
  lemma {:induction false} AppendedState(r: Reader, ns: string, es: seq<Entry>)
    requires es != []
    ensures Appended(r, ns, es).groups == r.groups[ns := Group(r.groups, ns) + WrittenAll(ns, es)]
    ensures Appended(r, ns, es).ns == r.ns && Appended(r, ns, es).skipped == r.skipped
    ensures Appended(r, ns, es).lineNo == r.lineNo + |AllEntryLines(es)|
    ensures Appended(r, ns, es).current == None
    decreases |es|
  {
    var r1 := Filed(Counted(r, |EntryLines(es[0])|), ns, Written(ns, es[0])).(current := None);
    AllEntryLinesCons(es, []);
    if |es| == 1 {
      assert WrittenAll(ns, es) == [Written(ns, es[0])];
    } else {
      AppendedState(r1, ns, es[1..]);
      WrittenAllCons(ns, es);
      GroupsAppend(r.groups, ns, Written(ns, es[0]), WrittenAll(ns, es[1..]));
    }
  }

  lemma WrittenAllCons(ns: string, es: seq<Entry>)
    requires es != []
    ensures WrittenAll(ns, es) == [Written(ns, es[0])] + WrittenAll(ns, es[1..])
  {
    assert WrittenAll(ns, es) == [Written(ns, es[0])] + WrittenAll(ns, es[1..]);
  }

  lemma GroupsAppend(groups: map<string, seq<MaxExpr>>, ns: string, x: MaxExpr, xs: seq<MaxExpr>)
    ensures var g1 := groups[ns := Group(groups, ns) + [x]];
            g1[ns := Group(g1, ns) + xs] == groups[ns := Group(groups, ns) + ([x] + xs)]
  {
    var g := Group(groups, ns);
    assert g + [x] + xs == g + ([x] + xs);
  }

  /** The reader after a namespace line and its entries, from the start. */
  lemma FromStart(ns: string, es: seq<Entry>)
    requires es != []
    ensures var fin := Appended(Start.(lineNo := 1, ns := Some(ns)), ns, es);
            fin.groups == map[ns := WrittenAll(ns, es)] && fin.ns == Some(ns) && fin.skipped == 0 && fin.current == None
            && fin.lineNo == 1 + |AllEntryLines(es)|
  {
    var r1 := Start.(lineNo := 1, ns := Some(ns));
    AppendedState(r1, ns, es);
    var w := WrittenAll(ns, es);
    assert Group(r1.groups, ns) + w == w;
    assert r1.groups == map[];
  }

  /**
   * A file of one namespace, written entry by entry, reads back as the
   * expressions the entries stand for, all under that namespace, with no
   * mutant skipped.
   */
  lemma ReadWrittenFile(ns: string, es: seq<Entry>, parses: string -> bool)
    requires es != [] && forall i :: 0 <= i < |es| ==> Readable(es[i], parses)
    ensures ReadExprFile(FileLines(ns, es), parses).Returns?
    ensures var r := ReadExprFile(FileLines(ns, es), parses).value;
            r.groups == map[ns := WrittenAll(ns, es)] && r.ns == Some(ns) && r.skipped == 0 && r.current == None
            && r.lineNo == |FileLines(ns, es)|
  {
    var r1 := Start.(lineNo := 1, ns := Some(ns));
    NamespaceFirst(ns, es, parses);
    ReadEntries(r1, es, [], parses);
    FromStart(ns, es);
  }

  /** The namespace line of a file is read first. */
  lemma NamespaceFirst(ns: string, es: seq<Entry>, parses: string -> bool)
    ensures ReadExprFile(FileLines(ns, es), parses) == Lines(Start.(lineNo := 1, ns := Some(ns)), AllEntryLines(es) + [], parses)
  {
    var lines := FileLines(ns, es);
    NamespaceLine(Start, ns, parses);
    LinesStep(Start, lines, Start.(lineNo := 1, ns := Some(ns)), parses);
    assert lines[1..] == AllEntryLines(es) + [];
  }

  /** A step counts the line, and the skipped mutants never decrease. */
  lemma StepCounts(r: Reader, raw: string, parses: string -> bool)
    requires Step(r, raw, parses).Returns?
    ensures Step(r, raw, parses).value.lineNo == r.lineNo + 1
    ensures Step(r, raw, parses).value.skipped >= r.skipped
  {
    var line := Trim(raw);
    var r1 := r.(lineNo := r.lineNo + 1);
    match KindOf(line)
    case MaxExprKind => OnMaxExprTracks(r1, line, parses);
    case IdentMapKind => OnIdentMapCounts(r1, line);
    case MutantKind => OnMutantCounts(r1, line, parses);
    case _ =>
  }

  lemma OnIdentMapCounts(r: Reader, line: string)
    requires ':' in line && OnIdentMap(r, line).Returns?
    ensures OnIdentMap(r, line).value.lineNo == r.lineNo && OnIdentMap(r, line).value.skipped == r.skipped
  {
  }

  lemma OnMutantCounts(r: Reader, line: string, parses: string -> bool)
    requires ':' in line && OnMutant(r, line, parses).Returns?
    ensures OnMutant(r, line, parses).value.lineNo == r.lineNo && OnMutant(r, line, parses).value.skipped >= r.skipped
  {
  }

  /** A step keeps the current expression the last one filed under its namespace. */
  lemma StepTracks(r: Reader, raw: string, parses: string -> bool)
    requires Tracking(r) && Step(r, raw, parses).Returns?
    ensures Tracking(Step(r, raw, parses).value)
  {
    var line := Trim(raw);
    var r1 := r.(lineNo := r.lineNo + 1);
    assert Tracking(r1) by {
      assert Current(r1) == Current(r);
    }
    match KindOf(line)
    case MaxExprKind => OnMaxExprTracks(r1, line, parses);
    case StartPosKind =>
    case IdentMapKind => OnIdentMapTracks(r1, line);
    case MutantKind => OnMutantTracks(r1, line, parses);
    case _ =>
  }

  lemma OnMaxExprTracks(r: Reader, line: string, parses: string -> bool)
    requires ':' in line && OnMaxExpr(r, line, parses).Returns?
    ensures Tracking(OnMaxExpr(r, line, parses).value) && OnMaxExpr(r, line, parses).value.lineNo == r.lineNo
    ensures OnMaxExpr(r, line, parses).value.skipped == r.skipped
  {
  }

  lemma OnIdentMapTracks(r: Reader, line: string)
    requires ':' in line && Tracking(r) && OnIdentMap(r, line).Returns?
    ensures Tracking(OnIdentMap(r, line).value)
  {
  }

  lemma OnMutantTracks(r: Reader, line: string, parses: string -> bool)
    requires ':' in line && Tracking(r) && OnMutant(r, line, parses).Returns?
    ensures Tracking(OnMutant(r, line, parses).value)
  {
  }

  // ---------------------------------------------------------------- parse error messages

  const ExpectingMarker := "\nWas expecting one of:"

  /** `trimParseErrorMessage(msg)`: the message up to the list of expected tokens, trimmed. */
  function TrimParseErrorMessage(msg: string): string {
    var idx := JavaLibrary.IndexOf(msg, ExpectingMarker);
    if idx > 0 then Trim(msg[..idx]) else Trim(msg)
  }

  /** A one-line message followed by the list of expected tokens is cut down to that line, trimmed. */
  lemma CutAtMarker(head: string, tail: string)
    requires head != [] && '\n' !in head
    ensures TrimParseErrorMessage(head + ExpectingMarker + tail) == Trim(head)
  {
    var msg := head + ExpectingMarker + tail;
    MarkerIndex(head, tail);
    assert msg[..|head|] == head;
  }

  /** The marker is first found right after a one-line head. */
  lemma MarkerIndex(head: string, tail: string)
    requires '\n' !in head
    ensures JavaLibrary.IndexOf(head + ExpectingMarker + tail, ExpectingMarker) == |head|
  {
    var msg := head + ExpectingMarker + tail;
    assert msg[|head|..] == ExpectingMarker + tail;
    assert JavaLibrary.StartsWith(msg[|head|..], ExpectingMarker);
    forall j | 0 <= j < |head| ensures !JavaLibrary.StartsWith(msg[j..], ExpectingMarker) {
      NoMarkerInHead(head, ExpectingMarker + tail, j);
    }
  }

  /** No position inside a one-line head starts the marker. */
  lemma NoMarkerInHead(head: string, rest: string, j: nat)
    requires '\n' !in head && j < |head|
    ensures !JavaLibrary.StartsWith((head + rest)[j..], ExpectingMarker)
  {
    assert (head + rest)[j..][0] == head[j];
    assert head[j] in head;
  }

  /** A message that starts with the list of expected tokens is only trimmed. */
  lemma MarkerAtFront(tail: string)
    ensures TrimParseErrorMessage(ExpectingMarker + tail) == Trim(ExpectingMarker + tail)
  {
    var msg := ExpectingMarker + tail;
    assert msg[0..] == msg && msg[..|ExpectingMarker|] == ExpectingMarker;
  }

  /** A message of one line is only trimmed. */
  lemma OneLineMessage(msg: string)
    requires '\n' !in msg
    ensures TrimParseErrorMessage(msg) == Trim(msg)
  {
    forall j | 0 <= j <= |msg| ensures !JavaLibrary.StartsWith(msg[j..], ExpectingMarker) {
      NoMarkerAt(msg, j);
    }
  }

  lemma NoMarkerAt(msg: string, j: nat)
    requires '\n' !in msg && j <= |msg|
    ensures !JavaLibrary.StartsWith(msg[j..], ExpectingMarker)
  {
    if j < |msg| {
      assert msg[j] in msg;
      assert msg[j..][0] != ExpectingMarker[0];
    }
  }
}
