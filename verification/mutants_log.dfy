/**
 * The `mutants.log` reader of serializer/src/main/java/serializer/peg/MutantsLog.java:
 * each line is one row of seven `:`-separated fields, and the rows are
 * indexed by mutant id and by mutated method.  Rows are objects without
 * an `equals` of their own, so a row is identified here by its position
 * in `rows`.
 */
module MutantsLog {
  import opened Wrappers
  import opened Primitives
  import opened Decimal
  import opened JavaLang
  import Text

  /** A parsed row; `methodSig` is the field `method`, the signature `Class@name(arg,types)`. */
  datatype Row = Row(
    id: string,
    mutationType: string,
    originalNode: string,
    mutantNode: string,
    methodSig: string,
    lineNumber: i32,
    transformation: string)

  /** `rows`, `idMap` (to the row's position) and `methodNameMap` (to the positions of the method's rows). */
  datatype Log = Log(rows: seq<Row>, idMap: map<string, nat>, methodNameMap: map<string, set<nat>>)

  const Empty := Log([], map[], map[])

  /**
   * `new Row(raw)`: the line split on `:`, fields 0 to 6 in order and
   * field 5 read by `Integer.parseInt`.  The length assertion is disabled
   * in a normal run, so too few fields surface as an array index error
   * at the first missing field, and fields beyond the seventh are ignored.
   */
  function ParseRow(raw: string): (r: Outcome<Row>)
    ensures r.Returns? <==> |Split(raw, ':')| >= 7 && ParseInt(Split(raw, ':')[5]).Returns?
    ensures r.Returns? ==> var items := Split(raw, ':');
      r.value == Row(items[0], items[1], items[2], items[3], items[4], ParseInt(items[5]).value, items[6])
    ensures r.Throws? ==> r.exc.kind in {IndexOutOfBounds, NumberFormat}
  {
    var items := Split(raw, ':');
    if |items| < 6 then Throws(Exception(IndexOutOfBounds, None))
    else
      var line :- ParseInt(items[5]);
      if |items| < 7 then Throws(Exception(IndexOutOfBounds, None))
      else Returns(Row(items[0], items[1], items[2], items[3], items[4], line, items[6]))
  }

  /** The row's text as the log writes it. */
  function Fields(r: Row): seq<string> {
    [r.id, r.mutationType, r.originalNode, r.mutantNode, r.methodSig, IntToString(r.lineNumber as int), r.transformation]
  }

  /** `idMap` names, for each id, the last row with that id. */
  ghost predicate IdIndexed(log: Log) {
    (forall k :: k in log.idMap ==>
       log.idMap[k] < |log.rows| && log.rows[log.idMap[k]].id == k
       && forall j :: log.idMap[k] < j < |log.rows| ==> log.rows[j].id != k)
    && (forall i :: 0 <= i < |log.rows| ==> log.rows[i].id in log.idMap)
  }

  /** `methodNameMap` holds, for each method, the positions of all of its rows. */
  ghost predicate MethodIndexed(log: Log) {
    (forall m :: m in log.methodNameMap ==>
       log.methodNameMap[m] == set i: nat | i < |log.rows| && log.rows[i].methodSig == m)
    && (forall i :: 0 <= i < |log.rows| ==> log.rows[i].methodSig in log.methodNameMap)
  }

  /** The indexes agree with the rows. */
  ghost predicate Indexed(log: Log) {
    IdIndexed(log) && MethodIndexed(log)
  }

  /** The body of the `Row` constructor after parsing: append, overwrite `idMap[id]`, add to `methodNameMap[method]`. */
  function Enter(log: Log, r: Row): (res: Log)
    ensures res.rows == log.rows + [r]
  {
    var n := |log.rows|;
    var held := if r.methodSig in log.methodNameMap then log.methodNameMap[r.methodSig] else {};
    Log(log.rows + [r], log.idMap[r.id := n], log.methodNameMap[r.methodSig := held + {n}])
  }

  /** Entering a row keeps both indexes in step with the rows. */
  lemma EnterIndexed(log: Log, r: Row)
    ensures Indexed(log) ==> Indexed(Enter(log, r))
  {
    var n := |log.rows|;
    var held := if r.methodSig in log.methodNameMap then log.methodNameMap[r.methodSig] else {};
    EnterIds(log, r, Enter(log, r));
    EnterMethods(log, r, held, Enter(log, r));
  }

  lemma EnterIds(log: Log, r: Row, res: Log)
    requires res.rows == log.rows + [r] && res.idMap == log.idMap[r.id := |log.rows|]
    ensures IdIndexed(log) ==> IdIndexed(res)
  {
  }

  lemma EnterMethods(log: Log, r: Row, held: set<nat>, res: Log)
    requires held == if r.methodSig in log.methodNameMap then log.methodNameMap[r.methodSig] else {}
    requires res.rows == log.rows + [r] && res.methodNameMap == log.methodNameMap[r.methodSig := held + {|log.rows|}]
    ensures MethodIndexed(log) ==> MethodIndexed(res)
  {
    if MethodIndexed(log) {
      var n := |log.rows|;
      var rows := res.rows;
      forall m | m in res.methodNameMap
        ensures res.methodNameMap[m] == set i: nat | i < |rows| && rows[i].methodSig == m
      {
        var s := set i: nat | i < |rows| && rows[i].methodSig == m;
        if m == r.methodSig {
          assert s == held + {n} by {
            forall i: nat | i < |rows| ensures (rows[i].methodSig == m <==> i in held + {n}) {
              if i < n { assert rows[i] == log.rows[i]; }
            }
          }
        } else {
          assert s == log.methodNameMap[m] by {
            forall i: nat | i < |rows| ensures (rows[i].methodSig == m <==> i in log.methodNameMap[m]) {
              if i < n { assert rows[i] == log.rows[i]; }
            }
          }
        }
      }
    }
  }

  /** The rows of `lines` entered in file order, each read by `parse`; the first line that does not parse ends the constructor with its exception. */
  function LoadFrom(parse: string -> Outcome<Row>, log: Log, lines: seq<string>): (r: Outcome<Log>)
    decreases |lines|
  {
    if lines == [] then Returns(log)
    else
      var row :- parse(lines[0]);
      LoadFrom(parse, Enter(log, row), lines[1..])
  }

  /** `new MutantsLog(path)` over the file's lines. */
  function Load(lines: seq<string>): Outcome<Log> {
    LoadFrom(ParseRow, Empty, lines)
  }

  lemma {:induction false} LoadFromParses(parse: string -> Outcome<Row>, log: Log, lines: seq<string>)
    ensures LoadFrom(parse, log, lines).Returns? <==> forall i :: 0 <= i < |lines| ==> parse(lines[i]).Returns?
    decreases |lines|
  {
    if lines != [] {
      assert forall i :: 1 <= i < |lines| ==> lines[i] == lines[1..][i - 1];
      if parse(lines[0]).Returns? {
        LoadFromParses(parse, Enter(log, parse(lines[0]).value), lines[1..]);
      }
    }
  }

  /** One parsed line is one row entered. */
  lemma LoadFromStep(parse: string -> Outcome<Row>, log: Log, lines: seq<string>)
    requires lines != [] && LoadFrom(parse, log, lines).Returns?
    ensures parse(lines[0]).Returns?
    ensures LoadFrom(parse, log, lines) == LoadFrom(parse, Enter(log, parse(lines[0]).value), lines[1..])
  {
  }

  lemma {:induction false} LoadFromPrefix(parse: string -> Outcome<Row>, log: Log, lines: seq<string>)
    requires LoadFrom(parse, log, lines).Returns?
    ensures |LoadFrom(parse, log, lines).value.rows| == |log.rows| + |lines|
    ensures LoadFrom(parse, log, lines).value.rows[..|log.rows|] == log.rows
    decreases |lines|
  {
    if lines != [] {
      LoadFromStep(parse, log, lines);
      var log1 := Enter(log, parse(lines[0]).value);
      LoadFromPrefix(parse, log1, lines[1..]);
      var rows := LoadFrom(parse, log1, lines[1..]).value.rows;
      assert rows[..|log.rows|] == rows[..|log1.rows|][..|log.rows|];
    }
  }

  /** The first line's row follows the rows already there. */
  lemma LoadFromFirst(parse: string -> Outcome<Row>, log: Log, lines: seq<string>)
    requires LoadFrom(parse, log, lines).Returns? && lines != []
    ensures parse(lines[0]).Returns?
    ensures |log.rows| < |LoadFrom(parse, log, lines).value.rows|
    ensures LoadFrom(parse, log, lines).value.rows[|log.rows|] == parse(lines[0]).value
  {
    LoadFromStep(parse, log, lines);
    var log1 := Enter(log, parse(lines[0]).value);
    LoadFromPrefix(parse, log1, lines[1..]);
    var rows := LoadFrom(parse, log1, lines[1..]).value.rows;
    assert rows[..|log1.rows|][|log.rows|] == rows[|log.rows|];
  }

  lemma {:induction false} LoadFromRow(parse: string -> Outcome<Row>, log: Log, lines: seq<string>, i: nat)
    requires LoadFrom(parse, log, lines).Returns? && i < |lines|
    ensures parse(lines[i]).Returns?
    ensures |log.rows| + i < |LoadFrom(parse, log, lines).value.rows|
    ensures LoadFrom(parse, log, lines).value.rows[|log.rows| + i] == parse(lines[i]).value
    decreases |lines|
  {
    if i == 0 {
      LoadFromFirst(parse, log, lines);
    } else {
      LoadFromStep(parse, log, lines);
      var log1 := Enter(log, parse(lines[0]).value);
      var rest := lines[1..];
      assert |log1.rows| + (i - 1) == |log.rows| + i;
      assert rest[i - 1] == lines[i];
      LoadFromRow(parse, log1, rest, i - 1);
      assert LoadFrom(parse, log, lines) == LoadFrom(parse, log1, rest);
    }
  }

  lemma {:induction false} LoadFromIndexed(parse: string -> Outcome<Row>, log: Log, lines: seq<string>)
    requires Indexed(log) && LoadFrom(parse, log, lines).Returns?
    ensures Indexed(LoadFrom(parse, log, lines).value)
    decreases |lines|
  {
    if lines != [] {
      EnterIndexed(log, parse(lines[0]).value);
      LoadFromIndexed(parse, Enter(log, parse(lines[0]).value), lines[1..]);
    }
  }

  /**
   * A log loads when every line is a row; `idMap` then names, for each
   * id, the last row with it, and `methodNameMap` each method's rows.
   */
  lemma LoadRows(lines: seq<string>)
    ensures Load(lines).Returns? <==> forall i :: 0 <= i < |lines| ==> ParseRow(lines[i]).Returns?
    ensures Load(lines).Returns? ==> Indexed(Load(lines).value)
  {
    LoadFromParses(ParseRow, Empty, lines);
    if Load(lines).Returns? {
      assert Indexed(Empty) by {
        assert IdIndexed(Empty) && MethodIndexed(Empty);
      }
      LoadFromIndexed(ParseRow, Empty, lines);
    }
  }

  /** A loaded log holds one row per line, in file order. */
  lemma LoadOrder(lines: seq<string>)
    requires Load(lines).Returns?
    ensures |Load(lines).value.rows| == |lines|
    ensures forall i :: 0 <= i < |lines| ==> ParseRow(lines[i]).Returns?
    ensures forall i :: 0 <= i < |lines| ==> Load(lines).value.rows[i] == ParseRow(lines[i]).value
  {
    LoadFromAll(ParseRow, lines);
  }

  lemma LoadFromAll(parse: string -> Outcome<Row>, lines: seq<string>)
    requires LoadFrom(parse, Empty, lines).Returns?
    ensures |LoadFrom(parse, Empty, lines).value.rows| == |lines|
    ensures forall i :: 0 <= i < |lines| ==> parse(lines[i]).Returns?
    ensures forall i :: 0 <= i < |lines| ==> LoadFrom(parse, Empty, lines).value.rows[i] == parse(lines[i]).value
  {
    LoadFromPrefix(parse, Empty, lines);
    forall i | 0 <= i < |lines|
      ensures parse(lines[i]).Returns? && LoadFrom(parse, Empty, lines).value.rows[i] == parse(lines[i]).value
    {
      LoadFromRow(parse, Empty, lines, i);
    }
  }


  /** A row written as seven `:`-free fields, the last one not empty, reads back as itself. */
  lemma RowRoundTrip(r: Row)
    requires forall i :: 0 <= i < 7 ==> ':' !in Fields(r)[i]
    requires r.transformation != ""
    ensures ParseRow(Text.Join(Fields(r), ':')) == Returns(r)
  {
    SplitJoin(Fields(r), ':');
    ParseIntRoundTrip(r.lineNumber);
  }

  /** A transformation that itself holds `:` is cut at its first `:`. */
  lemma TransformationTruncated(r: Row, rest: string)
    requires forall i :: 0 <= i < 7 ==> ':' !in Fields(r)[i]
    requires r.transformation != "" && rest != "" && ':' !in rest
    ensures ParseRow(Text.Join(Fields(r) + [rest], ':')) == Returns(r)
  {
    var ps := Fields(r) + [rest];
    assert forall i :: 0 <= i < |ps| ==> ':' !in ps[i];
    SplitJoin(ps, ':');
    ParseIntRoundTrip(r.lineNumber);
  }

  /** An empty transformation leaves a trailing empty field, which the split drops, so the row fails on the missing seventh field. */
  lemma EmptyTransformationFails(r: Row)
    requires forall i :: 0 <= i < 7 ==> ':' !in Fields(r)[i]
    requires r.transformation == "" && r.methodSig != ""
    ensures ParseRow(Text.Join(Fields(r), ':')) == Throws(Exception(IndexOutOfBounds, None))
  {
    var ps := Fields(r)[..6];
    assert Fields(r) == ps + [""];
    assert ps[5] != "";
    assert forall i :: 0 <= i < |ps| ==> ':' !in ps[i];
    SplitJoinTrailing(ps, ':');
    ParseIntRoundTrip(r.lineNumber);
  }
}
