/**
 * Loading and scoring subjects in the prototype (src/subjects.rs).
 *
 * The prototype reads the id table like cornelius does, but without the
 * quoted-symbol case, and it hands the whole table to the e-graph in one
 * `with_expr` call: the ids the serializer wrote are used as e-graph ids
 * directly, where cornelius renames every id through the ids `add`
 * returned.  Scoring groups the original (member 0) and the mutants by
 * the canonical id of their PEG and sums `|group| - 1`; the returned list
 * of equivalence classes is always empty.
 *
 * The e-graph (`Runner::with_expr(..).run(..)` and `find`) and
 * `from_op_str` are parameters, as in the cornelius model.
 */
module LegacySubjects {
  import opened Wrappers
  import opened Decimal
  import opened Text
  import opened PegTerm
  import opened Subjects
  import LegacyExpr

  // ------------------------------------------------------------ id-table entries

  /**
   * `parse_peg_from_string` up to the `from_op_str` call: an opening
   * parenthesis needs a closing one and both are stripped; everything else
   * is an application.
   */
  function ParseEntry(s: string): (r: Run<Entry>)
    ensures r.Ok? ==> r.value.Apply?
    ensures r.Err? <==> |s| > 0 && s[0] == '(' && s[|s| - 1] != ')'
  {
    if |s| > 0 && s[0] == '(' then
      if s[|s| - 1] != ')' then Err("Mismatched PEG string " + s)
      else ParseApplication(s[1..|s| - 1])
    else ParseApplication(s)
  }

  /** Where the text does not open with a quote, the prototype reads an entry exactly as cornelius does. */
  lemma ParseEntryAsCornelius(s: string)
    requires !(|s| > 0 && s[0] == '"')
    ensures ParseEntry(s) == Subjects.ParseEntry(s)
  {
  }

  /** A quoted symbol holding a space: cornelius reads the symbol, the prototype splits it and fails to read `b"` as a child id. */
  lemma QuotedSymbolPanics()
    ensures Subjects.ParseEntry("\"a b\"") == Ok(Quoted("a b"))
    ensures ParseEntry("\"a b\"") == Panic
  {
    var s := "\"a b\"";
    assert s[1..|s| - 1] == "a b";
    assert s == "\"a" + " b\"";
    assert NoneIn("\"a", IsSpace);
    SplitPrefix("\"a", " b\"", IsSpace);
    assert " b\""[1..] == "b\"";
    assert "b\"" == "b\"" + "";
    SplitPrefix("b\"", "", IsSpace);
    assert Split("b\"", IsSpace) == ["b\""];
    assert Split(" b\"", IsSpace) == ["", "b\""];
    assert "\"a" + "" == "\"a";
    assert Split(s, IsSpace) == ["\"a", "b\""];
    assert !AllDigits("b\"");
    assert ParseU32("b\"") == None;
  }

  /** The node of one entry, through `from_op_str`. */
  function EntryNode(s: string, fromOpStr: (string, seq<nat>) -> Result<Peg, string>): (r: Run<Peg>)
    ensures ParseEntry(s).Ok? && fromOpStr(ParseEntry(s).value.op, ParseEntry(s).value.children).Success? ==>
      r == Ok(fromOpStr(ParseEntry(s).value.op, ParseEntry(s).value.children).value)
    ensures !ParseEntry(s).Ok? ==> r == ParseEntry(s).Failed()
  {
    match ParseEntry(s)
    case Ok(e) =>
      (match fromOpStr(e.op, e.children)
       case Success(p) => Ok(p)
       case Failure(m) => Err(m))
    case Err(m) => Err(m)
    case Panic => Panic
  }

  /**
   * `Subjects::compute_rec_expr`: the entries' nodes in table order; it
   * succeeds exactly when every entry does, and otherwise returns the
   * failure of the first entry that fails.
   */
  function ComputeRecExpr(entries: seq<IdTableEntry>, fromOpStr: (string, seq<nat>) -> Result<Peg, string>): (r: Run<seq<Peg>>)
    ensures r.Ok? <==> forall i :: 0 <= i < |entries| ==> EntryNode(entries[i].peg, fromOpStr).Ok?
    ensures r.Ok? ==> (|r.value| == |entries| &&
      forall i :: 0 <= i < |entries| ==> EntryNode(entries[i].peg, fromOpStr) == Ok(r.value[i]))
    ensures !r.Ok? ==> exists k :: (0 <= k < |entries| && !EntryNode(entries[k].peg, fromOpStr).Ok? &&
      r == EntryNode(entries[k].peg, fromOpStr).Failed() &&
      forall i :: 0 <= i < k ==> EntryNode(entries[i].peg, fromOpStr).Ok?)
  {
    MapRun(entries, (entry: IdTableEntry) => EntryNode(entry.peg, fromOpStr))
  }

  // ------------------------------------------------------------ analyzing a subject

  /** The result of `analyze_subject`: the score and the (always empty) list of classes. */
  datatype SubjectAnalysisResult = SubjectAnalysisResult(numEquivalences: nat, equivalenceClasses: seq<set<nat>>)

  /** A PEG id written as text, `parse::<u32>().unwrap()`. */
  function PegId(text: string): (r: Run<nat>)
    ensures r.Ok? <==> ParseU32(text).Some?
    ensures r.Ok? ==> r.value == ParseU32(text).value
    ensures !r.Err?
  {
    var n := ParseU32(text);
    if n.Some? then Ok(n.value) else Panic
  }

  /** A mutant's Major id with the canonical id of its PEG id, used as an e-graph id as it stands. */
  function MutantTag(m: LegacyExpr.Mutant, find: nat -> nat): Run<Tagged> {
    var k := PegId(m.code);
    if k.Ok? then Ok(Tagged(m.id, find(k.value))) else Panic
  }

  /** The original as member 0, then each mutant in order. */
  function Tags(s: LegacyExpr.Subject, find: nat -> nat): (r: Run<seq<Tagged>>)
    ensures !r.Err?
    ensures r.Ok? <==> PegId(s.code).Ok? && forall i :: 0 <= i < |s.mutants| ==> PegId(s.mutants[i].code).Ok?
    ensures r.Ok? ==> (|r.value| == |s.mutants| + 1 && r.value[0] == Tagged(0, find(PegId(s.code).value)) &&
      forall i :: 0 <= i < |s.mutants| ==> r.value[i + 1] == Tagged(s.mutants[i].id, find(PegId(s.mutants[i].code).value)))
  {
    var k := PegId(s.code);
    var ms := MapRun(s.mutants, (m: LegacyExpr.Mutant) => MutantTag(m, find));
    if k.Ok? && ms.Ok? then Ok([Tagged(0, find(k.value))] + ms.value) else Panic
  }

  /**
   * `analyze_subject`: panics exactly when a PEG id does not read as a
   * `u32`; otherwise the score of the groups, with no classes returned.
   */
  function Analyze(s: LegacyExpr.Subject, find: nat -> nat): (r: Run<SubjectAnalysisResult>)
    ensures !r.Err?
    ensures r.Ok? <==> PegId(s.code).Ok? && forall i :: 0 <= i < |s.mutants| ==> PegId(s.mutants[i].code).Ok?
    ensures r.Ok? ==> r.value.equivalenceClasses == []
  {
    var ts := Tags(s, find);
    if ts.Ok? then
      GroupByGroups(ts.value);
      Ok(SubjectAnalysisResult(Score(GroupBy(ts.value)), []))
    else Panic
  }

  /** Major numbers the mutants from 1 without repetition. */
  predicate DistinctMutantIds(s: LegacyExpr.Subject) {
    (forall i :: 0 <= i < |s.mutants| ==> s.mutants[i].id != 0) &&
    (forall i, j :: 0 <= i < j < |s.mutants| ==> s.mutants[i].id != s.mutants[j].id)
  }

  /**
   * With distinct mutant ids the score is the number of members (the
   * mutants and the original) minus the number of distinct canonical ids,
   * so at most the number of mutants.
   */
  lemma AnalyzeScore(s: LegacyExpr.Subject, find: nat -> nat)
    requires Analyze(s, find).Ok? && DistinctMutantIds(s)
    ensures var ts := Tags(s, find).value;
      Analyze(s, find).value.numEquivalences + |GroupBy(ts)| == |s.mutants| + 1
    ensures Analyze(s, find).value.numEquivalences <= |s.mutants|
  {
    var ts := Tags(s, find).value;
    assert DistinctMembers(ts) by {
      forall a, b | 0 <= a < b < |ts| ensures ts[a].member != ts[b].member {
        if a > 0 {
          assert s.mutants[a - 1].id != s.mutants[b - 1].id;
        }
      }
    }
    GroupByScore(ts);
    GroupByGroups(ts);
    assert GroupIndex(GroupBy(ts), ts[0].key) >= 0;
  }

  /** The same subject in the cornelius model, with nothing analyzed yet. */
  function AsCornelius(s: LegacyExpr.Subject): (c: Subjects.Subject)
    ensures c.pid == s.code && |c.mutants| == |s.mutants|
    ensures forall i :: 0 <= i < |s.mutants| ==> c.mutants[i] == Subjects.Mutant(s.mutants[i].id, s.mutants[i].code)
  {
    Subjects.Subject(s.sourceFile, s.methodName, s.code,
      seq(|s.mutants|, i requires 0 <= i < |s.mutants| => Subjects.Mutant(s.mutants[i].id, s.mutants[i].code)),
      Subjects.AnalysisResult(0, []))
  }

  /** Every `u32` id is renamed to itself. */
  predicate IdentityOnU32(idUpdate: map<nat, nat>) {
    forall n :: 0 <= n < U32Bound ==> n in idUpdate && idUpdate[n] == n
  }

  /**
   * Using the serialized ids as e-graph ids is the cornelius analysis with
   * the identity renaming: where the prototype returns, cornelius returns
   * the same score (cornelius also reads mutant ids beyond `u32`, where
   * the prototype panics).
   */
  lemma AnalyzeAsCornelius(s: LegacyExpr.Subject, find: nat -> nat, idUpdate: map<nat, nat>)
    requires IdentityOnU32(idUpdate)
    ensures Analyze(s, find).Ok? ==> (Subjects.Analyze(AsCornelius(s), idUpdate, find).Ok? &&
      Subjects.Analyze(AsCornelius(s), idUpdate, find).value.analysisResult.score == Analyze(s, find).value.numEquivalences)
  {
    if Analyze(s, find).Ok? {
      TagsAsCornelius(s, find, idUpdate);
    }
  }

  /** Under the identity renaming, cornelius tags the subject's members exactly as the prototype does. */
  lemma TagsAsCornelius(s: LegacyExpr.Subject, find: nat -> nat, idUpdate: map<nat, nat>)
    requires IdentityOnU32(idUpdate) && Tags(s, find).Ok?
    ensures Subjects.Tags(AsCornelius(s), idUpdate, find) == Tags(s, find)
  {
    var c := AsCornelius(s);
    var ts := Tags(s, find).value;
    assert CanonicalId(c.pid, U32Bound, idUpdate, find) == Ok(ts[0].key);
    forall i | 0 <= i < |c.mutants|
      ensures CanonicalId(c.mutants[i].pid, UsizeBound, idUpdate, find) == Ok(ts[i + 1].key)
    {
      assert PegId(s.mutants[i].code).Ok?;
    }
    var ms := MutantTags(c.mutants, idUpdate, find);
    assert ms.Ok?;
    assert [Tagged(0, ts[0].key)] + ms.value == ts;
  }

  // ------------------------------------------------------------ running on all subjects

  /**
   * `run_on_subjects`: the whole id table becomes one expression (its
   * first failing entry ends the run), the saturated e-graph of that
   * expression supplies `find`, and every subject is analyzed in order.
   */
  function RunOnSubjects(entries: seq<IdTableEntry>, subjects: seq<LegacyExpr.Subject>,
                         fromOpStr: (string, seq<nat>) -> Result<Peg, string>,
                         saturate: seq<Peg> -> (nat -> nat)): (r: Run<seq<SubjectAnalysisResult>>)
    ensures !ComputeRecExpr(entries, fromOpStr).Ok? ==> r == ComputeRecExpr(entries, fromOpStr).Failed()
    ensures ComputeRecExpr(entries, fromOpStr).Ok? ==>
      var find := saturate(ComputeRecExpr(entries, fromOpStr).value);
      && (r.Ok? <==> forall i :: 0 <= i < |subjects| ==> Analyze(subjects[i], find).Ok?)
      && (r.Ok? ==> |r.value| == |subjects| && forall i :: 0 <= i < |subjects| ==> Analyze(subjects[i], find) == Ok(r.value[i]))
  {
    var rec := ComputeRecExpr(entries, fromOpStr);
    if !rec.Ok? then rec.Failed()
    else
      var find := saturate(rec.value);
      MapRun(subjects, (s: LegacyExpr.Subject) => Analyze(s, find))
  }
}
