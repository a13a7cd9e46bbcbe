/**
 * Loading and scoring subjects (cornelius/src/subjects.rs).
 *
 * The serializer writes one id-table entry per PEG node; loading parses
 * each entry into a node (`parse_peg_from_string`, `compute_rec_expr`),
 * adds the nodes to the e-graph in table order while renaming child ids
 * (`run_on_subjects`), and, after saturation, groups each subject's
 * original and mutants by the canonical id of their PEG (`analyze_subject`).
 *
 * The e-graph belongs to the `egg` crate: its `add` and `find`, and the
 * `from_op_str` that turns an operator name and child ids into a node, are
 * parameters here.  An `Err(String)` of the source is `Err`, a panic
 * (`unwrap`, `assert!`, an out-of-range slice) is `Panic`.
 */
module Subjects {
  import opened Wrappers
  import opened Decimal
  import opened Text
  import opened PegTerm
  import RecExpr
  import EquivRel

  /** One more than the largest `usize`. */
  const UsizeBound: nat := 0x1_0000_0000_0000_0000

  datatype Run<+T> = Ok(value: T) | Err(msg: string) | Panic {
    /** The same failure at another result type. */
    function Failed<U>(): Run<U>
      requires !Ok?
    {
      if Err? then Err(msg) else Panic
    }
  }

  // ------------------------------------------------------------ id-table entries

  /** An id-table entry read up to `from_op_str`: a quoted symbol, or an operator name with child ids. */
  datatype Entry = Quoted(text: string) | Apply(op: string, children: seq<nat>)

  predicate IsSpace(c: char) {
    c == ' '
  }

  /** Every token read as a `u32`; `None` is the `unwrap_or_else` panic. */
  function ParseIds(ts: seq<string>): (r: Option<seq<nat>>)
    ensures r.Some? <==> forall i :: 0 <= i < |ts| ==> ParseU32(ts[i]).Some?
    ensures r.Some? ==> |r.value| == |ts| && forall i :: 0 <= i < |ts| ==> ParseU32(ts[i]) == Some(r.value[i])
  {
    if ts == [] then Some([])
    else
      var x, xs := ParseU32(ts[0]), ParseIds(ts[1..]);
      if x.Some? && xs.Some? then Some([x.value] + xs.value) else None
  }

  /**
   * The body of an application: the operator is the text before the first
   * space, and the entry parses exactly when every later space-separated
   * token, empty ones included, is a `u32`.
   */
  function ParseApplication(body: string): (r: Run<Entry>)
    ensures !r.Err?
    ensures r.Ok? <==> forall i :: 0 <= i < |Split(body, IsSpace)[1..]| ==> ParseU32(Split(body, IsSpace)[1..][i]).Some?
    ensures r.Ok? ==> r.value.Apply? && r.value.op == Split(body, IsSpace)[0]
    ensures r.Ok? ==> |r.value.children| == |Split(body, IsSpace)| - 1
    ensures r.Ok? ==> forall i :: 0 <= i < |r.value.children| ==>
      ParseU32(Split(body, IsSpace)[1..][i]) == Some(r.value.children[i])
  {
    var pieces := Split(body, IsSpace);
    var ids := ParseIds(pieces[1..]);
    if ids.Some? then Ok(Apply(pieces[0], ids.value)) else Panic
  }

  /** `parse_peg_from_string` up to the `from_op_str` call. */
  function ParseEntry(s: string): Run<Entry> {
    if |s| > 0 && s[0] == '(' then
      if s[|s| - 1] != ')' then Err("Mismatched PEG string " + s)
      else ParseApplication(s[1..|s| - 1])
    else if |s| > 0 && s[0] == '"' then
      if s[|s| - 1] != '"' && |s| > 1 then Err("invalid String literal " + s)
      else if |s| == 1 then Panic
      else Ok(Quoted(s[1..|s| - 1]))
    else ParseApplication(s)
  }

  /**
   * The errors of `ParseEntry`: an `Err` exactly for an opening parenthesis
   * without a closing one or an opening quote without a closing one; a lone
   * `"` slices out of range; a quoted string is a symbol whatever it holds.
   */
  lemma ParseEntryErrors(s: string)
    ensures ParseEntry(s).Err? <==>
      (|s| > 0 && s[0] == '(' && s[|s| - 1] != ')') || (|s| > 1 && s[0] == '"' && s[|s| - 1] != '"')
    ensures s == "(" ==> ParseEntry(s).Err?
    ensures s == "\"" ==> ParseEntry(s).Panic?
    ensures |s| >= 2 && s[0] == '"' && s[|s| - 1] == '"' ==> ParseEntry(s) == Ok(Quoted(s[1..|s| - 1]))
  {
  }

  /** A bare operator with no spaces is an application without children; two spaces in a row panic. */
  lemma ApplicationExamples(op: string)
    requires NoneIn(op, IsSpace) && op != []
    requires op[0] != '(' && op[0] != '"'
    ensures ParseEntry(op) == Ok(Apply(op, []))
    ensures ParseEntry("(" + op + "  1)") == Panic
  {
    SplitPrefix(op, "", IsSpace);
    assert op + "" == op;
    var s := "(" + op + "  1)";
    assert s[1..|s| - 1] == op + "  1";
    var t := "  1";
    assert Split(t, IsSpace) == ["", "", "1"] by {
      assert t[1..] == " 1" && t[1..][1..] == "1";
      assert "1"[1..] == "";
      assert Split("1", IsSpace) == ["1"] by {
        SplitPrefix("1", "", IsSpace);
        assert "1" + "" == "1";
      }
    }
    SplitPrefix(op, t, IsSpace);
    assert op + t == op + "  1";
    assert Split(op + "  1", IsSpace)[1] == "";
    assert ParseU32("") == None;
  }

  /** `f` applied to each element in order, stopping at the first failure: `?` inside a loop. */
  function MapRun<A, B>(xs: seq<A>, f: A -> Run<B>): (r: Run<seq<B>>)
    ensures r.Ok? <==> forall i :: 0 <= i < |xs| ==> f(xs[i]).Ok?
    ensures r.Ok? ==> (|r.value| == |xs| && forall i :: 0 <= i < |xs| ==> f(xs[i]) == Ok(r.value[i]))
    ensures !r.Ok? ==> exists k :: (0 <= k < |xs| && !f(xs[k]).Ok? && r == f(xs[k]).Failed() &&
      forall i :: 0 <= i < k ==> f(xs[i]).Ok?)
  {
    if xs == [] then Ok([])
    else
      var n := |xs| - 1;
      var prev := MapRun(xs[..n], f);
      assert forall i :: 0 <= i < n ==> xs[..n][i] == xs[i];
      if !prev.Ok? then prev
      else
        var last := f(xs[n]);
        if last.Ok? then Ok(prev.value + [last.value]) else last.Failed()
  }

  // ------------------------------------------------------------ the RecExpr

  datatype IdTableEntry = IdTableEntry(id: string, peg: string)

  /** The node of one entry: a quoted symbol directly, an application through `from_op_str`. */
  function EntryNode(s: string, fromOpStr: (string, seq<nat>) -> Result<Peg, string>): Run<Peg> {
    match ParseEntry(s)
    case Ok(Quoted(t)) => Ok(Symbol(t))
    case Ok(Apply(op, cs)) =>
      (match fromOpStr(op, cs)
       case Success(p) => Ok(p)
       case Failure(m) => Err(m))
    case Err(m) => Err(m)
    case Panic => Panic
  }

  /**
   * `compute_rec_expr`: the entries' nodes in table order.  It succeeds
   * exactly when every entry does, and otherwise returns the failure of
   * the first entry that fails.
   */
  function ComputeRecExpr(entries: seq<IdTableEntry>, fromOpStr: (string, seq<nat>) -> Result<Peg, string>): (r: Run<seq<Peg>>)
    ensures r.Ok? <==> forall i :: 0 <= i < |entries| ==> EntryNode(entries[i].peg, fromOpStr).Ok?
    ensures r.Ok? ==> (|r.value| == |entries| &&
      forall i :: 0 <= i < |entries| ==> EntryNode(entries[i].peg, fromOpStr) == Ok(r.value[i]))
    ensures !r.Ok? ==> exists k :: (0 <= k < |entries| && !EntryNode(entries[k].peg, fromOpStr).Ok? &&
      r == EntryNode(entries[k].peg, fromOpStr).Failed() &&
      forall i :: 0 <= i < k ==> EntryNode(entries[i].peg, fromOpStr).Ok?)
  {
    MapRun(entries, (entry: IdTableEntry) => EntryNode(entry.peg, fromOpStr))
  }

  // ------------------------------------------------------------ grouping by canonical id

  /** A member (0 for the original, a mutant's Major id otherwise) with the canonical id of its PEG. */
  datatype Tagged = Tagged(member: nat, key: nat)

  /** One entry of `rev_can_id_lookup`: a canonical id and the members whose PEG has it. */
  datatype Group = Group(key: nat, members: set<nat>)

  /** The position of the group for `k`, or -1 when there is none. */
  function GroupIndex(gs: seq<Group>, k: nat): (i: int)
    ensures -1 <= i < |gs|
    ensures i >= 0 ==> gs[i].key == k
    ensures i == -1 <==> forall j :: 0 <= j < |gs| ==> gs[j].key != k
  {
    if gs == [] then -1
    else if gs[0].key == k then 0
    else
      var j := GroupIndex(gs[1..], k);
      if j < 0 then -1 else j + 1
  }

  /** `rev_can_id_lookup.entry(k).or_insert_with(HashSet::default).insert(x)`. */
  function Insert(gs: seq<Group>, t: Tagged): seq<Group> {
    var i := GroupIndex(gs, t.key);
    if i < 0 then gs + [Group(t.key, {t.member})]
    else gs[i := Group(t.key, gs[i].members + {t.member})]
  }

  /**
   * The groups after inserting every tagged member in order.  The map of
   * the source iterates in hash order; the model lists the groups in the
   * order their canonical ids first occur.  The set of groups and each
   * group's members do not depend on that order, but the order of the
   * lines written from them does.
   */
  function GroupBy(ts: seq<Tagged>): seq<Group> {
    if ts == [] then [] else Insert(GroupBy(ts[..|ts| - 1]), ts[|ts| - 1])
  }

  predicate DistinctKeys(gs: seq<Group>) {
    forall i, j :: 0 <= i < j < |gs| ==> gs[i].key != gs[j].key
  }

  predicate NoEmptyGroup(gs: seq<Group>) {
    forall i :: 0 <= i < |gs| ==> gs[i].members != {}
  }

  /** Some entry of `ts` tags `x` with `k`. */
  predicate HasTag(ts: seq<Tagged>, x: nat, k: nat) {
    exists j :: 0 <= j < |ts| && ts[j] == Tagged(x, k)
  }

  lemma HasTagSnoc(ts: seq<Tagged>, x: nat, k: nat)
    requires ts != []
    ensures HasTag(ts, x, k) <==> HasTag(ts[..|ts| - 1], x, k) || ts[|ts| - 1] == Tagged(x, k)
  {
    var p := ts[..|ts| - 1];
    if HasTag(p, x, k) {
      var j :| 0 <= j < |p| && p[j] == Tagged(x, k);
      assert ts[j] == p[j];
    }
    if HasTag(ts, x, k) && ts[|ts| - 1] != Tagged(x, k) {
      var j :| 0 <= j < |ts| && ts[j] == Tagged(x, k);
      assert p[j] == ts[j];
    }
  }

  /**
   * What grouping computes: one group per canonical id that occurs, none
   * empty, and a member lies in the group of `k` exactly when some entry
   * tags it with `k`.
   */
  ghost predicate Grouped(gs: seq<Group>, ts: seq<Tagged>) {
    DistinctKeys(gs) && NoEmptyGroup(gs) &&
    (forall i, x :: 0 <= i < |gs| ==> (x in gs[i].members <==> HasTag(ts, x, gs[i].key))) &&
    (forall j :: 0 <= j < |ts| ==> GroupIndex(gs, ts[j].key) >= 0)
  }

  lemma InsertNewKey(g: seq<Group>, p: seq<Tagged>, t: Tagged)
    requires Grouped(g, p) && GroupIndex(g, t.key) < 0
    ensures Grouped(Insert(g, t), p + [t])
  {
    var ts := p + [t];
    var gs := Insert(g, t);
    assert gs == g + [Group(t.key, {t.member})];
    assert ts[..|p|] == p;
    forall i, x | 0 <= i < |gs| ensures x in gs[i].members <==> HasTag(ts, x, gs[i].key) {
      HasTagSnoc(ts, x, gs[i].key);
      if i < |g| {
        assert gs[i] == g[i];
      }
    }
    forall j | 0 <= j < |ts| ensures GroupIndex(gs, ts[j].key) >= 0 {
      if j < |p| {
        assert ts[j] == p[j];
        assert gs[GroupIndex(g, p[j].key)] == g[GroupIndex(g, p[j].key)];
      } else {
        assert gs[|g|].key == t.key;
      }
    }
  }

  lemma InsertOldKey(g: seq<Group>, p: seq<Tagged>, t: Tagged)
    requires Grouped(g, p) && GroupIndex(g, t.key) >= 0
    ensures Grouped(Insert(g, t), p + [t])
  {
    var ts := p + [t];
    var gs := Insert(g, t);
    var k := GroupIndex(g, t.key);
    assert ts[..|p|] == p;
    assert |gs| == |g|;
    forall i, x | 0 <= i < |gs| ensures x in gs[i].members <==> HasTag(ts, x, gs[i].key) {
      HasTagSnoc(ts, x, gs[i].key);
      if i != k {
        assert gs[i] == g[i];
      }
    }
    forall j | 0 <= j < |ts| ensures GroupIndex(gs, ts[j].key) >= 0 {
      if j < |p| {
        assert ts[j] == p[j];
        assert gs[GroupIndex(g, p[j].key)].key == p[j].key;
      } else {
        assert gs[k].key == t.key;
      }
    }
  }

  lemma {:induction false} GroupByGroups(ts: seq<Tagged>)
    ensures Grouped(GroupBy(ts), ts)
  {
    if ts != [] {
      var n := |ts| - 1;
      GroupByGroups(ts[..n]);
      assert ts == ts[..n] + [ts[n]];
      if GroupIndex(GroupBy(ts[..n]), ts[n].key) < 0 {
        InsertNewKey(GroupBy(ts[..n]), ts[..n], ts[n]);
      } else {
        InsertOldKey(GroupBy(ts[..n]), ts[..n], ts[n]);
      }
    }
  }

  // ------------------------------------------------------------ scoring

  function Classes(gs: seq<Group>): (cs: seq<set<nat>>)
    ensures |cs| == |gs| && forall i :: 0 <= i < |gs| ==> cs[i] == gs[i].members
  {
    seq(|gs|, i requires 0 <= i < |gs| => gs[i].members)
  }

  /** The loop over the groups: Σ (|members| - 1), a `u32` subtraction that needs every group non-empty. */
  function Score(gs: seq<Group>): nat
    requires NoEmptyGroup(gs)
  {
    if gs == [] then 0 else Score(gs[..|gs| - 1]) + |gs[|gs| - 1].members| - 1
  }

  /** The score is the number of equivalences the classes witness, as `EqRel` counts them. */
  lemma {:induction false} ScoreIsEquivalences(gs: seq<Group>)
    requires NoEmptyGroup(gs)
    ensures Score(gs) == EquivRel.Equivalences(Classes(gs))
  {
    if gs != [] {
      var n := |gs| - 1;
      ScoreIsEquivalences(gs[..n]);
      assert Classes(gs)[..n] == Classes(gs[..n]);
    }
  }

  /** No member is tagged twice. */
  predicate DistinctMembers(ts: seq<Tagged>) {
    forall i, j :: 0 <= i < j < |ts| ==> ts[i].member != ts[j].member
  }

  function MemberSet(ts: seq<Tagged>): set<nat> {
    set j | 0 <= j < |ts| :: ts[j].member
  }

  lemma {:induction false} MemberSetSize(ts: seq<Tagged>)
    requires DistinctMembers(ts)
    ensures |MemberSet(ts)| == |ts|
  {
    if ts != [] {
      var n := |ts| - 1;
      MemberSetSize(ts[..n]);
      assert MemberSet(ts) == MemberSet(ts[..n]) + {ts[n].member} by {
        forall x | x in MemberSet(ts) ensures x in MemberSet(ts[..n]) + {ts[n].member} {
          var j :| 0 <= j < |ts| && ts[j].member == x;
          if j < n {
            assert ts[..n][j] == ts[j];
          }
        }
        forall j | 0 <= j < n ensures ts[..n][j].member in MemberSet(ts) {
          assert ts[..n][j] == ts[j];
        }
      }
      assert ts[n].member !in MemberSet(ts[..n]);
    }
  }

  /** The classes together hold exactly the tagged members. */
  lemma GroupedUnion(gs: seq<Group>, ts: seq<Tagged>)
    requires Grouped(gs, ts)
    ensures EquivRel.Union(Classes(gs)) == MemberSet(ts)
  {
    var cs := Classes(gs);
    forall x | x in EquivRel.Union(cs) ensures x in MemberSet(ts) {
      var i := EquivRel.LastIndex(cs, x);
      assert x in gs[i].members;
      var j :| 0 <= j < |ts| && ts[j] == Tagged(x, gs[i].key);
    }
    forall j | 0 <= j < |ts| ensures ts[j].member in EquivRel.Union(cs) {
      var i := GroupIndex(gs, ts[j].key);
      assert HasTag(ts, ts[j].member, gs[i].key);
      assert ts[j].member in cs[i];
      assert EquivRel.LastIndex(cs, ts[j].member) >= i;
    }
  }

  /** With distinct members the groups are disjoint. */
  lemma GroupedPartition(gs: seq<Group>, ts: seq<Tagged>)
    requires Grouped(gs, ts) && DistinctMembers(ts)
    ensures EquivRel.Partition(Classes(gs))
  {
    var cs := Classes(gs);
    forall i, j | 0 <= i < j < |cs| ensures cs[i] * cs[j] == {} {
      assert gs[i].key != gs[j].key;
    }
  }

  /**
   * The score of distinctly tagged members is the number of members minus
   * the number of groups, and it is the equivalence count of the relation
   * built from the classes (`EqRel::from(&AnalysisResult)`).
   */
  lemma GroupByScore(ts: seq<Tagged>)
    requires DistinctMembers(ts)
    ensures NoEmptyGroup(GroupBy(ts)) && EquivRel.Partition(Classes(GroupBy(ts)))
    ensures Score(GroupBy(ts)) + |GroupBy(ts)| == |ts|
    ensures EquivRel.CountEquivalences(EquivRel.FromClasses(Classes(GroupBy(ts)))) == Some(Score(GroupBy(ts)))
  {
    var gs := GroupBy(ts);
    var cs := Classes(gs);
    GroupByGroups(ts);
    GroupedUnion(gs, ts);
    GroupedPartition(gs, ts);
    MemberSetSize(ts);
    EquivRel.PartitionSize(cs);
    assert EquivRel.NoEmpty(cs);
    EquivRel.NoEmptyCount(cs);
    ScoreIsEquivalences(gs);
    EquivRel.CountEquivalencesOfPartition(EquivRel.FromClasses(cs));
  }

  /** Two distinctly tagged members share a class exactly when their canonical ids agree. */
  lemma GroupBySameClass(ts: seq<Tagged>, a: nat, b: nat)
    requires DistinctMembers(ts) && a < |ts| && b < |ts|
    ensures (exists i :: 0 <= i < |GroupBy(ts)| && ts[a].member in GroupBy(ts)[i].members && ts[b].member in GroupBy(ts)[i].members)
      <==> ts[a].key == ts[b].key
  {
    var gs := GroupBy(ts);
    GroupByGroups(ts);
    if ts[a].key == ts[b].key {
      var i := GroupIndex(gs, ts[a].key);
      assert ts[a] == Tagged(ts[a].member, gs[i].key) && ts[b] == Tagged(ts[b].member, gs[i].key);
      assert HasTag(ts, ts[a].member, gs[i].key) && HasTag(ts, ts[b].member, gs[i].key);
      assert 0 <= i < |GroupBy(ts)| && ts[a].member in GroupBy(ts)[i].members && ts[b].member in GroupBy(ts)[i].members;
    } else {
      forall i | 0 <= i < |gs| && ts[a].member in gs[i].members ensures ts[b].member !in gs[i].members {
        var c :| 0 <= c < |ts| && ts[c] == Tagged(ts[a].member, gs[i].key);
        assert c == a;
      }
    }
  }

  // ------------------------------------------------------------ analyzing a subject

  datatype Mutant = Mutant(mid: nat, pid: string)

  datatype AnalysisResult = AnalysisResult(score: nat, equivClasses: seq<set<nat>>)

  datatype Subject = Subject(sourceFile: string, methodName: string, pid: string, mutants: seq<Mutant>, analysisResult: AnalysisResult)

  /** `find(id_update[id])` for the PEG id written as `text`; a malformed or unloaded id panics. */
  function CanonicalId(text: string, bound: nat, idUpdate: map<nat, nat>, find: nat -> nat): Run<nat> {
    var n := ParseUnsigned(text);
    if n.Some? && n.value < bound && n.value in idUpdate then Ok(find(idUpdate[n.value])) else Panic
  }

  /** Each mutant's Major id with the canonical id of its PEG (read as a `usize`). */
  function MutantTags(ms: seq<Mutant>, idUpdate: map<nat, nat>, find: nat -> nat): (r: Run<seq<Tagged>>)
    ensures r.Ok? <==> forall i :: 0 <= i < |ms| ==> CanonicalId(ms[i].pid, UsizeBound, idUpdate, find).Ok?
    ensures r.Ok? ==> |r.value| == |ms| && forall i :: 0 <= i < |ms| ==>
      r.value[i] == Tagged(ms[i].mid, CanonicalId(ms[i].pid, UsizeBound, idUpdate, find).value)
  {
    if ms == [] then Ok([])
    else
      var k, rest := CanonicalId(ms[0].pid, UsizeBound, idUpdate, find), MutantTags(ms[1..], idUpdate, find);
      assert forall i :: 1 <= i < |ms| ==> ms[1..][i - 1] == ms[i];
      if k.Ok? && rest.Ok? then Ok([Tagged(ms[0].mid, k.value)] + rest.value) else Panic
  }

  /** The original as member 0 (its id read as a `u32`), then the mutants in order. */
  function Tags(s: Subject, idUpdate: map<nat, nat>, find: nat -> nat): Run<seq<Tagged>> {
    var k := CanonicalId(s.pid, U32Bound, idUpdate, find);
    var ms := MutantTags(s.mutants, idUpdate, find);
    if k.Ok? && ms.Ok? then Ok([Tagged(0, k.value)] + ms.value) else Panic
  }

  /** `analyze_subject`: the subject with its score and equivalence classes filled in. */
  function Analyze(s: Subject, idUpdate: map<nat, nat>, find: nat -> nat): Run<Subject> {
    var ts := Tags(s, idUpdate, find);
    if ts.Ok? then
      GroupByGroups(ts.value);
      var gs := GroupBy(ts.value);
      Ok(s.(analysisResult := AnalysisResult(Score(gs), Classes(gs))))
    else Panic
  }

  /** The canonical id of the subject's own PEG. */
  function OriginalKey(s: Subject, idUpdate: map<nat, nat>, find: nat -> nat): Run<nat> {
    CanonicalId(s.pid, U32Bound, idUpdate, find)
  }

  /** The canonical id of the i-th mutant's PEG. */
  function MutantKey(s: Subject, i: nat, idUpdate: map<nat, nat>, find: nat -> nat): Run<nat>
    requires i < |s.mutants|
  {
    CanonicalId(s.mutants[i].pid, UsizeBound, idUpdate, find)
  }

  /** Major numbers the mutants from 1 without repetition; 0 stands for the original. */
  predicate DistinctMutantIds(s: Subject) {
    (forall i :: 0 <= i < |s.mutants| ==> s.mutants[i].mid != 0) &&
    (forall i, j :: 0 <= i < j < |s.mutants| ==> s.mutants[i].mid != s.mutants[j].mid)
  }

  /** Some class holds both `x` and `y`. */
  predicate SameClass(cs: seq<set<nat>>, x: nat, y: nat) {
    exists c :: 0 <= c < |cs| && x in cs[c] && y in cs[c]
  }

  lemma TagsOf(s: Subject, idUpdate: map<nat, nat>, find: nat -> nat)
    requires Tags(s, idUpdate, find).Ok?
    ensures var ts := Tags(s, idUpdate, find).value;
      |ts| == |s.mutants| + 1 && OriginalKey(s, idUpdate, find).Ok? &&
      ts[0] == Tagged(0, OriginalKey(s, idUpdate, find).value) &&
      forall i :: 0 <= i < |s.mutants| ==> (MutantKey(s, i, idUpdate, find).Ok? &&
        ts[i + 1] == Tagged(s.mutants[i].mid, MutantKey(s, i, idUpdate, find).value))
  {
  }

  lemma TagsDistinct(s: Subject, idUpdate: map<nat, nat>, find: nat -> nat)
    requires Tags(s, idUpdate, find).Ok? && DistinctMutantIds(s)
    ensures DistinctMembers(Tags(s, idUpdate, find).value)
  {
    var ts := Tags(s, idUpdate, find).value;
    TagsOf(s, idUpdate, find);
    assert DistinctMembers(ts) by {
      forall a, b | 0 <= a < b < |ts| ensures ts[a].member != ts[b].member {
        if a > 0 {
          assert s.mutants[a - 1].mid != s.mutants[b - 1].mid;
        }
      }
    }
  }

  /**
   * `analyze_subject` panics exactly when the subject's or some mutant's
   * PEG id is malformed or was never loaded; otherwise it changes nothing
   * but the analysis result.
   */
  lemma AnalyzeSubjectPanics(s: Subject, idUpdate: map<nat, nat>, find: nat -> nat)
    ensures !Analyze(s, idUpdate, find).Err?
    ensures Analyze(s, idUpdate, find).Ok? <==>
      OriginalKey(s, idUpdate, find).Ok? && forall i :: 0 <= i < |s.mutants| ==> MutantKey(s, i, idUpdate, find).Ok?
    ensures Analyze(s, idUpdate, find).Ok? ==>
      Analyze(s, idUpdate, find).value.(analysisResult := s.analysisResult) == s
  {
    forall i | 0 <= i < |s.mutants| ensures MutantKey(s, i, idUpdate, find) == CanonicalId(s.mutants[i].pid, UsizeBound, idUpdate, find) {
    }
  }

  /**
   * With distinct mutant ids the classes are non-empty and disjoint, the
   * score is the number of members (the mutants and the original) minus
   * the number of classes, and it equals the count of the `EqRel` built
   * from the classes.
   */
  lemma AnalyzeSubjectScore(s: Subject, idUpdate: map<nat, nat>, find: nat -> nat)
    requires Analyze(s, idUpdate, find).Ok? && DistinctMutantIds(s)
    ensures var r := Analyze(s, idUpdate, find).value.analysisResult;
      EquivRel.NoEmpty(r.equivClasses) && EquivRel.Partition(r.equivClasses) &&
      r.score + |r.equivClasses| == |s.mutants| + 1 && r.score <= |s.mutants| &&
      EquivRel.CountEquivalences(EquivRel.FromClasses(r.equivClasses)) == Some(r.score)
  {
    var ts := Tags(s, idUpdate, find).value;
    TagsDistinct(s, idUpdate, find);
    GroupByScore(ts);
    GroupByGroups(ts);
    assert GroupIndex(GroupBy(ts), ts[0].key) >= 0;
  }

  /** Distinctly tagged members share a class exactly when their canonical ids agree. */
  lemma TagsSameClass(ts: seq<Tagged>)
    requires DistinctMembers(ts)
    ensures forall a, b :: 0 <= a < |ts| && 0 <= b < |ts| ==>
      (SameClass(Classes(GroupBy(ts)), ts[a].member, ts[b].member) <==> ts[a].key == ts[b].key)
  {
    forall a, b | 0 <= a < |ts| && 0 <= b < |ts|
      ensures SameClass(Classes(GroupBy(ts)), ts[a].member, ts[b].member) <==> ts[a].key == ts[b].key
    {
      GroupBySameClass(ts, a, b);
    }
  }

  /** With distinct mutant ids, the original and a mutant share a class exactly when their PEGs ended in the same e-class. */
  lemma OriginalSharesClass(s: Subject, idUpdate: map<nat, nat>, find: nat -> nat, i: nat)
    requires Analyze(s, idUpdate, find).Ok? && DistinctMutantIds(s) && i < |s.mutants|
    ensures SameClass(Analyze(s, idUpdate, find).value.analysisResult.equivClasses, 0, s.mutants[i].mid) <==>
      OriginalKey(s, idUpdate, find) == MutantKey(s, i, idUpdate, find)
  {
    var ts := Tags(s, idUpdate, find).value;
    TagsDistinct(s, idUpdate, find);
    TagsOf(s, idUpdate, find);
    TagsSameClass(ts);
    assert ts[0].member == 0 && ts[i + 1].member == s.mutants[i].mid;
  }

  /** With distinct mutant ids, two mutants share a class exactly when their PEGs ended in the same e-class. */
  lemma MutantsShareClass(s: Subject, idUpdate: map<nat, nat>, find: nat -> nat, i: nat, j: nat)
    requires Analyze(s, idUpdate, find).Ok? && DistinctMutantIds(s) && i < |s.mutants| && j < |s.mutants|
    ensures SameClass(Analyze(s, idUpdate, find).value.analysisResult.equivClasses, s.mutants[i].mid, s.mutants[j].mid) <==>
      MutantKey(s, i, idUpdate, find) == MutantKey(s, j, idUpdate, find)
  {
    var ts := Tags(s, idUpdate, find).value;
    TagsDistinct(s, idUpdate, find);
    TagsOf(s, idUpdate, find);
    TagsSameClass(ts);
    assert ts[i + 1].member == s.mutants[i].mid && ts[j + 1].member == s.mutants[j].mid;
  }

  /** The analysis loop of `run_on_subjects`: every subject in order; a panic in any ends the run. */
  function AnalyzeAll(ss: seq<Subject>, idUpdate: map<nat, nat>, find: nat -> nat): (r: Run<seq<Subject>>)
    ensures !r.Err?
    ensures r.Ok? <==> forall i :: 0 <= i < |ss| ==> Analyze(ss[i], idUpdate, find).Ok?
    ensures r.Ok? ==> (|r.value| == |ss| &&
      forall i :: 0 <= i < |ss| ==> r.value[i] == Analyze(ss[i], idUpdate, find).value)
  {
    MapRun(ss, (s: Subject) => Analyze(s, idUpdate, find))
  }

  /** Every mutant of every subject, in order. */
  function AllMutants(ss: seq<Subject>): seq<Mutant> {
    if ss == [] then [] else AllMutants(ss[..|ss| - 1]) + ss[|ss| - 1].mutants
  }

  /** `num_mutants`: the number of mutants over all subjects. */
  method NumMutants(ss: seq<Subject>) returns (n: nat)
    ensures n == |AllMutants(ss)|
  {
    n := 0;
    var i := 0;
    while i < |ss|
      invariant 0 <= i <= |ss|
      invariant n == |AllMutants(ss[..i])|
    {
      assert ss[..i + 1][..i] == ss[..i];
      n := n + |ss[i].mutants|;
      i := i + 1;
    }
    assert ss[..|ss|] == ss;
  }

  // ------------------------------------------------------------ loading into the e-graph

  /** Every child of `p` has an entry in `m`. */
  predicate ChildrenIn(p: Peg, m: map<nat, nat>) {
    p.Node? ==> forall k :: 0 <= k < |p.args| ==> p.args[k] in m
  }

  /** The node with each child id replaced by its entry in `m`. */
  function Rename(p: Peg, m: map<nat, nat>): (r: Peg)
    requires ChildrenIn(p, m)
  {
    if p.Node? then Node(p.op, seq(|p.args|, k requires 0 <= k < |p.args| => m[p.args[k]])) else p
  }

  lemma RenameAgree(p: Peg, m: map<nat, nat>, m': map<nat, nat>)
    requires ChildrenIn(p, m) && ChildrenIn(p, m')
    requires p.Node? ==> forall k :: 0 <= k < |p.args| ==> m[p.args[k]] == m'[p.args[k]]
    ensures Rename(p, m) == Rename(p, m')
  {
    if p.Node? {
      assert Rename(p, m).args == Rename(p, m').args;
    }
  }

  /** Node `i` was added, renamed through `m`, to `graphs[i]`, giving `graphs[i + 1]`, and `m[i]` is the canonical id of the result. */
  predicate Loaded<G(==)>(add: (G, Peg) -> (G, nat), find: (G, nat) -> nat, graphs: seq<G>, e: seq<Peg>, m: map<nat, nat>, i: nat)
    requires i < |e| && i + 1 < |graphs| && i in m && ChildrenIn(e[i], m)
  {
    var step := add(graphs[i], Rename(e[i], m));
    graphs[i + 1] == step.0 && m[i] == find(step.0, step.1)
  }

  /**
   * The load loop of `run_on_subjects`: node `idx`, its children renamed
   * through `id_offset_map`, is added to the e-graph and `idx` is mapped
   * to `find(add(node))`.  The `assert!` on an unbound child fires exactly
   * when some child does not precede its parent; otherwise every index is
   * mapped, and `graphs` lists the e-graph before and after each `add`.
   */
  method Load<G(==)>(g0: G, e: seq<Peg>, add: (G, Peg) -> (G, nat), find: (G, nat) -> nat)
    returns (ok: bool, m: map<nat, nat>, graphs: seq<G>)
    ensures ok <==> RecExpr.Acyclic(e)
    ensures ok ==> (forall i: nat :: i in m <==> i < |e|) && |graphs| == |e| + 1 && graphs[0] == g0
    ensures ok ==> forall i :: 0 <= i < |e| ==> ChildrenIn(e[i], m) && Loaded(add, find, graphs, e, m, i)
  {
    m := map[];
    graphs := [g0];
    var idx := 0;
    while idx < |e|
      invariant 0 <= idx <= |e|
      invariant forall i: nat :: i in m <==> i < idx
      invariant |graphs| == idx + 1 && graphs[0] == g0
      invariant forall j, k :: 0 <= j < idx && 0 <= k < |Children(e[j])| ==> Children(e[j])[k] < j
      invariant forall i :: 0 <= i < idx ==> ChildrenIn(e[i], m) && Loaded(add, find, graphs, e, m, i)
    {
      var node := e[idx];
      var children: seq<nat> := Children(node);
      var renamed: seq<nat> := [];
      var k := 0;
      while k < |children|
        invariant 0 <= k <= |children|
        invariant forall c :: 0 <= c < k ==> children[c] < idx
        invariant |renamed| == k && forall c :: 0 <= c < k ==> renamed[c] == m[children[c]]
      {
        if children[k] !in m {
          assert Children(e[idx])[k] >= idx;
          return false, m, graphs;
        }
        renamed := renamed + [m[children[k]]];
        k := k + 1;
      }
      var renamedNode := if node.Node? then Node(node.op, renamed) else node;
      assert renamedNode == Rename(node, m);
      var step := add(graphs[idx], renamedNode);
      var canonical := find(step.0, step.1);
      var m' := m[idx := canonical];
      forall i | 0 <= i < idx ensures ChildrenIn(e[i], m') && Rename(e[i], m') == Rename(e[i], m) {
        RenameAgree(e[i], m, m');
      }
      RenameAgree(e[idx], m, m');
      m := m';
      graphs := graphs + [step.0];
      idx := idx + 1;
    }
    ok := true;
  }
}
