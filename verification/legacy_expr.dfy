/**
 * The first prototype's language and analysis (src/expr.rs): the same
 * `Peg::plus` … `Peg::or` folds as src/peg.rs (`LegacyPeg.Apply`), an
 * analysis whose `make` records only number literals as constants, the
 * constant-propagation applier `ConstProp`, and `Subject::make`.
 *
 * The language has no `error` node, so a fold of a division by zero can
 * only panic.  `ConstProp` folds every pair of constant nodes of two
 * e-classes; `is_const` admits booleans, which the arithmetic folds do not,
 * so an unguarded rule over a boolean constant panics.
 */
module LegacyExpr {
  import opened Wrappers
  import opened Primitives
  import opened PegTerm
  import LegacyPeg
  import PegAnalysis

  /** The operators src/expr.rs declares; `swap`, `eq-distr` and `neq-distr` take three children. */
  predicate InLanguage(op: Op) {
    op in {Op.Add, Op.Mul, Op.Div, Op.Sub, Op.Neg, Op.And, Op.Or, Op.BinAnd, Op.BinOr, Op.BinNeg,
           Op.SRShift, Op.URShift, Op.LShift, Op.Not, Op.Xor, Op.Lt, Op.Lte, Op.Gt, Op.Gte,
           Op.Equ, Op.Neq, Op.Phi, Op.Swap, Op.EqDistr, Op.NeqDistr, Op.Var}
  }

  /**
   * `make`: a `var` node is the class's variable and a number literal its
   * constant; every other node, booleans included, records nothing.
   * (`AnalysisData::or` and `merge` are the first-non-empty combination
   * `PegAnalysis.Combine`/`PegAnalysis.Merge`.)
   */
  function Make(node: Peg): (d: PegAnalysis.AnalysisData)
    ensures d.constant.Some? <==> node.Num?
    ensures d.variable.Some? <==> IsVar(node)
    ensures d.constant.Some? ==> d.constant.value == node
    ensures d.variable.Some? ==> d.variable.value == node
  {
    if IsVar(node) then PegAnalysis.AnalysisData(None, Some(node))
    else if node.Num? then PegAnalysis.AnalysisData(Some(node), None)
    else PegAnalysis.AnalysisData(None, None)
  }

  /**
   * The two prototypes' `make` agree on variables and number literals; a
   * boolean literal is a constant only in src/peg.rs, and an operator over
   * constants is folded only there.
   */
  lemma MakeVersusPegPrototype(g: PegAnalysis.ClassData, node: Peg)
    requires LegacyPeg.WellFormed(node) && PegAnalysis.ChildrenKnown(g, node) && !LegacyPeg.Eval(g, node).Panics?
    ensures IsVar(node) || node.Num? ==> Make(node) == LegacyPeg.Make(g, node)
    ensures node.Bool? ==> Make(node).constant.None? && LegacyPeg.Make(g, node).constant == Some(node)
    ensures Make(node).constant.Some? ==> LegacyPeg.Make(g, node).constant == Make(node).constant
  {
  }

  /**
   * Merging the data `make` gives a new node into a class: a class that
   * already has a constant or variable keeps it; one without adopts the
   * number literal or variable; the merge reports a change exactly when
   * it adopted something.
   */
  lemma MergeMadeData(d: PegAnalysis.AnalysisData, node: Peg)
    ensures var m := PegAnalysis.Merge(d, Make(node));
      && (d.constant.Some? ==> m.0.constant == d.constant)
      && (d.variable.Some? ==> m.0.variable == d.variable)
      && (d.constant.None? && node.Num? ==> m.0.constant == Some(node))
      && (d.variable.None? && IsVar(node) ==> m.0.variable == Some(node))
      && (m.1 <==> (d.constant.None? && node.Num?) || (d.variable.None? && IsVar(node)))
  {
  }

  // ---------------------------------------------------------------------
  // `ConstProp::apply_one`
  // ---------------------------------------------------------------------

  /** The constant nodes of a class, in order (`filter(|n| n.is_const())`). */
  function Consts(nodes: seq<Peg>): (cs: seq<Peg>)
    ensures |cs| <= |nodes|
  {
    if nodes == [] then []
    else
      var n := |nodes| - 1;
      Consts(nodes[..n]) + (if LegacyPeg.IsConst(nodes[n]) then [nodes[n]] else [])
  }

  /** `Consts` keeps exactly the constant nodes. */
  lemma {:induction false} ConstsMembers(nodes: seq<Peg>)
    ensures forall x :: x in Consts(nodes) <==> x in nodes && LegacyPeg.IsConst(x)
  {
    if nodes != [] {
      var n := |nodes| - 1;
      ConstsMembers(nodes[..n]);
      assert nodes == nodes[..n] + [nodes[n]];
    }
  }

  /** Every pair of constant nodes of the two classes is in the fold's domain: the applier does not panic. */
  predicate PropDefined(f: LegacyPeg.FoldFn, left: seq<Peg>, right: seq<Peg>) {
    forall l, r :: l in left && r in right && LegacyPeg.IsConst(l) && LegacyPeg.IsConst(r) ==> LegacyPeg.Defined(f, l, r)
  }

  /**
   * The fold of one pair; outside the fold's domain `apply_one` panics, which
   * `PropDefined` excludes, and the error node stands in for that case.
   */
  function FoldPair(f: LegacyPeg.FoldFn, a: Peg, b: Peg): Peg {
    if LegacyPeg.Defined(f, a, b) then LegacyPeg.Apply(f, a, b) else Node(Op.Error, [])
  }

  /** The ids `h` gives `l` paired with each of `rs`, in order. */
  function Row(l: Peg, rs: seq<Peg>, h: (Peg, Peg) -> nat): (ids: seq<nat>)
    ensures |ids| == |rs|
  {
    if rs == [] then []
    else
      var n := |rs| - 1;
      Row(l, rs[..n], h) + [h(l, rs[n])]
  }

  /** The ids `h` gives every pair, the left operand in the outer loop. */
  function Cross(ls: seq<Peg>, rs: seq<Peg>, h: (Peg, Peg) -> nat): seq<nat> {
    if ls == [] then []
    else
      var n := |ls| - 1;
      Cross(ls[..n], rs, h) + Row(ls[n], rs, h)
  }

  /** The id `egraph.add` gives the fold of a pair. */
  function AddFold(f: LegacyPeg.FoldFn, add: Peg -> nat): (Peg, Peg) -> nat {
    (a, b) => add(FoldPair(f, a, b))
  }

  lemma AddFoldApply(f: LegacyPeg.FoldFn, add: Peg -> nat, a: Peg, b: Peg)
    requires LegacyPeg.Defined(f, a, b)
    ensures AddFold(f, add)(a, b) == add(LegacyPeg.Apply(f, a, b))
  {
    assert FoldPair(f, a, b) == LegacyPeg.Apply(f, a, b);
  }

  /** Consts of a one-longer prefix. */
  lemma ConstsStep(nodes: seq<Peg>, i: nat)
    requires i < |nodes|
    ensures Consts(nodes[..i + 1]) == Consts(nodes[..i]) + (if LegacyPeg.IsConst(nodes[i]) then [nodes[i]] else [])
  {
    assert nodes[..i + 1][..i] == nodes[..i];
  }

  lemma CrossStep(ls: seq<Peg>, l: Peg, rs: seq<Peg>, h: (Peg, Peg) -> nat)
    ensures Cross(ls + [l], rs, h) == Cross(ls, rs, h) + Row(l, rs, h)
  {
    assert (ls + [l])[..|ls|] == ls;
  }

  lemma RowStep(l: Peg, rs: seq<Peg>, r: Peg, h: (Peg, Peg) -> nat)
    ensures Row(l, rs + [r], h) == Row(l, rs, h) + [h(l, r)]
  {
    assert (rs + [r])[..|rs|] == rs;
  }

  /**
   * `apply_one`: for every constant node of the left class and every
   * constant node of the right class, the id of `op(left, right)` added to
   * the e-graph.  `add` stands for `egraph.add`; being a function, it gives
   * equal nodes equal ids, as hash-consing does.
   */
  method ApplyOne(f: LegacyPeg.FoldFn, left: seq<Peg>, right: seq<Peg>, add: Peg -> nat) returns (ids: seq<nat>)
    requires PropDefined(f, left, right)
    ensures ids == Cross(Consts(left), Consts(right), AddFold(f, add))
  {
    ids := [];
    var i := 0;
    while i < |left|
      invariant 0 <= i <= |left|
      invariant ids == Cross(Consts(left[..i]), Consts(right), AddFold(f, add))
    {
      var l := left[i];
      ConstsStep(left, i);
      if LegacyPeg.IsConst(l) {
        var row := ApplyRow(f, l, right, add);
        CrossStep(Consts(left[..i]), l, Consts(right), AddFold(f, add));
        ids := ids + row;
      } else {
        assert Consts(left[..i + 1]) == Consts(left[..i]);
      }
      i := i + 1;
    }
    assert left[..|left|] == left;
  }

  /** The inner loop of `apply_one`: fold `l` with every constant node of `right`. */
  method ApplyRow(f: LegacyPeg.FoldFn, l: Peg, right: seq<Peg>, add: Peg -> nat) returns (row: seq<nat>)
    requires forall r :: r in right && LegacyPeg.IsConst(r) ==> LegacyPeg.Defined(f, l, r)
    ensures row == Row(l, Consts(right), AddFold(f, add))
  {
    row := [];
    var j := 0;
    while j < |right|
      invariant 0 <= j <= |right|
      invariant row == Row(l, Consts(right[..j]), AddFold(f, add))
    {
      var r := right[j];
      RowExtends(f, add, l, right, j);
      if LegacyPeg.IsConst(r) {
        row := row + [add(LegacyPeg.Apply(f, l, r))];
      }
      j := j + 1;
    }
    assert right[..|right|] == right;
  }

  /** One step of the inner loop. */
  lemma RowExtends(f: LegacyPeg.FoldFn, add: Peg -> nat, l: Peg, right: seq<Peg>, j: nat)
    requires j < |right|
    requires LegacyPeg.IsConst(right[j]) ==> LegacyPeg.Defined(f, l, right[j])
    ensures LegacyPeg.IsConst(right[j]) ==>
      Row(l, Consts(right[..j + 1]), AddFold(f, add)) == Row(l, Consts(right[..j]), AddFold(f, add)) + [add(LegacyPeg.Apply(f, l, right[j]))]
    ensures !LegacyPeg.IsConst(right[j]) ==> Row(l, Consts(right[..j + 1]), AddFold(f, add)) == Row(l, Consts(right[..j]), AddFold(f, add))
  {
    var r := right[j];
    ConstsStep(right, j);
    if LegacyPeg.IsConst(r) {
      RowStep(l, Consts(right[..j]), r, AddFold(f, add));
      AddFoldApply(f, add, l, r);
    } else {
      assert Consts(right[..j + 1]) == Consts(right[..j]);
    }
  }

  lemma {:induction false} RowContents(l: Peg, rs: seq<Peg>, h: (Peg, Peg) -> nat)
    ensures forall x :: x in Row(l, rs, h) <==> exists r :: r in rs && x == h(l, r)
  {
    if rs != [] {
      var n := |rs| - 1;
      RowContents(l, rs[..n], h);
      assert rs == rs[..n] + [rs[n]];
    }
  }

  lemma MulStep(a: nat, b: nat)
    requires a > 0
    ensures (a - 1) * b + b == a * b
    ensures a * b == 0 <==> b == 0
  {
    if b > 0 {
      assert a * b >= b;
    }
  }

  /** One id per pair: none when either side is empty. */
  lemma {:induction false} CrossLength(ls: seq<Peg>, rs: seq<Peg>, h: (Peg, Peg) -> nat)
    ensures |Cross(ls, rs, h)| == |ls| * |rs|
    ensures Cross(ls, rs, h) == [] <==> ls == [] || rs == []
  {
    if ls != [] {
      var n := |ls| - 1;
      CrossLength(ls[..n], rs, h);
      assert |Cross(ls, rs, h)| == |Cross(ls[..n], rs, h)| + |rs|;
      MulStep(|ls|, |rs|);
    }
  }

  /** Exactly the ids of the pairs. */
  lemma {:induction false} CrossContents(ls: seq<Peg>, rs: seq<Peg>, h: (Peg, Peg) -> nat)
    ensures forall x :: x in Cross(ls, rs, h) <==> exists l, r :: l in ls && r in rs && x == h(l, r)
  {
    if ls != [] {
      var n := |ls| - 1;
      var init, last := ls[..n], ls[n];
      assert ls == init + [last];
      CrossContents(init, rs, h);
      RowContents(last, rs, h);
      forall x | x in Cross(ls, rs, h)
        ensures exists l, r :: l in ls && r in rs && x == h(l, r)
      {
        if x in Cross(init, rs, h) {
          var l, r :| l in init && r in rs && x == h(l, r);
          assert l in ls;
        } else {
          assert x in Row(last, rs, h);
          var r :| r in rs && x == h(last, r);
          assert last in ls;
        }
      }
      forall x | exists l, r :: l in ls && r in rs && x == h(l, r)
        ensures x in Cross(ls, rs, h)
      {
        var l, r :| l in ls && r in rs && x == h(l, r);
        if l == last {
          assert x in Row(last, rs, h);
        } else {
          assert l in init;
          assert x in Cross(init, rs, h);
        }
      }
    }
  }

  /** `x` is the id `add` gives the fold of a pair of constant nodes of the two classes. */
  predicate FoldOfConstPair(f: LegacyPeg.FoldFn, left: seq<Peg>, right: seq<Peg>, add: Peg -> nat, x: nat) {
    exists l, r ::
      && l in left && r in right && LegacyPeg.IsConst(l) && LegacyPeg.IsConst(r)
      && LegacyPeg.Defined(f, l, r) && x == add(LegacyPeg.Apply(f, l, r))
  }

  lemma ResultIsFold(f: LegacyPeg.FoldFn, left: seq<Peg>, right: seq<Peg>, add: Peg -> nat, x: nat)
    requires PropDefined(f, left, right)
    requires exists l, r :: l in Consts(left) && r in Consts(right) && x == AddFold(f, add)(l, r)
    ensures FoldOfConstPair(f, left, right, add, x)
  {
    var l, r :| l in Consts(left) && r in Consts(right) && x == AddFold(f, add)(l, r);
    ConstsMembers(left);
    ConstsMembers(right);
    AddFoldApply(f, add, l, r);
  }

  lemma FoldIsResult(f: LegacyPeg.FoldFn, left: seq<Peg>, right: seq<Peg>, add: Peg -> nat, x: nat)
    requires FoldOfConstPair(f, left, right, add, x)
    ensures exists l, r :: l in Consts(left) && r in Consts(right) && x == AddFold(f, add)(l, r)
  {
    var l, r :| l in left && r in right && LegacyPeg.IsConst(l) && LegacyPeg.IsConst(r)
      && LegacyPeg.Defined(f, l, r) && x == add(LegacyPeg.Apply(f, l, r));
    ConstsMembers(left);
    ConstsMembers(right);
    AddFoldApply(f, add, l, r);
    assert l in Consts(left) && r in Consts(right);
  }

  /**
   * What `apply_one` returns: one id per pair of a constant node of the
   * left class and one of the right class — none when either has no
   * constant node — and its ids are exactly those `add` gives the folds of
   * such pairs.
   */
  lemma ApplyOneResult(f: LegacyPeg.FoldFn, left: seq<Peg>, right: seq<Peg>, add: Peg -> nat)
    requires PropDefined(f, left, right)
    ensures var ids := Cross(Consts(left), Consts(right), AddFold(f, add));
      && |ids| == |Consts(left)| * |Consts(right)|
      && (ids == [] <==> Consts(left) == [] || Consts(right) == [])
      && forall x :: x in ids <==> FoldOfConstPair(f, left, right, add, x)
  {
    var cl, cr, h := Consts(left), Consts(right), AddFold(f, add);
    var ids := Cross(cl, cr, h);
    CrossLength(cl, cr, h);
    CrossContents(cl, cr, h);
    forall x | x in ids
      ensures FoldOfConstPair(f, left, right, add, x)
    {
      ResultIsFold(f, left, right, add, x);
    }
    forall x | FoldOfConstPair(f, left, right, add, x)
      ensures x in ids
    {
      FoldIsResult(f, left, right, add, x);
    }
  }

  /**
   * `is_const` admits booleans but `plus` does not: `prop-plus` over a
   * class holding `true` panics, and so does `prop-equal` over a number
   * and a boolean.  Division by a constant 0 panics too.
   */
  lemma UnguardedPropagationPanics()
    ensures !PropDefined(LegacyPeg.FoldFn.Plus, [Bool(true)], [Num(JavaInt(1))])
    ensures !PropDefined(LegacyPeg.FoldFn.Equal, [Num(JavaInt(1))], [Bool(true)])
    ensures !PropDefined(LegacyPeg.FoldFn.Div, [Num(JavaInt(1))], [Num(JavaInt(0))])
    ensures !InLanguage(Op.Error)
  {
    assert Bool(true) in [Bool(true)] && Num(JavaInt(1)) in [Num(JavaInt(1))];
    assert Num(JavaInt(0)) in [Num(JavaInt(0))];
  }

  // ---------------------------------------------------------------------
  // `Subject::make`
  // ---------------------------------------------------------------------

  datatype Mutant = Mutant(id: nat, code: string)

  datatype Subject = Subject(sourceFile: string, methodName: string, code: string, mutants: seq<Mutant>)

  /** `Subject::make`: the first input is the original, the rest are the mutants in order (`inputs[1..]` panics on an empty slice). */
  function MakeSubject(sourceFile: string, methodName: string, inputs: seq<(nat, string)>): (s: Subject)
    requires |inputs| >= 1
    ensures s.sourceFile == sourceFile && s.methodName == methodName
    ensures s.code == inputs[0].1
    ensures |s.mutants| == |inputs| - 1
    ensures forall i :: 0 <= i < |s.mutants| ==> s.mutants[i] == Mutant(inputs[i + 1].0, inputs[i + 1].1)
  {
    Subject(sourceFile, methodName, inputs[0].1,
      seq(|inputs| - 1, i requires 0 <= i < |inputs| - 1 => Mutant(inputs[i + 1].0, inputs[i + 1].1)))
  }

  /** The inputs a subject is made from, the original under the id `originalId`. */
  function Inputs(s: Subject, originalId: nat): (inputs: seq<(nat, string)>)
    ensures |inputs| == |s.mutants| + 1
  {
    [(originalId, s.code)] + seq(|s.mutants|, i requires 0 <= i < |s.mutants| => (s.mutants[i].id, s.mutants[i].code))
  }

  /** Making a subject loses only the original's id: `Inputs` undoes `MakeSubject` and vice versa. */
  lemma MakeSubjectRoundTrip(sourceFile: string, methodName: string, inputs: seq<(nat, string)>, s: Subject)
    requires |inputs| >= 1
    ensures Inputs(MakeSubject(sourceFile, methodName, inputs), inputs[0].0) == inputs
    ensures MakeSubject(s.sourceFile, s.methodName, Inputs(s, 0)) == s
  {
    var t := MakeSubject(sourceFile, methodName, inputs);
    assert forall i :: 0 <= i < |inputs| ==> Inputs(t, inputs[0].0)[i] == inputs[i];
    assert MakeSubject(s.sourceFile, s.methodName, Inputs(s, 0)).mutants == s.mutants;
  }
}
