/**
 * The equivalence relations of cornelius/src/util.rs: `EqRel`, the text
 * format in which equivalence-class files are read (`From<&str>`) and
 * written (`get_equiv_file_contents_for_subject`), and the refinement,
 * restriction and counting operations that compare a run's classes with
 * a ground-truth file.  Elements are the `u32` ids of mutants; a panic of
 * the source is a `Failure` (parsing) or a `None` (the `usize`
 * subtraction of `num_equivalences`).
 */
module EquivRel {
  import opened Wrappers
  import opened Decimal
  import opened Text

  /**
   * `classes[i]` is the i-th class as it was read; `elemMap[x]` is the
   * index of the class that `x` was entered into last.
   */
  datatype EqRel = EqRel(classes: seq<set<nat>>, elemMap: map<nat, nat>)

  /** The line separators of an equivalence-class file. */
  predicate IsClassSep(c: char) {
    c == '\n' || c == '|'
  }

  /** Rust's `char::is_whitespace`: the Unicode White_Space property. */
  predicate IsWhitespace(c: char) {
    c == ' ' || ('\t' <= c <= '\r') || c == '\U{85}' || c == '\U{A0}' || c == '\U{1680}'
    || ('\U{2000}' <= c <= '\U{200A}') || c == '\U{2028}' || c == '\U{2029}'
    || c == '\U{202F}' || c == '\U{205F}' || c == '\U{3000}'
  }

  /** `s.split(|c| c == '\n' || c == '|')`. */
  function Segments(s: string): (r: seq<string>)
    ensures |r| == Count(s, IsClassSep) + 1
  {
    Split(s, IsClassSep)
  }

  /** The pieces that are not empty, in order. */
  function NonEmpty(ps: seq<string>): (r: seq<string>)
    ensures forall i :: 0 <= i < |r| ==> r[i] != "" && r[i] in ps
    ensures (forall i :: 0 <= i < |ps| ==> ps[i] != "") ==> r == ps
  {
    if ps == [] then []
    else (if ps[0] == "" then [] else [ps[0]]) + NonEmpty(ps[1..])
  }

  /** `str::split_whitespace`: the maximal non-blank words. */
  function Tokens(s: string): (r: seq<string>)
    ensures forall i :: 0 <= i < |r| ==> r[i] != "" && NoneIn(r[i], IsWhitespace)
  {
    NonEmpty(Split(s, IsWhitespace))
  }

  /** Words joined by single spaces come apart into the same words. */
  lemma TokensOfJoin(ws: seq<string>)
    requires forall i :: 0 <= i < |ws| ==> ws[i] != "" && NoneIn(ws[i], IsWhitespace)
    ensures Tokens(Join(ws, ' ')) == ws
  {
    if ws == [] {
      assert Split("", IsWhitespace) == [""];
    } else {
      SplitJoin(ws, ' ', IsWhitespace);
    }
  }

  // ------------------------------------------------------------ parsing

  /**
   * The elements of one class, each token read by `u32::from_str` (an
   * optional `+` and decimal digits, below 2^32); a token that is not a
   * `u32` is the panic "Element .. is not a valid T".
   */
  function ParseClass(ts: seq<string>): (r: Result<set<nat>, string>)
    ensures r.Success? <==> forall i :: 0 <= i < |ts| ==> ParseU32(ts[i]).Some?
  {
    if ts == [] then Success({})
    else
      match ParseU32(ts[0])
      case None => Failure("Element " + ts[0] + " is not a valid T")
      case Some(n) =>
        match ParseClass(ts[1..])
        case Failure(e) => Failure(e)
        case Success(c) => Success({n} + c)
  }

  /** A class holds exactly the values of its tokens. */
  lemma {:induction false} ParseClassElements(ts: seq<string>)
    requires ParseClass(ts).Success?
    ensures forall x :: x in ParseClass(ts).value <==> exists i :: 0 <= i < |ts| && ParseU32(ts[i]) == Some(x)
  {
    if ts != [] {
      ParseClassElements(ts[1..]);
      forall x | x in ParseClass(ts[1..]).value ensures exists i :: 0 <= i < |ts| && ParseU32(ts[i]) == Some(x) {
        var j :| 0 <= j < |ts[1..]| && ParseU32(ts[1..][j]) == Some(x);
        assert ParseU32(ts[j + 1]) == Some(x);
      }
      forall x, i | 0 <= i < |ts| && ParseU32(ts[i]) == Some(x) ensures x in ParseClass(ts).value {
        if i > 0 {
          assert ParseU32(ts[1..][i - 1]) == Some(x);
        }
      }
    }
  }

  /** `f` applied to every segment, or its first failure. */
  function MapSegments(f: string -> Result<set<nat>, string>, segs: seq<string>): (r: Result<seq<set<nat>>, string>)
    ensures r.Success? ==> |r.value| == |segs|
  {
    if segs == [] then Success([])
    else
      var first := f(segs[0]);
      if first.Failure? then Failure(first.error)
      else
        var rest := MapSegments(f, segs[1..]);
        if rest.Failure? then Failure(rest.error)
        else Success([first.value] + rest.value)
  }

  /** The mapping succeeds exactly when `f` does on every segment, and then holds `f`'s results. */
  lemma {:induction false} MapSegmentsSpec(f: string -> Result<set<nat>, string>, segs: seq<string>)
    ensures var r := MapSegments(f, segs);
      && (r.Success? <==> forall i :: 0 <= i < |segs| ==> f(segs[i]).Success?)
      && (r.Success? ==> forall i :: 0 <= i < |segs| ==> f(segs[i]) == Success(r.value[i]))
  {
    if segs != [] {
      MapSegmentsSpec(f, segs[1..]);
      assert forall i :: 1 <= i < |segs| ==> segs[i] == segs[1..][i - 1];
      var r := MapSegments(f, segs);
      if r.Success? {
        assert forall i :: 1 <= i < |segs| ==> r.value[i] == MapSegments(f, segs[1..]).value[i - 1];
      } else if f(segs[0]).Success? {
        var i :| 0 <= i < |segs[1..]| && f(segs[1..][i]).Failure?;
        assert f(segs[i + 1]).Failure?;
      }
    }
  }

  /** Segments whose results are known map to exactly those results. */
  lemma {:induction false} MapSegmentsOf(f: string -> Result<set<nat>, string>, segs: seq<string>, vs: seq<set<nat>>)
    requires |segs| == |vs|
    requires forall i :: 0 <= i < |segs| ==> f(segs[i]) == Success(vs[i])
    ensures MapSegments(f, segs) == Success(vs)
  {
    if segs != [] {
      assert forall i :: 0 <= i < |segs| - 1 ==> segs[1..][i] == segs[i + 1] && vs[1..][i] == vs[i + 1];
      MapSegmentsOf(f, segs[1..], vs[1..]);
      assert vs == [vs[0]] + vs[1..];
    }
  }

  /** The class a segment's tokens denote. */
  function SegmentClass(seg: string): Result<set<nat>, string> {
    ParseClass(Tokens(seg))
  }

  /** The class of every segment, or the first failure. */
  function ParseClasses(segs: seq<string>): (r: Result<seq<set<nat>>, string>)
    ensures r.Success? ==> |r.value| == |segs|
  {
    MapSegments(SegmentClass, segs)
  }

  /** The segments parse exactly when each does, each to its own class. */
  lemma ParseClassesSpec(segs: seq<string>)
    ensures var r := ParseClasses(segs);
      && (r.Success? <==> forall i :: 0 <= i < |segs| ==> ParseClass(Tokens(segs[i])).Success?)
      && (r.Success? ==> forall i :: 0 <= i < |segs| ==> ParseClass(Tokens(segs[i])) == Success(r.value[i]))
  {
    MapSegmentsSpec(SegmentClass, segs);
  }

  /** `EqRel::from(&str)`: one class per segment, every segment included. */
  function Parse(s: string): (r: Result<EqRel, string>)
    ensures r.Success? ==> Valid(r.value) && |r.value.classes| == Count(s, IsClassSep) + 1
  {
    var cs :- ParseClasses(Segments(s));
    Success(FromClasses(cs))
  }

  // ------------------------------------------------------------ the relation

  /** The index of the last class holding `x`, or `-1`. */
  function LastIndex(cs: seq<set<nat>>, x: nat): (i: int)
    ensures -1 <= i < |cs|
    ensures i >= 0 ==> x in cs[i]
    ensures forall j :: i < j < |cs| ==> x !in cs[j]
  {
    if cs == [] then -1
    else if x in cs[|cs| - 1] then |cs| - 1
    else LastIndex(cs[..|cs| - 1], x)
  }

  /** Every element of every class. */
  function Union(cs: seq<set<nat>>): (u: set<nat>)
    ensures forall x :: x in u <==> LastIndex(cs, x) >= 0
  {
    if cs == [] then {} else Union(cs[..|cs| - 1]) + cs[|cs| - 1]
  }

  /**
   * The shape both constructors of the source build: an element is
   * mapped exactly when some class holds it, and to the last such class.
   */
  predicate Valid(r: EqRel) {
    (forall i, x :: 0 <= i < |r.classes| && x in r.classes[i] ==> x in r.elemMap)
    && (forall x :: x in r.elemMap ==> 0 <= LastIndex(r.classes, x) == r.elemMap[x])
  }

  /** Every mapped index names a class (what the lookups of `is_refinement_of` need not to panic). */
  predicate InRange(r: EqRel) {
    forall x :: x in r.elemMap ==> r.elemMap[x] < |r.classes|
  }

  /** Distinct classes share no element. */
  predicate Partition(cs: seq<set<nat>>) {
    forall i, j :: 0 <= i < j < |cs| ==> cs[i] * cs[j] == {}
  }

  predicate NoEmpty(cs: seq<set<nat>>) {
    forall i :: 0 <= i < |cs| ==> cs[i] != {}
  }

  /** `From<&AnalysisResult>`: the classes as given, each element mapped to its last class. */
  function FromClasses(cs: seq<set<nat>>): (r: EqRel)
    ensures r.classes == cs && Valid(r)
  {
    if cs == [] then EqRel([], map[])
    else
      var p := FromClasses(cs[..|cs| - 1]);
      var last := cs[|cs| - 1];
      EqRel(cs, p.elemMap + map e | e in last :: |cs| - 1)
  }

  /** `elems`: the mapped elements. */
  function Elems(r: EqRel): set<nat> {
    r.elemMap.Keys
  }

  /** `lookup`: the class the element is mapped to, if the index names one. */
  function Lookup(r: EqRel, x: nat): (c: Option<set<nat>>)
    ensures c.Some? <==> x in r.elemMap && r.elemMap[x] < |r.classes|
  {
    if x in r.elemMap && r.elemMap[x] < |r.classes| then Some(r.classes[r.elemMap[x]]) else None
  }

  /** In a valid relation `lookup` finds the last class holding the element, and nothing for others. */
  lemma LookupFindsClass(r: EqRel, x: nat)
    requires Valid(r)
    ensures Elems(r) == Union(r.classes) && InRange(r)
    ensures Lookup(r, x).Some? <==> x in Union(r.classes)
    ensures Lookup(r, x).Some? ==> x in Lookup(r, x).value && Lookup(r, x).value == r.classes[LastIndex(r.classes, x)]
  {
  }

  /** In a partition the class holding an element is the only one. */
  lemma PartitionLastIndex(cs: seq<set<nat>>, x: nat, j: nat)
    requires Partition(cs) && j < |cs| && x in cs[j]
    ensures LastIndex(cs, x) == j
  {
    var i := LastIndex(cs, x);
    assert j <= i;
    assert cs[j] * cs[i] == {} || i == j;
    assert x in cs[j] * cs[i];
  }

  function ClassOf(r: EqRel, x: nat): set<nat>
    requires x in r.elemMap && InRange(r)
  {
    r.classes[r.elemMap[x]]
  }

  /**
   * `is_refinement_of`: the elements are among the other's, and each
   * element's class lies inside its class there.
   */
  predicate IsRefinementOf(a: EqRel, b: EqRel)
    requires InRange(a) && InRange(b)
  {
    Elems(a) <= Elems(b) && forall x :: x in Elems(a) ==> ClassOf(a, x) <= ClassOf(b, x)
  }

  /**
   * For partitions without empty classes, `is_refinement_of` is the
   * textbook notion: every class of the finer relation lies inside some
   * class of the coarser one.
   */
  lemma RefinementNestsClasses(a: EqRel, b: EqRel)
    requires Valid(a) && Valid(b) && Partition(a.classes) && Partition(b.classes) && NoEmpty(a.classes)
    ensures InRange(a) && InRange(b)
    ensures IsRefinementOf(a, b) <==> Nested(a.classes, b.classes)
  {
    LookupFindsClass(a, 0);
    LookupFindsClass(b, 0);
    if IsRefinementOf(a, b) {
      RefinementNests(a, b);
    }
    if Nested(a.classes, b.classes) {
      NestingRefines(a, b);
    }
  }

  /** Every class of `fine` lies inside some class of `coarse`. */
  predicate Nested(fine: seq<set<nat>>, coarse: seq<set<nat>>) {
    forall i :: 0 <= i < |fine| ==> InSome(fine[i], coarse)
  }

  predicate InSome(c: set<nat>, coarse: seq<set<nat>>) {
    exists j :: 0 <= j < |coarse| && c <= coarse[j]
  }

  lemma RefinementNests(a: EqRel, b: EqRel)
    requires Valid(a) && Valid(b) && Partition(a.classes) && NoEmpty(a.classes)
    requires InRange(a) && InRange(b) && IsRefinementOf(a, b)
    ensures Nested(a.classes, b.classes)
  {
    forall i | 0 <= i < |a.classes| ensures InSome(a.classes[i], b.classes) {
      var x :| x in a.classes[i];
      PartitionLastIndex(a.classes, x, i);
      assert ClassOf(a, x) == a.classes[i];
      assert x in b.elemMap;
      var j := b.elemMap[x];
      assert ClassOf(b, x) == b.classes[j];
      assert a.classes[i] <= b.classes[j];
    }
  }

  lemma NestingRefines(a: EqRel, b: EqRel)
    requires Valid(a) && Valid(b) && Partition(b.classes)
    requires InRange(a) && InRange(b) && Nested(a.classes, b.classes)
    ensures IsRefinementOf(a, b)
  {
    forall x | x in Elems(a) ensures x in Elems(b) && ClassOf(a, x) <= ClassOf(b, x) {
      var i := a.elemMap[x];
      assert InSome(a.classes[i], b.classes);
      var j :| 0 <= j < |b.classes| && a.classes[i] <= b.classes[j];
      assert x in b.classes[j];
      PartitionLastIndex(b.classes, x, j);
    }
  }

  /** Refinement is a preorder. */
  lemma RefinementPreorder(a: EqRel, b: EqRel, c: EqRel)
    requires InRange(a) && InRange(b) && InRange(c)
    ensures IsRefinementOf(a, a)
    ensures IsRefinementOf(a, b) && IsRefinementOf(b, c) ==> IsRefinementOf(a, c)
  {
  }

  /**
   * The loop of `restrict_to_domain`: each class intersected with the
   * domain; the elements of a class go to the index the class would get,
   * and only non-empty classes are kept.
   */
  function Restrict(cs: seq<set<nat>>, d: set<nat>): (r: EqRel)
    ensures NoEmpty(r.classes)
  {
    if cs == [] then EqRel([], map[])
    else
      var p := Restrict(cs[..|cs| - 1], d);
      var c := cs[|cs| - 1] * d;
      EqRel(if c == {} then p.classes else p.classes + [c], p.elemMap + map e | e in c :: |p.classes|)
  }

  /** The mapped elements are the domain's elements that some class holds. */
  lemma {:induction false} RestrictKeys(cs: seq<set<nat>>, d: set<nat>)
    ensures forall x :: x in Restrict(cs, d).elemMap <==> x in d && LastIndex(cs, x) >= 0
  {
    if cs != [] {
      var pre := cs[..|cs| - 1];
      RestrictKeys(pre, d);
      var p := Restrict(pre, d);
      var c := cs[|cs| - 1] * d;
      var r := Restrict(cs, d);
      assert r.elemMap == p.elemMap + map e | e in c :: |p.classes|;
      forall x ensures x in r.elemMap <==> x in d && LastIndex(cs, x) >= 0 {
        if x !in c {
          assert LastIndex(cs, x) == LastIndex(pre, x) || x !in d;
        }
      }
    }
  }

  /** Each mapped element goes to its last class cut down to the domain. */
  lemma {:induction false} RestrictClasses(cs: seq<set<nat>>, d: set<nat>)
    ensures var r := Restrict(cs, d);
      forall x :: x in r.elemMap ==>
        r.elemMap[x] < |r.classes| && LastIndex(cs, x) >= 0 && r.classes[r.elemMap[x]] == cs[LastIndex(cs, x)] * d
  {
    if cs != [] {
      var pre := cs[..|cs| - 1];
      RestrictClasses(pre, d);
      RestrictKeys(pre, d);
      var p := Restrict(pre, d);
      var c := cs[|cs| - 1] * d;
      var r := Restrict(cs, d);
      assert r.elemMap == p.elemMap + map e | e in c :: |p.classes|;
      forall x | x in r.elemMap
        ensures r.elemMap[x] < |r.classes| && LastIndex(cs, x) >= 0 && r.classes[r.elemMap[x]] == cs[LastIndex(cs, x)] * d
      {
        if x in c {
          assert r.elemMap[x] == |p.classes|;
        } else {
          assert r.elemMap[x] == p.elemMap[x];
          assert LastIndex(cs, x) == LastIndex(pre, x);
          assert r.classes[p.elemMap[x]] == p.classes[p.elemMap[x]];
        }
      }
    }
  }

  /** No element is mapped to a class before one that holds it. */
  lemma {:induction false} RestrictOrder(cs: seq<set<nat>>, d: set<nat>, k: nat, x: nat)
    requires k < |Restrict(cs, d).classes| && x in Restrict(cs, d).classes[k]
    ensures x in Restrict(cs, d).elemMap && k <= Restrict(cs, d).elemMap[x]
  {
    var pre := cs[..|cs| - 1];
    var p := Restrict(pre, d);
    var c := cs[|cs| - 1] * d;
    var r := Restrict(cs, d);
    assert r.elemMap == p.elemMap + map e | e in c :: |p.classes|;
    if k < |p.classes| {
      assert r.classes[k] == p.classes[k];
      RestrictOrder(pre, d, k, x);
      if x in c {
        assert r.elemMap[x] == |p.classes|;
      } else {
        assert r.elemMap[x] == p.elemMap[x];
      }
    } else {
      assert c != {} && r.classes[k] == c;
      assert r.elemMap[x] == |p.classes|;
    }
  }

  /** Restricting a partition gives a partition, of the domain's share of the elements. */
  lemma {:induction false} RestrictDisjoint(cs: seq<set<nat>>, d: set<nat>)
    requires Partition(cs)
    ensures Partition(Restrict(cs, d).classes)
    ensures forall i :: 0 <= i < |Restrict(cs, d).classes| ==> Restrict(cs, d).classes[i] <= Union(cs)
  {
    if cs != [] {
      var pre := cs[..|cs| - 1];
      assert Partition(pre);
      RestrictDisjoint(pre, d);
      var p := Restrict(pre, d);
      var c := cs[|cs| - 1] * d;
      var r := Restrict(cs, d);
      forall i | 0 <= i < |p.classes| ensures p.classes[i] * c == {} {
        forall x | x in p.classes[i] ensures x !in c {
          var k := LastIndex(pre, x);
          assert x in pre[k] && pre[k] == cs[k];
          assert cs[k] * cs[|cs| - 1] == {};
          assert x !in cs[k] * cs[|cs| - 1];
        }
      }
    }
  }

  /** `restrict_to_domain`. */
  function RestrictToDomain(r: EqRel, d: set<nat>): (q: EqRel)
    ensures NoEmpty(q.classes)
  {
    Restrict(r.classes, d)
  }

  /** Restriction keeps exactly the elements inside the domain and yields a valid relation again. */
  lemma RestrictValid(r: EqRel, d: set<nat>)
    requires Valid(r)
    ensures Valid(RestrictToDomain(r, d)) && InRange(RestrictToDomain(r, d))
    ensures Elems(RestrictToDomain(r, d)) == Elems(r) * d
  {
    var q := RestrictToDomain(r, d);
    assert q == Restrict(r.classes, d);
    RestrictMapsToLast(r.classes, d);
    RestrictCovers(r.classes, d);
    RestrictKeys(r.classes, d);
    LookupFindsClass(r, 0);
  }

  lemma RestrictMapsToLast(cs: seq<set<nat>>, d: set<nat>)
    ensures forall x :: x in Restrict(cs, d).elemMap ==>
      0 <= LastIndex(Restrict(cs, d).classes, x) == Restrict(cs, d).elemMap[x] < |Restrict(cs, d).classes|
  {
    var q := Restrict(cs, d);
    RestrictClasses(cs, d);
    RestrictKeys(cs, d);
    forall x | x in q.elemMap ensures 0 <= LastIndex(q.classes, x) == q.elemMap[x] < |q.classes| {
      var k := q.elemMap[x];
      assert x in cs[LastIndex(cs, x)] && x in d;
      assert x in q.classes[k];
      RestrictOrder(cs, d, LastIndex(q.classes, x), x);
    }
  }

  lemma RestrictCovers(cs: seq<set<nat>>, d: set<nat>)
    ensures forall k, x :: 0 <= k < |Restrict(cs, d).classes| && x in Restrict(cs, d).classes[k] ==>
      x in Restrict(cs, d).elemMap
  {
    var q := Restrict(cs, d);
    forall k, x | 0 <= k < |q.classes| && x in q.classes[k] ensures x in q.elemMap {
      RestrictOrder(cs, d, k, x);
    }
  }

  /** The restriction refines the relation it started from. */
  lemma RestrictRefines(r: EqRel, d: set<nat>)
    requires Valid(r)
    ensures InRange(r) && InRange(RestrictToDomain(r, d))
    ensures IsRefinementOf(RestrictToDomain(r, d), r)
  {
    var q := RestrictToDomain(r, d);
    RestrictValid(r, d);
    RestrictClasses(r.classes, d);
    LookupFindsClass(r, 0);
    forall x | x in Elems(q) ensures ClassOf(q, x) <= ClassOf(r, x) {
      assert ClassOf(q, x) == r.classes[LastIndex(r.classes, x)] * d;
    }
  }

  /** Restricting a partition gives a partition. */
  lemma RestrictPartition(r: EqRel, d: set<nat>)
    requires Partition(r.classes)
    ensures Partition(RestrictToDomain(r, d).classes)
  {
    RestrictDisjoint(r.classes, d);
  }

  // ------------------------------------------------------------ counting

  /** Σ |c|. */
  function SumSizes(cs: seq<set<nat>>): nat {
    if cs == [] then 0 else SumSizes(cs[..|cs| - 1]) + |cs[|cs| - 1]|
  }

  /** The number of non-empty classes. */
  function NonEmptyCount(cs: seq<set<nat>>): nat {
    if cs == [] then 0 else NonEmptyCount(cs[..|cs| - 1]) + (if cs[|cs| - 1] == {} then 0 else 1)
  }

  /** Σ (N - 1) over the classes of size N >= 1: the equivalences a class of N elements witnesses. */
  function Equivalences(cs: seq<set<nat>>): nat {
    if cs == [] then 0
    else Equivalences(cs[..|cs| - 1]) + (if cs[|cs| - 1] == {} then 0 else |cs[|cs| - 1]| - 1)
  }

  /** Disjoint classes hold as many elements together as separately. */
  lemma {:induction false} PartitionSize(cs: seq<set<nat>>)
    requires Partition(cs)
    ensures |Union(cs)| == SumSizes(cs) == Equivalences(cs) + NonEmptyCount(cs)
  {
    if cs != [] {
      var p := cs[..|cs| - 1];
      assert Partition(p);
      PartitionSize(p);
      forall x | x in Union(p) ensures x !in cs[|cs| - 1] {
        var i := LastIndex(p, x);
        assert x in p[i] && p[i] == cs[i];
        assert cs[i] * cs[|cs| - 1] == {};
        assert x !in cs[i] * cs[|cs| - 1];
      }
      assert Union(p) * cs[|cs| - 1] == {};
    }
  }

  /** `num_equivalences`: elements minus classes, `None` where the `usize` subtraction panics. */
  function NumEquivalences(r: EqRel): (n: Option<nat>)
    ensures n.Some? <==> |Elems(r)| >= |r.classes|
  {
    if |Elems(r)| >= |r.classes| then Some(|Elems(r)| - |r.classes|) else None
  }

  /** On a partition without empty classes, `num_equivalences` is Σ (N - 1), as documented. */
  lemma NumEquivalencesOfPartition(r: EqRel)
    requires Valid(r) && Partition(r.classes) && NoEmpty(r.classes)
    ensures NumEquivalences(r) == Some(Equivalences(r.classes))
  {
    LookupFindsClass(r, 0);
    PartitionSize(r.classes);
    NoEmptyCount(r.classes);
  }

  lemma {:induction false} NoEmptyCount(cs: seq<set<nat>>)
    requires NoEmpty(cs)
    ensures NonEmptyCount(cs) == |cs|
  {
    if cs != [] {
      NoEmptyCount(cs[..|cs| - 1]);
    }
  }

  /** Elements minus non-empty classes: the count the documentation describes, for any classes. */
  function CountEquivalences(r: EqRel): (n: Option<nat>)
    ensures n.Some? <==> |Elems(r)| >= NonEmptyCount(r.classes)
  {
    if |Elems(r)| >= NonEmptyCount(r.classes) then Some(|Elems(r)| - NonEmptyCount(r.classes)) else None
  }

  /** Without empty classes the corrected count agrees with `num_equivalences`. */
  lemma CountAgreesWithoutEmptyClasses(r: EqRel)
    requires NoEmpty(r.classes)
    ensures CountEquivalences(r) == NumEquivalences(r)
  {
    NoEmptyCount(r.classes);
  }

  /** On every partition, empty classes included, the corrected count is Σ (N - 1). */
  lemma CountEquivalencesOfPartition(r: EqRel)
    requires Valid(r) && Partition(r.classes)
    ensures CountEquivalences(r) == Some(Equivalences(r.classes))
  {
    LookupFindsClass(r, 0);
    PartitionSize(r.classes);
  }

  // ------------------------------------------------------------ equality

  /** A valid relation is determined by its classes: `==` on `EqRel` compares class lists. */
  lemma ValidDetermined(a: EqRel, b: EqRel)
    requires Valid(a) && Valid(b) && a.classes == b.classes
    ensures a == b
  {
    forall x ensures x in a.elemMap <==> x in b.elemMap {
      if x in a.elemMap {
        assert x in b.classes[LastIndex(b.classes, x)];
      }
      if x in b.elemMap {
        assert x in a.classes[LastIndex(a.classes, x)];
      }
    }
    assert a.elemMap.Keys == b.elemMap.Keys;
  }

  /** `s` with every newline written as a bar. */
  function BarsForNewlines(s: string): (r: string)
    ensures |r| == |s|
    ensures forall i :: 0 <= i < |s| ==> r[i] == (if s[i] == '\n' then '|' else s[i])
  {
    seq(|s|, i requires 0 <= i < |s| => if s[i] == '\n' then '|' else s[i])
  }

  lemma {:induction false} SegmentsIgnoreSeparatorKind(s: string)
    ensures Segments(BarsForNewlines(s)) == Segments(s)
  {
    if s != [] {
      SegmentsIgnoreSeparatorKind(s[1..]);
      assert BarsForNewlines(s)[1..] == BarsForNewlines(s[1..]);
    }
  }

  /** Classes may be separated by `|` or by newlines: the two spellings parse alike. */
  lemma SeparatorsInterchangeable(s: string)
    ensures Parse(BarsForNewlines(s)) == Parse(s)
  {
    SegmentsIgnoreSeparatorKind(s);
  }

  // ------------------------------------------------------------ writing

  predicate IsLeast(m: nat, c: set<nat>) {
    m in c && forall y :: y in c ==> m <= y
  }

  lemma MinExists(c: set<nat>)
    requires c != {}
    ensures exists m :: IsLeast(m, c)
    decreases |c|
  {
    var x :| x in c;
    var rest := c - {x};
    if rest == {} {
      assert c == {x};
      assert IsLeast(x, c);
    } else {
      MinExists(rest);
      var m :| IsLeast(m, rest);
      var least := if x < m then x else m;
      assert c == rest + {x};
      assert IsLeast(least, c);
    }
  }

  /** The least element of a non-empty class. */
  function Least(c: set<nat>): (m: nat)
    requires c != {}
    ensures m in c && forall y :: y in c ==> m <= y
  {
    MinExists(c);
    var m :| IsLeast(m, c);
    m
  }

  /** `itertools::sorted` on a class: its elements in strictly ascending order. */
  function Sorted(c: set<nat>): (r: seq<nat>)
    ensures forall x :: x in r <==> x in c
    ensures forall i, j :: 0 <= i < j < |r| ==> r[i] < r[j]
    decreases |c|
  {
    if c == {} then []
    else
      var m := Least(c);
      var rest := Sorted(c - {m});
      assert forall j :: 0 <= j < |rest| ==> m < rest[j] by {
        forall j | 0 <= j < |rest| ensures m < rest[j] {
          assert rest[j] in c - {m};
        }
      }
      [m] + rest
  }

  /** The decimal renderings of the elements. */
  function Words(xs: seq<nat>): (ws: seq<string>)
    ensures |ws| == |xs| && forall i :: 0 <= i < |xs| ==> ws[i] == NatToString(xs[i])
  {
    if xs == [] then [] else [NatToString(xs[0])] + Words(xs[1..])
  }

  /** Elements written out separated by single spaces. */
  function LineOf(xs: seq<nat>): string {
    Join(Words(xs), ' ')
  }

  /** A line written from elements below 2^32 holds no class separator and reads back as their set. */
  lemma LineParses(xs: seq<nat>)
    requires forall i :: 0 <= i < |xs| ==> xs[i] < U32Bound
    ensures NoneIn(LineOf(xs), IsClassSep)
    ensures ParseClass(Tokens(LineOf(xs))) == Success(set x | x in xs)
  {
    var ws := Words(xs);
    forall i | 0 <= i < |ws| ensures ws[i] != "" && NoneIn(ws[i], IsWhitespace) && NoneIn(ws[i], IsClassSep) {
      assert AllDigits(ws[i]);
    }
    JoinNoneIn(ws, ' ', IsClassSep);
    TokensOfJoin(ws);
    forall i | 0 <= i < |xs| ensures ParseU32(ws[i]) == Some(xs[i]) {
      U32RoundTrip(xs[i]);
    }
    var r := ParseClass(ws);
    ParseClassElements(ws);
    assert r.value == set x | x in xs;
  }

  /** Segments whose classes are known parse to exactly those classes. */
  lemma ClassesParse(segs: seq<string>, vs: seq<set<nat>>)
    requires |segs| == |vs|
    requires forall i :: 0 <= i < |segs| ==> ParseClass(Tokens(segs[i])) == Success(vs[i])
    ensures ParseClasses(segs) == Success(vs)
  {
    MapSegmentsOf(SegmentClass, segs, vs);
  }

  /** The text of the classes written as lines of elements, joined by `sep`. */
  function Render(xss: seq<seq<nat>>, sep: char): string {
    Join(Lines(xss), sep)
  }

  function Lines(xss: seq<seq<nat>>): (ls: seq<string>)
    ensures |ls| == |xss| && forall i :: 0 <= i < |xss| ==> ls[i] == LineOf(xss[i])
  {
    if xss == [] then [] else [LineOf(xss[0])] + Lines(xss[1..])
  }

  /** The sets of the element lists. */
  function SetsOf(xss: seq<seq<nat>>): (cs: seq<set<nat>>)
    ensures |cs| == |xss| && forall i :: 0 <= i < |xss| ==> cs[i] == set x | x in xss[i]
  {
    if xss == [] then [] else [set x | x in xss[0]] + SetsOf(xss[1..])
  }

  /** Parsing a rendered list of classes gives the relation built from those classes. */
  lemma ParseRendered(xss: seq<seq<nat>>, sep: char)
    requires |xss| >= 1 && IsClassSep(sep)
    requires forall i, j :: 0 <= i < |xss| && 0 <= j < |xss[i]| ==> xss[i][j] < U32Bound
    ensures Parse(Render(xss, sep)) == Success(FromClasses(SetsOf(xss)))
  {
    var ls := Lines(xss);
    forall i | 0 <= i < |xss|
      ensures NoneIn(ls[i], IsClassSep) && ParseClass(Tokens(ls[i])) == Success(SetsOf(xss)[i])
    {
      LineParses(xss[i]);
    }
    SplitJoin(ls, sep, IsClassSep);
    ClassesParse(ls, SetsOf(xss));
  }

  /** The classes that are written: all except the singleton of the original program's id 0. */
  function Kept(cs: seq<set<nat>>): (ks: seq<set<nat>>)
    ensures forall i :: 0 <= i < |ks| ==> ks[i] != {0} && ks[i] in cs
  {
    if cs == [] then []
    else
      var last := cs[|cs| - 1];
      Kept(cs[..|cs| - 1]) + (if last == {0} then [] else [last])
  }

  /**
   * `get_equiv_file_contents_for_subject`: one line per kept class, its
   * elements ascending and space-separated, lines joined by newlines, and
   * a final newline.
   */
  function Format(cs: seq<set<nat>>): string {
    Join(ClassLines(Kept(cs)), '\n') + "\n"
  }

  function ClassLines(cs: seq<set<nat>>): (ls: seq<string>)
    ensures |ls| == |cs| && forall i :: 0 <= i < |cs| ==> ls[i] == LineOf(Sorted(cs[i]))
  {
    if cs == [] then [] else [LineOf(Sorted(cs[0]))] + ClassLines(cs[1..])
  }

  lemma {:induction false} JoinSnoc(ps: seq<string>, q: string, c: char)
    requires |ps| >= 1
    ensures Join(ps + [q], c) == Join(ps, c) + [c] + q
  {
    if |ps| > 1 {
      assert (ps + [q])[1..] == ps[1..] + [q];
      JoinSnoc(ps[1..], q, c);
    }
  }

  /** The classes a written file holds when it is read back: the kept classes and a trailing empty one. */
  function ReadBack(cs: seq<set<nat>>): seq<set<nat>> {
    (if Kept(cs) == [] then [{}] else Kept(cs)) + [{}]
  }

  predicate Bounded(cs: seq<set<nat>>) {
    forall i, x :: 0 <= i < |cs| && x in cs[i] ==> x < U32Bound
  }

  /**
   * Reading back a written file (as written): every kept class comes back,
   * followed by an empty class for the text after the final newline.
   */
  lemma ParseOfFormat(cs: seq<set<nat>>)
    requires Bounded(cs)
    ensures Parse(Format(cs)) == Success(FromClasses(ReadBack(cs)))
  {
    var ks := Kept(cs);
    var ls := ClassLines(ks);
    var segs := (if ks == [] then [""] else ls) + [""];
    assert Tokens("") == [] by {
      assert Split("", IsWhitespace) == [""];
    }
    if ks == [] {
      assert Format(cs) == Join(segs, '\n');
    } else {
      JoinSnoc(ls, "", '\n');
      assert Format(cs) == Join(segs, '\n');
    }
    forall i | 0 <= i < |segs|
      ensures NoneIn(segs[i], IsClassSep) && ParseClass(Tokens(segs[i])) == Success(ReadBack(cs)[i])
    {
      if ks != [] && i < |ks| {
        var xs := Sorted(ks[i]);
        var k :| 0 <= k < |cs| && cs[k] == ks[i];
        forall j | 0 <= j < |xs| ensures xs[j] < U32Bound {
          assert xs[j] in cs[k];
        }
        LineParses(xs);
        assert (set x | x in xs) == ks[i];
      }
    }
    SplitJoin(segs, '\n', IsClassSep);
    ClassesParse(segs, ReadBack(cs));
  }

  lemma {:induction false} KeptPartition(cs: seq<set<nat>>)
    requires Partition(cs)
    ensures Partition(Kept(cs))
  {
    if cs != [] {
      var pre := cs[..|cs| - 1];
      var last := cs[|cs| - 1];
      assert Partition(pre);
      KeptPartition(pre);
      var kp := Kept(pre);
      if last != {0} {
        forall i | 0 <= i < |kp| ensures kp[i] * last == {} {
          var j :| 0 <= j < |pre| && pre[j] == kp[i];
          assert cs[j] * cs[|cs| - 1] == {};
        }
      }
    }
  }

  lemma KeptNoEmpty(cs: seq<set<nat>>)
    requires NoEmpty(cs)
    ensures NoEmpty(Kept(cs))
  {
    var ks := Kept(cs);
    forall i | 0 <= i < |ks| ensures ks[i] != {} {
      var k :| 0 <= k < |cs| && cs[k] == ks[i];
    }
  }

  lemma {:induction false} KeptEquivalences(cs: seq<set<nat>>)
    ensures Equivalences(Kept(cs)) == Equivalences(cs)
  {
    if cs != [] {
      var pre := cs[..|cs| - 1];
      var last := cs[|cs| - 1];
      KeptEquivalences(pre);
      var kp := Kept(pre);
      if last != {0} {
        var ks := kp + [last];
        assert ks[..|ks| - 1] == kp;
      } else {
        assert Kept(cs) == kp + [] == kp;
        assert |last| == 1;
      }
    }
  }

  lemma ReadBackPartition(cs: seq<set<nat>>)
    requires Partition(cs)
    ensures Partition(ReadBack(cs)) && Equivalences(ReadBack(cs)) == Equivalences(cs)
  {
    KeptPartition(cs);
    KeptEquivalences(cs);
    var ks := Kept(cs);
    var w := ReadBack(cs);
    assert w[..|w| - 1] == (if ks == [] then [{}] else ks);
  }

  // ------------------------------------------------------------ counting a written file

  /**
   * `num_equivalences` of a written file read back (as written): the
   * trailing empty class counts as one class too many, so the count falls
   * one short of Σ (N - 1), and the subtraction underflows when there is
   * nothing to count.
   */
  lemma NumEquivalencesOfWrittenFile(cs: seq<set<nat>>)
    requires Bounded(cs) && Partition(cs) && NoEmpty(cs)
    ensures Parse(Format(cs)).Success?
    ensures NumEquivalences(Parse(Format(cs)).value) ==
      if Kept(cs) != [] && Equivalences(cs) >= 1 then Some(Equivalences(cs) - 1) else None
  {
    ParseOfFormat(cs);
    NumEquivalencesOfReadBack(cs);
  }

  lemma NumEquivalencesOfReadBack(cs: seq<set<nat>>)
    requires Partition(cs) && NoEmpty(cs)
    ensures NumEquivalences(FromClasses(ReadBack(cs))) ==
      if Kept(cs) != [] && Equivalences(cs) >= 1 then Some(Equivalences(cs) - 1) else None
  {
    var r := FromClasses(ReadBack(cs));
    var e, k := Equivalences(cs), |Kept(cs)|;
    ReadBackSize(cs);
    ReadBackElems(cs);
    assert k == 0 ==> e == 0 by {
      KeptEquivalences(cs);
    }
    OneClassTooMany(r, e, k);
  }

  /** Counting with one class more than the `k` that hold the elements' `e` equivalences. */
  lemma OneClassTooMany(r: EqRel, e: nat, k: nat)
    requires |Elems(r)| == e + k && |r.classes| == (if k == 0 then 2 else k + 1)
    requires k == 0 ==> e == 0
    ensures NumEquivalences(r) == if k != 0 && e >= 1 then Some(e - 1) else None
  {
  }

  lemma ReadBackElems(cs: seq<set<nat>>)
    requires Partition(cs) && NoEmpty(cs)
    ensures |Elems(FromClasses(ReadBack(cs)))| == Equivalences(cs) + |Kept(cs)|
  {
    var w := ReadBack(cs);
    var r := FromClasses(w);
    ReadBackSize(cs);
    ReadBackPartition(cs);
    PartitionSize(w);
    assert |Union(w)| == Equivalences(cs) + |Kept(cs)|;
    LookupFindsClass(r, 0);
  }

  /** A written file reads back one class more than it has lines, and those lines' classes are not empty. */
  lemma ReadBackSize(cs: seq<set<nat>>)
    requires NoEmpty(cs)
    ensures |ReadBack(cs)| == (if Kept(cs) == [] then 2 else |Kept(cs)| + 1)
    ensures NonEmptyCount(ReadBack(cs)) == |Kept(cs)|
  {
    var w := ReadBack(cs);
    var ks := Kept(cs);
    assert w[..|w| - 1] == (if ks == [] then [{}] else ks);
    if ks != [] {
      KeptNoEmpty(cs);
      NoEmptyCount(ks);
    } else {
      var e: seq<set<nat>> := [{}];
      assert e[..0] == [];
      assert NonEmptyCount(e) == 0;
    }
  }

  /**
   * The corrected count, elements minus non-empty classes, reads the
   * written file back as exactly Σ (N - 1) over the classes that were
   * written from (the dropped singleton `{0}` counts nothing either way).
   */
  lemma CountEquivalencesOfWrittenFile(cs: seq<set<nat>>)
    requires Bounded(cs) && Partition(cs)
    ensures Parse(Format(cs)).Success?
    ensures CountEquivalences(Parse(Format(cs)).value) == Some(Equivalences(cs))
  {
    ParseOfFormat(cs);
    ReadBackPartition(cs);
    CountEquivalencesOfPartition(FromClasses(ReadBack(cs)));
  }

  /**
   * The classes `{0}` and `{1, 2}` are written as `"1 2\n"`, which reads
   * back with `num_equivalences` 0 rather than 1; the corrected count
   * gives 1.
   */
  lemma WrittenFileUndercounts(a: seq<set<nat>>)
    requires a == [{0}, {1, 2}]
    ensures Equivalences(a) == 1
    ensures Parse(Format(a)).Success?
    ensures NumEquivalences(Parse(Format(a)).value) == Some(0)
    ensures CountEquivalences(Parse(Format(a)).value) == Some(1)
  {
    assert a[..1] == [{0}] && a[..1][..0] == [];
    assert {1, 2} != {0} by {
      assert 1 in {1, 2};
    }
    assert Kept(a[..1]) == [];
    assert Kept(a) == [{1, 2}];
    assert Equivalences(a[..1]) == 0;
    assert |{1, 2}| == 2;
    assert Partition(a) by {
      assert a[0] * a[1] == {};
    }
    assert NoEmpty(a) by {
      assert 0 in a[0] && 1 in a[1];
    }
    NumEquivalencesOfWrittenFile(a);
    CountEquivalencesOfWrittenFile(a);
  }

  /**
   * Two singleton classes are written as `"1\n2\n"`, which reads back as
   * two elements in three classes: `num_equivalences` underflows (a panic
   * in a debug build), while the corrected count gives 0.
   */
  lemma WrittenFileUnderflows(b: seq<set<nat>>)
    requires b == [{1}, {2}]
    ensures Parse(Format(b)).Success?
    ensures NumEquivalences(Parse(Format(b)).value) == None
    ensures CountEquivalences(Parse(Format(b)).value) == Some(0)
  {
    assert b[..1] == [{1}] && b[..1][..0] == [];
    assert {1} != {0} && {2} != {0} by {
      assert 1 in {1} && 2 in {2};
    }
    assert Kept(b[..1]) == [{1}];
    assert Kept(b) == [{1}, {2}];
    assert Equivalences(b[..1]) == 0;
    assert Equivalences(b) == 0;
    assert Partition(b) by {
      assert b[0] * b[1] == {};
    }
    assert NoEmpty(b) by {
      assert 1 in b[0] && 2 in b[1];
    }
    NumEquivalencesOfWrittenFile(b);
    CountEquivalencesOfWrittenFile(b);
  }

  // ------------------------------------------------------------ documented examples

  /** In a relation built from a partition, `lookup` of an element finds the class holding it. */
  lemma LookupInPartition(cs: seq<set<nat>>, x: nat, j: nat)
    requires Partition(cs) && j < |cs| && x in cs[j]
    ensures Lookup(FromClasses(cs), x) == Some(cs[j])
  {
    LookupFindsClass(FromClasses(cs), x);
    PartitionLastIndex(cs, x, j);
  }

  /** The text `"0 1 2|3 4|5 6 7"` of the `lookup` and `num_equivalences` examples. */
  lemma ThreeClassesText(s: string, xss: seq<seq<nat>>)
    requires s == "0 1 2|3 4|5 6 7" && xss == [[0, 1, 2], [3, 4], [5, 6, 7]]
    ensures Parse(s) == Success(FromClasses(SetsOf(xss)))
  {
    assert Words(xss[0]) == ["0", "1", "2"];
    assert Words(xss[1]) == ["3", "4"];
    assert Words(xss[2]) == ["5", "6", "7"];
    assert LineOf(xss[0]) == "0 1 2" by {
      assert ["0", "1", "2"][1..] == ["1", "2"] && ["1", "2"][1..] == ["2"];
    }
    assert LineOf(xss[1]) == "3 4" by {
      assert ["3", "4"][1..] == ["4"];
    }
    assert LineOf(xss[2]) == "5 6 7" by {
      assert ["5", "6", "7"][1..] == ["6", "7"] && ["6", "7"][1..] == ["7"];
    }
    var ls := Lines(xss);
    assert ls == ["0 1 2", "3 4", "5 6 7"];
    assert ls[1..] == ["3 4", "5 6 7"] && ls[1..][1..] == ["5 6 7"];
    assert Join(ls[1..], '|') == "3 4" + "|" + "5 6 7" == "3 4|5 6 7";
    assert Join(ls, '|') == "0 1 2" + "|" + "3 4|5 6 7" == s;
    ParseRendered(xss, '|');
  }

  lemma ThreeClassesSets(xss: seq<seq<nat>>)
    requires xss == [[0, 1, 2], [3, 4], [5, 6, 7]]
    ensures SetsOf(xss) == [{0, 1, 2}, {3, 4}, {5, 6, 7}]
  {
    var cs := SetsOf(xss);
    assert cs[0] == {0, 1, 2};
    assert cs[1] == {3, 4};
    assert cs[2] == {5, 6, 7};
  }

  /** The classes of `"0 1 2|3 4|5 6 7"` form a partition without empty classes. */
  lemma ThreeClassesPartition(cs: seq<set<nat>>)
    requires cs == [{0, 1, 2}, {3, 4}, {5, 6, 7}]
    ensures Partition(cs) && NoEmpty(cs)
  {
    assert 0 in cs[0] && 3 in cs[1] && 5 in cs[2];
    assert cs[0] * cs[1] == {} && cs[0] * cs[2] == {} && cs[1] * cs[2] == {};
  }

  lemma ThreeClassesEquivalences(cs: seq<set<nat>>)
    requires cs == [{0, 1, 2}, {3, 4}, {5, 6, 7}]
    ensures Equivalences(cs) == 5
  {
    assert |cs[0]| == 3 && |cs[1]| == 2 && |cs[2]| == 3;
    assert cs[..2] == [cs[0], cs[1]] && cs[..2][..1] == [cs[0]];
    assert Equivalences(cs[..2][..1]) == 2;
  }

  /** util.rs: in `"0 1 2|3 4|5 6 7"` every element looks up its own class, and others look up nothing. */
  lemma LookupExample(cs: seq<set<nat>>, x: nat)
    requires cs == [{0, 1, 2}, {3, 4}, {5, 6, 7}]
    ensures x <= 2 ==> Lookup(FromClasses(cs), x) == Some({0, 1, 2})
    ensures 3 <= x <= 4 ==> Lookup(FromClasses(cs), x) == Some({3, 4})
    ensures 5 <= x <= 7 ==> Lookup(FromClasses(cs), x) == Some({5, 6, 7})
    ensures x > 7 ==> Lookup(FromClasses(cs), x) == None
  {
    if x <= 2 {
      assert x in cs[0];
      ThreeClassesPartition(cs);
      LookupInPartition(cs, x, 0);
    } else if x <= 4 {
      assert x in cs[1];
      ThreeClassesPartition(cs);
      LookupInPartition(cs, x, 1);
    } else if x <= 7 {
      assert x in cs[2];
      ThreeClassesPartition(cs);
      LookupInPartition(cs, x, 2);
    } else {
      assert x !in cs[0] && x !in cs[1] && x !in cs[2];
      assert x !in Union(cs);
      LookupFindsClass(FromClasses(cs), x);
    }
  }

  /** util.rs: `num_equivalences` of `"0 1 2|3 4|5 6 7"` is 2 + 1 + 2 = 5. */
  lemma NumEquivalencesExample(cs: seq<set<nat>>)
    requires cs == [{0, 1, 2}, {3, 4}, {5, 6, 7}]
    ensures NumEquivalences(FromClasses(cs)) == Some(5)
  {
    ThreeClassesEquivalences(cs);
    ThreeClassesPartition(cs);
    NumEquivalencesOfPartition(FromClasses(cs));
  }
}
