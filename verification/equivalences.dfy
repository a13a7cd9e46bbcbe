/**
 * The equivalence list of serializer/src/main/java/serializer/peg/Equivalences.java:
 * an append-only list of id pairs that refuses a pair of equal ids and
 * is meant to refuse an id that already sits in another pair.  As
 * written, the set of ids already seen is consulted but never added to,
 * so the second refusal never happens; `AddIntended` is the class as its
 * documentation describes it.
 */
module Equivalences {
  import opened Wrappers
  import opened JavaLang
  import opened Decimal

  /** `equivalences` and `alreadySeenIds`. */
  datatype Equivalences = Equivalences(pairs: seq<(int, int)>, seen: set<int>)

  const Empty := Equivalences([], {})

  /** The message of the refusal for an id already in another pair. */
  function SeenMessage(a: int, b: int): string {
    "Tried to add equivalence (" + IntToString(a) + ", " + IntToString(b)
    + "), but at least one element is already in another equivalence"
  }

  /** `addEquivalence(a, b)` as written: the seen ids are checked, the pair is appended, and nothing marks `a` or `b` as seen. */
  function Add(e: Equivalences, a: int, b: int): (r: Outcome<Equivalences>)
    ensures a in e.seen || b in e.seen ==> r == Throws(Throw(IllegalState, SeenMessage(a, b)))
    ensures a !in e.seen && b !in e.seen && a == b
            ==> r == Throws(Throw(IllegalState, "Cannot register an id as equivalent to itself"))
    ensures r.Returns? <==> a !in e.seen && b !in e.seen && a != b
    ensures r.Returns? ==> r.value.pairs == e.pairs + [(a, b)] && r.value.seen == e.seen
  {
    if a in e.seen || b in e.seen then Throws(Throw(IllegalState, SeenMessage(a, b)))
    else if a == b then Throws(Throw(IllegalState, "Cannot register an id as equivalent to itself"))
    else Returns(Equivalences(e.pairs + [(a, b)], e.seen))
  }

  /** `getEquivalences`: a copy of the pairs, which later additions do not reach. */
  function Get(e: Equivalences): (r: seq<(int, int)>)
    ensures |r| == |e.pairs| && forall i :: 0 <= i < |r| ==> r[i] == e.pairs[i]
  {
    e.pairs
  }

  /** Every id of the pairs, the ids the class documents as seen. */
  function Ids(ps: seq<(int, int)>): (r: set<int>)
    ensures forall i :: 0 <= i < |ps| ==> ps[i].0 in r && ps[i].1 in r
    ensures forall x :: x in r ==> exists i :: 0 <= i < |ps| && (ps[i].0 == x || ps[i].1 == x)
  {
    if ps == [] then {}
    else
      var rest := Ids(ps[..|ps| - 1]);
      assert forall i :: 0 <= i < |ps| - 1 ==> ps[..|ps| - 1][i] == ps[i];
      rest + {ps[|ps| - 1].0, ps[|ps| - 1].1}
  }

  /** The documented invariant: no pair relates an id to itself and no id is in two pairs. */
  predicate Disjoint(ps: seq<(int, int)>) {
    (forall i :: 0 <= i < |ps| ==> ps[i].0 != ps[i].1)
    && (forall i, j :: 0 <= i < j < |ps| ==>
          ps[i].0 != ps[j].0 && ps[i].0 != ps[j].1 && ps[i].1 != ps[j].0 && ps[i].1 != ps[j].1)
  }

  /** `addEquivalence` as its documentation describes it: both ids become seen. */
  function AddIntended(e: Equivalences, a: int, b: int): (r: Outcome<Equivalences>)
    ensures r.Returns? <==> a !in e.seen && b !in e.seen && a != b
    ensures r.Returns? ==> r.value.pairs == e.pairs + [(a, b)] && r.value.seen == e.seen + {a, b}
    ensures r.Throws? ==> r.exc.kind == IllegalState
  {
    if a in e.seen || b in e.seen then Throws(Throw(IllegalState, SeenMessage(a, b)))
    else if a == b then Throws(Throw(IllegalState, "Cannot register an id as equivalent to itself"))
    else Returns(Equivalences(e.pairs + [(a, b)], e.seen + {a, b}))
  }

  /** The pairs a sequence of additions leaves, stopping at the first refusal. */
  function AddAll(e: Equivalences, adds: seq<(int, int)>, intended: bool): (r: Outcome<Equivalences>)
    decreases |adds|
  {
    if adds == [] then Returns(e)
    else
      var e1 :- if intended then AddIntended(e, adds[0].0, adds[0].1) else Add(e, adds[0].0, adds[0].1);
      AddAll(e1, adds[1..], intended)
  }

  /** The seen set of the intended class is exactly the ids of its pairs, and the pairs stay disjoint. */
  ghost predicate Kept(e: Equivalences) {
    e.seen == Ids(e.pairs) && Disjoint(e.pairs)
  }

  /** One intended addition keeps the documented invariant. */
  lemma AddIntendedKeeps(e: Equivalences, a: int, b: int)
    requires Kept(e)
    ensures AddIntended(e, a, b).Returns? ==> Kept(AddIntended(e, a, b).value)
  {
    if AddIntended(e, a, b).Returns? {
      var ps := e.pairs + [(a, b)];
      assert ps[..|ps| - 1] == e.pairs;
      forall i | 0 <= i < |e.pairs|
        ensures e.pairs[i].0 != a && e.pairs[i].0 != b && e.pairs[i].1 != a && e.pairs[i].1 != b
      {
        assert e.pairs[i].0 in Ids(e.pairs) && e.pairs[i].1 in Ids(e.pairs);
      }
    }
  }

  /** Any run of intended additions from the empty list leaves no id in two pairs. */
  lemma {:induction false} AddAllIntendedDisjoint(e: Equivalences, adds: seq<(int, int)>)
    requires Kept(e)
    ensures AddAll(e, adds, true).Returns? ==> Disjoint(AddAll(e, adds, true).value.pairs)
    decreases |adds|
  {
    if adds != [] {
      AddIntendedKeeps(e, adds[0].0, adds[0].1);
      if AddIntended(e, adds[0].0, adds[0].1).Returns? {
        AddAllIntendedDisjoint(AddIntended(e, adds[0].0, adds[0].1).value, adds[1..]);
      }
    }
  }

  /** As written the seen set never grows, so the only refusal left is a pair of equal ids. */
  lemma {:induction false} AddAllNeverSees(adds: seq<(int, int)>)
    ensures AddAll(Empty, adds, false).Returns? <==> forall i :: 0 <= i < |adds| ==> adds[i].0 != adds[i].1
    ensures AddAll(Empty, adds, false).Returns? ==> AddAll(Empty, adds, false).value == Equivalences(adds, {})
  {
    AddAllFrom([], adds);
  }

  lemma {:induction false} AddAllFrom(ps: seq<(int, int)>, adds: seq<(int, int)>)
    ensures AddAll(Equivalences(ps, {}), adds, false).Returns? <==> forall i :: 0 <= i < |adds| ==> adds[i].0 != adds[i].1
    ensures AddAll(Equivalences(ps, {}), adds, false).Returns?
            ==> AddAll(Equivalences(ps, {}), adds, false).value == Equivalences(ps + adds, {})
    decreases |adds|
  {
    if adds != [] {
      AddAllFrom(ps + [adds[0]], adds[1..]);
      assert ps + [adds[0]] + adds[1..] == ps + adds;
      assert forall i :: 1 <= i < |adds| ==> adds[i] == adds[1..][i - 1];
    }
  }

  /** As written, `(1, 2)` then `(1, 3)` is accepted and puts id 1 in two pairs; the intended class refuses it. */
  lemma SharedIdAccepted()
    ensures AddAll(Empty, [(1, 2), (1, 3)], false) == Returns(Equivalences([(1, 2), (1, 3)], {}))
    ensures !Disjoint([(1, 2), (1, 3)])
    ensures AddAll(Empty, [(1, 2), (1, 3)], true) == Throws(Throw(IllegalState, SeenMessage(1, 3)))
  {
    AddAllNeverSees([(1, 2), (1, 3)]);
    assert Empty.pairs + [(1, 2)] == [(1, 2)] && Empty.seen + {1, 2} == {1, 2};
    var e1 := Equivalences([(1, 2)], {1, 2});
    assert AddIntended(Empty, 1, 2) == Returns(e1);
    assert [(1, 2), (1, 3)][1..] == [(1, 3)];
    assert AddAll(e1, [(1, 3)], true) == Throws(Throw(IllegalState, SeenMessage(1, 3)));
  }
}
