/**
 * `List.sort(null)` (natural ordering) for the two element types the
 * serializer sorts: `Integer` node ids and `String` variable names.  The
 * sort is written once, as an insertion sort over any total order, and
 * proved to return a sorted permutation of its input; for a total order
 * on distinct-or-equal values that is the one list `TimSort` returns too.
 */
module JavaCollections {

  /** `le` relates every pair one way or the other. */
  ghost predicate Total<T(!new)>(le: (T, T) -> bool) {
    forall a, b :: le(a, b) || le(b, a)
  }

  /** Every neighbouring pair is in order. */
  predicate Sorted<T>(s: seq<T>, le: (T, T) -> bool) {
    forall i :: 0 < i < |s| ==> le(s[i - 1], s[i])
  }

  /** `x` placed before the first element it is at most. */
  function Insert<T(!new)>(x: T, s: seq<T>, le: (T, T) -> bool): (r: seq<T>)
    requires Total(le)
    requires Sorted(s, le)
    ensures Sorted(r, le)
    ensures multiset(r) == multiset(s) + multiset{x}
    ensures |r| == |s| + 1
    ensures r[0] == x || (s != [] && r[0] == s[0])
  {
    if s == [] || le(x, s[0]) then [x] + s
    else
      var rest := Insert(x, s[1..], le);
      assert s == [s[0]] + s[1..];
      [s[0]] + rest
  }

  /** A sorted permutation of `s`. */
  function Sort<T(!new)>(s: seq<T>, le: (T, T) -> bool): (r: seq<T>)
    requires Total(le)
    ensures Sorted(r, le)
    ensures multiset(r) == multiset(s)
    ensures |r| == |s|
  {
    if s == [] then []
    else
      assert s == [s[0]] + s[1..];
      Insert(s[0], Sort(s[1..], le), le)
  }

  function IntLe(): (int, int) -> bool {
    (a: int, b: int) => a <= b
  }

  /**
   * `String.compareTo(b) <= 0`: lexicographic on characters, a prefix first.
   * Java compares UTF-16 code units, so the two orders differ once a
   * supplementary character meets one from U+E000 to U+FFFF.
   */
  predicate StrLe(a: string, b: string) {
    a == [] || (b != [] && (a[0] < b[0] || (a[0] == b[0] && StrLe(a[1..], b[1..]))))
  }

  function StringLe(): (string, string) -> bool {
    (a: string, b: string) => StrLe(a, b)
  }

  lemma {:induction false} StrLeTotalAt(a: string, b: string)
    ensures StrLe(a, b) || StrLe(b, a)
  {
    if a != [] && b != [] && a[0] == b[0] {
      StrLeTotalAt(a[1..], b[1..]);
    }
  }

  lemma {:induction false} StrLeAntisymmetric(a: string, b: string)
    requires StrLe(a, b) && StrLe(b, a)
    ensures a == b
  {
    if a != [] && b != [] {
      StrLeAntisymmetric(a[1..], b[1..]);
      assert a == [a[0]] + a[1..] && b == [b[0]] + b[1..];
    }
  }

  lemma IntOrderTotal()
    ensures Total(IntLe())
  {
  }

  /** The string order is total, so sorting names is defined. */
  lemma StringOrderTotal()
    ensures Total(StringLe())
  {
    forall a: string, b: string ensures StringLe()(a, b) || StringLe()(b, a) {
      StrLeTotalAt(a, b);
    }
  }

  /** Sorted lists with the same elements under an antisymmetric order are equal. */
  lemma {:induction false} SortedUnique(r: seq<string>, s: seq<string>)
    requires Sorted(r, StringLe()) && Sorted(s, StringLe())
    requires multiset(r) == multiset(s)
    ensures r == s
    decreases |r|
  {
    if r != [] {
      assert r[0] in multiset(s);
      assert s != [];
      assert s[0] in multiset(r);
      SortedHeadLeast(r, s[0]);
      SortedHeadLeast(s, r[0]);
      StrLeAntisymmetric(r[0], s[0]);
      var r', s' := r[1..], s[1..];
      assert r == [r[0]] + r' && s == [s[0]] + s';
      CancelHead(r[0], r', s');
      assert Sorted(r', StringLe()) by {
        forall i | 0 < i < |r'| ensures StrLe(r'[i - 1], r'[i]) {
          assert r'[i - 1] == r[i] && r'[i] == r[i + 1];
        }
      }
      assert Sorted(s', StringLe()) by {
        forall i | 0 < i < |s'| ensures StrLe(s'[i - 1], s'[i]) {
          assert s'[i - 1] == s[i] && s'[i] == s[i + 1];
        }
      }
      SortedUnique(r', s');
    }
  }

  lemma CancelHead<T>(x: T, a: seq<T>, b: seq<T>)
    requires multiset([x] + a) == multiset([x] + b)
    ensures multiset(a) == multiset(b)
  {
    assert multiset([x] + a) == multiset{x} + multiset(a);
    assert multiset([x] + b) == multiset{x} + multiset(b);
    forall y ensures multiset(a)[y] == multiset(b)[y] {
      assert (multiset{x} + multiset(a))[y] == (multiset{x} + multiset(b))[y];
    }
  }

  /** The head of a sorted list of strings is at most every element. */
  lemma {:induction false} SortedHeadLeast(s: seq<string>, x: string)
    requires Sorted(s, StringLe()) && x in multiset(s)
    ensures StrLe(s[0], x)
    decreases |s|
  {
    if s[0] != x {
      assert s == [s[0]] + s[1..];
      assert x in multiset(s[1..]);
      SortedHeadLeast(s[1..], x);
      StrLeTransitive(s[0], s[1], x);
    } else {
      StrLeReflexive(x);
    }
  }

  lemma {:induction false} StrLeReflexive(a: string)
    ensures StrLe(a, a)
  {
    if a != [] {
      StrLeReflexive(a[1..]);
    }
  }

  lemma {:induction false} StrLeTransitive(a: string, b: string, c: string)
    requires StrLe(a, b) && StrLe(b, c)
    ensures StrLe(a, c)
  {
    if a != [] && b != [] && c != [] && a[0] == b[0] && b[0] == c[0] {
      StrLeTransitive(a[1..], b[1..], c[1..]);
    }
  }
}
