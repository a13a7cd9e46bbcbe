/**
 * Delta debugging (`ddmin`) from src/delta.rs: shrink a configuration that
 * fails an oracle to a 1-minimal failing sub-configuration.  The oracle
 * answers `true` for a good configuration and `false` for a bad one; it is
 * a pure function here.
 *
 * One round at granularity `g` cuts the configuration into chunks of
 * `|c| / g` elements (the last one shorter), recurses on the first failing
 * chunk, else on the first failing complement of a chunk, else doubles the
 * granularity, and stops once every chunk is a single element.
 */
module Delta {
  import opened Wrappers

  // ------------------------------------------------------------ subsequences

  /** `a` is `b` with some elements deleted, the rest kept in order. */
  predicate IsSubseq<T(==)>(a: seq<T>, b: seq<T>)
    decreases |b|
  {
    if a == [] then true
    else if b == [] then false
    else (a[0] == b[0] && IsSubseq(a[1..], b[1..])) || IsSubseq(a, b[1..])
  }

  lemma {:induction false} SubseqRefl<T>(a: seq<T>)
    ensures IsSubseq(a, a)
    decreases |a|
  {
    if a != [] {
      SubseqRefl(a[1..]);
    }
  }

  lemma {:induction false} SubseqExtendLeft<T>(a: seq<T>, x: seq<T>, b: seq<T>)
    requires IsSubseq(a, b)
    ensures IsSubseq(a, x + b)
    decreases |x|
  {
    if x == [] {
      assert x + b == b;
    } else if a != [] {
      SubseqExtendLeft(a, x[1..], b);
      assert (x + b)[1..] == x[1..] + b;
      assert IsSubseq(a, (x + b)[1..]);
    }
  }

  /** Subsequences of two parts make a subsequence of the whole. */
  lemma {:induction false} SubseqAppend<T>(a: seq<T>, b: seq<T>, c: seq<T>, d: seq<T>)
    requires IsSubseq(a, b) && IsSubseq(c, d)
    ensures IsSubseq(a + c, b + d)
    decreases |b|
  {
    if a == [] {
      SubseqExtendLeft(c, b, d);
      assert a + c == c;
    } else {
      assert (b + d)[1..] == b[1..] + d;
      if a[0] == b[0] && IsSubseq(a[1..], b[1..]) {
        SubseqAppend(a[1..], b[1..], c, d);
        assert (a + c)[1..] == a[1..] + c;
      } else {
        SubseqAppend(a, b[1..], c, d);
      }
    }
  }

  lemma {:induction false} SubseqTrans<T>(a: seq<T>, b: seq<T>, c: seq<T>)
    requires IsSubseq(a, b) && IsSubseq(b, c)
    ensures IsSubseq(a, c)
    decreases |c|
  {
    if a != [] {
      if b[0] == c[0] && IsSubseq(b[1..], c[1..]) {
        if a[0] == b[0] && IsSubseq(a[1..], b[1..]) {
          SubseqTrans(a[1..], b[1..], c[1..]);
        } else {
          SubseqTrans(a, b[1..], c[1..]);
        }
      } else {
        SubseqTrans(a, b, c[1..]);
      }
    }
  }

  /** A subsequence holds no more copies of any element than the whole. */
  lemma {:induction false} SubseqMultiset<T>(a: seq<T>, b: seq<T>)
    requires IsSubseq(a, b)
    ensures multiset(a) <= multiset(b)
    decreases |b|
  {
    if a != [] {
      assert a == [a[0]] + a[1..] && b == [b[0]] + b[1..];
      if a[0] == b[0] && IsSubseq(a[1..], b[1..]) {
        SubseqMultiset(a[1..], b[1..]);
      } else {
        SubseqMultiset(a, b[1..]);
      }
    }
  }

  // ------------------------------------------------------------ chunks

  function Concat<T>(ds: seq<seq<T>>): seq<T> {
    if ds == [] then [] else ds[0] + Concat(ds[1..])
  }

  lemma {:induction false} ConcatAppend<T>(xs: seq<seq<T>>, ys: seq<seq<T>>)
    ensures Concat(xs + ys) == Concat(xs) + Concat(ys)
    decreases |xs|
  {
    if xs == [] {
      assert xs + ys == ys;
    } else {
      ConcatAppend(xs[1..], ys);
      assert (xs + ys)[0] == xs[0];
      assert (xs + ys)[1..] == xs[1..] + ys;
      calc {
        Concat(xs + ys);
        xs[0] + Concat(xs[1..] + ys);
        xs[0] + (Concat(xs[1..]) + Concat(ys));
        (xs[0] + Concat(xs[1..])) + Concat(ys);
      }
    }
  }

  /** Every piece is non-empty, so there are at most as many pieces as elements. */
  lemma {:induction false} ConcatLength<T>(ds: seq<seq<T>>)
    requires forall i :: 0 <= i < |ds| ==> |ds[i]| >= 1
    ensures |Concat(ds)| >= |ds|
    ensures |Concat(ds)| == |ds| ==> forall i :: 0 <= i < |ds| ==> |ds[i]| == 1
    decreases |ds|
  {
    if ds != [] {
      ConcatLength(ds[1..]);
      assert forall i :: 1 <= i < |ds| ==> ds[1..][i - 1] == ds[i];
    }
  }

  /** `c.chunks(b)`: consecutive pieces of `b` elements, the last one possibly shorter. */
  function Chunks<T>(c: seq<T>, b: nat): (ds: seq<seq<T>>)
    requires b >= 1
    ensures Concat(ds) == c
    ensures forall i :: 0 <= i < |ds| ==> 1 <= |ds[i]| <= b
    ensures |c| <= |ds| * b
    decreases |c|
  {
    if c == [] then []
    else if |c| <= b then [c]
    else [c[..b]] + Chunks(c[b..], b)
  }

  /** The pieces with piece `i` left out. */
  function Remove<T>(ds: seq<seq<T>>, i: nat): seq<seq<T>>
    requires i < |ds|
  {
    ds[..i] + ds[i + 1..]
  }

  /** The whole is the pieces before `i`, piece `i`, and the pieces after it. */
  lemma {:induction false} ConcatAround<T>(ds: seq<seq<T>>, i: nat)
    requires i < |ds|
    ensures Concat(ds) == Concat(ds[..i]) + ds[i] + Concat(ds[i + 1..])
    decreases i
  {
    if i == 0 {
      assert ds[..0] == [];
    } else {
      var tl := ds[1..];
      ConcatAround(tl, i - 1);
      assert tl[..i - 1] == ds[..i][1..];
      assert tl[i..] == ds[i + 1..];
      assert tl[i - 1] == ds[i];
      assert ds[..i][0] == ds[0];
    }
  }

  /** ... and the complement of piece `i` is the pieces before it and the pieces after it. */
  lemma ConcatSplit<T>(ds: seq<seq<T>>, i: nat)
    requires i < |ds|
    ensures Concat(ds) == Concat(ds[..i]) + ds[i] + Concat(ds[i + 1..])
    ensures Concat(Remove(ds, i)) == Concat(ds[..i]) + Concat(ds[i + 1..])
  {
    ConcatAround(ds, i);
    ConcatAppend(ds[..i], ds[i + 1..]);
  }

  lemma SubseqInfix<T>(x: seq<T>, y: seq<T>, z: seq<T>)
    ensures IsSubseq(y, x + y + z)
  {
    SubseqRefl(y);
    assert IsSubseq<T>([], z);
    SubseqAppend(y, y, [], z);
    assert y + [] == y;
    SubseqExtendLeft(y, x, y + z);
    assert x + y + z == x + (y + z);
  }

  lemma SubseqDrop<T>(x: seq<T>, y: seq<T>, z: seq<T>)
    ensures IsSubseq(x + z, x + y + z)
  {
    SubseqRefl(x);
    SubseqRefl(z);
    SubseqExtendLeft(z, y, z);
    SubseqAppend(x, x, z, y + z);
    assert x + y + z == x + (y + z);
  }

  /** A piece, and everything but a piece, are subsequences of the whole. */
  lemma PiecesAreSubseqs<T>(ds: seq<seq<T>>, i: nat)
    requires i < |ds|
    ensures IsSubseq(ds[i], Concat(ds))
    ensures IsSubseq(Concat(Remove(ds, i)), Concat(ds))
  {
    ConcatSplit(ds, i);
    SubseqInfix(Concat(ds[..i]), ds[i], Concat(ds[i + 1..]));
    SubseqDrop(Concat(ds[..i]), ds[i], Concat(ds[i + 1..]));
  }

  /** With single-element pieces, leaving out piece `i` leaves out element `i`. */
  lemma SingletonPieces<T>(ds: seq<seq<T>>, i: nat)
    requires i < |ds|
    requires forall j :: 0 <= j < |ds| ==> |ds[j]| == 1
    ensures |Concat(ds)| == |ds|
    ensures Concat(Remove(ds, i)) == Concat(ds)[..i] + Concat(ds)[i + 1..]
  {
    ConcatSplit(ds, i);
    ConcatUpper(ds);
    ConcatUpper(ds[..i]);
  }

  lemma {:induction false} ConcatUpper<T>(ds: seq<seq<T>>)
    requires forall j :: 0 <= j < |ds| ==> |ds[j]| == 1
    ensures |Concat(ds)| == |ds|
    decreases |ds|
  {
    if ds != [] {
      ConcatUpper(ds[1..]);
    }
  }

  // ------------------------------------------------------------ the two loops

  /** The first piece at or after `from` that fails the oracle, or `|ds|`: the first `for` loop. */
  function FirstFailingPiece<T>(ds: seq<seq<T>>, oracle: seq<T> -> bool, from: nat): (j: nat)
    requires from <= |ds|
    ensures from <= j <= |ds|
    ensures j < |ds| ==> !oracle(ds[j])
    ensures forall m :: from <= m < j ==> oracle(ds[m])
    decreases |ds| - from
  {
    if from == |ds| then from
    else if !oracle(ds[from]) then from
    else FirstFailingPiece(ds, oracle, from + 1)
  }

  /** The first piece at or after `from` whose complement fails the oracle, or `|ds|`: the second `for` loop. */
  function FirstFailingComplement<T>(ds: seq<seq<T>>, oracle: seq<T> -> bool, from: nat): (j: nat)
    requires from <= |ds|
    ensures from <= j <= |ds|
    ensures j < |ds| ==> !oracle(Concat(Remove(ds, j)))
    ensures forall m :: from <= m < j ==> oracle(Concat(Remove(ds, m)))
    decreases |ds| - from
  {
    if from == |ds| then from
    else if !oracle(Concat(Remove(ds, from))) then from
    else FirstFailingComplement(ds, oracle, from + 1)
  }

  /** Removing any one element makes the oracle pass. */
  predicate OneMinimal<T>(r: seq<T>, oracle: seq<T> -> bool) {
    forall i :: 0 <= i < |r| ==> oracle(r[..i] + r[i + 1..])
  }

  lemma DivisionFacts(n: nat, g: nat)
    requires 2 <= g <= n
    ensures 1 <= n / g < n
    ensures (n / g) * g <= n
  {
  }

  lemma MoreChunks(n: nat, b: nat, g: nat, k: nat)
    requires b >= 1 && b * g <= n <= k * b
    ensures g <= k
  {
  }

  /** Cutting at granularity `g` gives at least `g` pieces, each shorter than the whole. */
  lemma ChunkFacts<T>(c: seq<T>, g: nat)
    requires 2 <= g <= |c|
    ensures var ds := Chunks(c, |c| / g);
      g <= |ds| <= |c| && forall i :: 0 <= i < |ds| ==> 1 <= |ds[i]| < |c|
  {
    var b := |c| / g;
    DivisionFacts(|c|, g);
    var ds := Chunks(c, b);
    MoreChunks(|c|, b, g, |ds|);
    ConcatLength(ds);
  }

  /**
   * The complement of a piece is a shorter subsequence of the whole with
   * at least one element per remaining piece; of two pieces, the
   * complement of one is the other.
   */
  lemma ComplementFacts<T>(ds: seq<seq<T>>, j: nat)
    requires j < |ds|
    requires forall i :: 0 <= i < |ds| ==> |ds[i]| >= 1
    ensures var nabla := Concat(Remove(ds, j));
      |ds| - 1 <= |nabla| < |Concat(ds)| && IsSubseq(nabla, Concat(ds)) &&
      (|ds| == 2 ==> nabla == ds[1 - j])
  {
    PiecesAreSubseqs(ds, j);
    ComplementLength(ds, j);
    if |ds| == 2 {
      ComplementOfTwo(ds, j);
    }
  }

  lemma ComplementLength<T>(ds: seq<seq<T>>, j: nat)
    requires j < |ds|
    requires forall i :: 0 <= i < |ds| ==> |ds[i]| >= 1
    ensures |ds| - 1 <= |Concat(Remove(ds, j))| < |Concat(ds)|
  {
    ConcatSplit(ds, j);
    assert forall i :: 0 <= i < |ds| - 1 ==> Remove(ds, j)[i] == ds[if i < j then i else i + 1];
    ConcatLength(Remove(ds, j));
  }

  lemma ComplementOfTwo<T>(ds: seq<seq<T>>, j: nat)
    requires j < |ds| == 2
    ensures Concat(Remove(ds, j)) == ds[1 - j]
  {
    assert Remove(ds, j) == [ds[1 - j]];
    assert Concat([ds[1 - j]]) == ds[1 - j] + Concat([]);
  }

  /** When every piece is one element and every complement passes, the whole is 1-minimal. */
  lemma AllComplementsPass<T>(ds: seq<seq<T>>, oracle: seq<T> -> bool)
    requires forall i :: 0 <= i < |ds| ==> |ds[i]| >= 1
    requires |Concat(ds)| == |ds|
    requires forall m :: 0 <= m < |ds| ==> oracle(Concat(Remove(ds, m)))
    ensures OneMinimal(Concat(ds), oracle)
  {
    ConcatLength(ds);
    var c := Concat(ds);
    forall m | 0 <= m < |c| ensures oracle(c[..m] + c[m + 1..]) {
      SingletonPieces(ds, m);
    }
  }

  function Max(a: nat, b: nat): nat {
    if a < b then b else a
  }

  /**
   * `ddmin2(bad_config, granularity, oracle)`.  The granularity never
   * exceeds the length (the source panics otherwise) and is at least 2 on
   * every call `dd` makes.  The result is a non-empty subsequence of the
   * input; a failing input gives a failing result; and the result is
   * 1-minimal, unless it is a single failing element found as a chunk.
   */
  function DdMin2<T(==)>(c: seq<T>, g: nat, oracle: seq<T> -> bool): (r: seq<T>)
    requires 2 <= g <= |c|
    ensures |r| >= 1
    ensures IsSubseq(r, c)
    ensures !oracle(c) ==> !oracle(r)
    ensures OneMinimal(r, oracle) || (|r| == 1 && !oracle(r))
    decreases |c|, |c| - g
  {
    var ds := Chunks(c, |c| / g);
    var k := |ds|;
    ChunkFacts(c, g);
    var i := FirstFailingPiece(ds, oracle, 0);
    if i < k then
      PiecesAreSubseqs(ds, i);
      if |ds[i]| == 1 then ds[i]
      else
        var r := DdMin2(ds[i], 2, oracle);
        SubseqTrans(r, ds[i], c);
        r
    else
      var j := FirstFailingComplement(ds, oracle, 0);
      if j < k then
        var nabla := Concat(Remove(ds, j));
        ComplementFacts(ds, j);
        var r := DdMin2(nabla, Max(2, k - 1), oracle);
        SubseqTrans(r, nabla, c);
        r
      else if k < |c| then
        DdMin2(c, if 2 * k < |c| then 2 * k else |c|, oracle)
      else
        SubseqRefl(c);
        AllComplementsPass(ds, oracle);
        c
  }

  /** `dd`: `ddmin2` from granularity 2; a configuration of fewer than two elements panics. */
  function Dd<T(==)>(c: seq<T>, oracle: seq<T> -> bool): (r: Option<seq<T>>)
    ensures r.None? <==> |c| < 2
    ensures r.Some? ==> |r.value| >= 1 && IsSubseq(r.value, c)
    ensures r.Some? && !oracle(c) ==> !oracle(r.value)
    ensures r.Some? ==> OneMinimal(r.value, oracle) || (|r.value| == 1 && !oracle(r.value))
  {
    if |c| < 2 then None else Some(DdMin2(c, 2, oracle))
  }

  // ------------------------------------------------------------ the tests' oracles

  /** Every element but the one at `m` survives its removal. */
  lemma StillThere<T>(r: seq<T>, i: nat, m: nat)
    requires i < |r| && m < |r| && i != m
    ensures r[i] in r[..m] + r[m + 1..]
  {
    if i < m {
      assert (r[..m] + r[m + 1..])[i] == r[i];
    } else {
      assert (r[..m] + r[m + 1..])[i - 1] == r[i];
    }
  }

  /**
   * With an oracle that passes a configuration exactly when it does not
   * contain `x`, the result is the single element `x`: on `[0, 1, 2, 3, 4]`
   * and on `[0, 0, 0, 0, 0]` with `x = 0` it is `[0]`.
   */
  lemma AvoidOne(c: seq<int>, x: int)
    requires x in c && |c| >= 2
    ensures Dd(c, (s: seq<int>) => x !in s) == Some([x])
  {
    var oracle := (s: seq<int>) => x !in s;
    var r := DdMin2(c, 2, oracle);
    var ix :| 0 <= ix < |r| && r[ix] == x;
    if |r| >= 2 {
      StillThere(r, ix, if ix == 0 then 1 else 0);
    }
    assert r == [x];
  }

  /**
   * With an oracle that passes exactly the configurations whose elements
   * all satisfy `ok`, the result is a single element of the input that does
   * not: on `[0, 1, 2, 4, 6, 8, 10, 12, 1, 1, 1]` with "is even" it is `[1]`.
   */
  lemma AllSatisfy(c: seq<int>, ok: int -> bool)
    requires |c| >= 2 && exists i :: 0 <= i < |c| && !ok(c[i])
    ensures var r := Dd(c, (s: seq<int>) => forall y :: y in s ==> ok(y));
      r.Some? && |r.value| == 1 && r.value[0] in c && !ok(r.value[0])
  {
    var oracle := (s: seq<int>) => forall y :: y in s ==> ok(y);
    var r := DdMin2(c, 2, oracle);
    var i :| 0 <= i < |c| && !ok(c[i]);
    var bad := c[i];
    assert bad in c && !ok(bad);
    assert !oracle(c);
    var y :| y in r && !ok(y);
    var m :| 0 <= m < |r| && r[m] == y;
    if |r| >= 2 {
      StillThere(r, m, if m == 0 then 1 else 0);
    }
    SubseqMultiset(r, c);
    assert r[0] in multiset(r);
  }

  /**
   * With an oracle that fails exactly the configurations holding both `x`
   * and `y`, on a configuration holding each once, the result is `x` and
   * `y` and nothing else: on `[0, 1, 2, 4, 6, 8, 10, 12]` it is two
   * elements, 0 and 1.
   */
  lemma AvoidPair(c: seq<int>, x: int, y: int)
    requires x != y && multiset(c)[x] == 1 && multiset(c)[y] == 1
    ensures var r := Dd(c, (s: seq<int>) => !(x in s && y in s));
      r.Some? && |r.value| == 2 && x in r.value && y in r.value
  {
    var oracle := (s: seq<int>) => !(x in s && y in s);
    TwoDistinct(c, x, y);
    var r := DdMin2(c, 2, oracle);
    assert !oracle(c);
    assert x in r && y in r;
    PairMembers(r, x, y);
    SubseqMultiset(r, c);
    OnlyPair(r, x, y);
  }

  lemma TwoDistinct(c: seq<int>, x: int, y: int)
    requires x != y && multiset(c)[x] == 1 && multiset(c)[y] == 1
    ensures x in c && y in c && |c| >= 2
  {
    assert x in multiset(c) && y in multiset(c);
    var cx :| 0 <= cx < |c| && c[cx] == x;
    var cy :| 0 <= cy < |c| && c[cy] == y;
    assert cx != cy;
  }

  /** A 1-minimal configuration for "not both `x` and `y`" that holds both holds nothing else. */
  lemma PairMembers(r: seq<int>, x: int, y: int)
    requires x in r && y in r
    requires OneMinimal(r, (s: seq<int>) => !(x in s && y in s))
    ensures forall m :: 0 <= m < |r| ==> r[m] == x || r[m] == y
  {
    var ix :| 0 <= ix < |r| && r[ix] == x;
    var iy :| 0 <= iy < |r| && r[iy] == y;
    forall m | 0 <= m < |r| ensures r[m] == x || r[m] == y {
      if r[m] != x && r[m] != y {
        StillThere(r, ix, m);
        StillThere(r, iy, m);
      }
    }
  }

  /** A sequence of `x`s and `y`s holding each exactly once has two elements. */
  lemma OnlyPair(r: seq<int>, x: int, y: int)
    requires x != y && x in r && y in r
    requires forall m :: 0 <= m < |r| ==> r[m] == x || r[m] == y
    requires multiset(r)[x] <= 1 && multiset(r)[y] <= 1
    ensures |r| == 2
  {
    assert multiset(r) == multiset{x, y} by {
      forall z ensures multiset(r)[z] == multiset{x, y}[z] {
        if z != x && z != y {
          assert z !in r;
        }
      }
    }
    assert |r| == |multiset(r)|;
  }
}
