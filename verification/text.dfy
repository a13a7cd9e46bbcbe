/**
 * Rust's `str::split` on a character predicate and its inverse, `join`
 * with a one-character separator: the text handling shared by the
 * equivalence-class files (cornelius/src/util.rs) and the id-table entries
 * (cornelius/src/subjects.rs).
 */
module Text {
  predicate NoneIn(s: string, isSep: char -> bool) {
    forall i :: 0 <= i < |s| ==> !isSep(s[i])
  }

  /** The number of characters of `s` that satisfy `isSep`. */
  function Count(s: string, isSep: char -> bool): nat {
    if s == [] then 0 else (if isSep(s[0]) then 1 else 0) + Count(s[1..], isSep)
  }

  /**
   * `str::split` on a character predicate: the maximal separator-free
   * pieces, one more than there are separators (so `""` splits into `[""]`).
   */
  function Split(s: string, isSep: char -> bool): (r: seq<string>)
    ensures |r| == Count(s, isSep) + 1
    ensures forall i :: 0 <= i < |r| ==> NoneIn(r[i], isSep)
  {
    if s == [] then [""]
    else
      var rest := Split(s[1..], isSep);
      if isSep(s[0]) then [""] + rest
      else
        var first := [s[0]] + rest[0];
        assert NoneIn(first, isSep) by {
          assert forall i :: 1 <= i < |first| ==> first[i] == rest[0][i - 1];
        }
        [first] + rest[1..]
  }

  /** `join` with a one-character separator. */
  function Join(ps: seq<string>, c: char): (r: string)
    ensures |ps| == 1 ==> r == ps[0]
  {
    if |ps| == 0 then "" else if |ps| == 1 then ps[0] else ps[0] + [c] + Join(ps[1..], c)
  }

  lemma {:induction false} SplitPrefix(p: string, t: string, isSep: char -> bool)
    requires NoneIn(p, isSep)
    ensures Split(p + t, isSep) == [p + Split(t, isSep)[0]] + Split(t, isSep)[1..]
  {
    if p == [] {
      assert p + t == t;
      assert p + Split(t, isSep)[0] == Split(t, isSep)[0];
      assert [Split(t, isSep)[0]] + Split(t, isSep)[1..] == Split(t, isSep);
    } else {
      SplitPrefix(p[1..], t, isSep);
      assert (p + t)[1..] == p[1..] + t;
      assert [p[0]] + (p[1..] + Split(t, isSep)[0]) == p + Split(t, isSep)[0];
    }
  }

  /** Splitting what `Join` glued together gives back the pieces. */
  lemma {:induction false} SplitJoin(ps: seq<string>, c: char, isSep: char -> bool)
    requires |ps| >= 1 && isSep(c)
    requires forall i :: 0 <= i < |ps| ==> NoneIn(ps[i], isSep)
    ensures Split(Join(ps, c), isSep) == ps
  {
    if |ps| == 1 {
      SplitPrefix(ps[0], "", isSep);
      assert ps[0] + "" == ps[0];
    } else {
      SplitJoin(ps[1..], c, isSep);
      var t := Join(ps[1..], c);
      assert ([c] + t)[1..] == t;
      assert Split([c] + t, isSep) == [""] + ps[1..];
      SplitPrefix(ps[0], [c] + t, isSep);
      assert ps[0] + [c] + t == ps[0] + ([c] + t);
      assert ps[0] + "" == ps[0];
      assert [ps[0]] + ps[1..] == ps;
    }
  }

  /** Joining one more piece adds the separator and the piece at the end. */
  lemma {:induction false} JoinSnoc(ps: seq<string>, x: string, c: char)
    requires |ps| >= 1
    ensures Join(ps + [x], c) == Join(ps, c) + [c] + x
    decreases |ps|
  {
    if |ps| > 1 {
      JoinSnoc(ps[1..], x, c);
      assert (ps + [x])[1..] == ps[1..] + [x];
    }
  }

  /** A joined string holds no separator its pieces and the glue do not hold. */
  lemma {:induction false} JoinNoneIn(ps: seq<string>, c: char, isSep: char -> bool)
    requires !isSep(c)
    requires forall i :: 0 <= i < |ps| ==> NoneIn(ps[i], isSep)
    ensures NoneIn(Join(ps, c), isSep)
  {
    if |ps| > 1 {
      JoinNoneIn(ps[1..], c, isSep);
      var t := Join(ps[1..], c);
      var s := ps[0] + [c] + t;
      forall i | 0 <= i < |s| ensures !isSep(s[i]) {
        if i < |ps[0]| {
          assert s[i] == ps[0][i];
        } else if i > |ps[0]| {
          assert s[i] == t[i - |ps[0]| - 1];
        }
      }
    }
  }
}
