/**
 * The `java.lang.String` methods that the type-guided and string rules of
 * cornelius/src/rewrites.rs rely on: `startsWith`, `indexOf` and
 * `lastIndexOf`, over strings as sequences of Dafny `char`s, which are
 * Unicode scalar values; Java's UTF-16 code units agree with them outside
 * the supplementary planes.
 */
module JavaLibrary {
  import opened PegTerm
  import opened Rewrites

  /** `s.startsWith(p)`. */
  predicate StartsWith(s: string, p: string) {
    |p| <= |s| && s[..|p|] == p
  }

  /** Neither string is a prefix of the other. */
  predicate PrefixIncomparable(a: string, b: string) {
    !StartsWith(a, b) && !StartsWith(b, a)
  }

  /** The first position at or after `k` where `p` occurs in `s`, or `-1`. */
  function IndexFrom(s: string, p: string, k: nat): (r: int)
    requires k <= |s|
    ensures r == -1 || (k <= r <= |s| && StartsWith(s[r..], p))
    ensures r >= -1
    ensures r == -1 ==> forall j :: k <= j <= |s| ==> !StartsWith(s[j..], p)
    ensures r >= 0 ==> forall j :: k <= j < r ==> !StartsWith(s[j..], p)
    decreases |s| - k
  {
    if StartsWith(s[k..], p) then k
    else if k == |s| then -1
    else IndexFrom(s, p, k + 1)
  }

  /** `s.indexOf(p)`: the first occurrence of `p`, `0` for the empty string, `-1` when there is none. */
  function IndexOf(s: string, p: string): (r: int)
    ensures r >= -1
    ensures r == -1 <==> forall j :: 0 <= j <= |s| ==> !StartsWith(s[j..], p)
    ensures r >= 0 ==> r <= |s| && StartsWith(s[r..], p) && forall j :: 0 <= j < r ==> !StartsWith(s[j..], p)
  {
    IndexFrom(s, p, 0)
  }

  /** The last position at or before `k` where `p` occurs in `s`, or `-1`. */
  function LastIndexFrom(s: string, p: string, k: nat): (r: int)
    requires k <= |s|
    ensures r == -1 || (0 <= r <= k && StartsWith(s[r..], p))
    ensures r >= -1
    ensures r == -1 ==> forall j :: 0 <= j <= k ==> !StartsWith(s[j..], p)
    ensures r >= 0 ==> forall j :: r < j <= k ==> !StartsWith(s[j..], p)
    decreases k
  {
    if StartsWith(s[k..], p) then k
    else if k == 0 then -1
    else LastIndexFrom(s, p, k - 1)
  }

  /** `s.lastIndexOf(p)`: the last occurrence of `p`, `|s|` for the empty string, `-1` when there is none. */
  function LastIndexOf(s: string, p: string): (r: int)
    ensures r >= -1
    ensures r == -1 <==> forall j :: 0 <= j <= |s| ==> !StartsWith(s[j..], p)
    ensures r >= 0 ==> r <= |s| && StartsWith(s[r..], p) && forall j :: r < j <= |s| ==> !StartsWith(s[j..], p)
  {
    LastIndexFrom(s, p, |s|)
  }

  /** Every string starts with the empty string (`string-starts-with-empty`), and occurs at the front and the back. */
  lemma EmptyPrefix(s: string)
    ensures StartsWith(s, "")
    ensures IndexOf(s, "") == 0 && LastIndexOf(s, "") == |s|
  {
    assert StartsWith(s[0..], "");
    assert StartsWith(s[|s|..], "");
  }

  /** Two prefixes of one string are comparable: the shorter is a prefix of the longer. */
  lemma {:induction false} CommonPrefixes(s: string, a: string, b: string)
    requires StartsWith(s, a) && StartsWith(s, b)
    ensures !PrefixIncomparable(a, b)
  {
    if |a| <= |b| {
      assert b[..|a|] == s[..|b|][..|a|] == s[..|a|] == a;
    } else {
      assert a[..|b|] == s[..|a|][..|b|] == s[..|b|] == b;
    }
  }

  /**
   * `string-starts-with` as written: the right-hand side is the left-hand
   * side with `||` replaced by `!=`.  The two differ whenever both calls
   * return `true`: `"ab".startsWith("a") || "ab".startsWith("ab")` is
   * `true`, while `"ab".startsWith("a") != "ab".startsWith("ab")` is `false`.
   */
  lemma StartsWithRuleAsWritten()
    ensures Strings()[0].name == "string-starts-with"
    ensures Strings()[0].lhs.PApp? && Strings()[0].lhs.op == Op.Or
    ensures Strings()[0].rhs == A(Op.Neq, Strings()[0].lhs.args)
    ensures var s, a, b := "ab", "a", "ab";
      (StartsWith(s, a) || StartsWith(s, b)) != (StartsWith(s, a) != StartsWith(s, b))
  {
    assert StartsWith("ab", "a");
    assert StartsWith("ab", "ab");
  }

  /**
   * The rewrite from `||` to `!=` is valid for every receiver exactly when
   * the two prefixes are incomparable: then at most one of the calls can
   * return `true`; otherwise the longer prefix is a receiver on which both do.
   */
  lemma StartsWithRuleWhenIncomparable(a: string, b: string)
    ensures PrefixIncomparable(a, b) <==>
      forall s :: (StartsWith(s, a) || StartsWith(s, b)) == (StartsWith(s, a) != StartsWith(s, b))
  {
    if PrefixIncomparable(a, b) {
      forall s ensures (StartsWith(s, a) || StartsWith(s, b)) == (StartsWith(s, a) != StartsWith(s, b)) {
        if StartsWith(s, a) && StartsWith(s, b) {
          CommonPrefixes(s, a, b);
        }
      }
    } else {
      var s := if |a| <= |b| then b else a;
      assert StartsWith(a, a) && StartsWith(b, b);
      assert StartsWith(s, a) && StartsWith(s, b);
    }
  }
}
