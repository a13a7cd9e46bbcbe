/**
 * The string helpers of serializer/src/main/java/serializer/peg/Util.java
 * that the translator and the mutant bookkeeping share: the canonical
 * method names built from a parsed declaration and from a Major mutation
 * signature, the parameter list of a declaration, and `parseInt`.
 * Declarations are given by the parts the helpers read (their name,
 * whether they are constructors or static, and their parameters' types
 * and names) in place of JavaParser nodes.
 */
module SerializerUtil {
  import opened Wrappers
  import opened Primitives
  import opened Decimal
  import opened JavaLang
  import Text

  // ------------------------------------------------------------ declarations

  /** What `fromDecl` reads of a parameter's type. */
  datatype ParamType =
    | ClassOrInterfaceType(simpleName: string)
      /** `asString()` of the array type, and the component's simple name when the component is a class or interface type. */
    | ArrayType(text: string, componentClass: Option<string>)
    | OtherType(text: string)

  datatype Parameter = Parameter(typ: ParamType, name: string, varArgs: bool)

  datatype Declaration = Declaration(isConstructor: bool, name: string, params: seq<Parameter>, isStatic: bool)

  /**
   * A parameter's entry in a canonical name: a class or interface type by
   * its simple name, `[]` added for varargs, and an array type by its text,
   * or by its component's simple name and `[]` when that is a class type,
   * which replaces any varargs suffix.
   */
  function TypeEntry(p: Parameter): (r: string)
    ensures p.typ.ClassOrInterfaceType? ==> r == p.typ.simpleName + (if p.varArgs then "[]" else "")
    ensures p.typ.OtherType? ==> r == p.typ.text + (if p.varArgs then "[]" else "")
    ensures p.typ.ArrayType? ==> r == if p.typ.componentClass.Some? then p.typ.componentClass.value + "[]" else p.typ.text
  {
    var entry := match p.typ
      case ClassOrInterfaceType(n) => n
      case ArrayType(text, _) => text
      case OtherType(text) => text;
    var entry := if p.varArgs then entry + "[]" else entry;
    match p.typ
    case ArrayType(text, component) =>
      if component.Some? then component.value + "[]" else text
    case _ => entry
  }

  function TypeEntries(ps: seq<Parameter>): (r: seq<string>)
    ensures |r| == |ps| && forall i :: 0 <= i < |ps| ==> r[i] == TypeEntry(ps[i])
  {
    seq(|ps|, i requires 0 <= i < |ps| => TypeEntry(ps[i]))
  }

  /** `CanonicalNames.fromDecl(decl)`: `name(type1,...,typeN)`, with `<init>` for a constructor. */
  function FromDecl(d: Declaration): (r: string)
    ensures |r| > 0 && r[|r| - 1] == ')'
  {
    (if d.isConstructor then "<init>" else d.name) + "(" + Text.Join(TypeEntries(d.params), ',') + ")"
  }

  /** `CanonicalNames.fromDecl(decl, cu, owner)`: `pkg.Owner@name(types)`. */
  function FromDeclIn(pkg: Option<string>, owner: string, d: Declaration): string {
    (if pkg.Some? then pkg.value + "." else "") + owner + "@" + FromDecl(d)
  }

  /**
   * `getParameterList(n)`: the parameter names in order, after `this`
   * when the declaration is not static.
   */
  function GetParameterList(d: Declaration): (r: seq<string>)
    ensures |r| == |d.params| + (if d.isStatic then 0 else 1)
    ensures !d.isStatic ==> r[0] == "this"
    ensures var k := if d.isStatic then 0 else 1;
      forall i :: 0 <= i < |d.params| ==> r[i + k] == d.params[i].name
  {
    var names := seq(|d.params|, i requires 0 <= i < |d.params| => d.params[i].name);
    if d.isStatic then names else ["this"] + names
  }

  // ------------------------------------------------------------ Major signatures

  /** Each parameter cut after its last `.`. */
  function StripQualifiers(ps: seq<string>): (r: seq<string>)
    ensures |r| == |ps|
    ensures forall i :: 0 <= i < |ps| ==> '.' !in r[i]
    ensures forall i :: 0 <= i < |ps| ==> |r[i]| <= |ps[i]| && r[i] == ps[i][|ps[i]| - |r[i]|..]
    ensures forall i :: 0 <= i < |ps| && '.' !in ps[i] ==> r[i] == ps[i]
  {
    seq(|ps|, i requires 0 <= i < |ps| => ps[i][LastIndexOfChar(ps[i], '.') + 1..])
  }

  /**
   * `CanonicalNames.fromMajorSig(majorSig)`: a signature without a method
   * part (no `@` piece after splitting) comes back unchanged; more than two
   * pieces throw IllegalArgumentException; otherwise the method part
   * `name(p1,...,pN)` with each parameter cut after its last `.`.  A
   * missing parenthesis makes `substring` throw.
   */
  function FromMajorSig(sig: string): (r: Outcome<string>)
    ensures '@' !in sig ==> r == Returns(sig)
    ensures r.Throws? ==> r.exc.kind in {IllegalArgument, IndexOutOfBounds}
  {
    var split := Split(sig, '@');
    if |split| == 1 then Returns(sig)
    else if |split| != 2 then
      Throws(Throw(IllegalArgument, "majorSig " + sig + " is not a well formed Major signature"))
    else MethodPart(split[1])
  }

  /** The second half of `fromMajorSig`: the name before `(`, and the parameters between `(` and `)` without qualifiers. */
  function MethodPart(m: string): (r: Outcome<string>)
    ensures r.Throws? ==> r.exc.kind == IndexOutOfBounds
  {
    var openIdx := IndexOfChar(m, '(');
    var closeIdx := IndexOfChar(m, ')');
    var name :- Substring(m, 0, openIdx);
    var rawParams :- Substring(m, openIdx + 1, closeIdx);
    Returns(name + "(" + Text.Join(StripQualifiers(Split(rawParams, ',')), ',') + ")")
  }

  /** More than one `@` between non-empty parts is not a Major signature. */
  lemma FromMajorSigRejectsTwoAts(a: string, b: string, c: string)
    requires a != "" && b != "" && c != ""
    requires '@' !in a && '@' !in b && '@' !in c
    ensures FromMajorSig(a + "@" + b + "@" + c).Throws?
    ensures FromMajorSig(a + "@" + b + "@" + c).exc.kind == IllegalArgument
  {
    var s := a + "@" + b + "@" + c;
    assert Text.Join([a, b, c], '@') == s by {
      assert Text.Join([a, b, c][1..], '@') == b + "@" + c by {
        assert [a, b, c][1..] == [b, c] && [b, c][1..] == [c];
      }
    }
    SplitJoin([a, b, c], '@');
  }

  /** Text without `c` is one piece. */
  lemma SplitWithout(s: string, c: char)
    requires c !in s
    ensures Split(s, c) == [s]
  {
  }

  /** The type entries split back apart at the commas `Join` put between them. */
  lemma {:induction false} SplitEntries(es: seq<string>)
    requires forall i :: 0 <= i < |es| ==> es[i] != "" && ',' !in es[i]
    requires forall i :: 0 <= i < |es| ==> '.' !in es[i]
    ensures Text.Join(StripQualifiers(Split(Text.Join(es, ','), ',')), ',') == Text.Join(es, ',')
  {
    var j := Text.Join(es, ',');
    var q := if es == [] then [""] else es;
    SplitOfJoin(es);
    assert Text.Join(q, ',') == j;
    JoinStripPlain(q);
  }

  /** Stripping changes nothing in a list whose entries hold no `.`. */
  lemma JoinStripPlain(ps: seq<string>)
    requires forall i :: 0 <= i < |ps| ==> '.' !in ps[i]
    ensures Text.Join(StripQualifiers(ps), ',') == Text.Join(ps, ',')
  {
    StripPlain(ps);
  }

  /** The entries of a parameter list come back from `split(",")`; the empty list comes back as one empty entry. */
  lemma SplitOfJoin(es: seq<string>)
    requires forall i :: 0 <= i < |es| ==> es[i] != "" && ',' !in es[i]
    ensures Split(Text.Join(es, ','), ',') == if es == [] then [""] else es
  {
    if |es| >= 2 {
      SplitJoin(es, ',');
    } else if |es| == 1 {
      SplitWithout(es[0], ',');
    } else {
      SplitWithout("", ',');
    }
  }

  /** Entries without a `.` pass through `StripQualifiers` unchanged. */
  lemma StripPlain(ps: seq<string>)
    requires forall i :: 0 <= i < |ps| ==> '.' !in ps[i]
    ensures StripQualifiers(ps) == ps
  {
  }

  /** The method part of a canonical name, read back by the `indexOf`/`substring` steps. */
  lemma MethodPartParts(name: string, params: string)
    requires '(' !in name && ')' !in name && '(' !in params && ')' !in params
    ensures var m := name + "(" + params + ")";
      IndexOfChar(m, '(') == |name| && IndexOfChar(m, ')') == |name| + 1 + |params|
      && m[0..|name|] == name && m[|name| + 1..|name| + 1 + |params|] == params
  {
    var m := name + "(" + params + ")";
    assert m[|name|] == '(' && m[..|name|] == name;
    assert m[|name| + 1 + |params|] == ')';
    assert m[..|name| + 1 + |params|] == name + "(" + params;
    assert ')' !in name + "(" + params by {
      forall k | 0 <= k < |name + "(" + params| ensures (name + "(" + params)[k] != ')' {
        if k < |name| {
          assert (name + "(" + params)[k] == name[k];
        } else if k > |name| {
          assert (name + "(" + params)[k] == params[k - |name| - 1];
        }
      }
    }
  }

  /** What a character set excludes from a `Join` it excludes from every piece and the glue. */
  lemma JoinAvoids(es: seq<string>, c: char, x: char)
    requires x != c && forall i :: 0 <= i < |es| ==> x !in es[i]
    ensures x !in Text.Join(es, c)
  {
    Text.JoinNoneIn(es, c, Is(x));
    var j := Text.Join(es, c);
    assert forall k :: 0 <= k < |j| ==> j[k] != x;
  }

  /** The characters a canonical-name part may not contain. */
  predicate Plain(s: string) {
    '@' !in s && '(' !in s && ')' !in s && ',' !in s && '.' !in s
  }

  /**
   * The two canonical names agree: reading the Major signature
   * `pkg.Owner@name(types)` gives what `fromDecl` gives for the
   * declaration, when the package and owner hold no `@`, and the method
   * name and type entries hold none of `@ ( ) , .`.
   */
  lemma FromMajorSigOfDecl(pkg: Option<string>, owner: string, d: Declaration)
    requires pkg.Some? ==> '@' !in pkg.value
    requires '@' !in owner
    requires Plain(if d.isConstructor then "<init>" else d.name)
    requires forall i :: 0 <= i < |d.params| ==> TypeEntry(d.params[i]) != "" && Plain(TypeEntry(d.params[i]))
    ensures FromMajorSig(FromDeclIn(pkg, owner, d)) == Returns(FromDecl(d))
  {
    var name := if d.isConstructor then "<init>" else d.name;
    var es := TypeEntries(d.params);
    var params := Text.Join(es, ',');
    JoinAvoids(es, ',', '@');
    JoinAvoids(es, ',', '(');
    JoinAvoids(es, ',', ')');
    MethodPartReads(name, params);
    SplitEntries(es);
    ReadsWhole((if pkg.Some? then pkg.value + "." else "") + owner, name, params);
  }

  /** `MethodPart` of `name(params)` keeps the name and strips each parameter. */
  lemma MethodPartReads(name: string, params: string)
    requires '(' !in name && ')' !in name && '(' !in params && ')' !in params
    ensures MethodPart(name + "(" + params + ")") == Returns(name + "(" + Text.Join(StripQualifiers(Split(params, ',')), ',') + ")")
  {
    MethodPartParts(name, params);
  }

  /** Splitting `prefix@name(params)` at the one `@` hands the method part to `MethodPart`. */
  lemma ReadsWhole(prefix: string, name: string, params: string)
    requires '@' !in prefix && '@' !in name && '@' !in params
    ensures FromMajorSig(prefix + "@" + (name + "(" + params + ")")) == MethodPart(name + "(" + params + ")")
  {
    var part := name + "(" + params + ")";
    assert prefix + "@" + part == Text.Join([prefix, part], '@') by {
      assert [prefix, part][1..] == [part];
    }
    assert '@' !in part by {
      forall k | 0 <= k < |part| ensures part[k] != '@' {
        if k < |name| {
          assert part[k] == name[k];
        } else if |name| < k < |name| + 1 + |params| {
          assert part[k] == params[k - |name| - 1];
        }
      }
    }
    SplitJoin([prefix, part], '@');
  }

  // ------------------------------------------------------------ parseInt

  /** `Util.parseInt(s)`: `null` and malformed text give empty; otherwise `Integer.decode` of the lower-cased text. */
  function ParseInt(s: Option<string>): (r: Option<i32>)
    ensures s.None? ==> r.None?
    ensures s.Some? ==> (r.Some? <==> Decode(ToLowerCase(s.value)).Returns?)
    ensures r.Some? ==> r.value == Decode(ToLowerCase(s.value)).value
  {
    if s.None? then None
    else
      match Decode(ToLowerCase(s.value))
      case Returns(v) => Some(v)
      case Throws(_) => None
  }

  /** Text without capitals is not changed by lower-casing. */
  lemma LowerKeeps(s: string)
    requires forall i :: 0 <= i < |s| ==> !('A' <= s[i] <= 'Z')
    ensures ToLowerCase(s) == s
  {
  }

  /** `parseInt` reads back every `int` printed in decimal. */
  lemma ParseIntShow(v: i32)
    ensures ParseInt(Some(IntToString(v as int))) == Some(v)
  {
    var s := IntToString(v as int);
    var digits := NatToString(if v < 0 then -(v as int) else v as int);
    assert forall i :: 0 <= i < |digits| ==> IsDigit(digits[i]);
    if v < 0 {
      assert forall i :: 1 <= i < |s| ==> s[i] == digits[i - 1];
    }
    LowerKeeps(s);
    DecodeDecimal(v);
  }

  /** Case does not matter: `0X1F` and `0x1f` are the same number. */
  lemma ParseIntIgnoresCase(s: string)
    ensures ParseInt(Some(s)) == ParseInt(Some(ToLowerCase(s)))
  {
    ToLowerCaseIdempotent(s);
  }
}
