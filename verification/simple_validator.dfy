/**
 * The Simple-Java check of serializer/src/main/java/serializer/peg/SimpleValidator.java:
 * a traversal of a method's syntax tree that refuses every construct
 * outside the Simple subset.  A refusal is an exception that unwinds to
 * the nearest enclosing method declaration, which records the reason and
 * is left out of the valid methods; a method whose traversal finishes,
 * and which does not lack a final `return` while returning a value, is
 * added to them.  The syntax tree is the Java parser's: here it is an
 * abstract tree of node kinds, each node carrying its printed form.
 */
module SimpleValidator {
  import opened Wrappers

  /** The node classes the validator overrides, and every other class of node as `OtherKind`. */
  datatype Kind =
    | ReturnStmt
    | AnnotationDeclaration
    | AnnotationMemberDeclaration
    | ArrayAccessExpr
    | ArrayCreationExpr
    | ArrayInitializerExpr
    | AssertStmt
    | AssignExpr
    | BinaryExpr
    | BlockComment
    | BlockStmt
    | BooleanLiteralExpr
    | BreakStmt
    | CastExpr
    | CatchClause
    | CharLiteralExpr
    | ClassExpr
    | ClassOrInterfaceDeclaration
    | ClassOrInterfaceType
    | CompilationUnit
    | ConditionalExpr
    | ConstructorDeclaration
    | ContinueStmt
    | DoStmt
    | DoubleLiteralExpr
    | EmptyStmt
    | EnclosedExpr
    | EnumConstantDeclaration
    | EnumDeclaration
    | ExplicitConstructorInvocationStmt
    | FieldAccessExpr
    | FieldDeclaration
    | ForEachStmt
    | ForStmt
    | IfStmt
    | InitializerDeclaration
    | InstanceOfExpr
    | IntegerLiteralExpr
    | JavadocComment
    | LabeledStmt
    | LineComment
    | LongLiteralExpr
    | MarkerAnnotationExpr
    | MemberValuePair
    | MethodCallExpr
    | NameExpr
    | NormalAnnotationExpr
    | NullLiteralExpr
    | ObjectCreationExpr
    | PackageDeclaration
    | Parameter
    | PrimitiveType
    | Name
    | SimpleName
    | ArrayType
    | ArrayCreationLevel
    | IntersectionType
    | UnionType
    | SingleMemberAnnotationExpr
    | StringLiteralExpr
    | SuperExpr
    | SwitchEntry
    | SwitchStmt
    | SynchronizedStmt
    | ThisExpr
    | ThrowStmt
    | TryStmt
    | LocalClassDeclarationStmt
    | TypeParameter
    | UnaryExpr
    | UnknownType
    | VariableDeclarationExpr
    | VariableDeclarator
    | VoidType
    | WhileStmt
    | WildcardType
    | LambdaExpr
    | MethodReferenceExpr
    | TypeExpr
    | NodeList
    | ImportDeclaration
    | ModuleDeclaration
    | ModuleRequiresDirective
    | ModuleExportsDirective
    | ModuleProvidesDirective
    | ModuleUsesDirective
    | ModuleOpensDirective
    | UnparsableStmt
    | ReceiverParameter
    | VarType
    | Modifier
    | SwitchExpr
    | TextBlockLiteralExpr
    | YieldStmt
    | OtherKind

  function RuleOf(k: Kind): Rule {
    match k
    case ReturnStmt => Admit
    case AnnotationDeclaration => RefuseUnvisited(Fixed("AnnotationDeclaration is not implemented"))
    case AnnotationMemberDeclaration => RefuseUnvisited(Shown)
    case ArrayAccessExpr => RefuseUnvisited(Shown)
    case ArrayCreationExpr => RefuseUnvisited(Shown)
    case ArrayInitializerExpr => RefuseUnvisited(Shown)
    case AssertStmt => RefuseVisited(Shown)
    case AssignExpr => Admit
    case BinaryExpr => Admit
    case BlockComment => Admit
    case BlockStmt => Admit
    case BooleanLiteralExpr => Admit
    case BreakStmt => RefuseVisited(Fixed("Simple doesn't support breaks"))
    case CastExpr => RefuseVisited(Fixed("Simple doesn't support casts"))
    case CatchClause => RefuseVisited(Fixed("Simple doesn't support catch"))
    case CharLiteralExpr => RefuseVisited(Fixed("Simple doesn't support Chars"))
    case ClassExpr => RefuseVisited(Fixed("Simple doesn't support ClassExprs"))
    case ClassOrInterfaceDeclaration => Admit
    case ClassOrInterfaceType => Admit
    case CompilationUnit => Admit
    case ConditionalExpr => Admit
    case ConstructorDeclaration => RefuseVisited(Fixed("Simple doesn't support ConstructorDeclarations"))
    case ContinueStmt => RefuseVisited(Fixed("Simple doesn't support continues"))
    case DoStmt => RefuseVisited(Fixed("Simple doesn't support DoStmts"))
    case DoubleLiteralExpr => RefuseVisited(Fixed("Simple doesn't support DoubleLiteralExprs"))
    case EmptyStmt => Admit
    case EnclosedExpr => Admit
    case EnumConstantDeclaration => RefuseVisited(Fixed("Simple doesn't support enums"))
    case EnumDeclaration => RefuseVisited(Fixed("Simple doesn't support enums"))
    case ExplicitConstructorInvocationStmt => RefuseVisited(Fixed("Simple doesn't support ExplicitConstructorInvocationStmt"))
    case FieldAccessExpr => Admit
    case FieldDeclaration => Admit
    case ForEachStmt => RefuseVisited(Fixed("Simple doesn't support ForEachStmts"))
    case ForStmt => RefuseVisited(Fixed("Simple doesn't support ForStmts"))
    case IfStmt => Admit
    case InitializerDeclaration => RefuseVisited(Fixed("Simple doesn't support InitializerDeclarations"))
    case InstanceOfExpr => RefuseVisited(Fixed("Simple doesn't support InstanceOfExprs"))
    case IntegerLiteralExpr => Admit
    case JavadocComment => Admit
    case LabeledStmt => RefuseVisited(Fixed("Simple doesn't support LabeledStmts"))
    case LineComment => Admit
    case LongLiteralExpr => RefuseVisited(Fixed("Simple doesn't support Longs"))
    case MarkerAnnotationExpr => RefuseVisited(Fixed("MarkerAnnotationExpr"))
    case MemberValuePair => RefuseVisited(Fixed("MemberValuePair"))
    case MethodCallExpr => RefuseVisited(Fixed("MethodCallExpr"))
    case NameExpr => Admit
    case NormalAnnotationExpr => RefuseVisited(Fixed("NormalAnnotationExpr"))
    case NullLiteralExpr => RefuseVisited(Fixed("NullLiteralExpr"))
    case ObjectCreationExpr => RefuseVisited(Fixed("ObjectCreationExpr"))
    case PackageDeclaration => Admit
    case Parameter => Admit
    case PrimitiveType => Admit
    case Name => Admit
    case SimpleName => Admit
    case ArrayType => RefuseVisited(Fixed("ArrayType"))
    case ArrayCreationLevel => RefuseVisited(Fixed("ArrayCreationLevel"))
    case IntersectionType => RefuseVisited(Fixed("IntersectionType"))
    case UnionType => RefuseVisited(ShownValue)
    case SingleMemberAnnotationExpr => RefuseVisited(Shown)
    case StringLiteralExpr => RefuseVisited(ShownValue)
    case SuperExpr => RefuseVisited(Shown)
    case SwitchEntry => RefuseVisited(Shown)
    case SwitchStmt => RefuseVisited(Shown)
    case SynchronizedStmt => RefuseVisited(Shown)
    case ThisExpr => Admit
    case ThrowStmt => RefuseVisited(Shown)
    case TryStmt => RefuseVisited(Shown)
    case LocalClassDeclarationStmt => RefuseVisited(Shown)
    case TypeParameter => RefuseVisited(Shown)
    case UnaryExpr => Admit
    case UnknownType => RefuseVisited(Shown)
    case VariableDeclarationExpr => Admit
    case VariableDeclarator => Admit
    case VoidType => Admit
    case WhileStmt => RefuseVisited(Shown)
    case WildcardType => RefuseVisited(Shown)
    case LambdaExpr => RefuseVisited(Shown)
    case MethodReferenceExpr => RefuseVisited(Shown)
    case TypeExpr => RefuseVisited(Shown)
    case NodeList => Admit
    case ImportDeclaration => Admit
    case ModuleDeclaration => RefuseVisited(Shown)
    case ModuleRequiresDirective => RefuseVisited(Shown)
    case ModuleExportsDirective => RefuseVisited(Shown)
    case ModuleProvidesDirective => RefuseVisited(Shown)
    case ModuleUsesDirective => RefuseVisited(Shown)
    case ModuleOpensDirective => RefuseVisited(Shown)
    case UnparsableStmt => RefuseVisited(Shown)
    case ReceiverParameter => RefuseVisited(Shown)
    case VarType => RefuseVisited(Shown)
    case Modifier => Admit
    case SwitchExpr => Admit
    case TextBlockLiteralExpr => RefuseVisited(Shown)
    case YieldStmt => RefuseVisited(Shown)
    case OtherKind => Admit
  }

  /** What a refusal says: a fixed text, the node printed (`toString`), or its `asString`. */
  datatype Message = Fixed(text: string) | Shown | ShownValue

  /**
   * What the validator does at a node: visit its children, refuse it
   * without visiting them, or visit them and then refuse it.
   */
  datatype Rule = Admit | RefuseUnvisited(msg: Message) | RefuseVisited(msg: Message)

  /**
   * A syntax tree.  `shown` is the node printed and `value` its
   * `asString`.  An expression statement holds its expression; a method
   * declaration holds its name, whether its type is `void`, the children
   * visited before its body (annotations and modifiers), whether it has a
   * body and the body's statements, and the children visited after it.
   */
  datatype Syntax =
    | Node(kind: Kind, shown: string, value: string, children: seq<Syntax>)
    | ExprStmt(shown: string, expr: Syntax)
    | MethodDecl(name: string, voidType: bool, before: seq<Syntax>, hasBody: bool, body: seq<Syntax>, after: seq<Syntax>)

  /** `validMethods` and `invalidMethods` of the validator. */
  datatype Tally = Tally(valid: set<Syntax>, invalid: map<Syntax, string>)

  /** The tally after a traversal, and the refusal that is unwinding, if any. */
  datatype Visited = Visited(tally: Tally, error: Option<string>)

  function MessageText(m: Message, n: Syntax): string
    requires n.Node?
  {
    match m
    case Fixed(s) => s
    case Shown => n.shown
    case ShownValue => n.value
  }

  predicate IsReturn(s: Syntax) {
    s.Node? && s.kind == ReturnStmt
  }

  /** The statement kinds an expression statement may hold. */
  predicate IsAssignment(e: Syntax) {
    e.Node? && (e.kind == AssignExpr || e.kind == VariableDeclarationExpr)
  }

  /** The check after a method's children: a value-returning method whose non-empty body does not end in `return` is refused. */
  predicate LacksFinalReturn(m: Syntax)
    requires m.MethodDecl?
  {
    m.hasBody && |m.body| > 0 && !IsReturn(m.body[|m.body| - 1]) && !m.voidType
  }

  /** The `catch` of `visit(MethodDeclaration)`: the method is recorded as invalid and the refusal stops here. */
  function Caught(t: Tally, m: Syntax, msg: string): Visited {
    Visited(Tally(t.valid, t.invalid[m := msg]), None)
  }

  /** `n.accept(validator, validMethods)`. */
  function Visit(n: Syntax, t: Tally): (r: Visited)
    ensures t.valid <= r.tally.valid && t.invalid.Keys <= r.tally.invalid.Keys
    ensures n.MethodDecl? ==> r.error.None?
  {
    match n
    case Node(k, _, _, cs) =>
      (match RuleOf(k)
       case Admit => VisitAll(cs, t)
       case RefuseUnvisited(m) => Visited(t, Some(MessageText(m, n)))
       case RefuseVisited(m) =>
         var r := VisitAll(cs, t);
         if r.error.Some? then r else Visited(r.tally, Some(MessageText(m, n))))
    case ExprStmt(shown, e) =>
      if IsAssignment(e) then Visit(e, t)
      else Visited(t, Some("Simple only supports assignment ExpressionStmts: " + shown))
    case MethodDecl(name, voidType, before, hasBody, body, after) =>
      var r1 := VisitAll(before, t);
      if r1.error.Some? then Caught(r1.tally, n, r1.error.value)
      else
        var r2 := if hasBody then VisitAll(body, r1.tally) else r1;
        if r2.error.Some? then Caught(r2.tally, n, r2.error.value)
        else
          var r3 := VisitAll(after, r2.tally);
          if r3.error.Some? then Caught(r3.tally, n, r3.error.value)
          else if LacksFinalReturn(n) then Caught(r3.tally, n, "non-void method " + name + "has no final return statement")
          else Visited(Tally(r3.tally.valid + {n}, r3.tally.invalid), None)
  }

  /** The children in order, up to the first refusal. */
  function VisitAll(cs: seq<Syntax>, t: Tally): (r: Visited)
    ensures t.valid <= r.tally.valid && t.invalid.Keys <= r.tally.invalid.Keys
  {
    if cs == [] then Visited(t, None)
    else
      var r := Visit(cs[0], t);
      if r.error.Some? then r else VisitAll(cs[1..], r.tally)
  }

  /** `validate(method)`: the traversal, then whether the method is among the valid ones. */
  function Validate(t: Tally, m: Syntax): (r: (Tally, bool))
    requires m.MethodDecl?
  {
    var v := Visit(m, t);
    (v.tally, m in v.tally.valid)
  }

  // ---------------------------------------------------------------- the Simple subset, stated directly

  /**
   * A tree the traversal passes without a refusal: every node's class is
   * admitted, expression statements hold assignments or declarations, and
   * a method declaration always passes, since it catches what its
   * children throw.
   */
  predicate Admissible(n: Syntax) {
    match n
    case Node(k, _, _, cs) => RuleOf(k).Admit? && forall i :: 0 <= i < |cs| ==> Admissible(cs[i])
    case ExprStmt(_, e) => IsAssignment(e) && Admissible(e)
    case MethodDecl(_, _, _, _, _, _) => true
  }

  predicate AllAdmissible(cs: seq<Syntax>) {
    forall i :: 0 <= i < |cs| ==> Admissible(cs[i])
  }

  /** A Simple method: all its parts are admissible and it does not lack a final `return`. */
  predicate SimpleMethod(m: Syntax) {
    m.MethodDecl? && AllAdmissible(m.before) && (m.hasBody ==> AllAdmissible(m.body))
    && AllAdmissible(m.after) && !LacksFinalReturn(m)
  }

  function Size(n: Syntax): nat {
    match n
    case Node(_, _, _, cs) => 1 + SizeAll(cs)
    case ExprStmt(_, e) => 1 + Size(e)
    case MethodDecl(_, _, before, hasBody, body, after) =>
      1 + SizeAll(before) + (if hasBody then SizeAll(body) else 0) + SizeAll(after)
  }

  function SizeAll(cs: seq<Syntax>): nat {
    if cs == [] then 0 else Size(cs[0]) + SizeAll(cs[1..])
  }

  /** The traversal refuses exactly the trees that are not admissible. */
  lemma {:induction false} VisitRefuses(n: Syntax, t: Tally)
    ensures Visit(n, t).error.None? <==> Admissible(n)
    decreases n
  {
    match n
    case Node(k, _, _, cs) =>
      VisitAllRefuses(cs, t);
    case ExprStmt(_, e) =>
      if IsAssignment(e) { VisitRefuses(e, t); }
    case MethodDecl(_, _, _, _, _, _) =>
  }

  lemma {:induction false} VisitAllRefuses(cs: seq<Syntax>, t: Tally)
    ensures VisitAll(cs, t).error.None? <==> AllAdmissible(cs)
    decreases cs
  {
    if cs != [] {
      VisitRefuses(cs[0], t);
      var r := Visit(cs[0], t);
      if r.error.None? {
        VisitAllRefuses(cs[1..], r.tally);
        assert forall i :: 1 <= i < |cs| ==> cs[i] == cs[1..][i - 1];
        assert AllAdmissible(cs[1..]) ==> AllAdmissible(cs) by {
          assert forall i :: 0 <= i < |cs[1..]| ==> cs[1..][i] == cs[i + 1];
        }
      }
    }
  }

  /** Every method a traversal adds to the valid ones is a Simple method inside the tree. */
  lemma {:induction false} VisitAdds(n: Syntax, t: Tally)
    ensures forall x :: x in Visit(n, t).tally.valid && x !in t.valid ==> SimpleMethod(x) && Size(x) <= Size(n)
    decreases n
  {
    match n
    case Node(k, _, _, cs) =>
      VisitAllAdds(cs, t);
    case ExprStmt(_, e) =>
      if IsAssignment(e) { VisitAdds(e, t); }
    case MethodDecl(_, _, before, hasBody, body, after) =>
      VisitAllAdds(before, t);
      VisitAllRefuses(before, t);
      var r1 := VisitAll(before, t);
      if r1.error.None? {
        var r2 := if hasBody then VisitAll(body, r1.tally) else r1;
        if hasBody {
          VisitAllAdds(body, r1.tally);
          VisitAllRefuses(body, r1.tally);
        }
        if r2.error.None? {
          VisitAllAdds(after, r2.tally);
          VisitAllRefuses(after, r2.tally);
        }
      }
  }

  lemma {:induction false} VisitAllAdds(cs: seq<Syntax>, t: Tally)
    ensures forall x :: x in VisitAll(cs, t).tally.valid && x !in t.valid ==> SimpleMethod(x) && Size(x) <= SizeAll(cs)
    decreases cs
  {
    if cs != [] {
      VisitAdds(cs[0], t);
      var r := Visit(cs[0], t);
      if r.error.None? {
        VisitAllAdds(cs[1..], r.tally);
      }
    }
  }

  /**
   * With only Simple methods recorded as valid, `validate` accepts a
   * method exactly when it is a Simple method, and keeps the valid
   * methods Simple.
   */
  lemma ValidateSimple(t: Tally, m: Syntax)
    requires m.MethodDecl? && forall x :: x in t.valid ==> SimpleMethod(x)
    ensures Validate(t, m).1 <==> SimpleMethod(m)
    ensures forall x :: x in Validate(t, m).0.valid ==> SimpleMethod(x)
  {
    VisitAdds(m, t);
    var before, body, after := m.before, m.body, m.after;
    VisitAllAdds(before, t);
    VisitAllRefuses(before, t);
    var r1 := VisitAll(before, t);
    var r2 := if m.hasBody then VisitAll(body, r1.tally) else r1;
    if m.hasBody {
      VisitAllAdds(body, r1.tally);
      VisitAllRefuses(body, r1.tally);
    }
    VisitAllAdds(after, r2.tally);
    VisitAllRefuses(after, r2.tally);
  }

  /** A value-returning method whose last statement is not a `return` is recorded with the validator's message, which lacks a space before "has". */
  lemma MissingReturnReason(t: Tally, m: Syntax)
    requires m.MethodDecl? && AllAdmissible(m.before) && AllAdmissible(m.body) && AllAdmissible(m.after)
    requires LacksFinalReturn(m)
    ensures !Validate(t, m).1 || m in t.valid
    ensures Validate(t, m).0.invalid[m] == "non-void method " + m.name + "has no final return statement"
  {
    VisitAllRefuses(m.before, t);
    var r1 := VisitAll(m.before, t);
    VisitAllRefuses(m.body, r1.tally);
    var r2 := VisitAll(m.body, r1.tally);
    VisitAllRefuses(m.after, r2.tally);
    VisitAllAdds(m.before, t);
    VisitAllAdds(m.body, r1.tally);
    VisitAllAdds(m.after, r2.tally);
  }
}
