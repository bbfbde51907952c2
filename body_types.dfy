/**
 * The lowered bodies of a module — arenas of expressions, statements,
 * local definitions and assignments — together with the plain syntax the
 * lowering reads, and the pure rules the lowering follows: name
 * resolution through a stack of scopes, the diagnostics of an
 * assignment, and the decoding of string literals.
 *
 * Syntax nodes are abstracted to datatypes carrying what the lowering
 * reads from them; parsing a type annotation is given by its outcome.
 * Interned keys are their text, arena indices are sequence positions.
 */
module HirBody {
  import opened Wrappers

  type Key = string
  type Name = string

  datatype TextRange = TextRange(start: nat, end: nat)

  datatype Ident = Ident(text: string, range: TextRange)

  datatype Fqn = Fqn(moduleName: Name, name: Name)

  /** A parsed type: written out in the source, a primitive type named by
      a variable reference, or `Unknown` after a parse error. */
  datatype TyWithRange = Unknown | Written(text: string) | Primitive(name: Name, range: TextRange)

  /** What parsing a written type does: the type or the reason it failed,
      with the types it allocated into the shared arena (for the element
      types of arrays and pointers, and the wrapped types of `distinct`)
      and the number of unique ids it drew, in the order it did so. */
  datatype ParseOutcome =
    | Parsed(ty: TyWithRange, nested: seq<TyWithRange>, uids: nat)
    | ParseError(why: nat, range: TextRange, nested: seq<TyWithRange>, uids: nat)

  /** The type a parse leaves behind: an error becomes `Unknown`. */
  function ParsedTy(o: ParseOutcome): TyWithRange
  {
    if o.Parsed? then o.ty else Unknown
  }

  /** What a parse reports: a type parse error at its range, or nothing. */
  function ParseDiagnostics(o: ParseOutcome): seq<LoweringDiagnostic>
  {
    if o.ParseError? then [LoweringDiagnostic(TyParseError(o.why), o.range)] else []
  }

  datatype BinaryOp = Add | Sub | Mul | Div | Lt | Gt | Le | Ge | Eq | Ne | And | Or

  datatype UnaryOp = Pos | Neg | Not

  // ---------------------------------------------------------------------
  // Syntax.

  datatype AstExpr = AstExpr(kind: AstExprKind, range: TextRange)

  datatype AstExprKind =
    | ACast(castExpr: Option<AstExpr>, castTy: ParseOutcome)
    | ARef(refExpr: Option<AstExpr>)
    | ADeref(pointer: Option<AstExpr>)
    | ABinary(lhs: Option<AstExpr>, rhs: Option<AstExpr>, binaryOp: Option<BinaryOp>)
    | AUnary(operand: Option<AstExpr>, unaryOp: Option<UnaryOp>)
      /** `[]ty{ items }`; a missing `{ … }` body is an error. */
    | AArray(arrayTy: ParseOutcome, arrayBody: Option<AstArrayBody>)
    | ABlock(block: AstBlock)
      /** `elseBranch` is `Some` when an `else` is written, its body may be missing. */
    | AIf(condition: Option<AstExpr>, ifBody: Option<AstExpr>, elseBranch: Option<Option<AstExpr>>)
      /** A `while` condition, or none for `loop`. */
    | AWhile(whileCondition: Option<AstExpr>, whileBody: Option<AstExpr>)
    | AIndex(base: Option<AstExpr>, subscript: Option<AstExpr>)
      /** `path(args)`; `callArgs` is `None` when no argument list was parsed. */
    | ACall(callPath: Option<AstPath>, callArgs: Option<AstArgList>)
    | AVarRef(path: Option<AstPath>)
      /** The literal's value, or `None` when it does not fit a `u64`. */
    | AIntLiteral(intValue: Option<u64>)
    | ABoolLiteral(boolValue: bool)
    | AStringLiteral(components: seq<StringComponent>)
    | ADistinct(distinctTy: ParseOutcome)

  datatype AstArrayBody = AstArrayBody(items: seq<Option<AstExpr>>)

  datatype AstArgList = AstArgList(args: seq<Option<AstExpr>>)

  datatype AstBlock = AstBlock(stmts: seq<AstStmt>, tailExpr: Option<AstExpr>)

  datatype AstStmt = SDefine(define: AstDefine) | SAssign(assign: AstAssign) | SExpr(expr: Option<AstExpr>)

  /** A local `name :: value` (binding) or `name := value` (variable). */
  datatype AstDefine = AstDefine(isVariable: bool, name: Option<Ident>, ty: ParseOutcome, value: Option<AstExpr>)

  datatype AstAssign = AstAssign(name: Ident, value: Option<AstExpr>, range: TextRange)

  /** A lambda's parameter names (`None` for a parameter without one; the
      whole list is `None` when none was parsed) and its body. */
  datatype AstLambda = AstLambda(paramNames: Option<seq<Option<Key>>>, body: Option<AstExpr>)

  /** What a top-level definition binds: a lambda, or any other expression. */
  datatype RootValue = RootLambda(lambda: AstLambda) | RootExpr(expr: AstExpr)

  /** A top-level definition; whether it is a binding or a variable does
      not matter to lowering. */
  datatype RootDef = RootDef(name: Option<Ident>, value: Option<RootValue>)

  /** `name` or `module.name`. */
  datatype AstPath = AstPath(topLevel: Option<Ident>, nested: Option<Ident>)

  /** A string literal is a run of escapes (a backslash and the character
      after it) and verbatim contents. */
  datatype StringComponent = Escape(escaped: char, range: TextRange) | Contents(text: string)

  // ---------------------------------------------------------------------
  // Lowered bodies.

  datatype Path = ThisModule(name: Name) | OtherModule(fqn: Fqn)

  datatype Expr =
    | Missing
    | IntLiteral(intValue: u64)
    | BoolLiteral(boolValue: bool)
    | StringLiteral(text: string)
    | Cast(expr: nat, castTy: TyWithRange)
    | Ref(expr: nat)
    | Deref(pointer: nat)
    | Binary(lhs: nat, rhs: nat, binaryOp: BinaryOp)
    | Unary(expr: nat, unaryOp: UnaryOp)
    | Array(items: seq<nat>, arrayTy: TyWithRange)
    | Index(base: nat, index: nat)
    | Block(stmts: seq<nat>, tailExpr: Option<nat>)
    | If(condition: nat, body: nat, elseBranch: Option<nat>)
    | While(whileCondition: Option<nat>, body: nat)
    | Local(localDef: nat)
    | Global(path: Path)
    | Param(idx: nat)
    | Call(path: Path, args: seq<nat>)
    | Ty(ty: nat)
    | Distinct(uid: nat, ty: nat)

  datatype Stmt = ExprStmt(expr: nat) | LocalDefStmt(localDef: nat) | LocalSetStmt(localSet: nat)

  datatype LocalDef = LocalDef(mutable: bool, ty: TyWithRange, value: nat)

  datatype LocalSet = LocalSet(localDef: Option<nat>, value: nat)

  datatype Bodies = Bodies(
    localDefs: seq<LocalDef>,
    localSets: seq<LocalSet>,
    stmts: seq<Stmt>,
    exprs: seq<Expr>,
    exprRanges: map<nat, TextRange>,
    functionBodies: map<Name, nat>,
    globals: map<Name, nat>,
    otherModuleReferences: set<Fqn>)
  {
    /** Panics for a function that was never lowered. */
    function FunctionBody(name: Name): nat
      requires name in functionBodies
    {
      functionBodies[name]
    }

    /** Panics for a global that was never lowered. */
    function GlobalBody(name: Name): nat
      requires name in globals
    {
      globals[name]
    }

    function RangeForExpr(e: nat): TextRange
      requires e in exprRanges
    {
      exprRanges[e]
    }
  }

  const EmptyBodies := Bodies([], [], [], [], map[], map[], map[], {})

  // ---------------------------------------------------------------------
  // Well-formedness: every reference points into its arena, and an
  // expression only refers to expressions allocated before it.

  /** The expression a statement evaluates lies below `bound`. */
  predicate StmtValueBelow(b: Bodies, s: nat, bound: nat)
  {
    s < |b.stmts| &&
    match b.stmts[s]
    case ExprStmt(e) => e < bound
    case LocalDefStmt(d) => d < |b.localDefs| && b.localDefs[d].value < bound
    case LocalSetStmt(l) => l < |b.localSets| && b.localSets[l].value < bound
  }

  predicate OptBelow(o: Option<nat>, bound: nat)
  {
    o.Some? ==> o.value < bound
  }

  /** The references of `e` lie below `bound`, and its types in the arena. */
  predicate ExprRefsBelow(b: Bodies, e: Expr, bound: nat, arenaLen: nat)
  {
    match e
    case Cast(x, _) => x < bound
    case Ref(x) => x < bound
    case Deref(x) => x < bound
    case Binary(l, r, _) => l < bound && r < bound
    case Unary(x, _) => x < bound
    case Array(items, _) => forall k :: 0 <= k < |items| ==> items[k] < bound
    case Index(a, x) => a < bound && x < bound
    case Block(ss, tail) => (forall k :: 0 <= k < |ss| ==> StmtValueBelow(b, ss[k], bound)) && OptBelow(tail, bound)
    case If(c, body, el) => c < bound && body < bound && OptBelow(el, bound)
    case While(c, body) => OptBelow(c, bound) && body < bound
    case Call(_, args) => forall k :: 0 <= k < |args| ==> args[k] < bound
    case Ty(t) => t < arenaLen
    case Distinct(_, t) => t < arenaLen
    case _ => true
  }

  predicate WellFormed(b: Bodies, arenaLen: nat)
  {
    && (forall i :: 0 <= i < |b.exprs| ==> ExprRefsBelow(b, b.exprs[i], i, arenaLen))
    && (forall s :: 0 <= s < |b.stmts| ==> StmtValueBelow(b, s, |b.exprs|))
    && (forall d :: 0 <= d < |b.localDefs| ==> b.localDefs[d].value < |b.exprs|)
    && (forall l :: 0 <= l < |b.localSets| ==> b.localSets[l].value < |b.exprs|)
    && (forall e :: e in b.exprRanges ==> e < |b.exprs|)
    && (forall n :: n in b.globals ==> b.globals[n] < |b.exprs|)
    && (forall n :: n in b.functionBodies ==> b.functionBodies[n] < |b.exprs|)
  }

  /** `b1` holds everything `b0` did: the arenas only grow at the end and
      recorded ranges are never overwritten. */
  predicate ArenasExtend(b0: Bodies, b1: Bodies)
  {
    && b0.localDefs <= b1.localDefs
    && b0.localSets <= b1.localSets
    && b0.stmts <= b1.stmts
    && b0.exprs <= b1.exprs
    && (forall e :: e in b0.exprRanges ==> e in b1.exprRanges && b1.exprRanges[e] == b0.exprRanges[e])
    && b0.otherModuleReferences <= b1.otherModuleReferences
  }

  lemma StmtValueBelowMonotone(b0: Bodies, b1: Bodies, s: nat, bound: nat, bound1: nat)
    requires ArenasExtend(b0, b1) && StmtValueBelow(b0, s, bound) && bound <= bound1
    ensures StmtValueBelow(b1, s, bound1)
  {
    assert b1.stmts[s] == b0.stmts[s];
    match b0.stmts[s]
    case ExprStmt(_) =>
    case LocalDefStmt(d) => assert b1.localDefs[d] == b0.localDefs[d];
    case LocalSetStmt(l) => assert b1.localSets[l] == b0.localSets[l];
  }

  /** References that were in range stay in range as the arenas grow. */
  lemma RefsBelowMonotone(b0: Bodies, b1: Bodies, e: Expr, bound: nat, arenaLen0: nat, arenaLen1: nat)
    requires ArenasExtend(b0, b1) && arenaLen0 <= arenaLen1
    requires ExprRefsBelow(b0, e, bound, arenaLen0)
    ensures ExprRefsBelow(b1, e, bound, arenaLen1)
  {
    if e.Block? {
      forall k | 0 <= k < |e.stmts| ensures StmtValueBelow(b1, e.stmts[k], bound) {
        StmtValueBelowMonotone(b0, b1, e.stmts[k], bound, bound);
      }
    }
  }

  lemma ArenasExtendTrans(b0: Bodies, b1: Bodies, b2: Bodies)
    requires ArenasExtend(b0, b1) && ArenasExtend(b1, b2)
    ensures ArenasExtend(b0, b2)
  {
  }

  // ---------------------------------------------------------------------
  // Scopes.

  type Scope = map<Key, nat>

  /** The local a name refers to: the innermost scope binding it wins. */
  function Resolve(scopes: seq<Scope>, name: Key): Option<nat>
  {
    if scopes == [] then None
    else if name in scopes[|scopes| - 1] then Some(scopes[|scopes| - 1][name])
    else Resolve(scopes[..|scopes| - 1], name)
  }

  /** A name resolves exactly when some scope binds it, and then to its
      binding in the innermost such scope. */
  lemma {:induction false} ResolveInnermostFirst(scopes: seq<Scope>, name: Key)
    ensures Resolve(scopes, name).Some? <==> exists i :: 0 <= i < |scopes| && name in scopes[i]
    ensures Resolve(scopes, name).Some? ==>
      exists i :: 0 <= i < |scopes| && name in scopes[i] && Resolve(scopes, name).value == scopes[i][name]
        && forall j :: i < j < |scopes| ==> name !in scopes[j]
    decreases |scopes|
  {
    if scopes != [] {
      var init := scopes[..|scopes| - 1];
      ResolveInnermostFirst(init, name);
      if name in scopes[|scopes| - 1] {
        assert name in scopes[|scopes| - 1];
      } else {
        assert forall i :: 0 <= i < |init| ==> init[i] == scopes[i];
        if Resolve(init, name).Some? {
          var i :| 0 <= i < |init| && name in init[i] && Resolve(init, name).value == init[i][name]
            && forall j :: i < j < |init| ==> name !in init[j];
          assert name in scopes[i];
        }
      }
    }
  }

  /** Binding in the innermost scope is seen by lookups of that name and
      hides nothing else. */
  lemma ResolveAfterInsert(scopes: seq<Scope>, name: Key, v: nat, other: Key)
    requires |scopes| >= 1
    ensures var s := scopes[..|scopes| - 1] + [scopes[|scopes| - 1][name := v]];
      Resolve(s, name) == Some(v) && (other != name ==> Resolve(s, other) == Resolve(scopes, other))
  {
    var s := scopes[..|scopes| - 1] + [scopes[|scopes| - 1][name := v]];
    assert s[..|s| - 1] == scopes[..|scopes| - 1];
  }

  /** An empty innermost scope changes no lookup. */
  lemma ResolveThroughEmptyScope(scopes: seq<Scope>, name: Key)
    ensures Resolve(scopes + [map[]], name) == Resolve(scopes, name)
  {
    assert (scopes + [map[]])[..|scopes|] == scopes;
  }

  predicate ScopesPointBelow(scopes: seq<Scope>, n: nat)
  {
    forall i, k :: 0 <= i < |scopes| && k in scopes[i] ==> scopes[i][k] < n
  }

  lemma {:induction false} ResolveBelow(scopes: seq<Scope>, name: Key, n: nat)
    requires ScopesPointBelow(scopes, n)
    ensures Resolve(scopes, name).Some? ==> Resolve(scopes, name).value < n
    decreases |scopes|
  {
    if scopes != [] && name !in scopes[|scopes| - 1] {
      var init := scopes[..|scopes| - 1];
      assert forall i :: 0 <= i < |init| ==> init[i] == scopes[i];
      ResolveBelow(init, name, n);
    }
  }

  // ---------------------------------------------------------------------
  // Diagnostics.

  datatype LoweringDiagnosticKind =
    | OutOfRangeIntLiteral
    | UndefinedLocal(name: Key)
    | UndefinedModule(name: Key)
    | MutableGlobal
    | SetImmutable(name: Key)
    | MismatchedArgCount(name: Key, expected: nat, got: nat)
    | CalledNonLambda(name: Key)
    | ArrayMissingBody
    | TyParseError(why: nat)
    | InvalidEscape

  datatype LoweringDiagnostic = LoweringDiagnostic(kind: LoweringDiagnosticKind, range: TextRange)

  // ---------------------------------------------------------------------
  // Definitions of other modules.

  /** What another module's index says a name is: a function with its
      number of parameters, a global, or a named type. */
  datatype WorldDefinition = WorldFunction(paramCount: nat) | WorldGlobal | WorldNamedTy(namedTy: TyWithRange)

  /** What looking a fully qualified name up among all modules' indexes
      gives. */
  datatype DefinitionLookup = Found(definition: WorldDefinition) | UnknownModule | UnknownDefinition

  /** The indexes of every module, reduced to what each name defines. */
  datatype WorldIndex = WorldIndex(modules: map<Name, map<Name, WorldDefinition>>)
  {
    /** The module is looked up first, then the name inside it. */
    function GetDefinition(fqn: Fqn): (r: DefinitionLookup)
      ensures r.Found? <==> fqn.moduleName in modules && fqn.name in modules[fqn.moduleName]
      ensures r == UnknownModule <==> fqn.moduleName !in modules
      ensures r.Found? ==> r.definition == modules[fqn.moduleName][fqn.name]
    {
      if fqn.moduleName !in modules then UnknownModule
      else if fqn.name !in modules[fqn.moduleName] then UnknownDefinition
      else Found(modules[fqn.moduleName][fqn.name])
    }
  }

  // ---------------------------------------------------------------------
  // Assignments.

  /** Whether the local a name resolves to is mutable, or `None` when it
      resolves to no local. */
  function LocalMutability(localDefs: seq<LocalDef>, resolved: Option<nat>): Option<bool>
  {
    if resolved.Some? && resolved.value < |localDefs| then Some(localDefs[resolved.value].mutable) else None
  }

  /** What assigning to `a.name` reports, given the mutability of the local
      it resolves to and whether it names a global of this module or a
      parameter. */
  function AssignmentDiagnostics(local: Option<bool>, globalOrParam: bool, a: AstAssign): seq<LoweringDiagnostic>
  {
    if local.None? then
      if globalOrParam then [LoweringDiagnostic(SetImmutable(a.name.text), a.range)]
      else [LoweringDiagnostic(UndefinedLocal(a.name.text), a.name.range)]
    else if !local.value then [LoweringDiagnostic(SetImmutable(a.name.text), a.range)]
    else []
  }

  /** An assignment is accepted exactly when the name is a mutable local;
      it reports `SetImmutable` for an immutable local, a global or a
      parameter, and `UndefinedLocal` for any other name. */
  lemma AssignmentDiagnosticsCases(local: Option<bool>, globalOrParam: bool, a: AstAssign)
    ensures var ds := AssignmentDiagnostics(local, globalOrParam, a);
      && |ds| <= 1
      && (ds == [] <==> local == Some(true))
      && (ds != [] && ds[0].kind.SetImmutable? <==> local == Some(false) || (local.None? && globalOrParam))
      && (ds != [] && ds[0].kind.UndefinedLocal? <==> local.None? && !globalOrParam)
      && (ds != [] ==> ds[0].kind.name == a.name.text)
  {
  }

  // ---------------------------------------------------------------------
  // String literals.

  /** The character an escape stands for; only five escapes exist. */
  function EscapedChar(c: char): (r: Option<char>)
    ensures r.Some? <==> c in {'"', '\\', 'n', 'r', 't'}
  {
    match c
    case '"' => Some('"')
    case '\\' => Some('\\')
    case 'n' => Some('\n')
    case 'r' => Some('\r')
    case 't' => Some('\t')
    case _ => None
  }

  function ComponentText(c: StringComponent): string
  {
    match c
    case Escape(e, _) => if EscapedChar(e).Some? then [EscapedChar(e).value] else []
    case Contents(t) => t
  }

  function ComponentDiagnostics(c: StringComponent): seq<LoweringDiagnostic>
  {
    if c.Escape? && EscapedChar(c.escaped).None? then [LoweringDiagnostic(InvalidEscape, c.range)] else []
  }

  /** The text a string literal denotes. */
  function DecodedText(cs: seq<StringComponent>): string
  {
    if cs == [] then [] else DecodedText(cs[..|cs| - 1]) + ComponentText(cs[|cs| - 1])
  }

  /** One `InvalidEscape` per unknown escape, in order. */
  function EscapeDiagnostics(cs: seq<StringComponent>): seq<LoweringDiagnostic>
  {
    if cs == [] then [] else EscapeDiagnostics(cs[..|cs| - 1]) + ComponentDiagnostics(cs[|cs| - 1])
  }

  lemma {:induction false} DecodeConcat(a: seq<StringComponent>, b: seq<StringComponent>)
    ensures DecodedText(a + b) == DecodedText(a) + DecodedText(b)
    decreases |b|
  {
    if b == [] {
      assert a + b == a;
    } else {
      var b' := b[..|b| - 1];
      assert (a + b)[..|a + b| - 1] == a + b';
      assert (a + b)[|a + b| - 1] == b[|b| - 1];
      DecodeConcat(a, b');
    }
  }

  lemma {:induction false} EscapeDiagnosticsConcat(a: seq<StringComponent>, b: seq<StringComponent>)
    ensures EscapeDiagnostics(a + b) == EscapeDiagnostics(a) + EscapeDiagnostics(b)
    decreases |b|
  {
    if b == [] {
      assert a + b == a;
    } else {
      var b' := b[..|b| - 1];
      assert (a + b)[..|a + b| - 1] == a + b';
      assert (a + b)[|a + b| - 1] == b[|b| - 1];
      EscapeDiagnosticsConcat(a, b');
    }
  }

  function CountInvalidEscapes(cs: seq<StringComponent>): nat
  {
    if cs == [] then 0
    else CountInvalidEscapes(cs[..|cs| - 1]) + (if |ComponentDiagnostics(cs[|cs| - 1])| == 1 then 1 else 0)
  }

  /** Every diagnostic of a literal is an `InvalidEscape`, one per escape
      outside the five known ones, and each known escape adds exactly one
      character while an unknown one adds none. */
  lemma {:induction false} DecodeShape(cs: seq<StringComponent>)
    ensures |EscapeDiagnostics(cs)| == CountInvalidEscapes(cs)
    ensures forall k :: 0 <= k < |EscapeDiagnostics(cs)| ==> EscapeDiagnostics(cs)[k].kind == InvalidEscape
    ensures (forall k :: 0 <= k < |cs| ==> cs[k].Escape?) ==>
      |DecodedText(cs)| + CountInvalidEscapes(cs) == |cs|
    decreases |cs|
  {
    if cs != [] {
      var init := cs[..|cs| - 1];
      DecodeShape(init);
      assert forall k :: 0 <= k < |init| ==> init[k] == cs[k];
    }
  }
}
