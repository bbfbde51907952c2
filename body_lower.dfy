/**
 * Lowering a module's syntax into bodies: a context that allocates
 * expressions, statements, local definitions and assignments into arenas,
 * resolves names through a stack of scopes, the current lambda's
 * parameters and the world index, and collects diagnostics.
 *
 * Every lowering method keeps the arenas well formed, only appends to
 * them, and leaves the scope stack as it found it; the methods for each
 * kind of expression state what they allocate and what they report.
 */
module HirBodyLower {
  import opened Wrappers
  import opened HirBody

  /** `b1`, `d1`, `a1` and `u1` grew from `b0`, `d0`, `a0` and `u0`: arenas
      and diagnostics only gain entries at the end, the tables of lowered
      globals and functions are untouched, and the unique-id counter never
      goes back. */
  ghost predicate Grew(s0: Snapshot, s1: Snapshot)
  {
    && ArenasExtend(s0.bodies, s1.bodies)
    && s1.bodies.globals == s0.bodies.globals && s1.bodies.functionBodies == s0.bodies.functionBodies
    && s0.diagnostics <= s1.diagnostics && s0.twrArena <= s1.twrArena && s0.uidGen <= s1.uidGen
  }

  datatype Snapshot = Snapshot(bodies: Bodies, diagnostics: seq<LoweringDiagnostic>, twrArena: seq<TyWithRange>, uidGen: nat)

  lemma GrewTrans(s0: Snapshot, s1: Snapshot, s2: Snapshot)
    requires Grew(s0, s1) && Grew(s1, s2)
    ensures Grew(s0, s2)
  {
    ArenasExtendTrans(s0.bodies, s1.bodies, s2.bodies);
  }

  /** The references a statement holds point into their arenas. */
  predicate StmtRefsOk(b: Bodies, s: Stmt)
  {
    match s
    case ExprStmt(e) => e < |b.exprs|
    case LocalDefStmt(d) => d < |b.localDefs|
    case LocalSetStmt(l) => l < |b.localSets|
  }

  function WithExpr(b: Bodies, e: Expr, range: Option<TextRange>): Bodies
  {
    b.(exprs := b.exprs + [e],
       exprRanges := if range.Some? then b.exprRanges[|b.exprs| := range.value] else b.exprRanges)
  }

  /** Everything in `b0` that was well formed stays so in `b1`. */
  lemma WellFormedGrow(b0: Bodies, b1: Bodies, a0: nat, a1: nat)
    requires WellFormed(b0, a0) && ArenasExtend(b0, b1) && a0 <= a1
    ensures forall i :: 0 <= i < |b0.exprs| ==> ExprRefsBelow(b1, b1.exprs[i], i, a1)
    ensures forall s :: 0 <= s < |b0.stmts| ==> StmtValueBelow(b1, s, |b1.exprs|)
  {
    forall i | 0 <= i < |b0.exprs| ensures ExprRefsBelow(b1, b1.exprs[i], i, a1) {
      assert b1.exprs[i] == b0.exprs[i];
      RefsBelowMonotone(b0, b1, b0.exprs[i], i, a0, a1);
    }
    forall s | 0 <= s < |b0.stmts| ensures StmtValueBelow(b1, s, |b1.exprs|) {
      StmtValueBelowMonotone(b0, b1, s, |b0.exprs|, |b1.exprs|);
    }
  }

  lemma WellFormedWithExpr(b: Bodies, a: nat, e: Expr, range: Option<TextRange>)
    requires WellFormed(b, a) && ExprRefsBelow(b, e, |b.exprs|, a)
    ensures ArenasExtend(b, WithExpr(b, e, range)) && WellFormed(WithExpr(b, e, range), a)
  {
    var b1 := WithExpr(b, e, range);
    assert ArenasExtend(b, b1);
    WellFormedGrow(b, b1, a, a);
    RefsBelowMonotone(b, b1, e, |b.exprs|, a, a);
    assert b1.exprs[|b.exprs|] == e;
  }

  lemma WellFormedWithStmt(b: Bodies, a: nat, s: Stmt)
    requires WellFormed(b, a) && StmtRefsOk(b, s)
    ensures var b1 := b.(stmts := b.stmts + [s]); ArenasExtend(b, b1) && WellFormed(b1, a)
  {
    var b1 := b.(stmts := b.stmts + [s]);
    assert ArenasExtend(b, b1);
    WellFormedGrow(b, b1, a, a);
    assert b1.stmts[|b.stmts|] == s;
    assert StmtValueBelow(b1, |b.stmts|, |b1.exprs|);
  }

  lemma WellFormedWithLocalDef(b: Bodies, a: nat, d: LocalDef)
    requires WellFormed(b, a) && d.value < |b.exprs|
    ensures var b1 := b.(localDefs := b.localDefs + [d]); ArenasExtend(b, b1) && WellFormed(b1, a)
  {
    var b1 := b.(localDefs := b.localDefs + [d]);
    assert ArenasExtend(b, b1);
    WellFormedGrow(b, b1, a, a);
  }

  lemma WellFormedWithLocalSet(b: Bodies, a: nat, l: LocalSet)
    requires WellFormed(b, a) && l.value < |b.exprs|
    ensures var b1 := b.(localSets := b.localSets + [l]); ArenasExtend(b, b1) && WellFormed(b1, a)
  {
    var b1 := b.(localSets := b.localSets + [l]);
    assert ArenasExtend(b, b1);
    WellFormedGrow(b, b1, a, a);
  }

  /** Changing only the tables of lowered definitions and the set of
      referenced modules keeps the arenas well formed. */
  lemma WellFormedRetabled(b0: Bodies, b1: Bodies, a: nat)
    requires WellFormed(b0, a)
    requires b1.localDefs == b0.localDefs && b1.localSets == b0.localSets && b1.stmts == b0.stmts
    requires b1.exprs == b0.exprs && b1.exprRanges == b0.exprRanges
    requires b0.otherModuleReferences <= b1.otherModuleReferences
    requires forall n :: n in b1.globals ==> b1.globals[n] < |b1.exprs|
    requires forall n :: n in b1.functionBodies ==> b1.functionBodies[n] < |b1.exprs|
    ensures ArenasExtend(b0, b1) && WellFormed(b1, a)
  {
    assert ArenasExtend(b0, b1);
    WellFormedGrow(b0, b1, a, a);
  }

  lemma WellFormedWithArena(b: Bodies, a0: nat, a1: nat)
    requires WellFormed(b, a0) && a0 <= a1
    ensures WellFormed(b, a1)
  {
    WellFormedGrow(b, b, a0, a1);
  }

  /** The parameter names a lambda binds on top of `m`: each named
      parameter maps to its position, a later one shadowing an earlier one
      of the same name. */
  function ParamBindings(m: map<Key, nat>, names: seq<Option<Key>>): map<Key, nat>
  {
    if names == [] then m
    else
      var p := ParamBindings(m, names[..|names| - 1]);
      if names[|names| - 1].Some? then p[names[|names| - 1].value := |names| - 1] else p
  }

  /** A name is bound exactly when it was bound before or names a
      parameter, and then to the last parameter of that name. */
  lemma {:induction false} ParamBindingsSpec(m: map<Key, nat>, names: seq<Option<Key>>, n: Key)
    ensures n in ParamBindings(m, names) <==> n in m || Some(n) in names
    ensures Some(n) in names ==>
      var i := ParamBindings(m, names)[n];
      i < |names| && names[i] == Some(n) && forall j :: i < j < |names| ==> names[j] != Some(n)
    ensures Some(n) !in names && n in m ==> ParamBindings(m, names)[n] == m[n]
    decreases |names|
  {
    if names != [] {
      var init := names[..|names| - 1];
      ParamBindingsSpec(m, init, n);
      assert names == init + [names[|names| - 1]];
      assert Some(n) in names <==> Some(n) in init || names[|names| - 1] == Some(n);
      if names[|names| - 1] != Some(n) && Some(n) in init {
        var i := ParamBindings(m, init)[n];
        assert names[i] == init[i];
      }
    }
  }

  class Ctx {
    var bodies: Bodies
    const moduleName: Name
    const worldIndex: WorldIndex
    /** The names that denote primitive types when referred to as variables. */
    const primitiveTys: set<Name>
    var uidGen: nat
    var twrArena: seq<TyWithRange>
    var diagnostics: seq<LoweringDiagnostic>
    var scopes: seq<Scope>
    var params: map<Key, nat>

    ghost function Now(): Snapshot
      reads this
    {
      Snapshot(bodies, diagnostics, twrArena, uidGen)
    }

    ghost predicate Valid()
      reads this
    {
      |scopes| >= 1 && ScopesPointBelow(scopes, |bodies.localDefs|) && WellFormed(bodies, |twrArena|)
    }

    constructor(moduleName: Name, worldIndex: WorldIndex, primitiveTys: set<Name>, uidGen: nat,
                twrArena: seq<TyWithRange>)
      ensures Valid()
      ensures this.moduleName == moduleName && this.worldIndex == worldIndex && this.primitiveTys == primitiveTys
      ensures this.uidGen == uidGen && this.twrArena == twrArena
      ensures bodies == EmptyBodies && diagnostics == [] && scopes == [map[]] && params == map[]
    {
      bodies := EmptyBodies;
      this.moduleName := moduleName;
      this.worldIndex := worldIndex;
      this.primitiveTys := primitiveTys;
      this.uidGen := uidGen;
      this.twrArena := twrArena;
      diagnostics := [];
      scopes := [map[]];
      params := map[];
    }

    // -------------------------------------------------------------------
    // Allocation.

    method PushDiagnostic(d: LoweringDiagnostic)
      modifies this
      ensures diagnostics == old(diagnostics) + [d]
      ensures bodies == old(bodies) && twrArena == old(twrArena) && uidGen == old(uidGen)
      ensures scopes == old(scopes) && params == old(params)
    {
      diagnostics := diagnostics + [d];
    }

    method AllocExpr(e: Expr, range: Option<TextRange>) returns (id: nat)
      requires Valid() && ExprRefsBelow(bodies, e, |bodies.exprs|, |twrArena|)
      modifies this
      ensures Valid() && ArenasExtend(old(bodies), bodies)
      ensures id == |old(bodies.exprs)| && bodies == WithExpr(old(bodies), e, range)
      ensures diagnostics == old(diagnostics) && twrArena == old(twrArena) && uidGen == old(uidGen)
      ensures scopes == old(scopes) && params == old(params)
    {
      WellFormedWithExpr(bodies, |twrArena|, e, range);
      id := |bodies.exprs|;
      bodies := WithExpr(bodies, e, range);
    }

    method AllocStmt(s: Stmt) returns (id: nat)
      requires Valid() && StmtRefsOk(bodies, s)
      modifies this
      ensures Valid() && ArenasExtend(old(bodies), bodies)
      ensures id == |old(bodies.stmts)| && bodies == old(bodies).(stmts := old(bodies.stmts) + [s])
      ensures diagnostics == old(diagnostics) && twrArena == old(twrArena) && uidGen == old(uidGen)
      ensures scopes == old(scopes) && params == old(params)
    {
      WellFormedWithStmt(bodies, |twrArena|, s);
      id := |bodies.stmts|;
      bodies := bodies.(stmts := bodies.stmts + [s]);
    }

    method AllocLocalDef(d: LocalDef) returns (id: nat)
      requires Valid() && d.value < |bodies.exprs|
      modifies this
      ensures Valid() && ArenasExtend(old(bodies), bodies)
      ensures id == |old(bodies.localDefs)| && bodies == old(bodies).(localDefs := old(bodies.localDefs) + [d])
      ensures diagnostics == old(diagnostics) && twrArena == old(twrArena) && uidGen == old(uidGen)
      ensures scopes == old(scopes) && params == old(params)
    {
      WellFormedWithLocalDef(bodies, |twrArena|, d);
      id := |bodies.localDefs|;
      bodies := bodies.(localDefs := bodies.localDefs + [d]);
    }

    method AllocLocalSet(l: LocalSet) returns (id: nat)
      requires Valid() && l.value < |bodies.exprs|
      modifies this
      ensures Valid() && ArenasExtend(old(bodies), bodies)
      ensures id == |old(bodies.localSets)| && bodies == old(bodies).(localSets := old(bodies.localSets) + [l])
      ensures diagnostics == old(diagnostics) && twrArena == old(twrArena) && uidGen == old(uidGen)
      ensures scopes == old(scopes) && params == old(params)
    {
      WellFormedWithLocalSet(bodies, |twrArena|, l);
      id := |bodies.localSets|;
      bodies := bodies.(localSets := bodies.localSets + [l]);
    }

    method AllocTy(t: TyWithRange) returns (idx: nat)
      requires Valid()
      modifies this
      ensures Valid()
      ensures idx == |old(twrArena)| && twrArena == old(twrArena) + [t]
      ensures bodies == old(bodies) && diagnostics == old(diagnostics) && uidGen == old(uidGen)
      ensures scopes == old(scopes) && params == old(params)
    {
      WellFormedWithArena(bodies, |twrArena|, |twrArena| + 1);
      idx := |twrArena|;
      twrArena := twrArena + [t];
    }

    /** Each call hands out a number never handed out before. */
    method GenerateUniqueId() returns (uid: nat)
      modifies this
      ensures uid == old(uidGen) && uidGen == old(uidGen) + 1
      ensures bodies == old(bodies) && diagnostics == old(diagnostics) && twrArena == old(twrArena)
      ensures scopes == old(scopes) && params == old(params)
    {
      uid := uidGen;
      uidGen := uidGen + 1;
    }

    // -------------------------------------------------------------------
    // Scopes.

    /** Panics when there is no scope at all. */
    method InsertIntoCurrentScope(name: Key, value: nat)
      requires Valid() && value < |bodies.localDefs|
      modifies this
      ensures Valid()
      ensures scopes == old(scopes)[..|old(scopes)| - 1] + [old(scopes)[|old(scopes)| - 1][name := value]]
      ensures bodies == old(bodies) && diagnostics == old(diagnostics) && twrArena == old(twrArena)
      ensures uidGen == old(uidGen) && params == old(params)
    {
      scopes := scopes[..|scopes| - 1] + [scopes[|scopes| - 1][name := value]];
    }

    /** Searches the scopes from the innermost outwards. */
    method LookUpInCurrentScope(name: Key) returns (r: Option<nat>)
      ensures r == Resolve(scopes, name)
    {
      var i := |scopes|;
      assert scopes[..i] == scopes;
      while i > 0
        invariant 0 <= i <= |scopes|
        invariant Resolve(scopes, name) == Resolve(scopes[..i], name)
      {
        assert scopes[..i][..i - 1] == scopes[..i - 1];
        if name in scopes[i - 1] {
          return Some(scopes[i - 1][name]);
        }
        i := i - 1;
      }
      r := None;
    }

    method CreateNewChildScope()
      requires Valid()
      modifies this
      ensures Valid() && scopes == old(scopes) + [map[]]
      ensures bodies == old(bodies) && diagnostics == old(diagnostics) && twrArena == old(twrArena)
      ensures uidGen == old(uidGen) && params == old(params)
    {
      scopes := scopes + [map[]];
    }

    /** Popping an empty stack does nothing. */
    method DestroyCurrentScope()
      modifies this
      ensures scopes == if old(scopes) == [] then [] else old(scopes)[..|old(scopes)| - 1]
      ensures bodies == old(bodies) && diagnostics == old(diagnostics) && twrArena == old(twrArena)
      ensures uidGen == old(uidGen) && params == old(params)
    {
      if scopes != [] {
        scopes := scopes[..|scopes| - 1];
      }
    }

    // -------------------------------------------------------------------
    // Types.

    /** A type that does not parse is reported and becomes `Unknown`;
        either way the arena keeps what the parser allocated and the
        unique-id counter what it drew. */
    method LowerTy(o: ParseOutcome) returns (ty: TyWithRange)
      requires Valid()
      modifies this
      ensures Valid()
      ensures ty == ParsedTy(o) && diagnostics == old(diagnostics) + ParseDiagnostics(o)
      ensures twrArena == old(twrArena) + o.nested && uidGen == old(uidGen) + o.uids
      ensures bodies == old(bodies) && scopes == old(scopes) && params == old(params)
    {
      WellFormedWithArena(bodies, |twrArena|, |twrArena| + |o.nested|);
      twrArena := twrArena + o.nested;
      uidGen := uidGen + o.uids;
      match o
      case Parsed(t, _, _) =>
        ty := t;
      case ParseError(why, range, _, _) =>
        PushDiagnostic(LoweringDiagnostic(TyParseError(why), range));
        ty := Unknown;
    }

    // -------------------------------------------------------------------
    // Expressions.

    /** Allocates the lowered expression, or `Missing` when there is none,
        as the newest expression, recording the range of written ones. */
    method LowerExpr(e: Option<AstExpr>) returns (id: nat)
      requires Valid()
      modifies this
      ensures Valid() && Grew(old(Now()), Now())
      ensures scopes == old(scopes) && params == old(params)
      ensures |old(bodies.exprs)| <= id && id + 1 == |bodies.exprs|
      ensures e.None? ==> bodies == WithExpr(old(bodies), Missing, None) && diagnostics == old(diagnostics)
      ensures e.Some? ==> id in bodies.exprRanges && bodies.exprRanges[id] == e.value.range
      ensures e.Some? ==> LoweredAs(e.value, bodies.exprs[id], |old(bodies.exprs)|, id, |old(bodies.stmts)|,
                                    old(twrArena), old(uidGen), old(scopes), old(params))
      decreases e, 3
    {
      if e.None? {
        id := AllocExpr(Missing, None);
        return;
      }
      var raw := LowerExprRaw(e.value);
      id := AllocExpr(raw, Some(e.value.range));
    }

    /** What an expression lowers to, by its kind, in terms of where the
        lowering started: `exprs0` expressions and `stmts0` statements
        allocated, the arena `a0`, the unique-id counter `u0`, the scopes
        `scopes0` and the parameters `params0`; `exprs1` expressions are
        allocated when it is done. Sub-expressions and statements are
        allocated during the lowering, so their ids are at least `exprs0`
        and `stmts0`. */
    ghost predicate LoweredAs(x: AstExpr, r: Expr, exprs0: nat, exprs1: nat, stmts0: nat, a0: seq<TyWithRange>,
                              u0: nat, scopes0: seq<Scope>, params0: map<Key, nat>)
    {
      match x.kind
      case ACast(_, o) => r.Cast? && r.castTy == ParsedTy(o) && exprs0 <= r.expr && r.expr + 1 == exprs1
      case ARef(_) => r.Ref? && exprs0 <= r.expr && r.expr + 1 == exprs1
      case ADeref(_) => r.Deref? && exprs0 <= r.pointer && r.pointer + 1 == exprs1
      case ABinary(_, _, op) =>
        if op.None? then r == Missing else r.Binary? && r.binaryOp == op.value && exprs0 <= r.lhs < r.rhs && r.rhs + 1 == exprs1
      case AUnary(_, op) =>
        if op.None? then r == Missing else r.Unary? && r.unaryOp == op.value && exprs0 <= r.expr && r.expr + 1 == exprs1
      case AArray(o, body) =>
        if body.None? then r == Missing
        else
          && r.Array? && r.arrayTy == ParsedTy(o) && |r.items| == |body.value.items|
          && forall k :: 0 <= k < |r.items| ==> exprs0 <= r.items[k]
      case ABlock(b) =>
        && r.Block? && |r.stmts| == |b.stmts| && (r.tailExpr.Some? <==> b.tailExpr.Some?)
        && forall k :: 0 <= k < |r.stmts| ==> stmts0 <= r.stmts[k]
      case AIf(_, _, el) => r.If? && exprs0 <= r.condition < r.body && (r.elseBranch.Some? <==> el.Some?)
      case AWhile(c, _) => r.While? && (r.whileCondition.Some? <==> c.Some?) && exprs0 <= r.body && r.body + 1 == exprs1
      case AIndex(_, _) => r.Index? && exprs0 <= r.base < r.index
      case ACall(_, _) => CallResult(scopes0, params0, x, r, exprs0, |a0|)
      case AVarRef(_) => r == VarRefValue(scopes0, params0, x, |a0|)
      case AIntLiteral(v) => r == if v.Some? then IntLiteral(v.value) else Missing
      case ABoolLiteral(b) => r == BoolLiteral(b)
      case AStringLiteral(cs) => r == StringLiteral(DecodedText(cs))
      case ADistinct(o) => r == Distinct(u0 + o.uids, |a0| + |o.nested|)
    }

    method LowerExprRaw(x: AstExpr) returns (r: Expr)
      requires Valid()
      modifies this
      ensures Valid() && Grew(old(Now()), Now())
      ensures scopes == old(scopes) && params == old(params)
      ensures ExprRefsBelow(bodies, r, |bodies.exprs|, |twrArena|)
      ensures LoweredAs(x, r, |old(bodies.exprs)|, |bodies.exprs|, |old(bodies.stmts)|, old(twrArena), old(uidGen),
                        old(scopes), old(params))
      decreases x, 4
    {
      match x.kind
      case ACast(_, _) => r := LowerCast(x);
      case ARef(_) => r := LowerRef(x);
      case ADeref(_) => r := LowerDeref(x);
      case ABinary(_, _, _) => r := LowerBinary(x);
      case AUnary(_, _) => r := LowerUnary(x);
      case AArray(_, _) => r := LowerArray(x);
      case ABlock(_) => r := LowerBlock(x);
      case AIf(_, _, _) => r := LowerIf(x);
      case _ => r := LowerOtherExpr(x);
    }

    /** `LowerExprRaw` for the remaining kinds of expression. */
    method LowerOtherExpr(x: AstExpr) returns (r: Expr)
      requires Valid()
      requires !(x.kind.ACast? || x.kind.ARef? || x.kind.ADeref? || x.kind.ABinary? || x.kind.AUnary?
                 || x.kind.AArray? || x.kind.ABlock? || x.kind.AIf?)
      modifies this
      ensures Valid() && Grew(old(Now()), Now())
      ensures scopes == old(scopes) && params == old(params)
      ensures ExprRefsBelow(bodies, r, |bodies.exprs|, |twrArena|)
      ensures LoweredAs(x, r, |old(bodies.exprs)|, |bodies.exprs|, |old(bodies.stmts)|, old(twrArena), old(uidGen),
                        old(scopes), old(params))
      decreases x, 3
    {
      match x.kind
      case AWhile(_, _) => r := LowerWhile(x);
      case ACall(_, _) => r := LowerCall(x);
      case AIndex(_, _) => r := LowerIndex(x);
      case AVarRef(_) => r := LowerVarRef(x);
      case AIntLiteral(_) => r := LowerIntLiteral(x);
      case ABoolLiteral(b) => r := BoolLiteral(b);
      case AStringLiteral(_) => r := LowerStringLiteral(x);
      case ADistinct(_) => r := LowerDistinct(x);
    }

    /** The target type is lowered before the operand. */
    method LowerCast(x: AstExpr) returns (r: Expr)
      requires Valid() && x.kind.ACast?
      modifies this
      ensures Valid() && Grew(old(Now()), Now())
      ensures scopes == old(scopes) && params == old(params)
      ensures ExprRefsBelow(bodies, r, |bodies.exprs|, |twrArena|)
      ensures r.Cast? && r.castTy == ParsedTy(x.kind.castTy) && |old(bodies.exprs)| <= r.expr && r.expr + 1 == |bodies.exprs|
      ensures old(diagnostics) + ParseDiagnostics(x.kind.castTy) <= diagnostics
      decreases x, 1
    {
      var ty := LowerTy(x.kind.castTy);
      ghost var s1 := Now();
      var e := LowerExpr(x.kind.castExpr);
      GrewTrans(old(Now()), s1, Now());
      r := Cast(e, ty);
    }

    method LowerRef(x: AstExpr) returns (r: Expr)
      requires Valid() && x.kind.ARef?
      modifies this
      ensures Valid() && Grew(old(Now()), Now())
      ensures scopes == old(scopes) && params == old(params)
      ensures ExprRefsBelow(bodies, r, |bodies.exprs|, |twrArena|)
      ensures r.Ref? && |old(bodies.exprs)| <= r.expr && r.expr + 1 == |bodies.exprs|
      decreases x, 1
    {
      var e := LowerExpr(x.kind.refExpr);
      r := Ref(e);
    }

    method LowerDeref(x: AstExpr) returns (r: Expr)
      requires Valid() && x.kind.ADeref?
      modifies this
      ensures Valid() && Grew(old(Now()), Now())
      ensures scopes == old(scopes) && params == old(params)
      ensures ExprRefsBelow(bodies, r, |bodies.exprs|, |twrArena|)
      ensures r.Deref? && |old(bodies.exprs)| <= r.pointer && r.pointer + 1 == |bodies.exprs|
      decreases x, 1
    {
      var e := LowerExpr(x.kind.pointer);
      r := Deref(e);
    }

    /** Both operands are lowered even when the operator is missing, which
        makes the whole expression `Missing`. */
    method LowerBinary(x: AstExpr) returns (r: Expr)
      requires Valid() && x.kind.ABinary?
      modifies this
      ensures Valid() && Grew(old(Now()), Now())
      ensures scopes == old(scopes) && params == old(params)
      ensures ExprRefsBelow(bodies, r, |bodies.exprs|, |twrArena|)
      ensures |bodies.exprs| >= |old(bodies.exprs)| + 2
      ensures x.kind.binaryOp.None? ==> r == Missing
      ensures x.kind.binaryOp.Some? ==> r.Binary? && r.binaryOp == x.kind.binaryOp.value && |old(bodies.exprs)| <= r.lhs < r.rhs
      ensures x.kind.binaryOp.Some? ==> r.rhs + 1 == |bodies.exprs|
      decreases x, 1
    {
      var lhs := LowerExpr(x.kind.lhs);
      ghost var s1 := Now();
      var rhs := LowerExpr(x.kind.rhs);
      GrewTrans(old(Now()), s1, Now());
      if x.kind.binaryOp.None? {
        return Missing;
      }
      r := Binary(lhs, rhs, x.kind.binaryOp.value);
    }

    method LowerUnary(x: AstExpr) returns (r: Expr)
      requires Valid() && x.kind.AUnary?
      modifies this
      ensures Valid() && Grew(old(Now()), Now())
      ensures scopes == old(scopes) && params == old(params)
      ensures ExprRefsBelow(bodies, r, |bodies.exprs|, |twrArena|)
      ensures |bodies.exprs| > |old(bodies.exprs)|
      ensures x.kind.unaryOp.None? ==> r == Missing
      ensures x.kind.unaryOp.Some? ==> r.Unary? && r.unaryOp == x.kind.unaryOp.value && |old(bodies.exprs)| <= r.expr
      ensures x.kind.unaryOp.Some? ==> r.expr + 1 == |bodies.exprs|
      decreases x, 1
    {
      var e := LowerExpr(x.kind.operand);
      if x.kind.unaryOp.None? {
        return Missing;
      }
      r := Unary(e, x.kind.unaryOp.value);
    }

    /** A missing body is reported just past the end of the expression;
        otherwise every item is lowered, in order. */
    method LowerArray(x: AstExpr) returns (r: Expr)
      requires Valid() && x.kind.AArray?
      modifies this
      ensures Valid() && Grew(old(Now()), Now())
      ensures scopes == old(scopes) && params == old(params)
      ensures ExprRefsBelow(bodies, r, |bodies.exprs|, |twrArena|)
      ensures x.kind.arrayBody.None? ==>
        r == Missing && bodies == old(bodies) && diagnostics == old(diagnostics) + ParseDiagnostics(x.kind.arrayTy) +
          [LoweringDiagnostic(ArrayMissingBody, TextRange(x.range.end, x.range.end + 1))]
      ensures x.kind.arrayBody.Some? ==>
        r.Array? && |r.items| == |x.kind.arrayBody.value.items| && r.arrayTy == ParsedTy(x.kind.arrayTy)
          && forall k :: 0 <= k < |r.items| ==> |old(bodies.exprs)| <= r.items[k]
      decreases x, 1
    {
      var ty := LowerTy(x.kind.arrayTy);
      if x.kind.arrayBody.None? {
        PushDiagnostic(LoweringDiagnostic(ArrayMissingBody, TextRange(x.range.end, x.range.end + 1)));
        return Missing;
      }
      var body := x.kind.arrayBody.value.items;
      var items: seq<nat> := [];
      var i := 0;
      while i < |body|
        invariant 0 <= i <= |body| && |items| == i
        invariant Valid() && Grew(old(Now()), Now())
        invariant scopes == old(scopes) && params == old(params)
        invariant forall k :: 0 <= k < i ==> |old(bodies.exprs)| <= items[k] < |bodies.exprs|
      {
        assert body[i] in body;
        ghost var s1 := Now();
        var item := LowerExpr(body[i]);
        GrewTrans(old(Now()), s1, Now());
        items := items + [item];
        i := i + 1;
      }
      r := Array(items, ty);
    }

    /** The statements and the tail are lowered in a fresh innermost scope,
        which is dropped afterwards. */
    method LowerBlock(x: AstExpr) returns (r: Expr)
      requires Valid() && x.kind.ABlock?
      modifies this
      ensures Valid() && Grew(old(Now()), Now())
      ensures scopes == old(scopes) && params == old(params)
      ensures ExprRefsBelow(bodies, r, |bodies.exprs|, |twrArena|)
      ensures r.Block? && |r.stmts| == |x.kind.block.stmts| && (r.tailExpr.Some? <==> x.kind.block.tailExpr.Some?)
      ensures forall k :: 0 <= k < |r.stmts| ==> |old(bodies.stmts)| <= r.stmts[k]
      decreases x, 1
    {
      var block := x.kind.block;
      CreateNewChildScope();
      ghost var inner := scopes;
      var stmts := LowerStmts(x);
      assert scopes[..|scopes| - 1] == inner[..|inner| - 1] == old(scopes);
      var tail: Option<nat> := None;
      if block.tailExpr.Some? {
        ghost var s1 := Now();
        var t := LowerExpr(block.tailExpr);
        GrewTrans(old(Now()), s1, Now());
        tail := Some(t);
      }
      DestroyCurrentScope();
      r := Block(stmts, tail);
    }

    /** Lowers and allocates a block's statements in order; each may bind
        names in the innermost scope only. */
    method LowerStmts(x: AstExpr) returns (stmts: seq<nat>)
      requires Valid() && x.kind.ABlock?
      modifies this
      ensures Valid() && Grew(old(Now()), Now()) && params == old(params)
      ensures |scopes| == |old(scopes)| && scopes[..|scopes| - 1] == old(scopes)[..|scopes| - 1]
      ensures |stmts| == |x.kind.block.stmts|
      ensures forall k :: 0 <= k < |stmts| ==> |old(bodies.stmts)| <= stmts[k] < |bodies.stmts|
      decreases x, 0
    {
      var block := x.kind.block;
      stmts := [];
      var i := 0;
      while i < |block.stmts|
        invariant 0 <= i <= |block.stmts| && |stmts| == i
        invariant Valid() && Grew(old(Now()), Now()) && params == old(params)
        invariant |scopes| == |old(scopes)| && scopes[..|scopes| - 1] == old(scopes)[..|scopes| - 1]
        invariant forall k :: 0 <= k < i ==> |old(bodies.stmts)| <= stmts[k] < |bodies.stmts|
      {
        assert block.stmts[i] in block.stmts;
        ghost var s1 := Now();
        var statement := LowerStmt(block.stmts[i]);
        ghost var s2 := Now();
        var id := AllocStmt(statement);
        assert Grew(s2, Now());
        GrewTrans(s1, s2, Now());
        GrewTrans(old(Now()), s1, Now());
        stmts := stmts + [id];
        i := i + 1;
      }
    }

    method LowerIf(x: AstExpr) returns (r: Expr)
      requires Valid() && x.kind.AIf?
      modifies this
      ensures Valid() && Grew(old(Now()), Now())
      ensures scopes == old(scopes) && params == old(params)
      ensures ExprRefsBelow(bodies, r, |bodies.exprs|, |twrArena|)
      ensures r.If? && |old(bodies.exprs)| <= r.condition < r.body && (r.elseBranch.Some? <==> x.kind.elseBranch.Some?)
      decreases x, 1
    {
      var condition := LowerExpr(x.kind.condition);
      ghost var s1 := Now();
      var body := LowerExpr(x.kind.ifBody);
      GrewTrans(old(Now()), s1, Now());
      var elseBranch: Option<nat> := None;
      if x.kind.elseBranch.Some? {
        ghost var s2 := Now();
        var e := LowerExpr(x.kind.elseBranch.value);
        GrewTrans(old(Now()), s2, Now());
        elseBranch := Some(e);
      }
      r := If(condition, body, elseBranch);
    }

    /** A `loop` has no condition. */
    method LowerWhile(x: AstExpr) returns (r: Expr)
      requires Valid() && x.kind.AWhile?
      modifies this
      ensures Valid() && Grew(old(Now()), Now())
      ensures scopes == old(scopes) && params == old(params)
      ensures ExprRefsBelow(bodies, r, |bodies.exprs|, |twrArena|)
      ensures r.While? && (r.whileCondition.Some? <==> x.kind.whileCondition.Some?)
      ensures |old(bodies.exprs)| <= r.body && r.body + 1 == |bodies.exprs|
      decreases x, 1
    {
      var condition: Option<nat> := None;
      if x.kind.whileCondition.Some? {
        var c := LowerExpr(x.kind.whileCondition);
        condition := Some(c);
      }
      ghost var s1 := Now();
      var body := LowerExpr(x.kind.whileBody);
      GrewTrans(old(Now()), s1, Now());
      r := While(condition, body);
    }

    method LowerIndex(x: AstExpr) returns (r: Expr)
      requires Valid() && x.kind.AIndex?
      modifies this
      ensures Valid() && Grew(old(Now()), Now())
      ensures scopes == old(scopes) && params == old(params)
      ensures ExprRefsBelow(bodies, r, |bodies.exprs|, |twrArena|)
      ensures r.Index? && |old(bodies.exprs)| <= r.base < r.index
      decreases x, 1
    {
      var base := LowerExpr(x.kind.base);
      ghost var s1 := Now();
      var index := LowerExpr(x.kind.subscript);
      GrewTrans(old(Now()), s1, Now());
      r := Index(base, index);
    }

    /** A literal that does not fit a `u64` is reported. */
    method LowerIntLiteral(x: AstExpr) returns (r: Expr)
      requires Valid() && x.kind.AIntLiteral?
      modifies this
      ensures Valid() && bodies == old(bodies) && twrArena == old(twrArena) && uidGen == old(uidGen)
      ensures scopes == old(scopes) && params == old(params)
      ensures x.kind.intValue.Some? ==> r == IntLiteral(x.kind.intValue.value) && diagnostics == old(diagnostics)
      ensures x.kind.intValue.None? ==>
        r == Missing && diagnostics == old(diagnostics) + [LoweringDiagnostic(OutOfRangeIntLiteral, x.range)]
    {
      if x.kind.intValue.Some? {
        return IntLiteral(x.kind.intValue.value);
      }
      PushDiagnostic(LoweringDiagnostic(OutOfRangeIntLiteral, x.range));
      r := Missing;
    }

    /** Decodes the components in order; unknown escapes are reported and
        dropped. */
    method LowerStringLiteral(x: AstExpr) returns (r: Expr)
      requires Valid() && x.kind.AStringLiteral?
      modifies this
      ensures Valid() && bodies == old(bodies) && twrArena == old(twrArena) && uidGen == old(uidGen)
      ensures scopes == old(scopes) && params == old(params)
      ensures r == StringLiteral(DecodedText(x.kind.components))
      ensures diagnostics == old(diagnostics) + EscapeDiagnostics(x.kind.components)
    {
      var cs := x.kind.components;
      var text := "";
      var i := 0;
      while i < |cs|
        invariant 0 <= i <= |cs|
        invariant text == DecodedText(cs[..i]) && diagnostics == old(diagnostics) + EscapeDiagnostics(cs[..i])
        invariant bodies == old(bodies) && twrArena == old(twrArena) && uidGen == old(uidGen)
        invariant scopes == old(scopes) && params == old(params)
      {
        assert cs[..i + 1][..i] == cs[..i];
        var piece := DecodeComponent(cs[i]);
        text := text + piece;
        i := i + 1;
      }
      assert cs[..i] == cs;
      r := StringLiteral(text);
    }

    /** One turn of the decoding loop: the text a component stands for,
        reporting an unknown escape. */
    method DecodeComponent(c: StringComponent) returns (piece: string)
      modifies this
      ensures piece == ComponentText(c) && diagnostics == old(diagnostics) + ComponentDiagnostics(c)
      ensures bodies == old(bodies) && twrArena == old(twrArena) && uidGen == old(uidGen)
      ensures scopes == old(scopes) && params == old(params)
    {
      match c {
        case Escape(e, range) =>
          match e {
            case '"' => piece := ['"'];
            case '\\' => piece := ['\\'];
            case 'n' => piece := ['\n'];
            case 'r' => piece := ['\r'];
            case 't' => piece := ['\t'];
            case _ =>
              PushDiagnostic(LoweringDiagnostic(InvalidEscape, range));
              piece := [];
          }
        case Contents(t) =>
          piece := t;
      }
    }

    /** Each `distinct` type gets a fresh unique id and an arena slot for
        the type it wraps. */
    method LowerDistinct(x: AstExpr) returns (r: Expr)
      requires Valid() && x.kind.ADistinct?
      modifies this
      ensures Valid() && bodies == old(bodies) && scopes == old(scopes) && params == old(params)
      ensures var o := x.kind.distinctTy;
        && r == Distinct(old(uidGen) + o.uids, |old(twrArena)| + |o.nested|)
        && uidGen == old(uidGen) + o.uids + 1
        && twrArena == old(twrArena) + o.nested + [ParsedTy(o)]
      ensures diagnostics == old(diagnostics) + ParseDiagnostics(x.kind.distinctTy)
    {
      var ty := LowerTy(x.kind.distinctTy);
      var uid := GenerateUniqueId();
      var idx := AllocTy(ty);
      r := Distinct(uid, idx);
    }

    // -------------------------------------------------------------------
    // Names.

    /** A qualified name is looked up in the world index; a plain one is a
        local, then a parameter, then a global of this module, then a
        primitive type, and otherwise undefined. */
    method LowerVarRef(x: AstExpr) returns (r: Expr)
      requires Valid() && x.kind.AVarRef?
      modifies this
      ensures Valid() && Grew(old(Now()), Now())
      ensures scopes == old(scopes) && params == old(params) && uidGen == old(uidGen)
      ensures ExprRefsBelow(bodies, r, |bodies.exprs|, |twrArena|)
      ensures bodies.exprs == old(bodies.exprs)
      ensures x.kind.path.None? || x.kind.path.value.topLevel.None? ==> r == Missing && diagnostics == old(diagnostics)
      ensures r == VarRefValue(old(scopes), old(params), x, |old(twrArena)|)
      ensures VarRefOutcome(old(bodies), bodies, old(diagnostics), diagnostics, old(twrArena), twrArena, old(scopes), old(params), x, r)
    {
      if x.kind.path.None? || x.kind.path.value.topLevel.None? {
        return Missing;
      }
      var top := x.kind.path.value.topLevel.value;
      if x.kind.path.value.nested.Some? {
        var nested := x.kind.path.value.nested.value;
        var fqn := Fqn(top.text, nested.text);
        match worldIndex.GetDefinition(fqn) {
          case Found(_) =>
            WellFormedRetabled(bodies, bodies.(otherModuleReferences := bodies.otherModuleReferences + {fqn}), |twrArena|);
            bodies := bodies.(otherModuleReferences := bodies.otherModuleReferences + {fqn});
            r := Global(OtherModule(fqn));
          case UnknownModule =>
            PushDiagnostic(LoweringDiagnostic(UndefinedModule(top.text), top.range));
            r := Missing;
          case UnknownDefinition =>
            PushDiagnostic(LoweringDiagnostic(UndefinedLocal(nested.text), nested.range));
            r := Missing;
        }
        return;
      }
      var name := top.text;
      var local := LookUpInCurrentScope(name);
      if local.Some? {
        ResolveBelow(scopes, name, |bodies.localDefs|);
        return Local(local.value);
      }
      if name in params {
        return Param(params[name]);
      }
      if worldIndex.GetDefinition(Fqn(moduleName, name)).Found? {
        return Global(ThisModule(name));
      }
      if name in primitiveTys {
        var ty := AllocTy(Primitive(name, top.range));
        return Ty(ty);
      }
      PushDiagnostic(LoweringDiagnostic(UndefinedLocal(name), top.range));
      r := Missing;
    }

    /** What a variable reference lowers to, by the resolution order of the
        source: a qualified name of another module that exists, a local, a
        parameter, a global of this module, a primitive type (in the arena
        slot `arenaLen`), and otherwise nothing. */
    ghost function VarRefValue(scopes0: seq<Scope>, params0: map<Key, nat>, x: AstExpr, arenaLen: nat): Expr
      requires x.kind.AVarRef?
    {
      if x.kind.path.None? || x.kind.path.value.topLevel.None? then Missing
      else
        var top := x.kind.path.value.topLevel.value;
        if x.kind.path.value.nested.Some? then
          var fqn := Fqn(top.text, x.kind.path.value.nested.value.text);
          if worldIndex.GetDefinition(fqn).Found? then Global(OtherModule(fqn)) else Missing
        else
          var name := top.text;
          if Resolve(scopes0, name).Some? then Local(Resolve(scopes0, name).value)
          else if name in params0 then Param(params0[name])
          else if worldIndex.GetDefinition(Fqn(moduleName, name)).Found? then Global(ThisModule(name))
          else if name in primitiveTys then Ty(arenaLen)
          else Missing
    }

    /** What a variable reference lowers to and what it reports, by the
        resolution order of the source. */
    ghost predicate VarRefOutcome(b0: Bodies, b1: Bodies, d0: seq<LoweringDiagnostic>, d1: seq<LoweringDiagnostic>,
                                  a0: seq<TyWithRange>, a1: seq<TyWithRange>, scopes0: seq<Scope>,
                                  params0: map<Key, nat>, x: AstExpr, r: Expr)
      requires x.kind.AVarRef?
      reads this
    {
      x.kind.path.Some? && x.kind.path.value.topLevel.Some? ==>
        var top := x.kind.path.value.topLevel.value;
        if x.kind.path.value.nested.Some? then
          var nested := x.kind.path.value.nested.value;
          var fqn := Fqn(top.text, nested.text);
          && a1 == a0
          && match worldIndex.GetDefinition(fqn)
             case Found(_) =>
               r == Global(OtherModule(fqn)) && b1 == b0.(otherModuleReferences := b0.otherModuleReferences + {fqn})
                 && d1 == d0
             case UnknownModule =>
               r == Missing && b1 == b0 && d1 == d0 + [LoweringDiagnostic(UndefinedModule(top.text), top.range)]
             case UnknownDefinition =>
               r == Missing && b1 == b0 && d1 == d0 + [LoweringDiagnostic(UndefinedLocal(nested.text), nested.range)]
        else
          var name := top.text;
          && b1 == b0
          && (Resolve(scopes0, name).Some? ==> r == Local(Resolve(scopes0, name).value) && d1 == d0 && a1 == a0)
          && (Resolve(scopes0, name).None? && name in params0 ==> r == Param(params0[name]) && d1 == d0 && a1 == a0)
          && (Resolve(scopes0, name).None? && name !in params0 && worldIndex.GetDefinition(Fqn(moduleName, name)).Found? ==>
                r == Global(ThisModule(name)) && d1 == d0 && a1 == a0)
          && (Resolve(scopes0, name).None? && name !in params0 && !worldIndex.GetDefinition(Fqn(moduleName, name)).Found?
                && name in primitiveTys ==>
                r == Ty(|a0|) && a1 == a0 + [Primitive(name, top.range)] && d1 == d0)
          && (Resolve(scopes0, name).None? && name !in params0 && !worldIndex.GetDefinition(Fqn(moduleName, name)).Found?
                && name !in primitiveTys ==>
                r == Missing && a1 == a0 && d1 == d0 + [LoweringDiagnostic(UndefinedLocal(name), top.range)])
    }

    /** Resolves the callee like a variable reference, but reports calls of
        anything other than a function, and lowers the arguments only when
        their number matches the function's parameters. */
    method LowerCall(x: AstExpr) returns (r: Expr)
      requires Valid() && x.kind.ACall?
      modifies this
      ensures Valid() && Grew(old(Now()), Now())
      ensures scopes == old(scopes) && params == old(params)
      ensures ExprRefsBelow(bodies, r, |bodies.exprs|, |twrArena|)
      ensures x.kind.callPath.None? || x.kind.callPath.value.topLevel.None? ==>
        r == Missing && bodies == old(bodies) && diagnostics == old(diagnostics)
      ensures CallResult(old(scopes), old(params), x, r, |old(bodies.exprs)|, |old(twrArena)|)
      ensures CalleeOutcome(old(scopes), old(params), x, r, old(bodies), bodies, old(diagnostics), diagnostics,
                            old(twrArena), twrArena)
      decreases x, 2
    {
      if x.kind.callPath.None? || x.kind.callPath.value.topLevel.None? {
        return Missing;
      }
      var top := x.kind.callPath.value.topLevel.value;
      if x.kind.callPath.value.nested.Some? {
        r := LowerCallOtherModule(x);
        return;
      }
      var name := top.text;
      var local := LookUpInCurrentScope(name);
      if local.Some? {
        ResolveBelow(scopes, name, |bodies.localDefs|);
        PushDiagnostic(LoweringDiagnostic(CalledNonLambda(name), top.range));
        return Local(local.value);
      }
      if name in params {
        PushDiagnostic(LoweringDiagnostic(CalledNonLambda(name), top.range));
        return Param(params[name]);
      }
      var lookup := worldIndex.GetDefinition(Fqn(moduleName, name));
      if !lookup.Found? {
        PushDiagnostic(LoweringDiagnostic(UndefinedLocal(name), top.range));
        return Missing;
      }
      match lookup.definition
      case WorldFunction(n) =>
        r := LowerCallArgs(x, n, ThisModule(name), top);
      case WorldGlobal =>
        PushDiagnostic(LoweringDiagnostic(CalledNonLambda(name), top.range));
        r := Global(ThisModule(name));
      case WorldNamedTy(t) =>
        PushDiagnostic(LoweringDiagnostic(CalledNonLambda(name), top.range));
        var ty := AllocTy(t);
        r := Ty(ty);
    }

    /** A call of `module.name`: an unknown module or name is reported, a
        known one is recorded as referenced, and only a function is
        called. */
    method LowerCallOtherModule(x: AstExpr) returns (r: Expr)
      requires Valid() && x.kind.ACall? && x.kind.callPath.Some?
      requires x.kind.callPath.value.topLevel.Some? && x.kind.callPath.value.nested.Some?
      modifies this
      ensures Valid() && Grew(old(Now()), Now())
      ensures scopes == old(scopes) && params == old(params)
      ensures ExprRefsBelow(bodies, r, |bodies.exprs|, |twrArena|)
      ensures OtherModuleCallOutcome(x, r, old(bodies), bodies, old(diagnostics), diagnostics)
      decreases x, 1
    {
      var top := x.kind.callPath.value.topLevel.value;
      var nested := x.kind.callPath.value.nested.value;
      var fqn := Fqn(top.text, nested.text);
      match worldIndex.GetDefinition(fqn) {
        case Found(def) =>
          WellFormedRetabled(bodies, bodies.(otherModuleReferences := bodies.otherModuleReferences + {fqn}), |twrArena|);
          bodies := bodies.(otherModuleReferences := bodies.otherModuleReferences + {fqn});
          if def.WorldFunction? {
            ghost var s1 := Now();
            r := LowerCallArgs(x, def.paramCount, OtherModule(fqn), nested);
            GrewTrans(old(Now()), s1, Now());
          } else {
            r := Missing;
          }
        case UnknownModule =>
          PushDiagnostic(LoweringDiagnostic(UndefinedModule(top.text), top.range));
          r := Missing;
        case UnknownDefinition =>
          PushDiagnostic(LoweringDiagnostic(UndefinedLocal(nested.text), nested.range));
          r := Missing;
      }
    }

    /** What a call of `module.name` lowers to and reports: a known name
        is recorded as referenced and, when it is a function, called; an
        unknown module or name is reported. */
    ghost predicate OtherModuleCallOutcome(x: AstExpr, r: Expr, b0: Bodies, b1: Bodies,
                                           d0: seq<LoweringDiagnostic>, d1: seq<LoweringDiagnostic>)
      requires x.kind.ACall? && x.kind.callPath.Some?
      requires x.kind.callPath.value.topLevel.Some? && x.kind.callPath.value.nested.Some?
      reads this
    {
      var top := x.kind.callPath.value.topLevel.value;
      var nested := x.kind.callPath.value.nested.value;
      var fqn := Fqn(top.text, nested.text);
      match worldIndex.GetDefinition(fqn)
      case Found(def) =>
        var referenced := b0.(otherModuleReferences := b0.otherModuleReferences + {fqn});
        if def.WorldFunction? then CallArgsOutcome(x, def.paramCount, OtherModule(fqn), nested, r, referenced, b1, d0, d1)
        else r == Missing && b1 == referenced && d1 == d0
      case UnknownModule =>
        r == Missing && b1 == b0 && d1 == d0 + [LoweringDiagnostic(UndefinedModule(top.text), top.range)]
      case UnknownDefinition =>
        r == Missing && b1 == b0 && d1 == d0 + [LoweringDiagnostic(UndefinedLocal(nested.text), nested.range)]
    }

    /** What a call lowers to and reports, by the resolution order of the
        source: a qualified callee as `OtherModuleCallOutcome` says; a local,
        a parameter, a global or a named type is reported as called and used
        as it is (a named type in a new arena slot); a function of this
        module is called; an unknown name is undefined. */
    ghost predicate CalleeOutcome(scopes0: seq<Scope>, params0: map<Key, nat>, x: AstExpr, r: Expr,
                                  b0: Bodies, b1: Bodies, d0: seq<LoweringDiagnostic>, d1: seq<LoweringDiagnostic>,
                                  a0: seq<TyWithRange>, a1: seq<TyWithRange>)
      requires x.kind.ACall?
      reads this
    {
      x.kind.callPath.Some? && x.kind.callPath.value.topLevel.Some? ==>
        if x.kind.callPath.value.nested.Some? then OtherModuleCallOutcome(x, r, b0, b1, d0, d1)
        else
          var top := x.kind.callPath.value.topLevel.value;
          var name := top.text;
          var lookup := worldIndex.GetDefinition(Fqn(moduleName, name));
          var calledNonLambda := d0 + [LoweringDiagnostic(CalledNonLambda(name), top.range)];
          && (Resolve(scopes0, name).Some? ==>
                r == Local(Resolve(scopes0, name).value) && b1 == b0 && d1 == calledNonLambda && a1 == a0)
          && (Resolve(scopes0, name).None? && name in params0 ==>
                r == Param(params0[name]) && b1 == b0 && d1 == calledNonLambda && a1 == a0)
          && (Resolve(scopes0, name).None? && name !in params0 && lookup.Found? ==>
                match lookup.definition
                case WorldFunction(n) => CallArgsOutcome(x, n, ThisModule(name), top, r, b0, b1, d0, d1)
                case WorldGlobal => r == Global(ThisModule(name)) && b1 == b0 && d1 == calledNonLambda && a1 == a0
                case WorldNamedTy(t) => r == Ty(|a0|) && b1 == b0 && d1 == calledNonLambda && a1 == a0 + [t])
          && (Resolve(scopes0, name).None? && name !in params0 && !lookup.Found? ==>
                r == Missing && b1 == b0 && d1 == d0 + [LoweringDiagnostic(UndefinedLocal(name), top.range)] && a1 == a0)
    }

    /** What a call lowers to, by the resolution order of the source: a
        function (of this module or another) is called when the number of
        arguments matches; a local, a parameter, a global of this module and
        a named type (in the arena slot `arenaLen`) are used as they are;
        anything else lowers to nothing. */
    ghost predicate CallResult(scopes0: seq<Scope>, params0: map<Key, nat>, x: AstExpr, r: Expr,
                               exprs0: nat, arenaLen: nat)
      requires x.kind.ACall?
    {
      if x.kind.callPath.None? || x.kind.callPath.value.topLevel.None? then r == Missing
      else
        var top := x.kind.callPath.value.topLevel.value;
        if x.kind.callPath.value.nested.Some? then
          var fqn := Fqn(top.text, x.kind.callPath.value.nested.value.text);
          var lookup := worldIndex.GetDefinition(fqn);
          if lookup.Found? && lookup.definition.WorldFunction? then
            CallArgsResult(x, lookup.definition.paramCount, OtherModule(fqn), r, exprs0)
          else r == Missing
        else
          var name := top.text;
          var lookup := worldIndex.GetDefinition(Fqn(moduleName, name));
          if Resolve(scopes0, name).Some? then r == Local(Resolve(scopes0, name).value)
          else if name in params0 then r == Param(params0[name])
          else if !lookup.Found? then r == Missing
          else match lookup.definition
            case WorldFunction(n) => CallArgsResult(x, n, ThisModule(name), r, exprs0)
            case WorldGlobal => r == Global(ThisModule(name))
            case WorldNamedTy(_) => r == Ty(arenaLen)
    }

    /** A call of a function with `expected` parameters: nothing when the
        number of arguments differs, otherwise a call of `path` whose
        arguments are newly lowered, in order. */
    ghost predicate CallArgsResult(x: AstExpr, expected: nat, path: Path, r: Expr, exprs0: nat)
      requires x.kind.ACall?
    {
      var got := if x.kind.callArgs.Some? then |x.kind.callArgs.value.args| else 0;
      && (expected != got ==> r == Missing)
      && (expected == got ==>
            && r.Call? && r.path == path && |r.args| == got
            && (forall k :: 0 <= k < |r.args| ==> exprs0 <= r.args[k])
            && (forall j, k :: 0 <= j < k < |r.args| ==> r.args[j] < r.args[k]))
    }

    /** What `LowerCallArgs` lowers to and reports: a mismatch in the
        number of arguments is reported at the callee's name and nothing
        is lowered. */
    ghost predicate CallArgsOutcome(x: AstExpr, expected: nat, path: Path, ident: Ident, r: Expr,
                                    b0: Bodies, b1: Bodies, d0: seq<LoweringDiagnostic>, d1: seq<LoweringDiagnostic>)
      requires x.kind.ACall?
    {
      var got := if x.kind.callArgs.Some? then |x.kind.callArgs.value.args| else 0;
      && CallArgsResult(x, expected, path, r, |b0.exprs|)
      && (expected != got ==>
            r == Missing && b1 == b0
            && d1 == d0 + [LoweringDiagnostic(MismatchedArgCount(PathName(path), expected, got), ident.range)])
    }

    /** The arguments are lowered only when there are as many as the callee
        has parameters; otherwise the mismatch is reported at the callee's
        name. */
    method LowerCallArgs(x: AstExpr, expected: nat, path: Path, ident: Ident) returns (r: Expr)
      requires Valid() && x.kind.ACall?
      modifies this
      ensures Valid() && Grew(old(Now()), Now())
      ensures scopes == old(scopes) && params == old(params)
      ensures ExprRefsBelow(bodies, r, |bodies.exprs|, |twrArena|)
      ensures CallArgsOutcome(x, expected, path, ident, r, old(bodies), bodies, old(diagnostics), diagnostics)
      decreases x, 0
    {
      var got := if x.kind.callArgs.Some? then |x.kind.callArgs.value.args| else 0;
      if expected != got {
        PushDiagnostic(LoweringDiagnostic(MismatchedArgCount(PathName(path), expected, got), ident.range));
        return Missing;
      }
      var args: seq<nat> := [];
      if x.kind.callArgs.Some? {
        var argList := x.kind.callArgs.value.args;
        var i := 0;
        while i < |argList|
          invariant 0 <= i <= |argList| && |args| == i
          invariant Valid() && Grew(old(Now()), Now())
          invariant scopes == old(scopes) && params == old(params)
          invariant forall k :: 0 <= k < i ==> |old(bodies.exprs)| <= args[k] < |bodies.exprs|
          invariant forall j, k :: 0 <= j < k < i ==> args[j] < args[k]
        {
          assert argList[i] in argList;
          ghost var s1 := Now();
          var a := LowerExpr(argList[i]);
          GrewTrans(old(Now()), s1, Now());
          args := args + [a];
          i := i + 1;
        }
      }
      r := Call(path, args);
    }

    // -------------------------------------------------------------------
    // Statements.

    /** A statement may bind a name in the innermost scope and changes no
        other scope. */
    method LowerStmt(s: AstStmt) returns (r: Stmt)
      requires Valid()
      modifies this
      ensures Valid() && Grew(old(Now()), Now())
      ensures params == old(params) && StmtRefsOk(bodies, r)
      ensures |scopes| == |old(scopes)| && scopes[..|scopes| - 1] == old(scopes)[..|scopes| - 1]
      ensures s.SDefine? ==> r.LocalDefStmt?
      ensures s.SAssign? ==> r.LocalSetStmt?
      ensures s.SExpr? ==> r.ExprStmt? && scopes == old(scopes)
      decreases s, 0
    {
      match s
      case SDefine(d) =>
        r := LowerLocalDefine(d);
      case SAssign(a) =>
        r := LowerAssignment(a);
      case SExpr(e) =>
        var id := LowerExpr(e);
        r := ExprStmt(id);
    }

    /** The value is lowered before the name is bound, so it cannot refer
        to the new local. */
    method LowerLocalDefine(d: AstDefine) returns (r: Stmt)
      requires Valid()
      modifies this
      ensures Valid() && Grew(old(Now()), Now())
      ensures params == old(params)
      ensures r.LocalDefStmt? && r.localDef + 1 == |bodies.localDefs|
      ensures bodies.localDefs[r.localDef].mutable == d.isVariable
      ensures bodies.localDefs[r.localDef].ty == ParsedTy(d.ty)
      ensures bodies.localDefs[r.localDef].value + 1 == |bodies.exprs|
      ensures d.value.None? ==> bodies.exprs[bodies.localDefs[r.localDef].value] == Missing
      ensures d.value.Some? ==>
        LoweredAs(d.value.value, bodies.exprs[bodies.localDefs[r.localDef].value], |old(bodies.exprs)|,
                  bodies.localDefs[r.localDef].value, |old(bodies.stmts)|, old(twrArena) + d.ty.nested,
                  old(uidGen) + d.ty.uids, old(scopes), old(params))
      ensures old(diagnostics) + ParseDiagnostics(d.ty) <= diagnostics
      ensures d.name.None? ==> scopes == old(scopes)
      ensures d.name.Some? ==>
        scopes == old(scopes)[..|old(scopes)| - 1] + [old(scopes)[|old(scopes)| - 1][d.name.value.text := r.localDef]]
      decreases d, 1
    {
      var ty, value := LowerDefineParts(d);
      ghost var s2 := Now();
      ghost var lowered := bodies.exprs[value];
      var id := AllocLocalDef(LocalDef(d.isVariable, ty, value));
      assert bodies.exprs[value] == lowered;
      assert Grew(s2, Now());
      GrewTrans(old(Now()), s2, Now());
      if d.name.Some? {
        InsertIntoCurrentScope(d.name.value.text, id);
      }
      r := LocalDefStmt(id);
    }

    /** The declared type of a definition and its value, lowered in that
        order; the value becomes the newest expression. */
    method LowerDefineParts(d: AstDefine) returns (ty: TyWithRange, value: nat)
      requires Valid()
      modifies this
      ensures Valid() && Grew(old(Now()), Now())
      ensures scopes == old(scopes) && params == old(params)
      ensures ty == ParsedTy(d.ty) && |old(bodies.exprs)| <= value && value + 1 == |bodies.exprs|
      ensures d.value.None? ==> bodies.exprs[value] == Missing
      ensures d.value.Some? ==>
        LoweredAs(d.value.value, bodies.exprs[value], |old(bodies.exprs)|, value, |old(bodies.stmts)|,
                  old(twrArena) + d.ty.nested, old(uidGen) + d.ty.uids, old(scopes), old(params))
      ensures old(diagnostics) + ParseDiagnostics(d.ty) <= diagnostics
      decreases d, 0
    {
      ty := LowerTy(d.ty);
      ghost var s1 := Now();
      value := LowerExpr(d.value);
      GrewTrans(old(Now()), s1, Now());
    }

    /** Reports assigning to anything but a mutable local, then lowers the
        value and records the assignment against the resolved local. */
    method LowerAssignment(a: AstAssign) returns (r: Stmt)
      requires Valid()
      modifies this
      ensures Valid() && Grew(old(Now()), Now())
      ensures scopes == old(scopes) && params == old(params)
      ensures r.LocalSetStmt? && r.localSet + 1 == |bodies.localSets|
      ensures bodies.localSets[r.localSet].localDef == Resolve(old(scopes), a.name.text)
      ensures bodies.localSets[r.localSet].value + 1 == |bodies.exprs|
      ensures a.value.None? ==> bodies.exprs[bodies.localSets[r.localSet].value] == Missing
      ensures a.value.Some? ==>
        LoweredAs(a.value.value, bodies.exprs[bodies.localSets[r.localSet].value], |old(bodies.exprs)|,
                  bodies.localSets[r.localSet].value, |old(bodies.stmts)|, old(twrArena), old(uidGen),
                  old(scopes), old(params))
      ensures old(diagnostics) + AssignmentDiagnostics(
                LocalMutability(old(bodies.localDefs), Resolve(old(scopes), a.name.text)),
                worldIndex.GetDefinition(Fqn(moduleName, a.name.text)).Found? || a.name.text in old(params), a)
              <= diagnostics
      decreases a, 0
    {
      var localDef := CheckAssignment(a);
      ghost var s1 := Now();
      var value := LowerExpr(a.value);
      GrewTrans(old(Now()), s1, Now());
      ghost var s2 := Now();
      var id := AllocLocalSet(LocalSet(localDef, value));
      assert Grew(s2, Now());
      GrewTrans(old(Now()), s2, Now());
      r := LocalSetStmt(id);
    }

    /** The diagnostics of assigning to `a.name`, and the local it resolves
        to. */
    method CheckAssignment(a: AstAssign) returns (localDef: Option<nat>)
      requires Valid()
      modifies this
      ensures Valid() && localDef == Resolve(scopes, a.name.text)
      ensures localDef.Some? ==> localDef.value < |bodies.localDefs|
      ensures diagnostics == old(diagnostics) + AssignmentDiagnostics(
                LocalMutability(bodies.localDefs, localDef),
                worldIndex.GetDefinition(Fqn(moduleName, a.name.text)).Found? || a.name.text in params, a)
      ensures bodies == old(bodies) && twrArena == old(twrArena) && uidGen == old(uidGen)
      ensures scopes == old(scopes) && params == old(params)
    {
      var name := a.name.text;
      localDef := LookUpInCurrentScope(name);
      ResolveBelow(scopes, name, |bodies.localDefs|);
      if localDef.None? {
        if worldIndex.GetDefinition(Fqn(moduleName, name)).Found? || name in params {
          PushDiagnostic(LoweringDiagnostic(SetImmutable(name), a.range));
        } else {
          PushDiagnostic(LoweringDiagnostic(UndefinedLocal(name), a.name.range));
        }
      } else if !bodies.localDefs[localDef.value].mutable {
        PushDiagnostic(LoweringDiagnostic(SetImmutable(name), a.range));
      }
    }

    // -------------------------------------------------------------------
    // Top-level definitions.

    /** Only the first global of each name is lowered. */
    method LowerGlobal(nameToken: Option<Ident>, e: Option<AstExpr>)
      requires Valid()
      modifies this
      ensures Valid() && ArenasExtend(old(bodies), bodies)
      ensures old(diagnostics) <= diagnostics && old(twrArena) <= twrArena && old(uidGen) <= uidGen
      ensures scopes == old(scopes) && params == old(params) && bodies.functionBodies == old(bodies.functionBodies)
      ensures nameToken.None? || nameToken.value.text in old(bodies.globals) ==>
        bodies == old(bodies) && diagnostics == old(diagnostics) && twrArena == old(twrArena)
      ensures nameToken.Some? && nameToken.value.text !in old(bodies.globals) ==>
        && |bodies.exprs| >= 1
        && bodies.globals == old(bodies.globals)[nameToken.value.text := |bodies.exprs| - 1]
        && BodyLowered(bodies, |bodies.exprs| - 1, e)
      ensures nameToken.Some? && nameToken.value.text !in old(bodies.globals) && e.Some? ==>
        LoweredAs(e.value, bodies.exprs[|bodies.exprs| - 1], |old(bodies.exprs)|, |bodies.exprs| - 1,
                  |old(bodies.stmts)|, old(twrArena), old(uidGen), old(scopes), old(params))
    {
      if nameToken.None? || nameToken.value.text in bodies.globals {
        return;
      }
      var body := LowerExpr(e);
      ghost var mid := bodies;
      WellFormedRetabled(bodies, bodies.(globals := bodies.globals[nameToken.value.text := body]), |twrArena|);
      bodies := bodies.(globals := bodies.globals[nameToken.value.text := body]);
      ArenasExtendTrans(old(bodies), mid, bodies);
      BodyLoweredPersists(mid, bodies, body, e);
    }

    /** Binds each named parameter to its position. */
    method BindParams(names: seq<Option<Key>>)
      requires Valid()
      modifies this
      ensures Valid() && params == ParamBindings(old(params), names)
      ensures bodies == old(bodies) && diagnostics == old(diagnostics) && twrArena == old(twrArena)
      ensures uidGen == old(uidGen) && scopes == old(scopes)
    {
      var i := 0;
      while i < |names|
        invariant 0 <= i <= |names| && params == ParamBindings(old(params), names[..i])
        invariant bodies == old(bodies) && diagnostics == old(diagnostics) && twrArena == old(twrArena)
        invariant uidGen == old(uidGen) && scopes == old(scopes)
      {
        assert names[..i + 1][..i] == names[..i];
        if names[i].Some? {
          params := params[names[i].value := i];
        }
        i := i + 1;
      }
      assert names[..i] == names;
    }

    /** Only the first function of each name is lowered; its parameters are
        visible while the body is lowered and forgotten afterwards. */
    method LowerLambda(nameToken: Option<Ident>, lambda: AstLambda)
      requires Valid()
      modifies this
      ensures Valid() && ArenasExtend(old(bodies), bodies)
      ensures old(diagnostics) <= diagnostics && old(twrArena) <= twrArena && old(uidGen) <= uidGen
      ensures scopes == old(scopes) && bodies.globals == old(bodies.globals)
      ensures nameToken.None? || nameToken.value.text in old(bodies.functionBodies) ==>
        bodies == old(bodies) && diagnostics == old(diagnostics) && twrArena == old(twrArena) && params == old(params)
      ensures nameToken.Some? && nameToken.value.text !in old(bodies.functionBodies) ==>
        && |bodies.exprs| >= 1
        && bodies.functionBodies == old(bodies.functionBodies)[nameToken.value.text := |bodies.exprs| - 1]
        && BodyLowered(bodies, |bodies.exprs| - 1, lambda.body)
        && params == map[]
      ensures nameToken.Some? && nameToken.value.text !in old(bodies.functionBodies) && lambda.body.Some? ==>
        LoweredAs(lambda.body.value, bodies.exprs[|bodies.exprs| - 1], |old(bodies.exprs)|, |bodies.exprs| - 1,
                  |old(bodies.stmts)|, old(twrArena), old(uidGen), old(scopes),
                  if lambda.paramNames.Some? then ParamBindings(old(params), lambda.paramNames.value) else old(params))
    {
      if nameToken.None? || nameToken.value.text in bodies.functionBodies {
        return;
      }
      if lambda.paramNames.Some? {
        BindParams(lambda.paramNames.value);
      }
      LowerFunctionBody(nameToken.value.text, lambda.body);
    }

    /** Lowers a function's body with its parameters in scope, then drops
        them and records the body under the function's name. */
    method LowerFunctionBody(name: Key, e: Option<AstExpr>)
      requires Valid()
      modifies this
      ensures Valid() && ArenasExtend(old(bodies), bodies)
      ensures old(diagnostics) <= diagnostics && old(twrArena) <= twrArena && old(uidGen) <= uidGen
      ensures scopes == old(scopes) && bodies.globals == old(bodies.globals)
      ensures |bodies.exprs| >= 1 && bodies.functionBodies == old(bodies.functionBodies)[name := |bodies.exprs| - 1]
      ensures BodyLowered(bodies, |bodies.exprs| - 1, e) && params == map[]
      ensures e.Some? ==>
        LoweredAs(e.value, bodies.exprs[|bodies.exprs| - 1], |old(bodies.exprs)|, |bodies.exprs| - 1,
                  |old(bodies.stmts)|, old(twrArena), old(uidGen), old(scopes), old(params))
    {
      var body := LowerExpr(e);
      params := map[];
      ghost var mid := bodies;
      WellFormedRetabled(bodies, bodies.(functionBodies := bodies.functionBodies[name := body]), |twrArena|);
      bodies := bodies.(functionBodies := bodies.functionBodies[name := body]);
      ArenasExtendTrans(old(bodies), mid, bodies);
      BodyLoweredPersists(mid, bodies, body, e);
    }
  }

  /** The body recorded for a definition is the expression lowered from
      it: a written expression keeps its range, a missing one is
      `Missing`. */
  predicate BodyLowered(b: Bodies, id: nat, e: Option<AstExpr>)
  {
    && id < |b.exprs|
    && (e.Some? ==> id in b.exprRanges && b.exprRanges[id] == e.value.range)
    && (e.None? ==> b.exprs[id] == Missing)
  }

  lemma BodyLoweredPersists(b0: Bodies, b1: Bodies, id: nat, e: Option<AstExpr>)
    requires BodyLowered(b0, id, e) && ArenasExtend(b0, b1)
    ensures BodyLowered(b1, id, e)
  {
    assert b1.exprs[id] == b0.exprs[id];
  }

  // ---------------------------------------------------------------------
  // A whole module.

  predicate IsLambdaDef(d: RootDef)
  {
    d.value.Some? && d.value.value.RootLambda?
  }

  /** The expression a definition's body is lowered from: a lambda's body,
      or the defined value itself. */
  function RootBody(d: RootDef): Option<AstExpr>
  {
    if d.value.None? then None
    else match d.value.value
      case RootLambda(l) => l.body
      case RootExpr(e) => Some(e)
  }

  /** `d` defines `n` as a function (`lambdas`) or as a global. */
  predicate Binds(d: RootDef, n: Name, lambdas: bool)
  {
    d.name.Some? && d.name.value.text == n && IsLambdaDef(d) == lambdas
  }

  /** The position of the first definition of `n` of the given sort. */
  function FirstBinding(defs: seq<RootDef>, n: Name, lambdas: bool): Option<nat>
  {
    if defs == [] then None
    else
      var f := FirstBinding(defs[..|defs| - 1], n, lambdas);
      if f.Some? then f else if Binds(defs[|defs| - 1], n, lambdas) then Some(|defs| - 1) else None
  }

  /** `FirstBinding` finds the earliest definition of the name, and none
      exactly when nothing defines it. */
  lemma {:induction false} FirstBindingSpec(defs: seq<RootDef>, n: Name, lambdas: bool)
    ensures var f := FirstBinding(defs, n, lambdas);
      && (f.Some? ==> f.value < |defs| && Binds(defs[f.value], n, lambdas)
                      && forall j :: 0 <= j < f.value ==> !Binds(defs[j], n, lambdas))
      && (f.None? <==> forall j :: 0 <= j < |defs| ==> !Binds(defs[j], n, lambdas))
    decreases |defs|
  {
    if defs != [] {
      var init := defs[..|defs| - 1];
      FirstBindingSpec(init, n, lambdas);
      assert forall j :: 0 <= j < |init| ==> init[j] == defs[j];
    }
  }

  lemma FirstBindingSnoc(defs: seq<RootDef>, d: RootDef, n: Name, lambdas: bool)
    ensures FirstBinding(defs + [d], n, lambdas) ==
      if FirstBinding(defs, n, lambdas).Some? then FirstBinding(defs, n, lambdas)
      else if Binds(d, n, lambdas) then Some(|defs|) else None
  {
    assert (defs + [d])[..|defs|] == defs;
  }

  /** `table` holds `n` exactly when one of `defs` defines it, and then the
      body lowered from the first such definition. */
  ghost predicate EntryIsFirst(table: map<Name, nat>, b: Bodies, defs: seq<RootDef>, lambdas: bool, n: Name)
  {
    var f := FirstBinding(defs, n, lambdas);
    && (n in table <==> f.Some?)
    && (n in table ==> f.value < |defs| && BodyLowered(b, table[n], RootBody(defs[f.value])))
  }

  ghost predicate TableSoFar(table: map<Name, nat>, b: Bodies, defs: seq<RootDef>, lambdas: bool)
  {
    forall n :: EntryIsFirst(table, b, defs, lambdas, n)
  }

  /** A definition that binds nothing new leaves the table as it is. */
  lemma TableKeep(t: map<Name, nat>, b0: Bodies, b1: Bodies, defs: seq<RootDef>, d: RootDef, lambdas: bool)
    requires TableSoFar(t, b0, defs, lambdas) && ArenasExtend(b0, b1)
    requires d.name.Some? && IsLambdaDef(d) == lambdas ==> d.name.value.text in t
    ensures TableSoFar(t, b1, defs + [d], lambdas)
  {
    forall n ensures EntryIsFirst(t, b1, defs + [d], lambdas, n) {
      assert EntryIsFirst(t, b0, defs, lambdas, n);
      FirstBindingSnoc(defs, d, n, lambdas);
      if n in t {
        var f := FirstBinding(defs, n, lambdas).value;
        assert (defs + [d])[f] == defs[f];
        BodyLoweredPersists(b0, b1, t[n], RootBody(defs[f]));
      }
    }
  }

  /** The first definition of a name adds its lowered body. */
  lemma TableAdd(t: map<Name, nat>, b0: Bodies, b1: Bodies, defs: seq<RootDef>, d: RootDef, lambdas: bool, id: nat)
    requires TableSoFar(t, b0, defs, lambdas) && ArenasExtend(b0, b1)
    requires d.name.Some? && IsLambdaDef(d) == lambdas && d.name.value.text !in t
    requires BodyLowered(b1, id, RootBody(d))
    ensures TableSoFar(t[d.name.value.text := id], b1, defs + [d], lambdas)
  {
    var t1 := t[d.name.value.text := id];
    forall n ensures EntryIsFirst(t1, b1, defs + [d], lambdas, n) {
      assert EntryIsFirst(t, b0, defs, lambdas, n);
      FirstBindingSnoc(defs, d, n, lambdas);
      if n in t {
        var f := FirstBinding(defs, n, lambdas).value;
        assert (defs + [d])[f] == defs[f];
        BodyLoweredPersists(b0, b1, t[n], RootBody(defs[f]));
      } else if n == d.name.value.text {
        assert (defs + [d])[|defs|] == d;
      }
    }
  }

  /** A complete table holds exactly the names some definition binds. */
  lemma TableKeys(t: map<Name, nat>, b: Bodies, defs: seq<RootDef>, lambdas: bool)
    requires TableSoFar(t, b, defs, lambdas)
    ensures forall n :: n in t <==> exists i :: 0 <= i < |defs| && Binds(defs[i], n, lambdas)
  {
    forall n ensures n in t <==> exists i :: 0 <= i < |defs| && Binds(defs[i], n, lambdas) {
      assert EntryIsFirst(t, b, defs, lambdas, n);
      FirstBindingSpec(defs, n, lambdas);
    }
  }

  /** Lowers one top-level definition after `done`: a lambda as a
      function body, anything else as a global. */
  method LowerRootDef(ctx: Ctx, done: seq<RootDef>, d: RootDef)
    requires ctx.Valid() && ctx.scopes == [map[]] && ctx.params == map[]
    requires TableSoFar(ctx.bodies.globals, ctx.bodies, done, false)
    requires TableSoFar(ctx.bodies.functionBodies, ctx.bodies, done, true)
    modifies ctx
    ensures ctx.Valid() && ctx.scopes == [map[]] && ctx.params == map[]
    ensures old(ctx.twrArena) <= ctx.twrArena && old(ctx.uidGen) <= ctx.uidGen
    ensures TableSoFar(ctx.bodies.globals, ctx.bodies, done + [d], false)
    ensures TableSoFar(ctx.bodies.functionBodies, ctx.bodies, done + [d], true)
  {
    ghost var b0 := ctx.bodies;
    if IsLambdaDef(d) {
      ctx.LowerLambda(d.name, d.value.value.lambda);
      TableKeep(b0.globals, b0, ctx.bodies, done, d, false);
      if d.name.Some? && d.name.value.text !in b0.functionBodies {
        TableAdd(b0.functionBodies, b0, ctx.bodies, done, d, true, |ctx.bodies.exprs| - 1);
      } else {
        TableKeep(b0.functionBodies, b0, ctx.bodies, done, d, true);
      }
    } else {
      ctx.LowerGlobal(d.name, RootBody(d));
      TableKeep(b0.functionBodies, b0, ctx.bodies, done, d, true);
      if d.name.Some? && d.name.value.text !in b0.globals {
        TableAdd(b0.globals, b0, ctx.bodies, done, d, false, |ctx.bodies.exprs| - 1);
      } else {
        TableKeep(b0.globals, b0, ctx.bodies, done, d, false);
      }
    }
  }

  /** Lowers every top-level definition in order: lambdas become function
      bodies, everything else globals, and of several definitions of one
      name only the first is kept. */
  method LowerModule(moduleName: Name, worldIndex: WorldIndex, primitiveTys: set<Name>, uidGen: nat,
                     twrArena: seq<TyWithRange>, defs: seq<RootDef>)
    returns (bodies: Bodies, diagnostics: seq<LoweringDiagnostic>, uidGenOut: nat, twrArenaOut: seq<TyWithRange>)
    ensures WellFormed(bodies, |twrArenaOut|) && twrArena <= twrArenaOut && uidGen <= uidGenOut
    ensures TableSoFar(bodies.globals, bodies, defs, false) && TableSoFar(bodies.functionBodies, bodies, defs, true)
    ensures forall n :: n in bodies.globals <==> exists i :: 0 <= i < |defs| && Binds(defs[i], n, false)
    ensures forall n :: n in bodies.functionBodies <==> exists i :: 0 <= i < |defs| && Binds(defs[i], n, true)
  {
    var ctx := new Ctx(moduleName, worldIndex, primitiveTys, uidGen, twrArena);
    assert defs[..0] == [];
    var i := 0;
    while i < |defs|
      invariant 0 <= i <= |defs|
      invariant ctx.Valid() && ctx.scopes == [map[]] && ctx.params == map[]
      invariant twrArena <= ctx.twrArena && uidGen <= ctx.uidGen
      invariant TableSoFar(ctx.bodies.globals, ctx.bodies, defs[..i], false)
      invariant TableSoFar(ctx.bodies.functionBodies, ctx.bodies, defs[..i], true)
    {
      LowerRootDef(ctx, defs[..i], defs[i]);
      assert defs[..i + 1] == defs[..i] + [defs[i]];
      i := i + 1;
    }
    assert defs[..i] == defs;
    bodies, diagnostics, uidGenOut, twrArenaOut := ctx.bodies, ctx.diagnostics, ctx.uidGen, ctx.twrArena;
    TableKeys(bodies.globals, bodies, defs, false);
    TableKeys(bodies.functionBodies, bodies, defs, true);
  }

  /** The path's own name, as reported in an argument-count mismatch. */
  function PathName(p: Path): Name
  {
    match p
    case ThisModule(n) => n
    case OtherModule(fqn) => fqn.name
  }
}
