/**
 * The definition index of a module: every root-level definition that has
 * a name and a value is recorded once, under its name, as a function (its
 * value is a lambda) or a global (any other value). The first definition
 * under a name wins; later ones only produce a diagnostic.
 *
 * Syntax nodes are abstracted to plain datatypes that carry what the
 * indexer reads from them. Parsing a type annotation is taken as given by
 * its outcome: the parsed type or an error, and what the parser allocated
 * and drew on the way. Interned names are their text, the type arena is a
 * sequence whose indices are handed out by appending, and the unique-id
 * generator is a counter.
 */
module HirIndex {
  import opened Wrappers

  type Name = string

  datatype TextRange = TextRange(start: nat, end: nat)

  datatype Ident = Ident(text: string, range: TextRange)

  /** A parsed type annotation; types other than the two the indexer
      creates itself are kept as their source text. */
  datatype TyWithRange = Unknown | Void | Written(text: string)

  /** What parsing one type annotation gives: the parsed type or an error
      with its text range, together with the arena entries the parser
      allocates for the types nested inside the annotation and the number
      of unique ids it draws (a parse may allocate before it fails). */
  datatype ParseOutcome =
    | Parsed(ty: TyWithRange, nested: seq<TyWithRange>, uids: nat)
    | ParseError(why: nat, range: TextRange, nested: seq<TyWithRange>, uids: nat)

  datatype AstParam = AstParam(name: Option<Ident>, ty: ParseOutcome)

  datatype Lambda = Lambda(paramList: Option<seq<AstParam>>, returnTy: Option<ParseOutcome>,
                           isExtern: bool, range: TextRange)

  datatype Expr = LambdaExpr(lambda: Lambda) | OtherExpr(range: TextRange)

  /** A root-level `name :: value` (binding) or `name := value` (variable). */
  datatype Define = Define(isVariable: bool, name: Option<Ident>, ty: ParseOutcome,
                           value: Option<Expr>, range: TextRange)

  function ExprRange(e: Expr): TextRange
  {
    match e
    case LambdaExpr(l) => l.range
    case OtherExpr(r) => r
  }

  // ---------------------------------------------------------------------
  // The index.

  datatype Param = Param(name: Option<Name>, ty: nat)

  datatype Function = Function(params: seq<Param>, returnTy: nat, tyAnnotation: nat, isExtern: bool)

  datatype Global = Global(ty: nat)

  datatype Definition = FunctionDef(fn: Function) | GlobalDef(glob: Global)

  datatype RangeInfo = RangeInfo(whole: TextRange, name: TextRange, value: TextRange)

  datatype Index = Index(definitions: map<Name, Definition>, rangeInfo: map<Name, RangeInfo>)
  {
    function Functions(): (r: map<Name, Function>)
      ensures forall n :: n in r <==> n in definitions && definitions[n].FunctionDef?
      ensures forall n :: n in r ==> definitions[n] == FunctionDef(r[n])
    {
      map n | n in definitions && definitions[n].FunctionDef? :: definitions[n].fn
    }

    function Globals(): (r: map<Name, Global>)
      ensures forall n :: n in r <==> n in definitions && definitions[n].GlobalDef?
      ensures forall n :: n in r ==> definitions[n] == GlobalDef(r[n])
    {
      map n | n in definitions && definitions[n].GlobalDef? :: definitions[n].glob
    }

    function GetDefinition(name: Name): (r: Option<Definition>)
      ensures r.Some? <==> name in definitions
      ensures r.Some? ==> r.value == definitions[name]
    {
      if name in definitions then Some(definitions[name]) else None
    }

    /** Panics for a name that was never indexed. */
    function RangeInfoOf(name: Name): RangeInfo
      requires name in rangeInfo
    {
      rangeInfo[name]
    }

    function DefinitionNames(): set<Name> { definitions.Keys }

    function FunctionNames(): set<Name>
    {
      set n | n in definitions && definitions[n].FunctionDef?
    }

    function GlobalNames(): set<Name>
    {
      set n | n in definitions && definitions[n].GlobalDef?
    }
  }

  /** The two name views split the definition names, and the two maps are
      filters of the same definitions. */
  lemma NameViewsPartition(idx: Index)
    ensures idx.FunctionNames() !! idx.GlobalNames()
    ensures idx.FunctionNames() + idx.GlobalNames() == idx.DefinitionNames()
    ensures idx.Functions().Keys == idx.FunctionNames()
    ensures idx.Globals().Keys == idx.GlobalNames()
  {
    forall n | n in idx.DefinitionNames()
      ensures n in idx.FunctionNames() + idx.GlobalNames()
    {
      if idx.definitions[n].FunctionDef? {
        assert n in idx.FunctionNames();
      } else {
        assert n in idx.GlobalNames();
      }
    }
  }

  // ---------------------------------------------------------------------
  // Diagnostics.

  datatype DiagnosticKind = NonBindingAtRoot | AlreadyDefined(name: Name) | TyParseError(why: nat)

  datatype Diagnostic = Diagnostic(kind: DiagnosticKind, range: TextRange)

  datatype IndexDefinitionResult =
    | Ok(definition: Definition, name: Name, nameToken: Ident)
    | NoName

  /** The type a parse outcome leaves behind: an error becomes `Unknown`. */
  function ParsedTy(o: ParseOutcome): (r: TyWithRange)
    ensures o.ParseError? ==> r == Unknown
    ensures o.Parsed? ==> r == o.ty
  {
    if o.Parsed? then o.ty else Unknown
  }

  /** The arena entries one parse leaves once its type is allocated: the
      nested types the parser allocated, then the type itself. */
  function Placed(o: ParseOutcome): (r: seq<TyWithRange>)
    ensures |r| == |o.nested| + 1 && r[|o.nested|] == ParsedTy(o)
  {
    o.nested + [ParsedTy(o)]
  }

  /** The arena entries a run of parse-and-allocate steps leaves, in order. */
  function PlacedAll(os: seq<ParseOutcome>): (r: seq<TyWithRange>)
    ensures |r| >= |os|
  {
    if os == [] then [] else PlacedAll(os[..|os| - 1]) + Placed(os[|os| - 1])
  }

  /** The unique ids a run of parses draws. */
  function UidsOf(os: seq<ParseOutcome>): nat
  {
    if os == [] then 0 else UidsOf(os[..|os| - 1]) + os[|os| - 1].uids
  }

  /** The diagnostics a run of parses reports: one per error, in order. */
  function ParseDiagnostics(os: seq<ParseOutcome>): (r: seq<Diagnostic>)
    ensures |r| <= |os|
  {
    if os == [] then []
    else
      var last := os[|os| - 1];
      ParseDiagnostics(os[..|os| - 1])
        + (if last.ParseError? then [Diagnostic(TyParseError(last.why), last.range)] else [])
  }

  /** What two consecutive runs of parses report, allocate and draw is what
      each does, one after the other. */
  lemma OutcomeRunConcat(a: seq<ParseOutcome>, b: seq<ParseOutcome>)
    ensures ParseDiagnostics(a + b) == ParseDiagnostics(a) + ParseDiagnostics(b)
    ensures PlacedAll(a + b) == PlacedAll(a) + PlacedAll(b)
    ensures UidsOf(a + b) == UidsOf(a) + UidsOf(b)
  {
    DiagnosticsConcat(a, b);
    PlacedConcat(a, b);
    UidsConcat(a, b);
  }

  lemma {:induction false} DiagnosticsConcat(a: seq<ParseOutcome>, b: seq<ParseOutcome>)
    ensures ParseDiagnostics(a + b) == ParseDiagnostics(a) + ParseDiagnostics(b)
    decreases |b|
  {
    if b == [] {
      assert a + b == a;
    } else {
      var b' := b[..|b| - 1];
      assert (a + b)[..|a + b| - 1] == a + b';
      DiagnosticsConcat(a, b');
    }
  }

  lemma {:induction false} PlacedConcat(a: seq<ParseOutcome>, b: seq<ParseOutcome>)
    ensures PlacedAll(a + b) == PlacedAll(a) + PlacedAll(b)
    decreases |b|
  {
    if b == [] {
      assert a + b == a;
    } else {
      var b', last := b[..|b| - 1], b[|b| - 1];
      assert (a + b)[..|a + b| - 1] == a + b';
      PlacedConcat(a, b');
      assert PlacedAll(a + b) == PlacedAll(a) + PlacedAll(b') + Placed(last);
    }
  }

  lemma {:induction false} UidsConcat(a: seq<ParseOutcome>, b: seq<ParseOutcome>)
    ensures UidsOf(a + b) == UidsOf(a) + UidsOf(b)
    decreases |b|
  {
    if b == [] {
      assert a + b == a;
    } else {
      var b' := b[..|b| - 1];
      assert (a + b)[..|a + b| - 1] == a + b';
      UidsConcat(a, b');
    }
  }

  /** Parse `i` of a run leaves its entries between those of the parses
      before it and those of the parses after it. */
  lemma PlacedSplit(os: seq<ParseOutcome>, i: nat)
    requires i < |os|
    ensures PlacedAll(os) == PlacedAll(os[..i]) + Placed(os[i]) + PlacedAll(os[i + 1..])
  {
    assert os == os[..i + 1] + os[i + 1..];
    OutcomeRunConcat(os[..i + 1], os[i + 1..]);
    OutcomePrefixStep(os, i);
  }

  /** Every parse of a run leaves at least its own type in the arena. */
  lemma PlacedGrows(os: seq<ParseOutcome>, i: nat, j: nat)
    requires i <= j <= |os|
    ensures |PlacedAll(os[..i])| + (j - i) <= |PlacedAll(os[..j])|
  {
    assert os[..j] == os[..i] + os[i..j];
    OutcomeRunConcat(os[..i], os[i..j]);
  }

  // ---------------------------------------------------------------------
  // What indexing one definition reads and allocates.

  function LambdaParams(l: Lambda): seq<AstParam>
  {
    if l.paramList.Some? then l.paramList.value else []
  }

  function ParamOutcomes(ps: seq<AstParam>): (r: seq<ParseOutcome>)
    ensures |r| == |ps| && forall i :: 0 <= i < |ps| ==> r[i] == ps[i].ty
  {
    seq(|ps|, i requires 0 <= i < |ps| => ps[i].ty)
  }

  /** The annotation parses a lambda triggers, in order: its type annotation,
      each parameter type, then the return type if one is written. */
  function LambdaOutcomes(tyAnnotation: ParseOutcome, l: Lambda): seq<ParseOutcome>
  {
    [tyAnnotation] + ParamOutcomes(LambdaParams(l))
      + (if l.returnTy.Some? then [l.returnTy.value] else [])
  }

  /** The entries the return type leaves: an omitted one is `Void`, allocated
      without a parse. */
  function ReturnPlaced(l: Lambda): seq<TyWithRange>
  {
    if l.returnTy.Some? then Placed(l.returnTy.value) else [Void]
  }

  /** The arena entries indexing a lambda leaves, in allocation order. */
  function LambdaArena(tyAnnotation: ParseOutcome, l: Lambda): seq<TyWithRange>
  {
    Placed(tyAnnotation) + PlacedAll(ParamOutcomes(LambdaParams(l))) + ReturnPlaced(l)
  }

  function LambdaUids(tyAnnotation: ParseOutcome, l: Lambda): nat
  {
    tyAnnotation.uids + UidsOf(ParamOutcomes(LambdaParams(l)))
      + (if l.returnTy.Some? then l.returnTy.value.uids else 0)
  }

  /** The function a lambda is indexed as, when the arena held `base` types. */
  function LambdaFunction(tyAnnotation: ParseOutcome, l: Lambda, base: nat): Function
  {
    var ps := LambdaParams(l);
    var paramsStart := base + |Placed(tyAnnotation)|;
    var returnStart := paramsStart + |PlacedAll(ParamOutcomes(ps))|;
    Function(ParamsAt(ps, paramsStart),
             returnStart + (if l.returnTy.Some? then |l.returnTy.value.nested| else 0),
             base + |tyAnnotation.nested|, l.isExtern)
  }

  /** Each type slot of the indexed function holds the type parsed for it:
      the annotation first, the parameters in source order with their names,
      and the return type as the last entry the lambda leaves. */
  lemma LambdaFunctionShape(tyAnnotation: ParseOutcome, l: Lambda, base: nat)
    ensures var f, a, ps := LambdaFunction(tyAnnotation, l, base), LambdaArena(tyAnnotation, l), LambdaParams(l);
      && |f.params| == |ps|
      && base <= f.tyAnnotation < f.returnTy && f.returnTy == base + |a| - 1
      && a[f.tyAnnotation - base] == ParsedTy(tyAnnotation)
      && a[f.returnTy - base] == (if l.returnTy.Some? then ParsedTy(l.returnTy.value) else Void)
      && (forall i :: 0 <= i < |ps| ==>
            && f.tyAnnotation < f.params[i].ty < f.returnTy
            && a[f.params[i].ty - base] == ParsedTy(ps[i].ty)
            && f.params[i].name == ParamName(ps[i]))
      && (forall i, j :: 0 <= i < j < |ps| ==> f.params[i].ty < f.params[j].ty)
  {
    EndSlots(tyAnnotation, l, base);
    ParamSlots(tyAnnotation, l, base);
    ParamsIncreasing(tyAnnotation, l, base);
  }

  lemma ParamSlots(tyAnnotation: ParseOutcome, l: Lambda, base: nat)
    ensures var f, a, ps := LambdaFunction(tyAnnotation, l, base), LambdaArena(tyAnnotation, l), LambdaParams(l);
      forall i :: 0 <= i < |ps| ==>
        && f.tyAnnotation < f.params[i].ty < f.returnTy
        && a[f.params[i].ty - base] == ParsedTy(ps[i].ty)
        && f.params[i].name == ParamName(ps[i])
  {
    forall i | 0 <= i < |LambdaParams(l)| {
      ParamSlot(tyAnnotation, l, base, i);
    }
  }

  lemma ParamsIncreasing(tyAnnotation: ParseOutcome, l: Lambda, base: nat)
    ensures var f, ps := LambdaFunction(tyAnnotation, l, base), LambdaParams(l);
      forall i, j :: 0 <= i < j < |ps| ==> f.params[i].ty < f.params[j].ty
  {
    forall i, j | 0 <= i < j < |LambdaParams(l)| {
      ParamsOrdered(tyAnnotation, l, base, i, j);
    }
  }

  lemma EndSlots(tyAnnotation: ParseOutcome, l: Lambda, base: nat)
    ensures var f, a := LambdaFunction(tyAnnotation, l, base), LambdaArena(tyAnnotation, l);
      && base <= f.tyAnnotation < f.returnTy && f.returnTy == base + |a| - 1
      && a[f.tyAnnotation - base] == ParsedTy(tyAnnotation)
      && a[f.returnTy - base] == (if l.returnTy.Some? then ParsedTy(l.returnTy.value) else Void)
  {
    var a := LambdaArena(tyAnnotation, l);
    var rest := PlacedAll(ParamOutcomes(LambdaParams(l))) + ReturnPlaced(l);
    assert a == Placed(tyAnnotation) + rest;
    assert a[|tyAnnotation.nested|] == Placed(tyAnnotation)[|tyAnnotation.nested|];
  }

  lemma ParamSlot(tyAnnotation: ParseOutcome, l: Lambda, base: nat, i: nat)
    requires i < |LambdaParams(l)|
    ensures var f, a, ps := LambdaFunction(tyAnnotation, l, base), LambdaArena(tyAnnotation, l), LambdaParams(l);
      && f.tyAnnotation < f.params[i].ty < f.returnTy
      && a[f.params[i].ty - base] == ParsedTy(ps[i].ty)
      && f.params[i].name == ParamName(ps[i])
  {
    var ps := LambdaParams(l);
    var os := ParamOutcomes(ps);
    var start := base + |Placed(tyAnnotation)|;
    assert LambdaFunction(tyAnnotation, l, base).params[i].ty == SlotAt(os, start, i);
    PlacedSplit(os, i);
    OutcomePrefixStep(os, i);
    PlacedGrows(os, i + 1, |os|);
    assert os[..|os|] == os;
    var pre := PlacedAll(os[..i]);
    var a := LambdaArena(tyAnnotation, l);
    assert a == Placed(tyAnnotation) + (pre + Placed(os[i]) + PlacedAll(os[i + 1..])) + ReturnPlaced(l);
    assert a[|Placed(tyAnnotation)| + |pre| + |os[i].nested|] == Placed(os[i])[|os[i].nested|];
  }

  lemma ParamsOrdered(tyAnnotation: ParseOutcome, l: Lambda, base: nat, i: nat, j: nat)
    requires i < j < |LambdaParams(l)|
    ensures var f := LambdaFunction(tyAnnotation, l, base); f.params[i].ty < f.params[j].ty
  {
    var ps := LambdaParams(l);
    var os := ParamOutcomes(ps);
    var start := base + |Placed(tyAnnotation)|;
    var f := LambdaFunction(tyAnnotation, l, base);
    assert f.params[i].ty == SlotAt(os, start, i) && f.params[j].ty == SlotAt(os, start, j);
    OutcomePrefixStep(os, i);
    PlacedGrows(os, i + 1, j);
  }

  function ParamName(p: AstParam): Option<Name>
  {
    if p.name.Some? then Some(p.name.value.text) else None
  }

  /** Where parse `i` of a run puts its type when the run allocates from
      `start` on: after the entries of the parses before it and the nested
      types it allocated itself. */
  function SlotAt(os: seq<ParseOutcome>, start: nat, i: nat): nat
    requires i < |os|
  {
    start + |PlacedAll(os[..i])| + |os[i].nested|
  }

  /** The parameters of `ps` when their types are allocated from `start` on. */
  function ParamsAt(ps: seq<AstParam>, start: nat): (r: seq<Param>)
    ensures |r| == |ps|
  {
    seq(|ps|, i requires 0 <= i < |ps| => Param(ParamName(ps[i]), SlotAt(ParamOutcomes(ps), start, i)))
  }

  lemma ParamTurn(ps: seq<AstParam>, start: nat, i: nat, before: seq<Param>, param: Param)
    requires i < |ps| && before == ParamsAt(ps, start)[..i]
    requires param == Param(ParamName(ps[i]), start + |PlacedAll(ParamOutcomes(ps)[..i])| + |ps[i].ty.nested|)
    ensures before + [param] == ParamsAt(ps, start)[..i + 1]
  {
    var all := ParamsAt(ps, start);
    assert all[i] == param;
    assert all[..i + 1] == all[..i] + [all[i]];
  }

  /** One more parse extends what a run reports, allocates and draws. */
  lemma OutcomePrefixStep(os: seq<ParseOutcome>, i: nat)
    requires i < |os|
    ensures PlacedAll(os[..i + 1]) == PlacedAll(os[..i]) + Placed(os[i])
    ensures UidsOf(os[..i + 1]) == UidsOf(os[..i]) + os[i].uids
    ensures ParseDiagnostics(os[..i + 1]) == ParseDiagnostics(os[..i]) + ParseDiagnostics([os[i]])
  {
    assert os[..i + 1][..i] == os[..i];
    assert [os[i]][..0] == [];
  }

  /** A definition is indexed under a name exactly when it has a value and a name. */
  predicate Indexable(d: Define)
  {
    d.value.Some? && d.name.Some?
  }

  function DefOutcomes(d: Define): seq<ParseOutcome>
    requires Indexable(d)
  {
    if d.value.value.LambdaExpr? then LambdaOutcomes(d.ty, d.value.value.lambda) else [d.ty]
  }

  function DefArena(d: Define): seq<TyWithRange>
    requires Indexable(d)
  {
    if d.value.value.LambdaExpr? then LambdaArena(d.ty, d.value.value.lambda) else Placed(d.ty)
  }

  function DefUids(d: Define): nat
    requires Indexable(d)
  {
    if d.value.value.LambdaExpr? then LambdaUids(d.ty, d.value.value.lambda) else d.ty.uids
  }

  function DefDefinition(d: Define, base: nat): Definition
    requires Indexable(d)
  {
    if d.value.value.LambdaExpr? then FunctionDef(LambdaFunction(d.ty, d.value.value.lambda, base))
    else GlobalDef(Global(base + |d.ty.nested|))
  }

  function DefRangeInfo(d: Define): RangeInfo
    requires Indexable(d)
  {
    RangeInfo(d.range, d.name.value.range, ExprRange(d.value.value))
  }

  /** A global's type slot holds its parsed annotation, as the last entry
      the definition leaves. */
  lemma GlobalSlot(d: Define, base: nat)
    requires Indexable(d) && !d.value.value.LambdaExpr?
    ensures var g := DefDefinition(d, base).glob;
      base <= g.ty == base + |DefArena(d)| - 1 && DefArena(d)[g.ty - base] == ParsedTy(d.ty)
  {
  }

  // ---------------------------------------------------------------------
  // Indexing a whole module.

  /** The names the definitions are indexed under. */
  function IndexedNames(defs: seq<Define>): set<Name>
  {
    if defs == [] then {}
    else
      var last := defs[|defs| - 1];
      IndexedNames(defs[..|defs| - 1]) + (if Indexable(last) then {last.name.value.text} else {})
  }

  /** The position of the first definition indexed under `n`. */
  function FirstDefinition(defs: seq<Define>, n: Name): (i: nat)
    requires n in IndexedNames(defs)
    ensures i < |defs| && Indexable(defs[i]) && defs[i].name.value.text == n
    ensures forall j :: 0 <= j < i ==> !(Indexable(defs[j]) && defs[j].name.value.text == n)
  {
    var init := defs[..|defs| - 1];
    if n in IndexedNames(init) then
      var i := FirstDefinition(init, n);
      assert forall j :: 0 <= j <= i ==> defs[j] == init[j];
      i
    else
      assert forall j :: 0 <= j < |init| ==> !(Indexable(init[j]) && init[j].name.value.text == n) by {
        forall j | 0 <= j < |init| && Indexable(init[j]) ensures init[j].name.value.text != n {
          IndexedNamesContains(init, j);
        }
      }
      |defs| - 1
  }

  lemma {:induction false} IndexedNamesContains(defs: seq<Define>, j: nat)
    requires j < |defs| && Indexable(defs[j])
    ensures defs[j].name.value.text in IndexedNames(defs)
    decreases |defs|
  {
    if j < |defs| - 1 {
      var init := defs[..|defs| - 1];
      assert init[j] == defs[j];
      IndexedNamesContains(init, j);
    }
  }

  /** The arena entries indexing `defs` leaves, definition after definition. */
  function ArenaOf(defs: seq<Define>): seq<TyWithRange>
  {
    if defs == [] then []
    else
      var last := defs[|defs| - 1];
      ArenaOf(defs[..|defs| - 1]) + (if Indexable(last) then DefArena(last) else [])
  }

  /** Where the entries of each definition start when indexing `defs`
      begins with `base` entries in the arena: after the entries of all the
      definitions before it. */
  function DefBases(defs: seq<Define>, base: nat): (r: seq<nat>)
    ensures |r| == |defs|
  {
    seq(|defs|, k requires 0 <= k < |defs| => base + |ArenaOf(defs[..k])|)
  }

  /** The unique ids indexing `defs` draws. */
  function DefsUids(defs: seq<Define>): nat
  {
    if defs == [] then 0
    else
      var last := defs[|defs| - 1];
      DefsUids(defs[..|defs| - 1]) + (if Indexable(last) then DefUids(last) else 0)
  }

  /** The entries of an indexed definition follow, in one piece, those of
      the definitions before it. */
  lemma ArenaOfSplit(defs: seq<Define>, k: nat)
    requires k < |defs| && Indexable(defs[k])
    ensures ArenaOf(defs) == ArenaOf(defs[..k]) + DefArena(defs[k]) + ArenaOf(defs[k + 1..])
  {
    var front, back := defs[..k + 1], defs[k + 1..];
    assert defs == front + back;
    ArenaOfConcat(front, back);
    ArenaOfPrefixStep(defs, k);
  }

  lemma ArenaOfPrefixStep(defs: seq<Define>, k: nat)
    requires k < |defs|
    ensures ArenaOf(defs[..k + 1]) == ArenaOf(defs[..k]) + (if Indexable(defs[k]) then DefArena(defs[k]) else [])
    ensures DefsUids(defs[..k + 1]) == DefsUids(defs[..k]) + (if Indexable(defs[k]) then DefUids(defs[k]) else 0)
  {
    assert defs[..k + 1][..k] == defs[..k];
  }

  lemma {:induction false} ArenaOfConcat(a: seq<Define>, b: seq<Define>)
    ensures ArenaOf(a + b) == ArenaOf(a) + ArenaOf(b)
    decreases |b|
  {
    if b == [] {
      assert a + b == a;
    } else {
      var b' := b[..|b| - 1];
      assert (a + b)[..|a + b| - 1] == a + b';
      ArenaOfConcat(a, b');
    }
  }

  /** Names indexed again after their first definition, in order. */
  function DuplicateNames(defs: seq<Define>): seq<Name>
  {
    if defs == [] then []
    else
      var init, last := defs[..|defs| - 1], defs[|defs| - 1];
      DuplicateNames(init)
        + (if Indexable(last) && last.name.value.text in IndexedNames(init) then [last.name.value.text] else [])
  }

  /** The ranges of the root-level variable defines, in order. */
  function VariableRanges(defs: seq<Define>): seq<TextRange>
  {
    if defs == [] then []
    else
      var init, last := defs[..|defs| - 1], defs[|defs| - 1];
      VariableRanges(init) + (if last.isVariable then [last.range] else [])
  }

  /** The names the `AlreadyDefined` diagnostics report, in order. */
  function AlreadyDefinedNames(ds: seq<Diagnostic>): seq<Name>
  {
    if ds == [] then []
    else
      var last := ds[|ds| - 1];
      AlreadyDefinedNames(ds[..|ds| - 1]) + (if last.kind.AlreadyDefined? then [last.kind.name] else [])
  }

  /** The ranges of the `NonBindingAtRoot` diagnostics, in order. */
  function NonBindingRanges(ds: seq<Diagnostic>): seq<TextRange>
  {
    if ds == [] then []
    else
      var last := ds[|ds| - 1];
      NonBindingRanges(ds[..|ds| - 1]) + (if last.kind.NonBindingAtRoot? then [last.range] else [])
  }

  lemma {:induction false} DiagnosticFiltersConcat(a: seq<Diagnostic>, b: seq<Diagnostic>)
    ensures AlreadyDefinedNames(a + b) == AlreadyDefinedNames(a) + AlreadyDefinedNames(b)
    ensures NonBindingRanges(a + b) == NonBindingRanges(a) + NonBindingRanges(b)
    decreases |b|
  {
    if b == [] {
      assert a + b == a;
    } else {
      var b' := b[..|b| - 1];
      assert (a + b)[..|a + b| - 1] == a + b';
      DiagnosticFiltersConcat(a, b');
    }
  }

  /** Type parse errors are neither kind the two filters keep. */
  lemma {:induction false} ParseDiagnosticsFiltered(os: seq<ParseOutcome>)
    ensures AlreadyDefinedNames(ParseDiagnostics(os)) == []
    ensures NonBindingRanges(ParseDiagnostics(os)) == []
    decreases |os|
  {
    if os != [] {
      var init := os[..|os| - 1];
      var last := os[|os| - 1];
      var tail := if last.ParseError? then [Diagnostic(TyParseError(last.why), last.range)] else [];
      ParseDiagnosticsFiltered(init);
      DiagnosticFiltersConcat(ParseDiagnostics(init), tail);
      if tail != [] {
        assert tail[..0] == [];
      }
    }
  }

  /** Reassembles the diagnostics of a lambda from its three parse steps. */
  lemma LambdaPieces(tyAnnotation: ParseOutcome, l: Lambda,
                     diags0: seq<Diagnostic>, diags2: seq<Diagnostic>, diags3: seq<Diagnostic>)
    requires diags2 == diags0 + ParseDiagnostics([tyAnnotation]) + ParseDiagnostics(ParamOutcomes(LambdaParams(l)))
    requires diags3 == diags2 + (if l.returnTy.Some? then ParseDiagnostics([l.returnTy.value]) else [])
    ensures diags3 == diags0 + ParseDiagnostics(LambdaOutcomes(tyAnnotation, l))
  {
    var pos := ParamOutcomes(LambdaParams(l));
    OutcomeRunConcat([tyAnnotation], pos);
    var front := ParseDiagnostics([tyAnnotation] + pos);
    assert diags2 == diags0 + front;
    if l.returnTy.Some? {
      var rest := [l.returnTy.value];
      OutcomeRunConcat([tyAnnotation] + pos, rest);
      assert LambdaOutcomes(tyAnnotation, l) == [tyAnnotation] + pos + rest;
    } else {
      assert LambdaOutcomes(tyAnnotation, l) == [tyAnnotation] + pos;
    }
  }

  // ---------------------------------------------------------------------
  // The indexing context.

  class Ctx {
    var index: Index
    var diagnostics: seq<Diagnostic>
    var twrArena: seq<TyWithRange>
    var uidGen: nat

    constructor(arena: seq<TyWithRange>, uids: nat)
      ensures index == Index(map[], map[]) && diagnostics == [] && twrArena == arena && uidGen == uids
    {
      index := Index(map[], map[]);
      diagnostics := [];
      twrArena := arena;
      uidGen := uids;
    }

    /** The parser allocates the nested types and draws its ids; a parse
        error is reported and stands in as `Unknown`. */
    method ParseTy(o: ParseOutcome) returns (ty: TyWithRange)
      modifies this
      ensures ty == ParsedTy(o)
      ensures twrArena == old(twrArena) + o.nested && uidGen == old(uidGen) + o.uids
      ensures diagnostics == old(diagnostics) + ParseDiagnostics([o])
      ensures index == old(index)
    {
      twrArena := twrArena + o.nested;
      uidGen := uidGen + o.uids;
      assert [o][..0] == [];
      match o
      case Parsed(t, _, _) =>
        ty := t;
      case ParseError(why, range, _, _) =>
        diagnostics := diagnostics + [Diagnostic(TyParseError(why), range)];
        ty := Unknown;
    }

    method Alloc(ty: TyWithRange) returns (idx: nat)
      modifies this
      ensures idx == |old(twrArena)| && twrArena == old(twrArena) + [ty]
      ensures index == old(index) && diagnostics == old(diagnostics) && uidGen == old(uidGen)
    {
      idx := |twrArena|;
      twrArena := twrArena + [ty];
    }

    /** Parses and allocates each parameter type in order. */
    method IndexParams(ps: seq<AstParam>) returns (params: seq<Param>)
      modifies this
      ensures params == ParamsAt(ps, |old(twrArena)|)
      ensures twrArena == old(twrArena) + PlacedAll(ParamOutcomes(ps))
      ensures uidGen == old(uidGen) + UidsOf(ParamOutcomes(ps))
      ensures diagnostics == old(diagnostics) + ParseDiagnostics(ParamOutcomes(ps))
      ensures index == old(index)
    {
      ghost var arena0, diags0, uids0 := twrArena, diagnostics, uidGen;
      ghost var os, all := ParamOutcomes(ps), ParamsAt(ps, |twrArena|);
      params := [];
      var i := 0;
      while i < |ps|
        invariant 0 <= i <= |ps|
        invariant params == all[..i]
        invariant twrArena == arena0 + PlacedAll(os[..i])
        invariant uidGen == uids0 + UidsOf(os[..i])
        invariant diagnostics == diags0 + ParseDiagnostics(os[..i])
        invariant index == old(index)
      {
        OutcomePrefixStep(os, i);
        var param := IndexParam(ps[i]);
        ParamTurn(ps, |arena0|, i, params, param);
        params := params + [param];
        assert twrArena == arena0 + (PlacedAll(os[..i]) + Placed(os[i]));
        assert diagnostics == diags0 + (ParseDiagnostics(os[..i]) + ParseDiagnostics([os[i]]));
        i := i + 1;
      }
      assert os[..i] == os && all[..i] == all;
    }

    /** Parses and allocates one parameter type. */
    method IndexParam(p: AstParam) returns (param: Param)
      modifies this
      ensures param == Param(ParamName(p), |old(twrArena)| + |p.ty.nested|)
      ensures twrArena == old(twrArena) + Placed(p.ty) && uidGen == old(uidGen) + p.ty.uids
      ensures diagnostics == old(diagnostics) + ParseDiagnostics([p.ty])
      ensures index == old(index)
    {
      var name := ParamName(p);
      var ty := ParseTy(p.ty);
      var idx := Alloc(ty);
      param := Param(name, idx);
    }

    /** Parses and allocates a lambda's annotation, parameter and return types. */
    method AllocLambdaTypes(tyAnnotation: ParseOutcome, lambda: Lambda) returns (f: Function)
      modifies this
      ensures f == LambdaFunction(tyAnnotation, lambda, |old(twrArena)|)
      ensures twrArena == old(twrArena) + LambdaArena(tyAnnotation, lambda)
      ensures uidGen == old(uidGen) + LambdaUids(tyAnnotation, lambda)
      ensures diagnostics == old(diagnostics) + ParseDiagnostics(LambdaOutcomes(tyAnnotation, lambda))
      ensures index == old(index)
    {
      ghost var arena0, diags0 := twrArena, diagnostics;
      var annotation := ParseTy(tyAnnotation);
      var annotationIdx := Alloc(annotation);
      ghost var arena1 := twrArena;
      var params := IndexParams(LambdaParams(lambda));
      ghost var arena2, diags2 := twrArena, diagnostics;
      var returnIdx := AllocReturnTy(lambda);
      f := Function(params, returnIdx, annotationIdx, lambda.isExtern);
      LambdaPieces(tyAnnotation, lambda, diags0, diags2, diagnostics);
      assert arena1 == arena0 + Placed(tyAnnotation);
      assert twrArena == arena0 + (Placed(tyAnnotation) + PlacedAll(ParamOutcomes(LambdaParams(lambda))) + ReturnPlaced(lambda));
    }

    /** Parses and allocates a written return type, or allocates `Void`. */
    method AllocReturnTy(lambda: Lambda) returns (idx: nat)
      modifies this
      ensures idx == |old(twrArena)| + (if lambda.returnTy.Some? then |lambda.returnTy.value.nested| else 0)
      ensures twrArena == old(twrArena) + ReturnPlaced(lambda)
      ensures uidGen == old(uidGen) + (if lambda.returnTy.Some? then lambda.returnTy.value.uids else 0)
      ensures diagnostics == old(diagnostics)
        + (if lambda.returnTy.Some? then ParseDiagnostics([lambda.returnTy.value]) else [])
      ensures index == old(index)
    {
      if lambda.returnTy.Some? {
        var ty := ParseTy(lambda.returnTy.value);
        idx := Alloc(ty);
      } else {
        idx := Alloc(Void);
      }
    }

    method IndexLambda(nameToken: Option<Ident>, tyAnnotation: ParseOutcome, lambda: Lambda)
      returns (r: IndexDefinitionResult)
      modifies this
      ensures nameToken.None? ==> r == NoName && unchanged(this)
      ensures nameToken.Some? ==>
        r == Ok(FunctionDef(LambdaFunction(tyAnnotation, lambda, |old(twrArena)|)), nameToken.value.text, nameToken.value)
        && twrArena == old(twrArena) + LambdaArena(tyAnnotation, lambda)
        && uidGen == old(uidGen) + LambdaUids(tyAnnotation, lambda)
        && diagnostics == old(diagnostics) + ParseDiagnostics(LambdaOutcomes(tyAnnotation, lambda))
        && index == old(index)
    {
      if nameToken.None? {
        return NoName;
      }
      var name := nameToken.value.text;
      var f := AllocLambdaTypes(tyAnnotation, lambda);
      r := Ok(FunctionDef(f), name, nameToken.value);
    }

    method IndexGlobal(varDef: Define) returns (r: IndexDefinitionResult)
      modifies this
      ensures varDef.name.None? ==> r == NoName && unchanged(this)
      ensures varDef.name.Some? ==>
        r == Ok(GlobalDef(Global(|old(twrArena)| + |varDef.ty.nested|)), varDef.name.value.text, varDef.name.value)
        && twrArena == old(twrArena) + Placed(varDef.ty)
        && uidGen == old(uidGen) + varDef.ty.uids
        && diagnostics == old(diagnostics) + ParseDiagnostics([varDef.ty])
        && index == old(index)
    {
      if varDef.name.None? {
        return NoName;
      }
      var ty := ParseTy(varDef.ty);
      var idx := Alloc(ty);
      r := Ok(GlobalDef(Global(idx)), varDef.name.value.text, varDef.name.value);
    }

    /** Records one definition unless its name is taken; a taken name keeps
        the first definition and its ranges, and reports `AlreadyDefined`.
        The types are parsed and allocated either way. */
    method IndexDef(def: Define)
      modifies this
      ensures !Indexable(def) ==> unchanged(this)
      ensures twrArena == old(twrArena) + (if Indexable(def) then DefArena(def) else [])
      ensures uidGen == old(uidGen) + (if Indexable(def) then DefUids(def) else 0)
      ensures Indexable(def) ==>
        var n := def.name.value.text;
        if n in old(index.definitions) then
             index == old(index)
             && diagnostics == old(diagnostics) + ParseDiagnostics(DefOutcomes(def))
                + [Diagnostic(AlreadyDefined(n), def.name.value.range)]
           else
             index.definitions == old(index.definitions)[n := DefDefinition(def, |old(twrArena)|)]
             && index.rangeInfo == old(index.rangeInfo)[n := DefRangeInfo(def)]
             && diagnostics == old(diagnostics) + ParseDiagnostics(DefOutcomes(def))
    {
      var result: IndexDefinitionResult;
      var valueRange: TextRange;
      match def.value {
        case Some(LambdaExpr(lambda)) =>
          result := IndexLambda(def.name, def.ty, lambda);
          valueRange := lambda.range;
        case Some(expr) =>
          result := IndexGlobal(def);
          valueRange := ExprRange(expr);
        case None =>
          return;
      }
      if result.NoName? {
        return;
      }
      var name := result.name;
      if name in index.definitions {
        diagnostics := diagnostics + [Diagnostic(AlreadyDefined(name), result.nameToken.range)];
      } else {
        index := index.(
          definitions := index.definitions[name := result.definition],
          rangeInfo := index.rangeInfo[name := RangeInfo(def.range, result.nameToken.range, valueRange)]);
      }
    }
  }

  /** The entry under `n` is the first definition indexed under `n`, with
      its ranges, its types allocated from `bases[k]` on for its position `k`. */
  ghost predicate EntryIsFirst(idx: Index, defs: seq<Define>, n: Name, bases: seq<nat>)
  {
    && n in idx.definitions && n in idx.rangeInfo && n in IndexedNames(defs)
    && var k := FirstDefinition(defs, n);
       k < |bases|
       && idx.rangeInfo[n] == DefRangeInfo(defs[k])
       && idx.definitions[n] == DefDefinition(defs[k], bases[k])
  }

  /** The maps after indexing `defs`: one entry per indexed name, holding
      the first definition under it. */
  ghost predicate KeysSoFar(idx: Index, defs: seq<Define>, bases: seq<nat>)
  {
    && idx.definitions.Keys == IndexedNames(defs)
    && idx.rangeInfo.Keys == IndexedNames(defs)
    && forall n :: n in idx.definitions ==> EntryIsFirst(idx, defs, n, bases)
  }

  /** The diagnostics after indexing `defs`, as far as the two filters see them. */
  ghost predicate DiagsSoFar(diags: seq<Diagnostic>, defs: seq<Define>)
  {
    AlreadyDefinedNames(diags) == DuplicateNames(defs) && NonBindingRanges(diags) == VariableRanges(defs)
  }

  lemma IndexedNamesSnoc(defs: seq<Define>, d: Define)
    ensures IndexedNames(defs + [d]) == IndexedNames(defs) + (if Indexable(d) then {d.name.value.text} else {})
    ensures VariableRanges(defs + [d]) == VariableRanges(defs) + (if d.isVariable then [d.range] else [])
    ensures DuplicateNames(defs + [d]) == DuplicateNames(defs)
      + (if Indexable(d) && d.name.value.text in IndexedNames(defs) then [d.name.value.text] else [])
  {
    assert (defs + [d])[..|defs|] == defs;
  }

  lemma FirstDefinitionSnoc(defs: seq<Define>, d: Define, n: Name)
    requires n in IndexedNames(defs + [d])
    ensures n in IndexedNames(defs) ==> FirstDefinition(defs + [d], n) == FirstDefinition(defs, n)
    ensures n !in IndexedNames(defs) ==> FirstDefinition(defs + [d], n) == |defs|
  {
    assert (defs + [d])[..|defs|] == defs;
  }

  /** One more definition either leaves the maps alone or adds a fresh name. */
  ghost predicate IndexDefStep(idx0: Index, idx1: Index, d: Define, at: nat)
  {
    if Indexable(d) && d.name.value.text !in idx0.definitions then
      idx1.definitions == idx0.definitions[d.name.value.text := DefDefinition(d, at)]
      && idx1.rangeInfo == idx0.rangeInfo[d.name.value.text := DefRangeInfo(d)]
    else idx1 == idx0
  }

  lemma EntryStep(idx0: Index, idx1: Index, defs: seq<Define>, d: Define, bases: seq<nat>, n: Name)
    requires idx0.definitions.Keys == IndexedNames(defs)
    requires n in idx0.definitions ==> EntryIsFirst(idx0, defs, n, bases)
    requires |bases| > |defs| && IndexDefStep(idx0, idx1, d, bases[|defs|])
    requires n in idx1.definitions
    ensures EntryIsFirst(idx1, defs + [d], n, bases)
  {
    IndexedNamesSnoc(defs, d);
    FirstDefinitionSnoc(defs, d, n);
    if n in idx0.definitions {
      EntryKept(idx0, idx1, defs, d, bases, n);
    } else {
      EntryAdded(idx0, idx1, defs, d, bases, n);
    }
  }

  lemma EntryKept(idx0: Index, idx1: Index, defs: seq<Define>, d: Define, bases: seq<nat>, n: Name)
    requires n in idx0.definitions && EntryIsFirst(idx0, defs, n, bases)
    requires |bases| > |defs| && IndexDefStep(idx0, idx1, d, bases[|defs|])
    requires n in IndexedNames(defs + [d]) && FirstDefinition(defs + [d], n) == FirstDefinition(defs, n)
    ensures EntryIsFirst(idx1, defs + [d], n, bases)
  {
    var i := FirstDefinition(defs, n);
    assert idx1.definitions[n] == idx0.definitions[n] && idx1.rangeInfo[n] == idx0.rangeInfo[n];
    assert (defs + [d])[i] == defs[i];
    assert (defs + [d])[..i] == defs[..i];
  }

  lemma EntryAdded(idx0: Index, idx1: Index, defs: seq<Define>, d: Define, bases: seq<nat>, n: Name)
    requires n !in idx0.definitions && n in idx1.definitions
    requires |bases| > |defs| && IndexDefStep(idx0, idx1, d, bases[|defs|])
    requires n in IndexedNames(defs + [d]) && FirstDefinition(defs + [d], n) == |defs|
    ensures EntryIsFirst(idx1, defs + [d], n, bases)
  {
    assert (defs + [d])[|defs|] == d;
    assert (defs + [d])[..|defs|] == defs;
  }

  lemma KeysStep(idx0: Index, idx1: Index, defs: seq<Define>, d: Define, bases: seq<nat>)
    requires KeysSoFar(idx0, defs, bases)
    requires |bases| > |defs| && IndexDefStep(idx0, idx1, d, bases[|defs|])
    ensures KeysSoFar(idx1, defs + [d], bases)
  {
    KeysStepDomain(idx0, idx1, defs, d, bases[|defs|]);
    forall n | n in idx1.definitions
      ensures EntryIsFirst(idx1, defs + [d], n, bases)
    {
      EntryStep(idx0, idx1, defs, d, bases, n);
    }
  }

  lemma KeysStepDomain(idx0: Index, idx1: Index, defs: seq<Define>, d: Define, at: nat)
    requires idx0.definitions.Keys == IndexedNames(defs) && idx0.rangeInfo.Keys == IndexedNames(defs)
    requires IndexDefStep(idx0, idx1, d, at)
    ensures idx1.definitions.Keys == IndexedNames(defs + [d]) && idx1.rangeInfo.Keys == IndexedNames(defs + [d])
  {
    IndexedNamesSnoc(defs, d);
  }

  lemma DiagsStep(diags0: seq<Diagnostic>, diagsMid: seq<Diagnostic>, diags1: seq<Diagnostic>,
                  defs: seq<Define>, d: Define, extra: seq<Diagnostic>, taken: bool)
    requires DiagsSoFar(diags0, defs)
    requires diagsMid == diags0 + (if d.isVariable then [Diagnostic(NonBindingAtRoot, d.range)] else [])
    requires !Indexable(d) ==> diags1 == diagsMid
    requires Indexable(d) ==>
      (taken <==> d.name.value.text in IndexedNames(defs))
      && diags1 == diagsMid + extra
         + (if taken then [Diagnostic(AlreadyDefined(d.name.value.text), d.name.value.range)] else [])
    requires AlreadyDefinedNames(extra) == [] && NonBindingRanges(extra) == []
    ensures DiagsSoFar(diags1, defs + [d])
  {
    IndexedNamesSnoc(defs, d);
    var nb := if d.isVariable then [Diagnostic(NonBindingAtRoot, d.range)] else [];
    DiagnosticFiltersConcat(diags0, nb);
    assert nb != [] ==> nb[..0] == [];
    if Indexable(d) {
      var dup := if taken then [Diagnostic(AlreadyDefined(d.name.value.text), d.name.value.range)] else [];
      DiagnosticFiltersConcat(diagsMid, extra);
      DiagnosticFiltersConcat(diagsMid + extra, dup);
      assert dup != [] ==> dup[..0] == [];
    }
  }

  /** One turn of the loop of `IndexModule`: the non-binding report, then
      the definition itself. */
  method IndexOne(ctx: Ctx, defs: seq<Define>, i: nat, ghost arena: seq<TyWithRange>, ghost uids0: nat)
    requires i < |defs|
    requires KeysSoFar(ctx.index, defs[..i], DefBases(defs, |arena|)) && DiagsSoFar(ctx.diagnostics, defs[..i])
    requires ctx.twrArena == arena + ArenaOf(defs[..i]) && ctx.uidGen == uids0 + DefsUids(defs[..i])
    modifies ctx
    ensures KeysSoFar(ctx.index, defs[..i + 1], DefBases(defs, |arena|)) && DiagsSoFar(ctx.diagnostics, defs[..i + 1])
    ensures ctx.twrArena == arena + ArenaOf(defs[..i + 1]) && ctx.uidGen == uids0 + DefsUids(defs[..i + 1])
  {
    ghost var idx0, diags0, done, bases := ctx.index, ctx.diagnostics, defs[..i], DefBases(defs, |arena|);
    assert bases[i] == |arena| + |ArenaOf(done)|;
    var def := defs[i];
    if def.isVariable {
      ctx.diagnostics := ctx.diagnostics + [Diagnostic(NonBindingAtRoot, def.range)];
    }
    ghost var diagsMid, arena0, uidsMid := ctx.diagnostics, ctx.twrArena, ctx.uidGen;
    ctx.IndexDef(def);
    IndexOneStep(idx0, ctx.index, diags0, diagsMid, ctx.diagnostics, done, def, bases);
    AllocTurn(defs, i, arena, uids0, arena0, ctx.twrArena, uidsMid, ctx.uidGen);
    TakeOneMore(defs, i);
  }

  lemma TakeOneMore(defs: seq<Define>, i: nat)
    requires i < |defs|
    ensures defs[..i + 1] == defs[..i] + [defs[i]]
  {
  }

  /** What one turn allocates and draws extends the arena and id counts of
      the definitions before it. */
  lemma AllocTurn(defs: seq<Define>, i: nat, arena: seq<TyWithRange>, uids0: nat,
                  arena0: seq<TyWithRange>, arena1: seq<TyWithRange>, uidsMid: nat, uids1: nat)
    requires i < |defs|
    requires arena0 == arena + ArenaOf(defs[..i]) && uidsMid == uids0 + DefsUids(defs[..i])
    requires arena1 == arena0 + (if Indexable(defs[i]) then DefArena(defs[i]) else [])
    requires uids1 == uidsMid + (if Indexable(defs[i]) then DefUids(defs[i]) else 0)
    ensures arena1 == arena + ArenaOf(defs[..i + 1]) && uids1 == uids0 + DefsUids(defs[..i + 1])
  {
    ArenaOfPrefixStep(defs, i);
  }

  /** The invariants of `IndexModule` survive one definition, whatever
      `IndexDef` made of it. */
  lemma IndexOneStep(idx0: Index, idx1: Index, diags0: seq<Diagnostic>, diagsMid: seq<Diagnostic>,
                     diags1: seq<Diagnostic>, done: seq<Define>, def: Define, bases: seq<nat>)
    requires KeysSoFar(idx0, done, bases) && DiagsSoFar(diags0, done) && |bases| > |done|
    requires diagsMid == diags0 + (if def.isVariable then [Diagnostic(NonBindingAtRoot, def.range)] else [])
    requires !Indexable(def) ==> idx1 == idx0 && diags1 == diagsMid
    requires Indexable(def) ==>
      var n := def.name.value.text;
      if n in idx0.definitions then
        idx1 == idx0
        && diags1 == diagsMid + ParseDiagnostics(DefOutcomes(def)) + [Diagnostic(AlreadyDefined(n), def.name.value.range)]
      else
        idx1.definitions == idx0.definitions[n := DefDefinition(def, bases[|done|])]
        && idx1.rangeInfo == idx0.rangeInfo[n := DefRangeInfo(def)]
        && diags1 == diagsMid + ParseDiagnostics(DefOutcomes(def))
    ensures KeysSoFar(idx1, done + [def], bases) && DiagsSoFar(diags1, done + [def])
  {
    KeysStep(idx0, idx1, done, def, bases);
    if Indexable(def) {
      ParseDiagnosticsFiltered(DefOutcomes(def));
      DiagsStep(diags0, diagsMid, diags1, done, def, ParseDiagnostics(DefOutcomes(def)),
                def.name.value.text in idx0.definitions);
    } else {
      DiagsStep(diags0, diagsMid, diags1, done, def, [], false);
    }
  }

  /** Unfolds the map invariant of `IndexModule` for its postcondition. */
  lemma EntriesAreFirst(idx: Index, defs: seq<Define>, bases: seq<nat>)
    requires KeysSoFar(idx, defs, bases)
    ensures forall n :: n in idx.definitions ==>
      var k := FirstDefinition(defs, n);
      idx.rangeInfo[n] == DefRangeInfo(defs[k])
      && k < |bases| && idx.definitions[n] == DefDefinition(defs[k], bases[k])
  {
    forall n | n in idx.definitions
      ensures var k := FirstDefinition(defs, n);
        idx.rangeInfo[n] == DefRangeInfo(defs[k])
        && k < |bases| && idx.definitions[n] == DefDefinition(defs[k], bases[k])
    {
      assert EntryIsFirst(idx, defs, n, bases);
    }
  }

  /** Indexes every root-level definition in order. A root-level variable
      define is reported as non-binding but is indexed like any other. */
  method IndexModule(defs: seq<Define>, arena: seq<TyWithRange>, uidGen: nat)
    returns (idx: Index, diags: seq<Diagnostic>, arenaOut: seq<TyWithRange>, uidGenOut: nat)
    ensures arenaOut == arena + ArenaOf(defs) && uidGenOut == uidGen + DefsUids(defs)
    ensures idx.definitions.Keys == IndexedNames(defs) && idx.rangeInfo.Keys == IndexedNames(defs)
    ensures forall n :: n in idx.definitions ==>
      var k := FirstDefinition(defs, n);
      idx.rangeInfo[n] == DefRangeInfo(defs[k])
      && idx.definitions[n] == DefDefinition(defs[k], DefBases(defs, |arena|)[k])
    ensures AlreadyDefinedNames(diags) == DuplicateNames(defs)
    ensures NonBindingRanges(diags) == VariableRanges(defs)
  {
    var ctx := new Ctx(arena, uidGen);
    IndexAll(ctx, defs);
    EntriesAreFirst(ctx.index, defs, DefBases(defs, |arena|));
    idx, diags, arenaOut, uidGenOut := ctx.index, ctx.diagnostics, ctx.twrArena, ctx.uidGen;
  }

  /** The loop of `IndexModule`, over a fresh context. */
  method IndexAll(ctx: Ctx, defs: seq<Define>)
    requires ctx.index == Index(map[], map[]) && ctx.diagnostics == []
    modifies ctx
    ensures KeysSoFar(ctx.index, defs, DefBases(defs, |old(ctx.twrArena)|)) && DiagsSoFar(ctx.diagnostics, defs)
    ensures ctx.twrArena == old(ctx.twrArena) + ArenaOf(defs) && ctx.uidGen == old(ctx.uidGen) + DefsUids(defs)
  {
    ghost var arena, uids0 := ctx.twrArena, ctx.uidGen;
    var i := 0;
    while i < |defs|
      invariant 0 <= i <= |defs|
      invariant KeysSoFar(ctx.index, defs[..i], DefBases(defs, |arena|)) && DiagsSoFar(ctx.diagnostics, defs[..i])
      invariant ctx.twrArena == arena + ArenaOf(defs[..i]) && ctx.uidGen == uids0 + DefsUids(defs[..i])
    {
      IndexOne(ctx, defs, i, arena, uids0);
      i := i + 1;
    }
    assert defs[..i] == defs;
  }
}
