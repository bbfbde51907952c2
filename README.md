# capy compiler core, modelled in Dafny

capy is a small systems language. Its compiler splits the work into these stages:

- **hir_ty**: the semantic types (`Ty`). It can compare and classify them, widen two numeric types (`max`), check coercion (`can_fit_into`), casts, weak-type replacement, and the typing rules of operators.
- **hir index**: scans a module's root-level definitions. It builds the table of functions and globals with their annotated types, and reports non-binding roots, redefinitions and unparsable types.
- **hir body**: lowers each definition body into arenas of expressions, statements and locals. Lowering keeps a stack of scopes, resolves names against locals, parameters, this module and other modules, decodes string escapes, and reports diagnostics. `debug` renders the lowered bodies as text.
- **codegen convert**: maps types to Cranelift computation types and signatures. It drops void parameters and records the re-indexing. It also computes the 32-bit runtime type ids, registering composite types in `MetaTyData`.
- **codegen functions**: the per-function compiler. It encodes global constants as bytes, declares global and string data, keeps the per-function tables of referenced functions and lambdas, lays out struct field and array item stores, and binds parameters (including a hidden return slot) at the start of `finish`.

The model has one module per stage:

- `HirTy` and `HirTyProps` for `ty.rs`;
- `HirIndex` for `index.rs`;
- `HirBody`, `HirBodyLower` and `HirBodyRender` for `body.rs`;
- `Convert` for `convert.rs`;
- `CodegenConstData` and `CodegenFunctions` for `functions.rs`.

`Wrappers` holds `Option`, the fixed-width integer ranges and powers of two.

How the source's forms are modelled:

- The pure `ty.rs` operations are functions, and properties are proved about them as lemmas.
- The indexing and lowering contexts, `MetaTyData` and `FunctionCompiler` are classes whose methods update their fields. Each method keeps the invariants and states what it changes. The indexing, registry and code-generation methods give the new state exactly; the lowering methods state the value they lower to, what they report, and that the arenas only grow.
- Loops in the source are `while` loops with invariants. These are the signature re-indexing, indexing every definition, lowering statements or arguments, writing array items, the constant-data byte copy, the store layouts and the parameter binding.

## Model

| member | source | states |
|---|---|---|
| `HirTyProps.IsEqualToSymmetric` | crates/hir_ty/src/ty.rs:193-240 | `is_equal_to` is symmetric |
| `HirTyProps.IsEqualToTransitive` | crates/hir_ty/src/ty.rs:193-240 | `is_equal_to` is transitive |
| `HirTyProps.DistinctEqualIffSameUid` | crates/hir_ty/src/ty.rs:193-240 | two distinct types are equal exactly when their uids match |
| `HirTyProps.IsEqualToComposites` | crates/hir_ty/src/ty.rs:193-240 | arrays, pointers and functions compare component-wise, structs structurally, and a distinct type never equals a non-distinct one |
| `HirTyProps.FunctionallyEquivalentReflexive` | crates/hir_ty/src/ty.rs:244-293 | every type is functionally equivalent to itself |
| `HirTyProps.FunctionallyEquivalentSymmetric` | crates/hir_ty/src/ty.rs:244-293 | functional equivalence is symmetric |
| `HirTyProps.FunctionallyEquivalentSeesThroughDistinct` | crates/hir_ty/src/ty.rs:244-293 | a distinct wrapper on either side does not change functional equivalence |
| `HirTyProps.FunctionallyEquivalentOnStripped` | crates/hir_ty/src/ty.rs:244-293 | functional equivalence equals that of the stripped types |
| `HirTyProps.ClassificationSeesThroughDistinct` | crates/hir_ty/src/ty.rs:70-190 | every `is_*` / `as_*` classifier and `get_max_int_size` answers as on the stripped type |
| `HirTyProps.ZeroSizedIsNoScalar` | crates/hir_ty/src/ty.rs:150-161 | a zero-sized type is no int, pointer or function, strips to void, file, array or struct, and an array of it is zero-sized |
| `HirTyProps.MaxIntSizeIsTypeMaximum` | crates/hir_ty/src/ty.rs:295-314 | the maximum of each sized integer is 2^(w-1)-1 or 2^w-1, 128-bit widths give the 64-bit maximum, other widths give none |
| `HirTyProps.MaxIdempotent` | crates/hir_ty/src/ty.rs:331-407 | `max(a, a)` is `a` |
| `HirTyProps.MaxOfIntegers` | crates/hir_ty/src/ty.rs:331-407 | same-sign integers widen to the wider width; mixed signs give the signed type only when it is strictly wider, else none |
| `HirTyProps.MaxOfWeakIntegers` | crates/hir_ty/src/ty.rs:331-407 | two weak integers give a weak integer, unsigned only if both are |
| `HirTyProps.MaxSymmetricOnNumbers` | crates/hir_ty/src/ty.rs:331-407 | `max` of two numeric types does not depend on argument order |
| `HirTyProps.MaxIsUpperBound` | crates/hir_ty/src/ty.rs:331-407 | whenever `max` of two numbers exists, both fit into it |
| `HirTyProps.MaxWithUnknown` | crates/hir_ty/src/ty.rs:331-407 | an unknown operand takes the other operand's type, on either side |
| `HirTyProps.CanFitIntoReflexive` | crates/hir_ty/src/ty.rs:430-498 | every type fits into itself |
| `HirTyProps.CanFitIntoIntegers` | crates/hir_ty/src/ty.rs:430-498 | the integer coercion rules: weak targets accept all, same sign needs no narrowing, unsigned into signed needs a strictly wider target, signed into unsigned only into weak |
| `HirTyProps.CanFitIntoDistinct` | crates/hir_ty/src/ty.rs:430-498 | a non-distinct value fits a distinct type exactly when it fits the wrapped type |
| `HirTyProps.DistinctIntHasIntSemantics` | crates/hir_ty/src/ty.rs:562-589 | any type stripping to an integer has weak-int semantics, so `+`, `%` and unary `-` accept it |
| `HirTyProps.DistinctNotSizedInt` | crates/hir_ty/src/ty.rs:562-589 | a distinct type never has the semantics of a sized integer |
| `HirTyProps.PrimitivesCastToEachOther` | crates/hir_ty/src/ty.rs:503-559 | every pair of castable primitives may be cast into each other |
| `HirTyProps.CastableOnStripped` | crates/hir_ty/src/ty.rs:503-559 | whether a cast is allowed is decided on the stripped types |
| `HirTyProps.StringPointerCasts` | crates/hir_ty/src/ty.rs:503-559 | strings cast to and from pointers exactly when the pointee is any, u8 or char |
| `HirTyProps.WeakReplaceableOnlyIfWeak` | crates/hir_ty/src/ty.rs:593-670 | only a type that might be weak (or contains a distinct type) is weakly replaceable |
| `HirTyProps.NotWeakReplaceableBySelf` | crates/hir_ty/src/ty.rs:593-670 | a type without distinct parts is never weakly replaceable by itself |
| `HirTyProps.BinaryOutputTyping` | crates/hir_ty/src/ty.rs:679-703 | a binary result exists exactly when `max` does; comparisons and logic give bool, the rest the widened type |
| `HirTyProps.UnaryOutputTyping` | crates/hir_ty/src/ty.rs:711-719 | negating an unsigned type gives the signed type of the same width and every other case keeps the input; so a negation is never unsigned, a second application changes nothing, and an accepted operand gives an output the operator accepts again |
| `HirTyProps.BoolIsNoComparisonTy` | crates/hir_ty/src/ty.rs:562-589 | bool has the semantics of none of the types comparisons expect |
| `HirTyProps.BinaryDefaultTyIsPerformable` | crates/hir_ty/src/ty.rs:729-771 | an operator accepts its default type exactly when it is arithmetic, bitwise or logical |
| `HirTyProps.ComparisonExpected` | crates/hir_ty/src/ty.rs:729-771 | a comparison's default type is bool, and bool has none of the expected semantics |
| `HirTyProps.NoneHasSemantics` | crates/hir_ty/src/ty.rs:729-751 | a type with none of the listed semantics is accepted by no operator expecting them |
| `HirTyProps.DefaultTyIsPerformable` | crates/hir_ty/src/ty.rs:729-793 | the binary statement above, and every unary operator accepts its default type |
| `Convert.Bits` | crates/codegen/src/convert.rs:24-26 | a machine type is 8, 16, 32, 64 or 128 bits wide |
| `Convert.NumberMaxProperties` | crates/codegen/src/convert.rs:28-48 | `NumberType::max` is symmetric, takes the wider width, and is float or signed when either operand is |
| `Convert.IntoRealType` | crates/codegen/src/convert.rs:66-72 | only void has no machine type; numbers and pointers give their own |
| `Convert.IntoNumberType` | crates/codegen/src/convert.rs:74-79 | a number type is given exactly for a number computation type, and it is that number |
| `Convert.ToCompTypeKinds` | crates/codegen/src/convert.rs:87-171 | lowering sees through distinct and gives ints, floats, bools, chars, void and pointers as the source's arms do |
| `Convert.AggregatesLowerToPointers` | crates/codegen/src/convert.rs:87-171 | structs and arrays are passed as pointers |
| `Convert.KeptIndicesSpec` | crates/codegen/src/convert.rs:183-231 | exactly the non-void parameters are kept, in increasing order |
| `Convert.KeptParamTypesSpec` | crates/codegen/src/convert.rs:183-231 | the kept parameters' machine types line up with their indices |
| `Convert.ReindexMapSpec` | crates/codegen/src/convert.rs:183-231 | `new_idx_to_old_idx` maps 0..k-1 onto the non-void parameters, in order |
| `Convert.ToCraneliftSignature` | crates/codegen/src/convert.rs:183-231 | the re-indexing map is that of the kept parameters; the parameters are the kept machine types plus a trailing destination pointer for an aggregate return; the result is the return type's machine type, none for void |
| `Convert.ClampAlign` | crates/codegen/src/convert.rs:252-263 | `byte_width.min(8).max(1)` lies in 1..8 and equals the byte width when that is in 1..8 |
| `Convert.SimpleIdSum` | crates/codegen/src/convert.rs:252-263 | without overflow a simple id is the sum of discriminant, sign, alignment and byte-width fields |
| `Convert.SimpleIdFields` | crates/codegen/src/convert.rs:252-263 | the four fields decode back out of a simple id |
| `Convert.CompositeIdFields` | crates/codegen/src/convert.rs:298-391 | a composite id is discriminant * 2^26 plus its list index, and both decode back |
| `Convert.Discriminant` | crates/codegen/src/convert.rs:234-250 | discriminants run from 1 to 14; the numbered kinds are exactly those from `FIRST_COMPLEX_DISCRIMINANT` |
| `Convert.KindIndex` | crates/codegen/src/convert.rs:301-307 | a type has an index among its kind exactly when it is registered (the registry theory is stated over any element type, with `KindOf` passed in as the kind function) |
| `Convert.ToPreviousTypeId` | crates/codegen/src/convert.rs:401-499 | the id is missing (the `unwrap` panic) exactly for an unregistered composite type |
| `Convert.KindCountConcat` | crates/codegen/src/convert.rs:301-307 | counting registered types of a kind distributes over concatenation |
| `Convert.KindIndexConcat` | crates/codegen/src/convert.rs:301-307 | appending keeps indices into the prefix; a type first seen in the suffix is numbered after the prefix's members of its kind |
| `Convert.KindIndexPrefix` | crates/codegen/src/convert.rs:301-307 | appending leaves the index of a type already in the prefix unchanged |
| `Convert.KindIndexSuffix` | crates/codegen/src/convert.rs:301-307 | a type absent from the prefix is numbered after the prefix's members of its kind |
| `Convert.PreviousTypeIdStable` | crates/codegen/src/convert.rs:401-499 | an id stays the same when more types are registered |
| `Convert.KindIndexInjective` | crates/codegen/src/convert.rs:301-307 | two different registered types of one kind get different list indices |
| `Convert.KindIndexBound` | crates/codegen/src/convert.rs:301-307 | a list index is below the registry's length |
| `Convert.TypeIdCarriesDiscriminant` | crates/codegen/src/convert.rs:401-499 | every id carries its type's discriminant in bits 26 and up |
| `Convert.CompositeIdsDiffer` | crates/codegen/src/convert.rs:401-499 | two different registered composite types of one kind get different ids |
| `Convert.MetaTyData.GenerateUniqueId` | crates/codegen/src/convert.rs:308-311 | returns the counter of kind `k` and increments only that counter |
| `Convert.MetaTyData.PushIfAbsent` | crates/codegen/src/convert.rs:394-396 | appends a non-composite type only when it is not registered yet, keeping the registry duplicate-free |
| `Convert.MetaTyData.FindOrRegister` | crates/codegen/src/convert.rs:301-311 | registers a new composite type at most once and returns its index among its kind |
| `Convert.MetaTyData.ToTypeId` | crates/codegen/src/convert.rs:271-399 | the registry becomes exactly `Registered` of the old one: the type, then what it is built from, each appended when absent; the returned id is what `to_previous_type_id` gives afterwards; a fully registered type changes nothing |
| `Convert.RegisteredAppendsSpine` | crates/codegen/src/convert.rs:271-399 | registering only appends, appends nothing but the type and what it is built from, leaves all of those registered, and changes nothing when they already were |
| `Convert.MetaTyData.CompositeTypeId` | crates/codegen/src/convert.rs:298-391 | the same as `ToTypeId`, including the exact new registry, for the array, pointer, distinct, function and struct arms |
| `Convert.CompositeIdStaysValid` | crates/codegen/src/convert.rs:401-499 | an index found in a registry prefix gives the same id in the grown registry |
| `Convert.RegisterKeepsCounts` | crates/codegen/src/convert.rs:308-311 | registering a new type adds one to its kind's count and numbers it last |
| `Convert.RegisterIndex` | crates/codegen/src/convert.rs:308-311 | a newly appended type's index is the number of earlier types of its kind |
| `HirIndex.Index.Functions` | crates/hir/src/index.rs:19-26 | holds exactly the function definitions |
| `HirIndex.Index.Globals` | crates/hir/src/index.rs:28-35 | holds exactly the global definitions |
| `HirIndex.Index.GetDefinition` | crates/hir/src/index.rs:37-39 | a definition is found exactly for an indexed name |
| `HirIndex.NameViewsPartition` | crates/hir/src/index.rs:45-61 | function names and global names are disjoint, together form the definition names, and are the keys of the two maps |
| `HirIndex.ParsedTy` | crates/hir/src/index.rs:153-155 | a parse error leaves `Unknown`, a parsed type itself |
| `HirIndex.OutcomeRunConcat` | crates/hir/src/index.rs:153-165 | for consecutive parses, the arena entries and diagnostics are concatenated in order and the unique ids drawn add up |
| `HirIndex.PlacedSplit` | crates/hir/src/index.rs:233-248 | the arena entries of a run of parses are those before a parse, that parse's own, and those after |
| `HirIndex.LambdaFunctionShape` | crates/hir/src/index.rs:215-267 | the annotation's slot comes first, then the parameters' slots in increasing order, then the return type's slot, the last one allocated; each slot holds its parsed type (void for an omitted return type) and the parameters keep their names and order |
| `HirIndex.FirstDefinition` | crates/hir/src/index.rs:177-213 | the position of the earliest definition indexed under a name |
| `HirIndex.DiagnosticFiltersConcat` | crates/hir/src/index.rs:109-141 | the two diagnostic filters distribute over concatenation |
| `HirIndex.ParseDiagnosticsFiltered` | crates/hir/src/index.rs:157-175 | type-parse errors are neither redefinitions nor non-binding reports |
| `HirIndex.Ctx.ParseTy` | crates/hir/src/index.rs:153-175 | returns the parsed type, reporting a parse error; the arena and the unique-id counter grow by exactly what the parser allocated and drew, and the index is unchanged |
| `HirIndex.Ctx.IndexParams` | crates/hir/src/index.rs:233-248 | parameters are parsed and allocated in order, each pointing at the slot after its own parse's allocations; the arena, the unique-id counter and the diagnostics grow by exactly what the parses took and reported |
| `HirIndex.Ctx.IndexParam` | crates/hir/src/index.rs:234-247 | one parameter's type is parsed and allocated after the parser's own allocations; the parameter keeps its name and points at that slot |
| `HirIndex.Ctx.AllocLambdaTypes` | crates/hir/src/index.rs:215-267 | the function is `LambdaFunction` at the old arena length: annotation, parameter and return types parsed and allocated in order, an omitted return type as void; the arena, the unique-id counter and the diagnostics grow by exactly what the parses took and reported |
| `HirIndex.Ctx.AllocReturnTy` | crates/hir/src/index.rs:251-260 | the return type is parsed and allocated after the parser's own allocations, or void when it is omitted |
| `HirIndex.Ctx.IndexLambda` | crates/hir/src/index.rs:215-267 | no name gives `NoName` and no change; otherwise the function of the lambda with its ranges |
| `HirIndex.Ctx.IndexGlobal` | crates/hir/src/index.rs:269-295 | no name gives `NoName` and no change; otherwise a global whose type is allocated after the parser's own allocations |
| `HirIndex.Ctx.IndexDef` | crates/hir/src/index.rs:177-213 | the arena and unique-id counter grow by the definition's parses; a taken name is reported as already defined and keeps the first entry; a fresh name is added as `DefDefinition` at the old arena length, with its ranges |
| `HirIndex.IndexOne` | crates/hir/src/index.rs:117-139 | one turn of the loop keeps the map, diagnostic, arena and unique-id invariants for the definitions seen so far |
| `HirIndex.IndexAll` | crates/hir/src/index.rs:117-139 | the loop leaves each indexed name with its first definition's entry and grows the arena and unique-id counter by every definition's parses, in order |
| `HirIndex.ArenaOfSplit` | crates/hir/src/index.rs:117-139 | the module's allocations are those of the definitions before an indexable one, its own, and those after |
| `HirIndex.IndexModule` | crates/hir/src/index.rs:109-141 | the index holds exactly the indexed names, each with the entry of its first definition at that definition's arena position; the arena and unique-id counter come out grown by every definition's parses, in order; redefinitions and root-level variables are reported in order (stated through the two filters `AlreadyDefinedNames` and `NonBindingRanges`; how these reports interleave with the type parsers' own diagnostics is not stated) |
| `HirBody.ResolveInnermostFirst` | crates/hir/src/body.rs:997-1005 | a name resolves exactly when some scope binds it, and then to the innermost binding |
| `HirBody.ResolveAfterInsert` | crates/hir/src/body.rs:992-1005 | after binding a name in the innermost scope, that name resolves to it and others are unchanged |
| `HirBody.ResolveThroughEmptyScope` | crates/hir/src/body.rs:1011-1013 | an empty child scope changes no lookup |
| `HirBody.ResolveBelow` | crates/hir/src/body.rs:997-1005 | a resolved local is in the arena |
| `HirBody.WorldIndex.GetDefinition` | crates/hir/src/body.rs:603-650 | the module is looked up first, then the name; unknown module and unknown definition are told apart |
| `HirBody.AssignmentDiagnosticsCases` | crates/hir/src/body.rs:358-400 | assignment is accepted exactly for a mutable local; globals, parameters and immutable locals report `SetImmutable`, anything else `UndefinedLocal` |
| `HirBody.EscapedChar` | crates/hir/src/body.rs:954-990 | exactly the five escapes `\"`, `\\`, `\n`, `\r`, `\t` are known |
| `HirBody.DecodeConcat` | crates/hir/src/body.rs:954-990 | decoding distributes over the components |
| `HirBody.EscapeDiagnosticsConcat` | crates/hir/src/body.rs:954-990 | escape diagnostics distribute over the components |
| `HirBody.DecodeShape` | crates/hir/src/body.rs:954-990 | one `InvalidEscape` per unknown escape and nothing else |
| `HirBody.StmtValueBelowMonotone` | crates/hir/src/body.rs:329-356 | a statement's references stay in range as arenas grow |
| `HirBody.RefsBelowMonotone` | crates/hir/src/body.rs:402-416 | an expression's references stay in range as arenas grow |
| `HirBody.ArenasExtendTrans` | crates/hir/src/body.rs:402-416 | arena growth is transitive |
| `HirBodyLower.GrewTrans` | crates/hir/src/body.rs:402-416 | growth of the lowering state is transitive |
| `HirBodyLower.WellFormedGrow` | crates/hir/src/body.rs:402-416 | what was well formed stays well formed as arenas grow |
| `HirBodyLower.WellFormedWithExpr` | crates/hir/src/body.rs:402-416 | allocating an expression whose references are in range keeps the bodies well formed |
| `HirBodyLower.WellFormedWithStmt` | crates/hir/src/body.rs:534-551 | allocating a statement keeps the bodies well formed |
| `HirBodyLower.WellFormedWithLocalDef` | crates/hir/src/body.rs:340-356 | allocating a local definition keeps the bodies well formed |
| `HirBodyLower.WellFormedWithLocalSet` | crates/hir/src/body.rs:358-400 | allocating an assignment keeps the bodies well formed |
| `HirBodyLower.WellFormedRetabled` | crates/hir/src/body.rs:279-327 | changing the definition tables keeps the bodies well formed |
| `HirBodyLower.WellFormedWithArena` | crates/hir/src/body.rs:258-277 | a longer type arena keeps the bodies well formed |
| `HirBodyLower.ParamBindingsSpec` | crates/hir/src/body.rs:298-327 | a lambda's named parameters are bound to their positions, the later one winning, and other names keep their binding |
| `HirBodyLower.Ctx.constructor` | crates/hir/src/body.rs:226-256 | a context starts with empty bodies, no diagnostics, one empty scope and no parameters |
| `HirBodyLower.Ctx.PushDiagnostic` | crates/hir/src/body.rs:358-400 | appends one diagnostic and changes nothing else |
| `HirBodyLower.Ctx.AllocExpr` | crates/hir/src/body.rs:402-416 | appends the expression and its range and returns its index |
| `HirBodyLower.Ctx.AllocStmt` | crates/hir/src/body.rs:534-551 | appends the statement and returns its index |
| `HirBodyLower.Ctx.AllocLocalDef` | crates/hir/src/body.rs:340-356 | appends the local definition and returns its index |
| `HirBodyLower.Ctx.AllocLocalSet` | crates/hir/src/body.rs:358-400 | appends the assignment and returns its index |
| `HirBodyLower.Ctx.AllocTy` | crates/hir/src/body.rs:258-277 | appends the type to the arena and returns its index |
| `HirBodyLower.Ctx.GenerateUniqueId` | crates/hir/src/body.rs:460-467 | returns the counter and increments it |
| `HirBodyLower.Ctx.InsertIntoCurrentScope` | crates/hir/src/body.rs:992-995 | binds the name in the innermost scope only |
| `HirBodyLower.Ctx.LookUpInCurrentScope` | crates/hir/src/body.rs:997-1005 | returns the innermost binding of the name |
| `HirBodyLower.Ctx.CreateNewChildScope` | crates/hir/src/body.rs:1011-1013 | pushes one empty scope |
| `HirBodyLower.Ctx.DestroyCurrentScope` | crates/hir/src/body.rs:1015-1017 | pops the innermost scope, and does nothing on an empty stack |
| `HirBodyLower.Ctx.LowerTy` | crates/hir/src/body.rs:258-277 | a parse error is reported and becomes `Unknown`; the arena and the unique-id counter grow by exactly what the parser allocated and drew |
| `HirBodyLower.Ctx.LowerExpr` | crates/hir/src/body.rs:402-416 | allocates exactly one new expression last, `Missing` with no range when there is none, else with the expression's range and the value `LoweredAs` gives for its kind |
| `HirBodyLower.Ctx.LowerExprRaw` | crates/hir/src/body.rs:418-438 | the lowered expression only refers to expressions and types already allocated, and is what `LoweredAs` gives for its kind (a cast to the parsed type, a call as `CallResult` says, a variable as `VarRefValue` says, and so on) |
| `HirBodyLower.Ctx.LowerOtherExpr` | crates/hir/src/body.rs:418-438 | the same as `LowerExprRaw`, for the loop, call, index, name, literal and `distinct` arms |
| `HirBodyLower.Ctx.LowerCast` | crates/hir/src/body.rs:440-446 | a cast to the parsed target type, whose operand was allocated last |
| `HirBodyLower.Ctx.LowerRef` | crates/hir/src/body.rs:448-452 | a reference to the operand allocated last |
| `HirBodyLower.Ctx.LowerDeref` | crates/hir/src/body.rs:454-458 | a dereference of the operand allocated last |
| `HirBodyLower.Ctx.LowerBinary` | crates/hir/src/body.rs:469-490 | both operands are lowered; a missing operator gives `Missing`, else the operator with the left operand first |
| `HirBodyLower.Ctx.LowerUnary` | crates/hir/src/body.rs:492-503 | the operand is lowered; a missing operator gives `Missing` |
| `HirBodyLower.Ctx.LowerArray` | crates/hir/src/body.rs:505-532 | a missing body is reported at the end of the expression and gives `Missing`; otherwise an array of the lowered items with its type |
| `HirBodyLower.Ctx.LowerBlock` | crates/hir/src/body.rs:534-551 | one new statement per statement and a tail exactly when there is one, lowered in a scope that is gone afterwards |
| `HirBodyLower.Ctx.LowerStmts` | crates/hir/src/body.rs:538-545 | the block's statements are allocated in order and only the innermost scope changes |
| `HirBodyLower.Ctx.LowerIf` | crates/hir/src/body.rs:553-569 | condition before body, and an else branch exactly when written |
| `HirBodyLower.Ctx.LowerWhile` | crates/hir/src/body.rs:571-580 | a condition exactly when written, and the body allocated last |
| `HirBodyLower.Ctx.LowerIndex` | crates/hir/src/body.rs:787-798 | the base is lowered before the index |
| `HirBodyLower.Ctx.LowerIntLiteral` | crates/hir/src/body.rs:925-940 | a literal fitting a `u64` is kept; one that does not is reported and becomes `Missing` |
| `HirBodyLower.Ctx.LowerStringLiteral` | crates/hir/src/body.rs:954-990 | the literal is the decoded text and one `InvalidEscape` is reported per unknown escape |
| `HirBodyLower.Ctx.DecodeComponent` | crates/hir/src/body.rs:958-986 | a component gives the text it stands for, and only an unknown escape is reported |
| `HirBodyLower.Ctx.LowerDistinct` | crates/hir/src/body.rs:460-467 | after the parser's own allocations and ids, a fresh uid and a new arena slot holding the parsed type |
| `HirBodyLower.Ctx.LowerVarRef` | crates/hir/src/body.rs:800-923 | locals before parameters before this module's globals and functions before primitive types; other modules through the world index; every failure reported as the source does; the value is `VarRefValue` |
| `HirBodyLower.Ctx.LowerCall` | crates/hir/src/body.rs:582-785 | an absent path gives `Missing`; a qualified callee is lowered as `LowerCallOtherModule` says; a function of this module is called as `LowerCallArgs` says; a local, parameter, global or named type (in a new arena slot) is reported as called and used as it is; an unknown name is undefined |
| `HirBodyLower.Ctx.LowerCallOtherModule` | crates/hir/src/body.rs:589-660 | an unknown module or name is reported and gives `Missing`; a known one is recorded as referenced, and then a function is called as `LowerCallArgs` says while anything else gives `Missing` |
| `HirBodyLower.Ctx.LowerCallArgs` | crates/hir/src/body.rs:739-782 | an argument count differing from the callee's is reported and gives `Missing`; otherwise the call holds the arguments, newly lowered in increasing order |
| `HirBodyLower.Ctx.LowerStmt` | crates/hir/src/body.rs:329-338 | each kind of statement lowers to its own kind; only the innermost scope may change |
| `HirBodyLower.Ctx.LowerLocalDefine` | crates/hir/src/body.rs:340-356 | the local has the parsed type and mutability, and its value is the written value lowered (`LoweredAs`) in the scopes from before the name is bound, or `Missing` when there is none; the name is then bound in the innermost scope |
| `HirBodyLower.Ctx.LowerDefineParts` | crates/hir/src/body.rs:341-342 | the type is lowered before the value, and the value is lowered as `LoweredAs` says |
| `HirBodyLower.Ctx.LowerAssignment` | crates/hir/src/body.rs:358-400 | the assignment records the resolved local and the written value lowered as `LoweredAs` says (or `Missing`), after reporting as `AssignmentDiagnostics` says |
| `HirBodyLower.Ctx.CheckAssignment` | crates/hir/src/body.rs:360-392 | resolves the target and reports exactly `AssignmentDiagnostics` |
| `HirBodyLower.Ctx.LowerGlobal` | crates/hir/src/body.rs:279-296 | only the first global of a name is lowered and recorded, its body being the written expression lowered as `LoweredAs` says (or `Missing`); other cases change no table |
| `HirBodyLower.Ctx.LowerLambda` | crates/hir/src/body.rs:298-327 | only the first function of a name is lowered: its body is the written expression lowered as `LoweredAs` says with the parameters bound as `ParamBindings` says (or `Missing`), recorded under the name, and the parameters are cleared afterwards |
| `HirBodyLower.Ctx.BindParams` | crates/hir/src/body.rs:313-322 | each named parameter is bound to its position, as `ParamBindings` says |
| `HirBodyLower.Ctx.LowerFunctionBody` | crates/hir/src/body.rs:324-326 | the body is lowered as `LoweredAs` says in the current parameters (or is `Missing`), the parameters are dropped and the body is recorded under the name |
| `HirBodyLower.BodyLoweredPersists` | crates/hir/src/body.rs:185-210 | a recorded body stays valid as lowering continues |
| `HirBodyLower.FirstBindingSpec` | crates/hir/src/body.rs:279-327 | `FirstBinding` finds the earliest definition of the name |
| `HirBodyLower.FirstBindingSnoc` | crates/hir/src/body.rs:185-210 | a later definition never changes the first binding of a name bound earlier |
| `HirBodyLower.TableKeep` | crates/hir/src/body.rs:185-210 | a definition binding nothing new leaves the table's meaning intact |
| `HirBodyLower.TableAdd` | crates/hir/src/body.rs:185-210 | the first definition of a name adds its lowered body |
| `HirBodyLower.TableKeys` | crates/hir/src/body.rs:185-210 | a complete table holds exactly the names some definition binds |
| `HirBodyLower.LowerRootDef` | crates/hir/src/body.rs:195-205 | one step of `lower` keeps both tables complete for the definitions seen so far |
| `HirBodyLower.LowerModule` | crates/hir/src/body.rs:185-210 | the bodies are well formed, and the globals and function tables hold exactly the bound names, each with its first definition's body |
| `HirBodyRender.NatToStringRoundTrip` | crates/hir/src/body.rs:1160 | decimal rendering can be read back |
| `HirBodyRender.NatToString` | crates/hir/src/body.rs:1309-1311 | digits only, no leading zero |
| `HirBodyRender.Spaces` | crates/hir/src/body.rs:1096-1400 | indentation of exactly `n` spaces |
| `HirBodyRender.HexRoundTrip` | crates/hir/src/body.rs:1164 | the hexadecimal of a byte escape reads back |
| `HirBodyRender.DebugCharsRoundTrip` | crates/hir/src/body.rs:1164 | the `{:?}` escaping of a string literal can be undone |
| `HirBodyRender.ArrayItemsAreJoined` | crates/hir/src/body.rs:1166-1180 | array items are separated like call arguments, each after a space, with a comma after all but the last |
| `HirBodyRender.ArgsTextSnoc` | crates/hir/src/body.rs:1313-1334 | the argument text is the pieces joined by `, ` |
| `HirBodyRender.RenderExprs` | crates/hir/src/body.rs:1149-1354 | one text per expression, each the rendering of that expression |
| `HirBodyRender.RenderStmts` | crates/hir/src/body.rs:1356-1399 | one text per statement, each the rendering of that statement |
| `HirBodyRender.RenderArrayAndCall` | crates/hir/src/body.rs:1166-1180 | arrays render as `[]ty{ items }`, calls as `path(args)` |
| `HirBodyRender.WriteExpr` | crates/hir/src/body.rs:1149-1354 | the written text is the expression's rendering |
| `HirBodyRender.WriteArray` | crates/hir/src/body.rs:1166-1180 | the written text is the array's rendering |
| `HirBodyRender.WriteArrayItems` | crates/hir/src/body.rs:1170-1178 | the loop writes exactly the joined item text |
| `HirBodyRender.WriteCall` | crates/hir/src/body.rs:1313-1334 | the written text is the call's rendering |
| `HirBodyRender.WriteArgs` | crates/hir/src/body.rs:1320-1332 | the loop writes exactly the joined argument text |
| `HirBodyRender.WriteBlock` | crates/hir/src/body.rs:1244-1282 | the written text is the block's rendering |
| `HirBodyRender.WriteStmtLines` | crates/hir/src/body.rs:1260-1282 | the loop writes one line per statement, in order |
| `HirBodyRender.WriteStmt` | crates/hir/src/body.rs:1356-1399 | the written text is the statement's rendering |
| `CodegenConstData.LeBytes` | crates/codegen/src/compiler/functions.rs:191-214 | `count` bytes, least significant first |
| `CodegenConstData.BeIsReversedLe` | crates/codegen/src/compiler/functions.rs:191-214 | the big-endian bytes are the little-endian ones reversed |
| `CodegenConstData.LeBytesValue` | crates/codegen/src/compiler/functions.rs:191-214 | little-endian bytes denote the value reduced modulo 2^(8*count) |
| `CodegenConstData.IntConstDataSpec` | crates/codegen/src/compiler/functions.rs:191-214 | an integer constant exists exactly for the 8 to 128 bit widths and holds the value modulo 2^width in the target's byte order |
| `CodegenConstData.ReverseReverse` | crates/codegen/src/compiler/functions.rs:191-214 | reversing twice gives the bytes back |
| `CodegenConstData.Utf8Char` | crates/codegen/src/compiler/functions.rs:232-235 | a character encodes to one to four bytes |
| `CodegenConstData.Utf8Append` | crates/codegen/src/compiler/functions.rs:232-235 | UTF-8 encoding distributes over concatenation |
| `CodegenConstData.Utf8NonZero` | crates/codegen/src/compiler/functions.rs:232-235 | a text without NUL encodes without a zero byte |
| `CodegenConstData.StringConstDataSpec` | crates/codegen/src/compiler/functions.rs:232-235 | a string constant is the text's UTF-8 bytes and one zero byte, and for a NUL-free text the only zero is the last byte |
| `CodegenConstData.ItemImages` | crates/codegen/src/compiler/functions.rs:236-261 | one image per item, each that item's constant image |
| `CodegenConstData.ItemsImage` | crates/codegen/src/compiler/functions.rs:236-261 | the first `n` item slots take `n * stride` bytes |
| `CodegenConstData.ItemsImageAt` | crates/codegen/src/compiler/functions.rs:236-261 | byte `j` of slot `i` is the item's byte `j` below `size` and padding above |
| `CodegenConstData.ArrayImageLayout` | crates/codegen/src/compiler/functions.rs:236-261 | an array image exists exactly when the stride holds an item and every item has one; then it is laid out slot by slot |
| `CodegenConstData.ConstImageOfArray` | crates/codegen/src/compiler/functions.rs:236-261 | an array constant is laid out from its items' images with the first item's size and stride |
| `CodegenConstData.CopyInto` | crates/codegen/src/compiler/functions.rs:250-255 | copies exactly `count` bytes at `at` and leaves the rest of the buffer alone |
| `CodegenConstData.PlaceItem` | crates/codegen/src/compiler/functions.rs:244-258 | placing item `idx` extends the filled prefix by its slot |
| `CodegenConstData.ExprToConstData` | crates/codegen/src/compiler/functions.rs:179-280 | data exists exactly when the constant image does, and then fills it |
| `CodegenConstData.ArrayToConstData` | crates/codegen/src/compiler/functions.rs:236-261 | the array's data exists exactly when its image does, and then fills it |
| `CodegenConstData.FillItems` | crates/codegen/src/compiler/functions.rs:244-258 | succeeds exactly when no item image is missing or short, and then the buffer fills the items' layout |
| `CodegenFunctions.FuncAdded` | crates/codegen/src/compiler/functions.rs:335-347 | a new function reference keeps both tables valid |
| `CodegenFunctions.UnnamedJobs` | crates/codegen/src/compiler/functions.rs:1512-1518 | the lambda jobs of a queue are jobs of that queue without a function name, and a queue of named jobs has none |
| `CodegenFunctions.UnnamedJobsConcat` | crates/codegen/src/compiler/functions.rs:1522 | the lambda jobs of two queues in a row are those of the first followed by those of the second |
| `CodegenFunctions.NamedQueued` | crates/codegen/src/compiler/functions.rs:320-347 | queuing named jobs keeps the lambda jobs in step with the lambda table |
| `CodegenFunctions.LambdaQueued` | crates/codegen/src/compiler/functions.rs:1503-1534 | queuing an unseen lambda adds it to the lambda jobs, once |
| `CodegenFunctions.JobsSnoc` | crates/codegen/src/compiler/functions.rs:1522 | one more job adds itself to the lambda jobs exactly when it has no function name |
| `CodegenFunctions.LambdasSnoc` | crates/codegen/src/compiler/functions.rs:1503-1534 | an unseen lambda keeps the list of queued lambdas duplicate-free and equal to the lambda table's keys |
| `CodegenFunctions.LambdaAdded` | crates/codegen/src/compiler/functions.rs:1503-1534 | a new lambda reference queued once keeps the tables and the queue in step |
| `CodegenFunctions.GlobalAdded` | crates/codegen/src/compiler/functions.rs:282-297 | declaring a new global's data keeps globals, data and string uids in step |
| `CodegenFunctions.StrAdded` | crates/codegen/src/compiler/functions.rs:314-318 | declaring a string under the next uid keeps the tables in step |
| `CodegenFunctions.DataNamesDistinct` | crates/codegen/src/compiler/functions.rs:299-318 | no data object is declared twice under one name |
| `CodegenFunctions.FunctionCompiler.constructor` | crates/codegen/src/compiler/functions.rs:36-62 | a compiler shares the module's data, globals, string uid and queue, and starts with empty per-function tables |
| `CodegenFunctions.FunctionCompiler.CreateGlobalData` | crates/codegen/src/compiler/functions.rs:299-312 | appends one data object and returns its id |
| `CodegenFunctions.FunctionCompiler.CompileGlobalBindingData` | crates/codegen/src/compiler/functions.rs:282-297 | a known global returns its data; a new one is declared with bytes filling its constant image, or nothing changes when it has none |
| `CodegenFunctions.FunctionCompiler.CreateGlobalStr` | crates/codegen/src/compiler/functions.rs:314-318 | declares `.str<uid>` with the string's bytes and a zero, and advances the uid |
| `CodegenFunctions.FunctionCompiler.GetLocalFunc` | crates/codegen/src/compiler/functions.rs:320-347 | a known function returns its reference and queues nothing; a new one is declared once, and the queue grows by exactly the named jobs `get_func_id` queues for it |
| `CodegenFunctions.FunctionCompiler.UnnamedFuncToLocal` | crates/codegen/src/compiler/functions.rs:1503-1534 | a known lambda returns its reference; a new one is declared and queued for compilation once |
| `CodegenFunctions.FunctionCompiler.QueuedOnce` | crates/codegen/src/compiler/functions.rs:1503-1534 | among the jobs queued since this function began, the lambda jobs are one per lambda it references, each queued once and in its file; named jobs `get_func_id` queued may sit between them |
| `CodegenFunctions.FunctionCompiler.StoreArrayItems` | crates/codegen/src/compiler/functions.rs:570-592 | fails exactly for no items; item `i` is stored at `offset + stride * i` |
| `CodegenFunctions.FunctionCompiler.StoreStructFields` | crates/codegen/src/compiler/functions.rs:542-568 | fails exactly when a value has no field or offset; field `i` is stored at `offset + offsets[i]` with its type and size |
| `CodegenFunctions.FunctionCompiler.BindParams` | crates/codegen/src/compiler/functions.rs:85-107 | mapped parameters are bound to fresh variables; the one unmapped parameter becomes the return slot; a second one is the `assert!` failure |
| `CodegenFunctions.UnmappedGrows` | crates/codegen/src/compiler/functions.rs:85-107 | more parameters never unmap fewer |
| `CodegenFunctions.UnmappedSpec` | crates/codegen/src/compiler/functions.rs:85-107 | exactly the parameters without an entry are unmapped, in increasing order |
| `CodegenFunctions.ParamsBoundDomain` | crates/codegen/src/compiler/functions.rs:85-107 | an original parameter is bound exactly when it was before or some signature parameter maps to it |
| `CodegenFunctions.ParamsBoundLast` | crates/codegen/src/compiler/functions.rs:85-107 | a mapped parameter's variable is that of the signature parameter mapping to it |
| `CodegenFunctions.ParamsBoundUntouched` | crates/codegen/src/compiler/functions.rs:85-107 | a parameter nothing maps to keeps its variable |

## Left out

- The `debug` output's sorting of definitions and the trimming of the final text are not modelled; `HirBodyRender` renders one expression or statement at a time.
- The display of types is a parameter (`display`) of the renderer. `Ty::display` and the interner are not part of this model.
- Rust's `Debug` escaping of non-ASCII characters is taken as printing them as they are; only control characters and ASCII escapes are modelled.
- The writers return their text instead of appending to one shared `String`.
- The world index of other modules is a map from module names to definitions; `world_index.rs` is not part of this model.
- Type parsing (`TyWithRange::parse`) is modelled by its outcome, which is given with the syntax tree: the type or the error, the types the parser allocates into the arena, and the number of unique ids it draws. The parser itself is not part of this model.
- The index accessors `range_info` and `shrink_to_fit` have no contract of interest; `shrink_to_fit` does nothing to the model's values.
- Tokens, syntax trees and text ranges are the inputs' own datatypes; `symbol_map` is not recorded.
- Convert.TypeIdCarriesDiscriminant: proved only for `IdWidthsFit` types (bit widths below 256, where the byte-width field cannot spill into the sign bit) and registries of at most 2^26 types.
- The unique-id generators and `u32` casts are unbounded naturals; wrap-around is not modelled.
- Convert.Lowerable, Convert.ParamsLowerable and Convert.TypeIdDefined: preconditions standing for the `unreachable!()` on unresolved and unknown types (convert.rs:89, 273 and 403); callers must rule those types out.
- Convert.Lowerable: also excludes integer widths other than 0, 8, 16, 32, 64, 128 and `u32::MAX`, and float widths other than 0, 32 and 64, standing for the `unreachable!()` at convert.rs:129 and 148.
- Convert.ParamsLowerable: also excludes a parameter of a type other than `Void` that lowers to no Cranelift type (`Any`, `File`, or `distinct` over void), standing for the `into_real_type().unwrap()` panic at convert.rs:201.
- Convert.NumberMax: `requires NumberMaxDefined` excludes a float combined with a 128-bit integer, standing for the `unreachable!()` at convert.rs:34.
- HirBody.Bodies.FunctionBody, HirBody.Bodies.GlobalBody, HirBody.Bodies.RangeForExpr and HirIndex.Index.RangeInfoOf: preconditions standing for the panic of indexing a map with a missing key.
- CodegenFunctions.FunctionCompiler.CompileGlobalBindingData and CodegenConstData.ExprToConstData: `None` stands for the source's panics on expressions without a constant image (`Missing` and the other `unreachable!()`, `todo!()` and `panic!` arms of `expr_to_const_data`, functions.rs:179-280).
- HirBodyLower.Ctx.LoweredAs: for composite expressions (casts, references, operators, arrays, blocks, conditionals, loops and indexing) it states the shape of the result and where its children were allocated, not what each child lowered to; those children are stated by the calls that lower them.
- HirBodyLower.Ctx.LowerAssignment, HirBodyLower.Ctx.CheckAssignment, HirBodyLower.Ctx.LowerExprRaw, HirBodyLower.Ctx.LowerIndex, HirBodyLower.Ctx.LowerOtherExpr, HirBodyLower.Ctx.DecodeComponent and HirBodyLower.Ctx.LowerTy: the syntax-tree datatypes rule out the inputs on which the source panics, so those panics are not modelled. The cases are: an assignment without a name (`unwrap()` at body.rs:361 and 381); a lambda nested inside a body (`unreachable!()` at body.rs:436); an index expression whose base or index part is absent (`unreachable!()` at body.rs:790 and 794); a bool literal that is neither `true` nor `false` (`unreachable!()` at body.rs:951); an escape with no character after the backslash (`unwrap()` at body.rs:968); and a failed parse of an absent type annotation (`unwrap()` at body.rs:268), which the model reports at the parse outcome's range.
- HirBodyLower.Ctx.LowerCallOtherModule: calls of another module's global or named type are `todo!()` in the source; the model lowers them to `Missing` without a diagnostic.
- Floating-point literals, comptime evaluation, IR generation, name mangling, file I/O and the Cranelift module itself are not modelled.
- Sizes, strides, alignments and field offsets are inputs to the store and constant-data methods; the layout computation is not part of this model.
- CodegenConstData.ExprToConstData: an item shorter than `size` or a stride smaller than `size` makes the model return `None`, where the source would copy out of bounds.
- Meta type ids of `Ty` expressions are an input map.
- Meta type ids are read from the current file's table even for a global of another file, as in the source.
- Offsets in the store methods are unbounded naturals; `u32` wrap-around is not modelled.
- `get_func_id` and `compiler/mod.rs` are not part of this model; a function reference records the fully qualified name it points at.
- CodegenFunctions.FunctionCompiler.GetLocalFunc: the jobs the module-wide `get_func_id` queues are a parameter (`declared`), required to be named jobs; which jobs those are is not stated, because `compiler/mod.rs` is not part of this model.
- CodegenFunctions.FunctionToCompile: the job drops `param_tys` and `return_ty` (functions.rs:1512-1518); the signature is taken from the lambda's type, which is not part of this model.
- CodegenFunctions.FunctionCompiler.UnnamedFuncToLocal: the panic of `as_function().unwrap()` on an expression whose type is not a function (functions.rs:1508) is not modelled, and neither is the declaration's mangled name.
- The calling convention of a signature is not modelled.
- The `index.rs` and `body.rs` files come from a revision with its own type representation; they are modelled on their own types, not on `HirTy`.
- Declaring a data object or function in the Cranelift module is represented by appending a record.
- `FillItems`, `WriteArrayItems`, `WriteArgs`, `IndexOne`, `IndexAll`, `IndexParam`, `AllocReturnTy`, `LowerRootDef`, `LowerOtherExpr`, `BindParams`, `LowerFunctionBody`, `DecodeComponent` and `CompositeTypeId` are loops, loop bodies or branches of their callers, split out as methods of their own.
- CodegenFunctions.FunctionCompiler.StoreStructFields: after a failure (a panic in the source) nothing is stated about the stores.
- CodegenFunctions.FunctionCompiler.StoreArrayItems: after a failure (a panic in the source) nothing is stated about the stores.
- The queue of functions to compile is only appended to while a function compiles; popping the queue belongs to `compiler/mod.rs`.
