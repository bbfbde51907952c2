/**
 * The type algebra of the capy compiler's type checker: the closed `Ty`
 * sum type and every relation the checker defines over it (exact equality,
 * functional equivalence, numeric widening, coercion, casting, weak literal
 * types, classification) plus the typing of operators.
 *
 * `Intern<Ty>` is modelled as a plain `Ty` value: interning makes pointer
 * equality coincide with value equality, so nothing is lost.
 */
module HirTy {
  import opened Wrappers

  /** `hir::Fqn`: a file key and a name key, both interned. */
  datatype Fqn = Fqn(file: nat, name: nat)

  /** `hir::Name`: an interned identifier key. */
  type Name = nat

  datatype Ty =
    | NotYetResolved
    | Unknown
      /** a bit width of `U32_MAX` is `isize`, a bit width of 0 is ANY signed integer */
    | IInt(bitWidth: u32)
      /** a bit width of `U32_MAX` is `usize`, a bit width of 0 is ANY unsigned integer */
    | UInt(bitWidth: u32)
      /** 32 or 64; a bit width of 0 is ANY float */
    | Float(bitWidth: u32)
    | Bool
    | String
    | Char
    | Array(size: u64, subTy: Ty)
    | Pointer(mutable: bool, subTy: Ty)
    | Distinct(fqn: Option<Fqn>, uid: u32, ty: Ty)
    | Type
    | Any
    | File(fileName: nat)
    | Function(paramTys: seq<Ty>, returnTy: Ty)
    | Struct(fqn: Option<Fqn>, uid: u32, fields: seq<(Name, Ty)>)
    | Void

  /** `hir::PrimitiveTy`, the primitive type keywords. */
  datatype PrimitiveTy =
    | PIInt(bitWidth: u32) | PUInt(bitWidth: u32) | PFloat(bitWidth: u32)
    | PBool | PString | PChar | PType | PAny | PVoid

  /** The two parts of a binary operator's typing. */
  datatype BinaryOutputTy = BinaryOutputTy(maxTy: Ty, finalOutputTy: Ty)

  datatype BinaryOp =
    | Add | Sub | Mul | Div | Mod | BAnd | BOr | Xor | LShift | RShift
    | Lt | Gt | Le | Ge | Eq | Ne | LAnd | LOr

  datatype UnaryOp = Neg | Pos | BNot | LNot

  // ---------------------------------------------------------------------
  // Helpers used to phrase the source's match arms.

  predicate IsIntKind(t: Ty) { t.IInt? || t.UInt? }

  /** `IInt(0) | UInt(0)`: an integer literal of not-yet-chosen width. */
  predicate IsWeakInt(t: Ty) { IsIntKind(t) && t.bitWidth == 0 }

  /** Nesting depth along array, pointer and distinct wrappers. */
  function SpineDepth(t: Ty): nat
  {
    match t
    case Array(_, s) => 1 + SpineDepth(s)
    case Pointer(_, s) => 1 + SpineDepth(s)
    case Distinct(_, _, s) => 1 + SpineDepth(s)
    case _ => 0
  }

  /** Removes every outer `Distinct` wrapper: the type a distinct type behaves as. */
  function Strip(t: Ty): (r: Ty)
    ensures !r.Distinct?
    ensures !t.Distinct? ==> r == t
  {
    if t.Distinct? then Strip(t.ty) else t
  }

  // ---------------------------------------------------------------------
  // Construction and accessors.

  function FromPrimitive(p: PrimitiveTy): Ty
  {
    match p
    case PIInt(w) => IInt(w)
    case PUInt(w) => UInt(w)
    case PFloat(w) => Float(w)
    case PBool => Bool
    case PString => String
    case PChar => Char
    case PType => Type
    case PAny => Any
    case PVoid => Void
  }

  function AsStruct(t: Ty): Option<seq<(Name, Ty)>>
  {
    match t
    case Struct(_, _, fields) => Some(fields)
    case Distinct(_, _, inner) => AsStruct(inner)
    case _ => None
  }

  function AsFunction(t: Ty): Option<(seq<Ty>, Ty)>
  {
    match t
    case Function(params, ret) => Some((params, ret))
    case Distinct(_, _, inner) => AsFunction(inner)
    case _ => None
  }

  function AsPointer(t: Ty): Option<(bool, Ty)>
  {
    match t
    case Pointer(m, s) => Some((m, s))
    case Distinct(_, _, inner) => AsPointer(inner)
    case _ => None
  }

  function AsArray(t: Ty): Option<(u64, Ty)>
  {
    match t
    case Array(n, s) => Some((n, s))
    case Distinct(_, _, inner) => AsArray(inner)
    case _ => None
  }

  predicate IsAggregate(t: Ty)
  {
    match t
    case Struct(_, _, _) => true
    case Array(_, _) => true
    case Distinct(_, _, inner) => IsAggregate(inner)
    case _ => false
  }

  predicate IsArray(t: Ty)
  {
    match t
    case Array(_, _) => true
    case Distinct(_, _, inner) => IsArray(inner)
    case _ => false
  }

  predicate IsPointer(t: Ty)
  {
    match t
    case Pointer(_, _) => true
    case Distinct(_, _, inner) => IsPointer(inner)
    case _ => false
  }

  predicate IsFunction(t: Ty)
  {
    match t
    case Function(_, _) => true
    case Distinct(_, _, inner) => IsFunction(inner)
    case _ => false
  }

  predicate IsStruct(t: Ty)
  {
    match t
    case Struct(_, _, _) => true
    case Distinct(_, _, inner) => IsStruct(inner)
    case _ => false
  }

  /** void, or a type that solely contains void */
  predicate IsZeroSized(t: Ty)
  {
    match t
    case Void => true
    case File(_) => true
    case Array(n, s) => n == 0 || IsZeroSized(s)
    case Struct(_, _, fields) =>
      |fields| == 0 || forall i :: 0 <= i < |fields| ==> IsZeroSized(fields[i].1)
    case Distinct(_, _, inner) => IsZeroSized(inner)
    case _ => false
  }

  predicate IsVoid(t: Ty)
  {
    match t
    case Void => true
    case Distinct(_, _, inner) => IsVoid(inner)
    case _ => false
  }

  predicate IsInt(t: Ty)
  {
    match t
    case IInt(_) => true
    case UInt(_) => true
    case Distinct(_, _, inner) => IsInt(inner)
    case _ => false
  }

  /** unknown, or containing unknown; an array of length 0 counts as unknown too */
  predicate IsUnknown(t: Ty)
  {
    match t
    case NotYetResolved => true
    case Unknown => true
    case Pointer(_, s) => IsUnknown(s)
    case Array(n, s) => n == 0 || IsUnknown(s)
    case Struct(_, _, fields) => exists i :: 0 <= i < |fields| && IsUnknown(fields[i].1)
    case Distinct(_, _, inner) => IsUnknown(inner)
    case _ => false
  }

  // ---------------------------------------------------------------------
  // Equality relations.

  /** A true equality check: nominal for distinct types, structural for
      arrays, pointers and functions, exact otherwise. */
  predicate IsEqualTo(a: Ty, b: Ty)
  {
    if a == b then true
    else if a.Array? && b.Array? then a.size == b.size && IsEqualTo(a.subTy, b.subTy)
    else if a.Pointer? && b.Pointer? then a.mutable == b.mutable && IsEqualTo(a.subTy, b.subTy)
    else if a.Distinct? && b.Distinct? then a.uid == b.uid
    else if a.Function? && b.Function? then
      IsEqualTo(a.returnTy, b.returnTy) && |a.paramTys| == |b.paramTys| &&
      forall i :: 0 <= i < |a.paramTys| ==> IsEqualTo(a.paramTys[i], b.paramTys[i])
    else false
  }

  /** An equality check that ignores distinct types. */
  predicate IsFunctionallyEquivalentTo(a: Ty, b: Ty)
    decreases SpineDepth(a) + SpineDepth(b)
  {
    if a.Array? && b.Array? then a.size == b.size && IsFunctionallyEquivalentTo(a.subTy, b.subTy)
    else if a.Pointer? && b.Pointer? then a.mutable == b.mutable && IsFunctionallyEquivalentTo(a.subTy, b.subTy)
    else if a.Distinct? && b.Distinct? then IsFunctionallyEquivalentTo(a.ty, b.ty)
    else if a.Distinct? then IsFunctionallyEquivalentTo(a.ty, b)
    // the source swaps the operands here
    else if b.Distinct? then IsFunctionallyEquivalentTo(b.ty, a)
    else IsEqualTo(a, b)
  }

  // ---------------------------------------------------------------------
  // Numeric widening and coercion.

  function GetMaxIntSize(t: Ty): Option<u64>
  {
    match t
    case IInt(w) =>
      if w == 8 then Some(0x7F)
      else if w == 16 then Some(0x7FFF)
      else if w == 32 then Some(0x7FFF_FFFF)
      else if w == 64 || w == 128 then Some(0x7FFF_FFFF_FFFF_FFFF)
      else None
    case UInt(w) =>
      if w == 8 then Some(0xFF)
      else if w == 16 then Some(0xFFFF)
      else if w == 32 then Some(0xFFFF_FFFF)
      else if w == 64 || w == 128 then Some(0xFFFF_FFFF_FFFF_FFFF)
      else None
    case Distinct(_, _, inner) => GetMaxIntSize(inner)
    case _ => None
  }

  /** The type that can represent both operands, if any; the arms are tried
      in the source's order. */
  function Max(a: Ty, b: Ty): Option<Ty>
  {
    if a == b then Some(a)
    else if a == UInt(0) && b == UInt(0) then Some(UInt(0))
    else if IsWeakInt(a) && IsWeakInt(b) then Some(IInt(0))
    else if a.IInt? && b.IInt? then Some(IInt(MaxNat(a.bitWidth, b.bitWidth)))
    else if a.UInt? && b.UInt? then Some(UInt(MaxNat(a.bitWidth, b.bitWidth)))
    else if (a.IInt? && b.UInt?) || (a.UInt? && b.IInt?) then
      var signed := if a.IInt? then a.bitWidth else b.bitWidth;
      var unsigned := if a.UInt? then a.bitWidth else b.bitWidth;
      if signed > unsigned then Some(IInt(signed)) else None
    else if IsWeakInt(a) && b.Float? then Some(Float(b.bitWidth))
    else if a.Float? && IsWeakInt(b) then Some(Float(a.bitWidth))
    else if (IsIntKind(a) && b.Float?) || (a.Float? && IsIntKind(b)) then
      var intWidth := if IsIntKind(a) then a.bitWidth else b.bitWidth;
      var floatWidth := if a.Float? then a.bitWidth else b.bitWidth;
      if intWidth < 64 && floatWidth == 0 then Some(Float(MaxNat(intWidth * 2, 32)))
      else if intWidth < floatWidth then Some(Float(floatWidth))
      else None
    else if a.Float? && b.Float? then Some(Float(MaxNat(a.bitWidth, b.bitWidth)))
    else if a.Distinct? || b.Distinct? then
      var distinct := if a.Distinct? then a else b;
      var other := if a.Distinct? then b else a;
      if HasSemanticsOf(distinct, other) then Some(distinct) else None
    else if a.Unknown? then Some(b)
    else if b.Unknown? then Some(a)
    else None
  }

  /** Whether a value of type `found` can be used where `expected` is wanted. */
  predicate CanFitInto(found: Ty, expected: Ty)
  {
    if found == expected then true
    else if found.Unknown? || expected.Unknown? then true
    else if (found.IInt? && expected.IInt?) || (found.UInt? && expected.UInt?) then
      expected.bitWidth == 0 || found.bitWidth <= expected.bitWidth
    // the unsigned type is weak
    else if found.IInt? && expected == UInt(0) then true
    // the sign would be lost
    else if found.IInt? && expected.UInt? then false
    else if found.UInt? && expected.IInt? then
      expected.bitWidth == 0 || found.bitWidth < expected.bitWidth
    else if IsIntKind(found) && expected.Float? then
      found.bitWidth == 0 || found.bitWidth < expected.bitWidth
    else if found.Float? && expected.Float? then
      expected.bitWidth == 0 || found.bitWidth <= expected.bitWidth
    else if found.Pointer? && expected.Pointer? then
      (found.mutable || !expected.mutable) &&
      ((expected.subTy == Any && !MightBeWeak(found.subTy)) || CanFitInto(found.subTy, expected.subTy))
    else if found.Array? && expected.Array? then
      found.size == expected.size && CanFitInto(found.subTy, expected.subTy)
    else if found.Struct? && expected.Struct? then found.uid == expected.uid
    else if found.Distinct? && expected.Distinct? then found.uid == expected.uid
    else if expected.Distinct? then CanFitInto(found, expected.ty)
    else IsEqualTo(found, expected)
  }

  /** The check of the `as` operator: primitives cast to each other, other
      types only when they already coincide. */
  predicate PrimitiveCastable(from: Ty, to: Ty)
  {
    if IsCastPrimitive(from) && IsCastPrimitive(to) then true
    else if from.Struct? && to.Struct? then
      |from.fields| == |to.fields| &&
      forall i :: 0 <= i < |from.fields| ==>
        from.fields[i].0 == to.fields[i].0 &&
        IsFunctionallyEquivalentTo(from.fields[i].1, to.fields[i].1)
    else if from.Distinct? && to.Distinct? then PrimitiveCastable(from.ty, to.ty)
    else if from.Distinct? then PrimitiveCastable(from.ty, to)
    else if to.Distinct? then PrimitiveCastable(from, to.ty)
    else if from.Pointer? && to.Pointer? then
      (from.mutable || !to.mutable) &&
      (from.subTy == to.subTy || from.subTy == Any || to.subTy == Any ||
       IsWeakReplaceableBy(from.subTy, to.subTy))
    // string to and from ^any, ^u8 and ^char
    else if from == String && to.Pointer? then to.subTy in {Any, UInt(8), Char}
    else if from.Pointer? && to == String then from.subTy in {Any, UInt(8), Char}
    else IsFunctionallyEquivalentTo(from, to)
  }

  predicate IsCastPrimitive(t: Ty)
  {
    t.Bool? || t.IInt? || t.UInt? || t.Float? || t.Char?
  }

  /** Lets a distinct type have the semantics of another type as long as
      its inner type does. */
  predicate HasSemanticsOf(found: Ty, expected: Ty)
  {
    match found
    case Distinct(_, uid, inner) =>
      if IsWeakInt(expected) then HasSemanticsOf(inner, expected) || CanFitInto(found, expected)
      else if IsIntKind(expected) then false
      else if expected.Distinct? then uid == expected.uid || CanFitInto(found, expected)
      else HasSemanticsOf(inner, expected) || CanFitInto(found, expected)
    case _ => CanFitInto(found, expected)
  }

  /** Whether a type is, or is built around, a weak literal type. */
  predicate MightBeWeak(t: Ty)
  {
    match t
    case IInt(w) => w == 0
    case UInt(w) => w == 0
    case Float(w) => w == 0
    case Array(_, s) => MightBeWeak(s)
    case Pointer(_, s) => MightBeWeak(s)
    case _ => false
  }

  predicate IsWeakReplaceableBy(found: Ty, expected: Ty)
  {
    // weak signed to strong signed, or weak unsigned to strong unsigned
    if (found == IInt(0) && expected.IInt?) || (found == UInt(0) && expected.UInt?) then
      expected.bitWidth != 0
    // a switch of sign is always accepted
    else if (found == IInt(0) && expected.UInt?) || (found == UInt(0) && expected.IInt?) then true
    // so is a switch to float
    else if IsWeakInt(found) && expected.Float? then true
    // weak float to strong float
    else if found == Float(0) && expected.Float? then expected.bitWidth != 0
    else if found.Array? && expected.Array? then
      found.size == expected.size && IsWeakReplaceableBy(found.subTy, expected.subTy)
    else if found.Pointer? && expected.Pointer? then
      (found.mutable || !expected.mutable) && IsWeakReplaceableBy(found.subTy, expected.subTy)
    else if found.Distinct? && expected.Distinct? then found.uid == expected.uid
    else if expected.Distinct? then IsWeakReplaceableBy(found, expected.ty)
    else false
  }

  // ---------------------------------------------------------------------
  // Operators.

  predicate IsArithmeticOrBitwise(op: BinaryOp)
  {
    op in {Add, Sub, Mul, Div, Mod, BAnd, BOr, Xor, LShift, RShift}
  }

  /** `BinaryOutput::get_possible_output_ty` */
  function BinaryOutput(op: BinaryOp, first: Ty, second: Ty): Option<BinaryOutputTy>
  {
    match Max(first, second)
    case None => None
    case Some(maxTy) =>
      Some(BinaryOutputTy(maxTy, if IsArithmeticOrBitwise(op) then maxTy else Bool))
  }

  /** `UnaryOutput::get_possible_output_ty` */
  function UnaryOutput(op: UnaryOp, input: Ty): Ty
  {
    match op
    case Neg => if input.UInt? then IInt(input.bitWidth) else input
    case _ => input
  }

  /** The types an operator works on, before `has_semantics_of`. */
  function BinaryExpected(op: BinaryOp): seq<Ty>
  {
    match op
    case Add | Sub | Mul | Div | BAnd | BOr | Xor => [IInt(0), Float(0)]
    case Mod | LShift | RShift => [IInt(0)]
    case Lt | Gt | Le | Ge => [IInt(0), Float(0)]
    case Eq | Ne => [Char, IInt(0), Float(0), Type]
    case LAnd | LOr => [Bool]
  }

  predicate BinaryCanPerform(op: BinaryOp, found: Ty)
  {
    exists i :: 0 <= i < |BinaryExpected(op)| && HasSemanticsOf(found, BinaryExpected(op)[i])
  }

  function BinaryDefaultTy(op: BinaryOp): Ty
  {
    if IsArithmeticOrBitwise(op) then IInt(0) else Bool
  }

  function UnaryExpected(op: UnaryOp): seq<Ty>
  {
    match op
    case Neg | Pos | BNot => [IInt(0), Float(0)]
    case LNot => [Bool]
  }

  predicate UnaryCanPerform(op: UnaryOp, found: Ty)
  {
    exists i :: 0 <= i < |UnaryExpected(op)| && HasSemanticsOf(found, UnaryExpected(op)[i])
  }

  function UnaryDefaultTy(op: UnaryOp): Ty
  {
    if op == LNot then Bool else IInt(0)
  }
}
