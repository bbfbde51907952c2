/**
 * Properties of the type relations of `HirTy`: equality is an equivalence
 * that is nominal for distinct types, functional equivalence sees through
 * distinct wrappers, `Max` is symmetric and an upper bound for the
 * coercion check, and the operator typing rules.
 */
module HirTyProps {
  import opened Wrappers
  import opened HirTy

  // ---------------------------------------------------------------------
  // Exact equality.

  lemma {:induction false} IsEqualToSymmetric(a: Ty, b: Ty)
    ensures IsEqualTo(a, b) == IsEqualTo(b, a)
  {
    if a == b {
    } else if (a.Array? && b.Array?) || (a.Pointer? && b.Pointer?) {
      IsEqualToSymmetric(a.subTy, b.subTy);
    } else if a.Function? && b.Function? {
      IsEqualToSymmetric(a.returnTy, b.returnTy);
      if |a.paramTys| == |b.paramTys| {
        forall i | 0 <= i < |a.paramTys|
          ensures IsEqualTo(a.paramTys[i], b.paramTys[i]) == IsEqualTo(b.paramTys[i], a.paramTys[i])
        {
          IsEqualToSymmetric(a.paramTys[i], b.paramTys[i]);
        }
      }
    }
  }

  lemma {:induction false} IsEqualToTransitive(a: Ty, b: Ty, c: Ty)
    requires IsEqualTo(a, b) && IsEqualTo(b, c)
    ensures IsEqualTo(a, c)
  {
    if a == b || b == c || a == c {
    } else if (a.Array? && b.Array? && c.Array?) || (a.Pointer? && b.Pointer? && c.Pointer?) {
      IsEqualToTransitive(a.subTy, b.subTy, c.subTy);
    } else if a.Function? && b.Function? && c.Function? {
      IsEqualToTransitive(a.returnTy, b.returnTy, c.returnTy);
      forall i | 0 <= i < |a.paramTys| ensures IsEqualTo(a.paramTys[i], c.paramTys[i]) {
        IsEqualToTransitive(a.paramTys[i], b.paramTys[i], c.paramTys[i]);
      }
    }
  }

  /** Two distinct types are equal exactly when they come from the same
      `distinct` occurrence, whatever they wrap or are named. */
  lemma DistinctEqualIffSameUid(f1: Option<Fqn>, u1: u32, t1: Ty, f2: Option<Fqn>, u2: u32, t2: Ty)
    ensures IsEqualTo(Distinct(f1, u1, t1), Distinct(f2, u2, t2)) <==> u1 == u2
  {
  }

  /** Arrays, pointers and functions are compared component by component;
      structs only equal an identical struct. */
  lemma {:induction false} IsEqualToComposites(a: Ty, b: Ty)
    ensures a.Array? && b.Array? ==>
      (IsEqualTo(a, b) <==> a.size == b.size && IsEqualTo(a.subTy, b.subTy))
    ensures a.Pointer? && b.Pointer? ==>
      (IsEqualTo(a, b) <==> a.mutable == b.mutable && IsEqualTo(a.subTy, b.subTy))
    ensures a.Function? && b.Function? ==>
      (IsEqualTo(a, b) <==>
        IsEqualTo(a.returnTy, b.returnTy) && |a.paramTys| == |b.paramTys| &&
        forall i :: 0 <= i < |a.paramTys| ==> IsEqualTo(a.paramTys[i], b.paramTys[i]))
    ensures a.Struct? && b.Struct? ==> (IsEqualTo(a, b) <==> a == b)
    ensures a.Distinct? != b.Distinct? ==> !IsEqualTo(a, b)
  {
    if a == b && a.Function? {
      forall i | 0 <= i < |a.paramTys| ensures IsEqualTo(a.paramTys[i], b.paramTys[i]) {
        assert a.paramTys[i] == b.paramTys[i];
      }
    }
  }

  // ---------------------------------------------------------------------
  // Functional equivalence.

  lemma {:induction false} FunctionallyEquivalentReflexive(a: Ty)
    ensures IsFunctionallyEquivalentTo(a, a)
  {
    match a
    case Array(_, s) => FunctionallyEquivalentReflexive(s);
    case Pointer(_, s) => FunctionallyEquivalentReflexive(s);
    case Distinct(_, _, s) => FunctionallyEquivalentReflexive(s);
    case _ =>
  }

  lemma {:induction false} FunctionallyEquivalentSymmetric(a: Ty, b: Ty)
    ensures IsFunctionallyEquivalentTo(a, b) == IsFunctionallyEquivalentTo(b, a)
    decreases SpineDepth(a) + SpineDepth(b)
  {
    if (a.Array? && b.Array?) || (a.Pointer? && b.Pointer?) {
      FunctionallyEquivalentSymmetric(a.subTy, b.subTy);
    } else if a.Distinct? && b.Distinct? {
      FunctionallyEquivalentSymmetric(a.ty, b.ty);
    } else if !a.Distinct? && !b.Distinct? {
      IsEqualToSymmetric(a, b);
    }
  }

  /** A distinct wrapper on either side makes no difference. */
  lemma {:induction false} FunctionallyEquivalentSeesThroughDistinct(f: Option<Fqn>, u: u32, inner: Ty, other: Ty)
    ensures IsFunctionallyEquivalentTo(Distinct(f, u, inner), other) == IsFunctionallyEquivalentTo(inner, other)
    ensures IsFunctionallyEquivalentTo(other, Distinct(f, u, inner)) == IsFunctionallyEquivalentTo(other, inner)
    decreases SpineDepth(inner) + SpineDepth(other)
  {
    FunctionallyEquivalentSymmetric(inner, other);
    if other.Distinct? {
      // both sides unwrap: FE(d, other) == FE(inner, other.ty) == FE(inner, other)
      FunctionallyEquivalentSeesThroughDistinct(other.fqn, other.uid, other.ty, inner);
      FunctionallyEquivalentSymmetric(inner, other.ty);
    }
  }

  /** Functional equivalence is decided on the types with all outer
      distinct wrappers removed. */
  lemma {:induction false} FunctionallyEquivalentOnStripped(a: Ty, b: Ty)
    ensures IsFunctionallyEquivalentTo(a, b) == IsFunctionallyEquivalentTo(Strip(a), Strip(b))
    decreases SpineDepth(a) + SpineDepth(b)
  {
    if a.Distinct? {
      FunctionallyEquivalentSeesThroughDistinct(a.fqn, a.uid, a.ty, b);
      FunctionallyEquivalentOnStripped(a.ty, b);
    } else if b.Distinct? {
      FunctionallyEquivalentSeesThroughDistinct(b.fqn, b.uid, b.ty, a);
      FunctionallyEquivalentOnStripped(a, b.ty);
    }
  }

  // ---------------------------------------------------------------------
  // Classification sees through distinct types.

  lemma {:induction false} ClassificationSeesThroughDistinct(t: Ty)
    ensures IsStruct(t) == Strip(t).Struct? && IsArray(t) == Strip(t).Array?
    ensures IsPointer(t) == Strip(t).Pointer? && IsFunction(t) == Strip(t).Function?
    ensures IsVoid(t) == Strip(t).Void? && IsInt(t) == IsIntKind(Strip(t))
    ensures IsAggregate(t) == (Strip(t).Struct? || Strip(t).Array?)
    ensures IsZeroSized(t) == IsZeroSized(Strip(t)) && IsUnknown(t) == IsUnknown(Strip(t))
    ensures GetMaxIntSize(t) == GetMaxIntSize(Strip(t))
    ensures AsStruct(t) == (if Strip(t).Struct? then Some(Strip(t).fields) else None)
    ensures AsFunction(t) == (if Strip(t).Function? then Some((Strip(t).paramTys, Strip(t).returnTy)) else None)
    ensures AsPointer(t) == (if Strip(t).Pointer? then Some((Strip(t).mutable, Strip(t).subTy)) else None)
    ensures AsArray(t) == (if Strip(t).Array? then Some((Strip(t).size, Strip(t).subTy)) else None)
  {
    if t.Distinct? {
      ClassificationSeesThroughDistinct(t.ty);
    }
  }

  /** A zero-sized type is never lowered to a scalar: it is no integer,
      pointer or function, and a non-empty array of it is zero-sized too. */
  lemma {:induction false} ZeroSizedIsNoScalar(t: Ty, n: u64)
    requires IsZeroSized(t)
    ensures !IsInt(t) && !IsPointer(t) && !IsFunction(t)
    ensures Strip(t).Void? || Strip(t).File? || Strip(t).Array? || Strip(t).Struct?
    ensures IsZeroSized(Array(n, t))
  {
    if t.Distinct? {
      ZeroSizedIsNoScalar(t.ty, n);
    }
  }

  /** The largest value of each sized integer type; 128-bit integers are
      capped at the 64-bit limits, and other widths have no limit. */
  lemma MaxIntSizeIsTypeMaximum(t: Ty)
    requires IsIntKind(t)
    ensures t.bitWidth in {8, 16, 32, 64} ==>
      GetMaxIntSize(t) == Some(if t.IInt? then Pow2(t.bitWidth - 1) - 1 else Pow2(t.bitWidth) - 1)
    ensures t.bitWidth == 128 ==> GetMaxIntSize(t) == GetMaxIntSize(if t.IInt? then IInt(64) else UInt(64))
    ensures t.bitWidth !in {8, 16, 32, 64, 128} ==> GetMaxIntSize(t) == None
  {
    var w := t.bitWidth;
    if w == 8 {
      Pow2Small();
    } else if w == 16 {
      Pow2Of16();
    } else if w == 32 {
      Pow2Of32();
    } else if w == 64 {
      Pow2Of64();
    }
  }

  // ---------------------------------------------------------------------
  // Numeric widening.

  predicate IsNumeric(t: Ty) { t.IInt? || t.UInt? || t.Float? }

  lemma MaxIdempotent(a: Ty)
    ensures Max(a, a) == Some(a)
  {
  }

  /** Two integers of the same sign widen to the wider width; mixed signs
      give the signed type only when it is strictly wider. */
  lemma MaxOfIntegers(a: Ty, b: Ty)
    requires IsIntKind(a) && IsIntKind(b)
    requires !(IsWeakInt(a) && IsWeakInt(b))
    ensures a.IInt? == b.IInt? ==>
      Max(a, b) == Some(if a.IInt? then IInt(MaxNat(a.bitWidth, b.bitWidth)) else UInt(MaxNat(a.bitWidth, b.bitWidth)))
    ensures a.IInt? && b.UInt? ==>
      Max(a, b) == (if a.bitWidth > b.bitWidth then Some(IInt(a.bitWidth)) else None)
    ensures a.UInt? && b.IInt? ==>
      Max(a, b) == (if b.bitWidth > a.bitWidth then Some(IInt(b.bitWidth)) else None)
  {
  }

  /** Two weak integers give a weak integer: unsigned only if both are. */
  lemma MaxOfWeakIntegers(a: Ty, b: Ty)
    requires IsWeakInt(a) && IsWeakInt(b)
    ensures Max(a, b) == Some(if a.UInt? && b.UInt? then UInt(0) else IInt(0))
  {
  }

  lemma MaxSymmetricOnNumbers(a: Ty, b: Ty)
    requires IsNumeric(a) && IsNumeric(b)
    ensures Max(a, b) == Max(b, a)
  {
  }

  /** Whatever `Max` picks for two numbers can hold both of them. */
  lemma MaxIsUpperBound(a: Ty, b: Ty)
    requires IsNumeric(a) && IsNumeric(b)
    ensures Max(a, b).Some? ==> CanFitInto(a, Max(a, b).value) && CanFitInto(b, Max(a, b).value)
  {
  }

  /** An unknown operand takes the other operand's type. */
  lemma MaxWithUnknown(b: Ty)
    ensures Max(Unknown, b) == Some(b) && Max(b, Unknown) == Some(b)
  {
    if b.Distinct? {
      assert CanFitInto(b, Unknown);
    }
  }

  // ---------------------------------------------------------------------
  // Coercion.

  lemma CanFitIntoReflexive(a: Ty)
    ensures CanFitInto(a, a)
  {
  }

  /** The integer rows of the coercion diagram. */
  lemma CanFitIntoIntegers(found: Ty, expected: Ty)
    requires IsIntKind(found) && IsIntKind(expected)
    ensures found.IInt? == expected.IInt? ==>
      (CanFitInto(found, expected) <==> expected.bitWidth == 0 || found.bitWidth <= expected.bitWidth)
    ensures found.UInt? && expected.IInt? ==>
      (CanFitInto(found, expected) <==> expected.bitWidth == 0 || found.bitWidth < expected.bitWidth)
    ensures found.IInt? && expected.UInt? ==>
      (CanFitInto(found, expected) <==> expected.bitWidth == 0)
  {
  }

  /** A value can always be coerced into a distinct type over a type it fits. */
  lemma CanFitIntoDistinct(found: Ty, f: Option<Fqn>, u: u32, inner: Ty)
    requires !found.Distinct?
    ensures CanFitInto(found, Distinct(f, u, inner)) == CanFitInto(found, inner)
  {
  }

  /** Every distinct type over an integer has the semantics of the weak
      integer type, which is what lets arithmetic operators accept it. */
  lemma {:induction false} DistinctIntHasIntSemantics(t: Ty)
    requires IsIntKind(Strip(t))
    ensures HasSemanticsOf(t, IInt(0))
    ensures BinaryCanPerform(Add, t) && BinaryCanPerform(Mod, t) && UnaryCanPerform(Neg, t)
  {
    if t.Distinct? {
      DistinctIntHasIntSemantics(t.ty);
    }
    assert HasSemanticsOf(t, BinaryExpected(Add)[0]);
    assert HasSemanticsOf(t, BinaryExpected(Mod)[0]);
    assert HasSemanticsOf(t, UnaryExpected(Neg)[0]);
  }

  /** A distinct type never has the semantics of a sized integer. */
  lemma DistinctNotSizedInt(f: Option<Fqn>, u: u32, inner: Ty, expected: Ty)
    requires IsIntKind(expected) && expected.bitWidth != 0
    ensures !HasSemanticsOf(Distinct(f, u, inner), expected)
  {
  }

  // ---------------------------------------------------------------------
  // Casting.

  lemma PrimitivesCastToEachOther(from: Ty, to: Ty)
    requires IsCastPrimitive(from) && IsCastPrimitive(to)
    ensures PrimitiveCastable(from, to)
  {
  }

  /** Whether a cast is allowed does not depend on distinct wrappers. */
  lemma {:induction false} CastableOnStripped(from: Ty, to: Ty)
    ensures PrimitiveCastable(from, to) == PrimitiveCastable(Strip(from), Strip(to))
  {
    if from.Distinct? && to.Distinct? {
      CastableOnStripped(from.ty, to.ty);
    } else if from.Distinct? {
      CastableOnStripped(from.ty, to);
    } else if to.Distinct? {
      CastableOnStripped(from, to.ty);
    }
  }

  /** Strings cast to and from pointers to any, u8 and char, in both directions. */
  lemma StringPointerCasts(m: bool, sub: Ty)
    ensures PrimitiveCastable(String, Pointer(m, sub)) <==> sub in {Any, UInt(8), Char}
    ensures PrimitiveCastable(Pointer(m, sub), String) <==> sub in {Any, UInt(8), Char}
  {
  }

  // ---------------------------------------------------------------------
  // Weak types.

  /** Some distinct type appears along the array/pointer nesting of `t`. */
  predicate SpineHasDistinct(t: Ty)
  {
    match t
    case Array(_, s) => SpineHasDistinct(s)
    case Pointer(_, s) => SpineHasDistinct(s)
    case Distinct(_, _, _) => true
    case _ => false
  }

  /** Only a weak type (or a distinct type, compared by identity) can be
      replaced by another one. */
  lemma {:induction false} WeakReplaceableOnlyIfWeak(found: Ty, expected: Ty)
    requires IsWeakReplaceableBy(found, expected)
    ensures MightBeWeak(found) || SpineHasDistinct(found)
  {
    if found.Array? && expected.Array? {
      WeakReplaceableOnlyIfWeak(found.subTy, expected.subTy);
    } else if found.Pointer? && expected.Pointer? {
      WeakReplaceableOnlyIfWeak(found.subTy, expected.subTy);
    } else if !found.Distinct? && expected.Distinct? && !IsWeakInt(found) && found != Float(0) {
      WeakReplaceableOnlyIfWeak(found, expected.ty);
    }
  }

  /** No type without distinct parts is weakly replaceable by itself. */
  lemma {:induction false} NotWeakReplaceableBySelf(t: Ty)
    requires !SpineHasDistinct(t)
    ensures !IsWeakReplaceableBy(t, t)
  {
    match t
    case Array(_, s) => NotWeakReplaceableBySelf(s);
    case Pointer(_, s) => NotWeakReplaceableBySelf(s);
    case _ =>
  }

  // ---------------------------------------------------------------------
  // Operators.

  /** Comparison and logical operators give `Bool`, arithmetic and bitwise
      ones give the widened type, and nothing is given when the operand
      types do not widen. */
  lemma BinaryOutputTyping(op: BinaryOp, first: Ty, second: Ty)
    ensures BinaryOutput(op, first, second).None? <==> Max(first, second).None?
    ensures BinaryOutput(op, first, second).Some? ==>
      BinaryOutput(op, first, second).value.maxTy == Max(first, second).value &&
      BinaryOutput(op, first, second).value.finalOutputTy ==
        (if op in {Lt, Gt, Le, Ge, Eq, Ne, LAnd, LOr} then Bool else Max(first, second).value)
  {
  }

  /** Negation turns an unsigned type into the signed one of the same width
      and leaves every other type, and every other operator, alone. So the
      output of a negation is never unsigned, applying an operator to its
      own output changes nothing further, and an operand the operator
      accepts gives an output it accepts again. */
  lemma UnaryOutputTyping(op: UnaryOp, input: Ty)
    ensures input.UInt? && op == Neg ==> UnaryOutput(op, input) == IInt(input.bitWidth)
    ensures !(input.UInt? && op == Neg) ==> UnaryOutput(op, input) == input
    ensures op == Neg ==> !UnaryOutput(op, input).UInt?
    ensures UnaryOutput(op, UnaryOutput(op, input)) == UnaryOutput(op, input)
    ensures UnaryCanPerform(op, input) ==> UnaryCanPerform(op, UnaryOutput(op, input))
  {
    if input.UInt? && op == Neg && UnaryCanPerform(op, input) {
      var i :| 0 <= i < |UnaryExpected(op)| && HasSemanticsOf(input, UnaryExpected(op)[i]);
      assert HasSemanticsOf(UnaryOutput(op, input), UnaryExpected(op)[i]);
    }
  }

  /** Bool has none of the semantics a comparison expects. */
  lemma BoolIsNoComparisonTy()
    ensures !HasSemanticsOf(Bool, IInt(0)) && !HasSemanticsOf(Bool, Float(0))
    ensures !HasSemanticsOf(Bool, Char) && !HasSemanticsOf(Bool, Type)
  {
  }

  lemma BinaryDefaultTyIsPerformable(op: BinaryOp)
    ensures BinaryCanPerform(op, BinaryDefaultTy(op)) <==> (IsArithmeticOrBitwise(op) || op in {LAnd, LOr})
  {
    if IsArithmeticOrBitwise(op) || op == LAnd || op == LOr {
      assert HasSemanticsOf(BinaryDefaultTy(op), BinaryExpected(op)[0]);
    } else {
      ComparisonExpected(op);
      NoneHasSemantics(Bool, BinaryExpected(op));
    }
  }

  /** A comparison expects only types Bool has no semantics of. */
  lemma ComparisonExpected(op: BinaryOp)
    requires !IsArithmeticOrBitwise(op) && op != LAnd && op != LOr
    ensures BinaryDefaultTy(op) == Bool
    ensures forall t :: t in BinaryExpected(op) ==> !HasSemanticsOf(Bool, t)
  {
    BoolIsNoComparisonTy();
    if op == Eq || op == Ne {
      assert BinaryExpected(op) == [Char, IInt(0), Float(0), Type];
    } else {
      assert BinaryExpected(op) == [IInt(0), Float(0)];
    }
  }

  /** A type that has none of the semantics of the types listed fits no
      entry of the list. */
  lemma NoneHasSemantics(found: Ty, expected: seq<Ty>)
    requires forall t :: t in expected ==> !HasSemanticsOf(found, t)
    ensures !exists i :: 0 <= i < |expected| && HasSemanticsOf(found, expected[i])
  {
    forall i | 0 <= i < |expected|
      ensures !HasSemanticsOf(found, expected[i])
    {
      assert expected[i] in expected;
    }
  }

  /** The default type of an operator is accepted by that operator. */
  lemma DefaultTyIsPerformable(op: BinaryOp, u: UnaryOp)
    ensures BinaryCanPerform(op, BinaryDefaultTy(op)) <==> (IsArithmeticOrBitwise(op) || op in {LAnd, LOr})
    ensures UnaryCanPerform(u, UnaryDefaultTy(u))
  {
    assert HasSemanticsOf(UnaryDefaultTy(u), UnaryExpected(u)[0]);
    BinaryDefaultTyIsPerformable(op);
  }
}
