/**
 * Lowering of checked types to machine kinds, the parameter re-indexing
 * of a lowered signature, and the packed 32-bit type IDs handed to the
 * runtime, with the find-or-append registry that numbers composite types.
 *
 * Machine types are the Cranelift scalar types the lowering can produce;
 * the target's pointer type is a parameter.
 */
module Convert {
  import opened Wrappers
  import opened HirTy
  import HirTyProps

  datatype MachineType = I8 | I16 | I32 | I64 | I128 | F32 | F64

  function Bits(m: MachineType): (r: nat)
    ensures r in {8, 16, 32, 64, 128}
  {
    match m
    case I8 => 8
    case I16 => 16
    case I32 => 32
    case I64 => 64
    case I128 => 128
    case F32 => 32
    case F64 => 64
  }

  // ---------------------------------------------------------------------
  // Number and computation types.

  datatype NumberType = NumberType(ty: MachineType, float: bool, signed: bool)

  function BitWidth(n: NumberType): nat { Bits(n.ty) }

  /** `NumberType::max` only has a result when a float is 32 or 64 bits wide. */
  predicate NumberMaxDefined(a: NumberType, b: NumberType)
  {
    (a.float || b.float) ==> MaxNat(BitWidth(a), BitWidth(b)) in {32, 64}
  }

  function NumberMax(a: NumberType, b: NumberType): (r: NumberType)
    requires NumberMaxDefined(a, b)
  {
    var maxBitWidth := MaxNat(BitWidth(a), BitWidth(b));
    var maxTy :=
      if a.float || b.float then (if maxBitWidth == 32 then F32 else F64)
      else if maxBitWidth == 8 then I8
      else if maxBitWidth == 16 then I16
      else if maxBitWidth == 32 then I32
      else if maxBitWidth == 64 then I64
      else I128;
    NumberType(maxTy, a.float || b.float, a.signed || b.signed)
  }

  /** The wider width wins, and a float or signed operand makes the result
      float or signed; the operation is symmetric. */
  lemma NumberMaxProperties(a: NumberType, b: NumberType)
    requires NumberMaxDefined(a, b)
    ensures NumberMaxDefined(b, a) && NumberMax(a, b) == NumberMax(b, a)
    ensures BitWidth(NumberMax(a, b)) == MaxNat(BitWidth(a), BitWidth(b))
    ensures NumberMax(a, b).float == (a.float || b.float)
    ensures NumberMax(a, b).signed == (a.signed || b.signed)
    ensures NumberMax(a, b).ty in {F32, F64} <==> (a.float || b.float)
  {
  }

  datatype CompType = Number(number: NumberType) | Pointer(ptr: MachineType) | Void

  predicate IsNumberType(c: CompType) { c.Number? }
  predicate IsPointerType(c: CompType) { c.Pointer? }
  predicate IsVoidType(c: CompType) { c.Void? }

  /** The machine type a value of this kind occupies; void occupies none. */
  function IntoRealType(c: CompType): (r: Option<MachineType>)
    ensures r.None? <==> IsVoidType(c)
    ensures IsNumberType(c) ==> r == Some(c.number.ty)
    ensures IsPointerType(c) ==> r == Some(c.ptr)
  {
    match c
    case Number(n) => Some(n.ty)
    case Pointer(p) => Some(p)
    case Void => None
  }

  function IntoNumberType(c: CompType): (r: Option<NumberType>)
    ensures r.Some? <==> IsNumberType(c)
    ensures r.Some? ==> c == Number(r.value)
  {
    match c
    case Number(n) => Some(n)
    case _ => None
  }

  /** The integer bit widths `to_comp_type` knows; any other one is unreachable. */
  predicate IsLowerableIntWidth(w: u32) { w in {U32_MAX, 0, 8, 16, 32, 64, 128} }

  /** The types `to_comp_type` accepts without reaching an `unreachable!()`. */
  predicate Lowerable(t: Ty)
  {
    match t
    case NotYetResolved => false
    case Unknown => false
    case IInt(w) => IsLowerableIntWidth(w)
    case UInt(w) => IsLowerableIntWidth(w)
    case Float(w) => w in {0, 32, 64}
    case Distinct(_, _, inner) => Lowerable(inner)
    case _ => true
  }

  function ToCompType(t: Ty, pointerTy: MachineType): CompType
    requires Lowerable(t)
  {
    match t
    case IInt(w) => Number(NumberType(IntMachineType(w, pointerTy), false, true))
    case UInt(w) => Number(NumberType(IntMachineType(w, pointerTy), false, false))
    case Float(w) => Number(NumberType(if w == 64 then F64 else F32, true, true))
    case Bool => Number(NumberType(I8, false, false))
    case Char => Number(NumberType(I8, false, false))
    case String => CompType.Pointer(pointerTy)
    case Array(_, _) => CompType.Pointer(pointerTy)
    case Pointer(_, _) => CompType.Pointer(pointerTy)
    case Distinct(_, _, inner) => ToCompType(inner, pointerTy)
    case Function(_, _) => CompType.Pointer(pointerTy)
    case Struct(_, _, _) => CompType.Pointer(pointerTy)
    case Type => Number(NumberType(I32, false, false))
    case Any => CompType.Void
    case Void => CompType.Void
    case File(_) => CompType.Void
  }

  function IntMachineType(w: u32, pointerTy: MachineType): MachineType
    requires IsLowerableIntWidth(w)
  {
    if w == U32_MAX then pointerTy
    else if w == 0 || w == 32 then I32
    else if w == 8 then I8
    else if w == 16 then I16
    else if w == 64 then I64
    else I128
  }

  /** What each type lowers to, stated on the type with its distinct
      wrappers removed. */
  lemma {:induction false} ToCompTypeKinds(t: Ty, pointerTy: MachineType)
    requires Lowerable(t)
    ensures Lowerable(Strip(t)) && ToCompType(t, pointerTy) == ToCompType(Strip(t), pointerTy)
    ensures var s, r := Strip(t), ToCompType(t, pointerTy);
      && (IsIntKind(s) ==>
            r.Number? && r.number.signed == s.IInt? && !r.number.float &&
            (s.bitWidth == 0 ==> r.number.ty == I32) &&
            (s.bitWidth == U32_MAX ==> r.number.ty == pointerTy) &&
            (s.bitWidth in {8, 16, 32, 64, 128} ==>
               Bits(r.number.ty) == s.bitWidth && r.number.ty !in {F32, F64}))
      && (s.Float? ==>
            r == Number(NumberType(if s.bitWidth == 64 then F64 else F32, true, true)))
      && (s.Bool? || s.Char? ==> r == Number(NumberType(I8, false, false)))
      && (s.Type? ==> r == Number(NumberType(I32, false, false)))
      && (s.String? || s.Array? || s.Pointer? || s.Function? || s.Struct? <==> r == CompType.Pointer(pointerTy))
      && (s.Any? || s.Void? || s.File? <==> r.Void?)
  {
    if t.Distinct? {
      ToCompTypeKinds(t.ty, pointerTy);
    }
  }

  /** Aggregates are passed by address. */
  lemma AggregatesLowerToPointers(t: Ty, pointerTy: MachineType)
    requires Lowerable(t) && IsAggregate(t)
    ensures ToCompType(t, pointerTy) == CompType.Pointer(pointerTy)
  {
    ToCompTypeKinds(t, pointerTy);
    HirTyProps.ClassificationSeesThroughDistinct(t);
  }

  // ---------------------------------------------------------------------
  // Signatures.

  /** A lowered signature; the calling convention is taken from the
      target and is not modelled. */
  datatype Signature = Signature(params: seq<MachineType>, results: seq<MachineType>)

  /** Indices of the first `n` parameters that are not exactly `Void`. */
  function Kept(paramTys: seq<Ty>, n: nat): seq<nat>
    requires n <= |paramTys|
  {
    if n == 0 then []
    else Kept(paramTys, n - 1) + (if paramTys[n - 1].Void? then [] else [n - 1])
  }

  /** The parameters a signature can be built for: every kept parameter
      lowers to a real type (the source unwraps it) and the return type
      lowers at all. */
  predicate SignatureLowerable(paramTys: seq<Ty>, returnTy: Ty, pointerTy: MachineType)
  {
    ParamsLowerable(paramTys, pointerTy) && Lowerable(returnTy)
  }

  predicate ParamsLowerable(paramTys: seq<Ty>, pointerTy: MachineType)
  {
    forall i :: 0 <= i < |paramTys| && !paramTys[i].Void? ==>
      Lowerable(paramTys[i]) && IntoRealType(ToCompType(paramTys[i], pointerTy)).Some?
  }

  /** The machine types of the first `n` kept parameters. */
  function KeptParamTypes(paramTys: seq<Ty>, n: nat, pointerTy: MachineType): (r: seq<MachineType>)
    requires n <= |paramTys| && ParamsLowerable(paramTys, pointerTy)
  {
    if n == 0 then []
    else
      var last := if paramTys[n - 1].Void? then []
        else [IntoRealType(ToCompType(paramTys[n - 1], pointerTy)).value];
      KeptParamTypes(paramTys, n - 1, pointerTy) + last
  }

  function ReindexMap(kept: seq<nat>): map<nat, nat>
  {
    map k: nat | k < |kept| :: kept[k]
  }

  /** Exactly the non-void parameters are kept, in their original order. */
  lemma {:induction false} KeptIndicesSpec(paramTys: seq<Ty>, n: nat)
    requires n <= |paramTys|
    ensures forall i :: i in Kept(paramTys, n) <==> 0 <= i < n && !paramTys[i].Void?
    ensures forall a, b :: 0 <= a < b < |Kept(paramTys, n)| ==> Kept(paramTys, n)[a] < Kept(paramTys, n)[b]
    ensures |Kept(paramTys, n)| <= n
  {
    if n > 0 {
      KeptIndicesSpec(paramTys, n - 1);
      var prev, cur := Kept(paramTys, n - 1), Kept(paramTys, n);
      forall a, b | 0 <= a < b < |cur| ensures cur[a] < cur[b] {
        if b >= |prev| {
          assert cur[a] == prev[a] && prev[a] in prev;
        }
      }
    }
  }

  /** The kept parameters' machine types line up with the kept indices. */
  lemma {:induction false} KeptParamTypesSpec(paramTys: seq<Ty>, n: nat, pointerTy: MachineType)
    requires n <= |paramTys| && ParamsLowerable(paramTys, pointerTy)
    ensures |KeptParamTypes(paramTys, n, pointerTy)| == |Kept(paramTys, n)|
    ensures forall k :: 0 <= k < |Kept(paramTys, n)| ==>
      (Kept(paramTys, n)[k] < |paramTys| && !paramTys[Kept(paramTys, n)[k]].Void? &&
       KeptParamTypes(paramTys, n, pointerTy)[k] ==
         IntoRealType(ToCompType(paramTys[Kept(paramTys, n)[k]], pointerTy)).value)
  {
    if n > 0 {
      KeptParamTypesSpec(paramTys, n - 1, pointerTy);
      KeptIndicesSpec(paramTys, n);
    }
  }

  /** `new_idx_to_old_idx` maps the new positions 0..k-1 to the strictly
      increasing old positions of the non-void parameters. */
  lemma ReindexMapSpec(paramTys: seq<Ty>)
    ensures var m, k := ReindexMap(Kept(paramTys, |paramTys|)), |Kept(paramTys, |paramTys|)|;
      && (forall j: nat :: j in m <==> j < k)
      && (forall a, b :: a in m && b in m && a < b ==> m[a] < m[b])
      && (forall i :: i in m.Values <==> 0 <= i < |paramTys| && !paramTys[i].Void?)
  {
    var kept := Kept(paramTys, |paramTys|);
    KeptIndicesSpec(paramTys, |paramTys|);
    var m := ReindexMap(kept);
    forall j: nat ensures j in m <==> j < |kept| {
    }
    forall i | 0 <= i < |paramTys| && !paramTys[i].Void? ensures i in m.Values {
      var k :| 0 <= k < |kept| && kept[k] == i;
      assert m[k] == i;
    }
  }

  /** `to_cranelift_signature`: drops exactly-`Void` parameters, records
      where each kept parameter came from, and appends the destination
      pointer of an aggregate return value. */
  method ToCraneliftSignature(paramTys: seq<Ty>, returnTy: Ty, pointerTy: MachineType)
    returns (sig: Signature, newIdxToOldIdx: map<nat, nat>)
    requires SignatureLowerable(paramTys, returnTy, pointerTy)
    ensures newIdxToOldIdx == ReindexMap(Kept(paramTys, |paramTys|))
    ensures sig.params ==
      KeptParamTypes(paramTys, |paramTys|, pointerTy) + (if IsAggregate(returnTy) then [pointerTy] else [])
    ensures sig.results ==
      match IntoRealType(ToCompType(returnTy, pointerTy))
      case Some(m) => [m]
      case None => []
  {
    var realTyCount := 0;
    newIdxToOldIdx := map[];
    var paramTypes: seq<MachineType> := [];
    var idx := 0;
    while idx < |paramTys|
      invariant 0 <= idx <= |paramTys|
      invariant realTyCount == |Kept(paramTys, idx)|
      invariant newIdxToOldIdx == ReindexMap(Kept(paramTys, idx))
      invariant paramTypes == KeptParamTypes(paramTys, idx, pointerTy)
    {
      if !paramTys[idx].Void? {
        paramTypes := paramTypes + [IntoRealType(ToCompType(paramTys[idx], pointerTy)).value];
        ghost var before := Kept(paramTys, idx);
        newIdxToOldIdx := newIdxToOldIdx[realTyCount := idx];
        assert Kept(paramTys, idx + 1) == before + [idx];
        realTyCount := realTyCount + 1;
      }
      idx := idx + 1;
    }
    if IsAggregate(returnTy) {
      paramTypes := paramTypes + [pointerTy];
    }
    var results := match IntoRealType(ToCompType(returnTy, pointerTy))
      case Some(m) => [m]
      case None => [];
    sig := Signature(paramTypes, results);
  }

  // ---------------------------------------------------------------------
  // Type IDs.

  const VOID_DISCRIMINANT: u32 := 1
  const INT_DISCRIMINANT: u32 := 2
  const FLOAT_DISCRIMINANT: u32 := 3
  const BOOL_DISCRIMINANT: u32 := 4
  const STRING_DISCRIMINANT: u32 := 5
  const CHAR_DISCRIMINANT: u32 := 6
  const META_TYPE_DISCRIMINANT: u32 := 7
  const ANY_DISCRIMINANT: u32 := 8
  const FILE_DISCRIMINANT: u32 := 9

  const FIRST_COMPLEX_DISCRIMINANT: u32 := 10

  const STRUCT_DISCRIMINANT: u32 := 10
  const DISTINCT_DISCRIMINANT: u32 := 11
  const ARRAY_DISCRIMINANT: u32 := 12
  const POINTER_DISCRIMINANT: u32 := 13
  const FUNCTION_DISCRIMINANT: u32 := 14

  /** Rust's `|` on unsigned integers. */
  function BitOr(a: nat, b: nat): nat
    decreases a + b
  {
    if a == 0 then b
    else if b == 0 then a
    else 2 * BitOr(a / 2, b / 2) + (if a % 2 == 1 || b % 2 == 1 then 1 else 0)
  }

  /** `x << k` on a `u32`: bits shifted past bit 31 are lost. */
  function Shl32(x: nat, k: nat): u32
  {
    (x * Pow2(k)) % 0x1_0000_0000
  }

  /** Or-ing a value into the clear low bits of another adds it. */
  lemma {:induction false} BitOrDisjoint(a: nat, k: nat, b: nat)
    requires b < Pow2(k)
    ensures BitOr(a * Pow2(k), b) == a * Pow2(k) + b
  {
    if k > 0 && a > 0 && b > 0 {
      var h := a * Pow2(k - 1);
      assert a * Pow2(k) == 2 * h;
      BitOrDisjoint(a, k - 1, b / 2);
    }
  }

  /** Or-ing two `k`-bit values gives a `k`-bit value. */
  lemma {:induction false} BitOrBound(a: nat, b: nat, k: nat)
    requires a < Pow2(k) && b < Pow2(k)
    ensures BitOr(a, b) < Pow2(k)
  {
    if a > 0 && b > 0 {
      BitOrBound(a / 2, b / 2, k - 1);
    }
  }

  /** `|` on two `u32`s. */
  function Or32(a: u32, b: u32): (r: u32)
  {
    Pow2Of32();
    BitOrBound(a, b, 32);
    BitOr(a, b)
  }

  /** `x.min(8).max(1)`, the alignment of an `x`-byte scalar. */
  function ClampAlign(byteWidth: nat): (r: nat)
    ensures 1 <= r <= 8
    ensures 1 <= byteWidth <= 8 ==> r == byteWidth
  {
    var low := if byteWidth < 8 then byteWidth else 8;
    if low < 1 then 1 else low
  }

  /** The id of a non-composite type: the discriminant in the top six bits,
      then the sign at bit 9, the alignment at bits 5-8 and the byte width
      in the low five bits. */
  function SimpleId(discriminant: u32, bitWidth: u32, signed: bool): u32
  {
    var id := Shl32(discriminant, 26);
    var byteWidth := bitWidth / 8;
    var align := Shl32(ClampAlign(byteWidth), 5);
    var sign := Shl32(if signed then 1 else 0, 9);
    Or32(Or32(Or32(id, sign), align), byteWidth)
  }

  lemma ShiftConstants()
    ensures Pow2(5) == 32 && Pow2(9) == 512 && Pow2(26) == 0x400_0000
  {
    Pow2Small();
    Pow2Of26();
  }

  /** Or-ing a value into the clear low bits of a `u32` adds it. */
  lemma Or32Disjoint(hi: nat, k: nat, low: nat)
    requires low < Pow2(k) && hi * Pow2(k) < 0x1_0000_0000 && low < 0x1_0000_0000
    ensures Or32(hi * Pow2(k), low) == hi * Pow2(k) + low
  {
    BitOrDisjoint(hi, k, low);
  }

  lemma SimpleIdShifts(d: nat, s: nat, a: nat)
    requires d < 64 && s < 2 && a < 16
    ensures Shl32(d, 26) == d * 0x400_0000 && Shl32(s, 9) == s * 512 && Shl32(a, 5) == a * 32
  {
    ShiftConstants();
  }

  /** With no field overflowing into its neighbour, a simple id is the sum
      of its shifted fields. */
  lemma SimpleIdSum(discriminant: u32, bitWidth: u32, signed: bool)
    requires discriminant < 64 && bitWidth / 8 < 32
    ensures var s, a := if signed then 1 else 0, ClampAlign(bitWidth / 8);
      SimpleId(discriminant, bitWidth, signed) ==
        ((discriminant * 0x2_0000 + s) * 16 + a) * 32 + bitWidth / 8
  {
    var s, a, bw := if signed then 1 else 0, ClampAlign(bitWidth / 8), bitWidth / 8;
    SimpleIdShifts(discriminant, s, a);
    assert SimpleId(discriminant, bitWidth, signed) ==
      Or32(Or32(Or32(discriminant * 0x400_0000, s * 512), a * 32), bw);
    FieldsOr(discriminant, s, a, bw);
  }

  lemma FieldsOr(d: nat, s: nat, a: nat, bw: nat)
    requires d < 64 && s < 2 && a < 16 && bw < 32
    ensures d * 0x400_0000 < 0x1_0000_0000 && s * 512 < 0x1_0000_0000
    ensures var x1 := Or32(d * 0x400_0000, s * 512);
      a * 32 < 0x1_0000_0000 && Or32(Or32(x1, a * 32), bw) == ((d * 0x2_0000 + s) * 16 + a) * 32 + bw
  {
    ShiftConstants();
    var x1 := Or32(d * 0x400_0000, s * 512);
    Or32Disjoint(d, 26, s * 512);
    var hi := d * 0x2_0000 + s;
    assert x1 == hi * Pow2(9);
    var x2 := Or32(x1, a * 32);
    Or32Disjoint(hi, 9, a * 32);
    assert x2 == (hi * 16 + a) * Pow2(5);
    Or32Disjoint(hi * 16 + a, 5, bw);
  }

  /** The fields of a simple id decode back, as long as none overflows
      into its neighbour: `id >> 26`, `id & 31`, `(id >> 5) & 15` and
      `(id >> 9) & 1`. */
  lemma SimpleIdFields(discriminant: u32, bitWidth: u32, signed: bool)
    requires discriminant < 64 && bitWidth / 8 < 32
    ensures SimpleId(discriminant, bitWidth, signed) / 0x400_0000 == discriminant
    ensures SimpleId(discriminant, bitWidth, signed) % 32 == bitWidth / 8
    ensures SimpleId(discriminant, bitWidth, signed) / 32 % 16 == ClampAlign(bitWidth / 8)
    ensures SimpleId(discriminant, bitWidth, signed) / 512 % 2 == if signed then 1 else 0
  {
    SimpleIdSum(discriminant, bitWidth, signed);
    PackedFields(SimpleId(discriminant, bitWidth, signed), discriminant,
      if signed then 1 else 0, ClampAlign(bitWidth / 8), bitWidth / 8);
  }

  /** The four fields of a packed simple id read back. */
  lemma PackedFields(x: nat, d: nat, s: nat, a: nat, bw: nat)
    requires d < 64 && s < 2 && a < 16 && bw < 32
    requires x == ((d * 0x2_0000 + s) * 16 + a) * 32 + bw
    ensures x / 0x400_0000 == d && x % 32 == bw && x / 32 % 16 == a && x / 512 % 2 == s
  {
    ByteWidthField(d, s, a, bw);
    AlignField(d, s, a, bw);
    SignField(d, s, a, bw);
    DiscriminantField(d, s, a, bw);
  }

  lemma ByteWidthField(d: nat, s: nat, a: nat, bw: nat)
    requires d < 64 && s < 2 && a < 16 && bw < 32
    ensures (((d * 0x2_0000 + s) * 16 + a) * 32 + bw) % 32 == bw
  {
    DivMod(((d * 0x2_0000 + s) * 16 + a) * 32 + bw, (d * 0x2_0000 + s) * 16 + a, bw, 32);
  }

  lemma AlignField(d: nat, s: nat, a: nat, bw: nat)
    requires d < 64 && s < 2 && a < 16 && bw < 32
    ensures (((d * 0x2_0000 + s) * 16 + a) * 32 + bw) / 32 % 16 == a
  {
    var hi := d * 0x2_0000 + s;
    DivMod((hi * 16 + a) * 32 + bw, hi * 16 + a, bw, 32);
    DivMod(hi * 16 + a, hi, a, 16);
  }

  lemma SignField(d: nat, s: nat, a: nat, bw: nat)
    requires d < 64 && s < 2 && a < 16 && bw < 32
    ensures (((d * 0x2_0000 + s) * 16 + a) * 32 + bw) / 512 % 2 == s
  {
    var hi := d * 0x2_0000 + s;
    assert (hi * 16 + a) * 32 + bw == hi * 512 + (a * 32 + bw);
    DivMod((hi * 16 + a) * 32 + bw, hi, a * 32 + bw, 512);
    DivMod(hi, d * 0x1_0000, s, 2);
  }

  lemma DiscriminantField(d: nat, s: nat, a: nat, bw: nat)
    requires d < 64 && s < 2 && a < 16 && bw < 32
    ensures (((d * 0x2_0000 + s) * 16 + a) * 32 + bw) / 0x400_0000 == d
  {
    assert ((d * 0x2_0000 + s) * 16 + a) * 32 + bw == d * 0x400_0000 + (s * 512 + a * 32 + bw);
    DivMod(((d * 0x2_0000 + s) * 16 + a) * 32 + bw, d, s * 512 + a * 32 + bw, 0x400_0000);
  }

  /** Quotient and remainder are unique. */
  lemma DivMod(x: int, q: int, r: int, d: int)
    requires d > 0 && 0 <= r < d && x == q * d + r
    ensures x / d == q && x % d == r
  {
    var q2, r2 := x / d, x % d;
    if q > q2 {
      MulAtLeast(q - q2, d);
    } else if q < q2 {
      MulAtLeast(q2 - q, d);
    }
  }

  lemma {:induction false} MulAtLeast(a: nat, d: nat)
    requires a >= 1
    ensures a * d >= d
  {
    if a > 1 {
      MulAtLeast(a - 1, d);
      assert a * d == (a - 1) * d + d;
    }
  }

  /** The id of a composite type: its discriminant above its index in the
      list of registered types of its kind, the index cut to 32 bits. */
  function CompositeId(discriminant: u32, listId: nat): u32
  {
    Or32(Shl32(discriminant, 26), listId % 0x1_0000_0000)
  }

  lemma CompositeIdFields(discriminant: u32, listId: nat)
    requires discriminant < 64 && listId < 0x400_0000
    ensures CompositeId(discriminant, listId) == discriminant * 0x400_0000 + listId
    ensures CompositeId(discriminant, listId) / 0x400_0000 == discriminant
    ensures CompositeId(discriminant, listId) % 0x400_0000 == listId
  {
    ShiftConstants();
    assert Shl32(discriminant, 26) == discriminant * 0x400_0000;
    assert listId % 0x1_0000_0000 == listId;
    BitOrDisjoint(discriminant, 26, listId);
    assert CompositeId(discriminant, listId) == BitOr(discriminant * 0x400_0000, listId);
    DivMod(CompositeId(discriminant, listId), discriminant, listId, 0x400_0000);
  }

  /** The kinds whose members are numbered by position in the registry. */
  datatype Kind = KArray | KPointer | KDistinct | KFunction | KStruct

  function KindOf(t: Ty): Option<Kind>
  {
    match t
    case Array(_, _) => Some(KArray)
    case Pointer(_, _) => Some(KPointer)
    case Distinct(_, _, _) => Some(KDistinct)
    case Function(_, _) => Some(KFunction)
    case Struct(_, _, _) => Some(KStruct)
    case _ => None
  }

  function Discriminant(t: Ty): (r: u32)
    requires !t.NotYetResolved? && !t.Unknown?
    ensures 1 <= r <= 14
    ensures KindOf(t).Some? <==> r >= FIRST_COMPLEX_DISCRIMINANT
  {
    match t
    case IInt(_) => INT_DISCRIMINANT
    case UInt(_) => INT_DISCRIMINANT
    case Float(_) => FLOAT_DISCRIMINANT
    case Bool => BOOL_DISCRIMINANT
    case String => STRING_DISCRIMINANT
    case Char => CHAR_DISCRIMINANT
    case Type => META_TYPE_DISCRIMINANT
    case Any => ANY_DISCRIMINANT
    case File(_) => FILE_DISCRIMINANT
    case Void => VOID_DISCRIMINANT
    case Array(_, _) => ARRAY_DISCRIMINANT
    case Pointer(_, _) => POINTER_DISCRIMINANT
    case Distinct(_, _, _) => DISTINCT_DISCRIMINANT
    case Function(_, _) => FUNCTION_DISCRIMINANT
    case Struct(_, _, _) => STRUCT_DISCRIMINANT
  }

  /** The bit width recorded for an integer: `isize`/`usize` take the
      pointer's width. */
  function IdIntWidth(w: u32, pointerTy: MachineType): u32
  {
    if w == U32_MAX then Bits(pointerTy) else w
  }

  /** The bit width each simple type's id records. */
  function SimpleWidth(t: Ty, pointerTy: MachineType): u32
  {
    match t
    case IInt(w) => IdIntWidth(w, pointerTy)
    case UInt(w) => IdIntWidth(w, pointerTy)
    case Float(w) => w
    case Bool => 8
    case String => Bits(pointerTy)
    case Char => 8
    case Type => 32
    case _ => 0
  }

  /** Only signed integers are recorded as signed; floats are not. */
  function SimpleTypeId(t: Ty, pointerTy: MachineType): u32
    requires !t.NotYetResolved? && !t.Unknown? && KindOf(t).None?
  {
    SimpleId(Discriminant(t), SimpleWidth(t, pointerTy), t.IInt?)
  }

  /** Number of registered types of kind `k`; `kindOf` is `KindOf` at the
      registry's element type. */
  function KindCount<T>(tys: seq<T>, kindOf: T -> Option<Kind>, k: Kind): nat
  {
    if |tys| == 0 then 0
    else (if kindOf(tys[0]) == Some(k) then 1 else 0) + KindCount(tys[1..], kindOf, k)
  }

  /** The position of `t` among the registered types of its kind: the
      `filter(..).enumerate().find(..)` of the source. */
  function KindIndex<T(==)>(tys: seq<T>, kindOf: T -> Option<Kind>, t: T): (r: Option<nat>)
    ensures r.Some? <==> t in tys
  {
    if |tys| == 0 then None
    else if tys[0] == t then Some(0)
    else match KindIndex(tys[1..], kindOf, t)
      case None => None
      case Some(i) => Some(if kindOf(tys[0]) == kindOf(t) then i + 1 else i)
  }

  /** `to_previous_type_id`; `None` is the panic of the `unwrap` on a
      composite type that was never registered. */
  function ToPreviousTypeId(tys: seq<Ty>, t: Ty, pointerTy: MachineType): (r: Option<u32>)
    requires !t.NotYetResolved? && !t.Unknown?
    ensures r.None? <==> KindOf(t).Some? && t !in tys
  {
    if KindOf(t).None? then Some(SimpleTypeId(t, pointerTy))
    else match KindIndex(tys, KindOf, t)
      case None => None
      case Some(i) => Some(CompositeId(Discriminant(t), i))
  }

  predicate NoDuplicates(tys: seq<Ty>)
  {
    forall i, j :: 0 <= i < j < |tys| ==> tys[i] != tys[j]
  }

  /** The types `to_type_id` accepts: no unresolved or unknown type along
      the array, pointer and distinct nesting it recurses into. */
  predicate TypeIdDefined(t: Ty)
  {
    match t
    case NotYetResolved => false
    case Unknown => false
    case Array(_, s) => TypeIdDefined(s)
    case Pointer(_, s) => TypeIdDefined(s)
    case Distinct(_, _, s) => TypeIdDefined(s)
    case _ => true
  }

  /** `t` and everything `to_type_id` recurses into are registered. */
  predicate SpineRegistered(tys: seq<Ty>, t: Ty)
  {
    && t in tys
    && (t.Array? || t.Pointer? ==> SpineRegistered(tys, t.subTy))
    && (t.Distinct? ==> SpineRegistered(tys, t.ty))
  }

  /** The registry after `to_type_id` on `t`: `t` is added when absent,
      then what it is built from, recursively. */
  function Registered(tys: seq<Ty>, t: Ty): seq<Ty>
    decreases t
  {
    var tys1 := if t in tys then tys else tys + [t];
    if t.Array? || t.Pointer? then Registered(tys1, t.subTy)
    else if t.Distinct? then Registered(tys1, t.ty)
    else tys1
  }

  /** `u` is `t` or one of the types `to_type_id` recurses into from `t`. */
  predicate OnSpine(u: Ty, t: Ty)
  {
    || u == t
    || ((t.Array? || t.Pointer?) && OnSpine(u, t.subTy))
    || (t.Distinct? && OnSpine(u, t.ty))
  }

  /** Registering only appends, appends nothing but `t`'s spine, leaves the
      whole spine registered, and changes nothing when it already was. */
  lemma {:induction false} RegisteredAppendsSpine(tys: seq<Ty>, t: Ty)
    ensures tys <= Registered(tys, t)
    ensures forall u :: u in Registered(tys, t) ==> u in tys || OnSpine(u, t)
    ensures SpineRegistered(Registered(tys, t), t)
    ensures SpineRegistered(tys, t) ==> Registered(tys, t) == tys
    decreases t
  {
    var tys1 := if t in tys then tys else tys + [t];
    if t.Array? || t.Pointer? || t.Distinct? {
      var inner := if t.Distinct? then t.ty else t.subTy;
      RegisteredAppendsSpine(tys1, inner);
      assert Registered(tys, t) == Registered(tys1, inner);
      assert t in tys1;
    }
  }

  lemma {:induction false} KindCountConcat<T>(a: seq<T>, b: seq<T>, kindOf: T -> Option<Kind>, k: Kind)
    ensures KindCount(a + b, kindOf, k) == KindCount(a, kindOf, k) + KindCount(b, kindOf, k)
  {
    if |a| > 0 {
      assert (a + b)[1..] == a[1..] + b;
      assert (a + b)[0] == a[0];
      KindCountConcat(a[1..], b, kindOf, k);
    } else {
      assert a + b == b;
    }
  }

  /** Indices into a prefix are unchanged by appending; a type first found
      in the suffix is numbered after the prefix's types of its kind. */
  lemma KindIndexConcat<T>(a: seq<T>, b: seq<T>, kindOf: T -> Option<Kind>, t: T)
    requires kindOf(t).Some?
    ensures KindIndex(a + b, kindOf, t) ==
      if t in a then KindIndex(a, kindOf, t)
      else match KindIndex(b, kindOf, t)
        case None => None
        case Some(i) => Some(KindCount(a, kindOf, kindOf(t).value) + i)
  {
    if t in a {
      KindIndexPrefix(a, b, kindOf, t);
    } else if t in b {
      KindIndexSuffix(a, b, kindOf, t, kindOf(t).value, KindIndex(b, kindOf, t).value);
    }
  }

  /** Appending leaves the index of a type already in the prefix alone. */
  lemma {:induction false} KindIndexPrefix<T>(a: seq<T>, b: seq<T>, kindOf: T -> Option<Kind>, t: T)
    requires t in a
    ensures KindIndex(a + b, kindOf, t) == KindIndex(a, kindOf, t)
  {
    if a[0] != t {
      assert (a + b)[0] == a[0] && (a + b)[1..] == a[1..] + b;
      KindIndexPrefix(a[1..], b, kindOf, t);
    }
  }

  /** A type missing from the prefix is numbered after the prefix's types
      of its kind. */
  lemma {:induction false} KindIndexSuffix<T>(a: seq<T>, b: seq<T>, kindOf: T -> Option<Kind>, t: T, k: Kind, i: nat)
    requires kindOf(t) == Some(k) && t !in a && KindIndex(b, kindOf, t) == Some(i)
    ensures KindIndex(a + b, kindOf, t) == Some(KindCount(a, kindOf, k) + i)
  {
    if |a| == 0 {
      assert a + b == b;
    } else {
      var ab := a + b;
      assert ab[0] == a[0] && ab[1..] == a[1..] + b;
      KindIndexSuffix(a[1..], b, kindOf, t, k, i);
      var j := KindCount(a[1..], kindOf, k) + i;
      assert KindIndex(ab[1..], kindOf, t) == Some(j);
      if kindOf(a[0]) == Some(k) {
        assert KindIndex(ab, kindOf, t) == Some(j + 1);
      } else {
        assert KindIndex(ab, kindOf, t) == Some(j);
      }
    }
  }

  /** Ids handed out earlier stay valid when the registry grows. */
  lemma PreviousTypeIdStable(tys: seq<Ty>, more: seq<Ty>, t: Ty, pointerTy: MachineType)
    requires !t.NotYetResolved? && !t.Unknown?
    requires ToPreviousTypeId(tys, t, pointerTy).Some?
    ensures ToPreviousTypeId(tys + more, t, pointerTy) == ToPreviousTypeId(tys, t, pointerTy)
  {
    if KindOf(t).Some? {
      KindIndexConcat(tys, more, KindOf, t);
    }
  }

  /** Registered types of one kind have pairwise different list indices, so
      they get different ids while the indices stay below 2^26. */
  lemma {:induction false} KindIndexInjective<T>(tys: seq<T>, kindOf: T -> Option<Kind>, a: T, b: T)
    requires a in tys && b in tys && a != b && kindOf(a).Some? && kindOf(a) == kindOf(b)
    ensures KindIndex(tys, kindOf, a) != KindIndex(tys, kindOf, b)
  {
    if tys[0] != a && tys[0] != b {
      KindIndexInjective(tys[1..], kindOf, a, b);
    } else if tys[0] == a {
      assert KindIndex(tys[1..], kindOf, b).Some?;
    } else {
      assert KindIndex(tys[1..], kindOf, a).Some?;
    }
  }

  lemma KindIndexBound<T>(tys: seq<T>, kindOf: T -> Option<Kind>, t: T)
    requires t in tys
    ensures KindIndex(tys, kindOf, t).value < |tys|
  {
  }

  /** Widths whose byte count fits the five bits reserved for it. */
  predicate IdWidthsFit(t: Ty)
  {
    (IsIntKind(t) ==> t.bitWidth < 256 || t.bitWidth == U32_MAX) &&
    (t.Float? ==> t.bitWidth < 256)
  }

  /** Every id carries its kind's discriminant in bits 26 and up. */
  lemma TypeIdCarriesDiscriminant(tys: seq<Ty>, t: Ty, pointerTy: MachineType)
    requires !t.NotYetResolved? && !t.Unknown? && IdWidthsFit(t)
    requires |tys| <= 0x400_0000
    requires ToPreviousTypeId(tys, t, pointerTy).Some?
    ensures ToPreviousTypeId(tys, t, pointerTy).value / 0x400_0000 == Discriminant(t)
  {
    if KindOf(t).Some? {
      KindIndexBound(tys, KindOf, t);
      CompositeIdFields(Discriminant(t), KindIndex(tys, KindOf, t).value);
    } else {
      SimpleIdFields(Discriminant(t), SimpleWidth(t, pointerTy), t.IInt?);
    }
  }

  /** Two different registered composite types of one kind get different
      ids. */
  lemma CompositeIdsDiffer(tys: seq<Ty>, a: Ty, b: Ty, pointerTy: MachineType)
    requires a in tys && b in tys && a != b && KindOf(a).Some? && KindOf(a) == KindOf(b)
    requires |tys| <= 0x400_0000
    ensures ToPreviousTypeId(tys, a, pointerTy) != ToPreviousTypeId(tys, b, pointerTy)
  {
    KindIndexInjective(tys, KindOf, a, b);
    KindIndexBound(tys, KindOf, a);
    KindIndexBound(tys, KindOf, b);
    CompositeIdFields(Discriminant(a), KindIndex(tys, KindOf, a).value);
    CompositeIdFields(Discriminant(b), KindIndex(tys, KindOf, b).value);
  }

  /** `MetaTyData`: the types whose runtime descriptions are emitted, and
      one id generator per composite kind. */
  class MetaTyData {
    var tysToCompile: seq<Ty>
    var arrayUidGen: nat
    var pointerUidGen: nat
    var distinctUidGen: nat
    var functionUidGen: nat
    var structUidGen: nat

    function Counter(k: Kind): nat
      reads this
    {
      match k
      case KArray => arrayUidGen
      case KPointer => pointerUidGen
      case KDistinct => distinctUidGen
      case KFunction => functionUidGen
      case KStruct => structUidGen
    }

    /** No type is registered twice and each generator has handed out one
        id per registered type of its kind. */
    ghost predicate Valid()
      reads this
    {
      NoDuplicates(tysToCompile) &&
      forall k: Kind :: Counter(k) == KindCount(tysToCompile, KindOf, k)
    }

    constructor()
      ensures Valid() && tysToCompile == []
    {
      tysToCompile := [];
      arrayUidGen, pointerUidGen, distinctUidGen, functionUidGen, structUidGen := 0, 0, 0, 0, 0;
    }

    /** `generate_unique_id` on the generator of kind `k`. */
    method GenerateUniqueId(k: Kind) returns (id: nat)
      modifies this
      ensures id == old(Counter(k))
      ensures forall k' :: Counter(k') == if k' == k then old(Counter(k')) + 1 else old(Counter(k'))
      ensures tysToCompile == old(tysToCompile)
    {
      match k
      case KArray => id := arrayUidGen; arrayUidGen := arrayUidGen + 1;
      case KPointer => id := pointerUidGen; pointerUidGen := pointerUidGen + 1;
      case KDistinct => id := distinctUidGen; distinctUidGen := distinctUidGen + 1;
      case KFunction => id := functionUidGen; functionUidGen := functionUidGen + 1;
      case KStruct => id := structUidGen; structUidGen := structUidGen + 1;
    }

    /** The closing `if !any(..) { push }` of a non-composite type. */
    method PushIfAbsent(t: Ty)
      requires Valid() && KindOf(t).None?
      modifies this
      ensures Valid()
      ensures tysToCompile == if t in old(tysToCompile) then old(tysToCompile) else old(tysToCompile) + [t]
    {
      if t !in tysToCompile {
        RegisterKeepsCounts(tysToCompile, t);
        tysToCompile := tysToCompile + [t];
      }
    }

    /** The `find(..).unwrap_or_else(..)` of a composite type: its index
        among the registered types of its kind, registering it as the next
        of its kind when it is new. */
    method FindOrRegister(t: Ty) returns (listId: nat)
      requires Valid() && KindOf(t).Some?
      modifies this
      ensures Valid()
      ensures tysToCompile == if t in old(tysToCompile) then old(tysToCompile) else old(tysToCompile) + [t]
      ensures KindIndex(tysToCompile, KindOf, t) == Some(listId)
    {
      var found := KindIndex(tysToCompile, KindOf, t);
      if found.Some? {
        listId := found.value;
      } else {
        RegisterKeepsCounts(tysToCompile, t);
        tysToCompile := tysToCompile + [t];
        listId := GenerateUniqueId(KindOf(t).value);
      }
    }

    /** `to_type_id`: looks the type up, registering it (and then what it is
        built from) when it is new, and returns the same id the read-only
        lookup gives afterwards. */
    method ToTypeId(t: Ty, pointerTy: MachineType) returns (id: u32)
      requires Valid() && TypeIdDefined(t)
      modifies this
      ensures Valid()
      ensures old(tysToCompile) <= tysToCompile
      ensures SpineRegistered(tysToCompile, t)
      ensures ToPreviousTypeId(tysToCompile, t, pointerTy) == Some(id)
      ensures SpineRegistered(old(tysToCompile), t) ==> tysToCompile == old(tysToCompile)
      ensures tysToCompile == Registered(old(tysToCompile), t)
      decreases t, 1
    {
      if KindOf(t).None? {
        id := SimpleTypeId(t, pointerTy);
        PushIfAbsent(t);
        return;
      }
      id := CompositeTypeId(t, pointerTy);
    }

    /** The composite branch of `ToTypeId`: the type's number within its
        kind, after the types it is built around have ids too. */
    method CompositeTypeId(t: Ty, pointerTy: MachineType) returns (id: u32)
      requires Valid() && TypeIdDefined(t) && KindOf(t).Some?
      modifies this
      ensures Valid()
      ensures old(tysToCompile) <= tysToCompile
      ensures SpineRegistered(tysToCompile, t)
      ensures ToPreviousTypeId(tysToCompile, t, pointerTy) == Some(id)
      ensures SpineRegistered(old(tysToCompile), t) ==> tysToCompile == old(tysToCompile)
      ensures tysToCompile == Registered(old(tysToCompile), t)
      decreases t, 0
    {
      var listId := FindOrRegister(t);
      ghost var registered := tysToCompile;
      var inner := if t.Array? || t.Pointer? then Some(t.subTy) else if t.Distinct? then Some(t.ty) else None;
      if inner.Some? {
        var _ := ToTypeId(inner.value, pointerTy);
        assert tysToCompile == Registered(registered, inner.value);
      }
      assert tysToCompile == Registered(old(tysToCompile), t);
      RegisteredAppendsSpine(old(tysToCompile), t);
      id := CompositeId(Discriminant(t), listId);
      CompositeIdStaysValid(registered, tysToCompile, t, listId, pointerTy);
    }
  }

  lemma CompositeIdStaysValid(registered: seq<Ty>, tys: seq<Ty>, t: Ty, listId: nat, pointerTy: MachineType)
    requires KindOf(t).Some? && KindIndex(registered, KindOf, t) == Some(listId) && registered <= tys
    ensures ToPreviousTypeId(tys, t, pointerTy) == Some(CompositeId(Discriminant(t), listId))
  {
    assert tys == registered + tys[|registered|..];
    PreviousTypeIdStable(registered, tys[|registered|..], t, pointerTy);
  }

  /** Registering a new type keeps the registry duplicate-free, adds one to
      its kind's count and numbers it after the earlier types of its kind. */
  lemma RegisterKeepsCounts(tys: seq<Ty>, t: Ty)
    requires NoDuplicates(tys) && t !in tys
    ensures NoDuplicates(tys + [t])
    ensures forall k: Kind :: KindCount(tys + [t], KindOf, k) == KindCount(tys, KindOf, k) + (if KindOf(t) == Some(k) then 1 else 0)
    ensures KindOf(t).Some? ==> KindIndex(tys + [t], KindOf, t) == Some(KindCount(tys, KindOf, KindOf(t).value))
  {
    forall i, j | 0 <= i < j < |tys + [t]| ensures (tys + [t])[i] != (tys + [t])[j] {
      assert (tys + [t])[i] == tys[i];
    }
    forall k: Kind ensures KindCount(tys + [t], KindOf, k) == KindCount(tys, KindOf, k) + (if KindOf(t) == Some(k) then 1 else 0) {
      RegisterCount(tys, t, k);
    }
    if KindOf(t).Some? {
      RegisterIndex(tys, t, KindOf(t).value);
    }
  }

  lemma RegisterIndex(tys: seq<Ty>, t: Ty, k: Kind)
    requires KindOf(t) == Some(k) && t !in tys
    ensures KindIndex(tys + [t], KindOf, t) == Some(KindCount(tys, KindOf, k))
  {
    assert KindIndex([t], KindOf, t) == Some(0);
    KindIndexSuffix(tys, [t], KindOf, t, k, 0);
  }

  lemma RegisterCount(tys: seq<Ty>, t: Ty, k: Kind)
    ensures KindCount(tys + [t], KindOf, k) == KindCount(tys, KindOf, k) + (if KindOf(t) == Some(k) then 1 else 0)
  {
    KindCountConcat(tys, [t], KindOf, k);
    assert [t][1..] == [];
  }
}
