/**
 * Constant data of globals: how a global's defining expression becomes the
 * bytes of a data object. Integers are written in the target's byte order
 * at the width of their type, booleans as one byte, strings as their UTF-8
 * bytes and a terminating zero, and arrays item by item at the stride of
 * their item type.
 *
 * Sizes, strides, integer widths and the ids of meta types are inputs,
 * one record per expression.
 */
module CodegenConstData {
  import opened Wrappers

  // ---------------------------------------------------------------------
  // Integers.

  /** The `count` lowest bytes of `n`, least significant first. */
  function LeBytes(n: nat, count: nat): (r: seq<u8>)
    ensures |r| == count
  {
    if count == 0 then [] else [(n % 256) as u8] + LeBytes(n / 256, count - 1)
  }

  /** The `count` lowest bytes of `n`, most significant first. */
  function BeBytes(n: nat, count: nat): (r: seq<u8>)
    ensures |r| == count
  {
    if count == 0 then [] else BeBytes(n / 256, count - 1) + [(n % 256) as u8]
  }

  /** The number little-endian bytes denote. */
  function LeValue(bytes: seq<u8>): nat
  {
    if bytes == [] then 0 else bytes[0] + 256 * LeValue(bytes[1..])
  }

  function Reverse<T>(s: seq<T>): (r: seq<T>)
    ensures |r| == |s| && forall i :: 0 <= i < |s| ==> r[i] == s[|s| - 1 - i]
  {
    if s == [] then [] else Reverse(s[1..]) + [s[0]]
  }

  /** The big-endian form is the little-endian form reversed. */
  lemma {:induction false} BeIsReversedLe(n: nat, count: nat)
    ensures BeBytes(n, count) == Reverse(LeBytes(n, count))
  {
    if count > 0 {
      BeIsReversedLe(n / 256, count - 1);
      var le := LeBytes(n, count);
      assert le[1..] == LeBytes(n / 256, count - 1);
      assert Reverse(le) == Reverse(le[1..]) + [le[0]];
    }
  }

  lemma MulLe(a: nat, b: nat, c: nat)
    requires a <= b
    ensures a * c <= b * c
  {
  }

  lemma MulSmall(k: int, d: nat, x: int)
    requires d > 0 && k * d == x && -(d as int) < x < d
    ensures k == 0
  {
    if k >= 1 {
      MulLe(1, k, d);
      assert false;
    } else if k <= -1 {
      assert false;
    }
  }

  /** Quotient and remainder are determined by `n == q * d + r`. */
  lemma ModUnique(n: nat, d: nat, q: nat, r: nat)
    requires 0 <= r < d && n == q * d + r
    ensures n % d == r && n / d == q
  {
    var q', r' := n / d, n % d;
    assert (q' - q) * d == r - r';
    MulSmall(q' - q, d, r - r');
  }

  /** Splitting off the lowest byte of a remainder modulo `256 * p`. */
  lemma ModSplit(n: nat, p: nat)
    requires p >= 1
    ensures n % (256 * p) == n % 256 + 256 * ((n / 256) % p)
  {
    var q, r := n / 256, n % 256;
    var a, b := q / p, q % p;
    assert n == (a * p + b) * 256 + r;
    assert n == a * (256 * p) + (256 * b + r);
    ModUnique(n, 256 * p, a, 256 * b + r);
  }

  /** The little-endian bytes of `n` denote `n` reduced modulo `2^(8*count)`:
      writing an integer at a width keeps its low bits. */
  lemma {:induction false} LeBytesValue(n: nat, count: nat)
    ensures LeValue(LeBytes(n, count)) == n % Pow2(8 * count)
  {
    if count > 0 {
      LeBytesValue(n / 256, count - 1);
      var le := LeBytes(n, count);
      assert le[1..] == LeBytes(n / 256, count - 1);
      Pow2Small();
      Pow2Add(8, 8 * (count - 1));
      assert Pow2(8 * count) == 256 * Pow2(8 * (count - 1));
      ModSplit(n, Pow2(8 * (count - 1)));
    }
  }

  /** The widths of the integer types. */
  predicate IsIntWidth(width: nat)
  {
    width == 8 || width == 16 || width == 32 || width == 64 || width == 128
  }

  /** An integer literal stored at `width` bits: `(n as uW).to_le_bytes()`
      or `.to_be_bytes()`; other widths cannot occur. */
  function IntConstData(n: u64, width: nat, bigEndian: bool): Option<seq<u8>>
  {
    if !IsIntWidth(width) then None
    else if bigEndian then Some(BeBytes(n, width / 8))
    else Some(LeBytes(n, width / 8))
  }

  /** An integer literal takes `width / 8` bytes holding `n mod 2^width`;
      the big-endian form is the reverse of the little-endian one. */
  lemma IntConstDataSpec(n: u64, width: nat, bigEndian: bool)
    ensures IntConstData(n, width, bigEndian).Some? <==> IsIntWidth(width)
    ensures IsIntWidth(width) ==>
      var bytes := IntConstData(n, width, bigEndian).value;
      && |bytes| == width / 8
      && LeValue(if bigEndian then Reverse(bytes) else bytes) == n % Pow2(width)
      && (bigEndian ==> bytes == Reverse(IntConstData(n, width, false).value))
  {
    if IsIntWidth(width) {
      assert 8 * (width / 8) == width;
      LeBytesValue(n, width / 8);
      BeIsReversedLe(n, width / 8);
      if bigEndian {
        ReverseReverse(LeBytes(n, width / 8));
      }
    }
  }

  lemma ReverseReverse<T>(s: seq<T>)
    ensures Reverse(Reverse(s)) == s
  {
  }

  // ---------------------------------------------------------------------
  // Strings.

  /** The UTF-8 encoding of one character. */
  function Utf8Char(c: char): (r: seq<u8>)
    ensures 1 <= |r| <= 4
  {
    var n := c as int;
    if n < 0x80 then [n as u8]
    else if n < 0x800 then [(0xC0 + n / 0x40) as u8, (0x80 + n % 0x40) as u8]
    else if n < 0x1_0000 then
      [(0xE0 + n / 0x1000) as u8, (0x80 + (n / 0x40) % 0x40) as u8, (0x80 + n % 0x40) as u8]
    else
      [(0xF0 + n / 0x4_0000) as u8, (0x80 + (n / 0x1000) % 0x40) as u8,
       (0x80 + (n / 0x40) % 0x40) as u8, (0x80 + n % 0x40) as u8]
  }

  /** `String::into_bytes`: the UTF-8 encoding of a text. */
  function Utf8(s: string): seq<u8>
  {
    if s == [] then [] else Utf8Char(s[0]) + Utf8(s[1..])
  }

  /** A string constant: its bytes and one terminating zero byte. */
  function StringConstData(text: string): seq<u8>
  {
    Utf8(text + ['\0'])
  }

  lemma Utf8Append(s: string, t: string)
    ensures Utf8(s + t) == Utf8(s) + Utf8(t)
  {
    if s != [] {
      assert (s + t)[0] == s[0];
      assert (s + t)[1..] == s[1..] + t;
      Utf8Append(s[1..], t);
      calc {
        Utf8(s + t);
        Utf8Char(s[0]) + Utf8(s[1..] + t);
        Utf8Char(s[0]) + (Utf8(s[1..]) + Utf8(t));
        (Utf8Char(s[0]) + Utf8(s[1..])) + Utf8(t);
      }
    } else {
      assert s + t == t;
    }
  }

  /** A character other than NUL encodes without a zero byte. */
  lemma Utf8CharNonZero(c: char)
    requires c != '\0'
    ensures forall k :: 0 <= k < |Utf8Char(c)| ==> Utf8Char(c)[k] != 0
  {
  }

  lemma {:induction false} Utf8NonZero(s: string)
    requires forall i :: 0 <= i < |s| ==> s[i] != '\0'
    ensures forall k :: 0 <= k < |Utf8(s)| ==> Utf8(s)[k] != 0
  {
    if s != [] {
      Utf8CharNonZero(s[0]);
      Utf8NonZero(s[1..]);
    }
  }

  /** A string constant is the text's UTF-8 bytes followed by one zero byte;
      for a text without NUL characters that zero is the only one, so the
      data reads back as a C string of exactly the text. */
  lemma StringConstDataSpec(text: string)
    ensures StringConstData(text) == Utf8(text) + [0]
    ensures (forall i :: 0 <= i < |text| ==> text[i] != '\0') ==>
      forall k :: 0 <= k < |StringConstData(text)| ==> (StringConstData(text)[k] == 0 <==> k == |Utf8(text)|)
  {
    Utf8Append(text, ['\0']);
    assert Utf8(['\0']) == [0];
    if forall i :: 0 <= i < |text| ==> text[i] != '\0' {
      Utf8NonZero(text);
    }
  }

  // ---------------------------------------------------------------------
  // Byte images: the bytes of a constant, with the padding of arrays left
  // open.

  datatype Slot = Known(byte: u8) | Padding

  function Exactly(bytes: seq<u8>): (r: seq<Slot>)
    ensures |r| == |bytes| && forall k :: 0 <= k < |bytes| ==> r[k] == Known(bytes[k])
  {
    if bytes == [] then [] else [Known(bytes[0])] + Exactly(bytes[1..])
  }

  function Paddings(n: nat): (r: seq<Slot>)
    ensures |r| == n && forall k :: 0 <= k < n ==> r[k] == Padding
  {
    if n == 0 then [] else Paddings(n - 1) + [Padding]
  }

  /** `bytes` has the length of `image` and every byte the image fixes. */
  predicate Fills(bytes: seq<u8>, image: seq<Slot>)
  {
    |bytes| == |image| && forall k :: 0 <= k < |image| ==> SlotHolds(bytes[k], image[k])
  }

  predicate SlotHolds(b: u8, s: Slot)
  {
    s.Known? ==> b == s.byte
  }

  // ---------------------------------------------------------------------
  // Expressions of one file.

  /** The expressions that can define a global, as far as their constant
      data goes; `COther` stands for every kind that cannot. */
  datatype ConstExpr =
    | CMissing
    | CInt(intValue: u64)
    | CBool(boolValue: bool)
    | CString(text: string)
    | CArray(items: Option<seq<nat>>)
    | COther

  /** What the type of an expression contributes: its interned type, the
      bit width when it is a number type, and its size and stride. */
  datatype ExprTy = ExprTy(ty: nat, numberWidth: Option<nat>, size: nat, stride: nat)

  /** The expressions of one file with their types, the defining
      expression of each global, and the type id of every expression whose
      type is a meta type. */
  datatype FileConsts = FileConsts(
    exprs: seq<ConstExpr>,
    tys: seq<ExprTy>,
    globalBodies: map<string, nat>,
    metaTyIds: map<nat, u32>)

  predicate AllBelow(ids: seq<nat>, bound: nat)
  {
    forall j :: 0 <= j < |ids| ==> ids[j] < bound
  }

  /** Every expression has a type, array items come before their array, and
      global bodies are expressions of the file. */
  predicate ConstsClosed(f: FileConsts)
  {
    && |f.tys| == |f.exprs|
    && (forall i :: 0 <= i < |f.exprs| ==> f.exprs[i].CArray? && f.exprs[i].items.Some? ==> AllBelow(f.exprs[i].items.value, i))
    && (forall n :: n in f.globalBodies ==> f.globalBodies[n] < |f.exprs|)
  }

  /** The image of the constant data of expression `e`, or `None` where the
      compiler gives up (a missing expression, an empty or body-less array,
      a kind that cannot be constant). Meta types are looked up in `metaTyIds`
      and become their 4-byte type id. */
  function ConstImage(f: FileConsts, metaTyIds: map<nat, u32>, bigEndian: bool, e: nat): Option<seq<Slot>>
    requires ConstsClosed(f) && e < |f.exprs|
    decreases e, 1
  {
    if e in metaTyIds then
      Some(Exactly(if bigEndian then BeBytes(metaTyIds[e], 4) else LeBytes(metaTyIds[e], 4)))
    else
      match f.exprs[e]
      case CMissing => None
      case CInt(n) =>
        if f.tys[e].numberWidth.None? then None
        else
          var bytes := IntConstData(n, f.tys[e].numberWidth.value, bigEndian);
          if bytes.Some? then Some(Exactly(bytes.value)) else None
      case CBool(b) => Some([Known(if b then 1 else 0)])
      case CString(text) => Some(Exactly(StringConstData(text)))
      case CArray(items) =>
        if items.None? || items.value == [] then None
        else
          var first := f.tys[items.value[0]];
          ArrayImage(ItemImages(f, metaTyIds, bigEndian, e, items.value), first.size, first.stride)
      case COther => None
  }

  /** The images of the items `items`, all below `bound`. */
  function ItemImages(f: FileConsts, metaTyIds: map<nat, u32>, bigEndian: bool, bound: nat, items: seq<nat>)
    : (r: seq<Option<seq<Slot>>>)
    requires ConstsClosed(f) && bound <= |f.exprs| && AllBelow(items, bound)
    ensures |r| == |items| && forall j {:trigger r[j]} :: 0 <= j < |items| ==> r[j] == ConstImage(f, metaTyIds, bigEndian, items[j])
    decreases bound, 0, |items|
  {
    if items == [] then []
    else
      ItemImages(f, metaTyIds, bigEndian, bound, items[..|items| - 1])
      + [ConstImage(f, metaTyIds, bigEndian, items[|items| - 1])]
  }

  /** An item image that is missing or has fewer than `size` bytes. */
  predicate Short(image: Option<seq<Slot>>, size: nat)
  {
    image.None? || |image.value| < size
  }

  /** An array of items with images `images`: each item in a slot of
      `stride` bytes, the first `size` bytes of its data and then padding. */
  function ArrayImage(images: seq<Option<seq<Slot>>>, size: nat, stride: nat): Option<seq<Slot>>
  {
    if stride < size || exists i :: 0 <= i < |images| && Short(images[i], size) then None
    else Some(ItemsImage(images, |images|, size, stride))
  }

  /** The first `n` item slots. */
  function ItemsImage(images: seq<Option<seq<Slot>>>, n: nat, size: nat, stride: nat): (r: seq<Slot>)
    requires n <= |images| && size <= stride
    requires forall i :: 0 <= i < n ==> !Short(images[i], size)
    ensures |r| == n * stride
  {
    if n == 0 then []
    else
      var last := images[n - 1];
      assert !Short(last, size);
      ItemsImage(images, n - 1, size, stride) + last.value[..size] + Paddings(stride - size)
  }

  /** Byte `j` of the slot of item `i` is byte `j` of the item's data when
      `j < size`, and padding after it. */
  lemma {:induction false} ItemsImageAt(images: seq<Option<seq<Slot>>>, n: nat, size: nat, stride: nat, i: nat, j: nat)
    requires n <= |images| && size <= stride
    requires forall i :: 0 <= i < n ==> !Short(images[i], size)
    requires i < n && j < stride
    ensures i * stride + j < n * stride
    ensures ItemsImage(images, n, size, stride)[i * stride + j] == if j < size then images[i].value[j] else Padding
  {
    var front := ItemsImage(images, n - 1, size, stride);
    assert ItemsImage(images, n, size, stride) == front + images[n - 1].value[..size] + Paddings(stride - size);
    assert (i + 1) * stride == i * stride + stride;
    assert n * stride == (n - 1) * stride + stride;
    MulLe(i + 1, n, stride);
    if i < n - 1 {
      MulLe(i + 1, n - 1, stride);
      ItemsImageAt(images, n - 1, size, stride, i, j);
    } else {
      assert i * stride + j == |front| + j;
    }
  }

  /** An array image exists exactly when the stride holds an item and no
      item is missing or short; it is then `stride * |images|` bytes long,
      holds item `i` at bytes `[i*stride, i*stride + size)` and leaves the
      rest of each slot open. */
  lemma ArrayImageLayout(images: seq<Option<seq<Slot>>>, size: nat, stride: nat, i: nat, j: nat)
    ensures ArrayImage(images, size, stride).Some? <==>
      size <= stride && forall i :: 0 <= i < |images| ==> !Short(images[i], size)
    ensures ArrayImage(images, size, stride).Some? && i < |images| && j < stride ==>
      var image := ArrayImage(images, size, stride).value;
      && |image| == stride * |images|
      && i * stride + j < |image|
      && image[i * stride + j] == if j < size then images[i].value[j] else Padding
  {
    if ArrayImage(images, size, stride).Some? && i < |images| && j < stride {
      ItemsImageAt(images, |images|, size, stride, i, j);
    }
  }

  /** An array constant with items is laid out from the items' own images
      at the size and stride of the first item's type; an empty array has
      none. */
  lemma ConstImageOfArray(f: FileConsts, metaTyIds: map<nat, u32>, bigEndian: bool, e: nat)
    requires ConstsClosed(f) && e < |f.exprs| && e !in metaTyIds
    requires f.exprs[e].CArray? && f.exprs[e].items.Some?
    ensures
      var items := f.exprs[e].items.value;
      AllBelow(items, e) &&
      ConstImage(f, metaTyIds, bigEndian, e) ==
        if items == [] then None
        else ArrayImage(ItemImages(f, metaTyIds, bigEndian, e, items), f.tys[items[0]].size, f.tys[items[0]].stride)
  {
    assert AllBelow(f.exprs[e].items.value, e);
  }

  // ---------------------------------------------------------------------
  // Producing the bytes.

  /** `copy_nonoverlapping` of the first `count` bytes of `bytes` to
      `buf[at..]`. */
  method CopyInto(buf: array<u8>, at: nat, bytes: seq<u8>, count: nat)
    requires at + count <= buf.Length && count <= |bytes|
    modifies buf
    ensures forall k :: 0 <= k < buf.Length ==> buf[k] == if at <= k < at + count then bytes[k - at] else old(buf[k])
  {
    var j := 0;
    while j < count
      invariant 0 <= j <= count
      invariant forall k :: 0 <= k < buf.Length ==> buf[k] == if at <= k < at + j then bytes[k - at] else old(buf[k])
    {
      buf[at + j] := bytes[j];
      j := j + 1;
    }
  }

  /** The first bytes of `buf` fill `image`. */
  ghost predicate PrefixHolds(buf: array<u8>, image: seq<Slot>)
    reads buf
  {
    |image| <= buf.Length && forall k :: 0 <= k < |image| ==> SlotHolds(buf[k], image[k])
  }

  /** Copies the first `size` bytes of item `idx` to its slot at
      `idx * stride`, extending the part of `buf` that fills the image. */
  method PlaceItem(buf: array<u8>, ghost images: seq<Option<seq<Slot>>>, idx: nat, item: seq<u8>, size: nat, stride: nat)
    requires idx < |images| && size <= stride && buf.Length == stride * |images|
    requires forall i :: 0 <= i < idx ==> !Short(images[i], size)
    requires images[idx].Some? && Fills(item, images[idx].value) && |item| >= size
    requires PrefixHolds(buf, ItemsImage(images, idx, size, stride))
    modifies buf
    ensures forall i :: 0 <= i < idx + 1 ==> !Short(images[i], size)
    ensures PrefixHolds(buf, ItemsImage(images, idx + 1, size, stride))
  {
    MulLe(idx + 1, |images|, stride);
    assert (idx + 1) * stride == idx * stride + stride;
    assert |images| * stride == stride * |images|;
    ghost var before := ItemsImage(images, idx, size, stride);
    CopyInto(buf, idx * stride, item, size);
    assert forall i :: 0 <= i < idx + 1 ==> !Short(images[i], size);
    ghost var after := ItemsImage(images, idx + 1, size, stride);
    assert after == before + images[idx].value[..size] + Paddings(stride - size);
    forall k | 0 <= k < (idx + 1) * stride
      ensures SlotHolds(buf[k], after[k])
    {
      if k < idx * stride {
        assert after[k] == before[k];
      } else if k < idx * stride + size {
        assert after[k] == images[idx].value[k - idx * stride];
      } else {
        assert after[k] == Padding;
      }
    }
  }

  /** The constant data of expression `e`; `None` where the compiler
      panics. The bytes agree with `ConstImage` wherever it fixes them. */
  method ExprToConstData(f: FileConsts, metaTyIds: map<nat, u32>, bigEndian: bool, e: nat) returns (r: Option<seq<u8>>)
    requires ConstsClosed(f) && e < |f.exprs|
    ensures r.Some? == ConstImage(f, metaTyIds, bigEndian, e).Some?
    ensures r.Some? ==> Fills(r.value, ConstImage(f, metaTyIds, bigEndian, e).value)
    decreases e, 2
  {
    if e in metaTyIds {
      return Some(if bigEndian then BeBytes(metaTyIds[e], 4) else LeBytes(metaTyIds[e], 4));
    }
    match f.exprs[e] {
      case CMissing => r := None;
      case CInt(n) =>
        if f.tys[e].numberWidth.None? {
          r := None;
        } else {
          r := IntConstData(n, f.tys[e].numberWidth.value, bigEndian);
        }
      case CBool(b) => r := Some([if b then 1 else 0]);
      case CString(text) => r := Some(StringConstData(text));
      case CArray(items) =>
        if items.None? {
          r := None;
        } else {
          assert AllBelow(items.value, e);
          if items.value == [] {
            r := None;
          } else {
            r := ArrayToConstData(f, metaTyIds, bigEndian, e, items.value);
          }
        }
      case COther => r := None;
    }
  }

  /** An array of items below `bound`; the first item's type gives size
      and stride. */
  method ArrayToConstData(f: FileConsts, metaTyIds: map<nat, u32>, bigEndian: bool, bound: nat, items: seq<nat>)
    returns (r: Option<seq<u8>>)
    requires ConstsClosed(f) && bound <= |f.exprs| && AllBelow(items, bound) && items != []
    ensures
      var image := ArrayImage(ItemImages(f, metaTyIds, bigEndian, bound, items), f.tys[items[0]].size, f.tys[items[0]].stride);
      r.Some? == image.Some? && (r.Some? ==> Fills(r.value, image.value))
    decreases bound, 1
  {
    var size, stride := f.tys[items[0]].size, f.tys[items[0]].stride;
    if stride < size {
      return None;
    }
    var buf := new u8[stride * |items|];
    var ok := FillItems(f, metaTyIds, bigEndian, bound, items, buf, size, stride);
    if !ok {
      return None;
    }
    assert |items| * stride == stride * |items|;
    r := Some(buf[..]);
  }

  /** The loop of `store_array_items` over constant data: each item's data
      is copied to `stride * i`, failing on an item without data or with
      fewer than `size` bytes. */
  method FillItems(f: FileConsts, metaTyIds: map<nat, u32>, bigEndian: bool, bound: nat, items: seq<nat>,
                   buf: array<u8>, size: nat, stride: nat)
    returns (ok: bool)
    requires ConstsClosed(f) && bound <= |f.exprs| && AllBelow(items, bound)
    requires size <= stride && buf.Length == stride * |items|
    modifies buf
    ensures
      var images := ItemImages(f, metaTyIds, bigEndian, bound, items);
      && (ok ==> forall i :: 0 <= i < |items| ==> !Short(images[i], size))
      && (!ok ==> exists i :: 0 <= i < |items| && Short(images[i], size))
      && (ok ==> PrefixHolds(buf, ItemsImage(images, |items|, size, stride)))
    decreases bound, 0
  {
    ghost var images := ItemImages(f, metaTyIds, bigEndian, bound, items);
    var idx := 0;
    while idx < |items|
      invariant 0 <= idx <= |items|
      invariant forall i :: 0 <= i < idx ==> !Short(images[i], size)
      invariant PrefixHolds(buf, ItemsImage(images, idx, size, stride))
    {
      var item := ExprToConstData(f, metaTyIds, bigEndian, items[idx]);
      assert images[idx] == ConstImage(f, metaTyIds, bigEndian, items[idx]);
      if item.None? || |item.value| < size {
        assert Short(images[idx], size);
        assert exists i :: 0 <= i < |items| && Short(ItemImages(f, metaTyIds, bigEndian, bound, items)[i], size);
        return false;
      }
      assert |images[idx].value| == |item.value|;
      PlaceItem(buf, images, idx, item.value, size, stride);
      idx := idx + 1;
    }
    ok := true;
  }
}
