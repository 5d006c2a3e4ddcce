/** The two computations of a type's size and alignment, over source types and over converted ones. */
module TypeLayouts {
  import opened Bits
  import opened Wrappers

  // ---- rounding up ----

  /** The bits of `x` that `mask` does not have. */
  function AndNot(x: nat, mask: nat): int {
    x - And(x, mask)
  }

  function AlignTo(value: nat, align: nat): int {
    if align <= 1 then value else AndNot(value + align - 1, align - 1)
  }

  predicate IsAlignment(align: nat) {
    align in {1, 2, 4, 8}
  }

  /** `x` is a multiple of the alignment. */
  predicate Aligned(x: nat, align: nat) {
    match align
    case 1 => true
    case 2 => x % 2 == 0
    case 4 => x % 4 == 0
    case 8 => x % 8 == 0
    case _ => false
  }

  /** The next multiple of the alignment. */
  function RoundUp(value: nat, align: nat): nat {
    match align
    case 2 => (value + 1) / 2 * 2
    case 4 => (value + 3) / 4 * 4
    case 8 => (value + 7) / 8 * 8
    case _ => value
  }

  lemma LowBitsOf(x: nat, align: nat)
    requires IsAlignment(align)
    ensures And(x, align - 1) == x % align
  {
    assert Pow2(0) == 1 && Pow2(1) == 2 && Pow2(2) == 4 && Pow2(3) == 8;
    AndMask(x, if align == 1 then 0 else if align == 2 then 1 else if align == 4 then 2 else 3);
  }

  /** The masking gives the next multiple. */
  lemma AlignToRoundsUp(value: nat, align: nat)
    requires IsAlignment(align)
    ensures AlignTo(value, align) == RoundUp(value, align)
  {
    if align > 1 {
      LowBitsOf(value + align - 1, align);
    }
  }

  lemma RoundUpIs(value: nat, align: nat)
    requires IsAlignment(align)
    ensures value <= RoundUp(value, align) < value + align && Aligned(RoundUp(value, align), align)
    ensures Aligned(value, align) ==> RoundUp(value, align) == value
  {
    if align == 2 {
      assert RoundUp(value, 2) == (value + 1) / 2 * 2;
    } else if align == 4 {
      assert RoundUp(value, 4) == (value + 3) / 4 * 4;
    } else if align == 8 {
      assert RoundUp(value, 8) == (value + 7) / 8 * 8;
    }
  }

  /** No smaller multiple will do. */
  lemma RoundUpIsLeast(value: nat, align: nat, m: nat)
    requires Aligned(m, align) && m >= value
    ensures RoundUp(value, align) <= m
  {
    if align == 2 {
      assert RoundUp(value, 2) == (value + 1) / 2 * 2;
    } else if align == 4 {
      assert RoundUp(value, 4) == (value + 3) / 4 * 4;
    } else if align == 8 {
      assert RoundUp(value, 8) == (value + 7) / 8 * 8;
    }
  }

  // ---- laying out a sequence of fields ----

  datatype Measure = Measure(size: nat, align: nat)

  ghost predicate Sound(m: Measure) {
    IsAlignment(m.align) && Aligned(m.size, m.align)
  }

  ghost predicate AllSound(ms: seq<Measure>) {
    forall i | 0 <= i < |ms| :: Sound(ms[i])
  }

  /** Where the first `n` fields end; fields of no size take no part. */
  function End(ms: seq<Measure>, n: nat): nat
    requires n <= |ms|
  {
    if n == 0 then 0
    else if ms[n - 1].size == 0 then End(ms, n - 1)
    else RoundUp(End(ms, n - 1), ms[n - 1].align) + ms[n - 1].size
  }

  function OffsetAt(ms: seq<Measure>, i: nat): nat
    requires i < |ms|
  {
    if ms[i].size == 0 then End(ms, i) else RoundUp(End(ms, i), ms[i].align)
  }

  function Larger(x: nat, y: nat): nat {
    if x < y then y else x
  }

  function MaxAlign(ms: seq<Measure>, n: nat): nat
    requires n <= |ms|
  {
    if n == 0 then 1
    else if ms[n - 1].size == 0 then MaxAlign(ms, n - 1)
    else Larger(MaxAlign(ms, n - 1), ms[n - 1].align)
  }

  /** The furthest end of any of the first `n` fields. */
  function Unpadded(ms: seq<Measure>, n: nat): nat
    requires n <= |ms|
  {
    if n == 0 then 0
    else if ms[n - 1].size == 0 then Unpadded(ms, n - 1)
    else Larger(Unpadded(ms, n - 1), OffsetAt(ms, n - 1) + ms[n - 1].size)
  }

  lemma {:induction false} EndsGrow(ms: seq<Measure>, i: nat, j: nat)
    requires i <= j <= |ms| && AllSound(ms)
    ensures End(ms, i) <= End(ms, j)
  {
    if i < j {
      EndsGrow(ms, i, j - 1);
      assert Sound(ms[j - 1]);
      RoundUpIs(End(ms, j - 1), ms[j - 1].align);
    }
  }

  /** The furthest end is the last one. */
  lemma {:induction false} UnpaddedIsEnd(ms: seq<Measure>, n: nat)
    requires n <= |ms| && AllSound(ms)
    ensures Unpadded(ms, n) == End(ms, n)
  {
    if n > 0 {
      UnpaddedIsEnd(ms, n - 1);
      EndsGrow(ms, n - 1, n);
    }
  }

  lemma {:induction false} MaxAlignIs(ms: seq<Measure>, n: nat)
    requires n <= |ms| && AllSound(ms)
    ensures IsAlignment(MaxAlign(ms, n))
    ensures forall i: nat | i < n && ms[i].size != 0 :: ms[i].align <= MaxAlign(ms, n)
    ensures MaxAlign(ms, n) == 1 || exists i: nat :: i < n && ms[i].size != 0 && ms[i].align == MaxAlign(ms, n)
  {
    if n > 0 {
      MaxAlignIs(ms, n - 1);
      assert Sound(ms[n - 1]);
    }
  }

  /** Fields of some size are aligned, lie in order without overlap, and inside the whole. */
  lemma FieldsApart(ms: seq<Measure>, i: nat, j: nat)
    requires i < j < |ms| && AllSound(ms) && ms[i].size != 0
    ensures Aligned(OffsetAt(ms, i), ms[i].align)
    ensures OffsetAt(ms, i) + ms[i].size <= OffsetAt(ms, j)
    ensures OffsetAt(ms, j) + ms[j].size <= End(ms, |ms|)
  {
    assert Sound(ms[i]) && Sound(ms[j]);
    RoundUpIs(End(ms, i), ms[i].align);
    RoundUpIs(End(ms, j), ms[j].align);
    EndsGrow(ms, i + 1, j);
    EndsGrow(ms, j + 1, |ms|);
  }

  lemma FieldInside(ms: seq<Measure>, i: nat)
    requires i < |ms| && AllSound(ms)
    ensures OffsetAt(ms, i) + ms[i].size <= End(ms, |ms|)
  {
    EndsGrow(ms, i + 1, |ms|);
  }

  // ---- source types ----

  /** A source type, with what the compiler's own layout says: the memory order of fields, an
      enum's size, alignment (a power of two) and field offsets, and whether a pointee is sized. */
  datatype Ty =
    | Bool | Char | Str | Dynamic | Never | FnDef | FnPtr | FormatArgument
    | Integer(bits: nat, signed: bool)
    | Float(double: bool)
    | Reference(fat: bool)
    | Tuple(fields: seq<Ty>, order: seq<nat>)
    | Struct(fields: seq<Ty>, order: seq<nat>)
    | Union(fields: seq<Ty>)
    | Enum(size: nat, alignLog: nat, offsets: seq<seq<nat>>)
    | Array(elem: Ty, len: nat)
    | Slice(elem: Ty)

  /** A struct whose fields end at `end`, with `align` the largest of their alignments. */
  function Rounded(end: nat, align: nat): Measure {
    Measure(RoundUp(end, align), align)
  }

  function BitsToBytes(bits: nat): nat {
    (bits + 7) / 8
  }

  function Clamp1To8(x: nat): nat {
    if x < 1 then 1 else if x > 8 then 8 else x
  }

  /** The enum's alignment, capped at the largest the lowering supports. */
  function EnumAlign(alignLog: nat): nat {
    Clamp1To8(Pow2(alignLog))
  }

  function StructSize(ms: seq<Measure>): nat {
    RoundUp(Unpadded(ms, |ms|), MaxAlign(ms, |ms|))
  }

  function UnionSize(ms: seq<Measure>, n: nat): nat
    requires n <= |ms|
  {
    if n == 0 then 0 else Larger(UnionSize(ms, n - 1), ms[n - 1].size)
  }

  /** Elements lie a stride apart. */
  function ArrayMeasure(m: Measure, len: nat): Measure {
    Measure(RoundUp(m.size, m.align) * len, m.align)
  }

  /** The size and alignment of a source type. */
  function MeasureOf(ty: Ty): Measure {
    match ty
    case Bool => Measure(1, 1)
    case Char => Measure(4, 4)
    case Str => Measure(0, 1)
    case Dynamic => Measure(0, 1)
    case Never => Measure(0, 1)
    case FnDef => Measure(0, 1)
    case FnPtr => Measure(8, 8)
    case FormatArgument => Measure(16, 8)
    case Integer(bits, _) => Measure(BitsToBytes(bits), Clamp1To8(BitsToBytes(bits)))
    case Float(double) => if double then Measure(8, 8) else Measure(4, 4)
    case Reference(fat) => Measure(if fat then 16 else 8, 8)
    case Tuple(fields, order) => StructLike(SourceMeasures(fields), order)
    case Struct(fields, order) => StructLike(SourceMeasures(fields), order)
    case Union(fields) => Measure(UnionSize(SourceMeasures(fields), |fields|), 1)
    case Enum(size, alignLog, _) => Measure(size, EnumAlign(alignLog))
    case Array(elem, len) => ArrayMeasure(MeasureOf(elem), len)
    case Slice(elem) => MeasureOf(elem)
  }

  function SourceMeasures(fields: seq<Ty>): (ms: seq<Measure>)
    ensures |ms| == |fields|
  {
    seq(|fields|, i requires 0 <= i < |fields| => MeasureOf(fields[i]))
  }

  /** The size goes by the fields in memory order, the alignment by the fields as written. */
  function StructLike(ms: seq<Measure>, order: seq<nat>): Measure {
    Measure(StructSize(InOrder(ms, order)), MaxAlign(ms, |ms|))
  }

  function InOrder(ms: seq<Measure>, order: seq<nat>): (r: seq<Measure>)
    ensures |r| == |order|
  {
    seq(|order|, k requires 0 <= k < |order| => if order[k] < |ms| then ms[order[k]] else Measure(0, 1))
  }

  /** What the compiler guarantees of its layouts. */
  predicate IsOrder(order: seq<nat>, n: nat) {
    && |order| == n
    && (forall k | 0 <= k < n :: order[k] < n)
    && (forall i | 0 <= i < n :: i in order)
    && (forall j, k | 0 <= j < k < n :: order[j] != order[k])
  }

  predicate WellFormed(ty: Ty) {
    match ty
    case Integer(bits, _) => bits in {8, 16, 32, 64, 128}
    case Tuple(fields, order) => IsOrder(order, |fields|) && forall i | 0 <= i < |fields| :: WellFormed(fields[i])
    case Struct(fields, order) => IsOrder(order, |fields|) && forall i | 0 <= i < |fields| :: WellFormed(fields[i])
    case Union(fields) => forall i | 0 <= i < |fields| :: WellFormed(fields[i])
    case Enum(size, alignLog, _) => size % Pow2(alignLog) == 0
    case Array(elem, _) => WellFormed(elem)
    case Slice(elem) => WellFormed(elem)
    case _ => true
  }

  /** No slice is held by value, but for those with elements of no size. */
  predicate NoSizedSlices(ty: Ty) {
    match ty
    case Tuple(fields, _) => forall i | 0 <= i < |fields| :: NoSizedSlices(fields[i])
    case Struct(fields, _) => forall i | 0 <= i < |fields| :: NoSizedSlices(fields[i])
    case Union(fields) => forall i | 0 <= i < |fields| :: NoSizedSlices(fields[i])
    case Array(elem, _) => NoSizedSlices(elem)
    case Slice(elem) => MeasureOf(elem).size == 0 && NoSizedSlices(elem)
    case _ => true
  }

  // ---- converted types ----

  datatype CTy =
    | CInt(width: nat)
    | CFloat(double: bool)
    | CPointer
    | CUnit
    | CArray(elem: CTy, len: nat)
    | CStruct(fields: seq<CTy>)

  function CMeasureOf(ty: CTy): Measure {
    match ty
    case CInt(width) =>
      var size := if BitsToBytes(width) < 1 then 1 else BitsToBytes(width);
      Measure(size, Clamp1To8(size))
    case CFloat(double) => if double then Measure(8, 8) else Measure(4, 4)
    case CPointer => Measure(8, 8)
    case CUnit => Measure(0, 1)
    case CArray(elem, len) => ArrayMeasure(CMeasureOf(elem), len)
    case CStruct(fields) =>
      var ms := CMeasures(fields);
      Rounded(End(ms, |ms|), MaxAlign(ms, |ms|))
  }

  function CMeasures(fields: seq<CTy>): (ms: seq<Measure>)
    ensures |ms| == |fields|
  {
    seq(|fields|, i requires 0 <= i < |fields| => CMeasureOf(fields[i]))
  }

  const POINTER_PAIR := CStruct([CPointer, CPointer])

  /** The converted type: fields in memory order, unions as bytes, enums as words of their
      alignment, wide references as two words. */
  function Convert(ty: Ty): CTy {
    match ty
    case Bool => CInt(8)
    case Char => CInt(32)
    case Str => CArray(CInt(8), 0)
    case Dynamic => CArray(CInt(8), 0)
    case Never => CUnit
    case FnDef => CUnit
    case FnPtr => CPointer
    case FormatArgument => POINTER_PAIR
    case Integer(bits, _) => CInt(bits)
    case Float(double) => CFloat(double)
    case Reference(fat) => if fat then CStruct([CPointer, CInt(64)]) else CPointer
    case Tuple(fields, order) => if fields == [] then CUnit else CStruct(ConvertedInOrder(fields, order))
    case Struct(fields, order) => CStruct(ConvertedInOrder(fields, order))
    case Union(fields) =>
      var size := MeasureOf(ty).size;
      CStruct([if size == 0 then CUnit else CArray(CInt(8), size)])
    case Enum(size, alignLog, _) =>
      var align := EnumAlign(alignLog);
      if size == 0 then CUnit else CStruct([CArray(CInt(align * 8), size / align)])
    case Array(elem, len) => CArray(Convert(elem), len)
    case Slice(elem) => CArray(Convert(elem), 0)
  }

  function ConvertedInOrder(fields: seq<Ty>, order: seq<nat>): (r: seq<CTy>)
    ensures |r| == |order|
    decreases fields
  {
    seq(|order|, k requires 0 <= k < |order| => if order[k] < |fields| then Convert(fields[order[k]]) else CUnit)
  }

  // ---- the two computations agree ----

  ghost predicate Agree(m: Measure, c: Measure) {
    m.size == c.size && Sound(m) && Sound(c) && (m.size != 0 ==> m.align == c.align)
  }

  lemma {:induction false} EndsAgree(ms: seq<Measure>, cs: seq<Measure>, n: nat)
    requires |ms| == |cs| && n <= |ms| && forall i | 0 <= i < |ms| :: Agree(ms[i], cs[i])
    ensures End(ms, n) == End(cs, n) && MaxAlign(ms, n) == MaxAlign(cs, n)
  {
    if n > 0 {
      EndsAgree(ms, cs, n - 1);
      assert Agree(ms[n - 1], cs[n - 1]);
    }
  }

  lemma AlignOfOrder(ms: seq<Measure>, order: seq<nat>)
    requires IsOrder(order, |ms|) && AllSound(ms)
    ensures AllSound(InOrder(ms, order)) && MaxAlign(InOrder(ms, order), |order|) == MaxAlign(ms, |ms|)
  {
    var ordered := InOrder(ms, order);
    forall k | 0 <= k < |ordered|
      ensures Sound(ordered[k])
    {
      assert Sound(ms[order[k]]);
    }
    MaxAlignIs(ms, |ms|);
    MaxAlignIs(ordered, |order|);
    forall i: nat | i < |ms| && ms[i].size != 0
      ensures ms[i].align <= MaxAlign(ordered, |order|)
    {
      assert i in order;
      var k :| 0 <= k < |order| && order[k] == i;
      assert ordered[k] == ms[i];
    }
    assert forall k: nat | k < |order| :: ordered[k] == ms[order[k]];
  }

  lemma StructSizeSound(ms: seq<Measure>)
    requires AllSound(ms)
    ensures Aligned(StructSize(ms), MaxAlign(ms, |ms|)) && StructSize(ms) == RoundUp(End(ms, |ms|), MaxAlign(ms, |ms|))
    ensures IsAlignment(MaxAlign(ms, |ms|))
  {
    UnpaddedIsEnd(ms, |ms|);
    MaxAlignIs(ms, |ms|);
    RoundUpIs(End(ms, |ms|), MaxAlign(ms, |ms|));
  }

  lemma InOrderAgrees(ms: seq<Measure>, order: seq<nat>, cs: seq<Measure>)
    requires IsOrder(order, |ms|) && |cs| == |order|
    requires forall k | 0 <= k < |order| :: Agree(ms[order[k]], cs[k])
    ensures forall k | 0 <= k < |order| :: Agree(InOrder(ms, order)[k], cs[k])
  {
    assert forall k | 0 <= k < |order| :: InOrder(ms, order)[k] == ms[order[k]];
  }

  lemma StructLikeRounds(ms: seq<Measure>, order: seq<nat>)
    requires IsOrder(order, |ms|) && AllSound(ms)
    ensures var o := InOrder(ms, order);
      StructLike(ms, order) == Rounded(End(o, |o|), MaxAlign(o, |o|)) && Sound(StructLike(ms, order))
  {
    AlignOfOrder(ms, order);
    StructSizeSound(InOrder(ms, order));
  }

  lemma StructsAgree(ms: seq<Measure>, order: seq<nat>, cs: seq<Measure>)
    requires IsOrder(order, |ms|) && |cs| == |order| && AllSound(ms)
    requires forall k | 0 <= k < |order| :: Agree(ms[order[k]], cs[k])
    ensures StructLike(ms, order) == Rounded(End(cs, |cs|), MaxAlign(cs, |cs|)) && Sound(StructLike(ms, order))
  {
    InOrderAgrees(ms, order, cs);
    EndsAgree(InOrder(ms, order), cs, |order|);
    StructLikeRounds(ms, order);
  }

  /** The one field of a converted union or enum decides its layout. */
  lemma OneField(field: CTy)
    requires Sound(CMeasureOf(field))
    ensures CMeasureOf(CStruct([field])).size == CMeasureOf(field).size
    ensures CMeasureOf(CStruct([field])).align == if CMeasureOf(field).size != 0 then CMeasureOf(field).align else 1
    ensures Sound(CMeasureOf(CStruct([field])))
  {
    var m, ms := CMeasureOf(field), CMeasures([field]);
    assert ms == [m];
    assert End(ms, 1) == (if m.size == 0 then End(ms, 0) else RoundUp(End(ms, 0), m.align) + m.size);
    assert MaxAlign(ms, 1) == (if m.size == 0 then MaxAlign(ms, 0) else Larger(MaxAlign(ms, 0), m.align));
    RoundUpIs(0, m.align);
    RoundUpIs(m.size, m.align);
    RoundUpIs(0, 1);
  }

  lemma ArraysAgree(m: Measure, c: Measure, len: nat)
    requires Agree(m, c)
    ensures Agree(ArrayMeasure(m, len), ArrayMeasure(c, len))
  {
    RoundUpIs(m.size, m.align);
    RoundUpIs(c.size, c.align);
    Multiple(m.size, m.align, len);
    Multiple(c.size, c.align, len);
    if m.size == 0 {
      assert m.size * len == 0;
    }
  }

  lemma MultipleOf(size: nat, d: nat, len: nat)
    requires d > 0 && size % d == 0
    ensures size * len % d == 0
  {
    var q := size / d;
    assert size * len == d * (q * len) by {
      assert size == d * q;
      assert (d * q) * len == d * (q * len);
    }
    DivUnique(size * len, d, q * len, 0);
  }

  lemma Multiple(size: nat, align: nat, len: nat)
    requires Aligned(size, align)
    ensures Aligned(size * len, align)
  {
    MultipleOf(size, align, len);
  }

  lemma UnionBytes(size: nat)
    ensures var c := CMeasureOf(CArray(CInt(8), size)); c.size == size && c.align == 1
  {
    assert BitsToBytes(8) == 1;
    RoundUpIs(1, 1);
    assert RoundUp(1, 1) * size == size;
  }

  lemma EnumWords(size: nat, alignLog: nat)
    requires size % Pow2(alignLog) == 0
    ensures var align := EnumAlign(alignLog);
      && Aligned(size, align) && CMeasureOf(CArray(CInt(align * 8), size / align)) == Measure(size, align)
  {
    var align := EnumAlign(alignLog);
    EnumAlignDivides(size, alignLog);
    assert BitsToBytes(align * 8) == align;
    RoundUpIs(align, align);
    assert align * (size / align) == size;
  }

  lemma UnionsAgree(ty: Ty)
    requires ty.Union?
    ensures MeasureOf(ty) == CMeasureOf(Convert(ty)) && Sound(MeasureOf(ty))
  {
    var size := MeasureOf(ty).size;
    UnionBytes(size);
    OneField(if size == 0 then CUnit else CArray(CInt(8), size));
  }

  lemma EnumsAgree(ty: Ty, size: nat, alignLog: nat)
    requires ty.Enum? && ty.size == size && ty.alignLog == alignLog && size % Pow2(alignLog) == 0
    ensures Agree(MeasureOf(ty), CMeasureOf(Convert(ty)))
  {
    EnumWords(size, alignLog);
    OneField(CArray(CInt(EnumAlign(alignLog) * 8), size / EnumAlign(alignLog)));
  }

  lemma EnumAlignDivides(size: nat, alignLog: nat)
    requires size % Pow2(alignLog) == 0
    ensures Aligned(size, EnumAlign(alignLog))
  {
    if alignLog >= 3 {
      EightDivides(size, alignLog - 3);
      Pow2Add(3, alignLog - 3);
      assert Pow2(3) == 8;
    } else {
      assert Pow2(0) == 1 && Pow2(1) == 2 && Pow2(2) == 4;
    }
  }

  lemma EightDivides(size: nat, k: nat)
    requires size % Pow2(k + 3) == 0
    ensures size % 8 == 0 && Pow2(k + 3) >= 8
  {
    Pow2Add(3, k);
    assert Pow2(3) == 8;
    ModMod(size, 8, Pow2(k));
  }

  /** For every type that holds no slice of some size by value: both computations give the same size, and the
      same alignment when there is any size; the alignment is a power of two up to eight, and it
      divides the size, so an array's stride is its element's size. */
  lemma {:induction false} LayoutsAgree(ty: Ty)
    requires WellFormed(ty) && NoSizedSlices(ty)
    ensures Agree(MeasureOf(ty), CMeasureOf(Convert(ty)))
    decreases ty, 1
  {
    match ty
    case Tuple(fields, order) =>
      FieldsAgree(ty, fields, order);
    case Struct(fields, order) =>
      FieldsAgree(ty, fields, order);
    case Union(_) => UnionsAgree(ty);
    case Enum(size, alignLog, _) => EnumsAgree(ty, size, alignLog);
    case Array(elem, len) =>
      LayoutsAgree(elem);
      ArraysAgree(MeasureOf(elem), CMeasureOf(Convert(elem)), len);
    case Slice(elem) =>
      LayoutsAgree(elem);
      ArraysAgree(MeasureOf(elem), CMeasureOf(Convert(elem)), 0);
    case Str => UnionBytes(0);
    case Dynamic => UnionBytes(0);
    case FormatArgument => TwoWords(CPointer);
    case Reference(fat) => TwoWords(CInt(64));
    case _ =>
  }

  lemma TwoWords(second: CTy)
    requires CMeasureOf(second) == Measure(8, 8)
    ensures CMeasureOf(CStruct([CPointer, second])) == Measure(16, 8)
  {
    var ms := CMeasures([CPointer, second]);
    assert |ms| == 2 && ms[0] == CMeasureOf(CPointer) == Measure(8, 8) && ms[1] == CMeasureOf(second);
    RoundUpIs(0, 8);
    RoundUpIs(8, 8);
    RoundUpIs(16, 8);
    assert End(ms, 1) == 8 && MaxAlign(ms, 1) == 8;
    assert End(ms, 2) == 16 && MaxAlign(ms, 2) == 8;
  }

  lemma {:induction false} FieldsAgree(ty: Ty, fields: seq<Ty>, order: seq<nat>)
    requires ty == Tuple(fields, order) || ty == Struct(fields, order)
    requires WellFormed(ty) && NoSizedSlices(ty)
    ensures Agree(MeasureOf(ty), CMeasureOf(Convert(ty))) && MeasureOf(ty) == CMeasureOf(Convert(ty))
    decreases ty, 0
  {
    var ms, cs := SourceMeasures(fields), CMeasures(ConvertedInOrder(fields, order));
    forall i | 0 <= i < |fields|
      ensures Agree(ms[i], CMeasureOf(Convert(fields[i])))
    {
      LayoutsAgree(fields[i]);
    }
    assert forall k | 0 <= k < |order| :: cs[k] == CMeasureOf(Convert(fields[order[k]]));
    StructsAgree(ms, order, cs);
    FieldsMeasured(ty, fields, order, ms, cs);
  }

  lemma FieldsMeasured(ty: Ty, fields: seq<Ty>, order: seq<nat>, ms: seq<Measure>, cs: seq<Measure>)
    requires (ty == Tuple(fields, order) || ty == Struct(fields, order)) && |order| == |fields|
    requires ms == SourceMeasures(fields) && cs == CMeasures(ConvertedInOrder(fields, order))
    ensures MeasureOf(ty) == StructLike(ms, order)
    ensures CMeasureOf(Convert(ty)) == Rounded(End(cs, |cs|), MaxAlign(cs, |cs|))
  {
    RoundUpIs(0, 1);
  }

  /** A slice held by value: one element against none, so the sizes are the same exactly for
      elements of no size. */
  lemma SliceSizesAgree(elem: Ty)
    requires WellFormed(Slice(elem))
    ensures MeasureOf(Slice(elem)).size == CMeasureOf(Convert(Slice(elem))).size <==> MeasureOf(elem).size == 0
  {
    var c := CMeasureOf(Convert(elem));
    assert CMeasureOf(Convert(Slice(elem))) == ArrayMeasure(c, 0);
    assert RoundUp(c.size, c.align) * 0 == 0;
  }

  lemma SlicesDisagree()
    ensures MeasureOf(Slice(Char)).size == 4 && CMeasureOf(Convert(Slice(Char))).size == 0
  {
    assert RoundUp(4, 4) * 0 == 0;
  }

  /** An enum of no size with an alignment of its own, or arrays or slices of one. */
  predicate IsEmptyEnum(ty: Ty) {
    match ty
    case Enum(size, alignLog, _) => size == 0 && alignLog > 0
    case Array(elem, _) => IsEmptyEnum(elem)
    case Slice(elem) => IsEmptyEnum(elem)
    case _ => false
  }

  lemma EnumAlignAboveOne(alignLog: nat)
    ensures EnumAlign(alignLog) == 1 <==> alignLog == 0
  {
    assert Pow2(0) == 1;
    if alignLog > 0 {
      assert Pow2(alignLog) == 2 * Pow2(alignLog - 1);
    }
  }

  /** Alignments are the same, with or without any size, except exactly for empty enums and arrays
      and slices of them. */
  lemma {:induction false} AlignmentsAgree(ty: Ty)
    requires WellFormed(ty) && NoSizedSlices(ty)
    ensures MeasureOf(ty).align == CMeasureOf(Convert(ty)).align <==> !IsEmptyEnum(ty)
  {
    match ty
    case Tuple(fields, order) => FieldsAgree(ty, fields, order);
    case Struct(fields, order) => FieldsAgree(ty, fields, order);
    case Union(_) => UnionsAgree(ty);
    case Enum(size, alignLog, _) =>
      LayoutsAgree(ty);
      EnumAlignAboveOne(alignLog);
    case Array(elem, _) => AlignmentsAgree(elem);
    case Slice(elem) => AlignmentsAgree(elem);
    case Str => UnionBytes(0);
    case Dynamic => UnionBytes(0);
    case FormatArgument => TwoWords(CPointer);
    case Reference(fat) => TwoWords(CInt(64));
    case _ =>
  }

  lemma EmptyEnumsDisagree()
    ensures MeasureOf(Enum(0, 2, [])).align == 4 && CMeasureOf(Convert(Enum(0, 2, []))).align == 1
  {
    assert Pow2(2) == 4;
  }

  // ---- the loops ----

  ghost predicate AllWellFormed(fields: seq<Ty>) {
    forall i | 0 <= i < |fields| :: WellFormed(fields[i])
  }

  /** Every well-formed type has an alignment and a size it divides. */
  lemma {:induction false} MeasureIsSound(ty: Ty)
    requires WellFormed(ty)
    ensures Sound(MeasureOf(ty))
    decreases ty, 1
  {
    match ty
    case Tuple(fields, order) => StructIsSound(ty, fields, order);
    case Struct(fields, order) => StructIsSound(ty, fields, order);
    case Enum(size, alignLog, _) => EnumAlignDivides(size, alignLog);
    case Array(elem, len) =>
      MeasureIsSound(elem);
      var m := MeasureOf(elem);
      RoundUpIs(m.size, m.align);
      Multiple(m.size, m.align, len);
    case Slice(elem) => MeasureIsSound(elem);
    case _ =>
  }

  lemma {:induction false} StructIsSound(ty: Ty, fields: seq<Ty>, order: seq<nat>)
    requires WellFormed(ty) && (ty == Tuple(fields, order) || ty == Struct(fields, order))
    ensures Sound(MeasureOf(ty))
    decreases ty, 0
  {
    forall i | 0 <= i < |fields|
      ensures Sound(SourceMeasures(fields)[i])
    {
      MeasureIsSound(fields[i]);
    }
    AlignOfOrder(SourceMeasures(fields), order);
    StructSizeSound(InOrder(SourceMeasures(fields), order));
  }

  lemma FieldsAreSound(fields: seq<Ty>)
    requires AllWellFormed(fields)
    ensures AllSound(SourceMeasures(fields))
  {
    forall i | 0 <= i < |fields|
      ensures Sound(SourceMeasures(fields)[i])
    {
      MeasureIsSound(fields[i]);
    }
  }

  /** The offsets of the first fields. */
  ghost predicate AreOffsets(offsets: seq<nat>, ms: seq<Measure>) {
    |offsets| <= |ms| && forall i | 0 <= i < |offsets| :: offsets[i] == OffsetAt(ms, i)
  }

  lemma NextOffset(offsets: seq<nat>, ms: seq<Measure>, n: nat)
    requires n < |ms| && Sound(ms[n]) && AreOffsets(offsets, ms) && |offsets| == n
    ensures ms[n].size == 0 ==> AreOffsets(offsets + [End(ms, n)], ms) && End(ms, n + 1) == End(ms, n)
    ensures ms[n].size != 0 ==> var offset := AlignTo(End(ms, n), ms[n].align);
      offset >= 0 && AreOffsets(offsets + [offset], ms) && offset + ms[n].size == End(ms, n + 1)
  {
    if ms[n].size != 0 {
      AlignToRoundsUp(End(ms, n), ms[n].align);
    }
  }

  /** Field offsets, in one pass with a running offset. */
  method StructLikeFieldOffsets(fields: seq<Ty>) returns (offsets: seq<nat>)
    requires AllWellFormed(fields)
    ensures |offsets| == |fields| && forall i | 0 <= i < |fields| :: offsets[i] == OffsetAt(SourceMeasures(fields), i)
  {
    ghost var ms := SourceMeasures(fields);
    FieldsAreSound(fields);
    var offset: nat := 0;
    offsets := [];
    for n := 0 to |fields|
      invariant offset == End(ms, n) && |offsets| == n && AreOffsets(offsets, ms)
    {
      var m := MeasureOf(fields[n]);
      assert m == ms[n] && Sound(ms[n]);
      NextOffset(offsets, ms, n);
      if m.size == 0 {
        offsets := offsets + [offset];
        continue;
      }
      offset := AlignTo(offset, m.align);
      offsets := offsets + [offset];
      offset := offset + m.size;
    }
  }

  /** The size: the furthest end of any field, rounded up to the largest alignment. */
  method StructLikeSize(fields: seq<Ty>) returns (size: nat)
    requires AllWellFormed(fields)
    ensures size == StructSize(SourceMeasures(fields))
  {
    ghost var ms := SourceMeasures(fields);
    FieldsAreSound(fields);
    var offsets := StructLikeFieldOffsets(fields);
    var align, unpadded := 1, 0;
    for n := 0 to |fields|
      invariant align == MaxAlign(ms, n) && unpadded == Unpadded(ms, n)
    {
      var m := MeasureOf(fields[n]);
      assert m == ms[n];
      if m.size == 0 {
        continue;
      }
      align := Larger(align, m.align);
      unpadded := Larger(unpadded, offsets[n] + m.size);
    }
    MaxAlignIs(ms, |fields|);
    AlignToRoundsUp(unpadded, align);
    size := AlignTo(unpadded, align);
  }

  method StructLikeAlign(fields: seq<Ty>) returns (align: nat)
    ensures align == MaxAlign(SourceMeasures(fields), |fields|)
  {
    align := 1;
    for n := 0 to |fields|
      invariant align == MaxAlign(SourceMeasures(fields), n)
    {
      var m := MeasureOf(fields[n]);
      assert m == SourceMeasures(fields)[n];
      if m.size == 0 {
        continue;
      }
      align := Larger(align, m.align);
    }
  }

  /** Widths the target has registers for. */
  predicate CWellFormed(ty: CTy) {
    match ty
    case CInt(width) => width in {1, 8, 16, 32, 64, 128}
    case CArray(elem, _) => CWellFormed(elem)
    case CStruct(fields) => forall i | 0 <= i < |fields| :: CWellFormed(fields[i])
    case _ => true
  }

  lemma {:induction false} CMeasureIsSound(ty: CTy)
    requires CWellFormed(ty)
    ensures Sound(CMeasureOf(ty))
  {
    match ty
    case CArray(elem, len) =>
      CMeasureIsSound(elem);
      var m := CMeasureOf(elem);
      RoundUpIs(m.size, m.align);
      Multiple(m.size, m.align, len);
    case CStruct(fields) =>
      forall i | 0 <= i < |fields|
        ensures Sound(CMeasures(fields)[i])
      {
        CMeasureIsSound(fields[i]);
      }
      MaxAlignIs(CMeasures(fields), |fields|);
      RoundUpIs(End(CMeasures(fields), |fields|), MaxAlign(CMeasures(fields), |fields|));
    case _ =>
  }

  /** The converted type's size and alignment. */
  method CrabbitMeasure(ty: CTy) returns (size: nat, align: nat)
    requires CWellFormed(ty)
    ensures Measure(size, align) == CMeasureOf(ty)
    decreases ty, 1
  {
    match ty
    case CArray(elem, len) =>
      size, align := CrabbitMeasure(elem);
      CMeasureIsSound(elem);
      size := Stride(size, align, len);
    case CStruct(fields) =>
      size, align := CrabbitStructMeasure(ty, fields);
    case _ =>
      size, align := CMeasureOf(ty).size, CMeasureOf(ty).align;
  }

  method Stride(elemSize: nat, elemAlign: nat, len: nat) returns (size: nat)
    requires IsAlignment(elemAlign)
    ensures size == ArrayMeasure(Measure(elemSize, elemAlign), len).size
  {
    AlignToRoundsUp(elemSize, elemAlign);
    var stride: nat := AlignTo(elemSize, elemAlign);
    Bits.MulAtLeast(stride, len, 0);
    size := stride * len;
  }

  /** A converted struct's, in one pass with a running size. */
  method CrabbitStructMeasure(ghost ty: CTy, fields: seq<CTy>) returns (size: nat, align: nat)
    requires ty == CStruct(fields) && CWellFormed(ty)
    ensures Measure(size, align) == CMeasureOf(ty)
    decreases ty, 0
  {
    size, align := 0, 1;
    ghost var ms := CMeasures(fields);
    for n := 0 to |fields|
      invariant size == End(ms, n) && align == MaxAlign(ms, n)
    {
      var fieldSize, fieldAlign := CrabbitMeasure(fields[n]);
      assert ms[n] == Measure(fieldSize, fieldAlign);
      if fieldSize == 0 {
        continue;
      }
      CMeasureIsSound(fields[n]);
      AlignToRoundsUp(size, fieldAlign);
      size := AlignTo(size, fieldAlign) + fieldSize;
      align := Larger(align, fieldAlign);
    }
    CMeasureIsSound(ty);
    AlignToRoundsUp(size, align);
    size := AlignTo(size, align);
  }

  // ---- where a field is ----

  datatype FieldError = NoVariant | OutOfBounds | NotAnAggregate

  /** The first place `index` has in `order`. */
  function Position(order: seq<nat>, index: nat): (p: nat)
    ensures index in order ==> p < |order| && order[p] == index
  {
    if order == [] then 0 else if order[0] == index then 0 else 1 + Position(order[1..], index)
  }

  /** A field's byte offset: an enum's from its own layout, a union's zero, others from the running
      offsets in memory order. */
  function FieldOffsetOf(ty: Ty, variant: Option<nat>, index: nat): Result<nat, FieldError> {
    match ty
    case Enum(_, _, offsets) =>
      if variant.None? || variant.value >= |offsets| then Err(NoVariant)
      else if index >= |offsets[variant.value]| then Err(OutOfBounds)
      else Ok(offsets[variant.value][index])
    case Union(fields) => if index >= |fields| then Err(OutOfBounds) else Ok(0)
    case Tuple(fields, order) => StructFieldOffset(fields, order, index)
    case Struct(fields, order) => StructFieldOffset(fields, order, index)
    case _ => Err(NotAnAggregate)
  }

  function StructFieldOffset(fields: seq<Ty>, order: seq<nat>, index: nat): Result<nat, FieldError> {
    var ms := InOrder(SourceMeasures(fields), order);
    if index >= |fields| || Position(order, index) >= |order| then Err(OutOfBounds) else Ok(OffsetAt(ms, Position(order, index)))
  }

  /** Every field of a struct has an offset; it is aligned and inside; and no two fields of some
      size overlap. */
  lemma FieldOffsetsApart(fields: seq<Ty>, order: seq<nat>, i: nat, j: nat)
    requires WellFormed(Struct(fields, order)) && i < |fields| && j < |fields| && i != j
    ensures var ty := Struct(fields, order);
      var r, s, m, n := FieldOffsetOf(ty, None, i), FieldOffsetOf(ty, None, j), MeasureOf(fields[i]), MeasureOf(fields[j]);
      && r.Ok? && s.Ok?
      && (m.size != 0 ==> Aligned(r.value, m.align))
      && r.value + m.size <= MeasureOf(ty).size
      && (m.size != 0 && n.size != 0 ==> r.value + m.size <= s.value || s.value + n.size <= r.value)
  {
    var ms := SourceMeasures(fields);
    var ordered, p, q := InOrder(ms, order), Position(order, i), Position(order, j);
    assert i in order && j in order;
    FieldsAreSound(fields);
    AlignOfOrder(ms, order);
    StructSizeSound(ordered);
    RoundUpIs(End(ordered, |ordered|), MaxAlign(ordered, |ordered|));
    FieldInside(ordered, p);
    assert ordered[p] == ms[i] && ordered[q] == ms[j] && Sound(ordered[p]);
    RoundUpIs(End(ordered, p), ordered[p].align);
    if p < q && ordered[p].size != 0 {
      FieldsApart(ordered, p, q);
    } else if q < p && ordered[q].size != 0 {
      FieldsApart(ordered, q, p);
    }
  }

  lemma {:induction false} UnionSizeIsLargest(ms: seq<Measure>, n: nat)
    requires n <= |ms|
    ensures forall i: nat | i < n :: ms[i].size <= UnionSize(ms, n)
    ensures UnionSize(ms, n) == 0 || exists i: nat :: i < n && ms[i].size == UnionSize(ms, n)
  {
    if n > 0 {
      UnionSizeIsLargest(ms, n - 1);
      if i: nat :| i < n - 1 && ms[i].size == UnionSize(ms, n - 1) {
        assert i < n;
      }
    }
  }

  /** A union holds every field, all at its start, and is no larger than its largest. */
  lemma UnionHolds(fields: seq<Ty>)
    ensures forall i: nat | i < |fields| :: FieldOffsetOf(Union(fields), None, i) == Ok(0)
    ensures forall i: nat | i < |fields| :: MeasureOf(fields[i]).size <= MeasureOf(Union(fields)).size
    ensures MeasureOf(Union(fields)).size == 0 || exists i: nat :: i < |fields| && MeasureOf(fields[i]).size == MeasureOf(Union(fields)).size
  {
    var ms := SourceMeasures(fields);
    UnionSizeIsLargest(ms, |fields|);
    assert MeasureOf(Union(fields)).size == UnionSize(ms, |fields|);
    forall i: nat | i < |fields|
      ensures MeasureOf(fields[i]).size <= MeasureOf(Union(fields)).size
    {
      assert ms[i] == MeasureOf(fields[i]);
    }
    if i: nat :| i < |fields| && ms[i].size == UnionSize(ms, |fields|) {
      assert MeasureOf(fields[i]) == ms[i];
    }
  }

  /** An integer takes its bits and is aligned to its size, or to eight bytes. */
  lemma IntegersMeasured(bits: nat, signed: bool)
    requires WellFormed(Integer(bits, signed))
    ensures var m := MeasureOf(Integer(bits, signed)); m.size * 8 == bits && m.align == if m.size < 8 then m.size else 8
  {
  }

  /** An enum keeps its own alignment up to eight bytes. */
  lemma EnumsAligned(size: nat, alignLog: nat, offsets: seq<seq<nat>>)
    ensures var m := MeasureOf(Enum(size, alignLog, offsets));
      m.size == size && m.align == if alignLog <= 3 then Pow2(alignLog) else 8
  {
    assert Pow2(0) == 1 && Pow2(1) == 2 && Pow2(2) == 4 && Pow2(3) == 8;
    if alignLog > 3 {
      Pow2Monotone(3, alignLog);
    }
  }

  /** An array is its elements side by side, and nothing else. */
  lemma ArrayIsItsElements(elem: Ty, len: nat)
    requires WellFormed(elem)
    ensures var m, e := MeasureOf(Array(elem, len)), MeasureOf(elem); m.size == e.size * len && m.align == e.align
  {
    MeasureIsSound(elem);
    RoundUpIs(MeasureOf(elem).size, MeasureOf(elem).align);
  }
}
