/** Enum tags: writing a variant's tag, and reading the discriminant back without branches. */
module EnumTags {
  import opened Bits
  import opened Wrappers
  import opened Ir
  import opened MulOverflow
  import opened Saturate

  /** How a variant is told from the tag field: the discriminant itself; or values outside the
      payload's range for the variants `first..last`, from `nicheStart` on, with every other value
      standing for the one variant that has the payload. */
  datatype Encoding =
    | Direct
    | Niche(untagged: nat, first: nat, last: nat, nicheStart: nat)

  /** An enum of several variants: tag width, type of the discriminant, encoding. */
  datatype EnumLayout = EnumLayout(tagBits: nat, discr: Ty, encoding: Encoding)

  /** What the compiler guarantees: the niche fits the tag. */
  ghost predicate Sensible(l: EnumLayout) {
    && l.tagBits > 0 && l.discr.width > 0
    && (l.encoding.Niche? ==> l.encoding.first <= l.encoding.last && l.encoding.last - l.encoding.first < Pow2(l.tagBits))
  }

  /** The tag to write for a variant of a discriminant, as the compiler gives it: none for the
      variant that has the payload. */
  function TagFor(l: EnumLayout, variant: nat, discriminant: int): Option<nat> {
    match l.encoding
    case Direct => Some(Wrap(discriminant, l.tagBits))
    case Niche(untagged, first, _, nicheStart) =>
      if variant == untagged then None else Some(Wrap(variant - first + nicheStart, l.tagBits))
  }

  /** The tag field after construction: the tag, or what the payload left there. */
  function TagField(l: EnumLayout, variant: nat, discriminant: int, payload: nat): nat {
    var tag := TagFor(l, variant, discriminant);
    if tag.Some? then tag.value else payload
  }

  /** How far above the start of the niche the tag field is, around the end of its width. */
  function Relative(l: EnumLayout, tag: nat): nat
    requires l.encoding.Niche?
  {
    Wrap(tag - Wrap(l.encoding.nicheStart, l.tagBits), l.tagBits)
  }

  predicate InNiche(l: EnumLayout, tag: nat)
    requires l.encoding.Niche?
  {
    Relative(l, tag) <= l.encoding.last - l.encoding.first
  }

  /** The discriminant a tag field stands for, as the emitted ops compute it. */
  function Decoded(l: EnumLayout, tag: nat): nat {
    match l.encoding
    case Direct => Wrap(tag, l.discr.width)
    case Niche(untagged, first, _, _) =>
      if InNiche(l, tag) then Wrap(first + Relative(l, tag), l.discr.width) else Wrap(untagged, l.discr.width)
  }

  // ---- reading back what was written ----

  lemma WrapCancels(a: nat, s: nat, w: nat)
    requires a < Pow2(w)
    ensures Wrap(Wrap(a + s, w) - Wrap(s, w), w) == a
  {
    QuotientRemainder(a + s, Pow2(w));
    QuotientRemainder(s, Pow2(w));
    Difference(a, s, Pow2(w), Quotient(a + s, Pow2(w)), Quotient(s, Pow2(w)), Wrap(a + s, w), Wrap(s, w));
    CongruentWraps(Wrap(a + s, w) - Wrap(s, w), a, Quotient(s, Pow2(w)) - Quotient(a + s, Pow2(w)), w);
    SmallWrap(a, w);
  }

  lemma SmallWrap(a: nat, w: nat)
    requires a < Pow2(w)
    ensures Wrap(a, w) == a
  {
  }

  lemma Difference(a: int, s: int, d: int, p: int, q: int, x: int, y: int)
    requires a + s == d * p + x && s == d * q + y
    ensures x - y == a + d * (q - p)
  {
    assert d * (q - p) == d * q - d * p;
  }

  lemma Summand(x: int, y: int, k: int, s: int, d: int, p: int, q: int)
    requires x - y == d * p + k && s == d * q + y
    ensures x == k + s + d * (p - q)
  {
    assert d * (p - q) == d * p - d * q;
  }

  /** Every variant index is a word of the discriminant. */
  ghost predicate VariantsFit(l: EnumLayout) {
    l.encoding.Niche? && l.encoding.untagged < Pow2(l.discr.width) && l.encoding.last < Pow2(l.discr.width)
  }

  /** A variant told by the niche reads back as its own index. */
  lemma NicheReadsBack(l: EnumLayout, variant: nat, discriminant: int, payload: nat)
    requires Sensible(l) && l.encoding.Niche? && l.encoding.first <= variant <= l.encoding.last && variant != l.encoding.untagged
    ensures Decoded(l, TagField(l, variant, discriminant, payload)) == Wrap(variant, l.discr.width)
    ensures VariantsFit(l) ==> Decoded(l, TagField(l, variant, discriminant, payload)) == variant
  {
    WrapCancels(variant - l.encoding.first, l.encoding.nicheStart, l.tagBits);
  }

  /** A tag field is `k` above the start of the niche exactly when it is the niche's `k`-th value. */
  lemma RelativeIs(l: EnumLayout, tag: nat, k: nat)
    requires l.encoding.Niche? && tag < Pow2(l.tagBits) && k < Pow2(l.tagBits)
    ensures Relative(l, tag) == k <==> tag == Wrap(k + l.encoding.nicheStart, l.tagBits)
  {
    var w, s := l.tagBits, l.encoding.nicheStart;
    WrapCancels(k, s, w);
    if Relative(l, tag) == k {
      var p, q := Quotient(tag - Wrap(s, w), Pow2(w)), Quotient(s, Pow2(w));
      QuotientRemainder(tag - Wrap(s, w), Pow2(w));
      QuotientRemainder(s, Pow2(w));
      Summand(tag, Wrap(s, w), k, s, Pow2(w), p, q);
      CongruentWraps(tag, k + s, p - q, w);
      SmallWrap(tag, w);
    }
  }

  /** The variant that has the payload reads back exactly when the payload is outside the niche, or
      is the one niche value that would tag that same variant. */
  lemma UntaggedReadsBack(l: EnumLayout, discriminant: int, payload: nat)
    requires Sensible(l) && VariantsFit(l) && payload < Pow2(l.tagBits)
    ensures var e := l.encoding;
      Decoded(l, TagField(l, e.untagged, discriminant, payload)) == e.untagged
      <==> !InNiche(l, payload)
           || (e.first <= e.untagged <= e.last && payload == Wrap(e.untagged - e.first + e.nicheStart, l.tagBits))
  {
    var e := l.encoding;
    assert TagField(l, e.untagged, discriminant, payload) == payload;
    SmallWrap(e.untagged, l.discr.width);
    if InNiche(l, payload) {
      SmallWrap(e.first + Relative(l, payload), l.discr.width);
    }
    if e.first <= e.untagged <= e.last {
      RelativeIs(l, payload, e.untagged - e.first);
    }
  }

  /** No two niche variants share a tag. */
  lemma NicheTagsDiffer(l: EnumLayout, u: nat, v: nat)
    requires Sensible(l) && l.encoding.Niche? && u != v && u != l.encoding.untagged && v != l.encoding.untagged
    requires l.encoding.first <= u <= l.encoding.last && l.encoding.first <= v <= l.encoding.last
    ensures TagFor(l, u, 0) != TagFor(l, v, 0)
  {
    WrapCancels(u - l.encoding.first, l.encoding.nicheStart, l.tagBits);
    WrapCancels(v - l.encoding.first, l.encoding.nicheStart, l.tagBits);
  }

  /** A direct tag reads back exactly when the discriminant's word is the zero extension of the tag. */
  lemma DirectReadsBack(l: EnumLayout, variant: nat, discriminant: int, payload: nat)
    requires Sensible(l) && l.encoding.Direct? && l.tagBits <= l.discr.width
    ensures Decoded(l, TagField(l, variant, discriminant, payload)) == Wrap(discriminant, l.discr.width)
       <==> Wrap(discriminant, l.discr.width) < Pow2(l.tagBits)
  {
    var w, t := l.discr.width, l.tagBits;
    Pow2Monotone(t, w);
    var tag, word := Wrap(discriminant, t), Wrap(discriminant, w);
    assert Wrap(tag, w) == tag;
    if word < Pow2(t) {
      NarrowOfWide(discriminant, t, w);
      assert Wrap(word, t) == word;
    }
  }

  lemma NarrowOfWide(z: int, t: nat, w: nat)
    requires t <= w
    ensures Wrap(Wrap(z, w), t) == Wrap(z, t)
  {
    var q := Quotient(z, Pow2(w));
    Pow2Add(t, w - t);
    QuotientRemainder(z, Pow2(w));
    Associate(Pow2(w), Pow2(t), Pow2(w - t), q);
    CongruentWraps(z, Wrap(z, w), Pow2(w - t) * q, t);
  }

  lemma Associate(d: int, a: int, b: int, q: int)
    requires d == a * b
    ensures d * q == a * (b * q)
  {
  }

  /** So a negative discriminant under a narrower tag does not read back: minus one, tagged with a
      byte, reads as 255. */
  lemma NegativeDoesNotReadBack()
    ensures var l := EnumLayout(8, Int(64, true), Direct);
      Decoded(l, TagField(l, 0, -1, 0)) == 255 && Wrap(-1, 64) != 255
  {
    var l := EnumLayout(8, Int(64, true), Direct);
    assert Pow2(8) == 256;
    Pow2Monotone(8, 64);
    Pow2Monotone(9, 64);
    assert Pow2(9) == 2 * Pow2(8);
    WrapOnce(-1, 8);
    WrapOnce(-1, 64);
    assert TagField(l, 0, -1, 0) == 255;
  }

  // ---- the emitted ops ----

  lemma SelectByProduct(base: nat, tagged: nat, condition: nat, w: nat)
    requires base < Pow2(w) && tagged < Pow2(w) && condition in {0, 1}
    ensures Wrap(base + Wrap(Wrap(tagged - base, w) * condition, w), w) == if condition == 1 then tagged else base
  {
    WrapOnce(tagged - base, w);
    WrapOnce(base + Wrap(tagged - base, w), w);
  }

  /** `condition ? tagged : base`, as `base + (tagged - base) * condition`. */
  method EmitSelectByProduct(b: Block, base: Value, tagged: Value, condition: Value, w: nat) returns (r: Value)
    requires base.ty == tagged.ty == condition.ty && base.ty.width == w
    requires forall at: Words | Executes(at) :: at(condition) in {0, 1}
    modifies b
    ensures b.Extended() && r.ty == base.ty
    ensures forall at: Words | Executes(at) :: at(r) == if at(condition) == 1 then at(tagged) else at(base)
  {
    var diff := b.EmitOp(Sub, tagged, base);
    var scaled := b.EmitOp(Mul, diff, condition);
    r := b.EmitOp(Add, base, scaled);
    forall at: Words | Executes(at)
      ensures at(r) == if at(condition) == 1 then at(tagged) else at(base)
    {
      InRange(at, base);
      InRange(at, tagged);
      SelectByProduct(at(base), at(tagged), at(condition), w);
    }
  }

  /** The tag field relative to the niche, in the tag's own width. */
  method EmitRelative(b: Block, l: EnumLayout, tag: Value) returns (r: Value)
    requires l.encoding.Niche? && tag.ty == Int(l.tagBits, false)
    modifies b
    ensures b.Extended() && r.ty == tag.ty
    ensures forall at: Words | Executes(at) :: at(r) == Relative(l, at(tag))
  {
    var start := b.EmitConstant(tag.ty, Wrap(l.encoding.nicheStart, l.tagBits));
    r := b.EmitOp(Sub, tag, start);
  }

  method EmitIsNiche(b: Block, l: EnumLayout, tag: Value, relative: Value) returns (r: Value)
    requires Sensible(l) && l.encoding.Niche? && tag.ty == relative.ty == Int(l.tagBits, false)
    requires forall at: Words | Executes(at) :: at(relative) == Relative(l, at(tag))
    modifies b
    ensures b.Extended() && r.ty == l.discr
    ensures forall at: Words | Executes(at) :: at(r) == Truth(InNiche(l, at(tag)))
  {
    var max := b.EmitConstant(tag.ty, l.encoding.last - l.encoding.first);
    var isNiche := b.EmitOp(Le, relative, max);
    r := b.EmitCast(l.discr, isNiche);
    forall at: Words | Executes(at)
      ensures at(r) == Truth(InNiche(l, at(tag)))
    {
      assert Pow2(l.discr.width) == 2 * Pow2(l.discr.width - 1);
    }
  }

  /** `first + relative`, in the discriminant's type. */
  method EmitTagged(b: Block, l: EnumLayout, relative: Value) returns (r: Value)
    requires l.encoding.Niche? && relative.ty == Int(l.tagBits, false)
    modifies b
    ensures b.Extended() && r.ty == l.discr
    ensures forall at: Words | Executes(at) :: at(r) == Wrap(l.encoding.first + at(relative), l.discr.width)
  {
    var w := l.discr.width;
    var relativeDiscr := b.EmitCast(l.discr, relative);
    var base := b.EmitConstant(l.discr, Wrap(l.encoding.first, w));
    r := b.EmitOp(Add, base, relativeDiscr);
    forall at: Words | Executes(at)
      ensures at(r) == Wrap(l.encoding.first + at(relative), w)
    {
      WrapOfSum(l.encoding.first, at(relative), w);
    }
  }

  lemma WrapOfSum(x: nat, y: nat, w: nat)
    ensures Wrap(Wrap(Wrap(x, w), w) + Wrap(y, w), w) == Wrap(x + y, w)
  {
    var d := Pow2(w);
    QuotientRemainder(x, d);
    QuotientRemainder(y, d);
    assert d * (Quotient(x, d) + Quotient(y, d)) == d * Quotient(x, d) + d * Quotient(y, d);
    CongruentWraps(x + y, Wrap(x, w) + Wrap(y, w), Quotient(x, d) + Quotient(y, d), w);
  }

  /** The discriminant, from the loaded tag. */
  method ReadEnumDiscriminant(b: Block, l: EnumLayout, tag: Value) returns (r: Value)
    requires Sensible(l) && tag.ty == Int(l.tagBits, false)
    modifies b
    ensures b.Extended() && r.ty == l.discr
    ensures forall at: Words | Executes(at) :: at(r) == Decoded(l, at(tag))
  {
    if l.encoding.Direct? {
      r := b.EmitCast(l.discr, tag);
      return;
    }
    var relative := EmitRelative(b, l, tag);
    var isNiche := EmitIsNiche(b, l, tag, relative);
    var tagged := EmitTagged(b, l, relative);
    var base := b.EmitConstant(l.discr, Wrap(l.encoding.untagged, l.discr.width));
    r := EmitSelectByProduct(b, base, tagged, isNiche, l.discr.width);
  }
}
