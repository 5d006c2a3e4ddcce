/** The numbers binary32 and binary64 words stand for (sections 3.3 and 3.4 of IEEE 754). */
module Floats {
  import opened Bits

  datatype Float = NaN | Infinite(negative: bool) | Finite(value: real)

  datatype Format = F32 | F64

  function Width(f: Format): nat { if f.F32? then 32 else 64 }

  function FractionBits(f: Format): nat { if f.F32? then 23 else 52 }

  function ExponentBits(f: Format): nat { if f.F32? then 8 else 11 }

  function Bias(f: Format): nat { if f.F32? then 127 else 1023 }

  /** `x` times two to the power `k`. */
  function Scaled(x: real, k: int): real
    decreases if k < 0 then 0 - k else k
  {
    if k == 0 then x else if k > 0 then 2.0 * Scaled(x, k - 1) else Scaled(x, k + 1) / 2.0
  }

  /** The number given by sign, exponent field and fraction field. */
  function Number(f: Format, negative: bool, exponent: nat, fraction: nat): Float {
    if exponent == Pow2(ExponentBits(f)) - 1 then if fraction == 0 then Infinite(negative) else NaN
    else
      var magnitude :=
        if exponent == 0 then Scaled(fraction as real, 1 - Bias(f) - FractionBits(f))
        else Scaled((Pow2(FractionBits(f)) + fraction) as real, exponent - Bias(f) - FractionBits(f));
      Finite(if negative then 0.0 - magnitude else magnitude)
  }

  function Pack(f: Format, negative: bool, exponent: nat, fraction: nat): nat {
    ((if negative then Pow2(ExponentBits(f)) else 0) + exponent) * Pow2(FractionBits(f)) + fraction
  }

  /** What a word stands for. */
  function Decode(f: Format, bits: nat): Float {
    var top := bits / Pow2(FractionBits(f));
    Number(f, top / Pow2(ExponentBits(f)) % 2 == 1, top % Pow2(ExponentBits(f)), bits % Pow2(FractionBits(f)))
  }

  lemma DecodePacked(f: Format, negative: bool, exponent: nat, fraction: nat)
    requires exponent < Pow2(ExponentBits(f)) && fraction < Pow2(FractionBits(f))
    ensures Decode(f, Pack(f, negative, exponent, fraction)) == Number(f, negative, exponent, fraction)
  {
    var s, top := if negative then 1 else 0, (if negative then Pow2(ExponentBits(f)) else 0) + exponent;
    DivUnique(Pack(f, negative, exponent, fraction), Pow2(FractionBits(f)), top, fraction);
    assert Pow2(ExponentBits(f)) * s == if negative then Pow2(ExponentBits(f)) else 0;
    DivUnique(top, Pow2(ExponentBits(f)), s, exponent);
  }

  // ---- ordered comparison: false whenever either side is not a number ----

  predicate Less(x: Float, y: Float) {
    match (x, y)
    case (NaN, _) => false
    case (_, NaN) => false
    case (Infinite(n), Infinite(m)) => n && !m
    case (Infinite(n), Finite(_)) => n
    case (Finite(_), Infinite(m)) => !m
    case (Finite(a), Finite(b)) => a < b
  }

  predicate Equal(x: Float, y: Float) {
    x == y && x != NaN
  }

  // ---- powers of two as floats ----

  /** The float nearest to two to the power `k`: infinite when the format has no such number. */
  function PowerBits(f: Format, negative: bool, k: nat): nat {
    var exponent := k + Bias(f);
    Pack(f, negative, if exponent < Pow2(ExponentBits(f)) - 1 then exponent else Pow2(ExponentBits(f)) - 1, 0)
  }

  lemma {:induction false} ScaledDoubles(x: real, k: int)
    ensures Scaled(x, k + 1) == 2.0 * Scaled(x, k) == Scaled(2.0 * x, k)
    decreases if k < 0 then 0 - k else k
  {
    if k > 0 {
      ScaledDoubles(x, k - 1);
    } else if k < 0 {
      ScaledDoubles(x, k + 1);
    }
  }

  /** Powers of two pass from the number to the exponent. */
  lemma {:induction false} PowerScaled(m: nat, k: int)
    ensures Scaled(Pow2(m) as real, k) == Scaled(1.0, k + m)
  {
    if m > 0 {
      PowerScaled(m - 1, k);
      ScaledDoubles(Pow2(m - 1) as real, k);
      ScaledDoubles(1.0, k + m - 1);
      assert Pow2(m) as real == 2.0 * (Pow2(m - 1) as real);
    }
  }

  lemma {:induction false} ScaledOrder(x: real, y: real, k: int)
    requires 0.0 <= x < y
    ensures 0.0 <= Scaled(x, k) < Scaled(y, k)
    decreases if k < 0 then 0 - k else k
  {
    if k > 0 {
      ScaledOrder(x, y, k - 1);
    } else if k < 0 {
      ScaledOrder(x, y, k + 1);
    }
  }

  lemma {:induction false} ScaledMonotone(x: real, j: int, k: int)
    requires x >= 0.0 && j <= k
    ensures 0.0 <= Scaled(x, j) <= Scaled(x, k)
    decreases k - j
  {
    ScaledOrder(x, x + 1.0, k);
    if j < k {
      ScaledMonotone(x, j, k - 1);
      ScaledDoubles(x, k - 1);
    }
  }

  /** A power of two is exact in a format that has it, and infinite in one that does not. */
  lemma PowerDecodes(f: Format, negative: bool, k: nat)
    ensures Decode(f, PowerBits(f, negative, k)) ==
      if k + Bias(f) < Pow2(ExponentBits(f)) - 1
      then Finite(if negative then 0.0 - Scaled(1.0, k) else Scaled(1.0, k)) else Infinite(negative)
  {
    var top := Pow2(ExponentBits(f)) - 1;
    var exponent := if k + Bias(f) < top then k + Bias(f) else top;
    DecodePacked(f, negative, exponent, 0);
    PowerScaled(FractionBits(f), k - FractionBits(f));
  }

  /** Every finite number of a format is below the first power of two the format lacks. */
  lemma FiniteBelow(f: Format, bits: nat)
    requires Decode(f, bits).Finite?
    ensures var limit := Scaled(1.0, Pow2(ExponentBits(f)) - 1 - Bias(f)); 0.0 - limit < Decode(f, bits).value < limit
  {
    var top := bits / Pow2(FractionBits(f));
    NumberBelow(f, top / Pow2(ExponentBits(f)) % 2 == 1, top % Pow2(ExponentBits(f)), bits % Pow2(FractionBits(f)));
  }

  lemma NumberBelow(f: Format, negative: bool, exponent: nat, fraction: nat)
    requires exponent < Pow2(ExponentBits(f)) && fraction < Pow2(FractionBits(f))
    requires Number(f, negative, exponent, fraction).Finite?
    ensures var limit := Scaled(1.0, Pow2(ExponentBits(f)) - 1 - Bias(f));
      0.0 - limit < Number(f, negative, exponent, fraction).value < limit
  {
    var m, last := FractionBits(f), Pow2(ExponentBits(f)) - 1 - Bias(f);
    var k := if exponent == 0 then 1 - Bias(f) - m else exponent - Bias(f) - m;
    var digits := (if exponent == 0 then fraction else Pow2(m) + fraction) as real;
    assert k <= last - 1 - m by { Exponents(f); }
    ScaledMonotone(digits, k, last - 1 - m);
    ScaledOrder(digits, Pow2(m + 1) as real, last - 1 - m);
    PowerScaled(m + 1, last - 1 - m);
  }

  lemma Exponents(f: Format)
    ensures Pow2(ExponentBits(f)) == if f.F32? then 256 else 2048
  {
    Pow2Constants();
    assert Pow2(10) == 2 * Pow2(9) && Pow2(11) == 2 * Pow2(10);
  }
}
