/** Conversion from the pattern's native unit (tenths of a millimetre) to centimetres. */
module UnitConverter {
  import opened Wrappers
  import opened Geometry

  /** 1 cm = 10 mm = 100 tenths of a millimetre. */
  const Mm10PerCm: real := 100.0

  /** `UnitConverter.mm10_to_cm`: the length in centimetres of `v` tenths of a millimetre. */
  function Mm10ToCm(v: real): (cm: real)
    ensures cm * Mm10PerCm == v
  {
    v / Mm10PerCm
  }

  lemma {:induction false} Mm10ToCmOfHundred()
    ensures Mm10ToCm(100.0) == 1.0
  {
  }

  /** The conversion is linear: it respects sums and scalar multiples. */
  lemma {:induction false} Mm10ToCmLinear(a: real, b: real, k: real)
    ensures Mm10ToCm(a + b) == Mm10ToCm(a) + Mm10ToCm(b)
    ensures Mm10ToCm(k * a) == k * Mm10ToCm(a)
  {
  }

  /**
   * `UnitConverter.get_pattern_size_cm`: `(width_cm, height_cm)` of the bounds,
   * or `None` when there are no bounds or they are not valid.
   */
  function GetPatternSizeCm(bounds: Option<Rect>): (r: Option<(real, real)>)
    ensures r.None? <==> (bounds.None? || !bounds.value.IsValid())
    ensures r.Some? ==> r.value.0 * Mm10PerCm == bounds.value.width
    ensures r.Some? ==> r.value.1 * Mm10PerCm == bounds.value.height
    ensures r.Some? ==> r.value.0 > 0.0 && r.value.1 > 0.0
  {
    if bounds.None? || !bounds.value.IsValid() then None
    else Some((Mm10ToCm(bounds.value.width), Mm10ToCm(bounds.value.height)))
  }
}
