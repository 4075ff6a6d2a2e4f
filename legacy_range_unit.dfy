/**
 * The older copy of the range unit in the `HTTPRanges` library. Its cases,
 * its decoding and its rendering are those of `RangeUnit`, and the string
 * literal initialiser and `description` are decoding and rendering again.
 * What differs is equality: this `Unit` synthesises `Hashable`, so `==`
 * compares cases and payloads, which is Dafny's own `==` on the datatype.
 */
module LegacyRangeUnit {
  import opened AsciiText
  import RangeUnit

  type Unit = RangeUnit.Unit

  /**
   * Parsing a rendered unit gives the same value back, unless the unit is an
   * `Other` whose text reads `bytes` in some letter case.
   */
  lemma ParseRawValue(u: Unit)
    ensures RangeUnit.Parse(RangeUnit.FieldContent(u)) == u
      <==> u.Bytes? || Lower(u.text) != RangeUnit.BytesText
  {
    RangeUnit.LowerBytes();
  }

  /**
   * `other("bytes")` and `bytes` render the same text but are different
   * values, so rendering is not injective under synthesised equality.
   */
  lemma OtherBytesDiffers()
    ensures RangeUnit.FieldContent(RangeUnit.Other("bytes")) == RangeUnit.FieldContent(RangeUnit.Bytes)
    ensures RangeUnit.Other("bytes") != RangeUnit.Bytes
    ensures RangeUnit.Parse(RangeUnit.FieldContent(RangeUnit.Other("bytes"))) != RangeUnit.Other("bytes")
  {
    RangeUnit.LowerBytes();
  }

  /** Distinct values render distinct texts except for that one pair. */
  lemma RawValueInjectiveElsewhere(u: Unit, v: Unit)
    requires RangeUnit.FieldContent(u) == RangeUnit.FieldContent(v)
    requires u != RangeUnit.Other("bytes") && v != RangeUnit.Other("bytes")
    ensures u == v
  {
  }
}
