/**
 * The unit ranges are measured in (`HTTPRange.Unit`), which is also the whole
 * value of an `Accept-Ranges` field. `bytes` is recognised in any letter case
 * and always rendered in lower case; any other text is a unit of its own and
 * is kept verbatim. The absent unit (`none`) is the empty `Option`.
 *
 * This `Unit` is a field value, so its `==` compares rendered texts: the
 * unit `Other("bytes")` equals `Bytes` although the two are different cases.
 */
module RangeUnit {
  import opened Wrappers
  import opened AsciiText
  import FieldValue

  datatype Unit = Bytes | Other(text: Text)

  const BytesText: Text := "bytes"

  /** `none`: no unit is supported. */
  const NoUnit: Option<Unit> := None

  /**
   * `init(rawValue:)`, and with it `init(_:)` and the string-literal
   * initialiser: every text is a unit.
   */
  function Parse(t: Text): (u: Unit)
    ensures u.Bytes? <==> Lower(t) == BytesText
  {
    if Lower(t) == BytesText then Bytes else Other(t)
  }

  /** `rawValue`, which is also `fieldContent`. */
  function FieldContent(u: Unit): Text {
    match u
    case Bytes => BytesText
    case Other(t) => t
  }

  lemma LowerBytes()
    ensures Lower(BytesText) == BytesText
  {
    assert Lower(BytesText) == ['b', 'y', 't', 'e', 's'];
  }

  /**
   * Rendering a parsed text gives it back, except for a mixed- or upper-case
   * spelling of `bytes`, which comes back in lower case.
   */
  lemma FieldContentParse(t: Text)
    ensures FieldContent(Parse(t)) == t <==> Lower(t) != BytesText || t == BytesText
    ensures Lower(t) == BytesText ==> FieldContent(Parse(t)) == BytesText
  {
  }

  /**
   * Under the text equality of field values, decoding a rendered unit gives
   * it back except for an `Other` spelling `bytes` with some capital letter.
   */
  lemma ParseFieldContentSameContent(u: Unit)
    ensures FieldValue.SameContent(FieldContent, Parse(FieldContent(u)), u)
      <==> u.Bytes? || Lower(u.text) != BytesText || u.text == BytesText
  {
    LowerBytes();
  }

  /**
   * Two units are equal as field values exactly when they are the same case,
   * or one is `Bytes` and the other `Other("bytes")`.
   */
  lemma SameContentIff(u: Unit, v: Unit)
    ensures FieldValue.SameContent(FieldContent, u, v)
      <==> u == v || (u.Bytes? && v == Other(BytesText)) || (v.Bytes? && u == Other(BytesText))
  {
  }

  /** `BYTES` and `Bytes` decode to `.bytes`. */
  lemma CaseInsensitiveBytes()
    ensures Parse("BYTES") == Bytes && Parse("Bytes") == Bytes
    ensures Parse("bits") == Other("bits")
  {
    assert Lower("BYTES") == BytesText;
    assert Lower("Bytes") == BytesText;
    assert Lower("bits")[1] == 'i';
  }
}
