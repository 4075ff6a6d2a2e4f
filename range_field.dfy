/**
 * The value of a `Range` field (`HTTPRangeField`): a unit, `=`, and one or
 * more ranges separated by `, `, as in `bytes=200-999, 2000-2499, 9500-, -500`.
 *
 * Decoding never fails: ranges that do not decode are dropped. It does stop
 * the program when the trimmed text has fewer than two `=`-separated pieces
 * (the second piece is read unchecked) and when an element is a closed range
 * whose bounds are out of order; both are preconditions here.
 */
module HTTPRangeField {
  import opened Wrappers
  import opened AsciiText
  import opened Collections
  import RangeUnit
  import HTTPRange

  type Range = HTTPRange.Range

  const Separator: Text := ", "

  datatype RangeField = RangeField(unit: RangeUnit.Unit, ranges: seq<Range>)

  function RenderedRanges(ranges: seq<Range>): (r: seq<Text>)
    ensures |r| == |ranges|
    ensures forall i :: 0 <= i < |ranges| ==> r[i] == HTTPRange.FieldContent(ranges[i])
  {
    seq(|ranges|, i requires 0 <= i < |ranges| => HTTPRange.FieldContent(ranges[i]))
  }

  /** `fieldContent`. */
  function FieldContent(f: RangeField): Text {
    RangeUnit.FieldContent(f.unit) + "=" + Join(RenderedRanges(f.ranges), Separator)
  }

  // ---------------------------------------------------------------------
  // init?(_:)

  /**
   * `split(maxSplits: 2, whereSeparator:)` on `=` of the trimmed text. The
   * split limit only decides whether text after a third piece stays joined
   * to it, and the decoder reads the first two pieces alone, so the pieces
   * are taken as the plain split.
   */
  function Pieces(s: Text): seq<Text> {
    Split(TrimWhitespace(s), '=')
  }

  /** The `, `-separated elements of the second piece. */
  function Elements(s: Text): seq<Text>
    requires |Pieces(s)| >= 2
  {
    Components(Pieces(s)[1], Separator)
  }

  predicate NoTraps(elements: seq<Text>) {
    forall i :: 0 <= i < |elements| ==> !HTTPRange.Traps(elements[i])
  }

  /** The inputs decoding handles: a second piece to read, and no element that stops the program. */
  predicate Decodable(s: Text) {
    |Pieces(s)| >= 2 && NoTraps(Elements(s))
  }

  /** `compactMap` of the range decoder: the elements that decode, in order. */
  function ParsedRanges(elements: seq<Text>): (r: seq<Range>)
    requires NoTraps(elements)
    ensures |r| <= |elements|
  {
    CompactMap(HTTPRange.Parse, elements)
  }

  /** The ranges of a run of elements are the ranges of its parts, in order. */
  lemma ParsedRangesAppend(a: seq<Text>, b: seq<Text>)
    requires NoTraps(a) && NoTraps(b)
    ensures NoTraps(a + b)
    ensures ParsedRanges(a + b) == ParsedRanges(a) + ParsedRanges(b)
  {
    assert forall i :: 0 <= i < |a + b| ==> (a + b)[i] == if i < |a| then a[i] else b[i - |a|];
    CompactMapAppend(HTTPRange.Parse, a, b);
  }

  /** One element gives its range when it decodes, and nothing otherwise. */
  lemma ParsedRangesSingle(e: Text)
    requires !HTTPRange.Traps(e)
    ensures NoTraps([e])
    ensures HTTPRange.Parse(e).Some? ==> ParsedRanges([e]) == [HTTPRange.Parse(e).value]
    ensures HTTPRange.Parse(e).None? ==> ParsedRanges([e]) == []
  {
    CompactMapSingle(HTTPRange.Parse, e);
  }

  /** An element that is not a range is skipped, and the others are kept in order. */
  lemma ParsedRangesDrop(a: seq<Text>, e: Text, b: seq<Text>)
    requires NoTraps(a) && NoTraps(b) && !HTTPRange.Traps(e) && HTTPRange.Parse(e).None?
    ensures NoTraps(a + [e] + b) && NoTraps(a + b)
    ensures ParsedRanges(a + [e] + b) == ParsedRanges(a + b)
  {
    ParsedRangesAppend(a, [e]);
    ParsedRangesAppend(a + [e], b);
    ParsedRangesAppend(a, b);
    CompactMapDrop(HTTPRange.Parse, a, e, b);
  }

  /** `init?(_:)`: it never fails on the inputs it handles. */
  function Decode(s: Text): (f: Option<RangeField>)
    requires Decodable(s)
    ensures f.Some?
    ensures f.value.unit == RangeUnit.Parse(Pieces(s)[0])
    ensures |f.value.ranges| <= |Elements(s)|
  {
    Some(RangeField(RangeUnit.Parse(Pieces(s)[0]), ParsedRanges(Elements(s))))
  }

  // ---------------------------------------------------------------------
  // Round trip

  /**
   * A unit that comes back from inside a `Range` field: non-empty, no `=`,
   * not starting with whitespace, and not an `Other` spelling `bytes`.
   */
  predicate PlainUnit(u: RangeUnit.Unit) {
    var t := RangeUnit.FieldContent(u);
    t != [] && '=' !in t && !IsWhitespace(t[0]) && (u.Other? ==> Lower(u.text) != RangeUnit.BytesText)
  }

  /** A rendered range has no `=`, no `, ` and no whitespace at its edges. */
  lemma RenderedRangePlain(r: Range)
    ensures Edged(HTTPRange.FieldContent(r))
    ensures '=' !in HTTPRange.FieldContent(r) && ',' !in HTTPRange.FieldContent(r)
    ensures !Contains(HTTPRange.FieldContent(r), Separator)
  {
    var t := HTTPRange.FieldContent(r);
    HTTPRange.FieldContentChars(r);
    assert HTTPRange.RangeChar(t[0]) && HTTPRange.RangeChar(t[|t| - 1]);
    NotContains(t, Separator, ',');
  }

  /** A rendered field splits into its unit's text and the rendered ranges. */
  lemma ElementsOfFieldContent(f: RangeField)
    requires |f.ranges| >= 1 && PlainUnit(f.unit)
    ensures |Pieces(FieldContent(f))| >= 2
    ensures Pieces(FieldContent(f))[0] == RangeUnit.FieldContent(f.unit)
    ensures Elements(FieldContent(f)) == RenderedRanges(f.ranges)
  {
    var rs := RenderedRanges(f.ranges);
    forall i | 0 <= i < |rs|
      ensures Edged(rs[i]) && '=' !in rs[i] && !Contains(rs[i], Separator)
    {
      RenderedRangePlain(f.ranges[i]);
    }
    ElementsOfText(RangeUnit.FieldContent(f.unit), rs);
  }

  /**
   * `unit=e1, e2, ...` splits into the unit and the elements, when the unit
   * has no `=` and no leading whitespace and the elements are edged and hold
   * neither `=` nor `, `.
   */
  lemma ElementsOfText(u: Text, rs: seq<Text>)
    requires u != [] && '=' !in u && !IsWhitespace(u[0])
    requires |rs| >= 1
    requires forall i :: 0 <= i < |rs| ==> Edged(rs[i]) && '=' !in rs[i] && !Contains(rs[i], Separator)
    ensures |Pieces(u + "=" + Join(rs, Separator))| >= 2
    ensures Pieces(u + "=" + Join(rs, Separator))[0] == u
    ensures Elements(u + "=" + Join(rs, Separator)) == rs
  {
    var j := Join(rs, Separator);
    JoinEdged(rs, Separator);
    JoinFree(rs, Separator, '=');
    var s := u + "=" + j;
    assert s == u + ['='] + j;
    assert s[|s| - 1] == j[|j| - 1];
    TrimUnchanged(s, IsWhitespace);
    SplitAround(u, '=', j);
    SplitFree(u, '=');
    SplitFree(j, '=');
    TwoCharBorderFree(',', ' ');
    ComponentsOfJoin(rs, Separator);
  }

  /** No closed range starts below zero. */
  predicate NonNegativeClosed(ranges: seq<Range>) {
    forall i :: 0 <= i < |ranges| ==> (ranges[i].Closed? ==> 0 <= ranges[i].lower)
  }

  lemma ParsedRenderedRanges(ranges: seq<Range>)
    requires NonNegativeClosed(ranges)
    ensures NoTraps(RenderedRanges(ranges))
    ensures ParsedRanges(RenderedRanges(ranges)) == ranges
  {
    var rs := RenderedRanges(ranges);
    forall i | 0 <= i < |rs|
      ensures !HTTPRange.Traps(rs[i]) && HTTPRange.Parse(rs[i]) == Some(ranges[i])
    {
      HTTPRange.ParseFieldContent(ranges[i]);
    }
    CompactMapAll(HTTPRange.Parse, rs);
  }

  /**
   * Decoding the text of a field with at least one range and a plain unit
   * gives the field back, when no closed range starts below zero.
   */
  lemma DecodeFieldContent(f: RangeField)
    requires |f.ranges| >= 1 && PlainUnit(f.unit) && NonNegativeClosed(f.ranges)
    ensures Decodable(FieldContent(f))
    ensures Decode(FieldContent(f)) == Some(f)
  {
    ElementsOfFieldContent(f);
    ParsedRenderedRanges(f.ranges);
    RangeUnit.LowerBytes();
  }

  /** An empty range list renders `bytes=`, which has no second piece to read. */
  lemma EmptyRangesNotDecodable()
    ensures FieldContent(RangeField(RangeUnit.Bytes, [])) == "bytes="
    ensures !Decodable("bytes=")
  {
    var s: Text := "bytes=";
    assert s == RangeUnit.BytesText + ['='] + [];
    TrimUnchanged(s, IsWhitespace);
    SplitAround(RangeUnit.BytesText, '=', []);
    SplitFree(RangeUnit.BytesText, '=');
    SplitFree([], '=');
  }

  /** The field of `bytes=200-999, 2000-2499, 9500-, -500`. */
  function ByteRanges(): RangeField {
    RangeField(RangeUnit.Bytes, [
      HTTPRange.Closed(200, 999), HTTPRange.Closed(2000, 2499),
      HTTPRange.PartialFrom(9500), HTTPRange.FromEnd(500)])
  }

  lemma ClosedTexts()
    ensures HTTPRange.FieldContent(HTTPRange.Closed(200, 999)) == "200-999"
    ensures HTTPRange.FieldContent(HTTPRange.Closed(2000, 2499)) == "2000-2499"
  {
    assert NatText(20) == "20" && NatText(99) == "99";
    assert NatText(200) == "200" && NatText(249) == "249";
  }

  lemma OpenTexts()
    ensures HTTPRange.FieldContent(HTTPRange.PartialFrom(9500)) == "9500-"
    ensures HTTPRange.FieldContent(HTTPRange.FromEnd(500)) == "-500"
  {
    assert NatText(50) == "50" && NatText(950) == "950";
  }

  lemma RenderedByteRanges(ranges: seq<Range>)
    requires ranges == ByteRanges().ranges
    ensures RenderedRanges(ranges) == ["200-999", "2000-2499", "9500-", "-500"]
  {
    ClosedTexts();
    OpenTexts();
  }

  lemma JoinedByteRanges()
    ensures Join(["200-999", "2000-2499", "9500-", "-500"], Separator) == "200-999, 2000-2499, 9500-, -500"
  {
  }

  lemma PrefixedByteRanges(u: Text, j: Text)
    requires u == "bytes" && j == "200-999, 2000-2499, 9500-, -500"
    ensures u + "=" + j == "bytes=200-999, 2000-2499, 9500-, -500"
  {
  }

  /** The text of the field is `bytes=200-999, 2000-2499, 9500-, -500`. */
  lemma ByteRangesText()
    ensures FieldContent(ByteRanges()) == "bytes=200-999, 2000-2499, 9500-, -500"
  {
    RenderedByteRanges(ByteRanges().ranges);
    JoinedByteRanges();
    PrefixedByteRanges(RangeUnit.BytesText, Join(RenderedRanges(ByteRanges().ranges), Separator));
  }

  /** Decoding `bytes=200-999, 2000-2499, 9500-, -500` gives its four ranges. */
  lemma ByteRangesExample(s: Text)
    requires s == "bytes=200-999, 2000-2499, 9500-, -500"
    ensures Decodable(s) && Decode(s) == Some(ByteRanges())
  {
    ByteRangesText();
    DecodeFieldContent(ByteRanges());
  }

  lemma SkipTextParts(u: Text, j: Text)
    requires u == "bytes" && j == "0-1, x, 5-"
    ensures Join(["0-1", "x", "5-"], Separator) == j
    ensures u + "=" + j == "bytes=0-1, x, 5-"
  {
  }

  /** `bytes=0-1, x, 5-` has the unit `bytes` and three elements. */
  lemma SkipElements(s: Text)
    requires s == "bytes=0-1, x, 5-"
    ensures |Pieces(s)| >= 2 && Pieces(s)[0] == RangeUnit.BytesText
    ensures Elements(s) == ["0-1", "x", "5-"]
  {
    var rs: seq<Text> := ["0-1", "x", "5-"];
    SkipTextParts(RangeUnit.BytesText, "0-1, x, 5-");
    forall i | 0 <= i < |rs|
      ensures Edged(rs[i]) && '=' !in rs[i] && !Contains(rs[i], Separator)
    {
      NotContains(rs[i], Separator, ',');
    }
    ElementsOfText(RangeUnit.BytesText, rs);
  }

  /** `x` is no range, and decoding it does not stop the program. */
  lemma NotARange(e: Text)
    requires e == "x"
    ensures !HTTPRange.Traps(e) && HTTPRange.Parse(e).None?
  {
    HTTPRange.CleanedPlain(e);
    SplitFree(e, '-');
  }

  lemma SkipRangeTexts(a: Text, b: Text)
    requires a == "0-1" && b == "5-"
    ensures a == HTTPRange.FieldContent(HTTPRange.Closed(0, 1))
    ensures b == HTTPRange.FieldContent(HTTPRange.PartialFrom(5))
  {
  }

  /** Of the elements `0-1`, `x` and `5-` the middle one is dropped. */
  lemma SkipRanges(a: Text, x: Text, b: Text)
    requires a == "0-1" && x == "x" && b == "5-"
    ensures NoTraps([a, x, b])
    ensures ParsedRanges([a, x, b]) == [HTTPRange.Closed(0, 1), HTTPRange.PartialFrom(5)]
  {
    SkipRangeTexts(a, b);
    HTTPRange.ParseClosed(0, 1);
    HTTPRange.ParsePartialFrom(5);
    NotARange(x);
    ParsedRangesSingle(a);
    ParsedRangesSingle(b);
    ParsedRangesDrop([a], x, [b]);
    ParsedRangesAppend([a], [b]);
    assert [a] + [x] + [b] == [a, x, b];
  }

  /** Decoding `bytes=0-1, x, 5-` skips the element `x` and keeps the two ranges around it. */
  lemma SkipsNonRanges(s: Text)
    requires s == "bytes=0-1, x, 5-"
    ensures Decodable(s)
    ensures Decode(s) == Some(RangeField(RangeUnit.Bytes, [HTTPRange.Closed(0, 1), HTTPRange.PartialFrom(5)]))
  {
    SkipElements(s);
    SkipRanges("0-1", "x", "5-");
    RangeUnit.LowerBytes();
  }
}
