// The value of a `Content-Range` field (`HTTPContentRangeField`): a unit, a
// space, the range `lo-hi` (or `*` for an unsatisfied range), a slash and the
// total size (or `*` when it is unknown), as in `bytes 200-1000/67589`.
//
// The decoder means to refuse a value whose range and size are both `*`, but
// its guard compares the two space-separated tokens (the unit and the rest)
// with `*`, so `bytes */*` gets through. `DecodeAsWritten` is the decoder as
// it stands; `Decode` also refuses that combination.
module HTTPContentRangeField {
  import opened Wrappers
  import opened AsciiText
  import RangeUnit

  const Star: Text := "*"

  /** The total length of the message, or `*` when unknown. */
  datatype Size = Known(size: int) | Unknown

  /** `Size.rawValue`, which is also its `description`. */
  function SizeText(s: Size): Text {
    match s
    case Known(n) => IntText(n)
    case Unknown => Star
  }

  /** `Size.init?(rawValue:)`: an integer, else `*`, else nothing. */
  function ParseSize(t: Text): (s: Option<Size>)
    ensures s == Some(Unknown) <==> t == Star
    ensures s.Some? ==> t != []
  {
    if ParseInt(t).Some? then Some(Known(ParseInt(t).value))
    else if t == Star then Some(Unknown)
    else None
  }

  lemma SizeRoundTrip(s: Size)
    ensures ParseSize(SizeText(s)) == Some(s)
  {
    if s.Known? {
      IntTextRoundTrip(s.size);
    }
  }

  datatype Bounds = Bounds(lower: int, upper: int)

  /** A `ClosedRange<Int>`. */
  type ClosedRange = b: Bounds | b.lower <= b.upper witness Bounds(0, 0)

  datatype ContentRangeField = ContentRangeField(unit: RangeUnit.Unit, range: Option<ClosedRange>, totalSize: Size)

  function RangeText(range: Option<ClosedRange>): Text {
    match range
    case None => Star
    case Some(b) => IntText(b.lower) + "-" + IntText(b.upper)
  }

  /** `fieldValue`: the rendered field. */
  function FieldContent(f: ContentRangeField): Text {
    RangeUnit.FieldContent(f.unit) + " " + RangeText(f.range) + "/" + SizeText(f.totalSize)
  }

  // ---------------------------------------------------------------------
  // init?(_:)

  /**
   * `split(maxSplits: 2, whereSeparator:)` on spaces of the trimmed text.
   * Trimmed text does not end in a space, so it splits into exactly two
   * pieces under the limit exactly when it does without one, and then into
   * the same two.
   */
  function Tokens(s: Text): seq<Text> {
    Split(TrimWhitespace(s), ' ')
  }

  /** The range and the size read from the text after the unit. */
  datatype RangePart = RangePart(range: Option<ClosedRange>, totalSize: Size)

  /** The bounds `lo-hi` are two integers with `lo` above `hi`: building `lo...hi` stops the program. */
  predicate RangePartTraps(rest: Text) {
    var portion := Components(rest, "/");
    && |portion| == 2 && ParseSize(portion[1]).Some?
    && var bounds := Components(portion[0], "-");
    && |bounds| == 2 && ParseInt(bounds[0]).Some? && ParseInt(bounds[1]).Some?
    && ParseInt(bounds[0]).value > ParseInt(bounds[1]).value
  }

  /**
   * The text after the unit: `range/size` with a size that decodes, and a
   * range that is two integers between a dash, or exactly `*`.
   */
  function DecodeRangePart(rest: Text): Option<RangePart>
    requires !RangePartTraps(rest)
  {
    var portion := Components(rest, "/");
    if |portion| != 2 || ParseSize(portion[1]).None? then None
    else
      var size := ParseSize(portion[1]).value;
      var bounds := Components(portion[0], "-");
      if |bounds| == 2 && ParseInt(bounds[0]).Some? && ParseInt(bounds[1]).Some? then
        Some(RangePart(Some(Bounds(ParseInt(bounds[0]).value, ParseInt(bounds[1]).value)), size))
      else if |bounds| == 1 && bounds[0] == Star then
        Some(RangePart(None, size))
      else
        None
  }

  /** The guard of the decoder: two tokens, and not the tokens `*` and `*`. */
  predicate GuardPasses(s: Text) {
    |Tokens(s)| == 2 && Tokens(s) != [Star, Star]
  }

  predicate Traps(s: Text) {
    GuardPasses(s) && RangePartTraps(Tokens(s)[1])
  }

  /** `init?(_:)` as it stands. */
  function DecodeAsWritten(s: Text): (f: Option<ContentRangeField>)
    requires !Traps(s)
    ensures f.Some? ==> |Tokens(s)| == 2 && f.value.unit == RangeUnit.Parse(Tokens(s)[0])
  {
    if !GuardPasses(s) then None
    else
      match DecodeRangePart(Tokens(s)[1])
      case None => None
      case Some(part) => Some(ContentRangeField(RangeUnit.Parse(Tokens(s)[0]), part.range, part.totalSize))
  }

  // An unsatisfied range of unknown size: `*/*`.
  predicate BothStars(f: ContentRangeField) {
    f.range.None? && f.totalSize.Unknown?
  }

  /**
   * The decoder with the check its guard is meant to make: the range and the
   * size are not both `*`. Otherwise it decodes as written.
   */
  function Decode(s: Text): (f: Option<ContentRangeField>)
    requires !Traps(s)
    ensures f.Some? ==> !BothStars(f.value)
    ensures f.Some? <==> DecodeAsWritten(s).Some? && !BothStars(DecodeAsWritten(s).value)
    ensures f.Some? ==> f == DecodeAsWritten(s)
  {
    var d := DecodeAsWritten(s);
    if d.Some? && BothStars(d.value) then None else d
  }

  // ---------------------------------------------------------------------
  // The guard as written

  /**
   * When the tokens are `*` and `*`, the text after the unit has no `/` and
   * fails anyway, so the guard never decides the outcome.
   */
  lemma GuardIsRedundant()
    ensures !RangePartTraps(Star) && DecodeRangePart(Star).None?
  {
    NotContains(Star, "/", '/');
    ComponentsOfFree(Star, "/");
  }

  // ---------------------------------------------------------------------
  // Round trips

  /** A unit that comes back from inside the field: non-empty, no space, no leading whitespace, not an `Other` spelling `bytes`. */
  predicate PlainUnit(u: RangeUnit.Unit) {
    var t := RangeUnit.FieldContent(u);
    t != [] && ' ' !in t && !IsWhitespace(t[0]) && (u.Other? ==> Lower(u.text) != RangeUnit.BytesText)
  }

  predicate NumberChar(c: Char) {
    IsDigit(c) || c == '-' || c == '*'
  }

  lemma SizeTextChars(s: Size)
    ensures SizeText(s) != [] && NumberChar(SizeText(s)[|SizeText(s)| - 1])
    ensures forall i :: 0 <= i < |SizeText(s)| ==> NumberChar(SizeText(s)[i])
  {
  }

  lemma RangeTextChars(range: Option<ClosedRange>)
    ensures forall i :: 0 <= i < |RangeText(range)| ==> NumberChar(RangeText(range)[i])
  {
    if range.Some? {
      var b := range.value;
      var t := RangeText(range);
      forall i | 0 <= i < |t| ensures NumberChar(t[i]) {
        if i > |IntText(b.lower)| {
          assert t[i] == IntText(b.upper)[i - |IntText(b.lower)| - 1];
        }
      }
    }
  }

  /** The text after the unit gives back the range and the size. */
  lemma DecodeRangeText(range: Option<ClosedRange>, size: Size)
    requires range.Some? ==> 0 <= range.value.lower
    ensures var rest := RangeText(range) + "/" + SizeText(size);
      !RangePartTraps(rest) && DecodeRangePart(rest) == Some(RangePart(range, size))
  {
    var r := RangeText(range);
    var z := SizeText(size);
    RangeTextChars(range);
    SizeTextChars(size);
    ComponentsAroundChar(r, '/', z);
    assert r + "/" + z == r + ['/'] + z;
    SizeRoundTrip(size);
    if range.Some? {
      var b := range.value;
      ComponentsAroundChar(IntText(b.lower), '-', IntText(b.upper));
      assert r == IntText(b.lower) + ['-'] + IntText(b.upper);
      IntTextRoundTrip(b.lower);
      IntTextRoundTrip(b.upper);
    } else {
      NotContains(Star, "-", '-');
      ComponentsOfFree(Star, "-");
    }
  }

  lemma TokensOfFieldContent(f: ContentRangeField)
    requires PlainUnit(f.unit)
    ensures Tokens(FieldContent(f)) == [RangeUnit.FieldContent(f.unit), RangeText(f.range) + "/" + SizeText(f.totalSize)]
  {
    var u := RangeUnit.FieldContent(f.unit);
    var rest := RangeText(f.range) + "/" + SizeText(f.totalSize);
    RangeTextChars(f.range);
    SizeTextChars(f.totalSize);
    assert ' ' !in rest by {
      forall i | 0 <= i < |rest| ensures NumberChar(rest[i]) || rest[i] == '/' {
        if i > |RangeText(f.range)| {
          assert rest[i] == SizeText(f.totalSize)[i - |RangeText(f.range)| - 1];
        }
      }
    }
    var s := FieldContent(f);
    assert s == u + [' '] + rest;
    assert s[|s| - 1] == SizeText(f.totalSize)[|SizeText(f.totalSize)| - 1];
    TrimUnchanged(s, IsWhitespace);
    SplitAround(u, ' ', rest);
    SplitFree(u, ' ');
    SplitFree(rest, ' ');
  }

  // The decoder as written gives back every field with a plain unit whose
  // range, if any, starts at zero or above, `*/*` included.
  lemma DecodeAsWrittenFieldContent(f: ContentRangeField)
    requires PlainUnit(f.unit) && (f.range.Some? ==> 0 <= f.range.value.lower)
    ensures !Traps(FieldContent(f))
    ensures DecodeAsWritten(FieldContent(f)) == Some(f)
  {
    var rest := RangeText(f.range) + "/" + SizeText(f.totalSize);
    TokensOfFieldContent(f);
    assert rest != Star by {
      assert rest[|RangeText(f.range)|] == '/';
    }
    DecodeRangeText(f.range, f.totalSize);
    PlainUnitParse(f.unit);
  }

  /** A plain unit decodes from its own text. */
  lemma PlainUnitParse(u: RangeUnit.Unit)
    requires PlainUnit(u)
    ensures RangeUnit.Parse(RangeUnit.FieldContent(u)) == u
  {
    RangeUnit.LowerBytes();
  }

  // The corrected decoder gives back every such field that is not `*/*`.
  lemma DecodeFieldContent(f: ContentRangeField)
    requires PlainUnit(f.unit) && (f.range.Some? ==> 0 <= f.range.value.lower)
    ensures !Traps(FieldContent(f))
    ensures Decode(FieldContent(f)) == if BothStars(f) then None else Some(f)
  {
    DecodeAsWrittenFieldContent(f);
  }

  /** A first token is a plain unit's text: non-empty, no space, no leading whitespace. */
  lemma FirstTokenPlain(s: Text)
    requires |Tokens(s)| >= 1
    ensures PlainUnit(RangeUnit.Parse(Tokens(s)[0]))
  {
    var t := TrimWhitespace(s);
    TrimEdges(s, IsWhitespace);
    SplitCharFree(t, ' ');
    assert Tokens(s)[0] in Tokens(s);
    SplitHead(t, ' ');
    RangeUnit.LowerBytes();
  }

  /** A decoded lower bound was written without a dash, so it is not negative. */
  lemma DecodedLowerNotNegative(rest: Text)
    requires !RangePartTraps(rest) && DecodeRangePart(rest).Some?
    ensures var r := DecodeRangePart(rest).value.range; r.Some? ==> 0 <= r.value.lower
  {
    var portion := Components(rest, "/");
    ComponentsCharFree(portion[0], '-');
  }

  /**
   * What the decoder as written accepts it gives back from the text of its
   * result: the unit is plain, a range is not below zero, and rendering
   * and decoding again change nothing.
   */
  lemma DecodeAsWrittenStable(s: Text)
    requires !Traps(s) && DecodeAsWritten(s).Some?
    ensures var f := DecodeAsWritten(s).value;
      && PlainUnit(f.unit) && (f.range.Some? ==> 0 <= f.range.value.lower)
      && !Traps(FieldContent(f)) && DecodeAsWritten(FieldContent(f)) == Some(f)
  {
    FirstTokenPlain(s);
    DecodedLowerNotNegative(Tokens(s)[1]);
    DecodeAsWrittenFieldContent(DecodeAsWritten(s).value);
  }

  /** Text after the unit without exactly one `/` is refused. */
  lemma SlashCountRefused(s: Text)
    requires |Tokens(s)| == 2 && Count(Tokens(s)[1], '/') != 1
    ensures !Traps(s) && DecodeAsWritten(s).None?
  {
    ComponentsCount(Tokens(s)[1], '/');
  }

  /** A range that is neither `*` nor holds exactly one `-` is refused. */
  lemma RangeShapeRefused(s: Text, r: Text, z: Text)
    requires |Tokens(s)| == 2 && Tokens(s)[1] == r + "/" + z && '/' !in r && '/' !in z
    requires r != Star && Count(r, '-') != 1
    ensures !Traps(s) && DecodeAsWritten(s).None?
  {
    assert r + "/" + z == r + ['/'] + z;
    ComponentsAroundChar(r, '/', z);
    ComponentsCount(r, '-');
    if Count(r, '-') == 0 {
      CountZero(r, '-');
      ContainsChar(r, '-');
      ComponentsOfFree(r, "-");
    }
  }

  /** A range `lo-hi` whose bounds are not both integers is refused. */
  lemma BoundsNotIntegersRefused(s: Text, lo: Text, hi: Text, z: Text)
    requires |Tokens(s)| == 2 && Tokens(s)[1] == lo + "-" + hi + "/" + z
    requires '/' !in lo && '/' !in hi && '/' !in z && '-' !in lo && '-' !in hi
    requires ParseInt(lo).None? || ParseInt(hi).None?
    ensures !Traps(s) && DecodeAsWritten(s).None?
  {
    var r := lo + "-" + hi;
    assert r == lo + ['-'] + hi;
    assert '/' !in r;
    assert lo + "-" + hi + "/" + z == r + ['/'] + z;
    ComponentsAroundChar(r, '/', z);
    ComponentsAroundChar(lo, '-', hi);
  }

  // ---------------------------------------------------------------------
  // Examples

  function TestUnit(): RangeUnit.Unit {
    RangeUnit.Other("test")
  }

  lemma TestUnitPlain()
    ensures PlainUnit(TestUnit())
  {
    assert Lower("test")[0] == 't';
  }

  function StarStar(): ContentRangeField {
    ContentRangeField(RangeUnit.Bytes, None, Unknown)
  }

  // The field whose text is `bytes */*`, with a plain unit.
  lemma StarStarText()
    ensures FieldContent(StarStar()) == "bytes */*"
    ensures PlainUnit(StarStar().unit)
  {
  }

  // `unit */*` is accepted as written, for every plain unit, and refused
  // by the corrected decoder.
  lemma StarStarAccepted(u: RangeUnit.Unit)
    requires PlainUnit(u)
    ensures var f := ContentRangeField(u, None, Unknown);
      && !Traps(FieldContent(f))
      && DecodeAsWritten(FieldContent(f)) == Some(f)
      && Decode(FieldContent(f)) == None
  {
    DecodeAsWrittenFieldContent(ContentRangeField(u, None, Unknown));
  }

  function BytesField(): ContentRangeField {
    ContentRangeField(RangeUnit.Bytes, Some(Bounds(200, 1000)), Known(67589))
  }

  function UnknownSizeField(): ContentRangeField {
    ContentRangeField(TestUnit(), Some(Bounds(200, 1000)), Unknown)
  }

  function UnsatisfiedField(): ContentRangeField {
    ContentRangeField(TestUnit(), None, Known(67589))
  }

  lemma ExampleNumbers()
    ensures RangeText(Some(Bounds(200, 1000))) == "200-1000"
    ensures SizeText(Known(67589)) == "67589"
  {
    assert NatText(20) == "20" && NatText(100) == "100";
    assert NatText(67) == "67" && NatText(675) == "675" && NatText(6758) == "6758";
  }

  lemma ExampleTexts()
    ensures FieldContent(BytesField()) == "bytes 200-1000/67589"
    ensures FieldContent(UnknownSizeField()) == "test 200-1000/*"
    ensures FieldContent(UnsatisfiedField()) == "test */67589"
  {
    ExampleNumbers();
    var r: Text := "200-1000";
    var z: Text := "67589";
    assert FieldContent(BytesField()) == RangeUnit.BytesText + " " + r + "/" + z;
    assert FieldContent(UnknownSizeField()) == "test" + " " + r + "/" + Star;
    assert FieldContent(UnsatisfiedField()) == "test" + " " + Star + "/" + z;
  }

  /**
   * `bytes 200-1000/67589`, `test 200-1000/*` and `test */67589` render
   * from and decode to their fields.
   */
  lemma Examples()
    ensures FieldContent(BytesField()) == "bytes 200-1000/67589"
    ensures FieldContent(UnknownSizeField()) == "test 200-1000/*"
    ensures FieldContent(UnsatisfiedField()) == "test */67589"
    ensures !Traps(FieldContent(BytesField())) && Decode(FieldContent(BytesField())) == Some(BytesField())
    ensures !Traps(FieldContent(UnknownSizeField())) && Decode(FieldContent(UnknownSizeField())) == Some(UnknownSizeField())
    ensures !Traps(FieldContent(UnsatisfiedField())) && Decode(FieldContent(UnsatisfiedField())) == Some(UnsatisfiedField())
  {
    ExampleTexts();
    TestUnitPlain();
    DecodeFieldContent(BytesField());
    DecodeFieldContent(UnknownSizeField());
    DecodeFieldContent(UnsatisfiedField());
  }
}
