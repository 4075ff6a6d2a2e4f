/**
 * A single range of a `Range` field (`HTTPRange`): a closed range `lo-hi`, a
 * range open at the top `lo-`, or a range counted from the end `-k`.
 *
 * `fromEnd(k)` is a zero-based index from the end: it stands for the last
 * k + 1 elements, one more than the last-k-bytes reading of a suffix range in
 * section 14.1.2 of RFC 9110.
 */
module HTTPRange {
  import opened Wrappers
  import opened AsciiText

  datatype RangeValue =
    | Closed(lower: int, upper: int)
    | PartialFrom(lower: int)
    | FromEnd(index: int)

  /** A `ClosedRange` never has its lower bound above its upper bound. */
  type Range = r: RangeValue | r.Closed? ==> r.lower <= r.upper witness FromEnd(0)

  /** `rawValue`, which is also `fieldContent` and `description`. */
  function FieldContent(r: Range): Text {
    match r
    case Closed(lo, hi) => IntText(lo) + "-" + IntText(hi)
    case PartialFrom(lo) => IntText(lo) + "-"
    case FromEnd(k) => "-" + IntText(k)
  }

  // ---------------------------------------------------------------------
  // init?(rawValue:)

  /** The text the decoder reads: after the last `=`, up to the first `, `. */
  function Cleaned(raw: Text): Text {
    var pieces := Components(raw, "=");
    Components(pieces[|pieces| - 1], ", ")[0]
  }

  /** Both of exactly two pieces are integers. */
  predicate BoundsParse(split: seq<Text>) {
    |split| == 2 && ParseInt(split[0]).Some? && ParseInt(split[1]).Some?
  }

  /**
   * The decoder builds `lower...upper` from two integers with lower above
   * upper, which stops the program (a `ClosedRange` precondition).
   */
  predicate CleanedTraps(cleaned: Text) {
    var split := Split(cleaned, '-');
    BoundsParse(split) && ParseInt(split[0]).value > ParseInt(split[1]).value
  }

  predicate Traps(raw: Text) {
    CleanedTraps(Cleaned(raw))
  }

  /**
   * The three shapes in the order the decoder tries them: two integers
   * between dashes, a leading dash before an integer, an integer before a
   * trailing dash.
   */
  function FromCleaned(cleaned: Text): (r: Option<Range>)
    requires !CleanedTraps(cleaned)
    ensures r.Some? && r.value.FromEnd? ==> cleaned != [] && cleaned[0] == '-'
    ensures r.Some? && r.value.PartialFrom? ==> cleaned != [] && cleaned[|cleaned| - 1] == '-'
    ensures r.Some? && r.value.Closed? ==> |Split(cleaned, '-')| == 2
    ensures r.Some? && r.value.Closed? ==> 0 <= r.value.lower
  {
    var split := Split(cleaned, '-');
    SplitCharFree(cleaned, '-');
    if BoundsParse(split) then
      assert split[0] in split;
      Some(Closed(ParseInt(split[0]).value, ParseInt(split[1]).value))
    else if |cleaned| > 0 && cleaned[0] == '-' && ParseInt(cleaned[1..]).Some? then
      Some(FromEnd(ParseInt(cleaned[1..]).value))
    else if |cleaned| > 0 && cleaned[|cleaned| - 1] == '-' && ParseInt(cleaned[..|cleaned| - 1]).Some? then
      Some(PartialFrom(ParseInt(cleaned[..|cleaned| - 1]).value))
    else
      None
  }

  /**
   * `init?(rawValue:)`, and `init?(_:)` with it. The bounds of a closed range
   * are read between dashes, so they carry no sign: only `fromEnd` and
   * `partialFrom` can come out negative (`--5`, `-5-`).
   */
  function Parse(raw: Text): (r: Option<Range>)
    requires !Traps(raw)
    ensures r.Some? && r.value.Closed? ==> 0 <= r.value.lower <= r.value.upper
    ensures r.Some? && r.value.FromEnd? ==> Cleaned(raw) != [] && Cleaned(raw)[0] == '-'
    ensures r.Some? && r.value.PartialFrom? ==> Cleaned(raw) != [] && Cleaned(raw)[|Cleaned(raw)| - 1] == '-'
  {
    FromCleaned(Cleaned(raw))
  }

  // ---------------------------------------------------------------------
  // What the rendering is made of

  predicate RangeChar(c: Char) {
    IsDigit(c) || c == '-'
  }

  /** A rendered range is non-empty and made of digits and dashes only. */
  lemma FieldContentChars(r: Range)
    ensures FieldContent(r) != []
    ensures forall i :: 0 <= i < |FieldContent(r)| ==> RangeChar(FieldContent(r)[i])
  {
    var t := FieldContent(r);
    match r
    case Closed(lo, hi) =>
      forall i | 0 <= i < |t| ensures RangeChar(t[i]) {
        if i > |IntText(lo)| {
          assert t[i] == IntText(hi)[i - |IntText(lo)| - 1];
        }
      }
    case PartialFrom(lo) =>
    case FromEnd(k) =>
      forall i | 0 <= i < |t| ensures RangeChar(t[i]) {
        if i > 0 {
          assert t[i] == IntText(k)[i - 1];
        }
      }
  }

  /** `Int` interpolation puts a dash only in front, so it is one dash-free piece. */
  lemma SplitIntText(n: int)
    ensures Split(IntText(n), '-') == [NatText(if n < 0 then -n else n)]
  {
    if n < 0 {
      assert IntText(n) == [] + ['-'] + NatText(-n);
      SplitAround([], '-', NatText(-n));
      SplitFree([], '-');
      SplitFree(NatText(-n), '-');
    } else {
      SplitFree(NatText(n), '-');
    }
  }

  /** Text with no `=` and no `, ` is read whole. */
  lemma CleanedPlain(t: Text)
    requires '=' !in t && ',' !in t
    ensures Cleaned(t) == t
  {
    NotContains(t, "=", '=');
    ComponentsOfFree(t, "=");
    NotContains(t, ", ", ',');
    ComponentsOfFree(t, ", ");
  }

  /**
   * Decoding reads only the text after the last `=` and before the first
   * `, ` that follows it.
   */
  lemma ParseReadsCleanedPart(p: Text, t: Text, q: Text)
    requires '=' !in t && '=' !in q && ',' !in t
    ensures Cleaned(p + "=" + t + ", " + q) == t
    ensures Traps(p + "=" + t + ", " + q) == Traps(t)
    ensures !Traps(t) ==> Parse(p + "=" + t + ", " + q) == Parse(t)
  {
    var rest := t + ", " + q;
    assert p + "=" + t + ", " + q == p + "=" + rest;
    ComponentsAppend(p, "=", rest);
    NotContains(rest, "=", '=');
    ComponentsOfFree(rest, "=");
    TwoCharBorderFree(',', ' ');
    assert [',', ' '] == ", ";
    ComponentsAppend(t, ", ", q);
    NotContains(t, ", ", ',');
    ComponentsOfFree(t, ", ");
    CleanedPlain(t);
  }

  // ---------------------------------------------------------------------
  // Round trips

  lemma ParseClosed(lo: int, hi: int)
    requires 0 <= lo <= hi
    ensures !Traps(FieldContent(Closed(lo, hi)))
    ensures Parse(FieldContent(Closed(lo, hi))) == Some(Closed(lo, hi))
  {
    var t := FieldContent(Closed(lo, hi));
    FieldContentChars(Closed(lo, hi));
    CleanedPlain(t);
    SplitAround(IntText(lo), '-', IntText(hi));
    SplitIntText(lo);
    SplitIntText(hi);
    IntTextRoundTrip(lo);
    IntTextRoundTrip(hi);
    assert Split(t, '-') == [IntText(lo), IntText(hi)];
  }

  lemma ParsePartialFrom(lo: int)
    ensures !Traps(FieldContent(PartialFrom(lo)))
    ensures Parse(FieldContent(PartialFrom(lo))) == Some(PartialFrom(lo))
  {
    var t := FieldContent(PartialFrom(lo));
    FieldContentChars(PartialFrom(lo));
    CleanedPlain(t);
    assert t == IntText(lo) + ['-'] + [];
    SplitAround(IntText(lo), '-', []);
    SplitIntText(lo);
    SplitFree([], '-');
    assert |Split(t, '-')| == 1;
    assert t[..|t| - 1] == IntText(lo);
    IntTextRoundTrip(lo);
    assert t[1..][|t| - 2] == '-';
    assert ParseInt(t[1..]).None?;
  }

  lemma ParseFromEnd(k: int)
    ensures !Traps(FieldContent(FromEnd(k)))
    ensures Parse(FieldContent(FromEnd(k))) == Some(FromEnd(k))
  {
    var t := FieldContent(FromEnd(k));
    FieldContentChars(FromEnd(k));
    CleanedPlain(t);
    assert t == [] + ['-'] + IntText(k);
    SplitAround([], '-', IntText(k));
    SplitIntText(k);
    SplitFree([], '-');
    assert |Split(t, '-')| == 1;
    assert t[1..] == IntText(k);
    IntTextRoundTrip(k);
  }

  /**
   * Decoding a rendered range gives it back when a closed range starts at
   * zero or above; ranges open at the top and ranges from the end come back
   * for every integer.
   */
  lemma ParseFieldContent(r: Range)
    requires r.Closed? ==> 0 <= r.lower
    ensures !Traps(FieldContent(r))
    ensures Parse(FieldContent(r)) == Some(r)
  {
    match r
    case Closed(lo, hi) => ParseClosed(lo, hi);
    case PartialFrom(lo) => ParsePartialFrom(lo);
    case FromEnd(k) => ParseFromEnd(k);
  }

  /**
   * A closed range with a negative lower bound loses its signs: the dashes
   * are read as separators, so decoding its text gives the range between the
   * two magnitudes, and stops the program when those are out of order.
   */
  lemma ParseNegativeClosed(lo: int, hi: int)
    requires lo < 0 && lo <= hi
    ensures var m := if hi < 0 then -hi else hi;
      && (Traps(FieldContent(Closed(lo, hi))) <==> -lo > m)
      && (-lo <= m ==> Parse(FieldContent(Closed(lo, hi))) == Some(Closed(-lo, m)))
  {
    NegativeClosedSplit(lo, hi);
    ParseTwoMagnitudes(FieldContent(Closed(lo, hi)), -lo, if hi < 0 then -hi else hi);
  }

  /** The text of a closed range with a negative lower bound is read whole and splits into the two magnitudes. */
  lemma NegativeClosedSplit(lo: int, hi: int)
    requires lo < 0 && lo <= hi
    ensures Cleaned(FieldContent(Closed(lo, hi))) == FieldContent(Closed(lo, hi))
    ensures Split(FieldContent(Closed(lo, hi)), '-') == [IntText(-lo), IntText(if hi < 0 then -hi else hi)]
  {
    var t := FieldContent(Closed(lo, hi));
    FieldContentChars(Closed(lo, hi));
    CleanedPlain(t);
    SplitAround(IntText(lo), '-', IntText(hi));
    SplitIntText(lo);
    SplitIntText(hi);
  }

  /** Text read whole that splits into two numbers decodes to the range between them, or stops the program when they are out of order. */
  lemma ParseTwoMagnitudes(t: Text, a: nat, b: nat)
    requires Cleaned(t) == t && Split(t, '-') == [IntText(a), IntText(b)]
    ensures Traps(t) <==> a > b
    ensures a <= b ==> Parse(t) == Some(Closed(a, b))
  {
    IntTextRoundTrip(a);
    IntTextRoundTrip(b);
  }

  /** `-3--1` is the text of `closed(-3 ... -1)`, and decoding it stops the program. */
  lemma NegativeClosedTraps()
    ensures Traps(FieldContent(Closed(-3, -1)))
  {
    ParseNegativeClosed(-3, -1);
  }

  // ---------------------------------------------------------------------
  // relative(to:) and contains(_:)

  /** `Swift.Range<Int>`: the indices from `start` up to, not including, `end`. */
  datatype Interval = Interval(start: int, end: int)

  /**
   * Whether resolving against a collection ending at `endIndex` keeps to the
   * preconditions of `..<` and `...`: a range open at the top must start at
   * or before the end, and `fromEnd(k)` must not start after it.
   */
  predicate Resolvable(r: Range, endIndex: int) {
    match r
    case Closed(_, _) => true
    case PartialFrom(lo) => lo <= endIndex
    case FromEnd(k) => k >= -1
  }

  /**
   * `relative(to:)` over a collection indexed by integers that steps by one
   * and ends at `endIndex`.
   */
  function Relative(r: Range, endIndex: int): (i: Interval)
    requires Resolvable(r, endIndex)
    ensures i.start <= i.end
    ensures !r.Closed? ==> i.end == endIndex
    ensures r.FromEnd? ==> i.end - i.start == r.index + 1
  {
    match r
    case Closed(lo, hi) => Interval(lo, hi + 1)
    case PartialFrom(lo) => Interval(lo, endIndex)
    case FromEnd(k) => Interval(endIndex - (k + 1), endIndex)
  }

  /**
   * `contains(_:)`. For `fromEnd(k)` it builds `-k...0` (which needs k at or
   * above zero) and asks whether `-k` is in it, so the element plays no part.
   */
  function Contains(r: Range, element: int): (b: bool)
    requires r.FromEnd? ==> r.index >= 0
    ensures r.FromEnd? ==> b
  {
    match r
    case Closed(lo, hi) => lo <= element <= hi
    case PartialFrom(lo) => lo <= element
    case FromEnd(k) => -k <= -k <= 0
  }

  /**
   * For closed ranges and ranges open at the top, the resolved interval holds
   * exactly the elements the range contains, cut at the end of the collection
   * for a range open at the top.
   */
  lemma RelativeMatchesContains(r: Range, endIndex: int, element: int)
    requires !r.FromEnd? && Resolvable(r, endIndex)
    ensures var i := Relative(r, endIndex);
      i.start <= element < i.end <==> Contains(r, element) && (r.PartialFrom? ==> element < endIndex)
  {
  }

  /** `fromEnd` contains even an element outside the interval it resolves to. */
  lemma FromEndContainsOutside(k: nat, endIndex: int)
    ensures Contains(FromEnd(k), endIndex) && Relative(FromEnd(k), endIndex).end == endIndex
  {
  }

  /** Resolving `closed(0...4)`, `partialFrom(5...)` and `fromEnd(4)` against eleven elements. */
  lemma RelativeExamples()
    ensures Relative(Closed(0, 4), 11) == Interval(0, 5)
    ensures Relative(PartialFrom(5), 11) == Interval(5, 11)
    ensures Relative(FromEnd(4), 11) == Interval(6, 11)
  {
  }

  /** `-500` over 1000 elements covers the last 501 of them. */
  lemma SuffixCoversOneMore()
    ensures !Traps("-500") && Parse("-500") == Some(FromEnd(500))
    ensures Relative(FromEnd(500), 1000) == Interval(499, 1000)
  {
    assert FieldContent(FromEnd(500)) == "-500";
    ParseFieldContent(FromEnd(500));
  }
}
