/**
 * The HTTP date (`HTTPDate`) that an `Expires` attribute carries, in the
 * IMF-fixdate form of section 7.1.1.1 of RFC 7231 that the formatter pattern
 * `E, dd MMM yyyy HH:mm:ss zzz` writes in GMT:
 * `Wed, 21 Oct 2015 07:28:00 GMT`.
 *
 * An `HTTPDate` compares by its rendered text, so the model represents a
 * date by that text: a date is a text of the IMF-fixdate shape, rendering is
 * the identity and parsing accepts exactly the texts of that shape.
 */
module HTTPDate {
  import opened Wrappers
  import opened AsciiText

  /** The abbreviated day names `E` writes. */
  predicate IsDayName(a: Char, b: Char, c: Char) {
    || (a == 'M' && b == 'o' && c == 'n') || (a == 'T' && b == 'u' && c == 'e')
    || (a == 'W' && b == 'e' && c == 'd') || (a == 'T' && b == 'h' && c == 'u')
    || (a == 'F' && b == 'r' && c == 'i') || (a == 'S' && b == 'a' && c == 't')
    || (a == 'S' && b == 'u' && c == 'n')
  }

  /** The abbreviated month names `MMM` writes. */
  predicate IsMonthName(a: Char, b: Char, c: Char) {
    || (a == 'J' && b == 'a' && c == 'n') || (a == 'F' && b == 'e' && c == 'b')
    || (a == 'M' && b == 'a' && c == 'r') || (a == 'A' && b == 'p' && c == 'r')
    || (a == 'M' && b == 'a' && c == 'y') || (a == 'J' && b == 'u' && c == 'n')
    || (a == 'J' && b == 'u' && c == 'l') || (a == 'A' && b == 'u' && c == 'g')
    || (a == 'S' && b == 'e' && c == 'p') || (a == 'O' && b == 'c' && c == 't')
    || (a == 'N' && b == 'o' && c == 'v') || (a == 'D' && b == 'e' && c == 'c')
  }

  /** The characters a rendered date is made of. */
  predicate IsDateChar(c: Char) {
    IsDigit(c) || ('A' <= c <= 'Z') || ('a' <= c <= 'z') || c == ',' || c == ' ' || c == ':'
  }

  /** `Ddd, dd Mon yyyy HH:mm:ss GMT`: 29 characters. */
  predicate IsFixdate(t: Text) {
    && |t| == 29
    && IsDayName(t[0], t[1], t[2]) && t[3] == ',' && t[4] == ' '
    && IsDigit(t[5]) && IsDigit(t[6]) && t[7] == ' '
    && IsMonthName(t[8], t[9], t[10]) && t[11] == ' '
    && IsDigit(t[12]) && IsDigit(t[13]) && IsDigit(t[14]) && IsDigit(t[15]) && t[16] == ' '
    && IsDigit(t[17]) && IsDigit(t[18]) && t[19] == ':'
    && IsDigit(t[20]) && IsDigit(t[21]) && t[22] == ':'
    && IsDigit(t[23]) && IsDigit(t[24])
    && t[25] == ' ' && t[26] == 'G' && t[27] == 'M' && t[28] == 'T'
  }

  /** `Thu, 01 Jan 1970 00:00:00 GMT`, the date of the zero timestamp. */
  function Epoch(): (t: Text)
    ensures IsFixdate(t)
  {
    var day: Text := "Thu, ";
    var date: Text := "01 Jan 1970 ";
    var time: Text := "00:00:00 GMT";
    assert IsDayName(day[0], day[1], day[2]);
    assert IsMonthName(date[3], date[4], date[5]);
    day + date + time
  }

  type Date = t: Text | IsFixdate(t) witness Epoch()

  /** `fieldContent`. */
  function FieldContent(d: Date): Text {
    d
  }

  /** `init?(_:)`: only texts of the IMF-fixdate shape are dates. */
  function Parse(t: Text): (r: Option<Date>)
    ensures r.Some? <==> IsFixdate(t)
    ensures r.Some? ==> FieldContent(r.value) == t
  {
    if IsFixdate(t) then Some(t) else None
  }

  /**
   * A rendered date holds no `=` and no `;`, and starts and ends with a
   * character that is not whitespace, so it survives inside a `Set-Cookie`
   * element.
   */
  lemma DateText(d: Date)
    ensures Parse(FieldContent(d)) == Some(d)
    ensures '=' !in FieldContent(d) && ';' !in FieldContent(d)
    ensures !IsWhitespace(FieldContent(d)[0]) && !IsWhitespace(FieldContent(d)[|FieldContent(d)| - 1])
  {
    forall i | 0 <= i < |d| ensures IsDateChar(d[i]) {
    }
  }
}
