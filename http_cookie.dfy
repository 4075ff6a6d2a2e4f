/**
 * One `name=value` cookie pair (`HTTPCookie`), loosely after section 4.1.1 of
 * RFC 6265. The value is stored unescaped and rendered percent-escaped; the
 * characters escaped are the controls, the whitespace and the token
 * separators of section 2.2 of RFC 2616.
 */
module HTTPCookie {
  import opened Wrappers
  import opened AsciiText

  /** The separator characters of section 2.2 of RFC 2616 (space and tab are whitespace). */
  const Separators: Text := "()<>@,;:\\\"/[]?={}"

  /** `allowedCharacters`: what the escape leaves as it is. */
  predicate Allowed(c: Char) {
    !IsControl(c) && !IsWhitespace(c) && c !in Separators
  }

  // ---------------------------------------------------------------------
  // Percent escaping (`addingPercentEncoding`, `removingPercentEncoding`)

  /** Upper-case hexadecimal digit, as Foundation writes escapes. */
  function HexDigit(d: nat): (c: Char)
    requires d < 16
    ensures Allowed(c)
  {
    if d < 10 then DigitChar(d) else ('A' as int + d - 10) as char
  }

  /** The value of a hexadecimal digit of either case. */
  function HexValue(c: Char): (r: Option<nat>)
    ensures r.Some? ==> r.value < 16
  {
    if '0' <= c <= '9' then Some(c as int - '0' as int)
    else if 'A' <= c <= 'F' then Some(c as int - 'A' as int + 10)
    else if 'a' <= c <= 'f' then Some(c as int - 'a' as int + 10)
    else None
  }

  lemma HexDigitValue(d: nat)
    requires d < 16
    ensures HexValue(HexDigit(d)) == Some(d)
  {
  }

  function EscapeChar(c: Char): Text {
    if Allowed(c) then [c] else ['%', HexDigit(c as int / 16), HexDigit(c as int % 16)]
  }

  /**
   * `_value`: percent-encodes every character that is not allowed. `%` is
   * allowed, so it passes unchanged, and the result never holds `=`, `;`,
   * `,`, `"`, whitespace or a control character.
   */
  function Escape(v: Text): (r: Text)
    ensures forall i :: 0 <= i < |r| ==> Allowed(r[i])
    ensures |r| >= |v|
    decreases |v|
  {
    if v == [] then [] else EscapeChar(v[0]) + Escape(v[1..])
  }

  /**
   * `removingPercentEncoding`: every `%` must start a two-digit hexadecimal
   * escape, otherwise there is no result. An escape of a byte outside ASCII
   * is treated as a failure too (the model has no UTF-8 decoding).
   */
  function Unescape(s: Text): Option<Text>
    decreases |s|
  {
    if s == [] then Some([])
    else if s[0] != '%' then
      match Unescape(s[1..])
      case None => None
      case Some(t) => Some([s[0]] + t)
    else if |s| >= 3 && HexValue(s[1]).Some? && HexValue(s[2]).Some?
            && 16 * HexValue(s[1]).value + HexValue(s[2]).value < 128 then
      var c := (16 * HexValue(s[1]).value + HexValue(s[2]).value) as char;
      match Unescape(s[3..])
      case None => None
      case Some(t) => Some([c] + t)
    else None
  }

  /** The escape changes a value exactly when some character of it is not allowed. */
  lemma {:induction false} EscapeIdentityIff(v: Text)
    ensures Escape(v) == v <==> forall i :: 0 <= i < |v| ==> Allowed(v[i])
    decreases |v|
  {
    if v != [] {
      EscapeIdentityIff(v[1..]);
      if Allowed(v[0]) {
        assert Escape(v) == [v[0]] + Escape(v[1..]);
        assert v == [v[0]] + v[1..];
        assert (forall i :: 0 <= i < |v| ==> Allowed(v[i])) <==>
               (forall i :: 0 <= i < |v[1..]| ==> Allowed(v[1..][i]));
      } else {
        assert |Escape(v)| == 3 + |Escape(v[1..])|;
      }
    }
  }

  /** Text without `%` is its own unescaping. */
  lemma {:induction false} UnescapePlain(s: Text)
    requires '%' !in s
    ensures Unescape(s) == Some(s)
    decreases |s|
  {
    if s != [] {
      UnescapePlain(s[1..]);
      assert [s[0]] + s[1..] == s;
    }
  }

  /** Unescaping undoes escaping for values without `%`. */
  lemma {:induction false} UnescapeEscape(v: Text)
    requires '%' !in v
    ensures Unescape(Escape(v)) == Some(v)
    decreases |v|
  {
    if v != [] {
      UnescapeEscape(v[1..]);
      var c := v[0];
      var rest := Escape(v[1..]);
      var e := EscapeChar(c) + rest;
      assert Escape(v) == e;
      if Allowed(c) {
        assert e[0] == c && e[1..] == rest;
      } else {
        HexDigitValue(c as int / 16);
        HexDigitValue(c as int % 16);
        assert e[0] == '%' && e[3..] == rest;
        assert ((16 * (c as int / 16) + c as int % 16) as char) == c;
      }
      assert [c] + v[1..] == v;
    }
  }

  // ---------------------------------------------------------------------
  // The cookie

  datatype Cookie = Cookie(name: Text, value: Text)

  predicate IsQuote(c: Char) {
    c == '"'
  }

  /**
   * `init(name:value:)`: the value is percent-decoded (kept verbatim when it
   * does not decode) and stripped of every leading and trailing `"`.
   */
  function MakeCookie(name: Text, value: Text): (c: Cookie)
    ensures c.name == name
    ensures c.value == [] || (c.value[0] != '"' && c.value[|c.value| - 1] != '"')
  {
    TrimEdges(Unescape(value).GetOr(value), IsQuote);
    Cookie(name, Trim(Unescape(value).GetOr(value), IsQuote))
  }

  /** `fieldContent`: `name=escaped-value`. */
  function FieldContent(c: Cookie): Text {
    c.name + "=" + Escape(c.value)
  }

  /**
   * `init?(_:)`: trims whitespace, splits on every `=` and needs exactly two
   * pieces, the name and the raw value.
   */
  function Decode(s: Text): Option<Cookie> {
    var split := Components(TrimWhitespace(s), "=");
    if |split| == 2 then Some(MakeCookie(split[0], split[1])) else None
  }

  /** A plain value (no `%`, no surrounding quotes) is stored exactly as given. */
  lemma MakeCookiePlain(name: Text, value: Text)
    requires '%' !in value
    requires value == [] || (value[0] != '"' && value[|value| - 1] != '"')
    ensures MakeCookie(name, value) == Cookie(name, value)
  {
    UnescapePlain(value);
    TrimUnchanged(value, IsQuote);
  }

  /** A stored value that does not unescape is stripped of quotes only. */
  lemma MakeCookieUndecodable(name: Text, value: Text)
    requires Unescape(value).None?
    ensures MakeCookie(name, value).value == Trim(value, IsQuote)
    ensures value == [] || (value[0] != '"' && value[|value| - 1] != '"') ==> MakeCookie(name, value).value == value
  {
    if value == [] || (value[0] != '"' && value[|value| - 1] != '"') {
      TrimUnchanged(value, IsQuote);
    }
  }

  /** Trimming whitespace never removes an `=`. */
  lemma TrimKeepsEquals(s: Text)
    ensures Count(TrimWhitespace(s), '=') == Count(s, '=')
  {
    CountTrimStart(s, IsWhitespace, '=');
    CountTrimEnd(TrimStart(s, IsWhitespace), IsWhitespace, '=');
  }

  /** Decoding succeeds exactly when the text holds one `=`. */
  lemma DecodeNeedsOneEquals(s: Text)
    ensures Decode(s).Some? <==> Count(s, '=') == 1
  {
    ComponentsCount(TrimWhitespace(s), '=');
    TrimKeepsEquals(s);
  }

  /** A raw value containing `=` is rejected, whatever the name. */
  lemma DecodeRejectsEqualsInValue(name: Text, value: Text)
    requires '=' in value
    ensures Decode(name + "=" + value) == None
  {
    DecodeNeedsOneEquals(name + "=" + value);
    CountAppend(name + "=", value, '=');
    CountAppend(name, "=", '=');
    CountZero(value, '=');
  }

  /** A successful decode of `name=value` is the cookie built from `name` and the raw `value`. */
  lemma DecodeNameValue(name: Text, value: Text)
    requires '=' !in name && '=' !in value
    requires name == [] || !IsWhitespace(name[0])
    requires value == [] || !IsWhitespace(value[|value| - 1])
    ensures Decode(name + "=" + value) == Some(MakeCookie(name, value))
  {
    var s := name + "=" + value;
    TrimUnchanged(s, IsWhitespace);
    ComponentsAroundChar(name, '=', value);
  }

  /**
   * Round trip: rendering then decoding gives the cookie back when the name
   * has no `=` and no leading whitespace and the value has no `%` and no
   * surrounding quotes (which `MakeCookie` guarantees).
   */
  lemma DecodeFieldContent(c: Cookie)
    requires '=' !in c.name
    requires c.name == [] || !IsWhitespace(c.name[0])
    requires '%' !in c.value
    requires c.value == [] || (c.value[0] != '"' && c.value[|c.value| - 1] != '"')
    ensures Decode(FieldContent(c)) == Some(c)
  {
    var e := Escape(c.value);
    assert '=' !in e;
    assert e == [] || !IsWhitespace(e[|e| - 1]);
    DecodeNameValue(c.name, e);
    UnescapeEscape(c.value);
    TrimUnchanged(c.value, IsQuote);
  }

  /** A name without whitespace renders to text without whitespace: the escaped value has none. */
  lemma FieldContentHasNoWhitespace(c: Cookie)
    requires forall i :: 0 <= i < |c.name| ==> !IsWhitespace(c.name[i])
    ensures forall i :: 0 <= i < |FieldContent(c)| ==> !IsWhitespace(FieldContent(c)[i])
  {
    var e := Escape(c.value);
    var t := FieldContent(c);
    forall i | 0 <= i < |t| ensures !IsWhitespace(t[i]) {
      if i < |c.name| {
        assert t[i] == c.name[i];
      } else if i > |c.name| {
        assert t[i] == e[i - |c.name| - 1];
      }
    }
  }

  /** A name the round trip preserves: no `=` and no whitespace. */
  predicate PlainName(k: Text) {
    '=' !in k && forall i :: 0 <= i < |k| ==> !IsWhitespace(k[i])
  }

  /** A stored value the round trip preserves: no `%` and no surrounding quotes. */
  predicate PlainValue(v: Text) {
    '%' !in v && (v == [] || (v[0] != '"' && v[|v| - 1] != '"'))
  }

  /** A plain cookie renders to text without whitespace that decodes back to it. */
  lemma PlainCookieText(c: Cookie)
    requires PlainName(c.name) && PlainValue(c.value)
    ensures Decode(FieldContent(c)) == Some(c)
    ensures Edged(FieldContent(c)) && ' ' !in FieldContent(c)
  {
    DecodeFieldContent(c);
    FieldContentHasNoWhitespace(c);
  }

  /** The rendered text determines the name: the name is everything before the last `=`. */
  lemma FieldContentDeterminesName(c: Cookie, d: Cookie)
    requires FieldContent(c) == FieldContent(d)
    ensures c.name == d.name
  {
    var t := FieldContent(c);
    var ec, ed := Escape(c.value), Escape(d.value);
    forall i | |c.name| < i < |t| ensures t[i] != '=' {
      assert t[i] == ec[i - |c.name| - 1];
    }
    forall i | |d.name| < i < |t| ensures t[i] != '=' {
      assert t[i] == ed[i - |d.name| - 1];
    }
    assert t[|c.name|] == '=' && t[|d.name|] == '=';
    assert |c.name| == |d.name|;
    assert c.name == t[..|c.name|] && d.name == t[..|d.name|];
  }

  lemma UnescapeSpace()
    ensures Unescape("%20") == Some(" ")
  {
    var esc: Text := "%20";
    assert HexValue('2') == Some(2) && HexValue('0') == Some(0);
    assert esc[3..] == [] && Unescape([]) == Some([]);
    assert Unescape(esc) == Some([32 as char] + []);
    assert [32 as char] + [] == " ";
  }

  lemma UnescapeEscapedPercent()
    ensures Unescape("%2520") == Some("%20")
  {
    var twice: Text := "%2520";
    assert HexValue('2') == Some(2) && HexValue('5') == Some(5);
    assert twice[3..] == "20";
    UnescapePlain("20");
    assert Unescape(twice) == Some([37 as char] + "20");
    assert [37 as char] + "20" == "%20";
  }

  lemma EscapeSpace()
    ensures Escape(" ") == "%20"
  {
    var sp: Text := " ";
    assert !Allowed(' ');
    assert EscapeChar(' ') == ['%', HexDigit(2), HexDigit(0)];
    assert Escape(sp) == EscapeChar(' ') + Escape([]);
  }

  /**
   * Text equality is weaker than structural equality: a stored space and a
   * stored `%20` render alike, and `MakeCookie` produces both.
   */
  lemma EscapedAndPlainPercentRenderAlike()
    ensures MakeCookie("a", "%20") == Cookie("a", " ")
    ensures MakeCookie("a", "%2520") == Cookie("a", "%20")
    ensures FieldContent(Cookie("a", " ")) == FieldContent(Cookie("a", "%20"))
    ensures Cookie("a", " ") != Cookie("a", "%20")
  {
    EscapeSpace();
    var pct: Text := "%20";
    assert Allowed(pct[0]) && Allowed(pct[1]) && Allowed(pct[2]);
    EscapeIdentityIff(pct);
    UnescapeSpace();
    UnescapeEscapedPercent();
    TrimUnchanged(" ", IsQuote);
    TrimUnchanged(pct, IsQuote);
  }
}
