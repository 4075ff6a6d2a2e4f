/**
 * The attributes of a `Set-Cookie` header (`HTTPSetCookieField.Attribute`),
 * after section 4.1 of RFC 6265: `Domain=`, `Expires=`, `HttpOnly`,
 * `Max-Age=`, `Partitioned`, `Path=`, `Secure` and `SameSite=`. An attribute
 * is its text (`rawValue`): rendering writes the key, then `=` and the
 * payload for the kinds that carry one; parsing splits the trimmed text on
 * every `=` and looks the key up case-sensitively.
 */
module SetCookieAttributes {
  import opened Wrappers
  import opened AsciiText
  import HTTPDate

  // ---------------------------------------------------------------------
  // SameSite values

  datatype SameSiteValue = Strict | Lax | None

  /** `rawValue`. */
  function SameSiteText(v: SameSiteValue): Text {
    match v
    case Strict => "Strict"
    case Lax => "Lax"
    case None => "None"
  }

  /** `init?(rawValue:)`: exactly `Strict`, `Lax` or `None`, case included. */
  function ParseSameSite(t: Text): (r: Option<SameSiteValue>)
    ensures r.Some? ==> SameSiteText(r.value) == t
  {
    if t == "Strict" then Some(Strict)
    else if t == "Lax" then Some(Lax)
    else if t == "None" then Some(SameSiteValue.None)
    else Option.None
  }

  lemma SameSiteRoundTrip(v: SameSiteValue)
    ensures ParseSameSite(SameSiteText(v)) == Some(v)
  {
  }

  // ---------------------------------------------------------------------
  // Attribute names

  datatype Name = DomainName | ExpiresName | HttpOnlyName | MaxAgeName
                | PartitionedName | PathName | SecureName | SameSiteName

  /** `Name.rawValue`: the key as written in the header. */
  function NameText(n: Name): Text {
    match n
    case DomainName => "Domain"
    case ExpiresName => "Expires"
    case HttpOnlyName => "HttpOnly"
    case MaxAgeName => "Max-Age"
    case PartitionedName => "Partitioned"
    case PathName => "Path"
    case SecureName => "Secure"
    case SameSiteName => "SameSite"
  }

  /** `Name(rawValue:)`: a case-sensitive lookup of the key. */
  function ParseName(t: Text): (r: Option<Name>)
    ensures r.Some? ==> NameText(r.value) == t
  {
    if t == "Domain" then Some(DomainName)
    else if t == "Expires" then Some(ExpiresName)
    else if t == "HttpOnly" then Some(HttpOnlyName)
    else if t == "Max-Age" then Some(MaxAgeName)
    else if t == "Partitioned" then Some(PartitionedName)
    else if t == "Path" then Some(PathName)
    else if t == "Secure" then Some(SecureName)
    else if t == "SameSite" then Some(SameSiteName)
    else Option.None
  }

  lemma ParseNameText(n: Name)
    ensures ParseName(NameText(n)) == Some(n)
  {
  }

  /** `hasAssociatedValue`. */
  predicate HasAssociatedValue(n: Name) {
    n in {DomainName, ExpiresName, MaxAgeName, PathName, SameSiteName}
  }

  /** `splitStrElCount`: the number of `=`-separated pieces of the attribute's text. */
  function SplitCount(n: Name): nat {
    if HasAssociatedValue(n) then 2 else 1
  }

  // ---------------------------------------------------------------------
  // Attributes

  datatype Attribute =
    | Domain(domain: Text)
    | Expires(date: HTTPDate.Date)
    | HttpOnly
    | MaxAge(seconds: int)
    | Partitioned
    | Path(path: Text)
    | Secure
    | SameSite(sameSite: SameSiteValue)

  /** `name`: the kind of an attribute, whatever its payload. */
  function Kind(a: Attribute): Name {
    match a
    case Domain(_) => DomainName
    case Expires(_) => ExpiresName
    case HttpOnly => HttpOnlyName
    case MaxAge(_) => MaxAgeName
    case Partitioned => PartitionedName
    case Path(_) => PathName
    case Secure => SecureName
    case SameSite(_) => SameSiteName
  }

  /** The payload text of an attribute that carries one. */
  function Payload(a: Attribute): Text
    requires HasAssociatedValue(Kind(a))
  {
    match a
    case Domain(d) => d
    case Expires(date) => HTTPDate.FieldContent(date)
    case MaxAge(n) => IntText(n)
    case Path(p) => p
    case SameSite(v) => SameSiteText(v)
  }

  /** `rawValue` (and so `fieldContent`): `Key=payload`, or the bare key for a flag. */
  function Render(a: Attribute): (r: Text)
    ensures HasAssociatedValue(Kind(a)) ==> r == NameText(Kind(a)) + "=" + Payload(a)
    ensures !HasAssociatedValue(Kind(a)) ==> r == NameText(Kind(a))
  {
    var key := NameText(Kind(a));
    match a
    case Domain(d) => key + "=" + d
    case Expires(date) => key + "=" + HTTPDate.FieldContent(date)
    case MaxAge(n) => key + "=" + IntText(n)
    case Path(p) => key + "=" + p
    case SameSite(v) => key + "=" + SameSiteText(v)
    case _ => key
  }

  /** The `=`-separated pieces `init?(rawValue:)` works on. */
  function Pieces(t: Text): seq<Text> {
    Components(TrimWhitespace(t), "=")
  }

  /**
   * `init?(rawValue:)`: the first piece must be a known key and the piece
   * count must be the key's; the payload must parse for `Expires`
   * (an HTTP date), `Max-Age` (an integer) and `SameSite`.
   */
  function Parse(t: Text): (r: Option<Attribute>)
    ensures r.Some? ==> ParseName(Pieces(t)[0]) == Some(Kind(r.value))
    ensures r.Some? ==> |Pieces(t)| == SplitCount(Kind(r.value))
  {
    FromPieces(Pieces(t))
  }

  /** The attribute the `=`-separated pieces of a text describe. */
  function FromPieces(split: seq<Text>): (r: Option<Attribute>)
    requires |split| >= 1
    ensures r.Some? ==> ParseName(split[0]) == Some(Kind(r.value))
    ensures r.Some? ==> |split| == SplitCount(Kind(r.value))
  {
    match ParseName(split[0])
    case None => Option.None
    case Some(key) =>
      if |split| != SplitCount(key) then Option.None
      else
        match key
        case DomainName => Some(Domain(split[1]))
        case ExpiresName =>
          (match HTTPDate.Parse(split[1])
           case None => Option.None
           case Some(date) => Some(Expires(date)))
        case HttpOnlyName => Some(HttpOnly)
        case MaxAgeName =>
          (match ParseInt(split[1])
           case None => Option.None
           case Some(n) => Some(MaxAge(n)))
        case PartitionedName => Some(Partitioned)
        case PathName => Some(Path(split[1]))
        case SecureName => Some(Secure)
        case SameSiteName =>
          (match ParseSameSite(split[1])
           case None => Option.None
           case Some(v) => Some(SameSite(v)))
  }

  // ---------------------------------------------------------------------
  // Properties

  /** A payload that parsing gives back: no `=` and no trailing whitespace. */
  predicate KeptPayload(p: Text) {
    '=' !in p && (p == [] || !IsWhitespace(p[|p| - 1]))
  }

  /** A payload that also survives inside a `Set-Cookie` header: no `;` either. */
  predicate PlainPayload(p: Text) {
    KeptPayload(p) && ';' !in p
  }

  /** What `Render` needs of an attribute to be parsed back: `Domain` and `Path` payloads are kept. */
  predicate Parsable(a: Attribute) {
    match a
    case Domain(d) => KeptPayload(d)
    case Path(p) => KeptPayload(p)
    case _ => true
  }

  /** What a `Set-Cookie` header needs of an attribute: `Domain` and `Path` payloads are plain. */
  predicate Renderable(a: Attribute) {
    match a
    case Domain(d) => PlainPayload(d)
    case Path(p) => PlainPayload(p)
    case _ => true
  }

  /** Every payload other than a `Domain` or `Path` one is plain. */
  lemma PayloadPlain(a: Attribute)
    requires HasAssociatedValue(Kind(a)) && Renderable(a)
    ensures PlainPayload(Payload(a))
  {
    match a
    case Expires(date) => HTTPDate.DateText(date);
    case MaxAge(n) =>
    case SameSite(v) =>
    case Domain(_) =>
    case Path(_) =>
  }

  /** A parsable attribute's payload is kept by parsing. */
  lemma PayloadKept(a: Attribute)
    requires HasAssociatedValue(Kind(a)) && Parsable(a)
    ensures KeptPayload(Payload(a))
  {
    match a
    case Expires(date) => HTTPDate.DateText(date);
    case MaxAge(n) =>
    case SameSite(v) =>
    case Domain(_) =>
    case Path(_) =>
  }

  /** The rendering holds no `;` and starts and ends with a character that is not whitespace. */
  lemma RenderShape(a: Attribute)
    requires Renderable(a)
    ensures var t := Render(a); t != [] && ';' !in t && !IsWhitespace(t[0]) && !IsWhitespace(t[|t| - 1])
  {
    var t := Render(a);
    var key := NameText(Kind(a));
    KeyPlain(Kind(a));
    if HasAssociatedValue(Kind(a)) {
      PayloadPlain(a);
      var p := Payload(a);
      assert t == key + "=" + p;
      assert t[0] == key[0];
      if p != [] {
        assert t[|t| - 1] == p[|p| - 1];
      }
    }
  }

  lemma KeyPlain(n: Name)
    ensures var key := NameText(n);
      && '=' !in key && ';' !in key && |key| >= 4
      && !IsWhitespace(key[0]) && !IsWhitespace(key[|key| - 1])
  {
  }

  /** Text of the form `key=payload` with no `=` in the payload splits into the key and the payload less its trailing whitespace. */
  lemma PiecesOfKeyText(n: Name, p: Text)
    requires '=' !in p
    ensures Pieces(NameText(n) + "=" + p) == [NameText(n), TrimEnd(p, IsWhitespace)]
  {
    KeyPlain(n);
    TrimmedKeyText(n, p);
    TrimEndKeepsAbsent(p, IsWhitespace, '=');
    ComponentsAroundChar(NameText(n), '=', TrimEnd(p, IsWhitespace));
  }

  /** Trimming `key=payload` only takes whitespace off the end of the payload. */
  lemma TrimmedKeyText(n: Name, p: Text)
    ensures TrimWhitespace(NameText(n) + "=" + p) == NameText(n) + ['='] + TrimEnd(p, IsWhitespace)
  {
    var key := NameText(n);
    var t := key + "=" + p;
    KeyPlain(n);
    assert t[0] == key[0];
    assert TrimStart(t, IsWhitespace) == t;
    assert t == (key + "=") + p;
    TrimEndAppend(key + "=", p, IsWhitespace);
  }

  /** Text of the form `key=payload` with a kept payload splits into the key and the payload. */
  lemma PiecesOfKeyValue(n: Name, p: Text)
    requires KeptPayload(p)
    ensures Pieces(NameText(n) + "=" + p) == [NameText(n), p]
  {
    PiecesOfKeyText(n, p);
  }

  /** The pieces of a renderable attribute's text are its key and, for the kinds that carry one, its payload. */
  lemma PiecesOfRender(a: Attribute)
    requires Parsable(a)
    ensures HasAssociatedValue(Kind(a)) ==> Pieces(Render(a)) == [NameText(Kind(a)), Payload(a)]
    ensures !HasAssociatedValue(Kind(a)) ==> Pieces(Render(a)) == [NameText(Kind(a))]
  {
    var key := NameText(Kind(a));
    KeyPlain(Kind(a));
    if HasAssociatedValue(Kind(a)) {
      PayloadKept(a);
      PiecesOfKeyValue(Kind(a), Payload(a));
    } else {
      TrimUnchanged(key, IsWhitespace);
      ContainsChar(key, '=');
      ComponentsOfFree(key, "=");
    }
  }

  /** Round trip: a parsable attribute parses back from its text. */
  lemma ParseRender(a: Attribute)
    requires Parsable(a)
    ensures Parse(Render(a)) == Some(a)
  {
    PiecesOfRender(a);
    FromPiecesOfRender(a);
  }

  lemma FromPiecesOfRender(a: Attribute)
    ensures HasAssociatedValue(Kind(a)) ==> FromPieces([NameText(Kind(a)), Payload(a)]) == Some(a)
    ensures !HasAssociatedValue(Kind(a)) ==> FromPieces([NameText(Kind(a))]) == Some(a)
  {
    ParseNameText(Kind(a));
    match a
    case MaxAge(n) => IntTextRoundTrip(n);
    case SameSite(v) => SameSiteRoundTrip(v);
    case Expires(date) => HTTPDate.DateText(date);
    case _ =>
  }

  /**
   * Parsing keeps the text: a parsed attribute renders back to the trimmed
   * text, except that `Max-Age` writes its number in canonical form.
   */
  lemma RenderParse(t: Text)
    requires Parse(t).Some?
    ensures !Parse(t).value.MaxAge? ==> Render(Parse(t).value) == TrimWhitespace(t)
    ensures Parse(t).value.MaxAge? ==> ParseInt(Pieces(t)[1]) == Some(Parse(t).value.seconds)
  {
    var split := Pieces(t);
    JoinComponents(TrimWhitespace(t), "=");
    if |split| == 2 {
      assert Join(split, "=") == split[0] + "=" + split[1];
    }
  }

  /** The kind a key starts with: the first three characters tell the keys apart. */
  function KindOf(a: Char, b: Char, c: Char): Option<Name> {
    if a == 'D' then Some(DomainName)
    else if a == 'E' then Some(ExpiresName)
    else if a == 'H' then Some(HttpOnlyName)
    else if a == 'M' then Some(MaxAgeName)
    else if a == 'P' && c == 'r' then Some(PartitionedName)
    else if a == 'P' && c == 't' then Some(PathName)
    else if a == 'S' && b == 'e' then Some(SecureName)
    else if a == 'S' && b == 'a' then Some(SameSiteName)
    else Option.None
  }

  lemma KindOfKey(n: Name)
    ensures |NameText(n)| >= 4
    ensures KindOf(NameText(n)[0], NameText(n)[1], NameText(n)[2]) == Some(n)
  {
  }

  /**
   * Rendering is injective, so text equality of attributes is structural
   * equality and a `Set<Attribute>` is a set of these values.
   */
  lemma RenderInjective(a: Attribute, b: Attribute)
    requires Render(a) == Render(b)
    ensures a == b
  {
    RenderSameKind(a, b);
    if HasAssociatedValue(Kind(a)) {
      var t := Render(a);
      var key := NameText(Kind(a));
      assert Payload(a) == t[|key| + 1..] == Payload(b);
      match a
      case MaxAge(n) => IntTextInjective(n, b.seconds);
      case SameSite(v) =>
        SameSiteRoundTrip(v);
        SameSiteRoundTrip(b.sameSite);
      case _ =>
    }
  }

  /** Attributes with the same text have the same kind: the key's first three characters decide it. */
  lemma RenderSameKind(a: Attribute, b: Attribute)
    requires Render(a) == Render(b)
    ensures Kind(a) == Kind(b)
  {
    var t := Render(a);
    var ka, kb := NameText(Kind(a)), NameText(Kind(b));
    KindOfKey(Kind(a));
    KindOfKey(Kind(b));
    assert t[0] == ka[0] == kb[0] && t[1] == ka[1] == kb[1] && t[2] == ka[2] == kb[2];
  }

  /** A flag with any payload, even an empty one, has the wrong piece count: `Secure=1` and `Secure=` are rejected. */
  lemma FlagWithPayloadRejected(n: Name, p: Text)
    requires !HasAssociatedValue(n)
    ensures Parse(NameText(n) + "=" + p) == Option.None
  {
    if '=' in p {
      PayloadWithEqualsRejected(n, p);
    } else {
      PiecesOfKeyText(n, p);
      ParseNameText(n);
    }
  }

  /** A payload holding `=` has the wrong piece count, whatever the key: `Path=/a=b` is rejected. */
  lemma PayloadWithEqualsRejected(n: Name, p: Text)
    requires '=' in p
    ensures Parse(NameText(n) + "=" + p) == Option.None
  {
    var key := NameText(n);
    var t := key + "=" + p;
    KeyPlain(n);
    CountZero(key, '=');
    CountZero(p, '=');
    CountAppend(key, "=", '=');
    CountAppend(key + "=", p, '=');
    CountTrimStart(t, IsWhitespace, '=');
    CountTrimEnd(TrimStart(t, IsWhitespace), IsWhitespace, '=');
    ComponentsCount(TrimWhitespace(t), '=');
    assert |Pieces(t)| >= 3;
  }

  /** Every known key starts with an upper-case letter. */
  lemma KeyStartsUpper(t: Text)
    requires ParseName(t).Some?
    ensures t != [] && 'A' <= t[0] <= 'Z'
  {
    KindOfKey(ParseName(t).value);
  }

  /** A word with no `=` and no whitespace at its edges is a single piece. */
  lemma PiecesOfWord(t: Text)
    requires t != [] && !IsWhitespace(t[0]) && KeptPayload(t)
    ensures Pieces(t) == [t]
  {
    TrimUnchanged(t, IsWhitespace);
    ContainsChar(t, '=');
    ComponentsOfFree(t, "=");
  }

  /** Keys are case-sensitive: a bare word starting with a lower-case letter, such as `secure`, is rejected. */
  lemma LowerCaseKeyRejected(t: Text)
    requires t != [] && 'a' <= t[0] <= 'z' && KeptPayload(t)
    ensures Parse(t) == Option.None
  {
    PiecesOfWord(t);
    if Parse(t).Some? {
      KeyStartsUpper(Pieces(t)[0]);
    }
  }

  /** A `SameSite` payload other than `Strict`, `Lax` or `None` (`none` included) is rejected. */
  lemma UnknownSameSiteRejected(p: Text)
    requires '=' !in p && ParseSameSite(TrimEnd(p, IsWhitespace)) == Option.None
    ensures Parse(NameText(SameSiteName) + "=" + p) == Option.None
  {
    PiecesOfKeyText(SameSiteName, p);
    ParseNameText(SameSiteName);
  }

  /** An `Expires` payload that is not an IMF-fixdate is rejected. */
  lemma MalformedDateRejected(p: Text)
    requires '=' !in p && !HTTPDate.IsFixdate(TrimEnd(p, IsWhitespace))
    ensures Parse(NameText(ExpiresName) + "=" + p) == Option.None
  {
    PiecesOfKeyText(ExpiresName, p);
    ParseNameText(ExpiresName);
  }

  /** A `Max-Age` payload that is not an integer is rejected. */
  lemma MalformedMaxAgeRejected(p: Text)
    requires '=' !in p && ParseInt(TrimEnd(p, IsWhitespace)) == Option.None
    ensures Parse(NameText(MaxAgeName) + "=" + p) == Option.None
  {
    PiecesOfKeyText(MaxAgeName, p);
    ParseNameText(MaxAgeName);
  }

  /** `Domain` and `Path` payloads are kept verbatim, less trailing whitespace, whatever else they hold. */
  lemma DomainAndPathVerbatim(p: Text)
    requires '=' !in p
    ensures Parse(NameText(DomainName) + "=" + p) == Some(Domain(TrimEnd(p, IsWhitespace)))
    ensures Parse(NameText(PathName) + "=" + p) == Some(Path(TrimEnd(p, IsWhitespace)))
  {
    PiecesOfKeyText(DomainName, p);
    PiecesOfKeyText(PathName, p);
    ParseNameText(DomainName);
    ParseNameText(PathName);
  }
}
