/**
 * The value of a `Cookie` request header (`HTTPCookieField`): the cookies the
 * client sends, one per name. The cookies are kept as a dictionary from name
 * to stored value; adding a cookie whose name is already present replaces the
 * earlier value.
 */
module HTTPCookieField {
  import opened Wrappers
  import opened AsciiText
  import opened Collections
  import HTTPCookie

  type Cookie = HTTPCookie.Cookie

  const Separator: Text := "; "

  /** The dictionary `init(_:)` folds a list of cookies into: a later cookie of a name wins. */
  function CookieMap(cookies: seq<Cookie>): map<Text, Text>
    decreases |cookies|
  {
    if cookies == [] then map[]
    else
      var last := cookies[|cookies| - 1];
      CookieMap(cookies[..|cookies| - 1])[last.name := last.value]
  }

  /** The dictionary holds one entry per name that occurs in the list. */
  lemma {:induction false} CookieMapNames(cookies: seq<Cookie>)
    ensures CookieMap(cookies).Keys == set c | c in cookies :: c.name
    decreases |cookies|
  {
    if cookies != [] {
      var front := cookies[..|cookies| - 1];
      CookieMapNames(front);
      assert cookies == front + [cookies[|cookies| - 1]];
    }
  }

  /** The entry of a name is the value of the last cookie of that name. */
  lemma {:induction false} CookieMapLastWins(cookies: seq<Cookie>, i: nat)
    requires i < |cookies|
    requires forall j :: i < j < |cookies| ==> cookies[j].name != cookies[i].name
    ensures cookies[i].name in CookieMap(cookies)
    ensures CookieMap(cookies)[cookies[i].name] == cookies[i].value
    decreases |cookies|
  {
    if i < |cookies| - 1 {
      var front := cookies[..|cookies| - 1];
      CookieMapLastWins(front, i);
    }
  }

  // ---------------------------------------------------------------------
  // Decoding (`init?(_:)`)

  /** The elements of a header value: trimmed of whitespace and split on `"; "`. */
  function Elements(s: Text): seq<Text> {
    Components(TrimWhitespace(s), Separator)
  }

  /** The elements that decode as cookies, in order; the others are skipped. */
  function ParsedCookies(elements: seq<Text>): seq<Cookie> {
    CompactMap(HTTPCookie.Decode, elements)
  }

  /** The cookies of a `Cookie` header value, or `None` when some element is not a cookie. */
  function DecodeCookies(s: Text): (r: Option<seq<Cookie>>)
    ensures r.Some? <==> forall i :: 0 <= i < |Elements(s)| ==> HTTPCookie.Decode(Elements(s)[i]).Some?
    ensures r.Some? ==> |r.value| == |Elements(s)|
    ensures r.Some? ==>
              forall i :: 0 <= i < |r.value| ==> r.value[i] == HTTPCookie.Decode(Elements(s)[i]).value
  {
    CompactMapAll(HTTPCookie.Decode, Elements(s));
    var elements := Elements(s);
    var cookies := ParsedCookies(elements);
    if |cookies| == |elements| then Some(cookies) else None
  }

  // ---------------------------------------------------------------------
  // Encoding (`fieldContent`)

  /** The rendered cookies of `store`, in the order `order` lists their names. */
  function Rendered(store: map<Text, Text>, order: seq<Text>): (r: seq<Text>)
    requires forall k :: k in order ==> k in store
    ensures |r| == |order|
    ensures forall i :: 0 <= i < |order| ==>
              r[i] == HTTPCookie.FieldContent(HTTPCookie.MakeCookie(order[i], store[order[i]]))
    decreases |order|
  {
    if order == [] then []
    else [HTTPCookie.FieldContent(HTTPCookie.MakeCookie(order[0], store[order[0]]))] + Rendered(store, order[1..])
  }

  // ---------------------------------------------------------------------
  // The field

  class CookieField {
    /** `_cookies`: stored value by cookie name. */
    var store: map<Text, Text>

    /** `init(_:)`: folds the cookies into the dictionary, a later cookie of a name winning. */
    constructor (cookies: seq<Cookie>)
      ensures store == CookieMap(cookies)
    {
      var m: map<Text, Text> := map[];
      var i := 0;
      while i < |cookies|
        invariant 0 <= i <= |cookies|
        invariant m == CookieMap(cookies[..i])
      {
        assert cookies[..i + 1][..i] == cookies[..i];
        m := m[cookies[i].name := cookies[i].value];
        i := i + 1;
      }
      assert cookies[..|cookies|] == cookies;
      store := m;
    }

    /** `cookies`: one cookie per entry, rebuilt through `HTTPCookie(name:value:)`. */
    function Cookies(): (r: set<Cookie>)
      reads this
      ensures forall c :: c in r ==> c.name in store && c == HTTPCookie.MakeCookie(c.name, store[c.name])
      ensures forall k :: k in store ==> HTTPCookie.MakeCookie(k, store[k]) in r
    {
      set k | k in store :: HTTPCookie.MakeCookie(k, store[k])
    }

    /** `fieldContent`: the rendered cookies joined with `"; "`, in the order `order` lists the names. */
    function FieldContent(order: seq<Text>): Text
      reads this
      requires Enumerates(order, store.Keys)
    {
      Join(Rendered(store, order), Separator)
    }

    /** `init?(_:)`: no field when some element is not a cookie. */
    static method Parse(s: Text) returns (f: CookieField?)
      ensures f == null <==> DecodeCookies(s).None?
      ensures f != null ==> fresh(f) && f.store == CookieMap(DecodeCookies(s).value)
    {
      var elements := Elements(s);
      var cookies: seq<Cookie> := [];
      var i := 0;
      while i < |elements|
        invariant 0 <= i <= |elements|
        invariant cookies == ParsedCookies(elements[..i])
      {
        assert elements[..i + 1][..i] == elements[..i];
        var c := HTTPCookie.Decode(elements[i]);
        if c.Some? {
          cookies := cookies + [c.value];
        }
        i := i + 1;
      }
      assert elements[..|elements|] == elements;
      if |cookies| != |elements| {
        return null;
      }
      f := new CookieField(cookies);
    }

    /** `subscript(_ name:)` get: the cookie of that name, rebuilt from the stored value. */
    function Get(name: Text): (r: Option<Cookie>)
      reads this
      ensures r.Some? <==> name in store
      ensures r.Some? ==> r.value.name == name && r.value == HTTPCookie.MakeCookie(name, store[name])
    {
      if name in store then Some(HTTPCookie.MakeCookie(name, store[name])) else None
    }

    /**
     * `subscript(_ name:)` set: `None` removes the entry; a cookie is stored
     * under `name` whatever its own name.
     */
    method Set(name: Text, newValue: Option<Cookie>)
      modifies this
      ensures newValue.None? ==> store == old(store) - {name}
      ensures newValue.Some? ==> store == old(store)[name := newValue.value.value]
    {
      if newValue.None? || newValue.value.name != name {
        store := store - {name};
      }
      match newValue
      case None => store := store - {name};
      case Some(c) => store := store[name := c.value];
    }

    /** `set(cookie:to:)`: stores the value as `HTTPCookie(name:value:)` normalises it. */
    method SetCookie(name: Text, value: Option<Text>)
      modifies this
      ensures value.None? ==> store == old(store) - {name}
      ensures value.Some? ==> store == old(store)[name := HTTPCookie.MakeCookie(name, value.value).value]
    {
      var newValue := match value
        case None => None
        case Some(v) => Some(HTTPCookie.MakeCookie(name, v));
      Set(name, newValue);
    }

    /** `subscript(valueFor:)` get: the stored value as it is. */
    function GetValue(name: Text): (r: Option<Text>)
      reads this
      ensures r.Some? <==> name in store
      ensures r.Some? ==> r.value == store[name]
    {
      if name in store then Some(store[name]) else None
    }

    /** `subscript(valueFor:)` set: stores or removes the raw value. */
    method SetValue(name: Text, newValue: Option<Text>)
      modifies this
      ensures newValue.None? ==> store == old(store) - {name}
      ensures newValue.Some? ==> store == old(store)[name := newValue.value]
    {
      match newValue
      case None => store := store - {name};
      case Some(v) => store := store[name := v];
    }
  }

  // ---------------------------------------------------------------------
  // Properties

  lemma RenderedCookieFree(k: Text, v: Text)
    requires HTTPCookie.PlainName(k) && HTTPCookie.PlainValue(v)
    ensures HTTPCookie.Decode(HTTPCookie.FieldContent(HTTPCookie.MakeCookie(k, v))) == Some(HTTPCookie.Cookie(k, v))
    ensures !Contains(HTTPCookie.FieldContent(HTTPCookie.MakeCookie(k, v)), Separator)
    ensures Edged(HTTPCookie.FieldContent(HTTPCookie.MakeCookie(k, v)))
  {
    HTTPCookie.MakeCookiePlain(k, v);
    HTTPCookie.PlainCookieText(HTTPCookie.Cookie(k, v));
    assert ' ' in Separator;
    NotContains(HTTPCookie.FieldContent(HTTPCookie.Cookie(k, v)), Separator, ' ');
  }

  /**
   * Round trip: decoding the rendering of a non-empty field gives back its
   * dictionary, whatever order the cookies are rendered in, when the names
   * hold no `=` or whitespace and the values no `%` or surrounding quotes.
   */
  lemma FieldContentRoundTrip(f: CookieField, order: seq<Text>)
    requires Enumerates(order, f.store.Keys) && order != []
    requires forall k :: k in f.store ==> HTTPCookie.PlainName(k) && HTTPCookie.PlainValue(f.store[k])
    ensures DecodeCookies(f.FieldContent(order)).Some?
    ensures CookieMap(DecodeCookies(f.FieldContent(order)).value) == f.store
  {
    var store := f.store;
    assert forall k :: k in order ==> k in store by {
      assert forall k :: k in order ==> k in ToSet(order);
    }
    var cookies := StoreCookies(store, order);
    DecodeRendered(store, order);
    assert Join(Rendered(store, order), Separator) == f.FieldContent(order);
    CookieMapOfStore(store, order);
  }

  /** The stored entries as cookies, in the order `order` lists the names. */
  function StoreCookies(store: map<Text, Text>, order: seq<Text>): (r: seq<Cookie>)
    requires forall k :: k in order ==> k in store
    ensures |r| == |order|
    ensures forall i :: 0 <= i < |order| ==> r[i] == HTTPCookie.Cookie(order[i], store[order[i]])
  {
    seq(|order|, i requires 0 <= i < |order| => HTTPCookie.Cookie(order[i], store[order[i]]))
  }

  lemma DecodeRendered(store: map<Text, Text>, order: seq<Text>)
    requires order != [] && forall k :: k in order ==> k in store
    requires forall k :: k in store ==> HTTPCookie.PlainName(k) && HTTPCookie.PlainValue(store[k])
    ensures DecodeCookies(Join(Rendered(store, order), Separator)) == Some(StoreCookies(store, order))
  {
    var texts := Rendered(store, order);
    RenderedTexts(store, order);
    ElementsOfJoin(texts);
    DecodeElements(Join(texts, Separator), StoreCookies(store, order));
  }

  /** Each rendered cookie decodes back, is edged and holds no separator. */
  lemma RenderedTexts(store: map<Text, Text>, order: seq<Text>)
    requires forall k :: k in order ==> k in store
    requires forall k :: k in store ==> HTTPCookie.PlainName(k) && HTTPCookie.PlainValue(store[k])
    ensures forall i :: 0 <= i < |order| ==>
              && HTTPCookie.Decode(Rendered(store, order)[i]) == Some(StoreCookies(store, order)[i])
              && !Contains(Rendered(store, order)[i], Separator)
              && Edged(Rendered(store, order)[i])
  {
    forall i | 0 <= i < |order|
      ensures HTTPCookie.Decode(Rendered(store, order)[i]) == Some(StoreCookies(store, order)[i])
      ensures !Contains(Rendered(store, order)[i], Separator)
      ensures Edged(Rendered(store, order)[i])
    {
      RenderedCookieFree(order[i], store[order[i]]);
    }
  }

  /** A text whose elements decode one by one to `cookies` decodes to `cookies`. */
  lemma DecodeElements(s: Text, cookies: seq<Cookie>)
    requires |Elements(s)| == |cookies|
    requires forall i :: 0 <= i < |cookies| ==> HTTPCookie.Decode(Elements(s)[i]) == Some(cookies[i])
    ensures DecodeCookies(s) == Some(cookies)
  {
    var decoded := DecodeCookies(s);
    assert decoded.value == cookies;
  }

  /** Splitting a join of edged, separator-free texts gives back the texts. */
  lemma ElementsOfJoin(texts: seq<Text>)
    requires |texts| >= 1
    requires forall i :: 0 <= i < |texts| ==> Edged(texts[i]) && !Contains(texts[i], Separator)
    ensures Elements(Join(texts, Separator)) == texts
  {
    JoinEdged(texts, Separator);
    TrimUnchanged(Join(texts, Separator), IsWhitespace);
    TwoCharBorderFree(';', ' ');
    assert Separator == [';', ' '];
    ComponentsOfJoin(texts, Separator);
  }

  /** Folding the entries of a dictionary, one per name, gives the dictionary back. */
  lemma CookieMapOfStore(store: map<Text, Text>, order: seq<Text>)
    requires Enumerates(order, store.Keys)
    ensures forall k :: k in order ==> k in store
    ensures CookieMap(StoreCookies(store, order)) == store
  {
    assert forall k :: k in order ==> k in ToSet(order);
    var cookies := StoreCookies(store, order);
    forall k | k in store ensures k in CookieMap(cookies) && CookieMap(cookies)[k] == store[k] {
      assert k in ToSet(order);
      var i :| 0 <= i < |order| && order[i] == k;
      CookieMapLastWins(cookies, i);
    }
    CookieMapNames(cookies);
    forall k | k in CookieMap(cookies) ensures k in store {
      var c :| c in cookies && c.name == k;
      var i :| 0 <= i < |cookies| && cookies[i] == c;
      assert order[i] in ToSet(order);
    }
  }

  /** Two `a` cookies: the dictionary keeps the second value. */
  lemma LaterCookieWins()
    ensures CookieMap([HTTPCookie.Cookie("a", "1"), HTTPCookie.Cookie("a", "2")]) == map["a" := "2"]
  {
  }

  /** An empty header value is one empty element, which is not a cookie, so it is rejected. */
  lemma EmptyRejected()
    ensures DecodeCookies("") == None
  {
    assert Elements("") == [""];
    assert HTTPCookie.Decode("").None? by {
      assert Components("", "=") == [""];
    }
  }

  /**
   * Storing a cookie through `set(cookie:to:)` and reading it back through
   * `subscript(_ name:)` gives the stored cookie again when the value has no `%`.
   */
  lemma ReadBackPlain(name: Text, value: Text)
    requires '%' !in value
    ensures HTTPCookie.MakeCookie(name, HTTPCookie.MakeCookie(name, value).value) == HTTPCookie.MakeCookie(name, value)
  {
    HTTPCookie.UnescapePlain(value);
    TrimKeepsAbsent(value, HTTPCookie.IsQuote, '%');
    var stored := HTTPCookie.MakeCookie(name, value).value;
    HTTPCookie.MakeCookiePlain(name, stored);
  }

  /**
   * With a `%` the value is decoded again on every read: `%2541` is stored
   * as `%41`, which reads back as `A`.
   */
  lemma ReadBackDecodesAgain()
    ensures HTTPCookie.MakeCookie("a", "%2541").value == "%41"
    ensures HTTPCookie.MakeCookie("a", HTTPCookie.MakeCookie("a", "%2541").value) == HTTPCookie.Cookie("a", "A")
  {
    UnescapeTwice();
    UnescapeOnce();
    TrimUnchanged("%41", HTTPCookie.IsQuote);
    TrimUnchanged("A", HTTPCookie.IsQuote);
  }

  lemma UnescapeTwice()
    ensures HTTPCookie.Unescape("%2541") == Some("%41")
  {
    var twice: Text := "%2541";
    assert HTTPCookie.HexValue('2') == Some(2) && HTTPCookie.HexValue('5') == Some(5);
    assert twice[3..] == "41";
    HTTPCookie.UnescapePlain("41");
    assert HTTPCookie.Unescape(twice) == Some([37 as char] + "41");
    assert [37 as char] + "41" == "%41";
  }

  lemma UnescapeOnce()
    ensures HTTPCookie.Unescape("%41") == Some("A")
  {
    var once: Text := "%41";
    assert HTTPCookie.HexValue('4') == Some(4) && HTTPCookie.HexValue('1') == Some(1);
    assert once[3..] == [] && HTTPCookie.Unescape([]) == Some([]);
    assert HTTPCookie.Unescape(once) == Some([65 as char] + []);
    assert [65 as char] + [] == "A";
  }
}
