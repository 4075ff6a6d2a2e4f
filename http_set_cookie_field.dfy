/**
 * The value of a `Set-Cookie` response header (`HTTPSetCookieField`): one
 * cookie and a set of attributes, rendered as `name=value; Attr; Attr=x`.
 *
 * Building a field keeps one attribute of each kind; decoding does not, but
 * it rejects repeated attributes, elements that are not attributes, and the
 * two combinations that need `Secure`: `Partitioned`, and `SameSite=None`.
 */
module HTTPSetCookieField {
  import opened Wrappers
  import opened AsciiText
  import opened Collections
  import HTTPCookie
  import A = SetCookieAttributes

  type Attribute = A.Attribute

  const Separator: Text := "; "

  datatype SetCookieField = SetCookieField(cookie: HTTPCookie.Cookie, attributes: set<Attribute>)

  /** The kinds (`name`s) of a set of attributes. */
  function Kinds(attributes: set<Attribute>): set<A.Name> {
    set a | a in attributes :: A.Kind(a)
  }

  /** No two attributes are of the same kind. */
  predicate UniqueKinds(attributes: set<Attribute>) {
    forall a, b :: a in attributes && b in attributes && A.Kind(a) == A.Kind(b) ==> a == b
  }

  /** `Partitioned` and `SameSite=None` each need `Secure`. */
  predicate SecureRulesHold(attributes: set<Attribute>) {
    && (A.Partitioned in attributes ==> A.Secure in attributes)
    && (A.SameSite(A.SameSiteValue.None) in attributes ==> A.Secure in attributes)
  }

  // ---------------------------------------------------------------------
  // The memberwise initialiser

  /**
   * The fold of `init(_:attributes:)` over the attributes in the order `order`
   * visits them: an attribute is kept unless one of its kind already was.
   */
  function KeepFirstOfEachKind(order: seq<Attribute>): set<Attribute>
    decreases |order|
  {
    if order == [] then {}
    else
      var kept := KeepFirstOfEachKind(order[..|order| - 1]);
      var a := order[|order| - 1];
      if A.Kind(a) in Kinds(kept) then kept else kept + {a}
  }

  /** Whether no attribute before position `i` has the kind of the one at `i`. */
  predicate FirstOfKind(order: seq<Attribute>, i: nat)
    requires i < |order|
  {
    forall j :: 0 <= j < i ==> A.Kind(order[j]) != A.Kind(order[i])
  }

  /** The fold keeps only attributes it visits, and keeps one of each kind that occurs. */
  lemma {:induction false} KeepFirstOfEachKindKinds(order: seq<Attribute>)
    ensures KeepFirstOfEachKind(order) <= ToSet(order)
    ensures Kinds(KeepFirstOfEachKind(order)) == Kinds(ToSet(order))
    decreases |order|
  {
    if order != [] {
      var front := order[..|order| - 1];
      var a := order[|order| - 1];
      KeepFirstOfEachKindKinds(front);
      var kept := KeepFirstOfEachKind(front);
      assert ToSet(order) == ToSet(front) + {a};
      assert Kinds(ToSet(order)) == Kinds(ToSet(front)) + {A.Kind(a)};
      assert Kinds(kept + {a}) == Kinds(kept) + {A.Kind(a)};
    }
  }

  /** The fold never keeps two attributes of one kind. */
  lemma {:induction false} KeepFirstOfEachKindUnique(order: seq<Attribute>)
    ensures UniqueKinds(KeepFirstOfEachKind(order))
    decreases |order|
  {
    if order != [] {
      KeepFirstOfEachKindUnique(order[..|order| - 1]);
    }
  }

  /** The attribute the fold keeps for a kind is the first of that kind in visiting order. */
  lemma {:induction false} KeepFirstOfEachKindFirst(order: seq<Attribute>, i: nat)
    requires i < |order| && FirstOfKind(order, i)
    ensures order[i] in KeepFirstOfEachKind(order)
    decreases |order|
  {
    var front := order[..|order| - 1];
    var kept := KeepFirstOfEachKind(front);
    if i < |order| - 1 {
      assert FirstOfKind(front, i);
      KeepFirstOfEachKindFirst(front, i);
    } else {
      KeepFirstOfEachKindKinds(front);
    }
  }

  lemma KeepFirstOfEachKindFirstAll(order: seq<Attribute>)
    ensures forall i :: 0 <= i < |order| && FirstOfKind(order, i) ==> order[i] in KeepFirstOfEachKind(order)
  {
    forall i | 0 <= i < |order| && FirstOfKind(order, i) ensures order[i] in KeepFirstOfEachKind(order) {
      KeepFirstOfEachKindFirst(order, i);
    }
  }

  /**
   * `init(_:attributes:)`, visiting the attributes in the order `order`
   * (Swift leaves the order of a `Set` unspecified). The `Secure` rules are
   * not checked here.
   */
  function Make(cookie: HTTPCookie.Cookie, attributes: set<Attribute>, order: seq<Attribute>): (f: SetCookieField)
    requires Enumerates(order, attributes)
    ensures f.cookie == cookie
    ensures f.attributes <= attributes
    ensures UniqueKinds(f.attributes)
    ensures Kinds(f.attributes) == Kinds(attributes)
    ensures forall i :: 0 <= i < |order| && FirstOfKind(order, i) ==> order[i] in f.attributes
  {
    KeepFirstOfEachKindFirstAll(order);
    KeepFirstOfEachKindKinds(order);
    KeepFirstOfEachKindUnique(order);
    SetCookieField(cookie, KeepFirstOfEachKind(order))
  }

  /**
   * `init(_:attributes:)` as the source runs it: a `reduce(into:)` over the
   * attributes in the order `order` visits them, inserting an attribute
   * unless one of its kind is already in the set.
   */
  method Init(cookie: HTTPCookie.Cookie, attributes: set<Attribute>, order: seq<Attribute>) returns (f: SetCookieField)
    requires Enumerates(order, attributes)
    ensures f == Make(cookie, attributes, order)
  {
    var kept: set<Attribute> := {};
    var i := 0;
    while i < |order|
      invariant 0 <= i <= |order|
      invariant kept == KeepFirstOfEachKind(order[..i])
    {
      assert order[..i + 1][..i] == order[..i];
      var a := order[i];
      if A.Kind(a) !in Kinds(kept) {
        kept := kept + {a};
      }
      i := i + 1;
    }
    assert order[..|order|] == order;
    f := SetCookieField(cookie, kept);
  }

  /** Attributes that are already one of each kind are kept as they are, whatever the order. */
  lemma MakeKeepsUniqueAttributes(cookie: HTTPCookie.Cookie, attributes: set<Attribute>, order: seq<Attribute>)
    requires Enumerates(order, attributes) && UniqueKinds(attributes)
    ensures Make(cookie, attributes, order).attributes == attributes
  {
    var kept := Make(cookie, attributes, order).attributes;
    forall a | a in attributes ensures a in kept {
      assert A.Kind(a) in Kinds(kept);
      var b :| b in kept && A.Kind(b) == A.Kind(a);
    }
  }

  // ---------------------------------------------------------------------
  // Encoding (`fieldContent`)

  /** The rendered attributes, in order. */
  function Renders(attributes: seq<Attribute>): (r: seq<Text>)
    ensures |r| == |attributes| && forall i :: 0 <= i < |r| ==> r[i] == A.Render(attributes[i])
  {
    seq(|attributes|, i requires 0 <= i < |attributes| => A.Render(attributes[i]))
  }

  /** The cookie's text then each attribute's, joined with `"; "`. */
  function Content(cookie: HTTPCookie.Cookie, attributes: seq<Attribute>): Text {
    Join([HTTPCookie.FieldContent(cookie)] + Renders(attributes), Separator)
  }

  /** `fieldContent`, listing the attributes in the order `order`. */
  function FieldContent(f: SetCookieField, order: seq<Attribute>): Text
    requires Enumerates(order, f.attributes)
  {
    Content(f.cookie, order)
  }

  // ---------------------------------------------------------------------
  // Decoding (`init?(_:)`)

  /** The elements of a header value: trimmed of whitespace and split on `"; "`. */
  function Elements(s: Text): seq<Text> {
    Components(TrimWhitespace(s), Separator)
  }

  /** The elements that parse as attributes, in order; the others are skipped. */
  function ParsedAttributes(elements: seq<Text>): seq<Attribute> {
    CompactMap(A.Parse, elements)
  }

  /** Whether every element parses as an attribute. */
  predicate AllParse(elements: seq<Text>) {
    AllConvert(A.Parse, elements)
  }

  /**
   * `init?(_:)`: the first element must be a cookie; the other elements are
   * parsed into a set, which must be as large as the number of elements;
   * `Partitioned` and `SameSite=None` need `Secure`.
   */
  function Decode(s: Text): (r: Option<SetCookieField>)
    ensures r.Some? ==> HTTPCookie.Decode(Elements(s)[0]) == Some(r.value.cookie)
    ensures r.Some? ==> SecureRulesHold(r.value.attributes)
  {
    var elements := Elements(s);
    match HTTPCookie.Decode(elements[0])
    case None => None
    case Some(cookie) =>
      var rest := elements[1..];
      var attributes := ToSet(ParsedAttributes(rest));
      if |attributes| == |rest| && SecureRulesHold(attributes)
      then Some(SetCookieField(cookie, attributes))
      else None
  }

  /**
   * Decoding succeeds exactly when the first element is a cookie, every
   * other element is an attribute, no two of them are the same attribute,
   * and the `Secure` rules hold; the attributes are then those parsed.
   */
  lemma DecodeSucceedsIff(s: Text)
    ensures var elements := Elements(s); var parsed := ParsedAttributes(elements[1..]);
      Decode(s).Some? <==>
        && HTTPCookie.Decode(elements[0]).Some?
        && AllParse(elements[1..])
        && Distinct(parsed)
        && SecureRulesHold(ToSet(parsed))
    ensures Decode(s).Some? ==> Decode(s).value.attributes == ToSet(ParsedAttributes(Elements(s)[1..]))
  {
    var elements := Elements(s);
    var rest := elements[1..];
    var parsed := ParsedAttributes(rest);
    ToSetCard(parsed);
    CompactMapAll(A.Parse, rest);
  }

  /**
   * `init?(_:)` as the source runs it: the attributes are collected by a
   * `reduce(into:)` that inserts every element that parses into a set, and
   * the count and the `Secure` rules are checked afterwards.
   */
  method Parse(s: Text) returns (r: Option<SetCookieField>)
    ensures r == Decode(s)
  {
    var elements := Elements(s);
    var cookie := HTTPCookie.Decode(elements[0]);
    if cookie.None? {
      return None;
    }
    var rest := elements[1..];
    var attributes: set<Attribute> := {};
    var i := 0;
    while i < |rest|
      invariant 0 <= i <= |rest|
      invariant attributes == ToSet(ParsedAttributes(rest[..i]))
    {
      assert rest[..i + 1][..i] == rest[..i];
      var a := A.Parse(rest[i]);
      if a.Some? {
        assert ParsedAttributes(rest[..i + 1]) == ParsedAttributes(rest[..i]) + [a.value];
        attributes := attributes + {a.value};
      }
      i := i + 1;
    }
    assert rest[..|rest|] == rest;
    if |attributes| == |rest| && SecureRulesHold(attributes) {
      r := Some(SetCookieField(cookie.value, attributes));
    } else {
      r := None;
    }
  }

  // ---------------------------------------------------------------------
  // Properties

  /** What the round trip needs of a cookie and its attributes. */
  predicate Plain(cookie: HTTPCookie.Cookie, attributes: seq<Attribute>) {
    && HTTPCookie.PlainName(cookie.name) && HTTPCookie.PlainValue(cookie.value)
    && forall i :: 0 <= i < |attributes| ==> A.Renderable(attributes[i])
  }

  /** The elements of the text of a plain cookie and attributes are their texts. */
  lemma ElementsOfContent(cookie: HTTPCookie.Cookie, attributes: seq<Attribute>)
    requires Plain(cookie, attributes)
    ensures Elements(Content(cookie, attributes)) == [HTTPCookie.FieldContent(cookie)] + Renders(attributes)
  {
    var texts := [HTTPCookie.FieldContent(cookie)] + Renders(attributes);
    HTTPCookie.PlainCookieText(cookie);
    assert ' ' in Separator && ';' in Separator;
    NotContains(texts[0], Separator, ' ');
    forall i | 1 <= i < |texts| ensures Edged(texts[i]) && !Contains(texts[i], Separator) {
      A.RenderShape(attributes[i - 1]);
      NotContains(texts[i], Separator, ';');
    }
    JoinEdged(texts, Separator);
    TrimUnchanged(Join(texts, Separator), IsWhitespace);
    TwoCharBorderFree(';', ' ');
    assert Separator == [';', ' '];
    ComponentsOfJoin(texts, Separator);
  }

  /** The rendered attributes parse back, all of them and in order. */
  lemma ParsedRenders(attributes: seq<Attribute>)
    requires forall i :: 0 <= i < |attributes| ==> A.Renderable(attributes[i])
    ensures AllParse(Renders(attributes))
    ensures ParsedAttributes(Renders(attributes)) == attributes
  {
    var texts := Renders(attributes);
    forall i | 0 <= i < |texts| ensures A.Parse(texts[i]) == Some(attributes[i]) {
      A.ParseRender(attributes[i]);
    }
    CompactMapAll(A.Parse, texts);
  }

  /**
   * Decoding the text of a cookie and a list of attributes succeeds exactly
   * when no attribute is listed twice and the `Secure` rules hold, and then
   * gives the cookie and the set of the attributes.
   */
  lemma DecodeContent(cookie: HTTPCookie.Cookie, attributes: seq<Attribute>)
    requires Plain(cookie, attributes)
    ensures Decode(Content(cookie, attributes)).Some? <==> Distinct(attributes) && SecureRulesHold(ToSet(attributes))
    ensures Decode(Content(cookie, attributes)).Some? ==>
              Decode(Content(cookie, attributes)) == Some(SetCookieField(cookie, ToSet(attributes)))
  {
    var s := Content(cookie, attributes);
    ElementsOfContent(cookie, attributes);
    HTTPCookie.PlainCookieText(cookie);
    var elements := Elements(s);
    assert elements[1..] == Renders(attributes);
    ParsedRenders(attributes);
    DecodeSucceedsIff(s);
  }

  /**
   * Round trip: a field of a plain cookie and renderable attributes that
   * keeps the `Secure` rules decodes from its text, whatever order the
   * attributes are written in.
   */
  lemma DecodeFieldContent(f: SetCookieField, order: seq<Attribute>)
    requires Enumerates(order, f.attributes) && Plain(f.cookie, order)
    requires SecureRulesHold(f.attributes)
    ensures Decode(FieldContent(f, order)) == Some(f)
  {
    DecodeContent(f.cookie, order);
  }

  /**
   * Decoding does not keep one attribute per kind: two different `Domain`
   * attributes are both kept, which building a field never does.
   */
  lemma DecodeKeepsRepeatedKinds(cookie: HTTPCookie.Cookie, x: Text, y: Text)
    requires Plain(cookie, [A.Domain(x), A.Domain(y)]) && x != y
    ensures Decode(Content(cookie, [A.Domain(x), A.Domain(y)])) == Some(SetCookieField(cookie, {A.Domain(x), A.Domain(y)}))
    ensures !UniqueKinds({A.Domain(x), A.Domain(y)})
  {
    var attributes := [A.Domain(x), A.Domain(y)];
    assert ToSet(attributes) == {A.Domain(x), A.Domain(y)};
    DecodeContent(cookie, attributes);
  }

  /** An attribute written twice makes the whole header invalid. */
  lemma DecodeRejectsRepeatedAttribute(cookie: HTTPCookie.Cookie, a: Attribute)
    requires Plain(cookie, [a, a])
    ensures Decode(Content(cookie, [a, a])) == None
  {
    assert !Distinct([a, a]) by {
      assert [a, a][0] == [a, a][1];
    }
    DecodeContent(cookie, [a, a]);
  }

  /** `Partitioned` without `Secure` is rejected; with it, accepted. */
  lemma PartitionedNeedsSecure(cookie: HTTPCookie.Cookie)
    requires HTTPCookie.PlainName(cookie.name) && HTTPCookie.PlainValue(cookie.value)
    ensures Decode(Content(cookie, [A.Partitioned])) == None
    ensures Decode(Content(cookie, [A.Partitioned, A.Secure])) == Some(SetCookieField(cookie, {A.Partitioned, A.Secure}))
  {
    assert ToSet([A.Partitioned]) == {A.Partitioned};
    DecodeContent(cookie, [A.Partitioned]);
    assert ToSet([A.Partitioned, A.Secure]) == {A.Partitioned, A.Secure};
    DecodeContent(cookie, [A.Partitioned, A.Secure]);
  }

  /** `SameSite=None` without `Secure` is rejected, while `SameSite=Lax` alone is accepted. */
  lemma SameSiteNoneNeedsSecure(cookie: HTTPCookie.Cookie)
    requires HTTPCookie.PlainName(cookie.name) && HTTPCookie.PlainValue(cookie.value)
    ensures Decode(Content(cookie, [A.SameSite(A.SameSiteValue.None)])) == None
    ensures Decode(Content(cookie, [A.SameSite(A.Lax)])) == Some(SetCookieField(cookie, {A.SameSite(A.Lax)}))
  {
    var none := A.SameSite(A.SameSiteValue.None);
    assert ToSet([none]) == {none};
    DecodeContent(cookie, [none]);
    assert ToSet([A.SameSite(A.Lax)]) == {A.SameSite(A.Lax)};
    DecodeContent(cookie, [A.SameSite(A.Lax)]);
  }

  /**
   * The memberwise initialiser does not check the `Secure` rules, so a
   * field it builds can render to text that does not decode.
   */
  lemma MakeSkipsSecureRules(cookie: HTTPCookie.Cookie)
    requires HTTPCookie.PlainName(cookie.name) && HTTPCookie.PlainValue(cookie.value)
    ensures Make(cookie, {A.Partitioned}, [A.Partitioned]).attributes == {A.Partitioned}
    ensures Decode(FieldContent(Make(cookie, {A.Partitioned}, [A.Partitioned]), [A.Partitioned])) == None
  {
    assert ToSet([A.Partitioned]) == {A.Partitioned};
    MakeKeepsUniqueAttributes(cookie, {A.Partitioned}, [A.Partitioned]);
    DecodeContent(cookie, [A.Partitioned]);
  }
}
