/**
 * The conventions every field value shares (`HTTPFieldContent`): a value is
 * known by its rendered text. Two values are equal when they render the same
 * text, the hash is computed from that text alone, and `description` is that
 * text. The conventions are stated once here, over the rendering function of
 * a type, and used by the modules of the individual field types.
 */
module FieldValue {
  import opened AsciiText

  /** `==`: the rendered texts (`fieldContent`) are equal. */
  predicate SameContent<T>(fieldContent: T -> Text, a: T, b: T) {
    fieldContent(a) == fieldContent(b)
  }

  /** `hash(into:)` combines only `fieldContent`; `hasher` is the hash of a text. */
  function Hash<T>(fieldContent: T -> Text, hasher: Text -> int, a: T): int {
    hasher(fieldContent(a))
  }

  /** `description`: the rendered text itself. */
  function Description<T>(fieldContent: T -> Text, a: T): Text {
    fieldContent(a)
  }

  /** Equal values hash equally, whatever the hash function of texts. */
  lemma EqualValuesHashEqually<T>(fieldContent: T -> Text, hasher: Text -> int, a: T, b: T)
    requires SameContent(fieldContent, a, b)
    ensures Hash(fieldContent, hasher, a) == Hash(fieldContent, hasher, b)
    ensures Description(fieldContent, a) == Description(fieldContent, b)
  {
  }

  /** Text equality is an equivalence relation, as `Hashable` requires of `==`. */
  lemma SameContentIsEquivalence<T>(fieldContent: T -> Text, a: T, b: T, c: T)
    ensures SameContent(fieldContent, a, a)
    ensures SameContent(fieldContent, a, b) ==> SameContent(fieldContent, b, a)
    ensures SameContent(fieldContent, a, b) && SameContent(fieldContent, b, c) ==> SameContent(fieldContent, a, c)
  {
  }

  /**
   * Where rendering is injective, text equality is structural equality, so a
   * Swift `Set` of such values behaves like a Dafny `set`.
   */
  lemma SameContentIsIdentity<T>(fieldContent: T -> Text, a: T, b: T)
    requires forall x: T, y: T :: fieldContent(x) == fieldContent(y) ==> x == y
    ensures SameContent(fieldContent, a, b) <==> a == b
  {
  }
}
