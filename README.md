# swift-http-field-types in Dafny

A model of the string codecs of `swift-http-field-types`, a Swift library of typed
values for HTTP header fields. Each value renders to the text of its field
(`fieldContent`) and decodes from it (`init?(_:)`). The modelled types are:

- the field-value conventions (`HTTPFieldContent`): equality, hashing and
  `description` all go through the rendered text;
- `HTTPCookie`: one `name=value` pair with a percent-escaped value;
- `HTTPCookieField`: the `Cookie` request header, a dictionary from cookie name
  to stored value that mutating subscripts update in place;
- `HTTPSetCookieField.Attribute` and `HTTPSetCookieField`: the `Set-Cookie`
  response header, one cookie plus a set of attributes of eight kinds, with the
  rules that `Partitioned` and `SameSite=None` each need `Secure`;
- `HTTPRange.Unit`, in both copies: the range unit, also the `Accept-Ranges` value;
- `HTTPRange`: one range expression (`lo-hi`, `lo-`, `-k`) and its resolution
  to a half-open interval;
- `HTTPRangeField` and `HTTPContentRangeField`: the `Range` and
  `Content-Range` fields of sections 14.2 and 14.4 of RFC 9110.

Modules, one per Dafny file:

- `Wrappers` holds `Option`.
- `AsciiText` covers ASCII text, `components(separatedBy:)`, `split`, trimming,
  `Int(_:)`, integer interpolation and `lowercased()`.
- `Collections` covers sequences that enumerate sets and `compactMap`.
- `FieldValue`, `HTTPCookie`, `HTTPCookieField`, `HTTPDate`, `SetCookieAttributes`,
  `HTTPSetCookieField`, `RangeUnit`, `LegacyRangeUnit`, `HTTPRange`,
  `HTTPRangeField` and `HTTPContentRangeField` model the Swift types.

`HTTPCookieField` is a class whose `store: map<Text, Text>` field the setters
reassign. The `reduce(into:)` loops of the initialisers are methods with loop
invariants, proved against the functions that state what they build. Everything
else is pure functions over datatypes, with lemmas for round trips, rejections
and the quirks of the code.

Where the program would stop (a `ClosedRange` built with its bounds out of
order, an index past the end of a `split`, a `..<` with its bounds reversed),
the model has a precondition (`Traps`, `Decodable`, `Resolvable`). Each
precondition states exactly the inputs that stop the program.

## Model

| member | source | states |
|---|---|---|
| FieldValue.EqualValuesHashEqually | Sources/HTTPFieldTypes/HTTPFieldValue.swift:25-33 | two values with the same text hash equally, whatever the hash of texts, and have the same `description` |
| FieldValue.SameContentIsEquivalence | Sources/HTTPFieldTypes/HTTPFieldValue.swift:27-29 | equality by text is reflexive, symmetric and transitive, as `Hashable` requires |
| FieldValue.SameContentIsIdentity | Sources/HTTPFieldTypes/HTTPFieldValue.swift:27-29 | where rendering is injective, equality by text is structural equality |
| HTTPCookie.HexDigit | Sources/HTTPFieldTypes/Cookies/Helpers/HTTPCookie.swift:44-47 | the hexadecimal digits an escape writes are themselves characters the escape leaves alone |
| HTTPCookie.Escape | Sources/HTTPFieldTypes/Cookies/Helpers/HTTPCookie.swift:27-47 | the escaped value holds only allowed characters (no control, whitespace or separator) and is no shorter than the value |
| HTTPCookie.EscapeIdentityIff | Sources/HTTPFieldTypes/Cookies/Helpers/HTTPCookie.swift:27-47 | escaping leaves a value unchanged exactly when every character is allowed, so `%` passes through |
| HTTPCookie.UnescapePlain | Sources/HTTPFieldTypes/Cookies/Helpers/HTTPCookie.swift:51 | text without `%` percent-decodes to itself |
| HTTPCookie.UnescapeEscape | Sources/HTTPFieldTypes/Cookies/Helpers/HTTPCookie.swift:44-51 | percent-decoding undoes the escape for values without `%` |
| HTTPCookie.MakeCookie | Sources/HTTPFieldTypes/Cookies/Helpers/HTTPCookie.swift:49-53 | the name is kept and the stored value never begins or ends with `"` |
| HTTPCookie.MakeCookiePlain | Sources/HTTPFieldTypes/Cookies/Helpers/HTTPCookie.swift:49-53 | a value without `%` and without surrounding quotes is stored exactly as given |
| HTTPCookie.MakeCookieUndecodable | Sources/HTTPFieldTypes/Cookies/Helpers/HTTPCookie.swift:51-52 | a value that does not percent-decode is stored as given with its surrounding quotes trimmed, and exactly as given when it has none |
| HTTPCookie.DecodeNeedsOneEquals | Sources/HTTPFieldTypes/Cookies/Helpers/HTTPCookie.swift:59-64 | decoding succeeds exactly when the text holds one `=` |
| HTTPCookie.DecodeRejectsEqualsInValue | Sources/HTTPFieldTypes/Cookies/Helpers/HTTPCookie.swift:59-64 | `name=value` with `=` inside the value is rejected |
| HTTPCookie.DecodeNameValue | Sources/HTTPFieldTypes/Cookies/Helpers/HTTPCookie.swift:59-67 | a successful decode of `n=v` is the cookie `init(name: n, value: v)` builds |
| HTTPCookie.DecodeFieldContent | Sources/HTTPFieldTypes/Cookies/Helpers/HTTPCookie.swift:44-67 | round trip: a cookie whose name has no `=` or leading whitespace and whose value has no `%` or surrounding quotes decodes from its text |
| HTTPCookie.FieldContentHasNoWhitespace | Sources/HTTPFieldTypes/Cookies/Helpers/HTTPCookie.swift:55-57 | a name without whitespace gives a text without whitespace |
| HTTPCookie.PlainCookieText | Sources/HTTPFieldTypes/Cookies/Helpers/HTTPCookie.swift:55-67 | a plain cookie's text decodes back to it and holds no space |
| HTTPCookie.FieldContentDeterminesName | Sources/HTTPFieldTypes/Cookies/Helpers/HTTPCookie.swift:55-57 | cookies with the same text have the same name, so cookies rebuilt from distinct names never collapse in a `Set` |
| HTTPCookie.UnescapeSpace | Sources/HTTPFieldTypes/Cookies/Helpers/HTTPCookie.swift:51 | `%20` percent-decodes to a space |
| HTTPCookie.UnescapeEscapedPercent | Sources/HTTPFieldTypes/Cookies/Helpers/HTTPCookie.swift:51 | `%2520` percent-decodes to `%20` |
| HTTPCookie.EscapeSpace | Sources/HTTPFieldTypes/Cookies/Helpers/HTTPCookie.swift:44-47 | a space escapes to `%20` |
| HTTPCookie.EscapedAndPlainPercentRenderAlike | Sources/HTTPFieldTypes/Cookies/Helpers/HTTPCookie.swift:44-57 | the stored values ` ` and `%20` are different cookies with the same text, so they are equal as field values |
| HTTPCookieField.CookieMapNames | Sources/HTTPFieldTypes/Cookies/Fields/HTTPCookieField.swift:30-34 | the dictionary has one entry per name occurring in the cookie list |
| HTTPCookieField.CookieMapLastWins | Sources/HTTPFieldTypes/Cookies/Fields/HTTPCookieField.swift:30-34 | a name's entry is the value of the last cookie with that name |
| HTTPCookieField.LaterCookieWins | Sources/HTTPFieldTypes/Cookies/Fields/HTTPCookieField.swift:30-34 | cookies `a=1` then `a=2` leave the single entry `a` ↦ `2` |
| HTTPCookieField.CookieField.constructor | Sources/HTTPFieldTypes/Cookies/Fields/HTTPCookieField.swift:30-34 | the loop folds the cookies into the dictionary that `CookieMap` describes |
| HTTPCookieField.CookieField.Cookies | Sources/HTTPFieldTypes/Cookies/Fields/HTTPCookieField.swift:26-28 | every entry gives the cookie `init(name:value:)` rebuilds from the key and the stored value, and every cookie in the set is the one rebuilt from its own name's entry |
| HTTPCookieField.Rendered | Sources/HTTPFieldTypes/Cookies/Fields/HTTPCookieField.swift:36-40 | one text per listed name, the text of the cookie rebuilt from that name's entry |
| HTTPCookieField.DecodeCookies | Sources/HTTPFieldTypes/Cookies/Fields/HTTPCookieField.swift:42-52 | the decode succeeds exactly when every `"; "` element is a cookie, and then yields those cookies in order |
| HTTPCookieField.DecodeRendered | Sources/HTTPFieldTypes/Cookies/Fields/HTTPCookieField.swift:36-52 | the rendered entries of a store with plain names and values decode to the stored cookies, in the order rendered |
| HTTPCookieField.CookieField.Parse | Sources/HTTPFieldTypes/Cookies/Fields/HTTPCookieField.swift:42-54 | no field exactly when some element is not a cookie; otherwise a new field holding the dictionary of the decoded cookies |
| HTTPCookieField.EmptyRejected | Sources/HTTPFieldTypes/Cookies/Fields/HTTPCookieField.swift:42-52 | an empty header value is rejected |
| HTTPCookieField.FieldContentRoundTrip | Sources/HTTPFieldTypes/Cookies/Fields/HTTPCookieField.swift:36-54 | round trip: a non-empty field with plain names and values decodes from its text, in whatever order the entries are rendered |
| HTTPCookieField.CookieField.Get | Sources/HTTPFieldTypes/Cookies/Fields/HTTPCookieField.swift:61-64 | a cookie exactly when the name has an entry, rebuilt from the stored value under that name |
| HTTPCookieField.CookieField.Set | Sources/HTTPFieldTypes/Cookies/Fields/HTTPCookieField.swift:65-71 | `nil` removes the entry; a cookie stores its value under the subscript name whatever its own name; every other entry is unchanged |
| HTTPCookieField.CookieField.SetCookie | Sources/HTTPFieldTypes/Cookies/Fields/HTTPCookieField.swift:56-59 | stores the percent-decoded, quote-trimmed value, or removes the entry for `nil` |
| HTTPCookieField.CookieField.GetValue | Sources/HTTPFieldTypes/Cookies/Fields/HTTPCookieField.swift:74-77 | the raw stored value, with no decoding |
| HTTPCookieField.CookieField.SetValue | Sources/HTTPFieldTypes/Cookies/Fields/HTTPCookieField.swift:77-79 | stores the raw value or removes the entry; nothing else changes |
| HTTPCookieField.ReadBackPlain | Sources/HTTPFieldTypes/Cookies/Fields/HTTPCookieField.swift:56-64 | a value without `%` stored by `set(cookie:to:)` reads back unchanged through `subscript(name:)` |
| HTTPCookieField.ReadBackDecodesAgain | Sources/HTTPFieldTypes/Cookies/Fields/HTTPCookieField.swift:56-64 | a value with `%` is decoded again on every read: `%2541` is stored as `%41` and reads back as `A` |
| HTTPDate.Parse | Sources/HTTPFieldTypes/Dates/HTTPDate.swift:50-53 | a date exactly for texts of the IMF-fixdate shape, rendering back to the same text |
| HTTPDate.DateText | Sources/HTTPFieldTypes/Dates/HTTPDate.swift:46-53 | a rendered date parses back and holds no `=`, no `;` and no whitespace at its edges |
| SetCookieAttributes.ParseSameSite | Sources/HTTPFieldTypes/Cookies/Helpers/HTTPSetCookie+Attributes.swift:131-149 | only `Strict`, `Lax` and `None`, case included, and the value renders back to the text |
| SetCookieAttributes.SameSiteRoundTrip | Sources/HTTPFieldTypes/Cookies/Helpers/HTTPSetCookie+Attributes.swift:131-149 | every SameSite value decodes from its text |
| SetCookieAttributes.ParseName | Sources/HTTPFieldTypes/Cookies/Helpers/HTTPSetCookie+Attributes.swift:168-176 | a key is recognised only if it is the exact text of a kind |
| SetCookieAttributes.ParseNameText | Sources/HTTPFieldTypes/Cookies/Helpers/HTTPSetCookie+Attributes.swift:168-176 | every kind is recognised from its own key |
| SetCookieAttributes.Render | Sources/HTTPFieldTypes/Cookies/Helpers/HTTPSetCookie+Attributes.swift:79-96 | `Key=payload` for the five kinds that carry a value, the bare key for the three flags |
| SetCookieAttributes.FromPieces | Sources/HTTPFieldTypes/Cookies/Helpers/HTTPSetCookie+Attributes.swift:104-128 | a result only when the first piece is a known key and the number of pieces is that kind's |
| SetCookieAttributes.PiecesOfKeyText | Sources/HTTPFieldTypes/Cookies/Helpers/HTTPSetCookie+Attributes.swift:99-102 | `key=payload` with no `=` in the payload splits into the key and the payload less its trailing whitespace |
| SetCookieAttributes.PiecesOfRender | Sources/HTTPFieldTypes/Cookies/Helpers/HTTPSetCookie+Attributes.swift:79-106 | a parsable attribute's text splits into its key and, for the five kinds that carry one, its payload, as many pieces as `splitStrElCount` asks |
| SetCookieAttributes.Parse | Sources/HTTPFieldTypes/Cookies/Helpers/HTTPSetCookie+Attributes.swift:99-129 | the trimmed text splits on every `=`; the key decides the kind and the piece count must match it |
| SetCookieAttributes.RenderShape | Sources/HTTPFieldTypes/Cookies/Helpers/HTTPSetCookie+Attributes.swift:79-96 | a renderable attribute's text is non-empty, holds no `;` and has no whitespace at its edges |
| SetCookieAttributes.ParseRender | Sources/HTTPFieldTypes/Cookies/Helpers/HTTPSetCookie+Attributes.swift:79-129 | round trip: every attribute whose `Domain` or `Path` payload has no `=` and no trailing whitespace decodes from its text; every other attribute always does |
| SetCookieAttributes.RenderParse | Sources/HTTPFieldTypes/Cookies/Helpers/HTTPSetCookie+Attributes.swift:79-129 | a decoded attribute renders back to the trimmed text, except that `Max-Age` writes its number canonically |
| SetCookieAttributes.RenderInjective | Sources/HTTPFieldTypes/Cookies/Helpers/HTTPSetCookie+Attributes.swift:79-96 | different attributes render different texts, so equality by text is structural equality |
| SetCookieAttributes.RenderSameKind | Sources/HTTPFieldTypes/Cookies/Helpers/HTTPSetCookie+Attributes.swift:155-176 | attributes with the same text have the same `name` |
| SetCookieAttributes.FlagWithPayloadRejected | Sources/HTTPFieldTypes/Cookies/Helpers/HTTPSetCookie+Attributes.swift:99-106 | a flag key followed by `=` and any payload at all, `Secure=1`, `Secure= ` and `Secure=` included, is rejected: a flag takes one piece |
| SetCookieAttributes.PayloadWithEqualsRejected | Sources/HTTPFieldTypes/Cookies/Helpers/HTTPSetCookie+Attributes.swift:100-106 | any key followed by a payload holding `=`, such as `Path=/a=b`, is rejected: three or more pieces |
| SetCookieAttributes.LowerCaseKeyRejected | Sources/HTTPFieldTypes/Cookies/Helpers/HTTPSetCookie+Attributes.swift:104-105 | keys are case-sensitive: a bare word starting with a lower-case letter, such as `secure`, is rejected |
| SetCookieAttributes.UnknownSameSiteRejected | Sources/HTTPFieldTypes/Cookies/Helpers/HTTPSetCookie+Attributes.swift:99-127 | `SameSite=` with a payload that has no `=` and, less trailing whitespace, is not `Strict`, `Lax` or `None` is rejected |
| SetCookieAttributes.MalformedDateRejected | Sources/HTTPFieldTypes/Cookies/Helpers/HTTPSetCookie+Attributes.swift:99-113 | `Expires=` with a payload that has no `=` and, less trailing whitespace, is not a date is rejected |
| SetCookieAttributes.MalformedMaxAgeRejected | Sources/HTTPFieldTypes/Cookies/Helpers/HTTPSetCookie+Attributes.swift:99-118 | `Max-Age=` with a payload that has no `=` and, less trailing whitespace, is not an integer is rejected |
| SetCookieAttributes.DomainAndPathVerbatim | Sources/HTTPFieldTypes/Cookies/Helpers/HTTPSetCookie+Attributes.swift:99-122 | any `Domain` or `Path` payload without `=` is kept with no validation, only its trailing whitespace trimmed |
| HTTPSetCookieField.KeepFirstOfEachKindKinds | Sources/HTTPFieldTypes/Cookies/Fields/HTTPSetCookieField.swift:31-37 | the fold keeps only given attributes, and keeps every kind that occurs |
| HTTPSetCookieField.KeepFirstOfEachKindUnique | Sources/HTTPFieldTypes/Cookies/Fields/HTTPSetCookieField.swift:31-37 | the fold never keeps two attributes of one kind |
| HTTPSetCookieField.KeepFirstOfEachKindFirst | Sources/HTTPFieldTypes/Cookies/Fields/HTTPSetCookieField.swift:33-36 | the attribute kept for a kind is the first of that kind in visiting order |
| HTTPSetCookieField.Make | Sources/HTTPFieldTypes/Cookies/Fields/HTTPSetCookieField.swift:31-37 | the field keeps the cookie and a subset of the attributes, one per kind, every kind still represented, first of each kind kept |
| HTTPSetCookieField.Init | Sources/HTTPFieldTypes/Cookies/Fields/HTTPSetCookieField.swift:31-37 | the `reduce(into:)` loop builds exactly the field `Make` describes |
| HTTPSetCookieField.MakeKeepsUniqueAttributes | Sources/HTTPFieldTypes/Cookies/Fields/HTTPSetCookieField.swift:31-37 | attributes already one per kind are kept whole, in any visiting order |
| HTTPSetCookieField.MakeSkipsSecureRules | Sources/HTTPFieldTypes/Cookies/Fields/HTTPSetCookieField.swift:31-37 | the memberwise init accepts `Partitioned` without `Secure`, and the text of that field does not decode |
| HTTPSetCookieField.Renders | Sources/HTTPFieldTypes/Cookies/Fields/HTTPSetCookieField.swift:39-45 | one text per attribute, its rendering, in the listed order |
| HTTPSetCookieField.ElementsOfContent | Sources/HTTPFieldTypes/Cookies/Fields/HTTPSetCookieField.swift:39-50 | the `; ` elements of a plain field's text are the cookie's text followed by each attribute's text |
| HTTPSetCookieField.Decode | Sources/HTTPFieldTypes/Cookies/Fields/HTTPSetCookieField.swift:47-73 | a decoded field's cookie is the first element's cookie and its attributes keep the `Secure` rules |
| HTTPSetCookieField.Parse | Sources/HTTPFieldTypes/Cookies/Fields/HTTPSetCookieField.swift:47-73 | the `reduce(into:)` loop over the elements gives exactly `Decode`'s result |
| HTTPSetCookieField.DecodeSucceedsIff | Sources/HTTPFieldTypes/Cookies/Fields/HTTPSetCookieField.swift:47-73 | success exactly when the first element is a cookie, every other element is an attribute, no two are equal and the `Secure` rules hold |
| HTTPSetCookieField.DecodeContent | Sources/HTTPFieldTypes/Cookies/Fields/HTTPSetCookieField.swift:39-73 | the text of a cookie and attribute list decodes exactly when no attribute repeats and the `Secure` rules hold, to the cookie and the attribute set |
| HTTPSetCookieField.DecodeFieldContent | Sources/HTTPFieldTypes/Cookies/Fields/HTTPSetCookieField.swift:39-73 | round trip: a plain field that keeps the `Secure` rules decodes from its text in any attribute order |
| HTTPSetCookieField.DecodeKeepsRepeatedKinds | Sources/HTTPFieldTypes/Cookies/Fields/HTTPSetCookieField.swift:60-66 | `Domain=x; Domain=y` decodes with both attributes, although the memberwise init would keep one |
| HTTPSetCookieField.DecodeRejectsRepeatedAttribute | Sources/HTTPFieldTypes/Cookies/Fields/HTTPSetCookieField.swift:60-66 | an attribute written twice makes the set smaller than the element count, so decoding fails |
| HTTPSetCookieField.PartitionedNeedsSecure | Sources/HTTPFieldTypes/Cookies/Fields/HTTPSetCookieField.swift:66-68 | `Partitioned` alone is rejected; with `Secure` it is accepted |
| HTTPSetCookieField.SameSiteNoneNeedsSecure | Sources/HTTPFieldTypes/Cookies/Fields/HTTPSetCookieField.swift:69-70 | `SameSite=None` alone is rejected, `SameSite=Lax` alone accepted |
| RangeUnit.Parse | Sources/HTTPFieldTypes/Ranges/Helpers/HTTPRange+Unit.swift:31-36 | every text is a unit; it is `bytes` exactly when it lower-cases to `bytes` |
| RangeUnit.FieldContentParse | Sources/HTTPFieldTypes/Ranges/Helpers/HTTPRange+Unit.swift:31-44 | rendering a decoded text gives it back exactly unless it is `bytes` in other letter case, which comes back as `bytes` |
| RangeUnit.ParseFieldContentSameContent | Sources/HTTPFieldTypes/Ranges/Helpers/HTTPRange+Unit.swift:31-44 | under text equality a rendered unit decodes to itself except an `other` spelling `bytes` with a capital |
| RangeUnit.SameContentIff | Sources/HTTPFieldTypes/Ranges/Helpers/HTTPRange+Unit.swift:39-44 | two units are equal as field values exactly when equal, or one is `bytes` and the other `other("bytes")` |
| RangeUnit.CaseInsensitiveBytes | Sources/HTTPFieldTypes/Ranges/Helpers/HTTPRange+Unit.swift:31-36 | `BYTES` and `Bytes` decode to `bytes`; `bits` stays `other("bits")` |
| LegacyRangeUnit.ParseRawValue | Sources/HTTPRanges/HTTPRange+Unit.swift:26-39 | under structural equality a rendered unit decodes to itself exactly unless it is an `other` reading `bytes` in some case |
| LegacyRangeUnit.OtherBytesDiffers | Sources/HTTPRanges/HTTPRange+Unit.swift:16-39 | `other("bytes")` and `bytes` render alike but differ, and the first does not survive a round trip |
| LegacyRangeUnit.RawValueInjectiveElsewhere | Sources/HTTPRanges/HTTPRange+Unit.swift:34-39 | apart from that pair, units with the same text are the same unit |
| HTTPRange.FromCleaned | Sources/HTTPFieldTypes/Ranges/Helpers/HTTPRange.swift:42-59 | a `fromEnd` comes from text with a leading `-`, a `partialFrom` from text with a trailing `-`, a `closed` from exactly two dash-separated pieces |
| HTTPRange.Parse | Sources/HTTPFieldTypes/Ranges/Helpers/HTTPRange.swift:37-60 | a decoded closed range has 0 ≤ lo ≤ hi, its bounds being read between dashes; `fromEnd` needs a leading dash and `partialFrom` a trailing one in the text read |
| HTTPRange.FieldContentChars | Sources/HTTPFieldTypes/Ranges/Helpers/HTTPRange.swift:63-72 | a rendered range is non-empty and made of digits and dashes |
| HTTPRange.ParseReadsCleanedPart | Sources/HTTPFieldTypes/Ranges/Helpers/HTTPRange.swift:38-40 | decoding reads only what follows the last `=` and precedes the first `, ` |
| HTTPRange.ParseClosed | Sources/HTTPFieldTypes/Ranges/Helpers/HTTPRange.swift:37-72 | `lo-hi` with 0 ≤ lo ≤ hi decodes to `closed(lo...hi)` |
| HTTPRange.ParsePartialFrom | Sources/HTTPFieldTypes/Ranges/Helpers/HTTPRange.swift:37-72 | `lo-` decodes to `partialFrom(lo...)` for every integer |
| HTTPRange.ParseFromEnd | Sources/HTTPFieldTypes/Ranges/Helpers/HTTPRange.swift:37-72 | `-k` decodes to `fromEnd(k)` for every integer |
| HTTPRange.ParseFieldContent | Sources/HTTPFieldTypes/Ranges/Helpers/HTTPRange.swift:37-72 | round trip for every range whose closed lower bound is not negative |
| HTTPRange.ParseNegativeClosed | Sources/HTTPFieldTypes/Ranges/Helpers/HTTPRange.swift:42-48 | a closed range with a negative lower bound loses its signs, and stops the program exactly when the magnitudes are out of order |
| HTTPRange.NegativeClosedTraps | Sources/HTTPFieldTypes/Ranges/Helpers/HTTPRange.swift:45-48 | the text `-3--1` of `closed(-3 ... -1)` stops the decoder |
| HTTPRange.Relative | Sources/HTTPFieldTypes/Ranges/Helpers/HTTPRange.swift:78-91 | an interval that is never reversed, ends at the end for open ranges, and covers k + 1 elements for `fromEnd(k)` |
| HTTPRange.Contains | Sources/HTTPFieldTypes/Ranges/Helpers/HTTPRange.swift:93-102 | `fromEnd` contains every element |
| HTTPRange.RelativeMatchesContains | Sources/HTTPFieldTypes/Ranges/Helpers/HTTPRange.swift:78-102 | for closed and open ranges the resolved interval holds exactly the contained elements, up to the end of the collection |
| HTTPRange.FromEndContainsOutside | Sources/HTTPFieldTypes/Ranges/Helpers/HTTPRange.swift:86-100 | `fromEnd(k)` contains the end index, which its interval excludes |
| HTTPRange.RelativeExamples | Tests/HTTPRangesTests/HTTPRangesTests.swift:8-19 | over eleven elements `closed(0...4)`, `partialFrom(5...)` and `fromEnd(4)` resolve to [0,5), [5,11) and [6,11) |
| HTTPRange.SuffixCoversOneMore | Sources/HTTPFieldTypes/Ranges/Helpers/HTTPRange.swift:23-26 | `-500` is `fromEnd(500)` and over 1000 elements covers the last 501 |
| HTTPRangeField.RenderedRanges | Sources/HTTPFieldTypes/Ranges/Fields/HTTPRangeField.swift:29-31 | one text per range, its rendering, in order |
| HTTPRangeField.ParsedRanges | Sources/HTTPFieldTypes/Ranges/Fields/HTTPRangeField.swift:39-43 | the decoded ranges are no more than the elements |
| HTTPRangeField.ParsedRangesSingle | Sources/HTTPFieldTypes/Ranges/Fields/HTTPRangeField.swift:39-43 | one element gives its range when it decodes and nothing otherwise |
| HTTPRangeField.ParsedRangesAppend | Sources/HTTPFieldTypes/Ranges/Fields/HTTPRangeField.swift:39-43 | the ranges of a run of elements are the ranges of its parts, in order, so with the single case they fix the result |
| HTTPRangeField.ParsedRangesDrop | Sources/HTTPFieldTypes/Ranges/Fields/HTTPRangeField.swift:39-43 | an element that is not a range is skipped without a trace, wherever it stands |
| HTTPRangeField.ParsedRenderedRanges | Sources/HTTPFieldTypes/Ranges/Fields/HTTPRangeField.swift:29-43 | rendered ranges with no closed range below zero decode back to the same ranges, none dropped |
| HTTPRangeField.Decode | Sources/HTTPFieldTypes/Ranges/Fields/HTTPRangeField.swift:33-46 | decoding never fails, the unit is the decoded first piece, and no more ranges come out than elements go in |
| HTTPRangeField.ElementsOfText | Sources/HTTPFieldTypes/Ranges/Fields/HTTPRangeField.swift:33-40 | `unit=e1, e2, …` with a plain unit and elements free of `=` and `, ` splits into the unit and exactly those elements |
| HTTPRangeField.ElementsOfFieldContent | Sources/HTTPFieldTypes/Ranges/Fields/HTTPRangeField.swift:29-40 | a rendered field splits into its unit's text and the rendered ranges |
| HTTPRangeField.SkipsNonRanges | Sources/HTTPFieldTypes/Ranges/Fields/HTTPRangeField.swift:33-46 | `bytes=0-1, x, 5-` decodes to `closed(0...1)` and `partialFrom(5...)`, the element `x` skipped |
| HTTPRangeField.DecodeFieldContent | Sources/HTTPFieldTypes/Ranges/Fields/HTTPRangeField.swift:29-46 | round trip for a field with at least one range, a plain unit and no closed range below zero |
| HTTPRangeField.EmptyRangesNotDecodable | Sources/HTTPFieldTypes/Ranges/Fields/HTTPRangeField.swift:29-39 | a field with no ranges renders `bytes=`, which has no second piece, so decoding it stops the program |
| HTTPRangeField.ByteRangesText | Tests/HTTPRangesTests/HTTPRangesTests.swift:40-53 | the four byte ranges render `bytes=200-999, 2000-2499, 9500-, -500` |
| HTTPRangeField.ByteRangesExample | Tests/HTTPRangesTests/HTTPRangesTests.swift:23-38 | that text decodes to the four byte ranges |
| HTTPContentRangeField.ParseSize | Sources/HTTPFieldTypes/Ranges/Fields/HTTPContentRangeField.swift:94-102 | unknown exactly for `*`, and no size for empty text |
| HTTPContentRangeField.SizeRoundTrip | Sources/HTTPFieldTypes/Ranges/Fields/HTTPContentRangeField.swift:84-102 | every size decodes from its text |
| HTTPContentRangeField.DecodeAsWritten | Sources/HTTPFieldTypes/Ranges/Fields/HTTPContentRangeField.swift:41-69 | a decoded field comes from exactly two tokens, its unit decoded from the first |
| HTTPContentRangeField.DecodeAsWrittenStable | Sources/HTTPFieldTypes/Ranges/Fields/HTTPContentRangeField.swift:41-69 | whatever decodes has a plain unit and a range not below zero, and decodes from its own text to the same field |
| HTTPContentRangeField.SlashCountRefused | Sources/HTTPFieldTypes/Ranges/Fields/HTTPContentRangeField.swift:50-54 | text after the unit without exactly one `/` is refused |
| HTTPContentRangeField.RangeShapeRefused | Sources/HTTPFieldTypes/Ranges/Fields/HTTPContentRangeField.swift:57-68 | a range part that is neither `*` nor holds exactly one `-` is refused |
| HTTPContentRangeField.BoundsNotIntegersRefused | Sources/HTTPFieldTypes/Ranges/Fields/HTTPContentRangeField.swift:57-68 | a range `lo-hi` whose bounds are not both integers is refused |
| HTTPContentRangeField.Decode | Sources/HTTPFieldTypes/Ranges/Fields/HTTPContentRangeField.swift:41-69 | the decoder as written, except that a range and a size both `*` are refused |
| HTTPContentRangeField.GuardIsRedundant | Sources/HTTPFieldTypes/Ranges/Fields/HTTPContentRangeField.swift:46-54 | the tokens `*` and `*` fail at the `/` split anyway, so the guard never decides |
| HTTPContentRangeField.DecodeRangeText | Sources/HTTPFieldTypes/Ranges/Fields/HTTPContentRangeField.swift:50-68 | `range/size` text gives back the range (or `*`) and the size |
| HTTPContentRangeField.TokensOfFieldContent | Sources/HTTPFieldTypes/Ranges/Fields/HTTPContentRangeField.swift:36-47 | a rendered field with a plain unit splits into the unit and `range/size` |
| HTTPContentRangeField.DecodeAsWrittenFieldContent | Sources/HTTPFieldTypes/Ranges/Fields/HTTPContentRangeField.swift:36-69 | round trip of the decoder as written for a plain unit and a range not below zero, `*/*` included |
| HTTPContentRangeField.DecodeFieldContent | Sources/HTTPFieldTypes/Ranges/Fields/HTTPContentRangeField.swift:36-69 | the corrected decoder gives back every such field except `*/*`, which it refuses |
| HTTPContentRangeField.StarStarAccepted | Sources/HTTPFieldTypes/Ranges/Fields/HTTPContentRangeField.swift:46-65 | for every plain unit, `unit */*` decodes as written but is refused by the corrected decoder |
| HTTPContentRangeField.ExampleTexts | Tests/HTTPRangesTests/HTTPRangesTests.swift:92-114 | the three fields render `bytes 200-1000/67589`, `test 200-1000/*` and `test */67589` |
| HTTPContentRangeField.Examples | Tests/HTTPRangesTests/HTTPRangesTests.swift:57-90 | those texts decode to the three fields |

## Left out

- Text is ASCII (`AsciiText.Char`). Foundation's Unicode whitespace set, Unicode `lowercased()` and the UTF-8 side of percent-decoding are not modelled.
- HTTPCookie.Unescape: an escape of a byte at or above 128 fails, because the model has no UTF-8 decoding; Foundation would decode a valid UTF-8 sequence.
- HTTPDate.Parse: a date is its text, accepted when it has the IMF-fixdate shape of section 7.1.1.1 of RFC 7231. Calendar validity and the leniency of Foundation's `DateFormatter` are not modelled, and neither is the underlying `Date`. The `Expires` cases of `SetCookieAttributes.ParseRender` and `SetCookieAttributes.RenderParse` rest on this choice: the date text renders back exactly as read, where Foundation would re-format a parsed `Date`.
- Swift `Int` is 64-bit; the model uses unbounded `int`. Overflow in `Int(_:)` and in `-(index + 1)` is not modelled.
- HTTPRange.Parse: the `ClosedRange` precondition (lower ≤ upper) stops the program; the model states it as the precondition `!Traps(raw)`.
- HTTPRangeField.Decode: indexing the second piece of a text with fewer than two `=`-separated pieces stops the program; the model requires `Decodable`.
- HTTPContentRangeField.DecodeAsWritten: a range `lo-hi` with lo above hi stops the program; the model requires `!Traps`.
- SetCookieAttributes.ParseRender: holds for `Domain` and `Path` payloads without `=` and without trailing whitespace (`Parsable`). Other payloads do not come back: `=` adds a piece and trailing whitespace is trimmed, as `PayloadWithEqualsRejected` and `DomainAndPathVerbatim` state.
- HTTPRange.Relative: holds for a collection indexed by integers that steps by one and ends at `endIndex`. It requires `Resolvable`, the inputs on which `..<` does not stop the program. A general `Collection` is not modelled.
- HTTPRange.Contains: requires `index ≥ 0` for `fromEnd`, since `-index...0` stops the program otherwise.
- The `split(maxSplits: 2, …)` calls are modelled as an unlimited split. The limit only affects text beyond the second piece, which neither decoder reads; comments in `range_field.dfy` and `content_range_field.dfy` argue this, and it is not proved.
- The iteration order of a Swift `Set` or `Dictionary` is unspecified. Renderings that depend on it take an `order` parameter that must list the collection exactly once, and the lemmas hold for every such order.
- HTTPCookieField.CookieField: the Swift type is a struct with value semantics; the model is a class with one `map` field, so copies and aliasing are not modelled.
- `HTTPContentRangeField` renders through a property named `fieldValue` and decodes through `init?(_ fieldValue:)`. The model calls these `FieldContent` and `Decode` like the other types.
- The `fieldName` constants, the `HTTPAcceptRangesField` type alias and the string- and integer-literal initialisers carry no logic. The literal initialisers are `RangeUnit.Parse` and `Known`.
- The `init(_ range:)` conveniences of `HTTPRange` are the constructors themselves.
- The `RawRepresentable` bridge (`HTTPFieldValue.swift:36-41`) has no counterpart of its own. Each model type has one rendering function and one decoding function, which stand for both `rawValue`/`init?(rawValue:)` and `fieldContent`/`init?(_:)`.
- `RangeUnit.NoUnit` models `none` as the absent `Option`.
- The `HTTPFields` subscripts and accessors (`HTTPFieldValue.swift:49-56` and the `HTTPFields+…` files) are glue onto the external `HTTPTypes` container, and are not part of this model. So is the Accept-Ranges `none` mapping that lives in that glue.
- Sources/HTTPHeaderTypes/HTTPFieldValue.swift is a protocol declaration with no logic, and is not part of this model.
- The commented-out `Collection` subscript of `HTTPRange.swift` is not code and is not modelled; `Relative` covers the resolution it would use.

## Findings

| source | as written | input that shows it | evidently intended | confidence | as-written member | corrected member |
|---|---|---|---|---|---|---|
| Sources/HTTPFieldTypes/Ranges/Fields/HTTPContentRangeField.swift:47 | the guard compares the two space-separated tokens, the unit and the `range/size` text, with `["*", "*"]`, so it never looks at the range and the size | `bytes */*` decodes to (bytes, no range, unknown size) | refuse a value whose range and size are both `*`, as the comment on line 46 says and as section 14.4 of RFC 9110 requires (an unsatisfied range must give the complete length) | not executed | HTTPContentRangeField.StarStarAccepted | HTTPContentRangeField.Decode |
