/**
 * The Foundation and Swift standard-library string operations that the field
 * codecs are built from, on US-ASCII text: whitespace trimming,
 * `components(separatedBy:)`, `split(separator:)`, `joined(separator:)`,
 * `Int(_:)` parsing, integer interpolation and `lowercased()`.
 */
module AsciiText {
  import opened Wrappers

  /** A US-ASCII character: header field values are ASCII text. */
  type Char = c: char | c as int < 128
  type Text = seq<Char>

  /** `CharacterSet.whitespacesAndNewlines` restricted to ASCII: tab, LF, VT, FF, CR and space. */
  predicate IsWhitespace(c: Char) {
    c == ' ' || 9 <= c as int <= 13
  }

  /** `CharacterSet.controlCharacters` restricted to ASCII: 0 to 31 and 127. */
  predicate IsControl(c: Char) {
    c as int < 32 || c as int == 127
  }

  predicate IsDigit(c: Char) {
    '0' <= c <= '9'
  }

  // ---------------------------------------------------------------------
  // trimmingCharacters(in:)

  /** Drops every leading character that satisfies `p`. */
  function TrimStart(s: Text, p: Char -> bool): Text
    decreases |s|
  {
    if s != [] && p(s[0]) then TrimStart(s[1..], p) else s
  }

  /** Drops every trailing character that satisfies `p`. */
  function TrimEnd(s: Text, p: Char -> bool): Text
    decreases |s|
  {
    if s != [] && p(s[|s| - 1]) then TrimEnd(s[..|s| - 1], p) else s
  }

  /** `TrimStart` keeps a suffix that does not start with `p`, having dropped only `p` characters. */
  lemma {:induction false} TrimStartSpec(s: Text, p: Char -> bool)
    ensures var r := TrimStart(s, p);
      |r| <= |s| && r == s[|s| - |r|..] && (r != [] ==> !p(r[0])) &&
      forall i :: 0 <= i < |s| - |r| ==> p(s[i])
    decreases |s|
  {
    if s != [] && p(s[0]) {
      TrimStartSpec(s[1..], p);
      var r := TrimStart(s, p);
      assert forall i :: 1 <= i < |s| - |r| ==> s[i] == s[1..][i - 1];
    }
  }

  /** `TrimEnd` keeps a prefix that does not end with `p`, having dropped only `p` characters. */
  lemma {:induction false} TrimEndSpec(s: Text, p: Char -> bool)
    ensures var r := TrimEnd(s, p);
      |r| <= |s| && r == s[..|r|] && (r != [] ==> !p(r[|r| - 1])) &&
      forall i :: |r| <= i < |s| ==> p(s[i])
    decreases |s|
  {
    if s != [] && p(s[|s| - 1]) {
      TrimEndSpec(s[..|s| - 1], p);
    }
  }

  /** Trailing `p` characters come off the tail only, once the head ends in a character outside `p`. */
  lemma {:induction false} TrimEndAppend(a: Text, b: Text, p: Char -> bool)
    requires a != [] && !p(a[|a| - 1])
    ensures TrimEnd(a + b, p) == a + TrimEnd(b, p)
    decreases |b|
  {
    if b == [] {
      assert a + b == a;
    } else if p(b[|b| - 1]) {
      assert (a + b)[..|a + b| - 1] == a + b[..|b| - 1];
      TrimEndAppend(a, b[..|b| - 1], p);
    } else {
      assert (a + b)[|a + b| - 1] == b[|b| - 1];
    }
  }

  /** Trimming the end brings in no character the text did not hold. */
  lemma TrimEndKeepsAbsent(s: Text, p: Char -> bool, c: Char)
    requires c !in s
    ensures c !in TrimEnd(s, p)
  {
    TrimEndSpec(s, p);
    var r := TrimEnd(s, p);
    forall i | 0 <= i < |r| ensures r[i] != c {
      assert r[i] == s[i];
    }
  }

  /** `trimmingCharacters(in:)`: removes all leading and all trailing characters satisfying `p`. */
  function Trim(s: Text, p: Char -> bool): Text {
    TrimEnd(TrimStart(s, p), p)
  }

  /** The trimmed text neither starts nor ends with a character satisfying `p`. */
  lemma TrimEdges(s: Text, p: Char -> bool)
    ensures var r := Trim(s, p); r == [] || (!p(r[0]) && !p(r[|r| - 1]))
  {
    TrimStartSpec(s, p);
    TrimEndSpec(TrimStart(s, p), p);
  }

  /** Trimming brings in no character the text did not hold. */
  lemma TrimKeepsAbsent(s: Text, p: Char -> bool, c: Char)
    requires c !in s
    ensures c !in Trim(s, p)
  {
    var t := TrimStart(s, p);
    TrimStartSpec(s, p);
    TrimEndSpec(t, p);
    var r := Trim(s, p);
    forall i | 0 <= i < |r| ensures r[i] != c {
      assert r[i] == t[i] == s[|s| - |t| + i];
    }
  }

  function TrimWhitespace(s: Text): Text {
    Trim(s, IsWhitespace)
  }

  /** Text that neither starts nor ends with a character satisfying `p` is left alone. */
  lemma TrimUnchanged(s: Text, p: Char -> bool)
    requires s == [] || (!p(s[0]) && !p(s[|s| - 1]))
    ensures Trim(s, p) == s
  {
  }

  // ---------------------------------------------------------------------
  // components(separatedBy:) and joined(separator:)

  /** Whether `sep` occurs somewhere in `s`. */
  predicate Contains(s: Text, sep: Text)
    requires sep != []
    decreases |s|
  {
    |s| >= |sep| && (s[..|sep|] == sep || Contains(s[1..], sep))
  }

  /**
   * `components(separatedBy:)`: the pieces between the leftmost
   * non-overlapping occurrences of `sep`, empty pieces included.
   */
  function Components(s: Text, sep: Text): (r: seq<Text>)
    requires sep != []
    ensures |r| >= 1
    decreases |s|
  {
    if |s| < |sep| then [s]
    else if s[..|sep|] == sep then [[]] + Components(s[|sep|..], sep)
    else
      var rest := Components(s[1..], sep);
      [[s[0]] + rest[0]] + rest[1..]
  }

  /** `joined(separator:)`. */
  function Join(xs: seq<Text>, sep: Text): Text
    decreases |xs|
  {
    if |xs| == 0 then []
    else if |xs| == 1 then xs[0]
    else xs[0] + sep + Join(xs[1..], sep)
  }

  /** No proper suffix of `sep` is also a prefix of it (true of "=", "; " and ", "). */
  predicate BorderFree(sep: Text) {
    forall k :: 0 < k < |sep| ==> sep[k..] != sep[..|sep| - k]
  }

  /** A separator of two different characters, such as `; ` or `, `. */
  lemma TwoCharBorderFree(a: Char, b: Char)
    requires a != b
    ensures BorderFree([a, b])
  {
    assert [a, b][1..] == [b] && [a, b][..1] == [a];
  }

  lemma {:induction false} ComponentsOfFree(s: Text, sep: Text)
    requires sep != [] && !Contains(s, sep)
    ensures Components(s, sep) == [s]
    decreases |s|
  {
    if |s| >= |sep| {
      ComponentsOfFree(s[1..], sep);
      assert [s[0]] + s[1..] == s;
    }
  }

  /** A border-free separator cannot start inside a non-empty `p` that does not start with it. */
  lemma SeparatorNotAtStart(p: Text, sep: Text, q: Text)
    requires sep != [] && BorderFree(sep) && p != []
    requires !(|p| >= |sep| && p[..|sep|] == sep)
    ensures (p + sep + q)[..|sep|] != sep
  {
    var s := p + sep + q;
    if |p| < |sep| {
      var k := |p|;
      assert s[k..|sep|] == sep[..|sep| - k];
      assert s[..|sep|][k..] == s[k..|sep|];
      assert sep[k..] != sep[..|sep| - k];
    } else {
      assert s[..|sep|] == p[..|sep|];
    }
  }

  /** Splitting text that has a separator between `p` and `q` splits `p` and `q` apart. */
  lemma {:induction false} ComponentsAppend(p: Text, sep: Text, q: Text)
    requires sep != [] && BorderFree(sep)
    ensures Components(p + sep + q, sep) == Components(p, sep) + Components(q, sep)
    decreases |p|
  {
    var s := p + sep + q;
    if p == [] {
      assert s[..|sep|] == sep && s[|sep|..] == q;
      assert Components(s, sep) == [[]] + Components(q, sep);
    } else if |p| >= |sep| && p[..|sep|] == sep {
      assert s[..|sep|] == sep;
      assert s[|sep|..] == p[|sep|..] + sep + q;
      ComponentsAppend(p[|sep|..], sep, q);
    } else {
      SeparatorNotAtStart(p, sep, q);
      assert s[1..] == p[1..] + sep + q;
      ComponentsAppend(p[1..], sep, q);
      var rest := Components(s[1..], sep);
      var rp := Components(p[1..], sep);
      assert Components(s, sep) == [[s[0]] + rest[0]] + rest[1..];
      if |p| < |sep| {
        assert rp == [p[1..]];
        assert [p[0]] + p[1..] == p;
      } else {
        assert Components(p, sep) == [[p[0]] + rp[0]] + rp[1..];
      }
    }
  }

  /** Splitting a join of separator-free pieces gives back the pieces. */
  lemma {:induction false} ComponentsOfJoin(xs: seq<Text>, sep: Text)
    requires sep != [] && BorderFree(sep) && |xs| >= 1
    requires forall i :: 0 <= i < |xs| ==> !Contains(xs[i], sep)
    ensures Components(Join(xs, sep), sep) == xs
    decreases |xs|
  {
    if |xs| == 1 {
      ComponentsOfFree(xs[0], sep);
    } else {
      ComponentsAppend(xs[0], sep, Join(xs[1..], sep));
      ComponentsOfFree(xs[0], sep);
      ComponentsOfJoin(xs[1..], sep);
    }
  }

  /** An empty first piece puts the separator in front of the rest. */
  lemma JoinEmptyHead(rest: seq<Text>, sep: Text)
    requires |rest| >= 1
    ensures Join([[]] + rest, sep) == sep + Join(rest, sep)
  {
    assert ([[]] + rest)[1..] == rest;
  }

  /** A character added to the first piece comes first in the join. */
  lemma JoinExtendedHead(c: Char, rest: seq<Text>, sep: Text)
    requires |rest| >= 1
    ensures Join([[c] + rest[0]] + rest[1..], sep) == [c] + Join(rest, sep)
  {
    var r := [[c] + rest[0]] + rest[1..];
    if |rest| > 1 {
      assert r[1..] == rest[1..];
      assert Join(r, sep) == [c] + rest[0] + sep + Join(rest[1..], sep);
    }
  }

  /** Joining the pieces with the separator gives the text back. */
  lemma {:induction false} JoinComponents(s: Text, sep: Text)
    requires sep != []
    ensures Join(Components(s, sep), sep) == s
    decreases |s|
  {
    if |s| < |sep| {
      assert Components(s, sep) == [s];
    } else if s[..|sep|] == sep {
      var rest := Components(s[|sep|..], sep);
      assert Components(s, sep) == [[]] + rest;
      JoinComponents(s[|sep|..], sep);
      JoinEmptyHead(rest, sep);
      assert s == s[..|sep|] + s[|sep|..];
    } else {
      var rest := Components(s[1..], sep);
      assert Components(s, sep) == [[s[0]] + rest[0]] + rest[1..];
      JoinComponents(s[1..], sep);
      JoinExtendedHead(s[0], rest, sep);
      assert s == [s[0]] + s[1..];
    }
  }

  /** No piece holds the separator character. */
  lemma {:induction false} ComponentsCharFree(s: Text, c: Char)
    ensures forall i :: 0 <= i < |Components(s, [c])| ==> c !in Components(s, [c])[i]
    decreases |s|
  {
    if |s| >= 1 {
      var rest := Components(s[1..], [c]);
      ComponentsCharFree(s[1..], c);
      if s[..1] != [c] {
        assert s[0] != c;
        assert Components(s, [c]) == [[s[0]] + rest[0]] + rest[1..];
      }
    }
  }

  /** Text that does not start with the separator has a first piece starting with its first character. */
  lemma ComponentsHead(s: Text, c: Char)
    requires s != [] && s[0] != c
    ensures Components(s, [c])[0] != [] && Components(s, [c])[0][0] == s[0]
  {
    assert s[..1] == [s[0]];
  }

  /** Splitting `a c b` on a character `c` that neither side holds gives the two sides. */
  lemma ComponentsAroundChar(a: Text, c: Char, b: Text)
    requires c !in a && c !in b
    ensures Components(a + [c] + b, [c]) == [a, b]
  {
    ContainsChar(a, c);
    ContainsChar(b, c);
    ComponentsAppend(a, [c], b);
    ComponentsOfFree(a, [c]);
    ComponentsOfFree(b, [c]);
  }

  /** Non-empty, and neither starts nor ends with whitespace. */
  predicate Edged(t: Text) {
    t != [] && !IsWhitespace(t[0]) && !IsWhitespace(t[|t| - 1])
  }

  /** Joining edged texts gives an edged text, which trimming leaves alone. */
  lemma {:induction false} JoinEdged(texts: seq<Text>, sep: Text)
    requires |texts| >= 1 && forall i :: 0 <= i < |texts| ==> Edged(texts[i])
    ensures Edged(Join(texts, sep))
    decreases |texts|
  {
    if |texts| > 1 {
      JoinEdged(texts[1..], sep);
      var rest := Join(texts[1..], sep);
      var j := texts[0] + sep + rest;
      assert j[0] == texts[0][0];
      assert j[|j| - 1] == rest[|rest| - 1];
    }
  }

  /** A character in neither the pieces nor the separator is not in their join. */
  lemma {:induction false} JoinFree(xs: seq<Text>, sep: Text, c: Char)
    requires c !in sep && forall i :: 0 <= i < |xs| ==> c !in xs[i]
    ensures c !in Join(xs, sep)
    decreases |xs|
  {
    if |xs| > 1 {
      JoinFree(xs[1..], sep, c);
    }
  }

  /** A separator does not occur in text that lacks one of its characters. */
  lemma {:induction false} NotContains(s: Text, sep: Text, c: Char)
    requires sep != [] && c in sep && c !in s
    ensures !Contains(s, sep)
    decreases |s|
  {
    if |s| >= |sep| {
      var k :| 0 <= k < |sep| && sep[k] == c;
      assert s[..|sep|][k] != c;
      NotContains(s[1..], sep, c);
    }
  }

  /** A one-character separator occurs exactly where that character does. */
  lemma {:induction false} ContainsChar(s: Text, c: Char)
    ensures Contains(s, [c]) <==> c in s
    decreases |s|
  {
    if s != [] {
      ContainsChar(s[1..], c);
      assert s == [s[0]] + s[1..];
    }
  }

  function Count(s: Text, c: Char): nat
    decreases |s|
  {
    if s == [] then 0 else (if s[0] == c then 1 else 0) + Count(s[1..], c)
  }

  /** Splitting on a character gives one more piece than there are occurrences of it. */
  lemma {:induction false} ComponentsCount(s: Text, c: Char)
    ensures |Components(s, [c])| == Count(s, c) + 1
    decreases |s|
  {
    if s != [] {
      ComponentsCount(s[1..], c);
    }
  }

  lemma {:induction false} CountZero(s: Text, c: Char)
    ensures Count(s, c) == 0 <==> c !in s
    decreases |s|
  {
    if s != [] {
      CountZero(s[1..], c);
      assert s == [s[0]] + s[1..];
    }
  }

  lemma {:induction false} CountAppend(a: Text, b: Text, c: Char)
    ensures Count(a + b, c) == Count(a, c) + Count(b, c)
    decreases |a|
  {
    if a != [] {
      CountAppend(a[1..], b, c);
      assert (a + b)[1..] == a[1..] + b;
      assert Count(a + b, c) == (if a[0] == c then 1 else 0) + Count(a[1..] + b, c);
    } else {
      assert a + b == b;
    }
  }

  /** Trimming characters other than `c` keeps every `c`. */
  lemma {:induction false} CountTrimStart(s: Text, p: Char -> bool, c: Char)
    requires !p(c)
    ensures Count(TrimStart(s, p), c) == Count(s, c)
    decreases |s|
  {
    if s != [] && p(s[0]) {
      CountTrimStart(s[1..], p, c);
    }
  }

  lemma {:induction false} CountTrimEnd(s: Text, p: Char -> bool, c: Char)
    requires !p(c)
    ensures Count(TrimEnd(s, p), c) == Count(s, c)
    decreases |s|
  {
    if s != [] && p(s[|s| - 1]) {
      var front := s[..|s| - 1];
      CountTrimEnd(front, p, c);
      CountAppend(front, [s[|s| - 1]], c);
      assert front + [s[|s| - 1]] == s;
    }
  }

  /** Swift's `split(separator:)` drops the empty pieces that `components` keeps. */
  function NonEmpty(xs: seq<Text>): (r: seq<Text>)
    ensures |r| <= |xs|
    ensures forall x :: x in r ==> x != [] && x in xs
    ensures forall x :: x in xs && x != [] ==> x in r
    decreases |xs|
  {
    if xs == [] then []
    else (if xs[0] == [] then [] else [xs[0]]) + NonEmpty(xs[1..])
  }

  /** `split(separator: c)`: the maximal non-empty runs of characters other than `c`. */
  function Split(s: Text, c: Char): seq<Text> {
    NonEmpty(Components(s, [c]))
  }

  lemma {:induction false} NonEmptyAppend(xs: seq<Text>, ys: seq<Text>)
    ensures NonEmpty(xs + ys) == NonEmpty(xs) + NonEmpty(ys)
    decreases |xs|
  {
    if xs == [] {
      assert xs + ys == ys;
    } else {
      var head: seq<Text> := if xs[0] == [] then [] else [xs[0]];
      assert (xs + ys)[0] == xs[0];
      assert (xs + ys)[1..] == xs[1..] + ys;
      assert NonEmpty(xs + ys) == head + NonEmpty(xs[1..] + ys);
      assert NonEmpty(xs) == head + NonEmpty(xs[1..]);
      NonEmptyAppend(xs[1..], ys);
    }
  }

  /** Splitting at an occurrence of `c` splits the two sides on their own. */
  lemma SplitAround(p: Text, c: Char, q: Text)
    ensures Split(p + [c] + q, c) == Split(p, c) + Split(q, c)
  {
    ComponentsAppend(p, [c], q);
    NonEmptyAppend(Components(p, [c]), Components(q, [c]));
  }

  /** Text without `c` is one piece, or none when it is empty. */
  /** No piece of a split holds the separator character. */
  lemma SplitCharFree(s: Text, c: Char)
    ensures forall x :: x in Split(s, c) ==> x != [] && c !in x
  {
    ComponentsCharFree(s, c);
  }

  /** Text that does not start with the separator has a first split piece starting with its first character. */
  lemma SplitHead(s: Text, c: Char)
    requires s != [] && s[0] != c
    ensures Split(s, c) != [] && Split(s, c)[0][0] == s[0]
  {
    ComponentsHead(s, c);
    var xs := Components(s, [c]);
    assert Split(s, c) == [xs[0]] + NonEmpty(xs[1..]);
  }

  lemma SplitFree(s: Text, c: Char)
    requires c !in s
    ensures Split(s, c) == if s == [] then [] else [s]
  {
    NotContains(s, [c], c);
    ComponentsOfFree(s, [c]);
  }

  // ---------------------------------------------------------------------
  // Int(_:) and "\(n)"

  predicate AllDigits(s: Text) {
    forall i :: 0 <= i < |s| ==> IsDigit(s[i])
  }

  function DigitsValue(s: Text): nat
    requires AllDigits(s)
    decreases |s|
  {
    if s == [] then 0 else 10 * DigitsValue(s[..|s| - 1]) + (s[|s| - 1] as int - '0' as int)
  }

  /**
   * `Int(_ description: String)`: an optional `+` or `-` followed by one or
   * more decimal digits; anything else (the empty text, a bare sign,
   * whitespace) is no integer. Overflow of the 64-bit range is not modelled.
   */
  function ParseInt(s: Text): (r: Option<int>)
    ensures r.Some? ==> s != [] && IsDigit(s[|s| - 1])
    ensures r.Some? ==> forall i :: 1 <= i < |s| ==> IsDigit(s[i])
    ensures r.Some? && '-' !in s ==> r.value >= 0
  {
    if |s| > 0 && (s[0] == '+' || s[0] == '-') then
      var d := s[1..];
      if d != [] && AllDigits(d) then
        var v: int := if s[0] == '-' then -(DigitsValue(d) as int) else DigitsValue(d);
        Some(v)
      else None
    else if s != [] && AllDigits(s) then Some(DigitsValue(s))
    else None
  }

  function DigitChar(d: nat): (c: Char)
    requires d < 10
    ensures IsDigit(c) && c as int - '0' as int == d
  {
    ('0' as int + d) as char
  }

  /** Decimal digits of `n`, most significant first, no leading zeros. */
  function NatText(n: nat): (r: Text)
    ensures r != [] && AllDigits(r)
    decreases n
  {
    if n < 10 then [DigitChar(n)] else NatText(n / 10) + [DigitChar(n % 10)]
  }

  /** Swift's interpolation of an `Int`: a `-` for negative numbers, then the digits. */
  function IntText(n: int): (r: Text)
    ensures r != [] && IsDigit(r[|r| - 1])
    ensures forall i :: 0 <= i < |r| ==> IsDigit(r[i]) || (i == 0 && r[i] == '-')
    ensures r[0] == '-' <==> n < 0
  {
    if n < 0 then ['-'] + NatText(-n) else NatText(n)
  }

  lemma {:induction false} NatTextValue(n: nat)
    ensures DigitsValue(NatText(n)) == n
    decreases n
  {
    if n >= 10 {
      NatTextValue(n / 10);
      var t := NatText(n);
      assert t[..|t| - 1] == NatText(n / 10);
    }
  }

  /** Parsing an interpolated integer gives the integer back. */
  lemma IntTextRoundTrip(n: int)
    ensures ParseInt(IntText(n)) == Some(n)
  {
    if n < 0 {
      NatTextValue(-n);
      assert IntText(n)[1..] == NatText(-n);
    } else {
      NatTextValue(n);
    }
  }

  lemma IntTextInjective(m: int, n: int)
    requires IntText(m) == IntText(n)
    ensures m == n
  {
    IntTextRoundTrip(m);
    IntTextRoundTrip(n);
  }

  // ---------------------------------------------------------------------
  // lowercased()

  function LowerChar(c: Char): Char {
    if 'A' <= c <= 'Z' then (c as int + 32) as char else c
  }

  function Lower(s: Text): (r: Text)
    ensures |r| == |s| && forall i :: 0 <= i < |s| ==> r[i] == LowerChar(s[i])
  {
    seq(|s|, i requires 0 <= i < |s| => LowerChar(s[i]))
  }
}
