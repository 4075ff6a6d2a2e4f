/**
 * Sequences that enumerate sets. Swift does not fix the iteration order of a
 * `Set` or a `Dictionary`; where a rendering depends on that order the model
 * takes the order as a parameter that must enumerate the collection.
 */
module Collections {
  import opened Wrappers

  predicate Distinct<T(==)>(xs: seq<T>) {
    forall i, j :: 0 <= i < j < |xs| ==> xs[i] != xs[j]
  }

  function ToSet<T(==)>(xs: seq<T>): set<T> {
    set x | x in xs
  }

  /** `order` lists every element of `s` exactly once. */
  predicate Enumerates<T(==)>(order: seq<T>, s: set<T>) {
    Distinct(order) && ToSet(order) == s
  }

  /** A sequence has as many distinct elements as entries exactly when no entry repeats. */
  lemma {:induction false} ToSetCard<T>(xs: seq<T>)
    ensures |ToSet(xs)| <= |xs|
    ensures |ToSet(xs)| == |xs| <==> Distinct(xs)
    decreases |xs|
  {
    if xs != [] {
      var rest := xs[1..];
      ToSetCard(rest);
      assert ToSet(xs) == {xs[0]} + ToSet(rest);
      if xs[0] in rest {
        assert ToSet(xs) == ToSet(rest);
        var j :| 0 <= j < |rest| && rest[j] == xs[0];
        assert xs[j + 1] == xs[0];
      } else {
        assert Distinct(xs) <==> Distinct(rest) by {
          if Distinct(rest) {
            forall i, j | 0 <= i < j < |xs| ensures xs[i] != xs[j] {
              if i > 0 { assert xs[i] == rest[i - 1] && xs[j] == rest[j - 1]; }
              else { assert xs[j] == rest[j - 1]; }
            }
          }
          if Distinct(xs) {
            forall i, j | 0 <= i < j < |rest| ensures rest[i] != rest[j] {
              assert rest[i] == xs[i + 1] && rest[j] == xs[j + 1];
            }
          }
        }
      }
    }
  }

  /** `f` may be applied to every element. */
  ghost predicate Defined<T, U>(f: T --> U, xs: seq<T>) {
    forall i :: 0 <= i < |xs| ==> f.requires(xs[i])
  }

  /**
   * Swift's `compactMap`, and the `reduce(into: [])` loops that append only
   * the elements that convert: the converted elements, in order. A
   * conversion that stops the program on some inputs is a partial `f`.
   */
  function CompactMap<T, U>(f: T --> Option<U>, xs: seq<T>): (r: seq<U>)
    requires Defined(f, xs)
    ensures |r| <= |xs|
    decreases |xs|
  {
    if xs == [] then []
    else
      var front := CompactMap(f, xs[..|xs| - 1]);
      match f(xs[|xs| - 1])
      case None => front
      case Some(y) => front + [y]
  }

  /** Whether every element converts. */
  predicate AllConvert<T, U>(f: T --> Option<U>, xs: seq<T>)
    requires Defined(f, xs)
  {
    forall i :: 0 <= i < |xs| ==> f(xs[i]).Some?
  }

  /** Nothing is dropped exactly when every element converts, and then the result is the elementwise conversion. */
  lemma {:induction false} CompactMapAll<T, U>(f: T --> Option<U>, xs: seq<T>)
    requires Defined(f, xs)
    ensures |CompactMap(f, xs)| == |xs| <==> AllConvert(f, xs)
    ensures AllConvert(f, xs) ==> forall i :: 0 <= i < |xs| ==> CompactMap(f, xs)[i] == f(xs[i]).value
    decreases |xs|
  {
    if xs != [] {
      var front := xs[..|xs| - 1];
      assert forall i :: 0 <= i < |front| ==> front[i] == xs[i];
      CompactMapAll(f, front);
    }
  }

  /** A single element gives its conversion, or nothing. */
  lemma CompactMapSingle<T, U>(f: T --> Option<U>, x: T)
    requires f.requires(x)
    ensures Defined(f, [x])
    ensures f(x).Some? ==> CompactMap(f, [x]) == [f(x).value]
    ensures f(x).None? ==> CompactMap(f, [x]) == []
  {
    assert [x][..0] == [];
  }

  /** `compactMap` distributes over concatenation. */
  lemma {:induction false} CompactMapAppend<T, U>(f: T --> Option<U>, a: seq<T>, b: seq<T>)
    requires Defined(f, a) && Defined(f, b)
    ensures Defined(f, a + b)
    ensures CompactMap(f, a + b) == CompactMap(f, a) + CompactMap(f, b)
    decreases |b|
  {
    assert forall i :: 0 <= i < |a + b| ==> (a + b)[i] == if i < |a| then a[i] else b[i - |a|];
    if b == [] {
      assert a + b == a;
    } else {
      var front := b[..|b| - 1];
      assert forall i :: 0 <= i < |front| ==> front[i] == b[i];
      CompactMapAppend(f, a, front);
      assert (a + b)[..|a + b| - 1] == a + front;
    }
  }

  /** An element that does not convert is dropped without a trace, wherever it stands. */
  lemma CompactMapDrop<T, U>(f: T --> Option<U>, a: seq<T>, x: T, b: seq<T>)
    requires Defined(f, a) && f.requires(x) && Defined(f, b) && f(x).None?
    ensures Defined(f, a + [x] + b) && Defined(f, a + b)
    ensures CompactMap(f, a + [x] + b) == CompactMap(f, a + b)
  {
    CompactMapSingle(f, x);
    CompactMapAppend(f, a, [x]);
    CompactMapAppend(f, a + [x], b);
    CompactMapAppend(f, a, b);
  }
}
