/** Small shared vocabulary: optional values, results, distinctness and subsequences. */
module Common {

  datatype Option<+T> = None | Some(value: T)

  datatype Result<+R, +E> = Success(value: R) | Failure(error: E)

  function Min(a: int, b: int): int {
    if a <= b then a else b
  }

  /** `f` applied to every element, the results concatenated in order. */
  function FlatMap<T, U>(f: T -> seq<U>, xs: seq<T>): seq<U> {
    if xs == [] then [] else f(xs[0]) + FlatMap(f, xs[1..])
  }

  /** Mapping a concatenation concatenates the mapped parts, in order. */
  lemma {:induction false} FlatMapAppend<T, U>(f: T -> seq<U>, a: seq<T>, b: seq<T>)
    ensures FlatMap(f, a + b) == FlatMap(f, a) + FlatMap(f, b)
  {
    if a == [] {
      assert a + b == b;
    } else {
      FlatMapAppend(f, a[1..], b);
      assert (a + b)[0] == a[0] && (a + b)[1..] == a[1..] + b;
      calc {
        FlatMap(f, a + b);
        f(a[0]) + FlatMap(f, a[1..] + b);
        f(a[0]) + (FlatMap(f, a[1..]) + FlatMap(f, b));
        (f(a[0]) + FlatMap(f, a[1..])) + FlatMap(f, b);
      }
    }
  }

  /** No element occurs twice. */
  predicate Distinct<T(==)>(xs: seq<T>) {
    forall i, j :: 0 <= i < j < |xs| ==> xs[i] != xs[j]
  }

  /** `pos` lists, in strictly increasing order, the positions in `b` that `a` was taken from. */
  predicate Embeds<T(==)>(pos: seq<nat>, a: seq<T>, b: seq<T>) {
    && |pos| == |a|
    && (forall i :: 0 <= i < |pos| ==> pos[i] < |b| && a[i] == b[pos[i]])
    && (forall i, j :: 0 <= i < j < |pos| ==> pos[i] < pos[j])
  }

  /** `a` is `b` with some elements left out and the rest kept in their order. */
  ghost predicate IsSubsequence<T>(a: seq<T>, b: seq<T>) {
    exists pos: seq<nat> :: Embeds(pos, a, b)
  }

  lemma EmptyIsSubsequence<T>(b: seq<T>)
    ensures IsSubsequence([], b)
  {
    assert Embeds([], [], b);
  }

  /** A subsequence stays one when the longer sequence grows, whether or not the new element is kept. */
  lemma SubsequenceExtend<T>(a: seq<T>, b: seq<T>, x: T)
    requires IsSubsequence(a, b)
    ensures IsSubsequence(a, b + [x])
    ensures IsSubsequence(a + [x], b + [x])
  {
    var pos: seq<nat> :| Embeds(pos, a, b);
    assert Embeds(pos, a, b + [x]);
    assert Embeds(pos + [|b|], a + [x], b + [x]);
  }

  /** In a sequence without repetitions every element occurs exactly once. */
  lemma {:induction false} DistinctCountsOne<T>(xs: seq<T>, x: T)
    requires Distinct(xs)
    ensures multiset(xs)[x] == if x in xs then 1 else 0
  {
    if xs != [] {
      var init := xs[..|xs| - 1];
      assert xs == init + [xs[|xs| - 1]];
      assert Distinct(init);
      DistinctCountsOne(init, x);
      assert xs[|xs| - 1] !in init;
    }
  }

  /** Drawing from a sequence without repetitions, without replacement, cannot repeat an element. */
  lemma SubBagOfDistinct<T>(a: seq<T>, b: seq<T>)
    requires Distinct(b)
    requires multiset(a) <= multiset(b)
    ensures Distinct(a)
    ensures forall x :: x in a ==> x in b
  {
    forall x | x in a
      ensures x in b
    {
      assert x in multiset(a);
    }
    forall i, j | 0 <= i < j < |a|
      ensures a[i] != a[j]
    {
      if a[i] == a[j] {
        var x := a[i];
        var rest := a[..i] + a[i + 1..];
        assert a == a[..i] + [a[i]] + a[i + 1..];
        assert x in rest by {
          assert rest[j - 1] == a[j];
        }
        assert multiset(a)[x] == multiset(rest)[x] + 1;
        assert multiset(rest)[x] >= 1;
        DistinctCountsOne(b, x);
        assert false;
      }
    }
  }
}
