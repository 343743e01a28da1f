/** What several components share. */
module Prelude {
  datatype Option<+T> = None | Some(value: T)

  /** No element occurs twice. */
  ghost predicate Distinct<T(!new)>(s: seq<T>) {
    forall i, j | 0 <= i < j < |s| :: s[i] != s[j]
  }

  /** The sequence without one element, the others in their order. */
  function Without<T(==)>(s: seq<T>, x: T): seq<T> {
    if s == [] then [] else Without(s[..|s| - 1], x) + (if s[|s| - 1] == x then [] else [s[|s| - 1]])
  }

  lemma {:induction false} WithoutMembers<T>(s: seq<T>, x: T)
    ensures forall y :: y in Without(s, x) <==> y in s && y != x
  {
    if s != [] {
      WithoutMembers(s[..|s| - 1], x);
    }
  }

  lemma WithoutEmpty<T(!new)>(s: seq<T>, x: T)
    ensures Without(s, x) == [] <==> forall y | y in s :: y == x
  {
    WithoutMembers(s, x);
    var rest := Without(s, x);
    if rest == [] {
      forall y | y in s
        ensures y == x
      {
        assert y in rest <==> y != x;
      }
    } else {
      assert rest[0] in rest;
      assert rest[0] in s && rest[0] != x;
    }
  }

  lemma DistinctFront<T(!new)>(s: seq<T>)
    requires s != [] && Distinct(s)
    ensures Distinct(s[..|s| - 1]) && s[|s| - 1] !in s[..|s| - 1]
  {
  }

  lemma DistinctSnoc<T(!new)>(s: seq<T>, x: T)
    requires Distinct(s) && x !in s
    ensures Distinct(s + [x])
  {
  }

  lemma {:induction false} WithoutDistinct<T(!new)>(s: seq<T>, x: T)
    requires Distinct(s)
    ensures Distinct(Without(s, x))
  {
    if s != [] {
      var front, last := s[..|s| - 1], s[|s| - 1];
      DistinctFront(s);
      WithoutDistinct(front, x);
      WithoutMembers(front, x);
      DistinctSnoc(Without(front, x), last);
      assert Without(front, x) + [] == Without(front, x);
    }
  }

  lemma Snoc<T>(s: seq<T>, x: T)
    ensures (s + [x])[..|s|] == s && (s + [x])[|s|] == x
  {
  }
}
