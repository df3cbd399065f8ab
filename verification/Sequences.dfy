/** What several of the models need of sequences: their elements, and a stable sort by a given order. */
module Sequences {

  ghost function Elements<T>(xs: seq<T>): set<T>
  {
    set x | x in xs
  }

  lemma NonEmptyElements<T>(xs: seq<T>)
    ensures xs != [] <==> Elements(xs) != {}
  {
    if xs != [] {
      assert xs[0] in Elements(xs);
    }
  }

  lemma AppendElement<T>(xs: seq<T>, x: T)
    ensures Elements(xs + [x]) == Elements(xs) + {x}
  {
  }

  lemma SameMembers<T>(a: seq<T>, b: seq<T>)
    requires multiset(a) == multiset(b)
    ensures forall x :: x in a <==> x in b
  {
    assert forall x :: x in a <==> x in multiset(a);
    assert forall x :: x in b <==> x in multiset(b);
  }

  ghost predicate Distinct<T>(xs: seq<T>)
  {
    forall i, j :: 0 <= i < j < |xs| ==> xs[i] != xs[j]
  }

  lemma AppendDistinct<T>(xs: seq<T>, x: T)
    requires Distinct(xs) && x !in Elements(xs)
    ensures Distinct(xs + [x])
  {
    forall i | 0 <= i < |xs|
      ensures xs[i] != x
    {
      assert xs[i] in Elements(xs);
    }
  }

  lemma CountsTwice<T>(s: seq<T>, i: nat, j: nat)
    requires i < j < |s|
    ensures s[i] == s[j] ==> multiset(s)[s[i]] >= 2
  {
    assert s == s[..i] + [s[i]] + s[i + 1..j] + [s[j]] + s[j + 1..];
  }

  lemma {:induction false} CountsOnce<T>(s: seq<T>, x: T)
    requires Distinct(s) && x in s
    ensures multiset(s)[x] == 1
    decreases |s|
  {
    assert s == [s[0]] + s[1..];
    if s[0] == x {
      assert x !in s[1..];
    } else {
      CountsOnce(s[1..], x);
    }
  }

  lemma DistinctInAnyOrder<T>(a: seq<T>, b: seq<T>)
    requires Distinct(a) && multiset(a) == multiset(b)
    ensures Distinct(b)
  {
    SameMembers(a, b);
    forall i, j | 0 <= i < j < |b|
      ensures b[i] != b[j]
    {
      CountsTwice(b, i, j);
      CountsOnce(a, b[i]);
    }
  }

  // ---- sorting ----

  /** A strict order in which not being before is transitive. */
  ghost predicate Orders<T(!new)>(before: (T, T) -> bool)
  {
    && (forall x, y :: before(x, y) ==> !before(y, x))
    && (forall x, y, z :: !before(y, x) && !before(z, y) ==> !before(z, x))
  }

  ghost predicate SortedBy<T>(before: (T, T) -> bool, xs: seq<T>)
  {
    forall i, j :: 0 <= i < j < |xs| ==> !before(xs[j], xs[i])
  }

  function InsertBy<T>(before: (T, T) -> bool, x: T, xs: seq<T>): seq<T>
  {
    if xs == [] || !before(xs[0], x) then [x] + xs else [xs[0]] + InsertBy(before, x, xs[1..])
  }

  function SortBy<T>(before: (T, T) -> bool, xs: seq<T>): seq<T>
  {
    if xs == [] then [] else InsertBy(before, xs[0], SortBy(before, xs[1..]))
  }

  /** Inserting keeps whatever bounds all elements from below. */
  lemma {:induction false} InsertByBounds<T>(before: (T, T) -> bool, x: T, xs: seq<T>, low: T)
    requires !before(x, low) && forall i :: 0 <= i < |xs| ==> !before(xs[i], low)
    ensures forall i :: 0 <= i < |InsertBy(before, x, xs)| ==> !before(InsertBy(before, x, xs)[i], low)
    decreases |xs|
  {
    if xs != [] && before(xs[0], x) {
      InsertByBounds(before, x, xs[1..], low);
    }
  }

  lemma {:induction false} InsertByKeepsOrder<T(!new)>(before: (T, T) -> bool, x: T, xs: seq<T>)
    requires Orders(before) && SortedBy(before, xs)
    ensures SortedBy(before, InsertBy(before, x, xs))
    decreases |xs|
  {
    if xs == [] {
    } else if !before(xs[0], x) {
      assert forall j :: 0 < j < |xs| ==> !before(xs[j], xs[0]);
    } else {
      InsertByKeepsOrder(before, x, xs[1..]);
      InsertByBounds(before, x, xs[1..], xs[0]);
    }
  }

  lemma {:induction false} InsertByAdds<T>(before: (T, T) -> bool, x: T, xs: seq<T>)
    ensures multiset(InsertBy(before, x, xs)) == multiset(xs) + multiset{x}
    decreases |xs|
  {
    if xs != [] && before(xs[0], x) {
      InsertByAdds(before, x, xs[1..]);
      assert xs == [xs[0]] + xs[1..];
    }
  }

  lemma {:induction false} SortBySorts<T(!new)>(before: (T, T) -> bool, xs: seq<T>)
    requires Orders(before)
    ensures SortedBy(before, SortBy(before, xs)) && multiset(SortBy(before, xs)) == multiset(xs)
    decreases |xs|
  {
    if xs != [] {
      SortBySorts(before, xs[1..]);
      InsertByKeepsOrder(before, xs[0], SortBy(before, xs[1..]));
      InsertByAdds(before, xs[0], SortBy(before, xs[1..]));
      assert xs == [xs[0]] + xs[1..];
    }
  }
}
