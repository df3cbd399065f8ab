/** The byte order of strings that sort.Strings uses, and the one strictly increasing list of a set of strings. */
module StringOrder {
  import opened Sequences

  predicate Less(a: string, b: string)
  {
    if b == "" then false
    else if a == "" then true
    else if a[0] != b[0] then a[0] < b[0]
    else Less(a[1..], b[1..])
  }

  /**
   The order spelled out: one string is less than another exactly when they agree up to a
   point where the first ends or has the smaller character.
   */
  lemma {:induction false} LessExactly(a: string, b: string)
    ensures Less(a, b) <==>
            exists n :: 0 <= n <= |a| && n < |b| && a[..n] == b[..n] && (n == |a| || a[n] < b[n])
    decreases |a|
  {
    if a != "" && b != "" && a[0] == b[0] {
      LessExactly(a[1..], b[1..]);
      assert a == [a[0]] + a[1..] && b == [b[0]] + b[1..];
      if n :| 0 <= n <= |a[1..]| && n < |b[1..]| && a[1..][..n] == b[1..][..n] && (n == |a[1..]| || a[1..][n] < b[1..][n]) {
        assert a[..n + 1] == [a[0]] + a[1..][..n] && b[..n + 1] == [b[0]] + b[1..][..n];
      }
      if n :| 0 <= n <= |a| && n < |b| && a[..n] == b[..n] && (n == |a| || a[n] < b[n]) {
        assert n > 0;
        assert a[1..][..n - 1] == a[..n][1..] && b[1..][..n - 1] == b[..n][1..];
      }
    } else if b != "" {
      assert a[..0] == b[..0];
      if a != "" {
        DifferAtOnce(a, b);
      }
    }
  }

  lemma DifferAtOnce(a: string, b: string)
    requires a != "" && b != "" && a[0] != b[0]
    ensures forall n :: 0 < n <= |a| && n < |b| ==> a[..n] != b[..n]
  {
    forall n | 0 < n <= |a| && n < |b|
      ensures a[..n] != b[..n]
    {
      assert a[..n][0] == a[0] && b[..n][0] == b[0];
    }
  }

  lemma {:induction false} LessTotal(a: string, b: string)
    ensures Less(a, b) || a == b || Less(b, a)
    ensures !(Less(a, b) && Less(b, a)) && !Less(a, a)
    decreases |a| + |b|
  {
    if a != "" && b != "" {
      LessTotal(a[1..], b[1..]);
      assert a == [a[0]] + a[1..] && b == [b[0]] + b[1..];
    }
    if a != "" {
      LessIrreflexive(a);
    }
  }

  lemma {:induction false} LessIrreflexive(a: string)
    ensures !Less(a, a)
  {
    if a != "" {
      LessIrreflexive(a[1..]);
    }
  }

  lemma {:induction false} LessTransitive(a: string, b: string, c: string)
    requires Less(a, b) && Less(b, c)
    ensures Less(a, c)
    decreases |a|
  {
    if a != "" && a[0] == b[0] && b[0] == c[0] {
      LessTransitive(a[1..], b[1..], c[1..]);
    }
  }

  /** Strictly increasing. */
  ghost predicate Increasing(xs: seq<string>)
  {
    forall i, j :: 0 <= i < j < |xs| ==> Less(xs[i], xs[j])
  }

  /** A set of strings has one increasing list. */
  lemma {:induction false} IncreasingUnique(xs: seq<string>, ys: seq<string>)
    requires Increasing(xs) && Increasing(ys) && Elements(xs) == Elements(ys)
    ensures xs == ys
    decreases |xs|
  {
    if xs == [] {
      NonEmptyElements(ys);
    } else {
      NonEmptyElements(xs);
      assert xs[0] in Elements(xs);
      assert ys[0] in Elements(ys);
      FirstIsLeast(xs, ys[0]);
      FirstIsLeast(ys, xs[0]);
      LessTotal(xs[0], ys[0]);
      TailElements(xs);
      TailElements(ys);
      IncreasingUnique(xs[1..], ys[1..]);
      assert xs == [xs[0]] + xs[1..] && ys == [ys[0]] + ys[1..];
    }
  }

  lemma FirstIsLeast(xs: seq<string>, x: string)
    requires Increasing(xs) && x in xs
    ensures xs[0] == x || Less(xs[0], x)
  {
    var i :| 0 <= i < |xs| && xs[i] == x;
  }

  lemma TailElements(xs: seq<string>)
    requires Increasing(xs) && xs != []
    ensures Increasing(xs[1..]) && Elements(xs[1..]) == Elements(xs) - {xs[0]}
  {
    LessIrreflexive(xs[0]);
    assert forall x :: x in xs <==> x == xs[0] || x in xs[1..];
    assert forall i :: 0 < i < |xs| ==> Less(xs[0], xs[i]);
  }

  lemma LessOrders()
    ensures Orders(Less)
  {
    forall x, y
      ensures Less(x, y) ==> !Less(y, x)
    {
      LessTotal(x, y);
    }
    forall x, y, z | !Less(y, x) && !Less(z, y)
      ensures !Less(z, x)
    {
      LessTotal(x, y);
      LessTotal(y, z);
      LessTotal(x, z);
      if Less(x, y) && Less(y, z) {
        LessTransitive(x, y, z);
      }
    }
  }

  /** sort.Strings. */
  function Sort(xs: seq<string>): seq<string>
  {
    SortBy(Less, xs)
  }

  /** Sorting strings that all differ gives their increasing list. */
  lemma SortSorts(xs: seq<string>)
    requires Distinct(xs)
    ensures Increasing(Sort(xs)) && Elements(Sort(xs)) == Elements(xs)
  {
    var s := Sort(xs);
    LessOrders();
    SortBySorts(Less, xs);
    DistinctInAnyOrder(xs, s);
    SameMembers(xs, s);
    forall i, j | 0 <= i < j < |s|
      ensures Less(s[i], s[j])
    {
      LessTotal(s[i], s[j]);
    }
  }
}
