/** The byte order that Go's `sort.Strings` uses.  On valid UTF-8 it is the
    lexicographic order of the Unicode scalar values, which is the form modelled. */
module StringOrder {
  import opened Basics

  predicate Le(a: string, b: string) {
    a == "" || (b != "" && (a[0] < b[0] || (a[0] == b[0] && Le(a[1..], b[1..]))))
  }

  predicate Sorted(xs: seq<string>) {
    forall i, j :: 0 <= i < j < |xs| ==> Le(xs[i], xs[j])
  }

  lemma {:induction false} LeTotal(a: string, b: string)
    ensures Le(a, b) || Le(b, a)
  {
    if a != "" && b != "" && a[0] == b[0] {
      LeTotal(a[1..], b[1..]);
    }
  }

  lemma {:induction false} LeReflexive(a: string)
    ensures Le(a, a)
  {
    if a != "" {
      LeReflexive(a[1..]);
    }
  }

  lemma {:induction false} LeAntisymmetric(a: string, b: string)
    requires Le(a, b) && Le(b, a)
    ensures a == b
  {
    if a != "" && b != "" {
      LeAntisymmetric(a[1..], b[1..]);
      assert a == [a[0]] + a[1..] && b == [b[0]] + b[1..];
    }
  }

  lemma {:induction false} LeTransitive(a: string, b: string, c: string)
    requires Le(a, b) && Le(b, c)
    ensures Le(a, c)
  {
    if a != "" && a[0] == b[0] == c[0] {
      LeTransitive(a[1..], b[1..], c[1..]);
    }
  }

  /** Insertion into a sorted list. */
  function Insert(x: string, xs: seq<string>): (r: seq<string>)
    ensures multiset(r) == multiset(xs) + multiset{x}
    ensures Sorted(xs) ==> Sorted(r)
  {
    if xs == [] then [x]
    else if Le(x, xs[0]) then
      assert multiset([x] + xs) == multiset{x} + multiset(xs);
      assert Sorted(xs) ==> Sorted([x] + xs) by { InsertFrontSorted(x, xs); }
      [x] + xs
    else
      var rest := Insert(x, xs[1..]);
      assert xs == [xs[0]] + xs[1..];
      assert multiset([xs[0]] + rest) == multiset{xs[0]} + multiset(rest);
      assert Sorted(xs) ==> Sorted([xs[0]] + rest) by { InsertLaterSorted(x, xs, rest); }
      [xs[0]] + rest
  }

  lemma InsertFrontSorted(x: string, xs: seq<string>)
    requires xs != [] && Le(x, xs[0])
    ensures Sorted(xs) ==> Sorted([x] + xs)
  {
    if Sorted(xs) {
      forall j | 0 <= j < |xs| ensures Le(x, xs[j]) {
        if j > 0 { LeTransitive(x, xs[0], xs[j]); }
      }
    }
  }

  lemma InsertLaterSorted(x: string, xs: seq<string>, rest: seq<string>)
    requires xs != [] && !Le(x, xs[0])
    requires multiset(rest) == multiset(xs[1..]) + multiset{x}
    requires Sorted(xs[1..]) ==> Sorted(rest)
    ensures Sorted(xs) ==> Sorted([xs[0]] + rest)
  {
    if Sorted(xs) {
      LeTotal(x, xs[0]);
      forall j | 0 <= j < |rest| ensures Le(xs[0], rest[j]) {
        assert rest[j] in multiset(rest);
        if rest[j] != x {
          assert rest[j] in multiset(xs[1..]);
        }
      }
    }
  }

  /** `sort.Strings`, as a function of the list it sorts. */
  function Sort(xs: seq<string>): (r: seq<string>)
    ensures Sorted(r)
    ensures multiset(r) == multiset(xs)
  {
    if xs == [] then []
    else
      assert xs == [xs[0]] + xs[1..];
      Insert(xs[0], Sort(xs[1..]))
  }

  lemma HeadIsLeast(xs: seq<string>, y: string)
    requires Sorted(xs) && y in multiset(xs)
    ensures xs != [] && Le(xs[0], y)
  {
    LeReflexive(y);
  }

  lemma HeadAndTail(xs: seq<string>)
    requires xs != []
    ensures multiset(xs[1..]) == multiset(xs) - multiset{xs[0]}
  {
    assert xs == [xs[0]] + xs[1..];
  }

  /** A sorted list is determined by its elements and their multiplicities. */
  lemma {:induction false} SortedUnique(xs: seq<string>, ys: seq<string>)
    requires Sorted(xs) && Sorted(ys) && multiset(xs) == multiset(ys)
    ensures xs == ys
  {
    if xs == [] {
      assert |multiset(ys)| == 0;
    } else {
      assert xs[0] in multiset(ys);
      HeadIsLeast(ys, xs[0]);
      assert ys[0] in multiset(xs);
      HeadIsLeast(xs, ys[0]);
      LeAntisymmetric(xs[0], ys[0]);
      HeadAndTail(xs);
      HeadAndTail(ys);
      SortedUnique(xs[1..], ys[1..]);
      assert xs == [xs[0]] + xs[1..] && ys == [ys[0]] + ys[1..];
    }
  }

  lemma {:induction false} SortOfPermutation(xs: seq<string>, ys: seq<string>)
    requires multiset(xs) == multiset(ys)
    ensures Sort(xs) == Sort(ys)
  {
    SortedUnique(Sort(xs), Sort(ys));
  }

  /** The keys of a map in sorted order, which no iteration order can influence. */
  ghost function KeyOrder(keys: set<string>): (r: seq<string>)
    ensures Sorted(r) && Distinct(r) && Elements(r) == keys
  {
    if keys == {} then []
    else
      var k :| k in keys;
      var rest := KeyOrder(keys - {k});
      var r := Insert(k, rest);
      assert Distinct(r) && Elements(r) == keys by { InsertNew(k, rest); }
      r
  }

  lemma DistinctMultiset<T>(xs: seq<T>)
    ensures Distinct(xs) <==> forall x :: multiset(xs)[x] <= 1
  {
    if xs != [] {
      var rest := xs[..|xs| - 1];
      DistinctMultiset(rest);
      assert xs == rest + [xs[|xs| - 1]];
      if Distinct(xs) {
        assert xs[|xs| - 1] !in rest;
      } else if Distinct(rest) {
        var i, j :| 0 <= i < j < |xs| && xs[i] == xs[j];
        assert j == |xs| - 1 && rest[i] == xs[j];
        assert multiset(xs)[xs[j]] >= 2;
      } else {
        var x :| multiset(rest)[x] > 1;
        assert multiset(xs)[x] > 1;
      }
    }
  }

  lemma {:induction false} InsertNew(k: string, rest: seq<string>)
    requires Distinct(rest) && k !in rest
    ensures Distinct(Insert(k, rest)) && Elements(Insert(k, rest)) == Elements(rest) + {k}
  {
    var r := Insert(k, rest);
    DistinctMultiset(rest);
    forall x ensures multiset(r)[x] <= 1 {
    }
    DistinctMultiset(r);
    forall x ensures x in Elements(r) <==> x in Elements(rest) + {k} {
      assert x in r <==> x in multiset(r);
      assert x in rest <==> x in multiset(rest);
    }
  }

  /** Sorting a list that enumerates a key set in any order gives the same list. */
  lemma SortOfEnumeration(xs: seq<string>)
    requires Distinct(xs)
    ensures Sort(xs) == KeyOrder(Elements(xs))
  {
    var ks := KeyOrder(Elements(xs));
    DistinctMultiset(xs);
    DistinctMultiset(ks);
    forall x ensures multiset(xs)[x] == multiset(ks)[x] {
      assert x in multiset(xs) <==> x in Elements(xs);
      assert x in multiset(ks) <==> x in Elements(ks);
    }
    assert multiset(xs) == multiset(ks);
    SortedUnique(Sort(xs), ks);
  }
}
