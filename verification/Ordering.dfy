/** ORDER BY: sorting by a strict total order has one possible outcome. */
module Ordering {
  import opened Common

  ghost predicate StrictTotalOn<T(!new)>(less: (T, T) -> bool, dom: set<T>) {
    && (forall x :: x in dom ==> !less(x, x))
    && (forall x, y :: x in dom && y in dom && x != y ==> less(x, y) || less(y, x))
    && (forall x, y, z :: x in dom && y in dom && z in dom && less(x, y) && less(y, z) ==> less(x, z))
  }

  ghost predicate Ordered<T(!new)>(less: (T, T) -> bool, s: seq<T>) {
    forall i, j :: 0 <= i < j < |s| ==> !less(s[j], s[i])
  }

  function Insert<T>(less: (T, T) -> bool, x: T, s: seq<T>): (r: seq<T>)
    ensures multiset(r) == multiset(s) + multiset{x}
  {
    if s == [] then [x]
    else if less(s[0], x) then assert s == [s[0]] + s[1..]; [s[0]] + Insert(less, x, s[1..])
    else [x] + s
  }

  function Sort<T>(less: (T, T) -> bool, s: seq<T>): (r: seq<T>)
    ensures multiset(r) == multiset(s)
  {
    if s == [] then []
    else assert s == [s[0]] + s[1..]; Insert(less, s[0], Sort(less, s[1..]))
  }

  lemma InBag<T>(s: seq<T>, t: seq<T>, x: T)
    requires multiset(s) == multiset(t)
    ensures x in s <==> x in t
  {
    assert x in s <==> x in multiset(s);
    assert x in t <==> x in multiset(t);
  }

  lemma BagFacts<T>(s: seq<T>, t: seq<T>)
    requires multiset(s) == multiset(t)
    ensures |s| == |t| && Elements(s) == Elements(t)
    ensures forall x :: x in s <==> x in t
  {
    forall x ensures x in s <==> x in t { InBag(s, t, x); }
    assert |s| == |multiset(s)| == |multiset(t)| == |t|;
  }

  lemma {:induction false} InsertOrdered<T(!new)>(less: (T, T) -> bool, x: T, s: seq<T>)
    requires StrictTotalOn(less, Elements(s) + {x})
    requires Ordered(less, s)
    ensures Ordered(less, Insert(less, x, s))
  {
    if s != [] {
      var r := Insert(less, x, s);
      if less(s[0], x) {
        assert Elements(s[1..]) + {x} <= Elements(s) + {x};
        InsertOrdered(less, x, s[1..]);
        var tail := Insert(less, x, s[1..]);
        forall j | 0 <= j < |tail| ensures !less(tail[j], s[0]) {
          InBag(tail, s[1..] + [x], tail[j]);
        }
      } else {
        forall j | 0 <= j < |s| ensures !less(s[j], x) {
          assert s[j] in Elements(s) && s[0] in Elements(s);
        }
      }
    }
  }

  lemma {:induction false} SortOrdered<T(!new)>(less: (T, T) -> bool, s: seq<T>)
    requires StrictTotalOn(less, Elements(s))
    ensures Ordered(less, Sort(less, s))
  {
    if s != [] {
      assert Elements(s[1..]) <= Elements(s);
      SortOrdered(less, s[1..]);
      var r := Sort(less, s[1..]);
      BagFacts(r, s[1..]);
      assert Elements(r) + {s[0]} == Elements(s);
      InsertOrdered(less, s[0], r);
    }
  }

  lemma OrderedHead<T(!new)>(less: (T, T) -> bool, s: seq<T>, t: seq<T>)
    requires StrictTotalOn(less, Elements(s))
    requires Ordered(less, s) && Ordered(less, t) && multiset(s) == multiset(t)
    requires s != []
    ensures t != [] && s[0] == t[0]
  {
    BagFacts(s, t);
    assert s[0] in t && t[0] in s;
    var i :| 0 <= i < |t| && t[i] == s[0];
    var j :| 0 <= j < |s| && s[j] == t[0];
    assert i > 0 ==> !less(t[i], t[0]);
    assert j > 0 ==> !less(s[j], s[0]);
    assert s[0] in Elements(s) && t[0] in Elements(s);
  }

  /** Two ordered arrangements of the same rows are the same list. */
  lemma {:induction false} OrderedUnique<T(!new)>(less: (T, T) -> bool, s: seq<T>, t: seq<T>)
    requires StrictTotalOn(less, Elements(s))
    requires Ordered(less, s) && Ordered(less, t) && multiset(s) == multiset(t)
    ensures s == t
  {
    if s == [] {
      assert |multiset(t)| == |t|;
    } else {
      OrderedHead(less, s, t);
      var s', t' := s[1..], t[1..];
      assert s == [s[0]] + s' && t == [t[0]] + t';
      TailBag(s);
      TailBag(t);
      assert StrictTotalOn(less, Elements(s')) by { assert Elements(s') <= Elements(s); }
      OrderedUnique(less, s', t');
    }
  }

  lemma TailBag<T>(s: seq<T>)
    requires s != []
    ensures multiset(s[1..]) == multiset(s) - multiset{s[0]}
  {
    assert s == [s[0]] + s[1..];
  }

  /** Any ordered arrangement of the rows, however the database computes it, is Sort's. */
  lemma SortUnique<T(!new)>(less: (T, T) -> bool, s: seq<T>, t: seq<T>)
    requires StrictTotalOn(less, Elements(s))
    requires multiset(s) == multiset(t)
    requires Ordered(less, t)
    ensures t == Sort(less, s)
  {
    SortOrdered(less, s);
    BagFacts(s, t);
    OrderedUnique(less, t, Sort(less, s));
  }

  /** Sorting forgets the order in which the rows were found. */
  lemma SortPermutation<T(!new)>(less: (T, T) -> bool, s: seq<T>, t: seq<T>)
    requires StrictTotalOn(less, Elements(s))
    requires multiset(s) == multiset(t)
    ensures Sort(less, s) == Sort(less, t)
  {
    BagFacts(s, t);
    SortOrdered(less, t);
    SortUnique(less, s, Sort(less, t));
  }

  lemma SortDistinct<T>(less: (T, T) -> bool, s: seq<T>)
    requires Distinct(s)
    ensures Distinct(Sort(less, s))
    ensures |Sort(less, s)| == |s| && Elements(Sort(less, s)) == Elements(s)
  {
    var r := Sort(less, s);
    BagFacts(r, s);
    forall i, j | 0 <= i < j < |r| ensures r[i] != r[j] {
      if r[i] == r[j] {
        assert r == r[..i] + [r[i]] + r[i + 1..j] + [r[j]] + r[j + 1..];
        assert multiset(r)[r[i]] >= 2;
        DistinctMultiplicity(s, r[i]);
      }
    }
  }
}
