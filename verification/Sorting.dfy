/** Python's `sorted` with a key: stable, by the lexicographic order of the keys. */
module Sorting {
  import Lex

  function Insert<T>(key: T -> seq<int>, x: T, xs: seq<T>): (r: seq<T>)
    ensures |r| == |xs| + 1
  {
    if xs == [] || !Lex.Less(key(xs[0]), key(x)) then [x] + xs
    else [xs[0]] + Insert(key, x, xs[1..])
  }

  function Sort<T>(key: T -> seq<int>, xs: seq<T>): (r: seq<T>)
    ensures |r| == |xs|
  {
    if xs == [] then [] else Insert(key, xs[0], Sort(key, xs[1..]))
  }

  ghost predicate Ascending<T>(key: T -> seq<int>, xs: seq<T>) {
    forall i, j :: 0 <= i < j < |xs| ==> !Lex.Less(key(xs[j]), key(xs[i]))
  }

  ghost predicate StrictlyAscending<T>(key: T -> seq<int>, xs: seq<T>) {
    forall i, j :: 0 <= i < j < |xs| ==> Lex.Less(key(xs[i]), key(xs[j]))
  }

  ghost predicate Distinct<T>(xs: seq<T>) {
    forall i, j :: 0 <= i < j < |xs| ==> xs[i] != xs[j]
  }

  ghost predicate DistinctKeys<T>(key: T -> seq<int>, xs: seq<T>) {
    forall i, j :: 0 <= i < j < |xs| ==> key(xs[i]) != key(xs[j])
  }

  lemma {:induction false} InsertSorts<T>(key: T -> seq<int>, x: T, xs: seq<T>)
    requires Ascending(key, xs)
    ensures Ascending(key, Insert(key, x, xs))
    ensures multiset(Insert(key, x, xs)) == multiset(xs) + multiset{x}
  {
    var r := Insert(key, x, xs);
    if xs == [] {
      assert r == [x];
    } else if !Lex.Less(key(xs[0]), key(x)) {
      forall j | 0 < j < |r|
        ensures !Lex.Less(key(r[j]), key(x))
      {
        if Lex.Less(key(r[j]), key(x)) && j > 1 {
          NotLessTransitive(key(x), key(xs[0]), key(xs[j - 1]));
        }
      }
    } else {
      assert xs == [xs[0]] + xs[1..];
      InsertSorts(key, x, xs[1..]);
      var t := Insert(key, x, xs[1..]);
      forall j | 0 <= j < |t|
        ensures !Lex.Less(key(t[j]), key(xs[0]))
      {
        assert t[j] in multiset(t);
        if t[j] in multiset(xs[1..]) {
          var i :| 0 <= i < |xs[1..]| && xs[1..][i] == t[j];
          assert t[j] == xs[i + 1];
        } else {
          assert t[j] == x;
          Lex.Asymmetric(key(xs[0]), key(x));
        }
      }
    }
  }

  /** `!Less` read as "at least" is transitive. */
  lemma NotLessTransitive(a: seq<int>, b: seq<int>, c: seq<int>)
    requires !Lex.Less(b, a) && !Lex.Less(c, b)
    ensures !Lex.Less(c, a)
  {
    Lex.Total(a, b);
    Lex.Total(b, c);
    if Lex.Less(c, a) {
      if a != b {
        Lex.Transitive(c, a, b);
      }
      if b != c {
        Lex.Asymmetric(b, c);
      }
    }
  }

  /** The result is the same items, in order. */
  lemma {:induction false} SortSorts<T>(key: T -> seq<int>, xs: seq<T>)
    ensures Ascending(key, Sort(key, xs))
    ensures multiset(Sort(key, xs)) == multiset(xs)
  {
    if xs != [] {
      assert xs == [xs[0]] + xs[1..];
      SortSorts(key, xs[1..]);
      InsertSorts(key, xs[0], Sort(key, xs[1..]));
    }
  }

  lemma SameItems<T>(key: T -> seq<int>, xs: seq<T>)
    ensures forall x :: x in Sort(key, xs) <==> x in xs
  {
    SortSorts(key, xs);
    forall x
      ensures x in Sort(key, xs) <==> x in xs
    {
      assert x in Sort(key, xs) <==> x in multiset(Sort(key, xs));
      assert x in xs <==> x in multiset(xs);
    }
  }

  lemma {:induction false} MultisetDistinct<T>(xs: seq<T>)
    ensures Distinct(xs) <==> forall x :: multiset(xs)[x] <= 1
  {
    if xs != [] {
      var tail := xs[1..];
      assert xs == [xs[0]] + tail;
      MultisetDistinct(tail);
      assert multiset(xs) == multiset{xs[0]} + multiset(tail);
      if Distinct(xs) {
        assert xs[0] !in tail;
      } else if !Distinct(tail) {
        var x :| multiset(tail)[x] > 1;
        assert multiset(xs)[x] > 1;
      } else {
        var i, j :| 0 <= i < j < |xs| && xs[i] == xs[j];
        assert i == 0 && tail[j - 1] == xs[0];
        assert multiset(xs)[xs[0]] > 1;
      }
    }
  }

  /** Rearranging a list does not change whether its items are distinct. */
  lemma DistinctPermuted<T>(xs: seq<T>, ys: seq<T>)
    requires multiset(xs) == multiset(ys)
    ensures Distinct(xs) <==> Distinct(ys)
  {
    MultisetDistinct(xs);
    MultisetDistinct(ys);
  }

  lemma SmallerIsEarlier<T>(key: T -> seq<int>, xs: seq<T>, i: nat, j: nat)
    requires i < |xs| && j < |xs| && Ascending(key, xs) && Lex.Less(key(xs[i]), key(xs[j]))
    ensures i < j
  {
    hide Lex.Less;
    Lex.Irreflexive(key(xs[i]));
  }

  /** Sorted items are strictly ascending exactly when no two keys are equal. */
  lemma AscendingStrict<T>(key: T -> seq<int>, xs: seq<T>)
    requires Ascending(key, xs)
    ensures StrictlyAscending(key, xs) <==> DistinctKeys(key, xs)
  {
    forall i, j | 0 <= i < j < |xs|
      ensures Lex.Less(key(xs[i]), key(xs[j])) <==> key(xs[i]) != key(xs[j])
    {
      Lex.Total(key(xs[i]), key(xs[j]));
      Lex.Irreflexive(key(xs[i]));
    }
  }

  /** A strictly ascending list is left as it is. */
  lemma {:induction false} SortIdempotent<T>(key: T -> seq<int>, xs: seq<T>)
    requires StrictlyAscending(key, xs)
    ensures Sort(key, xs) == xs
  {
    if xs != [] {
      SortIdempotent(key, xs[1..]);
      assert xs == [xs[0]] + xs[1..];
      if |xs| > 1 {
        assert Lex.Less(key(xs[0]), key(xs[1]));
        Lex.Asymmetric(key(xs[0]), key(xs[1]));
      }
    }
  }

  /** Adjacent comparisons decide the whole order. */
  lemma {:induction false} AdjacentIsStrict<T>(key: T -> seq<int>, xs: seq<T>, i: nat, j: nat)
    requires forall k :: 0 < k < |xs| ==> Lex.Less(key(xs[k - 1]), key(xs[k]))
    requires i < j < |xs|
    ensures Lex.Less(key(xs[i]), key(xs[j]))
    decreases j
  {
    if i < j - 1 {
      AdjacentIsStrict(key, xs, i, j - 1);
      Lex.Transitive(key(xs[i]), key(xs[j - 1]), key(xs[j]));
    }
  }

  /** Items in strict order have one arrangement. */
  lemma {:induction false} StrictIsUnique<T>(key: T -> seq<int>, xs: seq<T>, ys: seq<T>)
    requires StrictlyAscending(key, xs) && StrictlyAscending(key, ys) && multiset(xs) == multiset(ys)
    ensures xs == ys
  {
    if xs == [] {
      assert |multiset(ys)| == 0;
    } else {
      assert |ys| == |multiset(xs)| > 0;
      LeastIsFirst(key, xs, ys);
      assert xs == [xs[0]] + xs[1..] && ys == [ys[0]] + ys[1..];
      assert multiset(xs[1..]) == multiset(xs) - multiset{xs[0]};
      assert multiset(ys[1..]) == multiset(ys) - multiset{ys[0]};
      StrictIsUnique(key, xs[1..], ys[1..]);
    }
  }

  lemma LeastIsFirst<T>(key: T -> seq<int>, xs: seq<T>, ys: seq<T>)
    requires StrictlyAscending(key, xs) && StrictlyAscending(key, ys) && multiset(xs) == multiset(ys)
    requires xs != [] && ys != []
    ensures xs[0] == ys[0]
  {
    hide Lex.Less;
    assert xs[0] in multiset(ys) && ys[0] in multiset(xs);
    var i :| 0 <= i < |ys| && ys[i] == xs[0];
    var j :| 0 <= j < |xs| && xs[j] == ys[0];
    if i > 0 && j > 0 {
      Lex.Asymmetric(key(xs[0]), key(ys[0]));
    }
  }
}
