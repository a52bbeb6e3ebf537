/** Sorting by a strict order. Where the order is total on the elements the result is the one sorted
    permutation, so it stands for any correct sort, stable or not. */
module Sorting {

  /** `less` orders any two different elements of `s` in exactly one way, transitively. */
  ghost predicate TotalOn<T>(less: (T, T) -> bool, s: seq<T>) {
    && (forall x, y | x in s && y in s :: x == y <==> !less(x, y) && !less(y, x))
    && (forall x, y | x in s && y in s :: !(less(x, y) && less(y, x)))
    && (forall x, y, z | x in s && y in s && z in s && less(x, y) && less(y, z) :: less(x, z))
  }

  ghost predicate Ascending<T>(less: (T, T) -> bool, s: seq<T>) {
    forall i, j | 0 <= i < j < |s| :: !less(s[j], s[i])
  }

  function Insert<T>(less: (T, T) -> bool, x: T, s: seq<T>): seq<T> {
    if s == [] || !less(s[0], x) then [x] + s else [s[0]] + Insert(less, x, s[1..])
  }

  function Sort<T>(less: (T, T) -> bool, s: seq<T>): seq<T> {
    if s == [] then [] else Insert(less, s[0], Sort(less, s[1..]))
  }

  lemma {:induction false} InsertKeepsElements<T>(less: (T, T) -> bool, x: T, s: seq<T>)
    ensures multiset(Insert(less, x, s)) == multiset(s) + multiset{x}
  {
    if s != [] && less(s[0], x) {
      InsertKeepsElements(less, x, s[1..]);
      assert s == [s[0]] + s[1..];
    }
  }

  lemma {:induction false} SortKeepsElements<T>(less: (T, T) -> bool, s: seq<T>)
    ensures multiset(Sort(less, s)) == multiset(s)
  {
    if s != [] {
      SortKeepsElements(less, s[1..]);
      InsertKeepsElements(less, s[0], Sort(less, s[1..]));
      assert s == [s[0]] + s[1..];
    }
  }

  lemma SameElements<T>(a: seq<T>, b: seq<T>)
    requires multiset(a) == multiset(b)
    ensures |a| == |b|
    ensures forall x | x in a :: x in b
    ensures forall x | x in b :: x in a
  {
    assert |a| == |multiset(a)| && |b| == |multiset(b)|;
    assert forall x :: (x in a <==> x in multiset(a)) && (x in b <==> x in multiset(b));
  }

  lemma {:induction false} InsertAscends<T>(less: (T, T) -> bool, x: T, s: seq<T>)
    requires Ascending(less, s) && TotalOn(less, [x] + s)
    ensures Ascending(less, Insert(less, x, s))
  {
    if s != [] && less(s[0], x) {
      var rest := s[1..];
      TotalOnPart(less, [x] + s, [x] + rest);
      assert forall i, j | 0 <= i < j < |rest| :: !less(rest[j], rest[i]);
      InsertAscends(less, x, rest);
      InsertKeepsElements(less, x, rest);
      var inserted := Insert(less, x, rest);
      forall k | 0 <= k < |inserted| ensures !less(inserted[k], s[0]) {
        assert inserted[k] in multiset(inserted);
        if inserted[k] != x {
          var m :| 0 <= m < |rest| && rest[m] == inserted[k];
          assert s[m + 1] == rest[m];
        }
      }
    } else if s != [] {
      forall k | 0 <= k < |s| ensures !less(s[k], x) {
        assert s[0] in [x] + s && s[k] in [x] + s && x in [x] + s;
        assert k > 0 ==> !less(s[k], s[0]);
      }
    }
  }

  lemma TotalOnPart<T>(less: (T, T) -> bool, s: seq<T>, part: seq<T>)
    requires TotalOn(less, s) && forall x | x in part :: x in s
    ensures TotalOn(less, part)
  {
  }

  lemma {:induction false} SortAscends<T>(less: (T, T) -> bool, s: seq<T>)
    requires TotalOn(less, s)
    ensures Ascending(less, Sort(less, s))
  {
    if s != [] {
      TotalOnPart(less, s, s[1..]);
      SortAscends(less, s[1..]);
      SortKeepsElements(less, s[1..]);
      SameElements(Sort(less, s[1..]), s[1..]);
      ConsElements(s, Sort(less, s[1..]));
      TotalOnPart(less, s, [s[0]] + Sort(less, s[1..]));
      InsertAscends(less, s[0], Sort(less, s[1..]));
    }
  }

  lemma ConsElements<T>(s: seq<T>, tail: seq<T>)
    requires s != [] && forall x | x in tail :: x in s[1..]
    ensures forall x | x in [s[0]] + tail :: x in s
  {
    forall x | x in [s[0]] + tail ensures x in s {
      if x != s[0] {
        assert x in tail;
        assert x in s[1..];
      }
    }
  }

  // ---- Strict arrangements ----------------------------------------------------------------------------

  predicate NoRepeats<T(==)>(s: seq<T>) {
    forall i, j | 0 <= i < j < |s| :: s[i] != s[j]
  }

  ghost predicate StrictlyAscending<T>(less: (T, T) -> bool, s: seq<T>) {
    forall i, j | 0 <= i < j < |s| :: less(s[i], s[j])
  }

  lemma {:induction false} CountedOnce<T>(s: seq<T>, x: T)
    requires NoRepeats(s)
    ensures multiset(s)[x] == if x in s then 1 else 0
    decreases |s|
  {
    if s != [] {
      var init, last := s[..|s| - 1], s[|s| - 1];
      assert s == init + [last] && last !in init;
      CountedOnce(init, x);
    }
  }

  lemma NoRepeatsInPermutation<T>(a: seq<T>, b: seq<T>)
    requires multiset(a) == multiset(b) && NoRepeats(a)
    ensures NoRepeats(b)
  {
    forall i, j | 0 <= i < j < |b| ensures b[i] != b[j] {
      CountedOnce(a, b[i]);
      assert b == b[..i] + [b[i]] + (b[i + 1..j] + [b[j]] + b[j + 1..]);
      assert b[i] == b[j] ==> multiset(b)[b[i]] >= 2;
    }
  }

  lemma SameSetSameMultiset<T>(a: seq<T>, b: seq<T>)
    requires NoRepeats(a) && NoRepeats(b)
    requires (forall x | x in a :: x in b) && (forall x | x in b :: x in a)
    ensures multiset(a) == multiset(b)
  {
    hide NoRepeats;
    forall x ensures multiset(a)[x] == multiset(b)[x] {
      CountedOnce(a, x);
      CountedOnce(b, x);
    }
  }

  /** Sorting elements without repeats leaves no ties. */
  lemma SortAscendsStrictly<T>(less: (T, T) -> bool, s: seq<T>)
    requires TotalOn(less, s) && NoRepeats(s)
    ensures StrictlyAscending(less, Sort(less, s))
  {
    hide Sort, NoRepeats;
    var sorted := Sort(less, s);
    SortAscends(less, s);
    SortKeepsElements(less, s);
    NoRepeatsInPermutation(s, sorted);
    SameElements(sorted, s);
    forall i, j | 0 <= i < j < |sorted| ensures less(sorted[i], sorted[j]) {
      Differ(sorted, i, j);
      assert sorted[i] in s && sorted[j] in s;
    }
  }

  lemma Differ<T>(s: seq<T>, i: nat, j: nat)
    requires NoRepeats(s) && i < j < |s|
    ensures s[i] != s[j]
  {
  }

  /** Two strict arrangements of the same set are equal. */
  lemma StrictArrangementIsUnique<T>(less: (T, T) -> bool, a: seq<T>, b: seq<T>)
    requires (forall x | x in a :: x in b) && (forall x | x in b :: x in a)
    requires forall x, y | x in a && y in a :: !(less(x, y) && less(y, x))
    requires StrictlyAscending(less, a) && StrictlyAscending(less, b)
    ensures a == b
  {
    hide StrictlyAscending;
    var k := 0;
    while k < |a|
      invariant k <= |a| && k <= |b| && a[..k] == b[..k]
    {
      NotAfter(less, a, b, k);
      NotAfter(less, b, a, k);
      assert a[k] in a && b[k] in a;
      assert a[..k + 1] == a[..k] + [a[k]] && b[..k + 1] == b[..k] + [b[k]];
      k := k + 1;
    }
    if k < |b| {
      NotAfter(less, b, a, k);
    }
    assert a == a[..k] && b == b[..k];
  }

  lemma NotAfter<T>(less: (T, T) -> bool, a: seq<T>, b: seq<T>, k: nat)
    requires forall x | x in a :: x in b
    requires forall x, y | x in a && y in a :: !(less(x, y) && less(y, x))
    requires StrictlyAscending(less, a) && StrictlyAscending(less, b)
    requires k < |a| && k <= |b| && a[..k] == b[..k]
    ensures k < |b| && (a[k] == b[k] || less(b[k], a[k]))
  {
    var x := a[k];
    assert x in b;
    assert forall i | 0 <= i < k :: a[..k][i] == b[..k][i] && less(a[i], x);
    var m :| 0 <= m < |b| && b[m] == x;
    assert x in a;
  }

  /** Sorting elements without repeats depends on nothing but the set of them. */
  lemma SortIgnoresOrder<T>(less: (T, T) -> bool, a: seq<T>, b: seq<T>)
    requires (forall x | x in a :: x in b) && (forall x | x in b :: x in a)
    requires TotalOn(less, a) && NoRepeats(a) && NoRepeats(b)
    ensures Sort(less, a) == Sort(less, b)
  {
    hide Sort, NoRepeats;
    TotalOnPart(less, a, b);
    SortAscendsStrictly(less, a);
    SortAscendsStrictly(less, b);
    SortKeepsElements(less, a);
    SortKeepsElements(less, b);
    SameElements(Sort(less, a), a);
    SameElements(Sort(less, b), b);
    StrictArrangementIsUnique(less, Sort(less, a), Sort(less, b));
  }
}
