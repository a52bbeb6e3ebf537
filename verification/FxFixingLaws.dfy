/** The fixings do not depend on how the source spreads or orders its rows. */
module FxFixingLaws {
  import opened FxFixings
  import opened Sorting
  import Texts

  /** The audited pairs are exactly those whose heading stands in the catalog. */
  lemma CatalogListsTheAudited(pair: Pair)
    requires |pair.base| == |pair.quote| == 3
    ensures Audited(pair) <==> Heading(pair) in Catalog()
  {
    hide Heading;
    var a, b := |QUOTED_IN_CNY|, |QUOTING_CNY|;
    assert forall i | 0 <= i < a :: Catalog()[i] == Heading(Pair(QUOTED_IN_CNY[i], "CNY"));
    assert forall i | 0 <= i < b :: Catalog()[a + i] == Heading(Pair("CNY", QUOTING_CNY[i]));
    if Heading(pair) in Catalog() {
      var k :| 0 <= k < |Catalog()| && Catalog()[k] == Heading(pair);
      CodesHaveThreeLetters(if k < a then k else 0, if k < a then 0 else k - a);
      HeadingsDiffer(pair, if k < a then Pair(QUOTED_IN_CNY[k], "CNY") else Pair("CNY", QUOTING_CNY[k - a]));
    }
    if pair.quote == "CNY" && pair.base in QUOTED_IN_CNY {
      var i :| 0 <= i < a && QUOTED_IN_CNY[i] == pair.base;
      assert Catalog()[i] == Heading(pair);
    }
    if pair.base == "CNY" && pair.quote in QUOTING_CNY {
      var i :| 0 <= i < b && QUOTING_CNY[i] == pair.quote;
      assert Catalog()[a + i] == Heading(pair);
    }
  }

  lemma CodesHaveThreeLetters(i: nat, j: nat)
    requires i < |QUOTED_IN_CNY| && j < |QUOTING_CNY|
    ensures |QUOTED_IN_CNY[i]| == |QUOTING_CNY[j]| == 3
  {
  }

  lemma ReadabilityIgnoresOrder(a: seq<Row>, b: seq<Row>, request: Request)
    requires multiset(a) == multiset(b)
    ensures Readable(a, request) ==> Readable(b, request)
  {
    hide RowReads;
    if Readable(a, request) {
      SameElements(a, b);
      forall i, j | 0 <= i < j < |b| ensures b[i].date != b[j].date {
        DistinctRows(a, b, request, i, j);
        assert b[i] in a && b[j] in a;
        var m :| 0 <= m < |a| && a[m] == b[i];
        var n :| 0 <= n < |a| && a[n] == b[j];
        assert a[m].date != a[n].date;
      }
    }
  }

  lemma DistinctRows(a: seq<Row>, b: seq<Row>, request: Request, i: nat, j: nat)
    requires multiset(a) == multiset(b) && Readable(a, request) && i < j < |b|
    ensures b[i] != b[j]
  {
    assert NoRepeats(a);
    NoRepeatsInPermutation(a, b);
  }

  lemma SameFixings(a: seq<Row>, b: seq<Row>, request: Request, f: Fixing)
    requires (forall r | r in a :: RowReads(r, request)) && (forall r | r in b :: RowReads(r, request))
    requires (forall r | r in a :: r in b) && f in Fixings(a, request)
    ensures f in Fixings(b, request)
  {
    hide RowReads;
    var r, p: nat :| r in a && p < |request.pairs| && f == FixingOf(r, request, p);
    assert FixingOf(r, request, p) in Fixings(b, request);
  }

  /** Rows moved between pages, or reordered, are as readable as before and arranged the same. */
  lemma BatchIgnoresPaging(a: seq<Page>, b: seq<Page>, request: Request, full: seq<Fixing>, full': seq<Fixing>)
    requires request.Valid() && multiset(Rows(a)) == multiset(Rows(b))
    ensures Readable(Rows(a), request) <==> Readable(Rows(b), request)
    ensures Readable(Rows(a), request) && Arranged(full, Rows(a), request) && Arranged(full', Rows(b), request) ==>
              full == full'
  {
    hide Rows, Readable, Fixings, RowReads, Order;
    ReadabilityIgnoresOrder(Rows(a), Rows(b), request);
    ReadabilityIgnoresOrder(Rows(b), Rows(a), request);
    if Readable(Rows(a), request) && Arranged(full, Rows(a), request) && Arranged(full', Rows(b), request) {
      SameElements(Rows(a), Rows(b));
      forall f | f in full ensures f in full' {
        SameFixings(Rows(a), Rows(b), request, f);
      }
      forall f | f in full' ensures f in full {
        SameFixings(Rows(b), Rows(a), request, f);
      }
      forall x, y | x in full && y in full ensures !(Order(request.pairs)(x, y) && Order(request.pairs)(y, x)) {
        OrderMeans(request, x, y);
      }
      StrictArrangementIsUnique(Order(request.pairs), full, full');
    }
  }

  lemma OrderMeans(request: Request, x: Fixing, y: Fixing)
    ensures !(Order(request.pairs)(x, y) && Order(request.pairs)(y, x))
  {
    OrderIsAsymmetric(request.pairs, x, y);
  }

  /** In an arrangement the pairs come in the order of the request, and each pair's dates ascend. */
  lemma ArrangementIsByPairThenDate(full: seq<Fixing>, rows: seq<Row>, request: Request, i: nat, j: nat)
    requires request.Valid() && Arranged(full, rows, request) && i < j < |full|
    ensures var p, q := IndexOf(request.pairs, full[i].pair), IndexOf(request.pairs, full[j].pair);
            p <= q < |request.pairs| && (p == q ==> Texts.Before(full[i].date, full[j].date))
  {
    hide Fixings, RowReads, IndexOf, Texts.Before;
    assert full[j] in full;
    FixingsHavePairs(rows, request, full[j]);
    assert Order(request.pairs)(full[i], full[j]);
  }
}
