/** Tables served in pages: the rows of a run of pages, and the pages an honest server cuts a table into. */
module Paging {

  /** The rows of the pages, in order. */
  function Gather<P, T>(rowsOf: P -> seq<T>, pages: seq<P>): seq<T> {
    if pages == [] then [] else Gather(rowsOf, pages[..|pages| - 1]) + rowsOf(pages[|pages| - 1])
  }

  lemma GatherAppend<P, T>(rowsOf: P -> seq<T>, pages: seq<P>, last: P)
    ensures Gather(rowsOf, pages + [last]) == Gather(rowsOf, pages) + rowsOf(last)
  {
    assert (pages + [last])[..|pages|] == pages;
  }

  lemma {:induction false} GatherGrows<P, T>(rowsOf: P -> seq<T>, pages: seq<P>, n: nat)
    requires n <= |pages|
    ensures |Gather(rowsOf, pages[..n])| <= |Gather(rowsOf, pages)|
    decreases |pages|
  {
    if n < |pages| {
      var init := pages[..|pages| - 1];
      assert init[..n] == pages[..n];
      GatherGrows(rowsOf, init, n);
    } else {
      assert pages[..n] == pages;
    }
  }

  function Concat<T>(parts: seq<seq<T>>): seq<T> {
    if parts == [] then [] else Concat(parts[..|parts| - 1]) + parts[|parts| - 1]
  }

  function Cut<T>(rows: seq<T>, limit: nat): seq<T> {
    if |rows| > limit then rows[..limit] else rows
  }

  /** Where page `i`, counted from zero, starts in a table of `total` rows. */
  function Start(size: nat, i: nat, total: nat): (start: nat)
    ensures start <= total
  {
    if size * i < total then size * i else total
  }

  function Slice<T>(table: seq<T>, size: nat, i: nat): seq<T> {
    StartAscends(size, i, |table|);
    table[Start(size, i, |table|)..Start(size, i + 1, |table|)]
  }

  lemma StartAscends(size: nat, i: nat, total: nat)
    ensures Start(size, i, total) <= Start(size, i + 1, total)
  {
    assert size * (i + 1) == size * i + size;
  }

  /** Slice `i` holds the rows from `size * i` on, `size` of them as far as the table goes. */
  lemma SliceMeans<T>(table: seq<T>, size: nat, i: nat)
    ensures var part, start := Slice(table, size, i), size * i;
            && |part| == (if start + size <= |table| then size else if start <= |table| then |table| - start else 0)
            && forall k | 0 <= k < |part| :: start + k < |table| && part[k] == table[start + k]
  {
    StartAscends(size, i, |table|);
    assert size * (i + 1) == size * i + size;
  }

  /** Pages that hold the consecutive slices of a table hold, together, its first rows. */
  lemma {:induction false} SlicesGather<P, T>(rowsOf: P -> seq<T>, pages: seq<P>, table: seq<T>, size: nat)
    requires forall i | 0 <= i < |pages| :: rowsOf(pages[i]) == Slice(table, size, i)
    ensures Gather(rowsOf, pages) == table[..Start(size, |pages|, |table|)]
    decreases |pages|
  {
    hide Slice, Start;
    if pages == [] {
      StartOfNothing(size, |table|);
    } else {
      var n: nat := |pages| - 1;
      SlicesGather(rowsOf, pages[..n], table, size);
      NextSlice(table, size, n);
    }
  }

  lemma StartOfNothing(size: nat, total: nat)
    ensures Start(size, 0, total) == 0
  {
  }

  lemma NextSlice<T>(table: seq<T>, size: nat, n: nat)
    ensures table[..Start(size, n, |table|)] + Slice(table, size, n) == table[..Start(size, n + 1, |table|)]
  {
    StartAscends(size, n, |table|);
  }
}
