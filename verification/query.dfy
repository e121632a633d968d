/** The query operators the trip listing is built from: ordering by start
    date, LINQ's `Skip` and `Take`, and the page count. */
module Query {
  import opened Entities

  /** Start dates never increase along `s`. */
  predicate DescendingByDateFrom(s: seq<Trip>) {
    forall i, j :: 0 <= i < j < |s| ==> s[i].dateFrom >= s[j].dateFrom
  }

  /** Putting a trip that starts no earlier than all of `rest` in front of
      the ordered `rest` keeps it ordered. */
  lemma ConsDescending(h: Trip, rest: seq<Trip>)
    requires DescendingByDateFrom(rest)
    requires forall x :: x in rest ==> x.dateFrom <= h.dateFrom
    ensures DescendingByDateFrom([h] + rest)
  {
    var r := [h] + rest;
    forall i, j | 0 <= i < j < |r|
      ensures r[i].dateFrom >= r[j].dateFrom
    {
      if i == 0 {
        assert r[j] in rest;
      } else {
        assert r[i] == rest[i - 1] && r[j] == rest[j - 1];
      }
    }
  }

  /** Inserts `t` in front of the first trip of `s` that starts no later
      than it. */
  function InsertByDateFrom(t: Trip, s: seq<Trip>): (r: seq<Trip>)
    ensures forall x :: x in r ==> x in s || x == t
    ensures multiset(r) == multiset(s) + multiset{t}
  {
    if |s| == 0 then [t]
    else if s[0].dateFrom <= t.dateFrom then [t] + s
    else
      assert s == [s[0]] + s[1..];
      [s[0]] + InsertByDateFrom(t, s[1..])
  }

  /** Inserting into an ordered list keeps it ordered. */
  lemma {:induction false} InsertKeepsOrder(t: Trip, s: seq<Trip>)
    requires DescendingByDateFrom(s)
    ensures DescendingByDateFrom(InsertByDateFrom(t, s))
  {
    if |s| == 0 {
    } else if s[0].dateFrom <= t.dateFrom {
      ConsDescending(t, s);
    } else {
      var rest := InsertByDateFrom(t, s[1..]);
      InsertKeepsOrder(t, s[1..]);
      assert forall x :: x in s[1..] ==> x.dateFrom <= s[0].dateFrom;
      ConsDescending(s[0], rest);
    }
  }

  /** `OrderByDescending(t => t.DateFrom)`: the same trips, latest start
      first. Trips that start at the same moment keep their table order. */
  function OrderByDateFromDescending(s: seq<Trip>): (r: seq<Trip>)
    ensures multiset(r) == multiset(s)
    ensures |r| == |s|
    ensures DescendingByDateFrom(r)
  {
    if |s| == 0 then []
    else
      assert s == [s[0]] + s[1..];
      var rest := OrderByDateFromDescending(s[1..]);
      InsertKeepsOrder(s[0], rest);
      InsertByDateFrom(s[0], rest)
  }

  /** LINQ `Skip(n)`: drops the first `n` elements; a count of zero or less
      drops nothing, a count past the end leaves nothing. */
  function Skip<T>(s: seq<T>, n: int): (r: seq<T>)
    ensures n <= 0 ==> r == s
    ensures n >= |s| ==> r == []
    ensures 0 <= n <= |s| ==> |r| == |s| - n
    ensures n >= 0 ==> forall i :: 0 <= i < |r| ==> i + n < |s| && r[i] == s[i + n]
  {
    if n <= 0 then s else if n >= |s| then [] else s[n..]
  }

  /** LINQ `Take(n)`: keeps at most the first `n` elements. */
  function Take<T>(s: seq<T>, n: int): (r: seq<T>)
    ensures |r| <= |s|
    ensures n <= 0 ==> r == []
    ensures n >= 0 ==> |r| <= n
    ensures n >= 0 ==> |r| == |s| || |r| == n
    ensures forall i :: 0 <= i < |r| ==> r[i] == s[i]
  {
    if n <= 0 then [] else if n >= |s| then s else s[..n]
  }

  /** The number of pages of `size` items needed to hold `total` items:
      `Math.Ceiling(total / (double)size)`, computed on integers. */
  function CeilDiv(total: nat, size: int): (pages: nat)
    requires size > 0
    ensures pages * size >= total
    ensures total > 0 ==> (pages - 1) * size < total
    ensures total == 0 ==> pages == 0
  {
    var q := (total + size - 1) / size;
    assert q * size <= total + size - 1 < (q + 1) * size;
    q
  }

  /** The number of items before page `page` (counted from 1) when each
      page holds `size` items: the argument of `Skip`. */
  function Offset(page: int, size: int): (n: nat)
    requires page >= 1 && size > 0
    ensures page == 1 <==> n == 0
  {
    (page - 1) * size
  }

  /** The window of page `page` with `size` items per page: at most `size`
      items, starting at item `Offset(page, size)`, clipped to the end of
      `s`. */
  function PageWindow<T>(s: seq<T>, page: int, size: int): (r: seq<T>)
    requires page >= 1 && size > 0
    ensures |r| <= size
    ensures var skip := Offset(page, size);
      |r| == if skip >= |s| then 0 else if |s| - skip < size then |s| - skip else size
    ensures forall i :: 0 <= i < |r| ==> Offset(page, size) + i < |s| && r[i] == s[Offset(page, size) + i]
  {
    Take(Skip(s, Offset(page, size)), size)
  }

  /** A window of an ordered list is ordered. */
  lemma DescendingWindow(s: seq<Trip>, page: int, size: int)
    requires page >= 1 && size > 0
    requires DescendingByDateFrom(s)
    ensures DescendingByDateFrom(PageWindow(s, page, size))
  {
    var w := PageWindow(s, page, size);
    var skip := Offset(page, size);
    forall i, j | 0 <= i < j < |w|
      ensures w[i].dateFrom >= w[j].dateFrom
    {
      assert w[i] == s[skip + i] && w[j] == s[skip + j];
    }
  }

  lemma MulMonotone(a: int, b: int, c: nat)
    requires a <= b
    ensures a * c <= b * c
  {
    assert b * c - a * c == (b - a) * c;
  }

  /** Item `k` is shown on page `k / size + 1`, at position `k % size`, and
      that page is within the reported page count. */
  lemma ItemOnItsPage<T>(s: seq<T>, size: int, k: int)
    requires size > 0 && 0 <= k < |s|
    ensures 1 <= k / size + 1 <= CeilDiv(|s|, size)
    ensures Offset(k / size + 1, size) + k % size == k
    ensures k % size < |PageWindow(s, k / size + 1, size)|
    ensures PageWindow(s, k / size + 1, size)[k % size] == s[k]
  {
    var p, m := k / size, k % size;
    assert k == p * size + m && 0 <= m < size;
    assert p >= 0;
    var pages := CeilDiv(|s|, size);
    if pages < p + 1 {
      MulMonotone(pages, p, size);
      assert false;
    }
    assert (p + 1 - 1) * size == p * size;
    var skipped := Skip(s, p * size);
    assert |skipped| == |s| - p * size;
    assert m < |skipped|;
    assert skipped[m] == s[k];
  }

  /** No page past the page count holds anything. */
  lemma PagesPastCountAreEmpty<T>(s: seq<T>, size: int, page: int)
    requires size > 0 && page > CeilDiv(|s|, size)
    ensures PageWindow(s, page, size) == []
  {
    var pages := CeilDiv(|s|, size);
    MulMonotone(pages, page - 1, size);
    assert Offset(page, size) >= |s|;
  }
}
