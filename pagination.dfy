/** `fetchAllItems`: drain a paged listing, 100 entries per page, pages numbered from 1.
    The endpoint is a page oracle: `pages(p)` is what the listing returns for page `p`.
    A listing served from a finite result set is `Served(all)`. */
module Pagination {

  const PER_PAGE: nat := 100

  /** A page is full when it holds exactly `PER_PAGE` entries; the drain asks for more
      only after a full page. */
  predicate IsFull<T>(page: seq<T>) {
    |page| == PER_PAGE
  }

  /** Pages `first`, `first + 1`, ... concatenated, up to and including the first page that
      is not full. `last` is some page that is not full, which bounds the recursion. */
  function Drained<T>(pages: nat -> seq<T>, first: nat, last: nat): seq<T>
    requires first <= last && !IsFull(pages(last))
    decreases last - first
  {
    if IsFull(pages(first)) then pages(first) + Drained(pages, first + 1, last) else pages(first)
  }

  /** The concatenation of pages `first` up to and excluding `bound`. */
  function PagesBetween<T>(pages: nat -> seq<T>, first: nat, bound: nat): seq<T>
    requires first <= bound
    decreases bound
  {
    if first == bound then [] else PagesBetween(pages, first, bound - 1) + pages(bound - 1)
  }

  /** `fetchAllItems(method, params)` with the rate-limit check left out. `requests` is the
      number of pages asked for. The result is the pages 1..requests in request order; every
      page before the last one asked for was full, and the last one was not. */
  method FetchAllItems<T>(pages: nat -> seq<T>, ghost last: nat) returns (items: seq<T>, requests: nat)
    requires 1 <= last && !IsFull(pages(last))
    ensures 1 <= requests <= last
    ensures forall p :: 1 <= p < requests ==> IsFull(pages(p))
    ensures !IsFull(pages(requests))
    ensures items == PagesBetween(pages, 1, requests + 1)
    ensures items == Drained(pages, 1, last)
  {
    items := [];
    var page := 1;
    var hasMore := true;
    requests := 0;
    while hasMore
      invariant 1 <= page <= last + 1
      invariant requests == page - 1
      invariant forall p :: 1 <= p < page - (if hasMore then 0 else 1) ==> IsFull(pages(p))
      invariant hasMore ==> page <= last
      invariant !hasMore ==> page >= 2 && !IsFull(pages(page - 1))
      invariant items == PagesBetween(pages, 1, page)
      invariant hasMore ==> Drained(pages, 1, last) == items + Drained(pages, page, last)
      invariant !hasMore ==> Drained(pages, 1, last) == items
      decreases last + 1 - page, hasMore
    {
      var data := pages(page);
      requests := requests + 1;
      items := items + data;
      hasMore := |data| == PER_PAGE;
      if !hasMore {
        assert Drained(pages, page, last) == data;
      } else {
        assert page < last;
        assert Drained(pages, page, last) == data + Drained(pages, page + 1, last);
      }
      page := page + 1;
    }
  }

  /** The listing of a finite result set `all`, cut into pages of `PER_PAGE`. */
  function Served<T>(all: seq<T>): nat -> seq<T> {
    (p: nat) => ServedPage(all, p)
  }

  /** Page `p` of `all`: the entries from (p - 1) * 100 on, at most 100 of them. */
  function ServedPage<T>(all: seq<T>, p: nat): seq<T> {
    if 1 <= p && (p - 1) * PER_PAGE <= |all|
    then all[(p - 1) * PER_PAGE .. if p * PER_PAGE <= |all| then p * PER_PAGE else |all|]
    else []
  }

  /** The first page that is not full when serving `all`. */
  function LastRequest(n: nat): nat {
    n / PER_PAGE + 1
  }

  lemma {:induction false} ServedFrom<T>(all: seq<T>, first: nat)
    requires 1 <= first <= LastRequest(|all|)
    ensures !IsFull(Served(all)(LastRequest(|all|)))
    ensures Drained(Served(all), first, LastRequest(|all|)) == all[(first - 1) * PER_PAGE..]
    decreases LastRequest(|all|) - first
  {
    var pages := Served(all);
    var last := LastRequest(|all|);
    assert (last - 1) * PER_PAGE <= |all| < last * PER_PAGE;
    if first < last {
      assert first * PER_PAGE <= |all|;
      assert IsFull(pages(first));
      ServedFrom(all, first + 1);
      assert all[(first - 1) * PER_PAGE..] == all[(first - 1) * PER_PAGE..first * PER_PAGE] + all[first * PER_PAGE..];
    } else {
      assert |pages(first)| == |all| - (first - 1) * PER_PAGE < PER_PAGE;
    }
  }

  /** Every page of `all` before the last one asked for is full. */
  lemma ServedFull<T>(all: seq<T>, p: nat)
    requires 1 <= p < LastRequest(|all|)
    ensures IsFull(Served(all)(p))
  {
    assert p * PER_PAGE <= |all|;
  }

  /** Draining a finite result set of n entries gives back all of it, in order, after
      exactly n / 100 + 1 requests: 250 entries take 3 requests, and a multiple of 100
      costs one extra, empty page. */
  method DrainServed<T>(all: seq<T>) returns (items: seq<T>, requests: nat)
    ensures items == all
    ensures requests == |all| / PER_PAGE + 1
  {
    ServedFrom(all, 1);
    var last := LastRequest(|all|);
    items, requests := FetchAllItems(Served(all), last);
    if requests < last {
      ServedFull(all, requests);
    }
  }
}
