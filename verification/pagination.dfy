/** Cursor pagination over the destination store's query endpoint: request
    pages until a response has no more pages or no usable cursor. */
module Pagination {
  import opened Wrappers

  /** One query response: its records, the `has_more` flag and `next_cursor`. */
  datatype Page<T> = Page(results: seq<T>, hasMore: bool, nextCursor: Option<string>)

  /** The page size both variants ask for. */
  const PageSize: nat := 100

  /** `has_more ? next_cursor : undefined`. */
  function NextCursor<T>(p: Page<T>): Option<string>
  {
    if p.hasMore then p.nextCursor else None
  }

  /** `while (cursor)`: JavaScript treats an absent cursor and an empty one alike. */
  predicate Truthy(c: Option<string>)
  {
    c.Some? && c.value != ""
  }

  predicate Continues<T>(p: Page<T>)
  {
    Truthy(NextCursor(p))
  }

  /** The answer to the i-th request of one pagination: the store hands out its
      pages in order, each cursor leading to the next page; a request past the
      last modelled page gets an empty page that ends the loop. */
  function Query<T>(pages: seq<Page<T>>, i: nat): Page<T>
  {
    if i < |pages| then pages[i] else Page([], false, None)
  }

  /** The results of `pages`, in order. */
  function Concat<T>(pages: seq<Page<T>>): seq<T>
  {
    if |pages| == 0 then [] else pages[0].results + Concat(pages[1..])
  }

  lemma {:induction false} ConcatSnoc<T>(pages: seq<Page<T>>, p: Page<T>)
    ensures Concat(pages + [p]) == Concat(pages) + p.results
  {
    if |pages| > 0 {
      assert (pages + [p])[1..] == pages[1..] + [p];
      ConcatSnoc(pages[1..], p);
    } else {
      assert Concat([p][1..]) == [];
    }
  }

  /** How many requests one pagination makes: every page before the last one
      asked for carries a usable cursor, and the last one does not. */
  function Requests<T>(pages: seq<Page<T>>): (n: nat)
    ensures 1 <= n <= |pages| + 1
    ensures forall i :: 0 <= i < n - 1 ==> Continues(pages[i])
    ensures !Continues(Query(pages, n - 1))
  {
    if |pages| == 0 || !Continues(pages[0]) then 1 else 1 + Requests(pages[1..])
  }

  function Min(a: nat, b: nat): nat
  {
    if a < b then a else b
  }

  /** The records one pagination gathers: those of every page it requested. */
  function Collected<T>(pages: seq<Page<T>>): seq<T>
  {
    Concat(pages[..Min(Requests(pages), |pages|)])
  }

  /** The do/while loop of `getExisting`: query, append the results, follow
      the cursor while it is truthy. */
  method Collect<T>(pages: seq<Page<T>>) returns (records: seq<T>, requests: nat)
    ensures 1 <= requests <= |pages| + 1
    ensures forall i :: 0 <= i < requests - 1 ==> Continues(pages[i])
    ensures !Continues(Query(pages, requests - 1))
    ensures records == Concat(pages[..Min(requests, |pages|)])
  {
    var page := Query(pages, 0);
    records := page.results;
    requests := 1;
    var cursor := NextCursor(page);
    assert pages[..Min(1, |pages|)] == if |pages| == 0 then [] else [pages[0]];
    while Truthy(cursor)
      invariant 1 <= requests <= |pages| + 1
      invariant cursor == NextCursor(Query(pages, requests - 1))
      invariant forall i :: 0 <= i < requests - 1 ==> Continues(pages[i])
      invariant records == Concat(pages[..Min(requests, |pages|)])
      decreases |pages| + 1 - requests
    {
      page := Query(pages, requests);
      if requests < |pages| {
        assert pages[..requests + 1] == pages[..requests] + [page];
        ConcatSnoc(pages[..requests], page);
      }
      records := records + page.results;
      requests := requests + 1;
      cursor := NextCursor(page);
    }
  }

  /** The requests counted by `Collect` are those `Requests` predicts. */
  lemma {:induction false} RequestsUnique<T>(pages: seq<Page<T>>, n: nat)
    requires 1 <= n <= |pages| + 1
    requires forall i :: 0 <= i < n - 1 ==> Continues(pages[i])
    requires !Continues(Query(pages, n - 1))
    ensures n == Requests(pages)
  {
    if n > 1 {
      assert Continues(pages[0]);
      RequestsUnique(pages[1..], n - 1);
    }
  }

  /** How the store splits its records into pages of at most `size`:
      full pages carry a cursor, the last one says there is no more. */
  function Paginate<T>(records: seq<T>, size: nat): (pages: seq<Page<T>>)
    requires size > 0
    ensures 1 <= |pages|
    ensures Concat(pages) == records
    ensures forall i :: 0 <= i < |pages| - 1 ==> Continues(pages[i])
    ensures !Continues(pages[|pages| - 1])
    ensures forall i :: 0 <= i < |pages| ==> |pages[i].results| <= size
    decreases |records|
  {
    if |records| <= size then [Page(records, false, None)]
    else
      [Page(records[..size], true, Some("next"))] + Paginate(records[size..], size)
  }

  /** Pagination is complete: over a store that pages its records, it gathers
      every record, in order, with one request per page. */
  lemma PaginationComplete<T>(records: seq<T>, size: nat)
    requires size > 0
    ensures Requests(Paginate(records, size)) == |Paginate(records, size)|
    ensures Collected(Paginate(records, size)) == records
  {
    var pages := Paginate(records, size);
    RequestsUnique(pages, |pages|);
    assert pages[..|pages|] == pages;
  }

  /** 250 records come back on three pages, all of them collected. */
  lemma ThreePages<T>(records: seq<T>)
    requires |records| == 250
    ensures |Paginate(records, PageSize)| == 3
    ensures Collected(Paginate(records, PageSize)) == records
  {
    var pages := Paginate(records, PageSize);
    assert pages == [Page(records[..100], true, Some("next"))] + Paginate(records[100..], PageSize);
    assert Paginate(records[100..], PageSize)
        == [Page(records[100..][..100], true, Some("next"))] + Paginate(records[100..][100..], PageSize);
    PaginationComplete(records, PageSize);
  }
}
