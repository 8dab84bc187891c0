/** The scrape driver (`scrape_nasa_outgassing`, main.py:60-76, and the table test of
    `do_scrape`, main.py:13-27): pages 1, 2, 3, ... are fetched in turn until one has no
    table, and the tables before it are concatenated. The HTTP request, the HTML reader and
    shaping are behind the `fetch` parameter. */
module Pagination {
  import opened Options
  import opened Shaping

  // ---------------------------------------------------------------------------------------
  // One page

  /** `pat` occurs in `s` at position `i`. */
  predicate OccursAt(s: string, pat: string, i: nat) {
    i + |pat| <= |s| && s[i..i + |pat|] == pat
  }

  /** Whether `pat` occurs in `s` at `i` or later. */
  function OccursFrom(s: string, pat: string, i: nat): (b: bool)
    ensures b <==> exists j :: i <= j && OccursAt(s, pat, j)
    decreases |s| - i
  {
    if i + |pat| > |s| then false
    else OccursAt(s, pat, i) || OccursFrom(s, pat, i + 1)
  }

  /** `"<table" in response.text`. */
  predicate HasTable(body: string) {
    OccursFrom(body, "<table", 0)
  }

  /** `do_scrape` once the response is in: no table means no page, otherwise the first table
      the HTML reader finds in `body`, shaped. */
  function ScrapePage(body: string, table: RawTable, parse: string -> Option<real>)
    : (r: Option<Result<Table, ShapeError>>)
    requires Rectangular(table)
    ensures r.None? <==> forall j :: !OccursAt(body, "<table", j)
    ensures r.Some? ==> r.value == ShapePage(table, parse)
  {
    if !HasTable(body) then None else Some(ShapePage(table, parse))
  }

  // ---------------------------------------------------------------------------------------
  // The page loop

  datatype ScrapeError =
    | NoPages             // `pl.concat` of an empty list: page 1 had no table

  /** The rows of the pages in the order given: vertical concatenation. */
  function Concat<R>(pages: seq<seq<R>>): seq<R>
    decreases |pages|
  {
    if pages == [] then [] else Concat(pages[..|pages| - 1]) + pages[|pages| - 1]
  }

  lemma ConcatAppend<R>(pages: seq<seq<R>>, page: seq<R>)
    ensures Concat(pages + [page]) == Concat(pages) + page
  {
    assert (pages + [page])[..|pages|] == pages;
  }

  /** The rows of pages `1..n`, in page order. */
  function Collected<R>(fetch: nat -> Option<seq<R>>, n: nat): seq<R>
    requires forall p :: 1 <= p <= n ==> fetch(p).Some?
  {
    if n == 0 then [] else Collected(fetch, n - 1) + fetch(n).value
  }

  /** Fetch pages 1, 2, ... until the first one without a table. `requested` lists the page
      numbers asked for: consecutive from 1, ending at the first page without a table, so no
      later page is requested. The result is the rows of the earlier pages in fetch order,
      or `NoPages` when page 1 already had no table. */
  method ScrapePages<R>(fetch: nat -> Option<seq<R>>)
    returns (result: Result<seq<R>, ScrapeError>, requested: seq<nat>)
    requires exists k :: 1 <= k && fetch(k).None?
    ensures |requested| >= 1 && forall i :: 0 <= i < |requested| ==> requested[i] == i + 1
    ensures fetch(|requested|).None?
    ensures forall p :: 1 <= p < |requested| ==> fetch(p).Some?
    ensures |requested| == 1 ==> result == Failure(NoPages)
    ensures |requested| > 1 ==> result == Success(Collected(fetch, |requested| - 1))
  {
    ghost var bound :| 1 <= bound && fetch(bound).None?;
    var pages: seq<seq<R>> := [];
    var pageNum := 1;
    requested := [];
    while true
      invariant 1 <= pageNum <= bound
      invariant |requested| == pageNum - 1
      invariant forall i :: 0 <= i < |requested| ==> requested[i] == i + 1
      invariant forall p :: 1 <= p < pageNum ==> fetch(p).Some?
      invariant |pages| == pageNum - 1
      invariant Concat(pages) == Collected(fetch, pageNum - 1)
      decreases bound - pageNum
    {
      requested := requested + [pageNum];
      var page := fetch(pageNum);
      if page.None? {
        break;
      }
      ConcatAppend(pages, page.value);
      pages := pages + [page.value];
      pageNum := pageNum + 1;
    }
    if pages == [] {
      result := Failure(NoPages);
    } else {
      result := Success(Concat(pages));
    }
  }
}
