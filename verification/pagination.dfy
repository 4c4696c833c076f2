/** The paging arithmetic of the listing services: `LIMIT`/`OFFSET`, the
    `pagination` metadata object, and which rows a page holds. */
module Pagination {
  import opened Common

  /** The `pagination` object of a listing response. */
  datatype PageMeta = PageMeta(
    page: int,
    perPage: int,
    total: nat,
    totalPages: int,
    hasNext: bool,
    hasPrev: bool)

  /** `(total + per_page - 1) // per_page if per_page > 0 else 1`: the ceiling
      of `total / per_page`, which is 0 for an empty table. */
  function TotalPages(total: nat, perPage: int): (r: int)
    ensures perPage <= 0 ==> r == 1
    ensures perPage > 0 ==> r >= 0 && (r == 0 <==> total == 0)
    ensures perPage > 0 ==> total <= r * perPage && (r - 1) * perPage < total + (if total == 0 then 1 else 0)
  {
    if perPage > 0 then
      var q := (total + perPage - 1) / perPage;
      assert q * perPage + (total + perPage - 1) % perPage == total + perPage - 1;
      q
    else 1
  }

  /** `offset = (page - 1) * per_page`. */
  function Offset(page: int, perPage: int): int {
    (page - 1) * perPage
  }

  /** The metadata a successful listing reports. */
  function Meta(page: int, perPage: int, total: nat): (m: PageMeta)
    ensures m.page == page && m.perPage == perPage && m.total == total
    ensures m.totalPages == TotalPages(total, perPage)
    ensures m.hasNext <==> page < m.totalPages
    ensures m.hasPrev <==> page > 1
  {
    var tp := TotalPages(total, perPage);
    PageMeta(page, perPage, total, tp, page < tp, page > 1)
  }

  /** `LIMIT :limit OFFSET :offset` over the rows in query order. PostgreSQL
      rejects a negative limit or offset, which the services report as a failure. */
  function PageSlice<T>(rows: seq<T>, limit: int, offset: int): (r: Option<seq<T>>)
    ensures r.None? <==> limit < 0 || offset < 0
    ensures r.Some? ==> |r.value| <= limit
    ensures r.Some? ==> forall i :: 0 <= i < |r.value| ==> offset + i < |rows| && r.value[i] == rows[offset + i]
    ensures r.Some? ==> |r.value| == (if offset >= |rows| then 0 else if offset + limit <= |rows| then limit else |rows| - offset)
  {
    if limit < 0 || offset < 0 then None
    else
      var lo := if offset < |rows| then offset else |rows|;
      var hi := if offset + limit < |rows| then offset + limit else |rows|;
      Some(rows[lo..hi])
  }

  /** With a positive page size every row lies on exactly one page, and that
      page is within `1..total_pages`. */
  lemma {:induction false} RowOnOnePage<T>(rows: seq<T>, perPage: int, i: nat)
    requires perPage > 0 && i < |rows|
    ensures var p := i / perPage + 1;
      && 1 <= p <= TotalPages(|rows|, perPage)
      && PageSlice(rows, perPage, Offset(p, perPage)).value[i - Offset(p, perPage)] == rows[i]
    ensures forall p :: 1 <= p && p != i / perPage + 1 ==>
      !(Offset(p, perPage) <= i < Offset(p, perPage) + perPage)
  {
    var p := i / perPage + 1;
    var q := i / perPage;
    assert q * perPage <= i < q * perPage + perPage by {
      assert q * perPage + i % perPage == i;
    }
    assert Offset(p, perPage) == q * perPage;
    var tp := TotalPages(|rows|, perPage);
    if tp < p {
      MulMonotone(tp, q, perPage);
    }
    forall p' | 1 <= p' && p' != p
      ensures !(Offset(p', perPage) <= i < Offset(p', perPage) + perPage)
    {
      if p' < p {
        MulMonotone(p', q, perPage);
        assert Offset(p', perPage) + perPage == p' * perPage;
      } else {
        MulMonotone(q + 1, p' - 1, perPage);
        assert Offset(p', perPage) == (p' - 1) * perPage;
      }
    }
  }

  lemma MulMonotone(a: int, b: int, k: int)
    requires a <= b && k >= 0
    ensures a * k <= b * k
  {
    assert b * k - a * k == (b - a) * k;
  }

  /** The page after the last one is empty. */
  lemma PastLastPageEmpty<T>(rows: seq<T>, perPage: int)
    requires perPage > 0
    ensures PageSlice(rows, perPage, Offset(TotalPages(|rows|, perPage) + 1, perPage)) == Some([])
  {
    var tp := TotalPages(|rows|, perPage);
    assert Offset(tp + 1, perPage) == tp * perPage;
  }

  /** The examples: 0 rows give 0 pages; 25 rows at 10 a page give 3 pages
      with a next page from page 2 and none from page 3. */
  lemma MetaExamples()
    ensures Meta(1, 10, 0) == PageMeta(1, 10, 0, 0, false, false)
    ensures Meta(2, 10, 25) == PageMeta(2, 10, 25, 3, true, true)
    ensures Meta(3, 10, 25).hasNext == false
    ensures Meta(1, 0, 7).totalPages == 1
  {
  }
}
