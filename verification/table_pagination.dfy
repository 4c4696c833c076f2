/** `TablePagination`: the "Showing a to b of n" line, the five-page
    sliding window, the first/last page buttons with their ellipses, and
    the Previous/Next buttons. */
module TablePagination {
  import opened Common
  import opened Pagination

  /** `x || 1` on a page count: a count of 0 shows as one page. */
  function AtLeastOnePage(pages: int): (r: int)
    ensures pages != 0 ==> r == pages
    ensures pages == 0 ==> r == 1
  {
    if pages == 0 then 1 else pages
  }

  /** `Math.ceil(totalEntries / entriesPerPage) || 1`. */
  function DisplayPages(total: nat, perPage: int): (r: int)
    requires perPage >= 1
    ensures r >= 1
    ensures total <= r * perPage
    ensures total > 0 ==> (r - 1) * perPage < total
    ensures r == 1 <==> total <= perPage
  {
    var t := TotalPages(total, perPage);
    MorePagesThanOne(total, perPage);
    AtLeastOnePage(t)
  }

  /** A second page exists exactly when the rows overflow the first. */
  lemma MorePagesThanOne(total: nat, perPage: int)
    requires perPage >= 1
    ensures TotalPages(total, perPage) >= 2 <==> total > perPage
  {
    var t := TotalPages(total, perPage);
    if t >= 2 {
      MulMonotone(1, t - 1, perPage);
    } else {
      MulMonotone(t, 1, perPage);
    }
  }

  /** The first entry shown, 1-based; 0 for an empty table. */
  function StartEntry(page: int, perPage: int, total: nat): (r: int)
    ensures total == 0 ==> r == 0
    ensures total > 0 ==> r == Offset(page, perPage) + 1
  {
    if total == 0 then 0 else (page - 1) * perPage + 1
  }

  /** The last entry shown. */
  function EndEntry(page: int, perPage: int, total: nat): (r: int)
    ensures r <= total && (r == total || r == page * perPage)
    ensures r <= page * perPage
  {
    if page * perPage < total then page * perPage else total
  }

  /** On a page that holds rows, the line counts exactly the rows the
      backend's `LIMIT`/`OFFSET` slice returns for that page. */
  lemma EntriesMatchSlice<T>(rows: seq<T>, page: int, perPage: int)
    requires perPage >= 1 && page >= 1 && |rows| > 0
    requires Offset(page, perPage) < |rows|
    ensures var s := PageSlice(rows, perPage, Offset(page, perPage));
      && s.Some?
      && 1 <= StartEntry(page, perPage, |rows|) <= EndEntry(page, perPage, |rows|) <= |rows|
      && EndEntry(page, perPage, |rows|) - StartEntry(page, perPage, |rows|) + 1 == |s.value|
      && s.value[0] == rows[StartEntry(page, perPage, |rows|) - 1]
  {
    MulMonotone(0, page - 1, perPage);
    assert page * perPage == Offset(page, perPage) + perPage;
  }

  /** The window of at most five page numbers: `[first, last]`. */
  datatype Window = Window(first: int, last: int)

  /** `getVisiblePages`' bounds: start two before the current page, run
      four further, and slide back when the end is clipped. */
  function VisibleWindow(page: int, totalPages: int): (w: Window)
    requires totalPages >= 1
    ensures 1 <= w.first <= w.last <= totalPages
    ensures w.last - w.first + 1 == if totalPages < 5 then totalPages else 5
    ensures 1 <= page <= totalPages ==> w.first <= page <= w.last
  {
    var start := if page - 2 > 1 then page - 2 else 1;
    var end := if start + 4 < totalPages then start + 4 else totalPages;
    if end - start < 4 then Window(if end - 4 > 1 then end - 4 else 1, end)
    else Window(start, end)
  }

  /** The page numbers of the window, built as the component's loop builds them. */
  method VisiblePages(page: int, totalPages: int) returns (pages: seq<int>)
    requires totalPages >= 1
    ensures |pages| == if totalPages < 5 then totalPages else 5
    ensures forall i :: 0 <= i < |pages| ==> 1 <= pages[i] <= totalPages
    ensures forall i :: 0 <= i < |pages| - 1 ==> pages[i + 1] == pages[i] + 1
    ensures 1 <= page <= totalPages ==> page in pages
    ensures pages[0] == VisibleWindow(page, totalPages).first && pages[|pages| - 1] == VisibleWindow(page, totalPages).last
  {
    var w := VisibleWindow(page, totalPages);
    pages := [];
    var i := w.first;
    while i <= w.last
      invariant w.first <= i <= w.last + 1
      invariant |pages| == i - w.first
      invariant forall k :: 0 <= k < |pages| ==> pages[k] == w.first + k
    {
      pages := pages + [i];
      i := i + 1;
    }
    if 1 <= page <= totalPages {
      assert pages[page - w.first] == page;
    }
  }

  /** What the component draws between Previous and Next. */
  datatype Buttons = Buttons(
    firstPage: bool,
    leadingEllipsis: bool,
    window: Window,
    trailingEllipsis: bool,
    lastPage: bool)

  /** A page button's target and whether it is disabled. */
  datatype Nav = Nav(target: int, disabled: bool)

  datatype Controls = Controls(previous: Nav, buttons: Buttons, next: Nav)

  /** The whole component: the entries line and, from two pages on, the controls. */
  datatype View = View(startEntry: int, endEntry: int, total: nat, controls: Option<Controls>)

  function ButtonsFor(page: int, totalPages: int): (b: Buttons)
    requires totalPages >= 1
    ensures b.window == VisibleWindow(page, totalPages)
    ensures b.firstPage <==> b.window.first > 1
    ensures b.leadingEllipsis <==> b.window.first > 2
    ensures b.lastPage <==> b.window.last < totalPages
    ensures b.trailingEllipsis <==> b.window.last < totalPages - 1
  {
    var w := VisibleWindow(page, totalPages);
    Buttons(w.first > 1, w.first > 1 && w.first > 2, w, w.last < totalPages && w.last < totalPages - 1, w.last < totalPages)
  }

  /** Every page from 1 to the last has a button of its own or lies in a
      gap drawn as an ellipsis, and an ellipsis is drawn only over a gap. */
  lemma EveryPageReachable(page: int, totalPages: int, p: int)
    requires totalPages >= 1 && 1 <= p <= totalPages
    ensures var b := ButtonsFor(page, totalPages);
      || (p == 1 && b.firstPage)
      || (p == totalPages && b.lastPage)
      || b.window.first <= p <= b.window.last
      || (b.leadingEllipsis && 1 < p < b.window.first)
      || (b.trailingEllipsis && b.window.last < p < totalPages)
    ensures var b := ButtonsFor(page, totalPages);
      (b.leadingEllipsis ==> 1 < 2 < b.window.first) && (b.trailingEllipsis ==> b.window.last < totalPages - 1 < totalPages)
  {
  }

  /** No page is drawn twice: the boundary buttons never repeat a window page. */
  lemma NoDuplicateButtons(page: int, totalPages: int)
    requires totalPages >= 1
    ensures var b := ButtonsFor(page, totalPages);
      && (b.firstPage ==> !(b.window.first <= 1 <= b.window.last))
      && (b.lastPage ==> !(b.window.first <= totalPages <= b.window.last))
  {
  }

  function Render(page: int, perPage: int, total: nat, loading: bool): (v: View)
    requires perPage >= 1
    ensures v.startEntry == StartEntry(page, perPage, total) && v.endEntry == EndEntry(page, perPage, total)
    ensures v.controls.None? <==> DisplayPages(total, perPage) <= 1
    ensures v.controls.Some? ==> var c := v.controls.value;
      && c.previous.target == (if page - 1 > 1 then page - 1 else 1)
      && (c.previous.disabled <==> page == 1 || loading)
      && c.next.target == (if page + 1 < DisplayPages(total, perPage) then page + 1 else DisplayPages(total, perPage))
      && (c.next.disabled <==> page == DisplayPages(total, perPage) || total == 0 || loading)
      && c.buttons == ButtonsFor(page, DisplayPages(total, perPage))
  {
    var tp := DisplayPages(total, perPage);
    var controls :=
      if tp <= 1 then None
      else Some(Controls(
        Nav(if page - 1 > 1 then page - 1 else 1, page == 1 || loading),
        ButtonsFor(page, tp),
        Nav(if page + 1 < tp then page + 1 else tp, page == tp || total == 0 || loading)));
    View(StartEntry(page, perPage, total), EndEntry(page, perPage, total), total, controls)
  }

  /** Previous and Next stay within the pages, and from an in-range page
      each moves by exactly one unless disabled. */
  lemma NavigationStaysInRange(page: int, perPage: int, total: nat)
    requires perPage >= 1 && 1 <= page <= DisplayPages(total, perPage)
    requires Render(page, perPage, total, false).controls.Some?
    ensures var c := Render(page, perPage, total, false).controls.value;
      && 1 <= c.previous.target <= DisplayPages(total, perPage)
      && 1 <= c.next.target <= DisplayPages(total, perPage)
      && (!c.previous.disabled ==> c.previous.target == page - 1)
      && (!c.next.disabled ==> c.next.target == page + 1)
  {
  }

  /** With more than one page there are rows, so Next is disabled exactly on
      the last page. */
  lemma NextDisabledOnlyOnLastPage(page: int, perPage: int, total: nat)
    requires perPage >= 1 && Render(page, perPage, total, false).controls.Some?
    ensures Render(page, perPage, total, false).controls.value.next.disabled <==> page == DisplayPages(total, perPage)
  {
  }
}
