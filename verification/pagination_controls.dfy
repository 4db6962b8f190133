/** The `PaginationControls` component: a window of at most five page
    buttons around the current page, shortcuts to the first and last page
    with ellipses for the gaps, and Previous/Next buttons. */
module PaginationControls {
  import opened Ints

  const MaxVisiblePages := 5

  /** A Previous/Next button: whether it is disabled and the page it asks for. */
  datatype NavButton = NavButton(disabled: bool, target: int)

  datatype Controls = Controls(
    previous: NavButton,
    firstShortcut: bool,
    firstEllipsis: bool,
    pages: seq<int>,
    lastEllipsis: bool,
    lastShortcut: bool,
    next: NavButton)

  /** `startPage` and `endPage`: centre the current page, clip at the last
      page, then slide the window back so that it still holds five pages
      where there are five. */
  function Window(currentPage: int, totalPages: int): (w: (int, int))
    ensures w.0 >= 1 && w.1 <= totalPages
    ensures w.1 - w.0 + 1 <= MaxVisiblePages
    ensures totalPages >= 1 ==> w.0 <= w.1
    ensures totalPages < 1 ==> w.0 == 1
    ensures 1 <= currentPage <= totalPages ==>
      && w.0 <= currentPage <= w.1
      && w.1 - w.0 + 1 == Min(MaxVisiblePages, totalPages)
  {
    var start := Max(1, currentPage - MaxVisiblePages / 2);
    var end := Min(totalPages, start + MaxVisiblePages - 1);
    if end - start + 1 < MaxVisiblePages then (Max(1, end - MaxVisiblePages + 1), end) else (start, end)
  }

  /** The page numbers `start` to `end`, one button each. */
  function PageRange(start: int, end: int): (pages: seq<int>)
    ensures |pages| == Max(0, end - start + 1)
    ensures forall i | 0 <= i < |pages| :: pages[i] == start + i
    ensures forall p :: p in pages <==> start <= p <= end
  {
    var pages := seq(Max(0, end - start + 1), i => start + i);
    assert forall p :: p in pages <==> start <= p <= end by {
      forall p | start <= p <= end ensures p in pages {
        assert pages[p - start] == p;
      }
    }
    pages
  }

  /** The rendered controls for the page information of a response. */
  function Render(currentPage: int, totalPages: int, hasNextPage: bool, hasPreviousPage: bool): (c: Controls)
    ensures forall i | 0 <= i < |c.pages| :: c.pages[i] == c.pages[0] + i
    ensures forall i | 0 <= i < |c.pages| :: 1 <= c.pages[i] <= totalPages
    ensures |c.pages| <= MaxVisiblePages
    ensures totalPages >= 1 ==> |c.pages| >= 1
    ensures 1 <= currentPage <= totalPages ==>
      |c.pages| == Min(MaxVisiblePages, totalPages) && currentPage in c.pages
    ensures totalPages < 1 ==> c.pages == [] && !c.firstShortcut && !c.lastShortcut
    ensures c.firstShortcut <==> totalPages >= 1 && 1 !in c.pages
    ensures c.firstEllipsis <==> totalPages >= 1 && 1 !in c.pages && 2 !in c.pages
    ensures c.lastShortcut <==> totalPages >= 1 && totalPages !in c.pages
    ensures c.lastEllipsis <==> totalPages >= 1 && totalPages !in c.pages && totalPages - 1 !in c.pages
    ensures c.previous.disabled <==> !hasPreviousPage
    ensures c.next.disabled <==> !hasNextPage
    ensures c.previous.target == currentPage - 1 && c.next.target == currentPage + 1
  {
    var (start, end) := Window(currentPage, totalPages);
    var pages := PageRange(start, end);
    var showLast := end < totalPages;
    Controls(
      NavButton(!hasPreviousPage, currentPage - 1),
      start > 1,
      start > 1 && start > 2,
      pages,
      showLast && end < totalPages - 1,
      showLast,
      NavButton(!hasNextPage, currentPage + 1))
  }
}
