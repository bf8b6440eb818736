/**
  The results table (src/components/result/ResultTable.tsx): twenty records per page, the
  row numbers shown beside them, the page controls and the copy buttons. The component's
  `useState` variables are the fields of class `Table`; what it renders from them is given
  by functions of the data and the current page.
 */
module ResultTable {

  import opened Wrappers
  import opened Records
  import opened Numbers

  const ItemsPerPage: nat := 20

  /** `Math.ceil(n / itemsPerPage)`: the fewest pages of twenty that hold `n` records. */
  function TotalPages(n: nat): (t: nat)
    ensures n <= t * ItemsPerPage
    ensures t == 0 || (t - 1) * ItemsPerPage < n
  {
    (n + ItemsPerPage - 1) / ItemsPerPage
  }

  /** A `slice` argument resolved against the length: negative counts from the end. */
  function SliceIndex(k: int, len: nat): (r: nat)
    ensures r <= len
    ensures 0 <= k <= len ==> r == k
  {
    if k < 0 then Max(len + k, 0) else Min(k, len)
  }

  /** `s.slice(start, end)` */
  function Slice<T>(s: seq<T>, start: int, end: int): seq<T> {
    var a, b := SliceIndex(start, |s|), SliceIndex(end, |s|);
    if a < b then s[a..b] else []
  }

  /** `currentData`: the rows shown on page `page`. */
  function PageRows<T>(data: seq<T>, page: int): seq<T> {
    Slice(data, (page - 1) * ItemsPerPage, page * ItemsPerPage)
  }

  /** The number shown in the first column of row `index` of page `page`. */
  function GlobalIndex(page: int, index: int): int {
    (page - 1) * ItemsPerPage + index + 1
  }

  /** A page shows the contiguous run of at most twenty records that starts at its first
      position, and nothing once that position is past the end. */
  lemma PageRowsContents<T>(data: seq<T>, page: int)
    requires page >= 1
    ensures var rows, start := PageRows(data, page), (page - 1) * ItemsPerPage;
            && |rows| == (if start >= |data| then 0 else Min(ItemsPerPage, |data| - start))
            && forall k :: 0 <= k < |rows| ==> rows[k] == data[start + k]
  {
  }

  /** Numbering is gap-free and follows the position in the data, whatever the ids: record
      `k` is row `k % 20` of page `k / 20 + 1`, a page that exists, and is numbered `k + 1`. */
  lemma EveryRecordIsShownOnce<T>(data: seq<T>, k: nat)
    requires k < |data|
    ensures var page, index := k / ItemsPerPage + 1, k % ItemsPerPage;
            && 1 <= page <= TotalPages(|data|)
            && index < |PageRows(data, page)|
            && PageRows(data, page)[index] == data[k]
            && GlobalIndex(page, index) == k + 1
  {
    var page, index := k / ItemsPerPage + 1, k % ItemsPerPage;
    assert (page - 1) * ItemsPerPage + index == k;
    PageRowsContents(data, page);
  }

  /** Conversely, the row numbered `g` holds record `g - 1`. */
  lemma RowNumberIsPosition<T>(data: seq<T>, page: int, index: nat)
    requires page >= 1 && index < |PageRows(data, page)|
    ensures 1 <= GlobalIndex(page, index) <= |data|
    ensures PageRows(data, page)[index] == data[GlobalIndex(page, index) - 1]
  {
    PageRowsContents(data, page);
  }

  /** A page beyond the last one shows no rows. */
  lemma PastLastPageIsEmpty<T>(data: seq<T>, page: int)
    requires page > TotalPages(|data|) && page >= 1
    ensures PageRows(data, page) == []
  {
    PageRowsContents(data, page);
  }

  /** The table renders only for non-empty data, and the page controls only when there is
      more than one page, that is for more than twenty records. */
  predicate Renders(n: nat) {
    n != 0
  }

  predicate ShowsPagination(n: nat) {
    TotalPages(n) > 1
  }

  lemma PaginationThreshold(n: nat)
    ensures Renders(n) <==> TotalPages(n) >= 1
    ensures ShowsPagination(n) <==> n > ItemsPerPage
  {
  }

  /** The clicks the page controls offer: previous, next, and a numbered page button. */
  datatype Click = Prev | Next | GoTo(page: int)

  /** The page after a click: the setter callbacks of the three kinds of button. */
  function Step(page: int, total: nat, click: Click): int {
    match click
    case Prev => Max(1, page - 1)
    case Next => Min(total, page + 1)
    case GoTo(p) => p
  }

  /** Only buttons for pages `1..totalPages` are rendered. */
  predicate Offered(click: Click, total: nat) {
    click.GoTo? ==> 1 <= click.page <= total
  }

  function AfterClicks(page: int, total: nat, clicks: seq<Click>): int
    decreases |clicks|
  {
    if clicks == [] then page else AfterClicks(Step(page, total, clicks[0]), total, clicks[1..])
  }

  /** Starting on a page that exists, any sequence of offered clicks stays on a page that
      exists. */
  lemma {:induction false} ClicksStayInRange(page: int, total: nat, clicks: seq<Click>)
    requires 1 <= page <= total
    requires forall k :: 0 <= k < |clicks| ==> Offered(clicks[k], total)
    ensures 1 <= AfterClicks(page, total, clicks) <= total
    decreases |clicks|
  {
    if clicks != [] {
      assert Offered(clicks[0], total);
      ClicksStayInRange(Step(page, total, clicks[0]), total, clicks[1..]);
    }
  }

  /** On a page that exists, "previous" is disabled exactly when it would not move, and so
      is "next". */
  lemma DisabledExactlyWhenNoMove(page: int, total: nat)
    requires 1 <= page <= total
    ensures (page == 1) <==> Step(page, total, Prev) == page
    ensures (page == total) <==> Step(page, total, Next) == page
  {
  }

  /** The keys of the two copy buttons of a record. */
  function JibunCopyKey(id: int): int {
    id * 10
  }

  function RoadCopyKey(id: int): int {
    id * 10 + 1
  }

  /** No two copy buttons share a key, so at most one shows its check mark: a jibun key is
      never a road key, and each kind of key determines its record's id. */
  lemma CopyKeysAreDistinct(a: int, b: int)
    ensures JibunCopyKey(a) != RoadCopyKey(b)
    ensures JibunCopyKey(a) == JibunCopyKey(b) <==> a == b
    ensures RoadCopyKey(a) == RoadCopyKey(b) <==> a == b
  {
  }

  /** The component's state: its `data` prop, `currentPage` and `copiedId`. */
  class Table {
    var data: seq<CrawlItem>
    var currentPage: int
    var copiedId: Option<int>

    function Total(): nat
      reads this
    {
      TotalPages(|data|)
    }

    /** The page shown exists. */
    predicate InRange()
      reads this
    {
      1 <= currentPage <= Total()
    }

    /** The rows currently shown. */
    function Rows(): seq<CrawlItem>
      reads this
    {
      PageRows(data, currentPage)
    }

    /** First render: page 1, nothing copied. */
    constructor(data: seq<CrawlItem>)
      ensures this.data == data && currentPage == 1 && copiedId == None
      ensures Renders(|data|) ==> InRange()
    {
      this.data := data;
      currentPage := 1;
      copiedId := None;
    }

    method PrevPage()
      modifies this
      ensures currentPage == Step(old(currentPage), Total(), Prev)
      ensures data == old(data) && copiedId == old(copiedId)
      ensures old(InRange()) ==> InRange()
    {
      currentPage := Max(1, currentPage - 1);
    }

    method NextPage()
      modifies this
      ensures currentPage == Step(old(currentPage), Total(), Next)
      ensures data == old(data) && copiedId == old(copiedId)
      ensures old(InRange()) ==> InRange()
    {
      currentPage := Min(Total(), currentPage + 1);
    }

    /** A numbered button; only buttons for existing pages are rendered. */
    method GoToPage(page: int)
      requires 1 <= page <= Total()
      modifies this
      ensures currentPage == Step(old(currentPage), Total(), GoTo(page))
      ensures data == old(data) && copiedId == old(copiedId)
      ensures InRange()
    {
      currentPage := page;
    }

    /** A copy button was clicked: its key shows the check mark. */
    method CopyToClipboard(key: int)
      modifies this
      ensures copiedId == Some(key)
      ensures data == old(data) && currentPage == old(currentPage)
    {
      copiedId := Some(key);
    }

    /** The timer set by the copy has fired. */
    method ClearCopied()
      modifies this
      ensures copiedId == None
      ensures data == old(data) && currentPage == old(currentPage)
    {
      copiedId := None;
    }

    /** A new `data` prop: the component stays mounted, so its state is kept. */
    method ReceiveData(newData: seq<CrawlItem>)
      modifies this
      ensures data == newData
      ensures currentPage == old(currentPage) && copiedId == old(copiedId)
    {
      data := newData;
    }

    /** A new `data` prop with the page reset, as a remount would do. */
    method ReceiveDataResettingPage(newData: seq<CrawlItem>)
      modifies this
      ensures data == newData && currentPage == 1
      ensures copiedId == old(copiedId)
      ensures Renders(|newData|) ==> InRange() && Rows() == newData[..Min(ItemsPerPage, |newData|)]
    {
      data := newData;
      currentPage := 1;
      PageRowsContents(data, 1);
    }
  }

  /** As written: after a hundred records and a move to page 5, a new search that finds ten
      keeps page 5, which shows no rows and, being the only page, no controls to leave it. */
  lemma StalePageShowsNothing(before: seq<CrawlItem>, after: seq<CrawlItem>)
    requires |before| == 100 && |after| == 10
    ensures 1 <= 5 <= TotalPages(|before|)
    ensures TotalPages(|after|) == 1 && !ShowsPagination(|after|)
    ensures PageRows(after, 5) == []
  {
    PastLastPageIsEmpty(after, 5);
  }

  /** Corrected: with the page reset, any new non-empty data shows its first records on a
      page that exists. */
  lemma ResetPageShowsData(data: seq<CrawlItem>)
    requires Renders(|data|)
    ensures 1 <= TotalPages(|data|)
    ensures PageRows(data, 1) == data[..Min(ItemsPerPage, |data|)] && PageRows(data, 1) != []
  {
    PageRowsContents(data, 1);
  }
}
