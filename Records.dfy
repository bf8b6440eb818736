/**
  The place record the crawler returns and the browser shows and exports
  (`CrawlResult` in src/utils/crawler.ts:3-9, `CrawlItem` in src/hooks/useMapCrawler.ts:3-9;
  the two interfaces have the same fields).
 */
module Records {

  import opened Wrappers

  /** Optional fields (`?:` in the source) are `Option`s. */
  datatype CrawlItem = CrawlItem(
    id: int,
    name: string,
    jibunAddress: Option<string>,
    roadAddress: Option<string>,
    category: Option<string>)

  /** `address || '-'`: how both the table and the export show an address, with the
      placeholder for a missing or empty one. */
  function OrDash(address: Option<string>): (r: string)
    ensures r != []
    ensures address.Some? && address.value != [] ==> r == address.value
    ensures r == "-" <==> address.None? || address.value == [] || address.value == "-"
  {
    match address
    case Some(a) => if a != [] then a else "-"
    case None => "-"
  }
}
