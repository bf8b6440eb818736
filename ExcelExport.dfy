/**
  The row mapping of the spreadsheet export (src/components/common/ExcelExportButton.tsx):
  each record becomes a row of four labelled columns, in order.
 */
module ExcelExport {

  import opened Wrappers
  import opened Records

  /** The column labels, in column order. */
  const Headers: seq<string> := ["번호", "상호명", "지번 주소", "도로명 주소"]

  /** One sheet row: number, name, jibun address, street address. */
  datatype Row = Row(number: int, name: string, jibunAddress: string, roadAddress: string)

  /** The object built for one record. */
  function FormatRow(item: CrawlItem): Row {
    Row(item.id, item.name, OrDash(item.jibunAddress), OrDash(item.roadAddress))
  }

  /** `data.map(...)`: one row per record, in the same order. */
  function FormatRows(data: seq<CrawlItem>): (rows: seq<Row>)
    ensures |rows| == |data|
    ensures forall k :: 0 <= k < |data| ==> rows[k] == FormatRow(data[k])
  {
    if data == [] then [] else [FormatRow(data[0])] + FormatRows(data[1..])
  }

  /** `handleDownload`: nothing for empty data, otherwise the rows written to the sheet. */
  function HandleDownload(data: seq<CrawlItem>): (r: Option<seq<Row>>)
    ensures r.None? <==> data == []
    ensures r.Some? ==> r.value == FormatRows(data) && |r.value| == |data| && r.value != []
  {
    if |data| == 0 then None else Some(FormatRows(data))
  }

  /** Number and name are copied unchanged; an address column holds the address when it is
      non-empty and "-" when it is missing or empty; no cell of an address column is empty. */
  lemma RowColumns(item: CrawlItem)
    ensures var row := FormatRow(item);
            && row.number == item.id && row.name == item.name
            && (item.jibunAddress.Some? && item.jibunAddress.value != [] ==> row.jibunAddress == item.jibunAddress.value)
            && (item.jibunAddress.None? || item.jibunAddress.value == [] ==> row.jibunAddress == "-")
            && (item.roadAddress.Some? && item.roadAddress.value != [] ==> row.roadAddress == item.roadAddress.value)
            && (item.roadAddress.None? || item.roadAddress.value == [] ==> row.roadAddress == "-")
            && row.jibunAddress != [] && row.roadAddress != []
  {
  }

  /** Records whose street address is the empty string, as the crawler produces them, export
      "-" in that column. */
  lemma EmptyRoadAddressExportsDash(data: seq<CrawlItem>)
    requires forall k :: 0 <= k < |data| ==> data[k].roadAddress == Some([])
    ensures forall k :: 0 <= k < |data| ==> FormatRows(data)[k].roadAddress == "-"
  {
  }
}
