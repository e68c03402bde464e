/** The clear-and-rewrite deal-to-sheet sync (sync_to_sheets.py): a 15-column layout
    without the user-count and period columns, written as one header row followed by
    the rows of every fetched deal. */
module RewriteSync {
  import opened Base
  import opened Cells
  import opened MazricaClient
  import DiffSync

  /** The header row of the sheet: the first fifteen headers of the differential sync. */
  const Headers: seq<string> := [
    "案件ID", "案件名", "取引先", "取引先ID", "案件タイプ", "フェーズ", "担当者",
    "商品名", "数量", "単価", "商品金額", "案件金額", "受注予定日", "作成日時", "更新日時"]

  /** The cells after the product columns: deal amount and dates. */
  function TailCells(deal: Deal): (cells: Row)
    ensures |cells| == 4
  {
    [NumOrBlank(deal.amount),
     TextOrBlank(deal.expectedContractDate),
     Str(deal.createdAt),
     Str(deal.updatedAt)]
  }

  /** The product cells of a detail row: the detail's own name, with no fallback. */
  function DetailCells(pd: ProductDetail): (cells: Row)
    ensures |cells| == 4
  {
    [Str(pd.productName), NumOrBlank(pd.quantity), NumOrBlank(pd.unitPrice), NumOrBlank(pd.amount)]
  }

  /** A row of the deal with the given product cells. */
  function MakeRow(deal: Deal, product: Row): (r: Row)
    requires |product| == 4
    ensures |r| == |Headers|
  {
    DiffSync.BaseCells(deal) + product + TailCells(deal)
  }

  /** The rows `deal_to_rows` produces for a deal. */
  function Rows(deal: Deal): (rows: seq<Row>)
    ensures |rows| == if deal.productDetails == [] then 1 else |deal.productDetails|
    ensures forall i :: 0 <= i < |rows| ==> |rows[i]| == |Headers| && rows[i][DiffSync.ColId] == Int(deal.id)
  {
    var details := deal.productDetails;
    if details == [] then
      [MakeRow(deal, [Blank, Blank, Blank, Blank])]
    else
      seq(|details|, i requires 0 <= i < |details| => MakeRow(deal, DetailCells(details[i])))
  }

  /** Each row is the differential sync's row with the user-count and period columns
      dropped, except for the product name: this layout leaves it blank on the placeholder
      row and does not fall back to the deal's product name on a detail row. */
  lemma {:induction false} RowsAreDiffRowsTruncated(deal: Deal)
    ensures |Rows(deal)| == |DiffSync.Rows(deal)|
    ensures forall i, c ::
      (0 <= i < |Rows(deal)| && 0 <= c < |Headers| && c != DiffSync.ColProductName) ==>
      Rows(deal)[i][c] == DiffSync.Rows(deal)[i][c]
    ensures deal.productDetails == [] ==> Rows(deal)[0][DiffSync.ColProductName] == Blank
    ensures forall i :: 0 <= i < |deal.productDetails| ==>
      Rows(deal)[i][DiffSync.ColProductName] == Str(deal.productDetails[i].productName)
  {
    forall i | 0 <= i < |Rows(deal)| {
      RowMatchesDiffRow(deal, i);
    }
  }

  /** The comparison of one row with the differential sync's row. */
  lemma RowMatchesDiffRow(deal: Deal, i: nat)
    requires i < |Rows(deal)|
    ensures forall c :: 0 <= c < |Headers| && c != DiffSync.ColProductName ==>
      Rows(deal)[i][c] == DiffSync.Rows(deal)[i][c]
    ensures Rows(deal)[i][DiffSync.ColProductName] ==
      if deal.productDetails == [] then Blank else Str(deal.productDetails[i].productName)
  {
    var row := Rows(deal)[i];
    var diff := DiffSync.Rows(deal)[i];
    var product := if deal.productDetails == [] then [Blank, Blank, Blank, Blank] else DetailCells(deal.productDetails[i]);
    var diffProduct := if deal.productDetails == [] then DiffSync.PlaceholderCells(deal)
                       else DiffSync.DetailCells(deal, deal.productDetails[i]);
    assert row == DiffSync.BaseCells(deal) + product + TailCells(deal);
    assert diff == DiffSync.BaseCells(deal) + diffProduct + DiffSync.TailCells(deal);
    assert product[1..] == diffProduct[1..];
    assert TailCells(deal) == DiffSync.TailCells(deal)[..4];
  }

  /** Every row of a deal carries the same deal cells as the differential sync's rows: id
      and name, the falsy-blanked customer, deal type, phase and user, the `None`-blanked
      deal amount, the falsy-blanked expected contract date and the two timestamps. */
  lemma RowsDealColumns(deal: Deal)
    ensures forall i :: 0 <= i < |Rows(deal)| ==> DiffSync.DealCells(deal, Rows(deal)[i])
  {
    RowsAreDiffRowsTruncated(deal);
    DiffSync.RowsDealColumns(deal);
  }

  /** A deal without product details gets one row whose four product cells are blank;
      a deal with details gets one row per detail, in order, with that detail's cells,
      quantity and prices blank only where they are `None`. */
  lemma RowsProductCells(deal: Deal)
    ensures deal.productDetails == [] ==> Rows(deal)[0][7..11] == [Blank, Blank, Blank, Blank]
    ensures forall i :: 0 <= i < |deal.productDetails| ==>
      var pd := deal.productDetails[i];
      Rows(deal)[i][7..11] == [Str(pd.productName), NumOrBlank(pd.quantity), NumOrBlank(pd.unitPrice), NumOrBlank(pd.amount)]
  {
    var rows := Rows(deal);
    forall i | 0 <= i < |rows|
      ensures rows[i][7..11] == if deal.productDetails == [] then [Blank, Blank, Blank, Blank]
                                else DetailCells(deal.productDetails[i])
    {
      var product := if deal.productDetails == [] then [Blank, Blank, Blank, Blank] else DetailCells(deal.productDetails[i]);
      assert rows[i] == DiffSync.BaseCells(deal) + product + TailCells(deal);
    }
  }

  /** `deal_to_rows`: appends one row per product detail, in order, or the single
      blank-product row when there are none. */
  method DealToRows(deal: Deal) returns (rows: seq<Row>)
    ensures rows == Rows(deal)
  {
    rows := [];
    var details := deal.productDetails;
    if details != [] {
      var i := 0;
      while i < |details|
        invariant 0 <= i <= |details|
        invariant |rows| == i
        invariant forall k :: 0 <= k < i ==> rows[k] == MakeRow(deal, DetailCells(details[k]))
      {
        var pd := details[i];
        var row := MakeRow(deal, DetailCells(pd));
        rows := rows + [row];
        i := i + 1;
      }
    } else {
      var row := MakeRow(deal, [Blank, Blank, Blank, Blank]);
      rows := rows + [row];
    }
  }

  /** The rows of all the deals, in order. */
  function AllRows(deals: seq<Deal>): (rows: seq<Row>)
    ensures forall i :: 0 <= i < |rows| ==> |rows[i]| == |Headers|
  {
    if deals == [] then []
    else AllRows(deals[..|deals| - 1]) + Rows(deals[|deals| - 1])
  }

  /** Taking one more deal appends that deal's rows. */
  lemma AllRowsExtend(deals: seq<Deal>, i: nat)
    requires i < |deals|
    ensures AllRows(deals[..i + 1]) == AllRows(deals[..i]) + Rows(deals[i])
  {
    assert deals[..i + 1][..i] == deals[..i];
  }

  /** There is one row per product detail and one per deal without any: as many as the
      differential sync would append for the same deals. */
  lemma {:induction false} AllRowsCount(deals: seq<Deal>)
    ensures |AllRows(deals)| == DiffSync.RowCount(deals)
  {
    if deals != [] {
      AllRowsCount(deals[..|deals| - 1]);
    }
  }

  /** Appending a deal's rows after the header and the earlier deals' rows gives the
      header and the rows of one more deal. */
  lemma AppendDealRows(deals: seq<Deal>, i: nat, header: Row)
    requires i < |deals|
    ensures [header] + AllRows(deals[..i]) + Rows(deals[i]) == [header] + AllRows(deals[..i + 1])
  {
    AllRowsExtend(deals, i);
  }

  /** The statistics of a run, without the timestamp and the error fields. */
  datatype RewriteStats = RewriteStats(totalDeals: nat, totalRows: nat)

  /** The data assembly of `sync_deals_to_sheets`: the header row followed by every
      deal's rows, which replace the whole sheet, and the statistics. */
  method BuildSheetData(deals: seq<Deal>) returns (data: seq<Row>, stats: RewriteStats)
    ensures data == [HeaderRow(Headers)] + AllRows(deals)
    ensures stats.totalDeals == |deals|
    ensures stats.totalRows == |data| - 1 == DiffSync.RowCount(deals)
  {
    stats := RewriteStats(|deals|, 0);
    var header := HeaderRow(Headers);
    data := [header];
    var i := 0;
    while i < |deals|
      invariant 0 <= i <= |deals|
      invariant data == [header] + AllRows(deals[..i])
    {
      var rows := DealToRows(deals[i]);
      AppendDealRows(deals, i, header);
      data := data + rows;
      i := i + 1;
    }
    assert deals[..i] == deals;
    AllRowsCount(deals);
    stats := stats.(totalRows := |data| - 1);
  }
}
