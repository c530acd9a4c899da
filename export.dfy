/** The spreadsheet export: the matching sites joined with their categories,
    in the requested order, at most one page of 10000, written to Sheet1 as a
    header row followed by one row per record. */
module SiteExport {
  import opened SiteModel
  import opened Query
  import opened Ordering
  import opened Store
  import opened Batch

  /** The header row, columns A..I. */
  const Headers: seq<string> := ["ID", "Logo", "标题", "链接", "描述", "分类", "创建日期", "更新日期", "状态"]

  /** The page the export reads, and its size. */
  const ExportPage := 1
  const ExportPageSize := 10000

  /** A value written to a cell. */
  datatype Cell = Text(s: string) | Number(n: int) | Flag(b: bool) | Instant(t: int)

  /** The sheet: row number to the cells of that row by column number, both
      counted from 1; column 1 is A. */
  type Grid = map<int, map<int, Cell>>

  /** The sheet with the cell at (column, row) set to value. */
  function SetCell(g: Grid, column: int, row: int, value: Cell): Grid {
    g[row := (if row in g then g[row] else map[])[column := value]]
  }

  /** A workbook whose one sheet is filled cell by cell. */
  class Workbook {
    var cells: Grid

    constructor ()
      ensures cells == map[]
    {
      cells := map[];
    }

    /** SetCellValue(sheetName, cell, value) */
    method SetCellValue(column: int, row: int, value: Cell)
      modifies this
      ensures cells == SetCell(old(cells), column, row, value)
    {
      cells := SetCell(cells, column, row, value);
    }
  }

  // -------------------------------------------------------------- records

  /** CreatedAt descending, replaced by Sort ascending when a category is given. */
  function ExportOrder(categoryID: int): (order: seq<OrderColumn>)
    ensures |order| == 1
    ensures order[0] == (if categoryID != 0 then SortAsc else CreatedAtDesc)
  {
    if categoryID != 0 then [SortAsc] else [CreatedAtDesc]
  }

  /** The rows FindSiteCategoryWithPage(1, 10000, ...) hands to the export. */
  function ExportRecords(like: SearchMatcher, st: DbState, req: ExportReq): seq<SiteCategory> {
    var w := QueryConditions(req.search, req.categoryID);
    Page(SortBy(ExportOrder(req.categoryID), Joined(st.categories, Filtered(like, w, st.sites))),
         ExportPage, ExportPageSize)
  }

  /** The records come in the export order. */
  lemma ExportRecordsSorted(like: SearchMatcher, st: DbState, req: ExportReq)
    ensures Sorted(ExportOrder(req.categoryID), ExportRecords(like, st, req))
  {
    var order := ExportOrder(req.categoryID);
    var w := QueryConditions(req.search, req.categoryID);
    var sorted := SortBy(order, Joined(st.categories, Filtered(like, w, st.sites)));
    SortBySorted(order, Joined(st.categories, Filtered(like, w, st.sites)));
    PageSorted(order, sorted, ExportPage, ExportPageSize);
  }

  /** Every record is a stored site that passes the search and lies in the
      requested category, joined with its own category; there are at most 10000. */
  lemma ExportRecordsMatch(like: SearchMatcher, st: DbState, req: ExportReq)
    ensures |ExportRecords(like, st, req)| <= ExportPageSize
    ensures forall x :: x in ExportRecords(like, st, req) ==>
      && x.site in st.sites
      && (req.search == "" || like(req.search, x.site.title, x.site.description, x.site.url))
      && (req.categoryID == 0 || x.site.categoryID == req.categoryID)
      && x.category == CategoryOf(st.categories, x.site.categoryID)
  {
    var w := QueryConditions(req.search, req.categoryID);
    var f := Filtered(like, w, st.sites);
    var joined := Joined(st.categories, f);
    var sorted := SortBy(ExportOrder(req.categoryID), joined);
    var recs := ExportRecords(like, st, req);
    forall x | x in recs
      ensures x.site in st.sites
      ensures req.search == "" || like(req.search, x.site.title, x.site.description, x.site.url)
      ensures req.categoryID == 0 || x.site.categoryID == req.categoryID
      ensures x.category == CategoryOf(st.categories, x.site.categoryID)
    {
      var i :| 0 <= i < |recs| && recs[i] == x;
      assert x == sorted[i];
      assert x in multiset(sorted);
      assert x in multiset(joined);
      var j :| 0 <= j < |joined| && joined[j] == x;
      assert x.site == f[j] && f[j] in f;
      QueryConditionsSelect(like, req.search, req.categoryID, x.site);
    }
  }

  /** While no more than 10000 sites match, the export holds every one of
      them, each once, joined with its category. */
  lemma ExportRecordsComplete(like: SearchMatcher, st: DbState, req: ExportReq)
    requires |Filtered(like, QueryConditions(req.search, req.categoryID), st.sites)| <= ExportPageSize
    ensures var w := QueryConditions(req.search, req.categoryID);
      multiset(ExportRecords(like, st, req)) == multiset(Joined(st.categories, Filtered(like, w, st.sites)))
  {
    var w := QueryConditions(req.search, req.categoryID);
    var sorted := SortBy(ExportOrder(req.categoryID), Joined(st.categories, Filtered(like, w, st.sites)));
    assert ExportRecords(like, st, req) == sorted;
  }

  // ----------------------------------------------------------------- grid

  /** Row 1 once the first n headers are written: column c holds header c. */
  function HeaderRow(n: int): map<int, Cell>
    requires n <= |Headers|
  {
    map c | 1 <= c <= n :: HeaderCell(c)
  }

  /** Header c, counted from 1. */
  function HeaderCell(c: int): Cell
    requires 1 <= c <= |Headers|
  {
    Text(Headers[c - 1])
  }

  /** The sheet once the first n headers are written. */
  function HeaderGrid(n: int): Grid
    requires n <= |Headers|
  {
    if n <= 0 then map[] else map[1 := HeaderRow(n)]
  }

  /** The nine cells of a record, columns A..I: ID, Logo, title, URL,
      description, category title, creation, update, status. */
  function RecordRow(x: SiteCategory): map<int, Cell> {
    map[1 := Number(x.site.id),
        2 := Text(x.site.icon),
        3 := Text(x.site.title),
        4 := Text(x.site.url),
        5 := Text(x.site.description),
        6 := Text(x.category.title),
        7 := Instant(x.site.createdAt),
        8 := Instant(x.site.updatedAt),
        9 := Flag(x.site.isUsed)]
  }

  /** Rows 2..k+1 once the first k records are written, record i in row i + 2. */
  function RecordRows(recs: seq<SiteCategory>, k: int): Grid
    requires k <= |recs|
  {
    map r | 2 <= r <= k + 1 :: RowOf(recs, r)
  }

  /** The row that holds the record written to row r. */
  function RowOf(recs: seq<SiteCategory>, r: int): map<int, Cell>
    requires 2 <= r <= |recs| + 1
  {
    RecordRow(recs[r - 2])
  }

  /** The sheet the export produces from its records. */
  function ExportGrid(recs: seq<SiteCategory>): Grid {
    HeaderGrid(|Headers|) + RecordRows(recs, |recs|)
  }

  /** SetCellValue(i + 1, 1, headers[i]) adds the next header. */
  lemma HeaderGridNext(n: nat)
    requires n < |Headers|
    ensures SetCell(HeaderGrid(n), n + 1, 1, Text(Headers[n])) == HeaderGrid(n + 1)
  {
    if n > 0 {
      assert HeaderRow(n)[n + 1 := Text(Headers[n])] == HeaderRow(n + 1);
    } else {
      assert map[1 := Text(Headers[0])] == HeaderRow(1);
    }
  }

  /** The nine SetCellValue calls of a row not yet written put the record there. */
  lemma RecordRowWrites(g: Grid, rowNum: int, x: SiteCategory)
    requires rowNum !in g
    ensures
      var g1 := SetCell(g, 1, rowNum, Number(x.site.id));
      var g2 := SetCell(g1, 2, rowNum, Text(x.site.icon));
      var g3 := SetCell(g2, 3, rowNum, Text(x.site.title));
      var g4 := SetCell(g3, 4, rowNum, Text(x.site.url));
      var g5 := SetCell(g4, 5, rowNum, Text(x.site.description));
      var g6 := SetCell(g5, 6, rowNum, Text(x.category.title));
      var g7 := SetCell(g6, 7, rowNum, Instant(x.site.createdAt));
      var g8 := SetCell(g7, 8, rowNum, Instant(x.site.updatedAt));
      SetCell(g8, 9, rowNum, Flag(x.site.isUsed)) == g[rowNum := RecordRow(x)]
  {
  }

  /** Record k goes into row k + 2, the first row not yet written. */
  lemma RecordRowsNext(recs: seq<SiteCategory>, k: nat)
    requires k < |recs|
    ensures k + 2 !in RecordRows(recs, k)
    ensures RecordRows(recs, k)[k + 2 := RecordRow(recs[k])] == RecordRows(recs, k + 1)
  {
    var rows, rows' := RecordRows(recs, k), RecordRows(recs, k + 1);
    assert rows'.Keys == rows.Keys + {k + 2};
  }

  /** Rows added next to the header row keep it apart. */
  lemma HeaderAndRows(header: Grid, rows: Grid, rowNum: int, row: map<int, Cell>)
    requires forall r :: r in header ==> r < 2
    requires 2 <= rowNum && rowNum !in rows
    ensures rowNum !in header + rows
    ensures (header + rows)[rowNum := row] == header + rows[rowNum := row]
  {
  }

  /** The layout of the exported sheet: the nine headers in row 1, columns
      A..I; record i (counted from 0) in row i + 2 as its nine cells; no other
      row. */
  lemma ExportGridLayout(recs: seq<SiteCategory>)
    ensures var g := ExportGrid(recs);
      && (forall r :: r in g <==> 1 <= r <= |recs| + 1)
      && (forall c :: c in g[1] <==> 1 <= c <= |Headers|)
      && (forall c :: 1 <= c <= |Headers| ==> g[1][c] == Text(Headers[c - 1]))
      && (forall i :: 0 <= i < |recs| ==> g[i + 2] == RecordRow(recs[i]))
  {
    var g := ExportGrid(recs);
    assert 1 in g;
    forall i | 0 <= i < |recs| ensures g[i + 2] == RecordRow(recs[i]) {
      assert i + 2 in RecordRows(recs, |recs|);
    }
  }

  // --------------------------------------------------------------- export

  /** The header loop: header i goes to column i + 1 of row 1. */
  method WriteHeaders(excelFile: Workbook)
    requires excelFile.cells == map[]
    modifies excelFile
    ensures excelFile.cells == HeaderGrid(|Headers|)
  {
    for i := 0 to |Headers|
      invariant excelFile.cells == HeaderGrid(i)
    {
      HeaderGridNext(i);
      excelFile.SetCellValue(i + 1, 1, Text(Headers[i]));
    }
  }

  /** The record loop: record i goes to columns A..I of row i + 2. */
  method WriteRecords(excelFile: Workbook, recs: seq<SiteCategory>)
    requires excelFile.cells == HeaderGrid(|Headers|)
    modifies excelFile
    ensures excelFile.cells == ExportGrid(recs)
  {
    ghost var header := excelFile.cells;
    for i := 0 to |recs|
      invariant excelFile.cells == header + RecordRows(recs, i)
    {
      RecordRowsNext(recs, i);
      HeaderAndRows(header, RecordRows(recs, i), i + 2, RecordRow(recs[i]));
      WriteRecordRow(excelFile, i + 2, recs[i]);
    }
  }

  /** The nine SetCellValue calls for one record, columns A..I of rowNum. */
  method WriteRecordRow(excelFile: Workbook, rowNum: int, x: SiteCategory)
    requires rowNum !in excelFile.cells
    modifies excelFile
    ensures excelFile.cells == old(excelFile.cells)[rowNum := RecordRow(x)]
  {
    RecordRowWrites(excelFile.cells, rowNum, x);
    excelFile.SetCellValue(1, rowNum, Number(x.site.id));
    excelFile.SetCellValue(2, rowNum, Text(x.site.icon));
    excelFile.SetCellValue(3, rowNum, Text(x.site.title));
    excelFile.SetCellValue(4, rowNum, Text(x.site.url));
    excelFile.SetCellValue(5, rowNum, Text(x.site.description));
    excelFile.SetCellValue(6, rowNum, Text(x.category.title));
    excelFile.SetCellValue(7, rowNum, Instant(x.site.createdAt));
    excelFile.SetCellValue(8, rowNum, Instant(x.site.updatedAt));
    excelFile.SetCellValue(9, rowNum, Flag(x.site.isUsed));
  }

  /** Export: query the records, fill a fresh workbook, then NewSheet, which
      may fail (sheetFails). A query error produces no workbook. */
  method Export(db: Db, req: ExportReq, queryFails: bool, sheetFails: bool) returns (r: Result<Workbook>)
    ensures r.Err? <==> queryFails || sheetFails
    ensures r.Ok? ==> fresh(r.value) && r.value.cells == ExportGrid(ExportRecords(db.search, db.State(), req))
  {
    var orderColumns := [CreatedAtDesc];
    var whereFunc: Filter := [];
    if req.search != "" {
      whereFunc := whereFunc + [Search(req.search)];
    }
    if req.categoryID != 0 {
      whereFunc := whereFunc + [CategoryIs(req.categoryID)];
      orderColumns := [SortAsc];
    }
    assert whereFunc == QueryConditions(req.search, req.categoryID);

    var siteCategories := db.FindSiteCategoryWithPage(ExportPage, ExportPageSize, orderColumns, whereFunc, queryFails);
    if siteCategories.Err? {
      return Err;
    }
    var recs := siteCategories.value;
    assert orderColumns == ExportOrder(req.categoryID);
    assert recs == ExportRecords(db.search, db.State(), req);

    var excelFile := new Workbook();
    WriteHeaders(excelFile);
    WriteRecords(excelFile, recs);

    if sheetFails {
      return Err;
    }
    return Ok(excelFile);
  }
}
