/** The spreadsheet import: every row of Sheet1 after the header row becomes a
    site, in a category found or created by the title in column E. */
module SiteImport {
  import opened SiteModel
  import opened Query
  import opened Store

  /** Cells a row must have to be imported. */
  const MinRowCells := 8

  /** What the store answers for one row: whether FindOne on the category
      title, the category Create and the site Create report an error. */
  datatype RowFaults = RowFaults(findFails: bool, createCategoryFails: bool, createSiteFails: bool)

  /** Column H as a status: exactly "true" or "1" enables the site. */
  predicate ParseIsUsed(cell: string) {
    cell == "true" || cell == "1"
  }

  /** The status cell is compared as written: no other spelling, case or
      padding enables a site. */
  lemma ParseIsUsedExact()
    ensures ParseIsUsed("true") && ParseIsUsed("1")
    ensures !ParseIsUsed("True") && !ParseIsUsed("TRUE") && !ParseIsUsed(" 1") && !ParseIsUsed("yes")
    ensures !ParseIsUsed("0") && !ParseIsUsed("false") && !ParseIsUsed("")
  {
  }

  /** The site a row describes, in category categoryID; the store assigns its
      key and timestamps. Column A is not read. */
  function RowSite(row: seq<string>, categoryID: int): (s: Site)
    requires |row| >= MinRowCells
    ensures s.icon == row[1] && s.title == row[2] && s.url == row[3]
    ensures s.description == "" && s.sort == 0
    ensures s.categoryID == categoryID && s.isUsed == ParseIsUsed(row[7])
  {
    Site(0, row[3], row[2], row[1], "", categoryID, ParseIsUsed(row[7]), 0, 0, 0)
  }

  /** One row of the loop on the tables: whether it counts as a success, and
      the tables after it. */
  function ImportRow(st: DbState, row: seq<string>, f: RowFaults, now: int): (bool, DbState) {
    if |row| < MinRowCells then (false, st)
    else
      var categoryName := row[4];
      var found := if f.findFails then None else LowestWithTitle(st.categories, categoryName, 1, st.nextCategoryID);
      if found.None? && f.createCategoryFails then (false, st)
      else
        var categoryID := if found.Some? then found.value else st.nextCategoryID;
        var st1 := if found.Some? then st
                   else st.(categories := st.categories[st.nextCategoryID := Category(categoryName, 0, false)],
                            nextCategoryID := st.nextCategoryID + 1);
        if f.createSiteFails then (false, st1)
        else
          var s := RowSite(row, categoryID).(id := st1.nextSiteID, createdAt := now, updatedAt := now);
          (true, st1.(sites := st1.sites + [s], nextSiteID := st1.nextSiteID + 1))
  }

  datatype ImportTally = ImportTally(successCount: int, failCount: int, state: DbState)

  /** The loop over the first n rows; row i meets faults(i), and row 0 is the
      header. */
  function ImportFold(st: DbState, rows: seq<seq<string>>, faults: nat -> RowFaults, now: int, n: nat): ImportTally
    requires n <= |rows|
  {
    if n == 0 then ImportTally(0, 0, st)
    else
      var prev := ImportFold(st, rows, faults, now, n - 1);
      if n - 1 == 0 then prev
      else
        var (ok, st') := ImportRow(prev.state, rows[n - 1], faults(n - 1), now);
        if ok then ImportTally(prev.successCount + 1, prev.failCount, st')
        else ImportTally(prev.successCount, prev.failCount + 1, st')
  }

  /** Import on a value; sheet is Err when the upload cannot be opened, read
      or parsed, or Sheet1 cannot be read. */
  function ImportEffect(st: DbState, sheet: Result<seq<seq<string>>>, faults: nat -> RowFaults, now: int)
    : (Result<ImportResp>, DbState)
  {
    if sheet.Err? then (Err, st)
    else
      var t := ImportFold(st, sheet.value, faults, now, |sheet.value|);
      (Ok(ImportResp(t.successCount, t.failCount)), t.state)
  }

  // ------------------------------------------------------------- one row

  /** A row with fewer than eight cells fails and creates nothing. */
  lemma ImportRowShort(st: DbState, row: seq<string>, f: RowFaults, now: int)
    requires |row| < MinRowCells
    ensures ImportRow(st, row, f, now) == (false, st)
  {
  }

  /** Find-or-create: a category with the title in column E is reused (the one
      with the lowest key) unless FindOne fails; otherwise a category with that
      title and sort 0 is added under the next key, and when adding it fails
      the row fails with nothing created. */
  lemma ImportRowCategory(st: DbState, row: seq<string>, f: RowFaults, now: int)
    requires Wellformed(st)
    requires |row| >= MinRowCells
    ensures var (ok, st') := ImportRow(st, row, f, now);
      var title := row[4];
      var existing := exists id :: id in st.categories && st.categories[id].title == title;
      && (existing && !f.findFails ==> st'.categories == st.categories && st'.nextCategoryID == st.nextCategoryID)
      && (!(existing && !f.findFails) && f.createCategoryFails ==> !ok && st' == st)
      && (!(existing && !f.findFails) && !f.createCategoryFails ==>
            && st.nextCategoryID !in st.categories
            && st'.categories == st.categories[st.nextCategoryID := Category(title, 0, false)]
            && st'.nextCategoryID == st.nextCategoryID + 1)
      && (ok ==> var id := st'.sites[|st'.sites| - 1].categoryID;
                 && id in st'.categories && st'.categories[id].title == title
                 && (existing && !f.findFails ==> forall k :: k in st.categories && k < id ==> st.categories[k].title != title)
                 && (!(existing && !f.findFails) ==> id == st.nextCategoryID))
  {
    var title := row[4];
    if exists id :: id in st.categories && st.categories[id].title == title {
      var id :| id in st.categories && st.categories[id].title == title;
      assert 1 <= id < st.nextCategoryID;
    }
  }

  /** A successful row appends exactly the site the row describes: Logo, name
      and link from columns B, C and D, the row's category, an empty
      description, sort 0, enabled iff column H is "true" or "1", the next key
      and the given clock. A row counts as a success iff it is long enough, its
      category is found or created, and the site Create succeeds. */
  lemma ImportRowSite(st: DbState, row: seq<string>, f: RowFaults, now: int)
    ensures var (ok, st') := ImportRow(st, row, f, now);
      && (ok <==> |row| >= MinRowCells && !f.createSiteFails
                  && (!f.createCategoryFails || (!f.findFails && LowestWithTitle(st.categories, row[4], 1, st.nextCategoryID).Some?)))
      && (ok ==> && |st'.sites| == |st.sites| + 1
                 && st'.sites[..|st.sites|] == st.sites
                 && var s := st'.sites[|st.sites|];
                    && s.id == st.nextSiteID && st'.nextSiteID == st.nextSiteID + 1
                    && s.icon == row[1] && s.title == row[2] && s.url == row[3]
                    && s.description == "" && s.sort == 0
                    && (s.isUsed <==> row[7] == "true" || row[7] == "1")
                    && s.createdAt == now && s.updatedAt == now)
      && (!ok ==> st'.sites == st.sites && st'.nextSiteID == st.nextSiteID)
  {
  }

  /** A category created for a row stays even when the row's site cannot be
      created. */
  lemma ImportRowKeepsCategory(st: DbState, row: seq<string>, f: RowFaults, now: int)
    requires |row| >= MinRowCells
    requires f.findFails || LowestWithTitle(st.categories, row[4], 1, st.nextCategoryID).None?
    requires !f.createCategoryFails && f.createSiteFails
    ensures var (ok, st') := ImportRow(st, row, f, now);
      && !ok
      && st'.sites == st.sites
      && st'.categories == st.categories[st.nextCategoryID := Category(row[4], 0, false)]
  {
  }

  /** A row only adds: the old sites stay, in order, as a prefix; every old
      category keeps its key and row; the next keys never go back. */
  predicate OnlyAdds(st: DbState, st': DbState) {
    && |st.sites| <= |st'.sites|
    && st'.sites[..|st.sites|] == st.sites
    && (forall id :: id in st.categories ==> id in st'.categories && st'.categories[id] == st.categories[id])
    && st.nextSiteID <= st'.nextSiteID
    && st.nextCategoryID <= st'.nextCategoryID
  }

  lemma ImportRowOnlyAdds(st: DbState, row: seq<string>, f: RowFaults, now: int)
    requires Wellformed(st)
    ensures OnlyAdds(st, ImportRow(st, row, f, now).1)
    ensures Wellformed(ImportRow(st, row, f, now).1)
  {
    var st' := ImportRow(st, row, f, now).1;
    assert st'.sites[..|st.sites|] == st.sites;
  }

  lemma OnlyAddsTrans(a: DbState, b: DbState, c: DbState)
    requires OnlyAdds(a, b) && OnlyAdds(b, c)
    ensures OnlyAdds(a, c)
  {
    assert c.sites[..|a.sites|] == c.sites[..|b.sites|][..|a.sites|];
  }

  // ------------------------------------------------------------ the loop

  function Max(a: int, b: int): int { if a >= b then a else b }

  /** Every row but the header counts once, as a success or as a failure. */
  lemma {:induction false} ImportFoldTotals(st: DbState, rows: seq<seq<string>>, faults: nat -> RowFaults, now: int, n: nat)
    requires n <= |rows|
    ensures var t := ImportFold(st, rows, faults, now, n);
      t.successCount >= 0 && t.failCount >= 0 && t.successCount + t.failCount == Max(0, n - 1)
  {
    if n > 0 {
      ImportFoldTotals(st, rows, faults, now, n - 1);
    }
  }

  /** Each success adds one site and a failure adds none. */
  lemma {:induction false} ImportFoldSites(st: DbState, rows: seq<seq<string>>, faults: nat -> RowFaults, now: int, n: nat)
    requires n <= |rows|
    ensures var t := ImportFold(st, rows, faults, now, n);
      |t.state.sites| == |st.sites| + t.successCount
  {
    if n > 1 {
      ImportFoldSites(st, rows, faults, now, n - 1);
      var prev := ImportFold(st, rows, faults, now, n - 1);
      ImportRowSite(prev.state, rows[n - 1], faults(n - 1), now);
    } else if n == 1 {
      ImportFoldSites(st, rows, faults, now, 0);
    }
  }

  /** The import never modifies or deletes a site or a category, and keeps the
      tables well formed. */
  lemma {:induction false} ImportFoldOnlyAdds(st: DbState, rows: seq<seq<string>>, faults: nat -> RowFaults, now: int, n: nat)
    requires n <= |rows|
    requires Wellformed(st)
    ensures OnlyAdds(st, ImportFold(st, rows, faults, now, n).state)
    ensures Wellformed(ImportFold(st, rows, faults, now, n).state)
  {
    if n == 0 {
      assert st.sites[..|st.sites|] == st.sites;
    } else {
      ImportFoldOnlyAdds(st, rows, faults, now, n - 1);
      var prev := ImportFold(st, rows, faults, now, n - 1);
      if n - 1 != 0 {
        ImportRowOnlyAdds(prev.state, rows[n - 1], faults(n - 1), now);
        OnlyAddsTrans(st, prev.state, ImportRow(prev.state, rows[n - 1], faults(n - 1), now).1);
      }
    }
  }

  /** Row 0 is never read: two sheets that differ only there import alike. */
  lemma {:induction false} ImportFoldSkipsHeader(st: DbState, rows: seq<seq<string>>, rows': seq<seq<string>>,
                                                  faults: nat -> RowFaults, now: int, n: nat)
    requires n <= |rows| == |rows'|
    requires forall i :: 1 <= i < |rows| ==> rows[i] == rows'[i]
    ensures ImportFold(st, rows, faults, now, n) == ImportFold(st, rows', faults, now, n)
  {
    if n > 0 {
      ImportFoldSkipsHeader(st, rows, rows', faults, now, n - 1);
    }
  }

  /** Rows after the header, among the first n, that are long enough and meet
      no store error: each of them must be imported. */
  function CleanRows(rows: seq<seq<string>>, faults: nat -> RowFaults, n: nat): (c: nat)
    requires n <= |rows|
    ensures c <= Max(0, n - 1)
  {
    if n <= 1 then 0
    else CleanRows(rows, faults, n - 1)
         + (if |rows[n - 1]| >= MinRowCells && faults(n - 1) == RowFaults(false, false, false) then 1 else 0)
  }

  /** Rows after the header, among the first n, that are too short or whose
      site cannot be created: each of them must count as a failure. */
  function DoomedRows(rows: seq<seq<string>>, faults: nat -> RowFaults, n: nat): (c: nat)
    requires n <= |rows|
    ensures c <= Max(0, n - 1)
  {
    if n <= 1 then 0
    else DoomedRows(rows, faults, n - 1)
         + (if |rows[n - 1]| < MinRowCells || faults(n - 1).createSiteFails then 1 else 0)
  }

  /** A failed row never stops the rows after it: every clean row is imported
      and every doomed row is counted as a failure, wherever it stands. */
  lemma {:induction false} ImportFoldNoAbort(st: DbState, rows: seq<seq<string>>, faults: nat -> RowFaults, now: int, n: nat)
    requires n <= |rows|
    ensures var t := ImportFold(st, rows, faults, now, n);
      && t.successCount >= CleanRows(rows, faults, n)
      && t.failCount >= DoomedRows(rows, faults, n)
      && t.successCount <= Max(0, n - 1) - DoomedRows(rows, faults, n)
      && t.failCount <= Max(0, n - 1) - CleanRows(rows, faults, n)
  {
    ImportFoldTotals(st, rows, faults, now, n);
    if n > 1 {
      ImportFoldNoAbort(st, rows, faults, now, n - 1);
    }
  }

  /** The response of a successful import adds up to the rows after the
      header; a sheet that cannot be read changes nothing. */
  lemma ImportReport(st: DbState, sheet: Result<seq<seq<string>>>, faults: nat -> RowFaults, now: int)
    requires Wellformed(st)
    ensures var (r, st') := ImportEffect(st, sheet, faults, now);
      && (r.Err? <==> sheet.Err?)
      && (r.Err? ==> st' == st)
      && (r.Ok? ==> && r.value.successCount >= 0 && r.value.failCount >= 0
                    && r.value.successCount + r.value.failCount == Max(0, |sheet.value| - 1)
                    && |st'.sites| == |st.sites| + r.value.successCount
                    && OnlyAdds(st, st') && Wellformed(st'))
  {
    if sheet.Ok? {
      ImportFoldTotals(st, sheet.value, faults, now, |sheet.value|);
      ImportFoldSites(st, sheet.value, faults, now, |sheet.value|);
      ImportFoldOnlyAdds(st, sheet.value, faults, now, |sheet.value|);
    }
  }

  // -------------------------------------------------------------- import

  /** Import: the row loop over the store. */
  method Import(db: Db, sheet: Result<seq<seq<string>>>, faults: nat -> RowFaults, now: int)
    returns (r: Result<ImportResp>)
    requires db.Valid()
    modifies db
    ensures db.Valid()
    ensures (r, db.State()) == ImportEffect(old(db.State()), sheet, faults, now)
  {
    if sheet.Err? {
      return Err;
    }
    var rows := sheet.value;
    var successCount, failCount := 0, 0;
    for i := 0 to |rows|
      invariant db.Valid()
      invariant ImportFold(old(db.State()), rows, faults, now, i) == ImportTally(successCount, failCount, db.State())
    {
      if i == 0 {
        continue;
      }
      var ok := ImportOneRow(db, rows[i], faults(i), now);
      if ok {
        successCount := successCount + 1;
      } else {
        failCount := failCount + 1;
      }
    }
    return Ok(ImportResp(successCount, failCount));
  }

  /** The body of Import's row loop for one row after the header: true when the
      row's site was created. */
  method ImportOneRow(db: Db, row: seq<string>, f: RowFaults, now: int) returns (ok: bool)
    requires db.Valid()
    modifies db
    ensures db.Valid()
    ensures (ok, db.State()) == ImportRow(old(db.State()), row, f, now)
  {
    if |row| < MinRowCells {
      return false;
    }
    var categoryName := row[4];
    var category := db.FindCategoryByTitle(categoryName, f.findFails);
    var categoryID: int;
    if category.Err? {
      var created := db.CreateCategory(Category(categoryName, 0, false), f.createCategoryFails);
      if created.Err? {
        return false;
      }
      categoryID := created.value;
    } else {
      categoryID := category.value;
    }
    var site := db.CreateSite(RowSite(row, categoryID), now, f.createSiteFails);
    return site.Ok?;
  }
}
