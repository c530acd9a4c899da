# webstack-go site batch, import and export, modelled in Dafny

This project models the site service of webstack-go, a web-directory
back-office. The service keeps two tables. `st_site` holds sites: URL, title,
logo, description, category, enabled flag and sort key. `st_category` holds
categories. On top of those tables the service offers these operations:

- **SyncAll**: re-fetch title, logo and description for every matching site.
- **ToggleAll** / **ToggleAllSimple**: enable or disable the matching sites. The
  simple version also cascades the new state to their categories.
- **ClearAll** / **ClearAllSimple**: delete sites.
- **Export**: write the matching sites, with their categories, to a spreadsheet.
- **Import**: create sites, and their categories when missing, from spreadsheet
  rows.

Layout:

- `model.dfy` (`SiteModel`): the records, the two tables with their
  auto-increment keys, and the request/response shapes.
- `query.dfy` (`Query`): the repository's filters and table operations as
  functions on values.
  - A filter (the source's `whereFunc` slice) is a conjunction of predicates:
    search, category and IsUsed.
  - The search predicate `LikeInByTitleOrDescOrURL` stays an abstract matcher
    over the search term and the title, description and URL.
- `ordering.dfy` (`Ordering`): the site/category join, ORDER BY over a list of
  order columns (a stable insertion sort), and OFFSET/LIMIT paging.
- `store.dfy` (`Store.Db`): the site and category repositories, as a class
  whose fields are the tables.
  - Every repository call takes a `fail` flag that stands for the database
    reporting an error.
  - A call that fails changes nothing.
- `batch.dfy`, `batch_simple.dfy`, `export.dfy`, `import.dfy`: the four
  service files, each operation as a method on `Db`.
  - Each method is proved equal to a pure `…Effect` function of the old tables;
    Export is proved equal to a grid function of its records.
  - The lemmas about those functions state what the service promises.
  - SyncAll and Import are proved against a recursive fold, `SyncPass` and
    `ImportFold`, through their loop invariants.

Inputs the model takes as parameters:

- the answers of the database, as fault flags;
- the network fetchers of SyncAll, as an oracle indexed by the site's position,
  giving each fetch's result as a function of the URL;
- the spreadsheet rows of Import, or `Err` when the upload cannot be read;
- the clock, as one instant `now`.

The service has two clear operations, and the model keeps both as written:
- `ClearAll` (internal/service/site/batch.go:91-103) ignores the request,
  deletes every site and reports -1.
- `ClearAllSimple` (internal/service/site/batch_simple.go:99-137) deletes the
  sites matching the request, then counts the matching sites that remain. The
  clear endpoint calls this one (internal/handler/site/batch.go:80).

## Model

| member | source | states |
|---|---|---|
| Query.Filtered | internal/service/site/batch.go:25 | FindAll(w...) keeps exactly the rows that match every predicate |
| Query.FilteredAppend | internal/service/site/batch.go:25 | FindAll keeps table order: over two stretches of rows it is the first stretch's result followed by the second's |
| Query.Surviving | internal/service/site/batch_simple.go:119 | Delete(w...) keeps exactly the rows that do not match |
| Query.SurvivingAppend | internal/service/site/batch_simple.go:119 | Delete keeps table order: over two stretches of rows it keeps the first stretch's survivors followed by the second's |
| Query.SurvivingUnmatched | internal/service/site/batch_simple.go:119 | a table in which no row matches is left exactly as it was |
| Query.WithIsUsed | internal/service/site/batch.go:82 | Update(IsUsed=b, w...) sets IsUsed=b on every matching row, changes no other field, and leaves the other rows as they were |
| Query.WithMeta | internal/service/site/batch.go:144-150 | Update(&StSite{Title, Icon, Description}, WhereByID(id)) writes the three fields on every row with that key, changes no other field, and leaves the other rows as they were |
| Query.FirstWithID | internal/service/site/batch.go:120 | FindOne(WhereByID(id)) gives a stored row with that key, and none exactly when no row has it |
| Query.WithCategoriesIsUsed | internal/service/site/batch_simple.go:83-86 | Where(ID.In(ids)).Updates(IsUsed=b) keeps every category key, sets IsUsed=b on the listed ones without touching their other fields, and leaves the rest as they were |
| Query.FirstWithIDUnique | internal/service/site/batch.go:120 | with unique keys, FindOne(WhereByID) finds the one row with the key |
| Query.LowestWithTitle | internal/service/site/import.go:68 | FindOne by title gives a key with that title, and no lower key has it; none means no category has the title |
| Query.EmptyFilterSelectsAll | internal/service/site/batch_simple.go:53-55 | with no condition FindAll returns the whole table |
| Query.EmptyFilterDeletesAll | internal/service/site/batch_simple.go:113-116 | with no condition Delete empties the table |
| Query.SelectAndDeletePartition | internal/service/site/batch_simple.go:119 | the rows a filter selects and the rows a delete with it keeps are, together, the table's rows with their multiplicities |
| Query.NothingMatchesAfterDelete | internal/service/site/batch_simple.go:119-128 | after Delete(w...), FindCount(w...) sees no row |
| Query.RequeryAfterUpdate | internal/service/site/batch_simple.go:44-58 | after Update(IsUsed=b, w...), FindAll(w...) returns the rows the update matched, now with IsUsed=b, or nothing when w asks for IsUsed=!b |
| Ordering.Joined | internal/service/site/export.go:40 | the join gives one record per site, in order, each paired with its own category (the zero category when the key is missing) |
| Ordering.SortBy | internal/service/site/export.go:40 | ordering the joined rows is a permutation of them |
| Ordering.SortBySorted | internal/service/site/export.go:40 | the ordered rows respect every order column in turn |
| Ordering.Page | internal/service/site/export.go:40 | page p of size n holds rows (p-1)*n onwards, at most n of them, exactly as many as remain |
| Ordering.PageSorted | internal/service/site/export.go:40 | a page of ordered rows is ordered |
| Store.Db.FindAll | internal/service/site/batch.go:25-28 | returns the matching rows, or an error |
| Store.Db.FindCount | internal/service/site/batch_simple.go:128-131 | returns the number of matching rows, or an error |
| Store.Db.UpdateIsUsed | internal/service/site/batch.go:82-85 | sets IsUsed on the matching rows and reports how many matched; on error nothing changes |
| Store.Db.Delete | internal/service/site/batch_simple.go:119 | removes the matching rows and reports only success; on error nothing changes |
| Store.Db.FindSiteByID | internal/service/site/batch.go:120-123 | returns the first row with that key; fails when there is none or the store errs |
| Store.Db.UpdateSiteMeta | internal/service/site/batch.go:144-150 | writes Title, Icon and Description of the rows with that key |
| Store.Db.CreateSite | internal/service/site/import.go:82-90 | appends the site under the next key with both timestamps set to the clock |
| Store.Db.FindCategoryByTitle | internal/service/site/import.go:68 | succeeds iff a category has the title, and gives the lowest such key |
| Store.Db.CreateCategory | internal/service/site/import.go:71-74 | adds the category under the next key, a key not in use |
| Store.Db.UpdateCategoriesIsUsed | internal/service/site/batch_simple.go:83-89 | sets IsUsed on the categories whose keys are listed |
| Store.Db.FindSiteCategoryWithPage | internal/service/site/export.go:40-43 | returns one page of the ordered join of the matching sites, or an error |
| Batch.QueryConditions | internal/service/site/batch.go:62-71 | a search predicate iff Search is non-empty, a category predicate iff CategoryID is non-zero, nothing else; empty iff both are unset |
| Batch.QueryConditionsSelect | internal/service/site/batch.go:16-22 | a site matches iff it passes the search (when given) and is in the category (when given); Status is never consulted |
| Batch.BuildQueryConditions | internal/service/site/batch.go:62-71 | the slice built step by step is exactly those conditions |
| Batch.SyncSiteMissing | internal/service/site/batch.go:120-123 | an unknown site key fails and writes nothing, whatever the fetchers answer |
| Batch.SyncSiteAllOrNothing | internal/service/site/batch.go:127-142 | if any of the three fetches fails the site fails and no row changes |
| Batch.SyncSiteWrites | internal/service/site/batch.go:120-155 | success iff lookup, all three fetches and the write succeed; success returns the row FindOne found, and only Title, Icon and Description of the rows with that key change, to the values fetched for that row's URL |
| Batch.SyncSite | internal/service/site/batch.go:114-156 | syncSite on the store equals `SyncSiteEffect` (batch.go:114-156): an error from FindOne, then from any of the three fetches of the found row's URL, then from the Update, returns an error; only the Update writes, and success returns the found row |
| Batch.SyncPassTotals | internal/service/site/batch.go:35-50 | successCount + failCount equals the number of resolved sites, both non-negative |
| Batch.SyncPassFrame | internal/service/site/batch.go:35-50 | the pass changes only Title, Icon and Description; no row is added, removed or moved, no category changes |
| Batch.SyncPassAllSucceed | internal/service/site/batch.go:38-47 | when every lookup, fetch and write succeeds, every site counts as a success |
| Batch.SyncPassRefreshes | internal/service/site/batch.go:35-50 | with unique keys and every sync succeeding, each row of the working set holds the Title, Icon and Description fetched for its URL by its own sync, and every other row is as it was |
| Batch.SyncPassAllFetchesFail | internal/service/site/batch.go:42-48 | when the title fetch fails for every site, every site counts as a failure and nothing is written |
| Batch.SyncFailsExactly | internal/service/site/batch.go:114-156 | a sync fails exactly when the lookup errs or finds no row, one of the three fetches for the found row's URL errs, or the Update errs |
| Batch.SyncStepAlone | internal/service/site/batch.go:42-48 | a sync whose rows no earlier sync touched has the outcome it would have on the original tables, writes its own rows as it would there, and leaves every other row as it found it |
| Batch.SyncPassIsolated | internal/service/site/batch.go:35-50 | with unique keys one failure never aborts the pass or affects another site: the failures are exactly the sites whose sync fails on its own, the rest are successes, each row with a working-set key is what that site's own sync would write on the original tables, and every other row is unchanged; so the order in which the sites are synced does not matter |
| Batch.SyncPassFailsAlone | internal/service/site/batch.go:35-50 | for the working set of any filter over a table with unique keys, failCount is the number of sites whose sync fails on its own and successCount the rest |
| Batch.SyncPassIsolatedRows | internal/service/site/batch.go:35-50 | for a working set drawn from a table with unique keys, each row of the working set is what its own sync would write on the original tables and every row outside it is unchanged |
| Batch.SyncAllIsolatedReport | internal/service/site/batch.go:24-58 | with unique keys SyncAll succeeds and reports as failures exactly the matching sites whose sync fails on its own, and every other matching site as a success: no failure stops the batch |
| Batch.SyncAllIsolated | internal/service/site/batch.go:24-58 | with unique keys each matching row ends up as its own sync would leave it on the original tables, whatever happens to the other sites, and every non-matching row is unchanged |
| Batch.SyncAllReport | internal/service/site/batch.go:24-58 | SyncAll errs iff the initial FindAll errs, and then changes nothing; otherwise its counts add up to the resolved sites |
| Batch.SyncAllEverySiteSucceeds | internal/service/site/batch.go:35-58 | with every site's sync succeeding the response is {matched, 0} |
| Batch.SyncEach | internal/service/site/batch.go:33-50 | the loop over the resolved sites with its two counters leaves the counts and tables of the sequential pass |
| Batch.SyncAllRefreshesEverySite | internal/service/site/batch.go:24-58 | with unique keys and every sync succeeding, every matching site is rewritten with its fetched Title, Icon and Description, and every other site is unchanged |
| Batch.SyncAll | internal/service/site/batch.go:14-59 | SyncAll on the store equals `SyncAllEffect` (batch.go:14-59): a FindAll error is the only error; otherwise `SyncPass` (batch.go:35-50) syncs each found site in turn on the tables the previous ones left, counting an error as a failure and anything else as a success |
| Batch.NewSuccessBatchResp | internal/service/site/batch.go:105-111 | the response counts every row as a success and none as a failure |
| Batch.ToggleAllSetsMatched | internal/service/site/batch.go:74-88 | the matching sites get IsUsed, the others and all categories stay, the response is {matched, 0}; an error changes nothing |
| Batch.ToggleAll | internal/service/site/batch.go:74-88 | ToggleAll on the store equals `ToggleAllEffect` (batch.go:74-88): one Update of IsUsed under the search and category conditions, whose error is returned and whose matched rows are the success count |
| Batch.ClearAllIgnoresRequest | internal/service/site/batch.go:91-103 | the result does not depend on the request; success empties the site table and reports {-1, 0}; a delete error changes nothing |
| Batch.ClearAll | internal/service/site/batch.go:91-103 | ClearAll on the store equals `ClearAllEffect` (batch.go:91-103): one unconditional Delete, whose error is returned, and otherwise {-1, 0} |
| BatchSimple.SimpleConditions | internal/service/site/batch_simple.go:17-26 | search iff Search non-empty, category iff CategoryID non-zero, IsUsed=(Status==1) iff Status given and nothing else; empty iff all three unset |
| BatchSimple.SimpleConditionsSelect | internal/service/site/batch_simple.go:17-26 | a site matches iff it passes every field that is set; any Status other than 1 selects disabled sites |
| BatchSimple.BuildSimpleConditions | internal/service/site/batch_simple.go:101-110 | the slice built step by step is exactly those conditions |
| BatchSimple.ToggleAllSimpleSites | internal/service/site/batch_simple.go:28-48 | every site that matched before the update has the new IsUsed, every other site is unchanged, the response is {matched, 0}; errors are exactly the failing store calls, and the site update stays applied when a later call fails |
| BatchSimple.ToggleAllSimpleEmptyFilter | internal/service/site/batch_simple.go:34-41 | with no condition every site gets the new IsUsed and the response counts them all |
| BatchSimple.ToggleAllSimpleCascade | internal/service/site/batch_simple.go:50-90 | the categories of the sites found after the update get the new IsUsed whatever their other sites say; no other category changes; no category is added or removed |
| BatchSimple.ToggleAllSimpleConflict | internal/service/site/batch_simple.go:52-59 | when Status asks for the opposite state the re-query finds nothing and no category changes |
| BatchSimple.CascadeIgnoresOtherSites | internal/service/site/batch_simple.go:77-90 | a two-site example: enabling one site of a category enables the category while its other site stays disabled |
| BatchSimple.CollectCategoryIDs | internal/service/site/batch_simple.go:65-69 | the map holds exactly the category keys of the found sites |
| BatchSimple.ListCategoryIDs | internal/service/site/batch_simple.go:71-75 | the list holds each of those keys exactly once |
| BatchSimple.ToggleAllSimple | internal/service/site/batch_simple.go:15-96 | ToggleAllSimple on the store equals `ToggleAllSimpleEffect` (batch_simple.go:15-96): the Update of IsUsed, then FindAll with the same conditions, then, when that found any site, the Update of IsUsed on the found sites' categories; each error is returned at once, and the response counts the rows the first Update matched |
| BatchSimple.ClearAllSimpleReport | internal/service/site/batch_simple.go:112-136 | afterwards no site matches, the non-matching sites remain, the response is {0, 0}; no condition empties the table; a delete or count error returns an error |
| BatchSimple.ClearAllSimple | internal/service/site/batch_simple.go:99-137 | ClearAllSimple on the store equals `ClearAllSimpleEffect` (batch_simple.go:99-137): Delete under the conditions, then FindCount under them; either error is returned, and the count is the success count |
| SiteExport.ExportOrder | internal/service/site/export.go:27-37 | the order is CreatedAt descending alone, replaced by Sort ascending alone when a category is given |
| SiteExport.ExportRecordsSorted | internal/service/site/export.go:27-40 | the exported records come in that order |
| SiteExport.ExportRecordsMatch | internal/service/site/export.go:30-40 | at most 10000 records; each is a stored site that passes the search and lies in the requested category, joined with its own category; Status plays no part |
| SiteExport.ExportRecordsComplete | internal/service/site/export.go:40 | with at most 10000 matching sites, the export holds each of them exactly once |
| SiteExport.HeaderGridNext | internal/service/site/export.go:48-53 | writing header i into column i+1 of row 1 extends the header row |
| SiteExport.RecordRowWrites | internal/service/site/export.go:61-69 | the nine cell writes of a row put exactly the record's nine cells in that row |
| SiteExport.RecordRowsNext | internal/service/site/export.go:56-58 | record i goes into row i+2, the first row not yet written |
| SiteExport.ExportGridLayout | internal/service/site/export.go:47-70 | row 1 holds the nine headers in order; record i is in row i+2, with ID, Logo, title, URL, description, category title, created, updated and status in columns A..I; the sheet has 1 + records rows and nothing else |
| SiteExport.WriteHeaders | internal/service/site/export.go:47-53 | the header loop produces the header row |
| SiteExport.WriteRecords | internal/service/site/export.go:55-70 | the record loop produces one row per record after the header |
| SiteExport.WriteRecordRow | internal/service/site/export.go:61-69 | one record's nine writes, on a row not yet written |
| SiteExport.Workbook.SetCellValue | internal/service/site/export.go:61 | one cell is set and the rest of the sheet stays |
| SiteExport.Export | internal/service/site/export.go:26-80 | errs iff the query or NewSheet errs; otherwise the new workbook holds exactly `ExportGrid` (export.go:47-70) of `ExportRecords` (export.go:27-43), the first page of 10000 of the ordered join of the matching sites; each record row is `RecordRow` (export.go:61-69) |
| SiteImport.RowSite | internal/service/site/import.go:82-90 | the new site takes Logo, title and URL from columns B, C and D, an empty description, sort 0, the category found or created, and its status from column H |
| SiteImport.ParseIsUsedExact | internal/service/site/import.go:88 | examples: "true" and "1" enable a site; "True", "TRUE", " 1", "yes", "0", "false" and "" do not |
| SiteImport.ImportRowShort | internal/service/site/import.go:58-62 | a row with fewer than 8 cells fails and changes nothing |
| SiteImport.ImportRowCategory | internal/service/site/import.go:64-86 | an existing category with the column-E title is reused, the lowest-keyed one; otherwise (or when FindOne errs) one with that title and sort 0 is added under the next key and the new site goes into that new category; if the create fails the row fails and nothing changes |
| SiteImport.ImportRowSite | internal/service/site/import.go:81-97 | a row succeeds iff it is long enough, its category is found or created, and Create succeeds; it then appends one site: Logo, title and URL from columns B-D, empty description, sort 0, enabled iff column H is "true" or "1" |
| SiteImport.ImportRowKeepsCategory | internal/service/site/import.go:70-95 | a category created for a row stays when that row's site cannot be created |
| SiteImport.ImportRowOnlyAdds | internal/service/site/import.go:64-95 | a row never modifies or removes a site or category and keeps the tables well formed |
| SiteImport.ImportFoldTotals | internal/service/site/import.go:51-98 | successCount + failCount is the number of rows after the header row, both non-negative |
| SiteImport.ImportFoldSites | internal/service/site/import.go:92-97 | the site table grows by exactly successCount |
| SiteImport.ImportFoldOnlyAdds | internal/service/site/import.go:52-98 | old sites stay as a prefix in order, old categories keep key and value, tables stay well formed |
| SiteImport.ImportFoldNoAbort | internal/service/site/import.go:51-98 | a failed row never stops later rows: successCount is at least the number of rows after the header with eight cells and no store error, failCount at least the number of rows that are short or whose site cannot be created, and each count is bounded above by the rows left after the other's lower bound |
| SiteImport.ImportFoldSkipsHeader | internal/service/site/import.go:52-56 | row 0 is never read: sheets differing only there import alike |
| SiteImport.ImportReport | internal/service/site/import.go:19-104 | an unreadable sheet errs and changes nothing; otherwise the counts add up to the rows after the header and the import only adds |
| SiteImport.ImportOneRow | internal/service/site/import.go:58-97 | one row's lookups and creates on the store equal `ImportRow` (import.go:58-97): a short row fails; FindOne by the column-E title, and on its error Create of that category, whose error fails the row; then Create of the site, whose error fails the row |
| SiteImport.Import | internal/service/site/import.go:19-104 | Import on the store equals `ImportEffect` (import.go:19-104): an unreadable sheet is the only error; otherwise `ImportFold` (import.go:51-98) applies `ImportRow` to every row after row 0 in turn, counting successes and failures; the status cell is read by `ParseIsUsed` (import.go:88) |

## Left out

- Concurrency: the worker pool of ten tokens, the errgroup and the three
  parallel fetches are modelled as sequential steps. The in-flight bound and
  the unsynchronised counter increments, which are a data race, are not
  modelled. No claim of race-freedom is made.
- The network fetchers `getWebTitle`, `getWebLogoIconBase64` and
  `getWebDescription` are not part of this model. Each is an oracle result per
  URL.
- The gorm repository is not part of this model; `Store.Db` stands for it. The
  following repository behaviours are modelled assumptions:
  - how LIKE matches (kept abstract);
  - that `Update` reports matched rows, not changed rows (MySQL's RowsAffected
    counts changed rows);
  - that struct `Updates` writes empty strings, where gorm skips zero-valued
    fields;
  - that `FindOne` by title picks the lowest key.
- Whether the repository's `Update` rejects an empty filter, in ToggleAll, is
  not decided. The update's fault flag covers an error there.
- Batch.ClearAll: calls the repository's `Delete` with no condition and outside
  an `AllowGlobalUpdate` session. Whether the repository rejects that is not
  decided either; the delete's fault flag covers an error there.
- Query.LowestWithTitle, Store.Db.FindCategoryByTitle: `WhereByTitle` is
  modelled as exact string equality. In the database the column's collation
  decides; a case- or padding-insensitive collation would reuse a "tools"
  category for a "Tools" row, where the model creates a second category.
- `AllowGlobalUpdate` sessions: with no condition, the global update or delete
  is the same store call with an empty filter.
- Batch.SyncAll: builds its conditions with the same slice code as
  `buildQueryConditions`. The model calls `BuildQueryConditions`, which builds
  the same slice.
- Timestamps:
  - Creation sets both timestamps to one clock value for the whole import.
  - The automatic UpdatedAt refresh on Update is not modelled.
  - Context cancellation is not modelled.
- Ordering ties: rows with equal sort keys keep table order (a stable sort).
  The database gives no such guarantee.
- Joins: a site whose category row is missing joins with an empty category.
  The repository query that decides this is not visible.
- Spreadsheet I/O: opening, reading and parsing the upload, `GetRows`,
  `NewSheet`, `SetActiveSheet` and `CoordinatesToCellName`.
  - Import takes the rows, or `Err` when any of these fail.
  - Export's sheet is a grid of rows of cells, with `NewSheet`'s error as a
    flag.
  - Errors from `SetCellValue` are not modelled (the code ignores them).
- Go's `int` and `int64` widths: counts and keys are unbounded integers.
- Batch.SyncPassRefreshes, Batch.SyncAllRefreshesEverySite, Batch.SyncPassIsolated,
  Batch.SyncAllIsolated, Batch.SyncAllIsolatedReport: these assume unique
  site keys. With duplicate keys, each sync rewrites every row with that key
  from the URL of the first such row; the lemmas say nothing about that case.
- Uniqueness of site keys is not a table invariant. Lookups and writes by key
  act on the first row, or on every row, with that key.
- BatchSimple.ListCategoryIDs: Go iterates the map in an unspecified order. The
  model lists the keys in the order they are first met among the sites; only
  the set of keys reaches the store.
- SiteExport.WriteHeaders, SiteExport.WriteRecords, SiteExport.WriteRecordRow:
  Export's two loops and its nine writes per row are inline in the source. The
  model puts them in their own methods.
- Batch.SyncEach, SiteImport.ImportOneRow: the loop of SyncAll and the body
  of Import's row loop are inline in the source. The model puts them in their
  own methods, and each `continue` of the row loop becomes a `return false`.
- There is no export-to-import round trip. Import reads the category from
  column E and the status from column H. Export writes the description and
  UpdatedAt there.
- HTTP handlers, request binding, status mapping and the index migration
  callback of `st_site` carry no modelled logic.
