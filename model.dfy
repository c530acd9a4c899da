/** Records of the site directory (st_site, st_category) and the request and
    response shapes of the batch, export and import endpoints. */
module SiteModel {

  datatype Option<T> = None | Some(value: T)

  /** The outcome of a store call or of a service operation; the error itself
      carries no information the callers use. */
  datatype Result<T> = Ok(value: T) | Err

  /** A row of st_site. Timestamps are opaque instants. */
  datatype Site = Site(
    id: int,
    url: string,
    title: string,
    icon: string,
    description: string,
    categoryID: int,
    isUsed: bool,
    sort: int,
    createdAt: int,
    updatedAt: int)

  /** A row of st_category, without its key (the table maps keys to rows). */
  datatype Category = Category(title: string, sort: int, isUsed: bool)

  /** The tables the core reads and writes, with the next auto-increment keys. */
  datatype DbState = DbState(
    sites: seq<Site>,
    categories: map<int, Category>,
    nextSiteID: int,
    nextCategoryID: int)

  /** Auto-increment keys are ahead of every key in use; category keys start at 1. */
  predicate Wellformed(st: DbState) {
    && 1 <= st.nextCategoryID
    && (forall s :: s in st.sites ==> s.id < st.nextSiteID)
    && (forall id :: id in st.categories ==> 1 <= id < st.nextCategoryID)
  }

  /** The body of a batch request: categoryID 0 means "no category", status is
      the optional status filter. */
  datatype BatchReq = BatchReq(search: string, categoryID: int, status: Option<int>, isUsed: bool)

  datatype BatchResp = BatchResp(successCount: int, failCount: int)

  datatype ExportReq = ExportReq(search: string, categoryID: int)

  datatype ImportResp = ImportResp(successCount: int, failCount: int)
}
