/** The batch toggle and clear that the live endpoints call: filters that also
    honour Status, a toggle that cascades to the categories of the toggled
    sites, and a clear that reports what still matches after the delete. */
module BatchSimple {
  import opened SiteModel
  import opened Query
  import opened Store

  // ------------------------------------------------------------ conditions

  /** The conditions built from Search, CategoryID and Status. */
  function SimpleConditions(req: BatchReq): (w: Filter)
    ensures Search(req.search) in w <==> req.search != ""
    ensures CategoryIs(req.categoryID) in w <==> req.categoryID != 0
    ensures forall b :: IsUsedIs(b) in w <==> req.status.Some? && b == (req.status.value == 1)
    ensures forall p :: p in w ==> p == Search(req.search) || p == CategoryIs(req.categoryID) || p.IsUsedIs?
    ensures |w| == 0 <==> req.search == "" && req.categoryID == 0 && req.status.None?
  {
    (if req.search != "" then [Search(req.search)] else [])
    + (if req.categoryID != 0 then [CategoryIs(req.categoryID)] else [])
    + (if req.status.Some? then [IsUsedIs(req.status.value == 1)] else [])
  }

  /** A site matches iff it passes every field that is set; a Status other than
      1 selects the disabled sites. */
  lemma SimpleConditionsSelect(like: SearchMatcher, req: BatchReq, x: Site)
    ensures Matches(like, SimpleConditions(req), x)
        <==> && (req.search == "" || like(req.search, x.title, x.description, x.url))
             && (req.categoryID == 0 || x.categoryID == req.categoryID)
             && (req.status.Some? ==> x.isUsed == (req.status.value == 1))
  {
    var w := SimpleConditions(req);
    if req.search != "" {
      assert Search(req.search) in w;
    }
    if req.categoryID != 0 {
      assert CategoryIs(req.categoryID) in w;
    }
    if req.status.Some? {
      assert IsUsedIs(req.status.value == 1) in w;
    }
  }

  /** The whereFunc slice of ToggleAllSimple and ClearAllSimple. */
  method BuildSimpleConditions(req: BatchReq) returns (whereFunc: Filter)
    ensures whereFunc == SimpleConditions(req)
  {
    whereFunc := [];
    if req.search != "" {
      whereFunc := whereFunc + [Search(req.search)];
    }
    if req.categoryID != 0 {
      whereFunc := whereFunc + [CategoryIs(req.categoryID)];
    }
    if req.status.Some? {
      whereFunc := whereFunc + [IsUsedIs(req.status.value == 1)];
    }
  }

  // ---------------------------------------------------------------- toggle

  /** Which of ToggleAllSimple's three store calls fail. */
  datatype ToggleFaults = ToggleFaults(updateFails: bool, findFails: bool, categoryUpdateFails: bool)

  /** ToggleAllSimple on a value. */
  function ToggleAllSimpleEffect(like: SearchMatcher, st: DbState, req: BatchReq, f: ToggleFaults)
    : (Result<BatchResp>, DbState)
  {
    var w := SimpleConditions(req);
    if f.updateFails then (Err, st)
    else
      var st1 := st.(sites := WithIsUsed(like, w, st.sites, req.isUsed));
      if f.findFails then (Err, st1)
      else
        var ids := CategoryIDs(Filtered(like, w, st1.sites));
        if ids == {} then (Ok(BatchResp(|Filtered(like, w, st.sites)|, 0)), st1)
        else if f.categoryUpdateFails then (Err, st1)
        else (Ok(BatchResp(|Filtered(like, w, st.sites)|, 0)),
              st1.(categories := WithCategoriesIsUsed(st1.categories, ids, req.isUsed)))
  }

  /** The request's Status asks for the opposite of the state being set. */
  predicate StatusConflicts(req: BatchReq) {
    req.status.Some? && (req.status.value == 1) != req.isUsed
  }

  lemma CategoryIDsWithIsUsed(like: SearchMatcher, w: Filter, sites: seq<Site>, b: bool)
    ensures CategoryIDs(WithIsUsed(like, w, sites, b)) == CategoryIDs(sites)
  {
    var u := WithIsUsed(like, w, sites, b);
    forall c | c in CategoryIDs(sites) ensures c in CategoryIDs(u) {
      var x :| x in sites && x.categoryID == c;
      var i :| 0 <= i < |sites| && sites[i] == x;
      assert u[i] in u;
    }
    forall c | c in CategoryIDs(u) ensures c in CategoryIDs(sites) {
      var y :| y in u && y.categoryID == c;
      var i :| 0 <= i < |u| && u[i] == y;
      assert sites[i] in sites;
    }
  }

  /** ToggleAllSimple's site update: every site that matched before the update
      has IsUsed = req.isUsed, every other site is unchanged, and the update
      stays applied when a later step fails. The response reports the matched
      rows. */
  lemma ToggleAllSimpleSites(like: SearchMatcher, st: DbState, req: BatchReq, f: ToggleFaults)
    ensures var (r, st') := ToggleAllSimpleEffect(like, st, req, f);
      var w := SimpleConditions(req);
      && (r.Err? <==> f.updateFails || f.findFails
                      || (f.categoryUpdateFails && CategoryIDs(Filtered(like, w, st'.sites)) != {}))
      && (f.updateFails ==> st' == st)
      && (!f.updateFails ==> st'.sites == WithIsUsed(like, w, st.sites, req.isUsed))
      && |st'.sites| == |st.sites|
      && (forall i :: 0 <= i < |st.sites| ==>
            if !f.updateFails && Matches(like, w, st.sites[i])
            then st'.sites[i] == st.sites[i].(isUsed := req.isUsed)
            else st'.sites[i] == st.sites[i])
      && (r.Ok? ==> r.value == BatchResp(|Filtered(like, w, st.sites)|, 0))
      && st'.nextSiteID == st.nextSiteID && st'.nextCategoryID == st.nextCategoryID
  {
  }

  /** With no condition at all, every site gets IsUsed = req.isUsed. */
  lemma {:induction false} ToggleAllSimpleEmptyFilter(like: SearchMatcher, st: DbState, req: BatchReq, f: ToggleFaults)
    requires req.search == "" && req.categoryID == 0 && req.status.None?
    requires !f.updateFails
    ensures var (r, st') := ToggleAllSimpleEffect(like, st, req, f);
      && |st'.sites| == |st.sites|
      && (forall i :: 0 <= i < |st.sites| ==> st'.sites[i] == st.sites[i].(isUsed := req.isUsed))
      && (r.Ok? ==> r.value == BatchResp(|st.sites|, 0))
  {
    EmptyFilterSelectsAll(like, st.sites);
    assert SimpleConditions(req) == [];
  }

  /** The cascade: the categories of the sites the re-query finds after the
      update get IsUsed = req.isUsed, whatever state their other sites are in;
      no other category changes. Except under a conflicting Status, the
      re-query finds exactly the sites the update matched. */
  lemma ToggleAllSimpleCascade(like: SearchMatcher, st: DbState, req: BatchReq, f: ToggleFaults)
    ensures var (r, st') := ToggleAllSimpleEffect(like, st, req, f);
      var touched := if StatusConflicts(req) then {}
                     else CategoryIDs(Filtered(like, SimpleConditions(req), st.sites));
      && st'.categories.Keys == st.categories.Keys
      && (r.Ok? ==> forall id :: id in st.categories ==>
            st'.categories[id] == if id in touched then st.categories[id].(isUsed := req.isUsed)
                                  else st.categories[id])
      && (r.Err? ==> st'.categories == st.categories)
  {
    var w := SimpleConditions(req);
    if !f.updateFails && !f.findFails {
      var updated := WithIsUsed(like, w, st.sites, req.isUsed);
      var ids := CategoryIDs(Filtered(like, w, updated));
      var touched := if StatusConflicts(req) then {}
                     else CategoryIDs(Filtered(like, w, st.sites));
      RequeryAfterUpdate(like, w, st.sites, req.isUsed);
      assert IsUsedIs(!req.isUsed) in w <==> StatusConflicts(req);
      CategoryIDsWithIsUsed(like, w, Filtered(like, w, st.sites), req.isUsed);
      assert ids == touched;
      if ids != {} && !f.categoryUpdateFails {
        var cats' := WithCategoriesIsUsed(st.categories, ids, req.isUsed);
        assert ToggleAllSimpleEffect(like, st, req, f).1.categories == cats';
      }
    }
  }

  /** Under a conflicting Status the re-query finds nothing, so no category
      changes. */
  lemma ToggleAllSimpleConflict(like: SearchMatcher, st: DbState, req: BatchReq, f: ToggleFaults)
    requires StatusConflicts(req)
    ensures ToggleAllSimpleEffect(like, st, req, f).1.categories == st.categories
  {
    var w := SimpleConditions(req);
    if !f.updateFails {
      RequeryAfterUpdate(like, w, st.sites, req.isUsed);
      assert IsUsedIs(!req.isUsed) in w;
      assert CategoryIDs(Filtered(like, w, WithIsUsed(like, w, st.sites, req.isUsed))) == {};
    }
  }

  /** The categoryIDs map of ToggleAllSimple, filled one site at a time. */
  method CollectCategoryIDs(sites: seq<Site>) returns (categoryIDs: set<int>)
    ensures categoryIDs == CategoryIDs(sites)
    ensures forall id :: id in categoryIDs <==> exists x :: x in sites && x.categoryID == id
  {
    categoryIDs := {};
    for k := 0 to |sites|
      invariant categoryIDs == CategoryIDs(sites[..k])
    {
      assert sites[..k + 1] == sites[..k] + [sites[k]];
      categoryIDs := categoryIDs + {sites[k].categoryID};
    }
    assert sites[..|sites|] == sites;
  }

  /** categoryIDList: the keys of categoryIDs, each once. The loop scans the
      sites again and lists each category key the first time it is met. */
  method ListCategoryIDs(sites: seq<Site>, categoryIDs: set<int>) returns (categoryIDList: seq<int>)
    requires categoryIDs == CategoryIDs(sites)
    ensures (set id | id in categoryIDList) == categoryIDs
    ensures forall i, j :: 0 <= i < j < |categoryIDList| ==> categoryIDList[i] != categoryIDList[j]
  {
    categoryIDList := [];
    var listed: set<int> := {};
    for k := 0 to |sites|
      invariant listed == (set id | id in categoryIDList) == CategoryIDs(sites[..k])
      invariant forall i, j :: 0 <= i < j < |categoryIDList| ==> categoryIDList[i] != categoryIDList[j]
    {
      assert sites[..k + 1] == sites[..k] + [sites[k]];
      var id := sites[k].categoryID;
      if id !in listed {
        categoryIDList := categoryIDList + [id];
        listed := listed + {id};
      }
    }
    assert sites[..|sites|] == sites;
  }

  /** ToggleAllSimple: bulk update, re-query with the same conditions, then
      overwrite IsUsed on every category those sites reference. */
  method ToggleAllSimple(db: Db, req: BatchReq, f: ToggleFaults) returns (r: Result<BatchResp>)
    requires db.Valid()
    modifies db
    ensures db.Valid()
    ensures (r, db.State()) == ToggleAllSimpleEffect(db.search, old(db.State()), req, f)
  {
    var whereFunc := BuildSimpleConditions(req);
    // With no condition the source takes a global-update session; the empty
    // filter selects every row here as well.
    var rowsAffected := db.UpdateIsUsed(whereFunc, req.isUsed, f.updateFails);
    if rowsAffected.Err? {
      return Err;
    }
    var found := db.FindAll(whereFunc, f.findFails);
    if found.Err? {
      return Err;
    }
    var sites := found.value;

    var categoryIDs := CollectCategoryIDs(sites);
    var categoryIDList := ListCategoryIDs(sites, categoryIDs);
    if |categoryIDList| > 0 {
      assert categoryIDList[0] in categoryIDs;
      var ok := db.UpdateCategoriesIsUsed(categoryIDList, req.isUsed, f.categoryUpdateFails);
      if !ok {
        return Err;
      }
    } else {
      assert categoryIDList == [];
      assert categoryIDs == {};
    }
    return Ok(BatchResp(rowsAffected.value, 0));
  }

  /** The quirk of the cascade, on two sites of one category that are both
      disabled: toggling on only the first enables the category, although its
      second site stays disabled. */
  lemma CascadeIgnoresOtherSites()
    ensures
      var like: SearchMatcher := (term, title, desc, url) => term == title;
      var a := Site(1, "https://a.example", "a", "", "", 7, false, 0, 0, 0);
      var b := Site(2, "https://b.example", "b", "", "", 7, false, 0, 0, 0);
      var st := DbState([a, b], map[7 := Category("tools", 0, false)], 3, 8);
      var req := BatchReq("a", 0, None, true);
      var (r, st') := ToggleAllSimpleEffect(like, st, req, ToggleFaults(false, false, false));
      && r == Ok(BatchResp(1, 0))
      && st'.sites == [a.(isUsed := true), b]
      && st'.categories[7].isUsed
  {
    var like: SearchMatcher := (term, title, desc, url) => term == title;
    var a := Site(1, "https://a.example", "a", "", "", 7, false, 0, 0, 0);
    var b := Site(2, "https://b.example", "b", "", "", 7, false, 0, 0, 0);
    var req := BatchReq("a", 0, None, true);
    var w := SimpleConditions(req);
    assert w == [Search("a")];
    assert Matches(like, w, a) && !Matches(like, w, b) && Matches(like, w, a.(isUsed := true));
    assert Filtered(like, w, [a, b]) == [a];
    assert WithIsUsed(like, w, [a, b], true) == [a.(isUsed := true), b];
    assert Filtered(like, w, [a.(isUsed := true), b]) == [a.(isUsed := true)];
    assert CategoryIDs([a.(isUsed := true)]) == {7};
  }

  // ----------------------------------------------------------------- clear

  /** Which of ClearAllSimple's two store calls fail. */
  datatype ClearFaults = ClearFaults(deleteFails: bool, countFails: bool)

  /** ClearAllSimple on a value. */
  function ClearAllSimpleEffect(like: SearchMatcher, st: DbState, req: BatchReq, f: ClearFaults)
    : (Result<BatchResp>, DbState)
  {
    var w := SimpleConditions(req);
    if f.deleteFails then (Err, st)
    else
      var st1 := st.(sites := Surviving(like, w, st.sites));
      if f.countFails then (Err, st1)
      else (Ok(BatchResp(|Filtered(like, w, st1.sites)|, 0)), st1)
  }

  /** After ClearAllSimple no site matches the conditions and every other site
      remains, in order; the response counts the sites that still match, which
      is 0. With no condition the table is emptied. */
  lemma ClearAllSimpleReport(like: SearchMatcher, st: DbState, req: BatchReq, f: ClearFaults)
    ensures var (r, st') := ClearAllSimpleEffect(like, st, req, f);
      var w := SimpleConditions(req);
      && (r.Err? <==> f.deleteFails || f.countFails)
      && (f.deleteFails ==> st' == st)
      && (!f.deleteFails ==> st'.sites == Surviving(like, w, st.sites))
      && (!f.deleteFails ==> Filtered(like, w, st'.sites) == [])
      && (forall x :: x in st'.sites ==> x in st.sites)
      && (forall x :: x in st.sites && !Matches(like, w, x) ==> x in st'.sites)
      && (r.Ok? ==> r.value == BatchResp(0, 0))
      && (!f.deleteFails && |w| == 0 ==> st'.sites == [])
      && st'.categories == st.categories
  {
    var w := SimpleConditions(req);
    NothingMatchesAfterDelete(like, w, st.sites);
    if |w| == 0 {
      EmptyFilterDeletesAll(like, st.sites);
    }
  }

  /** ClearAllSimple: delete what matches (everything, with no condition), then
      count what still matches. */
  method ClearAllSimple(db: Db, req: BatchReq, f: ClearFaults) returns (r: Result<BatchResp>)
    requires db.Valid()
    modifies db
    ensures db.Valid()
    ensures (r, db.State()) == ClearAllSimpleEffect(db.search, old(db.State()), req, f)
  {
    var whereFunc := BuildSimpleConditions(req);
    // With no condition the source takes a global-update session; the empty
    // filter deletes every row here as well.
    var ok := db.Delete(whereFunc, f.deleteFails);
    if !ok {
      return Err;
    }
    var count := db.FindCount(whereFunc, f.countFails);
    if count.Err? {
      return Err;
    }
    return Ok(BatchResp(count.value, 0));
  }
}
