/** The older batch operations of the site service: metadata sync over a
    filtered working set, bulk toggle without cascade, and a blanket clear. */
module Batch {
  import opened SiteModel
  import opened Query
  import opened Store

  // ------------------------------------------------------------ conditions

  /** The conditions built from Search and CategoryID; Status is not consulted. */
  function QueryConditions(search: string, categoryID: int): (w: Filter)
    ensures Search(search) in w <==> search != ""
    ensures CategoryIs(categoryID) in w <==> categoryID != 0
    ensures forall p :: p in w ==> p == Search(search) || p == CategoryIs(categoryID)
    ensures |w| == 0 <==> search == "" && categoryID == 0
  {
    (if search != "" then [Search(search)] else [])
    + (if categoryID != 0 then [CategoryIs(categoryID)] else [])
  }

  /** A site matches these conditions iff it passes the search (when one is
      given) and lies in the category (when one is given). */
  lemma QueryConditionsSelect(like: SearchMatcher, search: string, categoryID: int, x: Site)
    ensures Matches(like, QueryConditions(search, categoryID), x)
        <==> (search == "" || like(search, x.title, x.description, x.url))
             && (categoryID == 0 || x.categoryID == categoryID)
  {
    var w := QueryConditions(search, categoryID);
    if search != "" {
      assert Search(search) in w;
    }
    if categoryID != 0 {
      assert CategoryIs(categoryID) in w;
    }
  }

  /** buildQueryConditions: appends one condition per request field that is set. */
  method BuildQueryConditions(req: BatchReq) returns (whereFunc: Filter)
    ensures whereFunc == QueryConditions(req.search, req.categoryID)
  {
    whereFunc := [];
    if req.search != "" {
      whereFunc := whereFunc + [Search(req.search)];
    }
    if req.categoryID != 0 {
      whereFunc := whereFunc + [CategoryIs(req.categoryID)];
    }
  }

  /** newSuccessBatchResp: a response counting every row as a success. */
  function NewSuccessBatchResp(count: int): (r: BatchResp)
    ensures r.successCount == count && r.failCount == 0
  {
    BatchResp(count, 0)
  }

  // ------------------------------------------------------------- sync one

  /** What the outside world answers while one site is synchronised: whether
      FindOne and the final Update fail, and the three fetchers, as functions
      of the URL they are given. */
  datatype SyncOracle = SyncOracle(
    findFails: bool,
    fetchTitle: string -> Result<string>,
    fetchIcon: string -> Result<string>,
    fetchDescription: string -> Result<string>,
    updateFails: bool)

  /** syncSite on a value: the site as found, and the new tables. */
  function SyncSiteEffect(st: DbState, id: int, o: SyncOracle): (Result<Site>, DbState) {
    if o.findFails then (Err, st)
    else
      match FirstWithID(st.sites, id)
      case None => (Err, st)
      case Some(site) =>
        var title, icon, desc := o.fetchTitle(site.url), o.fetchIcon(site.url), o.fetchDescription(site.url);
        if title.Err? || icon.Err? || desc.Err? || o.updateFails then (Err, st)
        else (Ok(site), st.(sites := WithMeta(st.sites, id, title.value, icon.value, desc.value)))
  }

  /** a and b differ at most in Title, Icon and Description. */
  predicate SameButMeta(a: Site, b: Site) {
    a.(title := b.title, icon := b.icon, description := b.description) == b
  }

  /** A site whose key is not in the table fails, and nothing is written
      whatever the fetchers would have answered. */
  lemma SyncSiteMissing(st: DbState, id: int, o: SyncOracle)
    requires forall x :: x in st.sites ==> x.id != id
    ensures SyncSiteEffect(st, id, o) == (Err, st)
  {
  }

  /** If any of the three fetches fails, the site fails and the tables are
      unchanged: metadata is never written in part. */
  lemma SyncSiteAllOrNothing(st: DbState, id: int, o: SyncOracle)
    requires FirstWithID(st.sites, id).Some?
    requires var url := FirstWithID(st.sites, id).value.url;
             o.fetchTitle(url).Err? || o.fetchIcon(url).Err? || o.fetchDescription(url).Err?
    ensures SyncSiteEffect(st, id, o) == (Err, st)
  {
  }

  /** On success exactly the rows with that key get the fetched Title, Icon and
      Description; their URL, CategoryID, IsUsed and Sort, every other row and
      the category table stay as they were. */
  lemma SyncSiteWrites(st: DbState, id: int, o: SyncOracle)
    ensures var (r, st') := SyncSiteEffect(st, id, o);
      && st'.categories == st.categories
      && st'.nextSiteID == st.nextSiteID && st'.nextCategoryID == st.nextCategoryID
      && |st'.sites| == |st.sites|
      && (r.Ok? <==> && !o.findFails && FirstWithID(st.sites, id).Some?
                     && var url := FirstWithID(st.sites, id).value.url;
                        && o.fetchTitle(url).Ok? && o.fetchIcon(url).Ok? && o.fetchDescription(url).Ok?
                        && !o.updateFails)
      && (forall i :: 0 <= i < |st.sites| ==>
            SameButMeta(st.sites[i], st'.sites[i])
            && (st.sites[i].id != id || r.Err? ==> st'.sites[i] == st.sites[i]))
      && (r.Ok? ==> r.value == FirstWithID(st.sites, id).value)
      && (r.Ok? ==> var url := r.value.url;
            forall i :: 0 <= i < |st.sites| && st.sites[i].id == id ==>
              && st'.sites[i].title == o.fetchTitle(url).value
              && st'.sites[i].icon == o.fetchIcon(url).value
              && st'.sites[i].description == o.fetchDescription(url).value)
  {
  }

  /** syncSite: find the row, fetch the three fields of its URL, then write
      them together. */
  method SyncSite(db: Db, siteID: int, o: SyncOracle) returns (r: Result<Site>)
    requires db.Valid()
    modifies db
    ensures db.Valid()
    ensures (r, db.State()) == SyncSiteEffect(old(db.State()), siteID, o)
  {
    var found := db.FindSiteByID(siteID, o.findFails);
    if found.Err? {
      return Err;
    }
    var site := found.value;
    var url := site.url;
    // The source runs the three fetches concurrently and joins on all of them.
    var title := o.fetchTitle(url);
    var icon := o.fetchIcon(url);
    var desc := o.fetchDescription(url);
    if title.Err? || icon.Err? || desc.Err? {
      return Err;
    }
    var ok := db.UpdateSiteMeta(siteID, title.value, icon.value, desc.value, o.updateFails);
    if !ok {
      return Err;
    }
    return Ok(site);
  }

  // ------------------------------------------------------------- sync all

  datatype SyncTally = SyncTally(successCount: int, failCount: int, state: DbState)

  /** The sequential pass over the working set: site k is synchronised with
      oracle(k) in the tables the first k sites left behind. */
  function SyncPass(st: DbState, ws: seq<Site>, oracle: nat -> SyncOracle): SyncTally
    decreases |ws|
  {
    if ws == [] then SyncTally(0, 0, st)
    else
      var k := |ws| - 1;
      var prev := SyncPass(st, ws[..k], oracle);
      var (r, st') := SyncSiteEffect(prev.state, ws[k].id, oracle(k));
      if r.Ok? then SyncTally(prev.successCount + 1, prev.failCount, st')
      else SyncTally(prev.successCount, prev.failCount + 1, st')
  }

  /** SyncAll on a value. */
  function SyncAllEffect(like: SearchMatcher, st: DbState, req: BatchReq, findAllFails: bool,
                         oracle: nat -> SyncOracle): (Result<BatchResp>, DbState)
  {
    if findAllFails then (Err, st)
    else
      var ws := Filtered(like, QueryConditions(req.search, req.categoryID), st.sites);
      var t := SyncPass(st, ws, oracle);
      (Ok(BatchResp(t.successCount, t.failCount)), t.state)
  }

  /** Every site of the working set is counted once, as a success or a failure. */
  lemma {:induction false} SyncPassTotals(st: DbState, ws: seq<Site>, oracle: nat -> SyncOracle)
    ensures var t := SyncPass(st, ws, oracle);
      t.successCount >= 0 && t.failCount >= 0 && t.successCount + t.failCount == |ws|
  {
    if ws != [] {
      SyncPassTotals(st, ws[..|ws| - 1], oracle);
    }
  }

  /** The pass only ever rewrites Title, Icon and Description: no row is added,
      removed or moved, and the category table is untouched. */
  lemma {:induction false} SyncPassFrame(st: DbState, ws: seq<Site>, oracle: nat -> SyncOracle)
    ensures var st' := SyncPass(st, ws, oracle).state;
      && st'.categories == st.categories
      && st'.nextSiteID == st.nextSiteID && st'.nextCategoryID == st.nextCategoryID
      && |st'.sites| == |st.sites|
      && forall i :: 0 <= i < |st.sites| ==> SameButMeta(st.sites[i], st'.sites[i])
  {
    if ws != [] {
      var k := |ws| - 1;
      SyncPassFrame(st, ws[..k], oracle);
      SyncSiteWrites(SyncPass(st, ws[..k], oracle).state, ws[k].id, oracle(k));
    }
  }

  /** Everything succeeds for this site: the lookup, the three fetches, the write. */
  ghost predicate AllSucceed(o: SyncOracle) {
    && !o.findFails && !o.updateFails
    && forall url :: o.fetchTitle(url).Ok? && o.fetchIcon(url).Ok? && o.fetchDescription(url).Ok?
  }

  /** When everything succeeds, every site of the working set is a success. */
  lemma {:induction false} SyncPassAllSucceed(st: DbState, ws: seq<Site>, oracle: nat -> SyncOracle)
    requires forall x :: x in ws ==> x in st.sites
    requires forall k :: 0 <= k < |ws| ==> AllSucceed(oracle(k))
    ensures SyncPass(st, ws, oracle).successCount == |ws|
    ensures SyncPass(st, ws, oracle).failCount == 0
  {
    if ws != [] {
      var k := |ws| - 1;
      assert forall x :: x in ws[..k] ==> x in ws;
      SyncPassAllSucceed(st, ws[..k], oracle);
      var prev := SyncPass(st, ws[..k], oracle).state;
      SyncPassFrame(st, ws[..k], oracle);
      assert ws[k] in ws;
      var j :| 0 <= j < |st.sites| && st.sites[j] == ws[k];
      assert prev.sites[j].id == ws[k].id;
      assert prev.sites[j] in prev.sites;
    }
  }

  /** Site x with the Title, Icon and Description o fetches for its URL. */
  function Refreshed(x: Site, o: SyncOracle): (y: Site)
    requires AllSucceed(o)
    ensures y.(title := x.title, icon := x.icon, description := x.description) == x
    ensures y.title == o.fetchTitle(x.url).value && y.icon == o.fetchIcon(x.url).value
    ensures y.description == o.fetchDescription(x.url).value
  {
    x.(title := o.fetchTitle(x.url).value, icon := o.fetchIcon(x.url).value,
       description := o.fetchDescription(x.url).value)
  }

  /** The pass over ws is the pass over all but its last site, then that site. */
  lemma SyncPassLast(st: DbState, ws: seq<Site>, oracle: nat -> SyncOracle)
    requires ws != []
    ensures SyncPass(st, ws, oracle).state
         == SyncSiteEffect(SyncPass(st, ws[..|ws| - 1], oracle).state, ws[|ws| - 1].id, oracle(|ws| - 1)).1
  {
  }

  /** One successful sync of row j, in tables whose keys and URLs are those of
      st and whose row j is not yet written: row j is refreshed, no other row
      changes. */
  lemma SyncStepRefreshes(st: DbState, prev: DbState, j: int, o: SyncOracle)
    requires UniqueIDs(st.sites) && 0 <= j < |st.sites| && AllSucceed(o)
    requires |prev.sites| == |st.sites| && prev.sites[j] == st.sites[j]
    requires forall i :: 0 <= i < |st.sites| ==> SameButMeta(st.sites[i], prev.sites[i])
    ensures var after := SyncSiteEffect(prev, st.sites[j].id, o).1.sites;
      && |after| == |st.sites|
      && after[j] == Refreshed(st.sites[j], o)
      && forall i :: 0 <= i < |st.sites| && i != j ==> after[i] == prev.sites[i]
  {
    assert forall i :: 0 <= i < |st.sites| ==> prev.sites[i].id == st.sites[i].id && prev.sites[i].url == st.sites[i].url by {
      forall i | 0 <= i < |st.sites| ensures prev.sites[i].id == st.sites[i].id && prev.sites[i].url == st.sites[i].url {
        assert SameButMeta(st.sites[i], prev.sites[i]);
      }
    }
    assert UniqueIDs(prev.sites) by {
      forall a, b | 0 <= a < |prev.sites| && 0 <= b < |prev.sites| && prev.sites[a].id == prev.sites[b].id
        ensures a == b
      {
        assert st.sites[a].id == st.sites[b].id;
      }
    }
    FirstWithIDUnique(prev.sites, j);
    var after := SyncSiteEffect(prev, st.sites[j].id, o).1.sites;
    forall i | 0 <= i < |st.sites| && i != j ensures after[i] == prev.sites[i] {
      assert prev.sites[i].id != prev.sites[j].id;
    }
  }

  /** final is orig after a successful sync of each site of ws, site k with
      oracle(k): a row whose key is that of ws[k] holds the values fetched for
      its URL, every other row is as it was. */
  ghost predicate RefreshedBy(orig: seq<Site>, ws: seq<Site>, oracle: nat -> SyncOracle, final: seq<Site>)
    requires forall k :: 0 <= k < |ws| ==> AllSucceed(oracle(k))
  {
    && |final| == |orig|
    && (forall k, i :: 0 <= k < |ws| && 0 <= i < |orig| && orig[i].id == ws[k].id ==>
          final[i] == Refreshed(orig[i], oracle(k)))
    && (forall i :: 0 <= i < |orig| && (forall k :: 0 <= k < |ws| ==> ws[k].id != orig[i].id) ==>
          final[i] == orig[i])
  }

  /** Extending RefreshedBy by one more site, held by row j. */
  lemma RefreshedByStep(orig: seq<Site>, ws: seq<Site>, oracle: nat -> SyncOracle,
                        prev: seq<Site>, j: int, after: seq<Site>)
    requires ws != [] && forall k :: 0 <= k < |ws| ==> AllSucceed(oracle(k))
    requires UniqueIDs(orig) && UniqueIDs(ws)
    requires RefreshedBy(orig, ws[..|ws| - 1], oracle, prev)
    requires 0 <= j < |orig| && orig[j] == ws[|ws| - 1]
    requires |after| == |orig| && after[j] == Refreshed(orig[j], oracle(|ws| - 1))
    requires forall i :: 0 <= i < |orig| && i != j ==> after[i] == prev[i]
    ensures RefreshedBy(orig, ws, oracle, after)
  {
    var n := |ws| - 1;
    var prefix := ws[..n];
    assert forall k :: 0 <= k < n ==> prefix[k] == ws[k];
    forall k, i | 0 <= k < |ws| && 0 <= i < |orig| && orig[i].id == ws[k].id
      ensures after[i] == Refreshed(orig[i], oracle(k))
    {
      if k < n {
        assert ws[k].id != ws[n].id;
        assert i != j;
      } else {
        assert k == n && orig[i].id == orig[j].id;
      }
    }
    forall i | 0 <= i < |orig| && (forall k :: 0 <= k < |ws| ==> ws[k].id != orig[i].id)
      ensures after[i] == orig[i]
    {
      assert forall k :: 0 <= k < n ==> prefix[k].id != orig[i].id;
      assert ws[n].id != orig[i].id;
    }
  }

  /** The inductive step of SyncPassRefreshes: from the pass over all but the
      last site to the pass over all of them. */
  lemma SyncPassRefreshesLast(st: DbState, ws: seq<Site>, oracle: nat -> SyncOracle)
    requires ws != [] && UniqueIDs(st.sites) && UniqueIDs(ws)
    requires ws[|ws| - 1] in st.sites
    requires forall k :: 0 <= k < |ws| ==> AllSucceed(oracle(k))
    requires RefreshedBy(st.sites, ws[..|ws| - 1], oracle, SyncPass(st, ws[..|ws| - 1], oracle).state.sites)
    ensures RefreshedBy(st.sites, ws, oracle, SyncPass(st, ws, oracle).state.sites)
  {
    var n := |ws| - 1;
    var prefix := ws[..n];
    SyncPassFrame(st, prefix, oracle);
    var prev := SyncPass(st, prefix, oracle).state;
    var j :| 0 <= j < |st.sites| && st.sites[j] == ws[n];
    forall k | 0 <= k < n ensures prefix[k].id != st.sites[j].id {
      assert prefix[k] == ws[k];
    }
    assert prev.sites[j] == st.sites[j];
    SyncStepRefreshes(st, prev, j, oracle(n));
    SyncPassLast(st, ws, oracle);
    RefreshedByStep(st.sites, ws, oracle, prev.sites, j, SyncPass(st, ws, oracle).state.sites);
  }

  /** When everything succeeds and keys are unique, the pass leaves each row of
      the working set with the values fetched for its URL by its own sync, and
      every other row as it was. */
  lemma {:induction false} SyncPassRefreshes(st: DbState, ws: seq<Site>, oracle: nat -> SyncOracle)
    requires UniqueIDs(st.sites) && UniqueIDs(ws)
    requires forall x :: x in ws ==> x in st.sites
    requires forall k :: 0 <= k < |ws| ==> AllSucceed(oracle(k))
    ensures RefreshedBy(st.sites, ws, oracle, SyncPass(st, ws, oracle).state.sites)
  {
    if ws != [] {
      var prefix := ws[..|ws| - 1];
      assert forall k :: 0 <= k < |prefix| ==> prefix[k] == ws[k];
      assert forall x :: x in prefix ==> x in ws;
      assert UniqueIDs(prefix);
      SyncPassRefreshes(st, prefix, oracle);
      assert ws[|ws| - 1] in ws;
      SyncPassRefreshesLast(st, ws, oracle);
    }
  }

  /** When a sync run alone on st fails: the lookup fails or finds no row,
      one of the three fetches for its URL fails, or the write fails. */
  predicate SyncFails(st: DbState, id: int, o: SyncOracle) {
    || o.findFails
    || FirstWithID(st.sites, id).None?
    || (var url := FirstWithID(st.sites, id).value.url;
        o.fetchTitle(url).Err? || o.fetchIcon(url).Err? || o.fetchDescription(url).Err? || o.updateFails)
  }

  lemma SyncFailsExactly(st: DbState, id: int, o: SyncOracle)
    ensures SyncFails(st, id, o) <==> SyncSiteEffect(st, id, o).0.Err?
  {
    SyncSiteWrites(st, id, o);
  }

  /** How many syncs of the working set fail when each runs alone on the
      original tables, site k with oracle(k). */
  function FailuresAlone(st: DbState, ws: seq<Site>, oracle: nat -> SyncOracle): (c: nat)
    ensures c <= |ws|
    decreases |ws|
  {
    if ws == [] then 0
    else
      var k := |ws| - 1;
      FailuresAlone(st, ws[..k], oracle) + (if SyncFails(st, ws[k].id, oracle(k)) then 1 else 0)
  }

  /** final is what the syncs of ws leave when each acts as if it ran alone on
      st: a row whose key is that of ws[k] is what the sync of ws[k] with
      oracle(k) would write on st, every other row is as it was. */
  ghost predicate SyncedAlone(st: DbState, ws: seq<Site>, oracle: nat -> SyncOracle, final: seq<Site>) {
    && |final| == |st.sites|
    && (forall k, i :: 0 <= k < |ws| && 0 <= i < |st.sites| && st.sites[i].id == ws[k].id ==>
          final[i] == SyncSiteEffect(st, ws[k].id, oracle(k)).1.sites[i])
    && (forall i :: 0 <= i < |st.sites| && (forall k :: 0 <= k < |ws| ==> ws[k].id != st.sites[i].id) ==>
          final[i] == st.sites[i])
  }

  /** A sync whose rows no earlier sync touched behaves as if it ran alone on
      the original tables: same outcome, same row written, every other row as
      the earlier syncs left it. */
  lemma SyncStepAlone(st: DbState, prev: DbState, id: int, o: SyncOracle)
    requires UniqueIDs(st.sites)
    requires |prev.sites| == |st.sites|
    requires forall i :: 0 <= i < |st.sites| ==> SameButMeta(st.sites[i], prev.sites[i])
    requires forall i :: 0 <= i < |st.sites| && st.sites[i].id == id ==> prev.sites[i] == st.sites[i]
    ensures var (r, after) := SyncSiteEffect(prev, id, o);
      var alone := SyncSiteEffect(st, id, o);
      && r == alone.0
      && |after.sites| == |st.sites|
      && forall i :: 0 <= i < |st.sites| ==>
           after.sites[i] == if st.sites[i].id == id then alone.1.sites[i] else prev.sites[i]
  {
    assert forall i :: 0 <= i < |st.sites| ==> prev.sites[i].id == st.sites[i].id by {
      forall i | 0 <= i < |st.sites| ensures prev.sites[i].id == st.sites[i].id {
        assert SameButMeta(st.sites[i], prev.sites[i]);
      }
    }
    if j :| 0 <= j < |st.sites| && st.sites[j].id == id {
      SyncStepAloneFound(st, prev, j, o);
    } else {
      assert FirstWithID(prev.sites, id) == None by {
        assert forall x :: x in prev.sites ==> x.id != id;
      }
      assert FirstWithID(st.sites, id) == None;
    }
  }

  /** SyncStepAlone when row j holds the key. */
  lemma SyncStepAloneFound(st: DbState, prev: DbState, j: int, o: SyncOracle)
    requires UniqueIDs(st.sites) && 0 <= j < |st.sites|
    requires |prev.sites| == |st.sites|
    requires forall i :: 0 <= i < |st.sites| ==> prev.sites[i].id == st.sites[i].id
    requires forall i :: 0 <= i < |st.sites| && st.sites[i].id == st.sites[j].id ==> prev.sites[i] == st.sites[i]
    ensures var id := st.sites[j].id;
      var (r, after) := SyncSiteEffect(prev, id, o);
      var alone := SyncSiteEffect(st, id, o);
      && r == alone.0
      && |after.sites| == |st.sites|
      && forall i :: 0 <= i < |st.sites| ==>
           after.sites[i] == if st.sites[i].id == id then alone.1.sites[i] else prev.sites[i]
  {
    var id := st.sites[j].id;
    assert UniqueIDs(prev.sites) by {
      forall a, b | 0 <= a < |prev.sites| && 0 <= b < |prev.sites| && prev.sites[a].id == prev.sites[b].id
        ensures a == b
      {
        assert st.sites[a].id == st.sites[b].id;
      }
    }
    FirstWithIDUnique(st.sites, j);
    FirstWithIDUnique(prev.sites, j);
    var site := st.sites[j];
    assert prev.sites[j] == site;
    var title, icon, desc := o.fetchTitle(site.url), o.fetchIcon(site.url), o.fetchDescription(site.url);
    if !o.findFails && title.Ok? && icon.Ok? && desc.Ok? && !o.updateFails {
      WithMetaAgrees(prev.sites, st.sites, id, title.value, icon.value, desc.value);
    }
  }

  /** Extending SyncedAlone by one more site, whose sync wrote after. */
  lemma SyncedAloneStep(st: DbState, ws: seq<Site>, oracle: nat -> SyncOracle, prev: seq<Site>, after: seq<Site>)
    requires ws != [] && UniqueIDs(ws)
    requires SyncedAlone(st, ws[..|ws| - 1], oracle, prev)
    requires |after| == |st.sites|
    requires forall i :: 0 <= i < |st.sites| ==>
      after[i] == if st.sites[i].id == ws[|ws| - 1].id
                  then SyncSiteEffect(st, ws[|ws| - 1].id, oracle(|ws| - 1)).1.sites[i]
                  else prev[i]
    ensures SyncedAlone(st, ws, oracle, after)
  {
    var n := |ws| - 1;
    var prefix := ws[..n];
    assert forall k :: 0 <= k < n ==> prefix[k] == ws[k];
    forall k, i | 0 <= k < |ws| && 0 <= i < |st.sites| && st.sites[i].id == ws[k].id
      ensures after[i] == SyncSiteEffect(st, ws[k].id, oracle(k)).1.sites[i]
    {
      if k < n {
        assert ws[k].id != ws[n].id;
      }
    }
    forall i | 0 <= i < |st.sites| && (forall k :: 0 <= k < |ws| ==> ws[k].id != st.sites[i].id)
      ensures after[i] == st.sites[i]
    {
      assert forall k :: 0 <= k < n ==> prefix[k].id != st.sites[i].id;
      assert ws[n].id != st.sites[i].id;
    }
  }

  /** The inductive step of SyncPassIsolated: from the pass over all but the
      last site to the pass over all of them. */
  lemma SyncPassIsolatedLast(st: DbState, ws: seq<Site>, oracle: nat -> SyncOracle)
    requires ws != [] && UniqueIDs(st.sites) && UniqueIDs(ws)
    requires var t := SyncPass(st, ws[..|ws| - 1], oracle);
      t.failCount == FailuresAlone(st, ws[..|ws| - 1], oracle)
      && SyncedAlone(st, ws[..|ws| - 1], oracle, t.state.sites)
    ensures var t := SyncPass(st, ws, oracle);
      t.failCount == FailuresAlone(st, ws, oracle)
      && SyncedAlone(st, ws, oracle, t.state.sites)
  {
    var n := |ws| - 1;
    var prefix := ws[..n];
    SyncPassFrame(st, prefix, oracle);
    var prev := SyncPass(st, prefix, oracle).state;
    var id := ws[n].id;
    forall i | 0 <= i < |st.sites| && st.sites[i].id == id ensures prev.sites[i] == st.sites[i] {
      forall k | 0 <= k < n ensures prefix[k].id != st.sites[i].id {
        assert prefix[k] == ws[k];
      }
    }
    SyncStepAlone(st, prev, id, oracle(n));
    SyncFailsExactly(st, id, oracle(n));
    SyncPassLast(st, ws, oracle);
    SyncedAloneStep(st, ws, oracle, prev.sites, SyncPass(st, ws, oracle).state.sites);
  }

  /** One site's failure never aborts the pass nor changes what happens to the
      others: with unique keys, the pass fails exactly the sites that would
      fail on their own and leaves each row as its own sync would leave it on
      the original tables, every row outside the working set as it was. */
  lemma {:induction false} SyncPassIsolated(st: DbState, ws: seq<Site>, oracle: nat -> SyncOracle)
    requires UniqueIDs(st.sites) && UniqueIDs(ws)
    ensures var t := SyncPass(st, ws, oracle);
      && t.failCount == FailuresAlone(st, ws, oracle)
      && t.successCount == |ws| - FailuresAlone(st, ws, oracle)
      && SyncedAlone(st, ws, oracle, t.state.sites)
  {
    SyncPassTotals(st, ws, oracle);
    if ws != [] {
      var prefix := ws[..|ws| - 1];
      assert forall k :: 0 <= k < |prefix| ==> prefix[k] == ws[k];
      assert UniqueIDs(prefix);
      SyncPassIsolated(st, prefix, oracle);
      SyncPassIsolatedLast(st, ws, oracle);
    }
  }

  /** When every fetch fails, every site fails and nothing is written. */
  lemma {:induction false} SyncPassAllFetchesFail(st: DbState, ws: seq<Site>, oracle: nat -> SyncOracle)
    requires forall k, url :: 0 <= k < |ws| ==> oracle(k).fetchTitle(url).Err?
    ensures SyncPass(st, ws, oracle) == SyncTally(0, |ws|, st)
  {
    if ws != [] {
      SyncPassAllFetchesFail(st, ws[..|ws| - 1], oracle);
    }
  }

  /** SyncAll fails only when the working set cannot be read; otherwise its
      counts add up to the size of the working set. */
  lemma SyncAllReport(like: SearchMatcher, st: DbState, req: BatchReq, findAllFails: bool,
                      oracle: nat -> SyncOracle)
    ensures var (r, st') := SyncAllEffect(like, st, req, findAllFails, oracle);
      && (r.Err? <==> findAllFails)
      && (r.Err? ==> st' == st)
      && (r.Ok? ==> r.value.successCount + r.value.failCount
                    == |Filtered(like, QueryConditions(req.search, req.categoryID), st.sites)|)
  {
    if !findAllFails {
      SyncPassTotals(st, Filtered(like, QueryConditions(req.search, req.categoryID), st.sites), oracle);
    }
  }

  /** When every site's sync succeeds, SyncAll reports them all as successes. */
  lemma SyncAllEverySiteSucceeds(like: SearchMatcher, st: DbState, req: BatchReq,
                                 oracle: nat -> SyncOracle)
    requires forall k :: 0 <= k < |st.sites| ==> AllSucceed(oracle(k))
    ensures SyncAllEffect(like, st, req, false, oracle).0
         == Ok(BatchResp(|Filtered(like, QueryConditions(req.search, req.categoryID), st.sites)|, 0))
  {
    var ws := Filtered(like, QueryConditions(req.search, req.categoryID), st.sites);
    SyncPassAllSucceed(st, ws, oracle);
  }

  /** When every site's sync succeeds and keys are unique, SyncAll leaves every
      matching row with Title, Icon and Description fetched for its URL by its
      own sync, and every other row as it was. */
  lemma SyncAllRefreshesEverySite(like: SearchMatcher, st: DbState, req: BatchReq,
                                  oracle: nat -> SyncOracle)
    requires UniqueIDs(st.sites)
    requires forall k :: 0 <= k < |st.sites| ==> AllSucceed(oracle(k))
    ensures var w := QueryConditions(req.search, req.categoryID);
      var ws := Filtered(like, w, st.sites);
      var final := SyncAllEffect(like, st, req, false, oracle).1.sites;
      && |final| == |st.sites|
      && (forall i :: 0 <= i < |st.sites| && Matches(like, w, st.sites[i]) ==>
            exists k :: 0 <= k < |ws| && ws[k] == st.sites[i] && final[i] == Refreshed(st.sites[i], oracle(k)))
      && (forall i :: 0 <= i < |st.sites| && !Matches(like, w, st.sites[i]) ==> final[i] == st.sites[i])
  {
    var w := QueryConditions(req.search, req.categoryID);
    var ws := Filtered(like, w, st.sites);
    FilteredUniqueIDs(like, w, st.sites);
    SyncPassRefreshes(st, ws, oracle);
    var final := SyncAllEffect(like, st, req, false, oracle).1.sites;
    assert RefreshedBy(st.sites, ws, oracle, final);
    forall i | 0 <= i < |st.sites| && Matches(like, w, st.sites[i])
      ensures exists k :: 0 <= k < |ws| && ws[k] == st.sites[i] && final[i] == Refreshed(st.sites[i], oracle(k))
    {
      assert st.sites[i] in ws;
      var k :| 0 <= k < |ws| && ws[k] == st.sites[i];
      assert final[i] == Refreshed(st.sites[i], oracle(k));
    }
    forall i | 0 <= i < |st.sites| && !Matches(like, w, st.sites[i])
      ensures final[i] == st.sites[i]
    {
      forall k | 0 <= k < |ws| ensures ws[k].id != st.sites[i].id {
        assert ws[k] in ws;
        var m :| 0 <= m < |st.sites| && st.sites[m] == ws[k];
        assert m != i;
      }
    }
  }

  /** The counts of SyncPassIsolated alone, for the working set of a filter:
      the pass fails exactly the sites that would fail on their own. */
  lemma SyncPassFailsAlone(like: SearchMatcher, w: Filter, st: DbState, oracle: nat -> SyncOracle)
    requires UniqueIDs(st.sites)
    ensures var ws := Filtered(like, w, st.sites);
      && SyncPass(st, ws, oracle).failCount == FailuresAlone(st, ws, oracle)
      && SyncPass(st, ws, oracle).successCount == |ws| - FailuresAlone(st, ws, oracle)
  {
    FilteredUniqueIDs(like, w, st.sites);
    SyncPassIsolated(st, Filtered(like, w, st.sites), oracle);
  }

  /** SyncPassIsolated read row by row, for a working set drawn from the
      table: a row of the working set is what its own sync leaves, any other
      row is as it was. */
  lemma SyncPassIsolatedRows(st: DbState, ws: seq<Site>, oracle: nat -> SyncOracle)
    requires UniqueIDs(st.sites) && UniqueIDs(ws) && forall x :: x in ws ==> x in st.sites
    ensures var t := SyncPass(st, ws, oracle);
      && t.failCount == FailuresAlone(st, ws, oracle)
      && t.successCount == |ws| - FailuresAlone(st, ws, oracle)
      && |t.state.sites| == |st.sites|
      && (forall k, i :: 0 <= k < |ws| && 0 <= i < |st.sites| && st.sites[i] == ws[k] ==>
            t.state.sites[i] == SyncSiteEffect(st, ws[k].id, oracle(k)).1.sites[i])
      && (forall i :: 0 <= i < |st.sites| && st.sites[i] !in ws ==> t.state.sites[i] == st.sites[i])
  {
    SyncPassIsolated(st, ws, oracle);
    var final := SyncPass(st, ws, oracle).state.sites;
    forall k, i | 0 <= k < |ws| && 0 <= i < |st.sites| && st.sites[i] == ws[k]
      ensures final[i] == SyncSiteEffect(st, ws[k].id, oracle(k)).1.sites[i]
    {
      assert st.sites[i].id == ws[k].id;
    }
    forall i | 0 <= i < |st.sites| && st.sites[i] !in ws
      ensures final[i] == st.sites[i]
    {
      forall k | 0 <= k < |ws| ensures ws[k].id != st.sites[i].id {
        assert ws[k] in ws;
        var m :| 0 <= m < |st.sites| && st.sites[m] == ws[k];
        assert m != i;
      }
    }
  }

  /** With unique keys, a failing site never aborts SyncAll: the response
      counts as failures exactly the matching sites whose sync would fail on
      its own, and every other matching site as a success. */
  lemma SyncAllIsolatedReport(like: SearchMatcher, st: DbState, req: BatchReq, oracle: nat -> SyncOracle)
    requires UniqueIDs(st.sites)
    ensures var ws := Filtered(like, QueryConditions(req.search, req.categoryID), st.sites);
      var r := SyncAllEffect(like, st, req, false, oracle).0;
      && r.Ok?
      && r.value.failCount == FailuresAlone(st, ws, oracle)
      && r.value.successCount == |ws| - FailuresAlone(st, ws, oracle)
  {
    SyncPassFailsAlone(like, QueryConditions(req.search, req.categoryID), st, oracle);
  }

  /** With unique keys, a failing site does not affect any other site: each
      matching row is what its own sync would leave on the original tables,
      and every other row is as it was. */
  lemma SyncAllIsolated(like: SearchMatcher, st: DbState, req: BatchReq, oracle: nat -> SyncOracle)
    requires UniqueIDs(st.sites)
    ensures |SyncAllEffect(like, st, req, false, oracle).1.sites| == |st.sites|
    ensures var ws := Filtered(like, QueryConditions(req.search, req.categoryID), st.sites);
      var final := SyncAllEffect(like, st, req, false, oracle).1.sites;
      forall k, i :: 0 <= k < |ws| && 0 <= i < |st.sites| && st.sites[i] == ws[k] ==>
        final[i] == SyncSiteEffect(st, ws[k].id, oracle(k)).1.sites[i]
    ensures var final := SyncAllEffect(like, st, req, false, oracle).1.sites;
      forall i :: 0 <= i < |st.sites| && !Matches(like, QueryConditions(req.search, req.categoryID), st.sites[i]) ==>
        final[i] == st.sites[i]
  {
    var w := QueryConditions(req.search, req.categoryID);
    var ws := Filtered(like, w, st.sites);
    FilteredUniqueIDs(like, w, st.sites);
    SyncPassIsolatedRows(st, ws, oracle);
  }

  /** SyncAll: resolve the working set once, then synchronise each site in
      turn; a failing site is counted and never stops the batch. */
  method SyncAll(db: Db, req: BatchReq, findAllFails: bool, oracle: nat -> SyncOracle)
    returns (r: Result<BatchResp>)
    requires db.Valid()
    modifies db
    ensures db.Valid()
    ensures (r, db.State()) == SyncAllEffect(db.search, old(db.State()), req, findAllFails, oracle)
  {
    var whereFunc := BuildQueryConditions(req);
    var found := db.FindAll(whereFunc, findAllFails);
    if found.Err? {
      return Err;
    }
    var sites := found.value;
    var successCount, failCount := SyncEach(db, sites, oracle);
    return Ok(BatchResp(successCount, failCount));
  }

  /** The loop of SyncAll over the resolved sites, with its two counters. */
  method SyncEach(db: Db, sites: seq<Site>, oracle: nat -> SyncOracle)
    returns (successCount: int, failCount: int)
    requires db.Valid()
    modifies db
    ensures db.Valid()
    ensures SyncTally(successCount, failCount, db.State()) == SyncPass(old(db.State()), sites, oracle)
  {
    ghost var st := db.State();
    successCount, failCount := 0, 0;
    for k := 0 to |sites|
      invariant db.Valid()
      invariant SyncPass(st, sites[..k], oracle) == SyncTally(successCount, failCount, db.State())
    {
      assert sites[..k + 1][..k] == sites[..k];
      var res := SyncSite(db, sites[k].id, oracle(k));
      if res.Err? {
        failCount := failCount + 1;
      } else {
        successCount := successCount + 1;
      }
    }
    assert sites[..|sites|] == sites;
  }

  // ---------------------------------------------------------------- toggle

  /** ToggleAll on a value. */
  function ToggleAllEffect(like: SearchMatcher, st: DbState, req: BatchReq, updateFails: bool)
    : (Result<BatchResp>, DbState)
  {
    var w := QueryConditions(req.search, req.categoryID);
    if updateFails then (Err, st)
    else (Ok(NewSuccessBatchResp(|Filtered(like, w, st.sites)|)),
          st.(sites := WithIsUsed(like, w, st.sites, req.isUsed)))
  }

  /** ToggleAll sets IsUsed on the matching sites only, touches no category,
      and reports the matched rows; afterwards the same conditions select
      exactly that many sites, all with the new IsUsed. */
  lemma ToggleAllSetsMatched(like: SearchMatcher, st: DbState, req: BatchReq, updateFails: bool)
    ensures var (r, st') := ToggleAllEffect(like, st, req, updateFails);
      var w := QueryConditions(req.search, req.categoryID);
      && (r.Err? <==> updateFails)
      && (r.Err? ==> st' == st)
      && st'.categories == st.categories
      && (r.Ok? ==>
            && r.value == BatchResp(|Filtered(like, w, st.sites)|, 0)
            && |st'.sites| == |st.sites|
            && (forall i :: 0 <= i < |st.sites| ==>
                  st'.sites[i] == if Matches(like, w, st.sites[i]) then st.sites[i].(isUsed := req.isUsed)
                                  else st.sites[i])
            && |Filtered(like, w, st'.sites)| == r.value.successCount
            && (forall x :: x in Filtered(like, w, st'.sites) ==> x.isUsed == req.isUsed))
  {
    if !updateFails {
      var w := QueryConditions(req.search, req.categoryID);
      var matched := Filtered(like, w, st.sites);
      RequeryAfterUpdate(like, w, st.sites, req.isUsed);
      assert IsUsedIs(!req.isUsed) !in w;
      var requeried := WithIsUsed(like, w, matched, req.isUsed);
      assert Filtered(like, w, WithIsUsed(like, w, st.sites, req.isUsed)) == requeried;
      forall x | x in requeried ensures x.isUsed == req.isUsed {
        var i :| 0 <= i < |requeried| && requeried[i] == x;
        assert matched[i] in matched;
      }
    }
  }

  /** ToggleAll: one bulk update of IsUsed over the matching sites. */
  method ToggleAll(db: Db, req: BatchReq, updateFails: bool) returns (r: Result<BatchResp>)
    requires db.Valid()
    modifies db
    ensures db.Valid()
    ensures (r, db.State()) == ToggleAllEffect(db.search, old(db.State()), req, updateFails)
  {
    var whereFunc := BuildQueryConditions(req);
    var rowsAffected := db.UpdateIsUsed(whereFunc, req.isUsed, updateFails);
    if rowsAffected.Err? {
      return Err;
    }
    return Ok(NewSuccessBatchResp(rowsAffected.value));
  }

  // ----------------------------------------------------------------- clear

  /** ClearAll on a value: the request is not consulted. */
  function ClearAllEffect(st: DbState, req: BatchReq, deleteFails: bool): (Result<BatchResp>, DbState) {
    if deleteFails then (Err, st)
    else (Ok(BatchResp(-1, 0)), st.(sites := []))
  }

  /** ClearAll empties the site table whatever the request says, keeps the
      categories, and reports -1 successes; a failed delete changes nothing. */
  lemma ClearAllIgnoresRequest(st: DbState, req: BatchReq, req': BatchReq, deleteFails: bool)
    ensures var (r, st') := ClearAllEffect(st, req, deleteFails);
      && ClearAllEffect(st, req', deleteFails) == (r, st')
      && (r.Err? <==> deleteFails)
      && (r.Err? ==> st' == st)
      && (r.Ok? ==> r.value == BatchResp(-1, 0) && st'.sites == [])
      && st'.categories == st.categories
      && st'.nextSiteID == st.nextSiteID && st'.nextCategoryID == st.nextCategoryID
  {
  }

  /** ClearAll: delete every site, whatever the request says. */
  method ClearAll(db: Db, req: BatchReq, deleteFails: bool) returns (r: Result<BatchResp>)
    requires db.Valid()
    modifies db
    ensures db.Valid()
    ensures (r, db.State()) == ClearAllEffect(old(db.State()), req, deleteFails)
  {
    var ok := db.Delete([], deleteFails);
    if !ok {
      return Err;
    }
    EmptyFilterDeletesAll(db.search, old(db.sites));
    return Ok(BatchResp(-1, 0));
  }
}
