/** The site and category repositories as one in-memory store. Every call
    takes `fail`, which stands for the database reporting an error; a call that
    fails changes nothing. */
module Store {
  import opened SiteModel
  import opened Query
  import opened Ordering

  class Db {
    /** How LikeInByTitleOrDescOrURL matches. */
    const search: SearchMatcher
    var sites: seq<Site>
    var categories: map<int, Category>
    var nextSiteID: int
    var nextCategoryID: int

    function State(): DbState
      reads this
    {
      DbState(sites, categories, nextSiteID, nextCategoryID)
    }

    ghost predicate Valid()
      reads this
    {
      Wellformed(State())
    }

    constructor (search: SearchMatcher, st: DbState)
      requires Wellformed(st)
      ensures Valid() && State() == st && this.search == search
    {
      this.search := search;
      sites, categories := st.sites, st.categories;
      nextSiteID, nextCategoryID := st.nextSiteID, st.nextCategoryID;
    }

    /** FindAll(w...). */
    method FindAll(w: Filter, fail: bool) returns (r: Result<seq<Site>>)
      ensures r.Err? <==> fail
      ensures r.Ok? ==> r.value == Filtered(search, w, sites)
    {
      if fail {
        return Err;
      }
      return Ok(Filtered(search, w, sites));
    }

    /** FindCount(w...). */
    method FindCount(w: Filter, fail: bool) returns (r: Result<int>)
      ensures r.Err? <==> fail
      ensures r.Ok? ==> r.value == |Filtered(search, w, sites)|
    {
      if fail {
        return Err;
      }
      return Ok(|Filtered(search, w, sites)|);
    }

    /** Update({is_used: isUsed}, w...); the row count is that of the matched rows. */
    method UpdateIsUsed(w: Filter, isUsed: bool, fail: bool) returns (r: Result<int>)
      requires Valid()
      modifies this`sites
      ensures Valid()
      ensures r.Err? <==> fail
      ensures r.Ok? ==> r.value == |Filtered(search, w, old(sites))|
      ensures sites == if fail then old(sites) else WithIsUsed(search, w, old(sites), isUsed)
    {
      if fail {
        return Err;
      }
      r := Ok(|Filtered(search, w, sites)|);
      sites := WithIsUsed(search, w, sites, isUsed);
    }

    /** Delete(w...); reports no row count. */
    method Delete(w: Filter, fail: bool) returns (ok: bool)
      requires Valid()
      modifies this`sites
      ensures Valid()
      ensures ok == !fail
      ensures sites == if fail then old(sites) else Surviving(search, w, old(sites))
    {
      if fail {
        return false;
      }
      sites := Surviving(search, w, sites);
      return true;
    }

    /** FindOne(WhereByID(id)): fails also when no row has that key. */
    method FindSiteByID(id: int, fail: bool) returns (r: Result<Site>)
      ensures r.Ok? <==> !fail && FirstWithID(sites, id).Some?
      ensures r.Ok? ==> r.value == FirstWithID(sites, id).value
    {
      if fail {
        return Err;
      }
      var i := 0;
      while i < |sites|
        invariant 0 <= i <= |sites|
        invariant FirstWithID(sites, id) == FirstWithID(sites[i..], id)
      {
        if sites[i].id == id {
          return Ok(sites[i]);
        }
        assert sites[i..][1..] == sites[i + 1..];
        i := i + 1;
      }
      return Err;
    }

    /** Update(&StSite{Title, Icon, Description}, WhereByID(id)). */
    method UpdateSiteMeta(id: int, title: string, icon: string, description: string, fail: bool)
      returns (ok: bool)
      requires Valid()
      modifies this`sites
      ensures Valid()
      ensures ok == !fail
      ensures sites == if fail then old(sites) else WithMeta(old(sites), id, title, icon, description)
    {
      if fail {
        return false;
      }
      sites := WithMeta(sites, id, title, icon, description);
      return true;
    }

    /** Create(&StSite{...}): the store assigns the key and both timestamps. */
    method CreateSite(s: Site, now: int, fail: bool) returns (r: Result<int>)
      requires Valid()
      modifies this`sites, this`nextSiteID
      ensures Valid()
      ensures r.Err? <==> fail
      ensures r.Ok? ==> r.value == old(nextSiteID)
      ensures sites == if fail then old(sites)
                       else old(sites) + [s.(id := old(nextSiteID), createdAt := now, updatedAt := now)]
      ensures nextSiteID == if fail then old(nextSiteID) else old(nextSiteID) + 1
    {
      if fail {
        return Err;
      }
      r := Ok(nextSiteID);
      sites := sites + [s.(id := nextSiteID, createdAt := now, updatedAt := now)];
      nextSiteID := nextSiteID + 1;
    }

    /** FindOne(WhereByTitle(title)) on st_category: the row with the lowest key
        among those with that title; fails also when there is none. */
    method FindCategoryByTitle(title: string, fail: bool) returns (r: Result<int>)
      requires Valid()
      ensures r.Ok? <==> !fail && exists id :: id in categories && categories[id].title == title
      ensures r.Ok? ==> r.value in categories && categories[r.value].title == title
      ensures r.Ok? ==> forall id :: id in categories && id < r.value ==> categories[id].title != title
      ensures r.Ok? ==> Some(r.value) == LowestWithTitle(categories, title, 1, nextCategoryID)
    {
      if fail {
        return Err;
      }
      var id := 1;
      while id < nextCategoryID
        invariant 1 <= id <= nextCategoryID
        invariant forall k :: 1 <= k < id && k in categories ==> categories[k].title != title
        invariant LowestWithTitle(categories, title, 1, nextCategoryID)
               == LowestWithTitle(categories, title, id, nextCategoryID)
      {
        if id in categories && categories[id].title == title {
          return Ok(id);
        }
        id := id + 1;
      }
      return Err;
    }

    /** Create(&StCategory{...}): the store assigns the key. */
    method CreateCategory(c: Category, fail: bool) returns (r: Result<int>)
      requires Valid()
      modifies this`categories, this`nextCategoryID
      ensures Valid()
      ensures r.Err? <==> fail
      ensures r.Ok? ==> r.value == old(nextCategoryID) && r.value !in old(categories)
      ensures categories == if fail then old(categories) else old(categories)[old(nextCategoryID) := c]
      ensures nextCategoryID == if fail then old(nextCategoryID) else old(nextCategoryID) + 1
    {
      if fail {
        return Err;
      }
      r := Ok(nextCategoryID);
      categories := categories[nextCategoryID := c];
      nextCategoryID := nextCategoryID + 1;
    }

    /** Where(ID.In(ids...)).Updates({is_used: isUsed}) on st_category. */
    method UpdateCategoriesIsUsed(ids: seq<int>, isUsed: bool, fail: bool) returns (ok: bool)
      requires Valid()
      modifies this`categories
      ensures Valid()
      ensures ok == !fail
      ensures categories == if fail then old(categories)
                            else WithCategoriesIsUsed(old(categories), (set id | id in ids), isUsed)
    {
      if fail {
        return false;
      }
      categories := WithCategoriesIsUsed(categories, (set id | id in ids), isUsed);
      return true;
    }

    /** FindSiteCategoryWithPage(page, size, &rows, order, w...). */
    method FindSiteCategoryWithPage(page: int, size: int, order: seq<OrderColumn>, w: Filter, fail: bool)
      returns (r: Result<seq<SiteCategory>>)
      requires 1 <= page && 0 <= size
      ensures r.Err? <==> fail
      ensures r.Ok? ==> r.value == Page(SortBy(order, Joined(categories, Filtered(search, w, sites))), page, size)
    {
      if fail {
        return Err;
      }
      return Ok(Page(SortBy(order, Joined(categories, Filtered(search, w, sites))), page, size));
    }
  }
}
