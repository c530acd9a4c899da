/** The where-conditions the service hands to the site repository, and what the
    repository's reads and writes do to the tables, as functions on values. */
module Query {
  import opened SiteModel

  /** LikeInByTitleOrDescOrURL(term) applied to a row's (title, description,
      url); how it matches is the repository's business. */
  type SearchMatcher = (string, string, string, string) -> bool

  /** One element of a whereFunc slice. */
  datatype Pred =
    | Search(term: string)          // LikeInByTitleOrDescOrURL(term)
    | CategoryIs(categoryID: int)   // WhereByCategoryID(categoryID)
    | IsUsedIs(isUsed: bool)        // WhereByIsUsed(isUsed)

  /** A whereFunc slice: the conjunction of its predicates. */
  type Filter = seq<Pred>

  predicate Holds(like: SearchMatcher, p: Pred, s: Site) {
    match p
    case Search(term) => like(term, s.title, s.description, s.url)
    case CategoryIs(id) => s.categoryID == id
    case IsUsedIs(b) => s.isUsed == b
  }

  predicate Matches(like: SearchMatcher, w: Filter, s: Site) {
    forall p :: p in w ==> Holds(like, p, s)
  }

  /** FindAll(w...): the matching rows, in table order. */
  function Filtered(like: SearchMatcher, w: Filter, sites: seq<Site>): (r: seq<Site>)
    ensures |r| <= |sites|
    ensures forall x :: x in r <==> x in sites && Matches(like, w, x)
  {
    if sites == [] then []
    else (if Matches(like, w, sites[0]) then [sites[0]] else []) + Filtered(like, w, sites[1..])
  }

  /** Delete(w...): the rows that do not match stay, in table order. */
  function Surviving(like: SearchMatcher, w: Filter, sites: seq<Site>): (r: seq<Site>)
    ensures |r| <= |sites|
    ensures forall x :: x in r <==> x in sites && !Matches(like, w, x)
  {
    if sites == [] then []
    else (if Matches(like, w, sites[0]) then [] else [sites[0]]) + Surviving(like, w, sites[1..])
  }

  /** Update({is_used: b}, w...): every matching row gets IsUsed = b. */
  function WithIsUsed(like: SearchMatcher, w: Filter, sites: seq<Site>, b: bool): (r: seq<Site>)
    ensures |r| == |sites|
    ensures forall i :: 0 <= i < |r| ==> r[i].(isUsed := sites[i].isUsed) == sites[i]
    ensures forall i :: 0 <= i < |r| && Matches(like, w, sites[i]) ==> r[i].isUsed == b
    ensures forall i :: 0 <= i < |r| && !Matches(like, w, sites[i]) ==> r[i] == sites[i]
  {
    seq(|sites|, i requires 0 <= i < |sites| =>
      if Matches(like, w, sites[i]) then sites[i].(isUsed := b) else sites[i])
  }

  /** FindOne(WhereByID(id)): the first row with that key. */
  function FirstWithID(sites: seq<Site>, id: int): (r: Option<Site>)
    ensures r.Some? ==> r.value in sites && r.value.id == id
    ensures r.None? <==> forall x :: x in sites ==> x.id != id
  {
    if sites == [] then None
    else if sites[0].id == id then Some(sites[0])
    else FirstWithID(sites[1..], id)
  }

  /** Update(&StSite{Title, Icon, Description}, WhereByID(id)). */
  function WithMeta(sites: seq<Site>, id: int, title: string, icon: string, description: string): (r: seq<Site>)
    ensures |r| == |sites|
    ensures forall i :: 0 <= i < |r| ==>
      r[i].(title := sites[i].title, icon := sites[i].icon, description := sites[i].description) == sites[i]
    ensures forall i :: 0 <= i < |r| && sites[i].id == id ==>
      r[i].title == title && r[i].icon == icon && r[i].description == description
    ensures forall i :: 0 <= i < |r| && sites[i].id != id ==> r[i] == sites[i]
  {
    seq(|sites|, i requires 0 <= i < |sites| =>
      if sites[i].id == id then sites[i].(title := title, icon := icon, description := description)
      else sites[i])
  }

  /** No two rows share a key. */
  predicate UniqueIDs(sites: seq<Site>) {
    forall a, b :: 0 <= a < |sites| && 0 <= b < |sites| && sites[a].id == sites[b].id ==> a == b
  }

  /** The distinct CategoryIDs of a list of sites. */
  function CategoryIDs(sites: seq<Site>): set<int> {
    set x | x in sites :: x.categoryID
  }

  /** Where(ID.In(ids...)).Updates({is_used: b}) on st_category. */
  function WithCategoriesIsUsed(cats: map<int, Category>, ids: set<int>, b: bool): (r: map<int, Category>)
    ensures r.Keys == cats.Keys
    ensures forall id :: id in cats && id in ids ==> r[id].isUsed == b && r[id].(isUsed := cats[id].isUsed) == cats[id]
    ensures forall id :: id in cats && id !in ids ==> r[id] == cats[id]
  {
    map id | id in cats :: if id in ids then cats[id].(isUsed := b) else cats[id]
  }

  /** The lowest key in [lo, hi) whose category has the given title. */
  function LowestWithTitle(cats: map<int, Category>, title: string, lo: int, hi: int): (r: Option<int>)
    decreases hi - lo
    ensures r.Some? ==> lo <= r.value < hi && r.value in cats && cats[r.value].title == title
    ensures r.Some? ==> forall id :: lo <= id < r.value && id in cats ==> cats[id].title != title
    ensures r.None? ==> forall id :: lo <= id < hi && id in cats ==> cats[id].title != title
  {
    if hi <= lo then None
    else if lo in cats && cats[lo].title == title then Some(lo)
    else LowestWithTitle(cats, title, lo + 1, hi)
  }

  // ---------------------------------------------------------------- lemmas

  /** With no condition every row is selected, in table order. */
  lemma {:induction false} EmptyFilterSelectsAll(like: SearchMatcher, sites: seq<Site>)
    ensures Filtered(like, [], sites) == sites
  {
    if sites != [] {
      EmptyFilterSelectsAll(like, sites[1..]);
      assert sites == [sites[0]] + sites[1..];
    }
  }

  /** With no condition a delete removes every row. */
  lemma {:induction false} EmptyFilterDeletesAll(like: SearchMatcher, sites: seq<Site>)
    ensures Surviving(like, [], sites) == []
  {
    if sites != [] {
      EmptyFilterDeletesAll(like, sites[1..]);
    }
  }

  /** Selecting and deleting split the table: together the two parts hold
      every row exactly as often as the table does. */
  lemma {:induction false} SelectAndDeletePartition(like: SearchMatcher, w: Filter, sites: seq<Site>)
    ensures multiset(Filtered(like, w, sites)) + multiset(Surviving(like, w, sites)) == multiset(sites)
    ensures |Filtered(like, w, sites)| + |Surviving(like, w, sites)| == |sites|
  {
    if sites != [] {
      SelectAndDeletePartition(like, w, sites[1..]);
      assert sites == [sites[0]] + sites[1..];
    }
  }

  /** After Delete(w...), FindAll(w...) finds nothing. */
  lemma {:induction false} NothingMatchesAfterDelete(like: SearchMatcher, w: Filter, sites: seq<Site>)
    ensures Filtered(like, w, Surviving(like, w, sites)) == []
  {
    if sites != [] {
      var head := if Matches(like, w, sites[0]) then [] else [sites[0]];
      FilteredAppend(like, w, head, Surviving(like, w, sites[1..]));
      NothingMatchesAfterDelete(like, w, sites[1..]);
      assert head == [] || head[1..] == [];
    }
  }

  lemma {:induction false} FilteredAppend(like: SearchMatcher, w: Filter, a: seq<Site>, b: seq<Site>)
    ensures Filtered(like, w, a + b) == Filtered(like, w, a) + Filtered(like, w, b)
  {
    if a != [] {
      var head := if Matches(like, w, a[0]) then [a[0]] else [];
      assert (a + b)[0] == a[0] && (a + b)[1..] == a[1..] + b;
      FilteredAppend(like, w, a[1..], b);
      assert Filtered(like, w, a + b) == head + Filtered(like, w, a[1..] + b);
      assert Filtered(like, w, a) == head + Filtered(like, w, a[1..]);
    } else {
      assert a + b == b;
    }
  }

  /** Delete keeps table order: deleting from a + b deletes from each part. */
  lemma {:induction false} SurvivingAppend(like: SearchMatcher, w: Filter, a: seq<Site>, b: seq<Site>)
    ensures Surviving(like, w, a + b) == Surviving(like, w, a) + Surviving(like, w, b)
  {
    if a != [] {
      var head := if Matches(like, w, a[0]) then [] else [a[0]];
      assert (a + b)[0] == a[0] && (a + b)[1..] == a[1..] + b;
      SurvivingAppend(like, w, a[1..], b);
      assert Surviving(like, w, a + b) == head + Surviving(like, w, a[1..] + b);
      assert Surviving(like, w, a) == head + Surviving(like, w, a[1..]);
    } else {
      assert a + b == b;
    }
  }

  /** A table in which no row matches is left exactly as it was. */
  lemma {:induction false} SurvivingUnmatched(like: SearchMatcher, w: Filter, sites: seq<Site>)
    requires forall i :: 0 <= i < |sites| ==> !Matches(like, w, sites[i])
    ensures Surviving(like, w, sites) == sites
  {
    if sites != [] {
      assert forall i :: 0 <= i < |sites[1..]| ==> sites[1..][i] == sites[i + 1];
      SurvivingUnmatched(like, w, sites[1..]);
      assert sites == [sites[0]] + sites[1..];
    }
  }

  lemma WithIsUsedCons(like: SearchMatcher, w: Filter, sites: seq<Site>, b: bool)
    requires sites != []
    ensures WithIsUsed(like, w, sites, b)
         == [WithIsUsed(like, w, sites, b)[0]] + WithIsUsed(like, w, sites[1..], b)
  {
    var u := WithIsUsed(like, w, sites, b);
    assert u[1..] == WithIsUsed(like, w, sites[1..], b);
    assert u == [u[0]] + u[1..];
  }

  /** Setting IsUsed = b on a matching row keeps it matching, unless the filter
      asks for IsUsed == !b. Search and category conditions never see IsUsed. */
  lemma UpdatedRowMatches(like: SearchMatcher, w: Filter, x: Site, b: bool)
    requires Matches(like, w, x)
    ensures Matches(like, w, x.(isUsed := b)) <==> IsUsedIs(!b) !in w
  {
    if IsUsedIs(!b) in w {
      assert !Holds(like, IsUsedIs(!b), x.(isUsed := b));
    } else {
      forall p | p in w ensures Holds(like, p, x.(isUsed := b)) {
        assert Holds(like, p, x);
      }
    }
  }

  /** Re-running FindAll(w...) after Update({is_used: b}, w...) finds the rows
      the update matched, now with IsUsed = b, unless the filter asks for
      IsUsed == !b, in which case it finds nothing. */
  lemma {:induction false} RequeryAfterUpdate(like: SearchMatcher, w: Filter, sites: seq<Site>, b: bool)
    ensures Filtered(like, w, WithIsUsed(like, w, sites, b))
         == if IsUsedIs(!b) in w then [] else WithIsUsed(like, w, Filtered(like, w, sites), b)
  {
    if sites != [] {
      var x := sites[0];
      WithIsUsedCons(like, w, sites, b);
      RequeryAfterUpdate(like, w, sites[1..], b);
      if Matches(like, w, x) {
        UpdatedRowMatches(like, w, x, b);
        if IsUsedIs(!b) !in w {
          assert Filtered(like, w, sites) == [x] + Filtered(like, w, sites[1..]);
          WithIsUsedCons(like, w, Filtered(like, w, sites), b);
          assert Filtered(like, w, sites)[1..] == Filtered(like, w, sites[1..]);
        }
      } else {
        assert Filtered(like, w, sites) == Filtered(like, w, sites[1..]);
      }
    }
  }

  /** With unique keys, FindOne(WhereByID(id)) finds the one row with that key. */
  lemma {:induction false} FirstWithIDUnique(sites: seq<Site>, j: int)
    requires UniqueIDs(sites)
    requires 0 <= j < |sites|
    ensures FirstWithID(sites, sites[j].id) == Some(sites[j])
  {
    if j > 0 {
      assert sites[0].id != sites[j].id;
      var tail := sites[1..];
      assert UniqueIDs(tail) by {
        forall a, b | 0 <= a < |tail| && 0 <= b < |tail| && tail[a].id == tail[b].id ensures a == b {
          assert sites[a + 1] == tail[a] && sites[b + 1] == tail[b];
        }
      }
      FirstWithIDUnique(tail, j - 1);
    }
  }

  /** Writing the same values under one key into two tables that agree on
      every key and on the rows with that key gives the same rows there; the
      other rows are kept from each table. */
  lemma WithMetaAgrees(sites: seq<Site>, orig: seq<Site>, id: int, title: string, icon: string, description: string)
    requires |sites| == |orig|
    requires forall i :: 0 <= i < |orig| ==> sites[i].id == orig[i].id
    requires forall i :: 0 <= i < |orig| && orig[i].id == id ==> sites[i] == orig[i]
    ensures forall i :: 0 <= i < |orig| ==>
      WithMeta(sites, id, title, icon, description)[i]
        == if orig[i].id == id then WithMeta(orig, id, title, icon, description)[i] else sites[i]
  {
  }

  /** FindAll over a table with unique keys returns rows with unique keys. */
  lemma {:induction false} FilteredUniqueIDs(like: SearchMatcher, w: Filter, sites: seq<Site>)
    requires UniqueIDs(sites)
    ensures UniqueIDs(Filtered(like, w, sites))
  {
    if sites != [] {
      var tail := sites[1..];
      assert UniqueIDs(tail) by {
        forall a, b | 0 <= a < |tail| && 0 <= b < |tail| && tail[a].id == tail[b].id ensures a == b {
          assert sites[a + 1] == tail[a] && sites[b + 1] == tail[b];
        }
      }
      FilteredUniqueIDs(like, w, tail);
      var rest := Filtered(like, w, tail);
      if Matches(like, w, sites[0]) {
        var r := [sites[0]] + rest;
        forall k | 0 <= k < |rest| ensures rest[k].id != sites[0].id {
          assert rest[k] in rest;
          var m :| 0 <= m < |tail| && tail[m] == rest[k];
          assert sites[m + 1] == rest[k];
        }
        assert forall k :: 1 <= k < |r| ==> r[k] == rest[k - 1];
        forall a, b | 0 <= a < |r| && 0 <= b < |r| && r[a].id == r[b].id ensures a == b {
          if a > 0 && b > 0 {
            assert r[a] == rest[a - 1] && r[b] == rest[b - 1];
          }
        }
      }
    }
  }
}
