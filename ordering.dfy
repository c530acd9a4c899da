/** What FindSiteCategoryWithPage returns: the matching sites joined with
    their categories, ordered by the requested columns, one page of them. */
module Ordering {
  import opened SiteModel

  /** A row of the site/category join. */
  datatype SiteCategory = SiteCategory(site: Site, category: Category)

  /** The order expressions the export passes to the repository. */
  datatype OrderColumn = CreatedAtDesc | SortAsc

  /** The category a site joins with; a site whose category row is missing
      joins with the zero category. */
  function CategoryOf(cats: map<int, Category>, id: int): Category {
    if id in cats then cats[id] else Category("", 0, false)
  }

  function Joined(cats: map<int, Category>, sites: seq<Site>): (r: seq<SiteCategory>)
    ensures |r| == |sites|
    ensures forall i :: 0 <= i < |sites| ==> r[i].site == sites[i]
    ensures forall i :: 0 <= i < |sites| ==> r[i].category == CategoryOf(cats, sites[i].categoryID)
  {
    seq(|sites|, i requires 0 <= i < |sites| => SiteCategory(sites[i], CategoryOf(cats, sites[i].categoryID)))
  }

  /** The value ordered on: ascending keys; CreatedAt descending is ascending
      in its negation. */
  function Key(c: OrderColumn, r: SiteCategory): int {
    match c
    case CreatedAtDesc => -r.site.createdAt
    case SortAsc => r.site.sort
  }

  /** ORDER BY order[0], order[1], ...: a may come before b. */
  predicate Le(order: seq<OrderColumn>, a: SiteCategory, b: SiteCategory)
    decreases |order|
  {
    if order == [] then true
    else
      var ka, kb := Key(order[0], a), Key(order[0], b);
      ka < kb || (ka == kb && Le(order[1..], a, b))
  }

  predicate Sorted(order: seq<OrderColumn>, s: seq<SiteCategory>) {
    forall i, j :: 0 <= i < j < |s| ==> Le(order, s[i], s[j])
  }

  lemma {:induction false} LeTotal(order: seq<OrderColumn>, a: SiteCategory, b: SiteCategory)
    ensures Le(order, a, b) || Le(order, b, a)
    decreases |order|
  {
    if order != [] {
      LeTotal(order[1..], a, b);
    }
  }

  lemma {:induction false} LeTrans(order: seq<OrderColumn>, a: SiteCategory, b: SiteCategory, c: SiteCategory)
    requires Le(order, a, b) && Le(order, b, c)
    ensures Le(order, a, c)
    decreases |order|
  {
    if order != [] {
      var ka, kb, kc := Key(order[0], a), Key(order[0], b), Key(order[0], c);
      if ka == kb && kb == kc {
        LeTrans(order[1..], a, b, c);
      }
    }
  }

  /** Places x after every element that may come before it. */
  function Insert(order: seq<OrderColumn>, x: SiteCategory, s: seq<SiteCategory>): (r: seq<SiteCategory>)
    ensures multiset(r) == multiset(s) + multiset{x}
  {
    if s == [] then [x]
    else
      assert s == [s[0]] + s[1..];
      if Le(order, s[0], x) then [s[0]] + Insert(order, x, s[1..]) else [x] + s
  }

  /** Insertion sort, taking the rows in table order. */
  function SortBy(order: seq<OrderColumn>, s: seq<SiteCategory>): (r: seq<SiteCategory>)
    ensures multiset(r) == multiset(s)
    ensures |r| == |s|
  {
    if s == [] then []
    else
      var init, last := s[..|s| - 1], s[|s| - 1];
      assert s == init + [last];
      assert multiset(s) == multiset(init) + multiset{last};
      Insert(order, last, SortBy(order, init))
  }

  lemma {:induction false} InsertSorted(order: seq<OrderColumn>, x: SiteCategory, s: seq<SiteCategory>)
    requires Sorted(order, s)
    ensures Sorted(order, Insert(order, x, s))
  {
    var r := Insert(order, x, s);
    if s == [] {
    } else if Le(order, s[0], x) {
      InsertSorted(order, x, s[1..]);
      var t := Insert(order, x, s[1..]);
      assert r == [s[0]] + t;
      forall j | 0 <= j < |t| ensures Le(order, s[0], t[j]) {
        assert t[j] in multiset(t);
        assert t[j] in multiset(s[1..]) || t[j] == x;
        if t[j] != x {
          var k :| 0 <= k < |s[1..]| && s[1..][k] == t[j];
          assert s[k + 1] == t[j];
        }
      }
    } else {
      LeTotal(order, s[0], x);
      assert r == [x] + s;
      forall j | 0 <= j < |s| ensures Le(order, x, s[j]) {
        if j > 0 {
          LeTrans(order, x, s[0], s[j]);
        }
      }
    }
  }

  lemma {:induction false} SortBySorted(order: seq<OrderColumn>, s: seq<SiteCategory>)
    ensures Sorted(order, SortBy(order, s))
  {
    if s != [] {
      SortBySorted(order, s[..|s| - 1]);
      InsertSorted(order, s[|s| - 1], SortBy(order, s[..|s| - 1]));
    }
  }

  function Min(a: int, b: int): int { if a <= b then a else b }

  /** OFFSET (page-1)*size, clamped to a table of n rows. */
  function Offset(page: int, size: int, n: int): (lo: int)
    requires 1 <= page && 0 <= size && 0 <= n
    ensures 0 <= lo <= n
    ensures lo == n || lo == (page - 1) * size
  {
    assert (page - 1) * size >= 0;
    Min((page - 1) * size, n)
  }

  /** Page `page` (counted from 1) of `size` rows: OFFSET (page-1)*size LIMIT size. */
  function Page<T>(rows: seq<T>, page: int, size: int): (r: seq<T>)
    requires 1 <= page && 0 <= size
    ensures |r| <= size
    ensures |r| == Min(size, |rows| - Offset(page, size, |rows|))
    ensures forall i :: 0 <= i < |r| ==> r[i] == rows[Offset(page, size, |rows|) + i]
  {
    var lo := Offset(page, size, |rows|);
    var hi := Min(lo + size, |rows|);
    rows[lo..hi]
  }

  /** A slice of a sorted list is sorted. */
  lemma PageSorted(order: seq<OrderColumn>, rows: seq<SiteCategory>, page: int, size: int)
    requires 1 <= page && 0 <= size
    requires Sorted(order, rows)
    ensures Sorted(order, Page(rows, page, size))
  {
    var lo := Offset(page, size, |rows|);
    var r := Page(rows, page, size);
    forall i, j | 0 <= i < j < |r| ensures Le(order, r[i], r[j]) {
      assert r[i] == rows[lo + i] && r[j] == rows[lo + j];
    }
  }
}
