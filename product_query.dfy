/** The product listing (fetchProducts): a `where` filter and an `orderBy`
    key list built from the query, then the matching rows in key order,
    sliced to one page, with the total count and the number of pages. */
module ProductQuery {
  import opened Wrappers
  import opened Products
  import opened TextSearch

  /** The listing query as the service receives it; every field may be absent. */
  datatype Query = Query(
    page: Option<int>,
    limit: Option<int>,
    category: Option<string>,
    sortByPrice: Option<string>,
    sortByCreatedAt: Option<string>,
    search: Option<string>)

  /** Page number, 1 when absent. */
  function PageOf(q: Query): int {
    q.page.GetOr(1)
  }

  /** Page size, 10 when absent. */
  function LimitOf(q: Query): int {
    q.limit.GetOr(10)
  }

  /** Pages count from 1 and a page holds no negative number of rows. */
  predicate QueryInRange(q: Query) {
    PageOf(q) >= 1 && LimitOf(q) >= 0
  }

  /** Rows skipped before the requested page. */
  function SkipOf(q: Query): nat
    requires QueryInRange(q)
  {
    MulNonNegative(PageOf(q) - 1, LimitOf(q));
    (PageOf(q) - 1) * LimitOf(q)
  }

  lemma MulNonNegative(a: int, b: int)
    requires a >= 0 && b >= 0
    ensures a * b >= 0
  {
  }

  /** A query string takes effect only when it is present and not empty. */
  predicate Truthy(s: Option<string>) {
    s.Some? && s.value != ""
  }

  // ---------------------------------------------------------------------------
  // where

  /** The filter: a required status, an optional exact category and an
      optional term searched for in the name or the description. */
  datatype Where = Where(status: int, category: Option<string>, search: Option<string>)

  function BuildWhere(q: Query): Where {
    Where(Active,
          if Truthy(q.category) then q.category else None,
          if Truthy(q.search) then q.search else None)
  }

  predicate Matches(p: Product, w: Where) {
    && p.status == w.status
    && (w.category.Some? ==> p.category == w.category.value)
    && (w.search.Some? ==>
          || ContainsInsensitive(p.name, w.search.value)
          || (p.description.Some? && ContainsInsensitive(p.description.value, w.search.value)))
  }

  /** What a row must satisfy to be listed, stated on the query itself. */
  ghost predicate Listable(p: Product, q: Query) {
    && p.status == Active
    && (Truthy(q.category) ==> p.category == q.category.value)
    && (Truthy(q.search) ==>
          || (exists i :: OccursAt(Lower(p.name), Lower(q.search.value), i))
          || (p.description.Some? && exists i :: OccursAt(Lower(p.description.value), Lower(q.search.value), i)))
  }

  /** The built filter admits a row exactly when the row is listable: status 1,
      the category when one is given, the term in the name or the description
      (ignoring case) when one is given. */
  lemma BuildWhereMeaning(p: Product, q: Query)
    ensures Matches(p, BuildWhere(q)) <==> Listable(p, q)
  {
    if Truthy(q.search) {
      ContainsIsSubstring(Lower(p.name), Lower(q.search.value));
      if p.description.Some? {
        ContainsIsSubstring(Lower(p.description.value), Lower(q.search.value));
      }
    }
  }

  /** The rows of the table that pass the filter, in table order. */
  function Select(rows: seq<Product>, w: Where): (r: seq<Product>)
    ensures forall p :: multiset(r)[p] == if Matches(p, w) then multiset(rows)[p] else 0
  {
    if rows == [] then []
    else
      assert rows == [rows[0]] + rows[1..];
      (if Matches(rows[0], w) then [rows[0]] else []) + Select(rows[1..], w)
  }

  /** When every row passes the filter, Select returns the table as it is. */
  lemma {:induction false} SelectAllMatching(rows: seq<Product>, w: Where)
    requires forall i :: 0 <= i < |rows| ==> Matches(rows[i], w)
    ensures Select(rows, w) == rows
  {
    if rows != [] {
      SelectAllMatching(rows[1..], w);
    }
  }

  /** The number of rows that pass the filter, whatever the page. */
  function Count(rows: seq<Product>, w: Where): nat {
    |Select(rows, w)|
  }

  // ---------------------------------------------------------------------------
  // orderBy

  datatype Direction = Asc | Desc
  datatype SortKey = Price(dir: Direction) | CreatedAt(dir: Direction)

  /** Only the exact string "asc" sorts ascending; any other value sorts descending. */
  function DirectionOf(s: string): Direction {
    if s == "asc" then Asc else Desc
  }

  /** The price key, when asked for, comes before the creation-time key. */
  function BuildOrderBy(q: Query): seq<SortKey> {
    (if Truthy(q.sortByPrice) then [Price(DirectionOf(q.sortByPrice.value))] else [])
    + (if Truthy(q.sortByCreatedAt) then [CreatedAt(DirectionOf(q.sortByCreatedAt.value))] else [])
  }

  /** The value a key sorts on, negated for a descending key so that the
      smaller rank always comes first. */
  function Rank(k: SortKey, p: Product): int {
    var v := if k.Price? then p.price else p.createdAt;
    if k.dir == Asc then v else -v
  }

  /** `a` may precede `b` under the key list: the first key that tells them
      apart decides; rows no key tells apart may come in either order. */
  predicate InOrder(keys: seq<SortKey>, a: Product, b: Product)
    decreases |keys|
  {
    if keys == [] then true
    else
      || Rank(keys[0], a) < Rank(keys[0], b)
      || (Rank(keys[0], a) == Rank(keys[0], b) && InOrder(keys[1..], a, b))
  }

  ghost predicate SortedBy(keys: seq<SortKey>, s: seq<Product>) {
    forall i, j :: 0 <= i < j < |s| ==> InOrder(keys, s[i], s[j])
  }

  lemma {:induction false} InOrderTotal(keys: seq<SortKey>, a: Product, b: Product)
    ensures InOrder(keys, a, b) || InOrder(keys, b, a)
    decreases |keys|
  {
    if keys != [] {
      InOrderTotal(keys[1..], a, b);
    }
  }

  lemma {:induction false} InOrderTransitive(keys: seq<SortKey>, a: Product, b: Product, c: Product)
    requires InOrder(keys, a, b) && InOrder(keys, b, c)
    ensures InOrder(keys, a, c)
    decreases |keys|
  {
    if keys != [] && Rank(keys[0], a) == Rank(keys[0], b) == Rank(keys[0], c) {
      InOrderTransitive(keys[1..], a, b, c);
    }
  }

  /** Insert `x` before the first row it may precede. */
  function Insert(keys: seq<SortKey>, x: Product, s: seq<Product>): (r: seq<Product>)
    ensures |r| == |s| + 1
  {
    if s == [] then [x]
    else if InOrder(keys, x, s[0]) then [x] + s
    else [s[0]] + Insert(keys, x, s[1..])
  }

  /** The rows in key order; rows no key tells apart keep their table order. */
  function SortBy(keys: seq<SortKey>, s: seq<Product>): (r: seq<Product>)
    ensures |r| == |s|
  {
    if s == [] then [] else Insert(keys, s[0], SortBy(keys, s[1..]))
  }

  lemma {:induction false} InsertSortedPermutation(keys: seq<SortKey>, x: Product, s: seq<Product>)
    requires SortedBy(keys, s)
    ensures multiset(Insert(keys, x, s)) == multiset(s) + multiset{x}
    ensures SortedBy(keys, Insert(keys, x, s))
    decreases |s|
  {
    if s == [] {
    } else if InOrder(keys, x, s[0]) {
      forall j | 0 <= j < |s|
        ensures InOrder(keys, x, s[j])
      {
        if j > 0 { InOrderTransitive(keys, x, s[0], s[j]); }
      }
    } else {
      var t := s[1..];
      assert s == [s[0]] + t;
      InsertSortedPermutation(keys, x, t);
      var r := Insert(keys, x, t);
      InOrderTotal(keys, x, s[0]);
      forall j | 0 <= j < |r|
        ensures InOrder(keys, s[0], r[j])
      {
        assert r[j] in multiset(r);
        if r[j] != x {
          assert r[j] in t;
          var m :| 0 <= m < |t| && t[m] == r[j];
          assert s[m + 1] == r[j];
        }
      }
      assert Insert(keys, x, s) == [s[0]] + r;
    }
  }

  /** The sort returns the same rows (a permutation) in key order. */
  lemma {:induction false} SortBySortedPermutation(keys: seq<SortKey>, s: seq<Product>)
    ensures multiset(SortBy(keys, s)) == multiset(s)
    ensures SortedBy(keys, SortBy(keys, s))
    decreases |s|
  {
    if s != [] {
      SortBySortedPermutation(keys, s[1..]);
      InsertSortedPermutation(keys, s[0], SortBy(keys, s[1..]));
      assert s == [s[0]] + s[1..];
    }
  }

  /** With no sort key the rows keep their table order. */
  lemma {:induction false} SortByNoKeys(s: seq<Product>)
    ensures SortBy([], s) == s
    decreases |s|
  {
    if s != [] {
      SortByNoKeys(s[1..]);
    }
  }

  /** Rows the key list cannot tell apart keep their table order: when every
      pair of rows is tied, the sort returns the list as it was. */
  lemma {:induction false} SortByTiedKeepsOrder(keys: seq<SortKey>, s: seq<Product>)
    requires forall i, j :: 0 <= i < |s| && 0 <= j < |s| ==> InOrder(keys, s[i], s[j])
    ensures SortBy(keys, s) == s
    decreases |s|
  {
    if s != [] {
      assert forall i :: 0 <= i < |s| - 1 ==> s[1..][i] == s[i + 1];
      SortByTiedKeepsOrder(keys, s[1..]);
      if |s| > 1 {
        assert InOrder(keys, s[0], s[1]);
      }
      assert s == [s[0]] + s[1..];
    }
  }

  /** When the price key is asked for it decides between rows of different price:
      the cheaper first for "asc", the dearer first for any other value. */
  lemma PriceKeyDecides(q: Query, a: Product, b: Product)
    requires Truthy(q.sortByPrice) && a.price != b.price
    ensures InOrder(BuildOrderBy(q), a, b) <==>
      (if q.sortByPrice.value == "asc" then a.price < b.price else a.price > b.price)
  {
  }

  /** Creation time orders rows the price key cannot tell apart (or all rows,
      when no price key is asked for): older first for "asc", newer first otherwise. */
  lemma CreatedAtBreaksTies(q: Query, a: Product, b: Product)
    requires Truthy(q.sortByCreatedAt) && a.createdAt != b.createdAt
    requires Truthy(q.sortByPrice) ==> a.price == b.price
    ensures InOrder(BuildOrderBy(q), a, b) <==>
      (if q.sortByCreatedAt.value == "asc" then a.createdAt < b.createdAt else a.createdAt > b.createdAt)
  {
    var keys := BuildOrderBy(q);
    if Truthy(q.sortByPrice) {
      assert keys[1..] == [CreatedAt(DirectionOf(q.sortByCreatedAt.value))];
    }
  }

  // ---------------------------------------------------------------------------
  // skip / take and the page count

  function Min(a: int, b: int): int {
    if a <= b then a else b
  }

  /** Up to `take` rows starting at position `skip`. */
  function Slice(s: seq<Product>, skip: nat, take: nat): (r: seq<Product>)
    ensures |r| <= take
    ensures |r| == if skip >= |s| then 0 else Min(take, |s| - skip)
    ensures forall i :: 0 <= i < |r| ==> r[i] == s[skip + i]
  {
    if skip >= |s| then [] else s[skip..Min(skip + take, |s|)]
  }

  /** The rows the store returns for one page. */
  function FindMany(rows: seq<Product>, w: Where, skip: nat, take: nat, orderBy: seq<SortKey>): seq<Product> {
    Slice(SortBy(orderBy, Select(rows, w)), skip, take)
  }

  /** The least number of pages of size `d` that hold `n` rows. */
  function CeilDiv(n: nat, d: int): (r: nat)
    requires d > 0
    ensures r * d >= n && (r - 1) * d < n
  {
    var sum := n + d - 1;
    assert sum == (sum / d) * d + sum % d;
    sum / d
  }

  datatype Pagination = Pagination(total: nat, page: int, limit: int, totalPages: nat)
  datatype ProductPage = ProductPage(data: seq<Product>, pagination: Pagination)

  /** fetchProducts: one page of the matching rows in key order, or NotFound
      when that page is empty. */
  function FetchProducts(rows: seq<Product>, q: Query): Result<ProductPage, Error>
    requires QueryInRange(q)
  {
    var page := PageOf(q);
    var limit := LimitOf(q);
    var where := BuildWhere(q);
    var products := FindMany(rows, where, SkipOf(q), limit, BuildOrderBy(q));
    var total := Count(rows, where);
    if |products| == 0 then Failure(NotFound(NoProductsMessage))
    else Success(ProductPage(products, Pagination(total, page, limit, CeilDiv(total, limit))))
  }

  // ---------------------------------------------------------------------------
  // What a listing promises

  /** Every listed row is a row of the table, active, of the requested category
      and holding the search term, whatever the page. */
  lemma FetchProductsFilters(rows: seq<Product>, q: Query)
    requires QueryInRange(q)
    ensures var r := FetchProducts(rows, q);
      r.Success? ==> forall p :: p in r.value.data ==> p in rows && Listable(p, q)
  {
    var r := FetchProducts(rows, q);
    var w := BuildWhere(q);
    var sorted := SortBy(BuildOrderBy(q), Select(rows, w));
    SortBySortedPermutation(BuildOrderBy(q), Select(rows, w));
    if r.Success? {
      forall p | p in r.value.data
        ensures p in rows && Listable(p, q)
      {
        var i :| 0 <= i < |r.value.data| && r.value.data[i] == p;
        assert p == sorted[SkipOf(q) + i];
        assert p in multiset(sorted);
        assert Matches(p, w) && p in multiset(rows);
        BuildWhereMeaning(p, q);
      }
    }
  }

  /** The listed rows are in the order the key list asks for. */
  lemma FetchProductsOrdered(rows: seq<Product>, q: Query)
    requires QueryInRange(q)
    ensures var r := FetchProducts(rows, q);
      r.Success? ==> SortedBy(BuildOrderBy(q), r.value.data)
  {
    SortBySortedPermutation(BuildOrderBy(q), Select(rows, BuildWhere(q)));
  }

  /** The page is the stretch of the sorted matching rows that starts after
      (page-1)*limit of them and holds at most `limit` rows. */
  lemma FetchProductsPage(rows: seq<Product>, q: Query)
    requires QueryInRange(q)
    ensures var r := FetchProducts(rows, q);
      var sorted := SortBy(BuildOrderBy(q), Select(rows, BuildWhere(q)));
      r.Success? ==>
        && 0 < |r.value.data| <= LimitOf(q)
        && |r.value.data| == Min(LimitOf(q), |sorted| - SkipOf(q))
        && r.value.data == sorted[SkipOf(q)..SkipOf(q) + |r.value.data|]
  {
    var sorted := SortBy(BuildOrderBy(q), Select(rows, BuildWhere(q)));
    var skip, limit := SkipOf(q), LimitOf(q);
    var data := Slice(sorted, skip, limit);
    assert FetchProducts(rows, q).Success? ==> FetchProducts(rows, q).value.data == data;
    SliceIsStretch(sorted, skip, limit);
  }

  /** A non-empty slice is the stretch of `s` it starts at. */
  lemma SliceIsStretch(s: seq<Product>, skip: nat, take: nat)
    ensures var r := Slice(s, skip, take);
      r != [] ==> 0 < |r| <= take && |r| == Min(take, |s| - skip) && r == s[skip..skip + |r|]
  {
    var r := Slice(s, skip, take);
    if r != [] {
      assert r == s[skip..skip + |r|];
    }
  }

  /** `total` counts every matching row whatever the page; `totalPages` is
      total/limit rounded up, and a listed page is one of them. */
  lemma FetchProductsPagination(rows: seq<Product>, q: Query)
    requires QueryInRange(q)
    ensures var r := FetchProducts(rows, q);
      r.Success? ==>
        && r.value.pagination.total == Count(rows, BuildWhere(q))
        && r.value.pagination.page == PageOf(q)
        && r.value.pagination.limit == LimitOf(q) > 0
        && r.value.pagination.totalPages * LimitOf(q) >= r.value.pagination.total
        && (r.value.pagination.totalPages - 1) * LimitOf(q) < r.value.pagination.total
        && 1 <= PageOf(q) <= r.value.pagination.totalPages
  {
    var r := FetchProducts(rows, q);
    FetchProductsEmptyPage(rows, q);
    if r.Success? {
      PageWithinPages(PageOf(q), LimitOf(q), r.value.pagination.total, r.value.pagination.totalPages);
    }
  }

  /** Position `j` of a page whose start plus `j` is still a matching row holds
      that row of the sorted matches. */
  lemma FetchProductsAt(rows: seq<Product>, q: Query, j: nat)
    requires QueryInRange(q) && j < LimitOf(q) && SkipOf(q) + j < Count(rows, BuildWhere(q))
    ensures FetchProducts(rows, q).Success?
    ensures j < |FetchProducts(rows, q).value.data|
    ensures FetchProducts(rows, q).value.data[j] == SortBy(BuildOrderBy(q), Select(rows, BuildWhere(q)))[SkipOf(q) + j]
  {
    FetchProductsEmptyPage(rows, q);
    FetchProductsPage(rows, q);
  }

  lemma PageWithinPages(page: int, limit: int, total: nat, pages: nat)
    requires page >= 1 && limit > 0
    requires (page - 1) * limit < total && pages * limit >= total
    ensures page <= pages
  {
    if page > pages {
      MulMonotone(pages, page - 1, limit);
    }
  }

  lemma MulMonotone(a: int, b: int, c: int)
    requires a <= b && c >= 0
    ensures a * c <= b * c
  {
  }

  /** The listing fails, with NotFound "No products found", exactly when the
      requested page holds no matching row. */
  lemma FetchProductsEmptyPage(rows: seq<Product>, q: Query)
    requires QueryInRange(q)
    ensures var r := FetchProducts(rows, q);
      && (r.Failure? <==> LimitOf(q) == 0 || SkipOf(q) >= Count(rows, BuildWhere(q)))
      && (r.Failure? ==> r.error == NotFound(NoProductsMessage))
  {
  }

  /** Every matching row is listed: the i-th row in key order is row i % limit
      of page i / limit + 1. */
  lemma EveryMatchIsOnAPage(rows: seq<Product>, q: Query, i: nat)
    requires LimitOf(q) > 0 && i < Count(rows, BuildWhere(q))
    ensures var q' := q.(page := Some(PageHolding(i, LimitOf(q))));
      && QueryInRange(q')
      && FetchProducts(rows, q').Success?
      && |FetchProducts(rows, q').value.data| > i % LimitOf(q)
      && FetchProducts(rows, q').value.data[i % LimitOf(q)]
           == SortBy(BuildOrderBy(q), Select(rows, BuildWhere(q)))[i]
  {
    var limit := LimitOf(q);
    var d, m := i / limit, i % limit;
    DivMod(i, limit);
    var q' := q.(page := Some(PageHolding(i, limit)));
    assert BuildWhere(q') == BuildWhere(q) && BuildOrderBy(q') == BuildOrderBy(q);
    assert SkipOf(q') + m == i;
    FetchProductsAt(rows, q', m);
  }

  /** The page, counted from 1, on which position `i` falls. */
  function PageHolding(i: nat, limit: int): (page: int)
    requires limit > 0
    ensures page >= 1
  {
    i / limit + 1
  }

  lemma DivMod(i: nat, d: int)
    requires d > 0
    ensures i == (i / d) * d + i % d && 0 <= i % d < d && i / d >= 0
  {
  }

  /** Two active products of category "A", the first cheaper, listed by
      category "A" with price descending, come back dearer first. */
  lemma CategoryPriceDescScenario(p1: Product, p2: Product)
    requires p1.status == Active && p2.status == Active
    requires p1.category == "A" && p2.category == "A" && p1.price < p2.price
    ensures var q := Query(None, None, Some("A"), Some("desc"), None, None);
      FetchProducts([p1, p2], q) == Success(ProductPage([p2, p1], Pagination(2, 1, 10, 1)))
  {
    var q := Query(None, None, Some("A"), Some("desc"), None, None);
    var w := BuildWhere(q);
    var keys := BuildOrderBy(q);
    assert keys == [Price(Desc)];
    SelectAllMatching([p1, p2], w);
    assert SortBy(keys, [p2]) == [p2];
    assert SortBy(keys, [p1, p2]) == Insert(keys, p1, [p2]) == [p2, p1];
    assert SkipOf(q) == 0;
    assert FindMany([p1, p2], w, 0, 10, keys) == [p2, p1];
    assert CeilDiv(2, 10) == 1;
  }

  /** With no category, no search and no sort key, and every row active, a
      page is the plain slice of the table and the total is the table's size. */
  lemma UnfilteredListingIsTableSlice(rows: seq<Product>, q: Query, skip: nat, take: nat)
    requires forall i :: 0 <= i < |rows| ==> rows[i].status == Active
    requires !Truthy(q.category) && !Truthy(q.search)
    requires !Truthy(q.sortByPrice) && !Truthy(q.sortByCreatedAt)
    ensures FindMany(rows, BuildWhere(q), skip, take, BuildOrderBy(q)) == Slice(rows, skip, take)
    ensures Count(rows, BuildWhere(q)) == |rows|
  {
    SelectAllMatching(rows, BuildWhere(q));
    SortByNoKeys(rows);
    assert BuildOrderBy(q) == [];
  }

  /** Page 2 of size 1 over three active products, with no filter and no sort
      key, holds the second of them, and the listing reports three pages. */
  lemma SecondPageOfOneScenario(rows: seq<Product>, q: Query)
    requires |rows| == 3 && forall i :: 0 <= i < 3 ==> rows[i].status == Active
    requires q == Query(Some(2), Some(1), None, None, None, None)
    ensures FetchProducts(rows, q).Success?
    ensures FetchProducts(rows, q).value.data == [rows[1]]
    ensures FetchProducts(rows, q).value.pagination.totalPages == 3
  {
    assert SkipOf(q) == 1 && LimitOf(q) == 1;
    UnfilteredListingIsTableSlice(rows, q, 1, 1);
    assert Slice(rows, 1, 1) == [rows[1]];
    assert CeilDiv(3, 1) == 3;
  }
}
