/**
 The list logic of the inventory page: the stock status of a product, the
 search filter (name, category, status), the page window shown in the table,
 and removal of a deleted product from a list.
 */
module Inventory {
  import opened JsArray
  import opened AsciiText

  datatype Option<T> = None | Some(value: T)

  /** A product record as the page holds it. The unit price is the text that
      `toFixed(2)` produced and is only displayed. */
  datatype Product = Product(
    id: string,
    productName: string,
    availableCount: int,
    lowStockCount: int,
    unitPrice: string,
    categories: seq<string>)

  datatype Status = OutOfStock | LowStock | InStock

  /** The text the page shows for a status, which is also the value the
      status selector holds when it picks that status. */
  function Label(s: Status): (t: string)
    ensures t != AllLabel
  {
    match s
    case OutOfStock => "Out of Stock"
    case LowStock => "Low Stock"
    case InStock => "In Stock"
  }

  /** The selector value that disables the status test. */
  const AllLabel: string := "All"

  /** `getStatus`: an empty stock is out of stock whatever the threshold;
      otherwise a count strictly below the threshold is low; anything else is in stock. */
  function GetStatus(availableCount: int, lowStockCount: int): (s: Status)
    ensures s == OutOfStock <==> availableCount == 0
    ensures s == LowStock <==> availableCount != 0 && availableCount < lowStockCount
    ensures s == InStock <==> availableCount != 0 && availableCount >= lowStockCount
  {
    if availableCount == 0 then OutOfStock
    else if availableCount < lowStockCount then LowStock
    else InStock
  }

  function StatusOf(p: Product): Status
  {
    GetStatus(p.availableCount, p.lowStockCount)
  }

  predicate MatchesName(p: Product, searchName: string)
  {
    MatchesIgnoringCase(p.productName, searchName)
  }

  predicate MatchesCategory(p: Product, searchCategory: string)
  {
    Any(p.categories, (c: string) => MatchesIgnoringCase(c, searchCategory))
  }

  predicate MatchesStatus(p: Product, status: string)
  {
    status == AllLabel || Label(StatusOf(p)) == status
  }

  /** The predicate of the search effect: all three tests hold. */
  predicate Matches(p: Product, searchName: string, searchCategory: string, status: string)
  {
    MatchesName(p, searchName) && MatchesCategory(p, searchCategory) && MatchesStatus(p, status)
  }

  /** The list the search effect stores as the filtered products. */
  function FilterProducts(products: seq<Product>, searchName: string, searchCategory: string, status: string): (r: seq<Product>)
    ensures forall p :: p in r ==> Matches(p, searchName, searchCategory, status)
  {
    Filter(products, (p: Product) => Matches(p, searchName, searchCategory, status))
  }

  /** The rows of page `page` (counted from 0) when each page holds `rowsPerPage` rows:
      `products.slice(page * rowsPerPage, page * rowsPerPage + rowsPerPage)`. */
  function PageWindow(products: seq<Product>, page: nat, rowsPerPage: nat): (r: seq<Product>)
    ensures |r| <= rowsPerPage
    ensures page * rowsPerPage >= |products| ==> r == []
    ensures page * rowsPerPage < |products| ==> |r| == Min(rowsPerPage, |products| - page * rowsPerPage)
    ensures forall k :: 0 <= k < |r| ==> r[k] == products[page * rowsPerPage + k]
  {
    Slice(products, page * rowsPerPage, page * rowsPerPage + rowsPerPage)
  }

  /** `products.filter((product) => product._id !== productToDelete)`; a pending
      id of `null` matches no product, so nothing is removed. */
  function RemoveId(products: seq<Product>, productToDelete: Option<string>): (r: seq<Product>)
    ensures |r| <= |products|
  {
    Filter(products, (p: Product) => Some(p.id) != productToDelete)
  }

  // ---------------------------------------------------------------------------
  // Stock status

  /** The three labels differ, so a label names exactly one status. */
  lemma LabelsDistinct(s: Status, s': Status)
    ensures Label(s) == Label(s') ==> s == s'
  {
  }

  // ---------------------------------------------------------------------------
  // The search filter

  /** The filtered list is an order-preserving subsequence of the products, it
      holds exactly the products that pass all three tests, and each of them as
      often as it occurs in the products. */
  lemma FilterProductsSpec(products: seq<Product>, searchName: string, searchCategory: string, status: string)
    ensures SubseqOf(FilterProducts(products, searchName, searchCategory, status), products)
    ensures forall p ::
              p in FilterProducts(products, searchName, searchCategory, status) <==>
              p in products && Matches(p, searchName, searchCategory, status)
    ensures forall p ::
              multiset(FilterProducts(products, searchName, searchCategory, status))[p] ==
              if Matches(p, searchName, searchCategory, status) then multiset(products)[p] else 0
  {
    var keep := (p: Product) => Matches(p, searchName, searchCategory, status);
    FilterSubseq(products, keep);
    forall p ensures p in Filter(products, keep) <==> p in products && keep(p) {
      FilterMembers(products, keep, p);
    }
    forall p ensures multiset(Filter(products, keep))[p] == if keep(p) then multiset(products)[p] else 0 {
      FilterCount(products, keep, p);
    }
  }

  /** An empty category query matches exactly the products with at least one
      category; a product without categories fails the category test for every query. */
  lemma CategoryMatchNeedsACategory(p: Product, searchCategory: string)
    ensures MatchesCategory(p, "") <==> |p.categories| > 0
    ensures p.categories == [] ==> !MatchesCategory(p, searchCategory)
  {
  }

  /** So a product without categories never reaches the filtered list. */
  lemma UncategorisedNeverListed(products: seq<Product>, p: Product, searchName: string, searchCategory: string, status: string)
    requires p.categories == []
    ensures p !in FilterProducts(products, searchName, searchCategory, status)
  {
  }

  /** The category test only sees the query through its lowered form. */
  lemma SameLoweredQuerySameCategoryMatch(p: Product, q1: string, q2: string)
    requires LowerStr(q1) == LowerStr(q2)
    ensures MatchesCategory(p, q1) == MatchesCategory(p, q2)
  {
  }

  /** The filtered list sees the name and category queries only through their
      lower-case forms: changing the case of either query, alone or together and
      to any mix of capitals, leaves the list as it was. */
  lemma FilterDependsOnLoweredQueries(products: seq<Product>, name1: string, name2: string,
                                      category1: string, category2: string, status: string)
    requires LowerStr(name1) == LowerStr(name2)
    requires LowerStr(category1) == LowerStr(category2)
    ensures FilterProducts(products, name1, category1, status) == FilterProducts(products, name2, category2, status)
  {
    forall p: Product ensures MatchesCategory(p, category1) == MatchesCategory(p, category2) {
      SameLoweredQuerySameCategoryMatch(p, category1, category2);
    }
    FilterCongruent(products,
      (p: Product) => Matches(p, name1, category1, status),
      (p: Product) => Matches(p, name2, category2, status));
  }

  /** Upper-casing or lower-casing the whole name query, the whole category
      query, or both, leaves the filtered list as it was. */
  lemma FilterIgnoresQueryCase(products: seq<Product>, searchName: string, searchCategory: string, status: string)
    ensures FilterProducts(products, UpperStr(searchName), searchCategory, status) ==
            FilterProducts(products, searchName, searchCategory, status)
    ensures FilterProducts(products, searchName, UpperStr(searchCategory), status) ==
            FilterProducts(products, searchName, searchCategory, status)
    ensures FilterProducts(products, UpperStr(searchName), UpperStr(searchCategory), status) ==
            FilterProducts(products, searchName, searchCategory, status)
    ensures FilterProducts(products, LowerStr(searchName), LowerStr(searchCategory), status) ==
            FilterProducts(products, searchName, searchCategory, status)
  {
    LowerOfUpperStr(searchName);
    LowerOfUpperStr(searchCategory);
    LowerStrIdempotent(searchName);
    LowerStrIdempotent(searchCategory);
    FilterDependsOnLoweredQueries(products, UpperStr(searchName), searchName, searchCategory, searchCategory, status);
    FilterDependsOnLoweredQueries(products, searchName, searchName, UpperStr(searchCategory), searchCategory, status);
    FilterDependsOnLoweredQueries(products, UpperStr(searchName), searchName, UpperStr(searchCategory), searchCategory, status);
    FilterDependsOnLoweredQueries(products, LowerStr(searchName), searchName, LowerStr(searchCategory), searchCategory, status);
  }

  /** With the selector on "All" the status test is always passed: the result
      is the list filtered by name and category alone. */
  lemma StatusAllKeepsEveryStatus(products: seq<Product>, searchName: string, searchCategory: string)
    ensures FilterProducts(products, searchName, searchCategory, AllLabel) ==
      Filter(products, (p: Product) => MatchesName(p, searchName) && MatchesCategory(p, searchCategory))
  {
    FilterCongruent(products,
      (p: Product) => Matches(p, searchName, searchCategory, AllLabel),
      (p: Product) => MatchesName(p, searchName) && MatchesCategory(p, searchCategory));
  }

  /** A selector value that is neither "All" nor one of the three labels lets nothing through. */
  lemma UnknownStatusListsNothing(products: seq<Product>, searchName: string, searchCategory: string, status: string)
    requires status != AllLabel
    requires forall s :: Label(s) != status
    ensures FilterProducts(products, searchName, searchCategory, status) == []
  {
    FilterDropsAll(products, (p: Product) => Matches(p, searchName, searchCategory, status));
  }

  /** Selecting each status in turn splits the "All" result: every listed product
      appears under exactly one status. */
  lemma {:induction false} StatusFiltersPartition(products: seq<Product>, searchName: string, searchCategory: string)
    ensures |FilterProducts(products, searchName, searchCategory, Label(OutOfStock))|
          + |FilterProducts(products, searchName, searchCategory, Label(LowStock))|
          + |FilterProducts(products, searchName, searchCategory, Label(InStock))|
         == |FilterProducts(products, searchName, searchCategory, AllLabel)|
  {
    if products != [] {
      StatusFiltersPartition(products[1..], searchName, searchCategory);
    }
  }

  // ---------------------------------------------------------------------------
  // Pagination

  /** The pages of `products`, from page 0 up to but not including page `n`, one after the other. */
  function FirstPages(products: seq<Product>, rowsPerPage: nat, n: nat): seq<Product>
  {
    if n == 0 then [] else FirstPages(products, rowsPerPage, n - 1) + PageWindow(products, n - 1, rowsPerPage)
  }

  /** Paging forward from page 0 shows every product once, in list order: the
      first `n` pages together are the first `n * rowsPerPage` products. */
  lemma {:induction false} PagesCoverList(products: seq<Product>, rowsPerPage: nat, n: nat)
    ensures FirstPages(products, rowsPerPage, n) == products[..Min(n * rowsPerPage, |products|)]
  {
    if n > 0 {
      PagesCoverList(products, rowsPerPage, n - 1);
      var start := (n - 1) * rowsPerPage;
      NextPageStart(n, rowsPerPage);
      WindowIsSegment(products, n - 1, rowsPerPage);
      PrefixThenSegment(products, start, start + rowsPerPage);
    }
  }

  lemma PrefixThenSegment(products: seq<Product>, a: nat, b: nat)
    requires a <= b
    ensures products[..Min(a, |products|)] + products[Min(a, |products|)..Min(b, |products|)] == products[..Min(b, |products|)]
  {
  }

  lemma NextPageStart(n: nat, rowsPerPage: nat)
    requires n > 0
    ensures (n - 1) * rowsPerPage + rowsPerPage == n * rowsPerPage
  {
  }

  lemma WindowIsSegment(products: seq<Product>, page: nat, rowsPerPage: nat)
    ensures var start := page * rowsPerPage;
      PageWindow(products, page, rowsPerPage) == products[Min(start, |products|)..Min(start + rowsPerPage, |products|)]
  {
  }

  /** The page window is one contiguous run of the list, so it is a subsequence of it. */
  lemma PageWindowIsSubseq(products: seq<Product>, page: nat, rowsPerPage: nat)
    ensures SubseqOf(PageWindow(products, page, rowsPerPage), products)
  {
    var start := page * rowsPerPage;
    assert PageWindow(products, page, rowsPerPage) == Slice(products, start, start + rowsPerPage);
    SliceSubseq(products, start, start + rowsPerPage);
  }

  // ---------------------------------------------------------------------------
  // Deletion

  /** After deleting `id`, no product with that id is left; every other product
      stays, as often as before and in the same order. */
  lemma RemoveIdSpec(products: seq<Product>, id: string)
    ensures SubseqOf(RemoveId(products, Some(id)), products)
    ensures forall p :: p in RemoveId(products, Some(id)) ==> p.id != id
    ensures forall p: Product :: p.id != id ==> multiset(RemoveId(products, Some(id)))[p] == multiset(products)[p]
  {
    var keep := (p: Product) => Some(p.id) != Some(id);
    FilterSubseq(products, keep);
    forall p: Product | p.id != id ensures multiset(Filter(products, keep))[p] == multiset(products)[p] {
      FilterCount(products, keep, p);
    }
  }

  /** Deleting an id that no product carries, or with no id pending, changes nothing. */
  lemma RemoveAbsentId(products: seq<Product>, productToDelete: Option<string>)
    requires forall i :: 0 <= i < |products| ==> Some(products[i].id) != productToDelete
    ensures RemoveId(products, productToDelete) == products
  {
    FilterKeepsAll(products, (p: Product) => Some(p.id) != productToDelete);
  }

  /** Deleting the same id twice is deleting it once. */
  lemma RemoveIdIdempotent(products: seq<Product>, productToDelete: Option<string>)
    ensures RemoveId(RemoveId(products, productToDelete), productToDelete) == RemoveId(products, productToDelete)
  {
    FilterIdempotent(products, (p: Product) => Some(p.id) != productToDelete);
  }

  /** A list that is a subsequence of another stays one after both lose the same id. */
  lemma RemoveIdKeepsSubseq(a: seq<Product>, b: seq<Product>, productToDelete: Option<string>)
    requires SubseqOf(a, b)
    ensures SubseqOf(RemoveId(a, productToDelete), RemoveId(b, productToDelete))
  {
    FilterMonotone(a, b, (p: Product) => Some(p.id) != productToDelete);
  }
}
