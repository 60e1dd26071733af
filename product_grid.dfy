/** The product grid: the catalog query (filter, then stable sort), the
    featured-deals list and the empty-state decision. */
module ProductGrid {
  import opened Types
  import opened ArrayOps
  import Collation

  /** The filter state the grid starts with: every category, prices up to
      500, out-of-stock products shown, sorted by name. */
  const InitialFilters := FilterOptions("", PriceRange(0.0, 500.0), false, "name")

  // ---------------------------------------------------------------------
  // Filtering

  /** The predicate the grid passes to `products.filter`: the category
      check (an empty category is falsy and matches everything), the upper
      price bound, and the in-stock check, in that order. */
  predicate PassesFilters(filters: FilterOptions, product: Product) {
    if filters.category != "" && product.category != filters.category then false
    else if product.price > filters.priceRange.max then false
    else if filters.inStock && product.stock == 0 then false
    else true
  }

  /** The three checks, stated as one conjunction. */
  lemma PassesFiltersIff(filters: FilterOptions, product: Product)
    ensures PassesFilters(filters, product) <==>
      && (filters.category == "" || product.category == filters.category)
      && product.price <= filters.priceRange.max
      && (!filters.inStock || product.stock != 0)
  {
  }

  /** Only the upper price bound is checked: changing the lower bound never
      changes which products pass, even for products priced below it. */
  lemma LowerBoundIgnored(filters: FilterOptions, product: Product, min: real)
    ensures PassesFilters(filters.(priceRange := PriceRange(min, filters.priceRange.max)), product)
        == PassesFilters(filters, product)
  {
  }

  /** With "in stock only" off, stock never excludes a product; with it on,
      exactly the products with no stock are dropped as well. */
  lemma StockCheck(filters: FilterOptions, product: Product)
    ensures PassesFilters(filters.(inStock := false), product)
        == PassesFilters(filters.(inStock := false), product.(stock := 0))
    ensures PassesFilters(filters.(inStock := true), product)
        == (PassesFilters(filters.(inStock := false), product) && product.stock != 0)
  {
  }

  /** The catalog products that pass the filters, in catalog order. */
  function FilterProducts(products: seq<Product>, filters: FilterOptions): seq<Product> {
    Filter(products, p => PassesFilters(filters, p))
  }

  // ---------------------------------------------------------------------
  // Sorting

  /** The comparator the grid passes to `sort`, one case per sort option;
      any other value compares everything as equal. */
  function Compare(sortBy: string, a: Product, b: Product): real {
    if sortBy == "name" then Collation.Compare(a.name, b.name) as real
    else if sortBy == "price-low" then a.price - b.price
    else if sortBy == "price-high" then b.price - a.price
    else if sortBy == "rating" then b.rating - a.rating
    else 0.0
  }

  function Comparator(sortBy: string): (Product, Product) -> real {
    (a, b) => Compare(sortBy, a, b)
  }

  /** The sort keys the comparator distinguishes. */
  predicate IsHandledSortKey(sortBy: string) {
    sortBy in {"name", "price-low", "price-high", "rating"}
  }

  /** Two products that have the same value of the chosen sort key; for an
      unhandled key, every two products. */
  predicate SameSortKey(sortBy: string, a: Product, b: Product) {
    if sortBy == "name" then a.name == b.name
    else if sortBy == "price-low" || sortBy == "price-high" then a.price == b.price
    else if sortBy == "rating" then a.rating == b.rating
    else true
  }

  /** The comparator reports a tie exactly for products with the same key. */
  lemma TieIffSameSortKey(sortBy: string, a: Product, b: Product)
    ensures Tie(Comparator(sortBy), a, b) <==> SameSortKey(sortBy, a, b)
  {
    Collation.CompareZeroIffEqual(a.name, b.name);
  }

  /** Every one of the grid's comparators is consistent, so `sort` is
      well defined on it. */
  lemma ComparatorConsistent(sortBy: string)
    ensures Consistent(Comparator(sortBy))
  {
    var cmp := Comparator(sortBy);
    forall a, b ensures cmp(a, b) > 0.0 <==> cmp(b, a) < 0.0 {
      Collation.CompareAntisymmetric(a.name, b.name);
    }
    forall a, b, c | Le(cmp, a, b) && Le(cmp, b, c) ensures Le(cmp, a, c) {
      if sortBy == "name" {
        Collation.CompareTransitive(a.name, b.name, c.name);
      }
    }
  }

  // ---------------------------------------------------------------------
  // The query

  /** The memoized `filteredAndSortedProducts`: filter, then stable sort. */
  function VisibleProducts(products: seq<Product>, filters: FilterOptions): seq<Product> {
    InsertionSort(Comparator(filters.sortBy), FilterProducts(products, filters))
  }

  /** Computes the visible products from the catalog array: the filter
      result is copied into a fresh array and only that array is sorted, so
      the catalog array is left as it was (the method may not modify it). */
  method FilteredAndSortedProducts(products: array<Product>, filters: FilterOptions)
    returns (visible: seq<Product>)
    ensures visible == VisibleProducts(products[..], filters)
    ensures forall p :: p in visible ==> p in products[..] && PassesFilters(filters, p)
    ensures forall p ::
              multiset(visible)[p] == (if PassesFilters(filters, p) then multiset(products[..])[p] else 0)
    ensures Sorted(Comparator(filters.sortBy), visible)
    ensures forall p ::
              WithSameKey(filters.sortBy, visible, p) == WithSameKey(filters.sortBy, FilterProducts(products[..], filters), p)
    ensures |visible| <= products.Length
  {
    var filtered := FilterProducts(products[..], filters);
    var a := new Product[|filtered|](i requires 0 <= i < |filtered| => filtered[i]);
    assert a[..] == filtered;
    SortInPlace(a, Comparator(filters.sortBy));
    visible := a[..];
    VisibleExact(products[..], filters);
    VisibleOrdered(products[..], filters);
    forall p ensures WithSameKey(filters.sortBy, visible, p)
      == WithSameKey(filters.sortBy, FilterProducts(products[..], filters), p)
    {
      VisibleStable(products[..], filters, p);
    }
  }

  /** Soundness and completeness: the visible products are exactly the
      catalog products passing the filters, each as often as in the catalog. */
  lemma VisibleExact(products: seq<Product>, filters: FilterOptions)
    ensures forall p :: p in VisibleProducts(products, filters) ==>
      p in products && PassesFilters(filters, p)
    ensures forall p ::
              multiset(VisibleProducts(products, filters))[p] == (if PassesFilters(filters, p) then multiset(products)[p] else 0)
    ensures |VisibleProducts(products, filters)| <= |products|
  {
    var v := VisibleProducts(products, filters);
    var filtered := FilterProducts(products, filters);
    SortPermutation(Comparator(filters.sortBy), filtered);
    assert multiset(v) == multiset(filtered);
    FilterProductsMultiset(products, filters);
    forall p | p in v
      ensures p in products && PassesFilters(filters, p)
    {
      assert multiset(v)[p] > 0;
      assert multiset(filtered)[p] > 0;
    }
  }

  /** The filter step alone keeps each passing product as often as it
      occurs in the catalog, and nothing else. */
  lemma FilterProductsMultiset(products: seq<Product>, filters: FilterOptions)
    ensures forall p ::
              multiset(FilterProducts(products, filters))[p] == (if PassesFilters(filters, p) then multiset(products)[p] else 0)
  {
    FilterMultiset(products, p => PassesFilters(filters, p));
  }

  /** The visible products are ordered by the chosen key. */
  lemma VisibleOrdered(products: seq<Product>, filters: FilterOptions)
    ensures Sorted(Comparator(filters.sortBy), VisibleProducts(products, filters))
    ensures var r := VisibleProducts(products, filters);
      forall i, j :: 0 <= i < j < |r| ==>
        && (filters.sortBy == "name" ==> Collation.NotAfter(r[i].name, r[j].name))
        && (filters.sortBy == "price-low" ==> r[i].price <= r[j].price)
        && (filters.sortBy == "price-high" ==> r[i].price >= r[j].price)
        && (filters.sortBy == "rating" ==> r[i].rating >= r[j].rating)
  {
    ComparatorConsistent(filters.sortBy);
    SortSorted(Comparator(filters.sortBy), FilterProducts(products, filters));
    var r := VisibleProducts(products, filters);
    forall i, j | 0 <= i < j < |r|
      ensures filters.sortBy == "name" ==> Collation.NotAfter(r[i].name, r[j].name)
    {
      assert Le(Comparator(filters.sortBy), r[i], r[j]);
    }
  }

  /** The products of `s` with the same sort key as `p`, in their order in
      `s`. */
  function WithSameKey(sortBy: string, s: seq<Product>, p: Product): seq<Product> {
    Filter(s, x => SameSortKey(sortBy, x, p))
  }

  /** Stability: for every key value, the products with that key appear in
      the result in the order they have in the catalog. */
  lemma VisibleStable(products: seq<Product>, filters: FilterOptions, p: Product)
    ensures WithSameKey(filters.sortBy, VisibleProducts(products, filters), p)
         == WithSameKey(filters.sortBy, FilterProducts(products, filters), p)
  {
    var sortBy := filters.sortBy;
    var cmp := Comparator(sortBy);
    var filtered := FilterProducts(products, filters);
    var sorted := VisibleProducts(products, filters);
    ComparatorConsistent(sortBy);
    SortStable(cmp, filtered);
    assert TiesOf(cmp, sorted, p) == TiesOf(cmp, filtered, p);
    forall x ensures Tie(cmp, x, p) == SameSortKey(sortBy, x, p) {
      TieIffSameSortKey(sortBy, x, p);
    }
    FilterCongruent(sorted, x => Tie(cmp, x, p), x => SameSortKey(sortBy, x, p));
    FilterCongruent(filtered, x => Tie(cmp, x, p), x => SameSortKey(sortBy, x, p));
  }

  /** With a sort value the comparator does not handle, the visible products
      keep their catalog order. */
  lemma UnhandledKeyKeepsCatalogOrder(products: seq<Product>, filters: FilterOptions)
    requires !IsHandledSortKey(filters.sortBy)
    ensures VisibleProducts(products, filters) == FilterProducts(products, filters)
  {
    SortAllTies(Comparator(filters.sortBy), FilterProducts(products, filters));
  }

  /** The "No products found" panel is shown exactly when no catalog product
      passes the filters. */
  lemma EmptyStateIff(products: seq<Product>, filters: FilterOptions)
    ensures |VisibleProducts(products, filters)| == 0 <==>
      forall p :: p in products ==> !PassesFilters(filters, p)
  {
    VisibleExact(products, filters);
    if exists p :: p in products && PassesFilters(filters, p) {
      var p :| p in products && PassesFilters(filters, p);
      assert multiset(VisibleProducts(products, filters))[p] > 0;
    }
  }

  /** With the initial filters the grid shows every product priced up to
      500, in name order; a catalog priced within 500 passes whole. */
  lemma InitialFiltersShow(products: seq<Product>)
    ensures forall p :: PassesFilters(InitialFilters, p) <==> p.price <= 500.0
    ensures var r := VisibleProducts(products, InitialFilters);
      forall i, j :: 0 <= i < j < |r| ==> Collation.NotAfter(r[i].name, r[j].name)
    ensures (forall p :: p in products ==> p.price <= 500.0) ==>
      FilterProducts(products, InitialFilters) == products
  {
    VisibleOrdered(products, InitialFilters);
    if forall p :: p in products ==> p.price <= 500.0 {
      FilterAll(products, p => PassesFilters(InitialFilters, p));
    }
  }

  // ---------------------------------------------------------------------
  // Featured deals

  /** A product is a deal when its `originalPrice` is truthy: present and
      not zero. */
  predicate HasOriginalPrice(product: Product) {
    product.originalPrice.Some? && product.originalPrice.value != 0.0
  }

  /** `featuredDeals`: the catalog products with an original price. */
  function FeaturedDeals(products: seq<Product>): seq<Product> {
    Filter(products, HasOriginalPrice)
  }

  /** The deals shown in the featured section: `featuredDeals.slice(0, 2)`. */
  function DisplayedDeals(products: seq<Product>): seq<Product> {
    Take(FeaturedDeals(products), 2)
  }

  /** The featured deals are exactly the catalog products with an original
      price, each as often as in the catalog, in catalog order; at most two
      are displayed, and they are the first two. */
  lemma FeaturedDealsExact(products: seq<Product>, more: seq<Product>)
    ensures forall p ::
              multiset(FeaturedDeals(products))[p] == (if HasOriginalPrice(p) then multiset(products)[p] else 0)
    ensures FeaturedDeals(products + more) == FeaturedDeals(products) + FeaturedDeals(more)
    ensures |DisplayedDeals(products)| <= 2
    ensures DisplayedDeals(products) <= FeaturedDeals(products)
    ensures forall p :: p in DisplayedDeals(products) ==> p in products && HasOriginalPrice(p)
  {
    FilterMultiset(products, HasOriginalPrice);
    FilterConcat(products, more, HasOriginalPrice);
    FilterSound(products, HasOriginalPrice);
  }
}
