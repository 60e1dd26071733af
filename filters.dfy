/** The filter panel: one handler per control, each building a new filter
    record that differs from the current one in a single field, and the rule
    that decides which category button is highlighted. */
module Filters {
  import opened Types
  import ProductGrid

  /** The category buttons, in display order. */
  const Categories: seq<string> := ["All", "Electronics", "Appliances", "Furniture"]

  /** An entry of the sort select: the value stored in the filters and the
      label shown. */
  datatype SortOption = SortOption(value: string, caption: string)

  const SortOptions: seq<SortOption> := [
    SortOption("name", "Name A-Z"),
    SortOption("price-low", "Price: Low to High"),
    SortOption("price-high", "Price: High to Low"),
    SortOption("rating", "Highest Rated")
  ]

  // ---------------------------------------------------------------------
  // Handlers

  /** A category button was pressed: "All" clears the category, any other
      button selects its own category. */
  function HandleCategoryChange(filters: FilterOptions, category: string): (r: FilterOptions)
    ensures category == "All" ==> r.category == ""
    ensures category != "All" ==> r.category == category
    ensures r.priceRange == filters.priceRange && r.inStock == filters.inStock
    ensures r.sortBy == filters.sortBy
  {
    filters.(category := if category == "All" then "" else category)
  }

  /** A new price range was chosen. */
  function HandlePriceRangeChange(filters: FilterOptions, min: real, max: real): (r: FilterOptions)
    ensures r.priceRange.min == min && r.priceRange.max == max
    ensures r.category == filters.category && r.inStock == filters.inStock
    ensures r.sortBy == filters.sortBy
  {
    filters.(priceRange := PriceRange(min, max))
  }

  /** The price slider moved to `value` (the integer `parseInt` reads from
      the range input): the range becomes `[0, value]`. */
  function HandleSliderInput(filters: FilterOptions, value: int): (r: FilterOptions)
    ensures r.priceRange.min == 0.0 && r.priceRange.max == value as real
    ensures r.category == filters.category && r.inStock == filters.inStock
    ensures r.sortBy == filters.sortBy
  {
    HandlePriceRangeChange(filters, 0.0, value as real)
  }

  /** A sort option was selected. */
  function HandleSortChange(filters: FilterOptions, sortBy: string): (r: FilterOptions)
    ensures r.sortBy == sortBy
    ensures r.category == filters.category && r.priceRange == filters.priceRange
    ensures r.inStock == filters.inStock
  {
    filters.(sortBy := sortBy)
  }

  /** The "In stock only" checkbox was clicked. */
  function HandleStockToggle(filters: FilterOptions): (r: FilterOptions)
    ensures r.inStock != filters.inStock
    ensures r.category == filters.category && r.priceRange == filters.priceRange
    ensures r.sortBy == filters.sortBy
  {
    filters.(inStock := !filters.inStock)
  }

  /** Clicking the checkbox twice restores the original filters. */
  lemma StockToggleInvolution(filters: FilterOptions)
    ensures HandleStockToggle(HandleStockToggle(filters)) == filters
  {
  }

  /** Only the last category button pressed matters. */
  lemma CategoryChangeLastWins(filters: FilterOptions, first: string, second: string)
    ensures HandleCategoryChange(HandleCategoryChange(filters, first), second)
         == HandleCategoryChange(filters, second)
  {
  }

  /** When the selected category is one the buttons can produce, pressing
      the highlighted button changes nothing. */
  lemma CategoryChangeSameIsIdentity(filters: FilterOptions, category: string)
    requires category in Categories && IsSelectableCategory(filters.category)
    requires IsActive(filters, category)
    ensures HandleCategoryChange(filters, category) == filters
  {
  }

  /** After the slider moves to `value`, every visible product costs at most
      `value`; products below any lower bound are not excluded. */
  lemma SliderBoundsVisible(products: seq<Product>, filters: FilterOptions, value: int)
    ensures forall p ::
              p in ProductGrid.VisibleProducts(products, HandleSliderInput(filters, value)) ==>
              p.price <= value as real
  {
    ProductGrid.VisibleExact(products, HandleSliderInput(filters, value));
  }

  // ---------------------------------------------------------------------
  // Highlighting

  /** The button of `category` is drawn highlighted: "All" when no category
      is selected, any button whose category is the selected one. */
  predicate IsActive(filters: FilterOptions, category: string) {
    (category == "All" && filters.category == "") || filters.category == category
  }

  /** The categories the handlers can select: empty (for "All") or the
      category of one of the other buttons. */
  predicate IsSelectableCategory(category: string) {
    category == "" || category in Categories[1..]
  }

  /** When the selected category is one the buttons can produce, exactly
      one button is highlighted. */
  lemma ExactlyOneActive(filters: FilterOptions)
    requires IsSelectableCategory(filters.category)
    ensures exists i :: 0 <= i < |Categories| && IsActive(filters, Categories[i])
    ensures forall i, j ::
              (0 <= i < |Categories| && 0 <= j < |Categories| &&
               IsActive(filters, Categories[i]) && IsActive(filters, Categories[j])) ==> i == j
  {
    if filters.category == "" {
      assert IsActive(filters, Categories[0]);
    } else {
      var k :| 1 <= k < |Categories| && Categories[k] == filters.category;
      assert IsActive(filters, Categories[k]);
    }
  }

  /** The button list is "All" followed by three distinct named categories,
      so the initial filters (no category selected) highlight "All" and
      nothing else. */
  lemma InitialHighlightsAll()
    ensures Categories[0] == "All"
    ensures forall i, j :: 0 <= i < j < |Categories| ==> Categories[i] != Categories[j]
    ensures forall i :: 0 <= i < |Categories| ==>
      (IsActive(ProductGrid.InitialFilters, Categories[i]) <==> i == 0)
  {
  }

  /** A selected category that is not empty, not one of the three named
      categories and not the literal "All" highlights no button. */
  lemma NoneActiveOtherwise(filters: FilterOptions)
    requires !IsSelectableCategory(filters.category) && filters.category != "All"
    ensures forall i :: 0 <= i < |Categories| ==> !IsActive(filters, Categories[i])
  {
  }

  /** After a category button is pressed, that button is the highlighted
      one, and no other. */
  lemma CategoryChangeActivates(filters: FilterOptions, i: int)
    requires 0 <= i < |Categories|
    ensures var r := HandleCategoryChange(filters, Categories[i]);
      IsActive(r, Categories[i]) &&
      forall j :: 0 <= j < |Categories| && IsActive(r, Categories[j]) ==> j == i
  {
  }

  // ---------------------------------------------------------------------
  // Sort options

  /** The sort options offer exactly the four keys the comparator handles,
      each once. */
  lemma SortOptionsMatchComparator()
    ensures forall o :: o in SortOptions ==> ProductGrid.IsHandledSortKey(o.value)
    ensures forall k :: ProductGrid.IsHandledSortKey(k) ==>
      exists i :: 0 <= i < |SortOptions| && SortOptions[i].value == k
    ensures forall i, j :: 0 <= i < j < |SortOptions| ==> SortOptions[i].value != SortOptions[j].value
  {
    forall k | ProductGrid.IsHandledSortKey(k)
      ensures exists i :: 0 <= i < |SortOptions| && SortOptions[i].value == k
    {
      if k == "name" { assert SortOptions[0].value == k; }
      else if k == "price-low" { assert SortOptions[1].value == k; }
      else if k == "price-high" { assert SortOptions[2].value == k; }
      else { assert SortOptions[3].value == k; }
    }
  }
}
