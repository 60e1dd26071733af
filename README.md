# Storefront catalog logic in Dafny

This project models the logic of a small React storefront:

- **Catalog query.** The product grid filters the catalog by category, maximum price and "in stock only", then sorts the result by name, by price either way, or by rating. The sort is stable.
- **Featured deals.** The grid picks the products that have an original price and shows the first two.
- **Empty state.** The grid shows a "No products found" panel when the query returns nothing.
- **Filter panel.** Each control of the filter panel builds a new filter record. One rule decides which category button is highlighted.
- **Countdown banner.** It splits the milliseconds left into days, hours, minutes and seconds.
- **Product card.** It decides the badge label and colour, the discount percentage, the low-stock colour, the stock-bar width, the add-to-cart button, the filled rating stars and the "Show more" toggle. It also keeps a small view state: the shown image, the expanded description and the image modal.

Prices, ratings and percentages are exact `real` numbers. Strings are `seq<char>`.

Modules:

- `Types`: the product and filter records.
- `ArrayOps`: JavaScript's `filter`, `slice(0, n)` and stable `sort`. The sort comes with a comparator-consistency predicate, an in-place insertion sort over an array, and proofs of permutation, order and stability.
- `Collation`: the name order.
- `ProductGrid`, `Filters`, `CountdownTimer`, `ProductCard`: one module per component.

The grid's `filtered.sort(...)` reorders a fresh local array in place. `ProductGrid.FilteredAndSortedProducts` does the same: it copies the filter result into a new array and sorts it with `ArrayOps.SortInPlace`. It has no `modifies` clause, so the catalog array cannot change. `SortInPlace` is proved equal to the functional `InsertionSort`, and permutation, order and stability are proved of that function. Stability follows section 23.1.3.30 of ECMA-262, which requires `Array.prototype.sort` to be stable.

The product card's `useState` values form a state machine. `CardState` holds the state, `CardEvent` lists the clicks, and `Offered` says which controls are on screen. The invariant on the image index is proved along any sequence of clicks.

## Model

| member | source | states |
|---|---|---|
| ProductGrid.PassesFiltersIff | ProductGrid.tsx:27-44 | A product passes the filter exactly when the category is empty or matches, its price is at most the upper bound, and either "in stock only" is off or the stock is not 0 |
| ProductGrid.PassesFilters | ProductGrid.tsx:27-44 | The filter callback: the category check, the upper price check and the in-stock check as early returns (characterized by PassesFiltersIff) |
| ProductGrid.LowerBoundIgnored | ProductGrid.tsx:34 | Changing the lower price bound never changes which products pass, even for products priced below it |
| ProductGrid.StockCheck | ProductGrid.tsx:39 | With "in stock only" off, stock never matters; with it on, exactly the products with stock 0 are dropped as well |
| ProductGrid.Compare | ProductGrid.tsx:47-60 | The sort callback: name comparison, price difference either way, rating difference, and 0 for any other key (consistency proved by ComparatorConsistent, ties by TieIffSameSortKey) |
| ProductGrid.Comparator | ProductGrid.tsx:47 | The comparator passed to `sort`, as a function value |
| ProductGrid.VisibleProducts | ProductGrid.tsx:26-63 | `filteredAndSortedProducts`: the filtered catalog, stably sorted by the chosen key (characterized by VisibleExact, VisibleOrdered and VisibleStable) |
| ProductGrid.TieIffSameSortKey | ProductGrid.tsx:47-60 | The comparator returns 0 exactly for products with equal values of the chosen key (every pair for an unhandled key) |
| ProductGrid.ComparatorConsistent | ProductGrid.tsx:47-60 | Each of the grid's comparators is consistent: swapping its arguments flips the sign and "not after" is transitive |
| ProductGrid.FilteredAndSortedProducts | ProductGrid.tsx:26-63 | The array computation of the visible products equals the query function. It returns only catalog products that pass, each as often as in the catalog, sorted, stable per key value, and never more than the catalog; the catalog array is not modified |
| ProductGrid.VisibleExact | ProductGrid.tsx:27-47 | Soundness and completeness: the visible products are exactly the passing catalog products with the catalog's multiplicities, and there are no more of them than catalog products |
| ProductGrid.FilterProducts | ProductGrid.tsx:27-44 | The `products.filter(...)` step: keeps, in catalog order, the products the filter callback accepts (characterized by FilterProductsMultiset and VisibleExact) |
| ProductGrid.FilterProductsMultiset | ProductGrid.tsx:27-44 | The filter step keeps each passing product exactly as often as it occurs in the catalog, and drops every other product |
| ProductGrid.VisibleOrdered | ProductGrid.tsx:47-56 | The visible products are in name order, non-decreasing price, non-increasing price, or non-increasing rating, as chosen |
| ProductGrid.VisibleStable | ProductGrid.tsx:47-60 | Products with equal keys appear in the result in their catalog order |
| ProductGrid.UnhandledKeyKeepsCatalogOrder | ProductGrid.tsx:57-58 | With a sort value the comparator does not handle, the result is the filtered catalog in catalog order |
| ProductGrid.EmptyStateIff | ProductGrid.tsx:129 | The "No products found" panel shows exactly when no catalog product passes the filters |
| ProductGrid.InitialFiltersShow | ProductGrid.tsx:15-20 | The initial filters (the `InitialFilters` constant: no category, prices 0 to 500, out-of-stock shown, by name) admit exactly the products priced up to 500 and sort them by name; a catalog priced within 500 passes whole |
| ProductGrid.HasOriginalPrice | ProductGrid.tsx:69 | Truthiness of `originalPrice`: present and not zero |
| ProductGrid.FeaturedDeals | ProductGrid.tsx:69 | `featuredDeals`: the catalog filtered by a truthy original price (characterized by FeaturedDealsExact) |
| ProductGrid.DisplayedDeals | ProductGrid.tsx:88 | `featuredDeals.slice(0, 2)` (at most two, the first two, by FeaturedDealsExact) |
| ProductGrid.FeaturedDealsExact | ProductGrid.tsx:69 | The featured deals are exactly the catalog products with a truthy original price, with their multiplicities and in catalog order (filtering distributes over concatenation); at most two are displayed and they are the first two |
| ArrayOps.Filter | ProductGrid.tsx:27 | `filter` never returns more elements than it is given |
| ArrayOps.FilterMultiset | ProductGrid.tsx:27 | `filter` keeps every element satisfying the predicate as often as it occurs, and no other element |
| ArrayOps.FilterConcat | ProductGrid.tsx:69 | Filtering a concatenation is the concatenation of the filtered parts, so catalog order is kept |
| ArrayOps.Take | ProductGrid.tsx:88 | `slice(0, n)` returns a prefix of length `min(n, length)` |
| ArrayOps.InsertRight | ProductGrid.tsx:47 | Inserting an element after every element that does not sort after it; the result is one longer than the input |
| ArrayOps.InsertionSort | ProductGrid.tsx:47 | The reference stable sort: each element inserted in turn; the result has the input's length (permutation, order and stability by SortPermutation, SortSorted and SortStable) |
| ArrayOps.FilterAll | ProductGrid.tsx:27 | Filtering with a predicate every element satisfies returns the input unchanged |
| ArrayOps.SortPermutation | ProductGrid.tsx:47 | Sorting returns a permutation of its input |
| ArrayOps.SortSorted | ProductGrid.tsx:47 | With a consistent comparator, sorting returns a sequence with no pair out of order |
| ArrayOps.SortStable | ProductGrid.tsx:47 | With a consistent comparator, the elements tied with any given value keep their relative order |
| ArrayOps.InsertLast | ProductGrid.tsx:47-60 | One step of the in-place sort: inserting the next element into the sorted prefix leaves the array holding the functional insertion of that element, followed by the untouched rest |
| ArrayOps.ShiftRight | ProductGrid.tsx:47-60 | The shifting loop moves the prefix elements that sort after the new element one place right, leaves the rest of the array as it was, and stops at the place where the element belongs |
| ArrayOps.SortAllTies | ProductGrid.tsx:57-58 | A comparator that always returns 0 leaves the sequence unchanged |
| ArrayOps.SortInPlace | ProductGrid.tsx:47-60 | Sorting an array in place leaves it holding the stable insertion sort of its old contents |
| Collation.Compare | ProductGrid.tsx:50 | The name comparison returns -1, 0 or 1 |
| Collation.CompareAntisymmetric | ProductGrid.tsx:50 | Swapping two names negates their comparison |
| Collation.CompareZeroIffEqual | ProductGrid.tsx:50 | Two names compare equal exactly when they are the same string |
| Collation.CompareTransitive | ProductGrid.tsx:50 | The "sorts no later than" relation on names is transitive |
| Filters.HandleCategoryChange | Filters.tsx:21-26 | "All" clears the category and any other button sets exactly its category; the other fields are unchanged |
| Filters.HandlePriceRangeChange | Filters.tsx:28-33 | Sets the range to exactly `[min, max]` and changes nothing else |
| Filters.HandleSliderInput | Filters.tsx:103 | The slider always produces a range with lower bound 0 and upper bound the slider value, and changes nothing else |
| Filters.HandleSortChange | Filters.tsx:35-40 | Sets the sort key and changes nothing else |
| Filters.HandleStockToggle | Filters.tsx:42-47 | Negates "in stock only" and changes nothing else |
| Filters.StockToggleInvolution | Filters.tsx:42-46 | Toggling twice restores the original filters |
| Filters.CategoryChangeLastWins | Filters.tsx:21-26 | Two category presses in a row have the effect of the second alone |
| Filters.CategoryChangeSameIsIdentity | Filters.tsx:83 | When the selected category is empty or one of the three named categories, pressing the highlighted category's button changes nothing (with the literal category "All" selected, pressing "All" resets it to empty) |
| Filters.IsActive | Filters.tsx:83 | The highlight rule: "All" when no category is selected, otherwise the button whose category is selected (properties in ExactlyOneActive, NoneActiveOtherwise, CategoryChangeActivates) |
| Filters.SliderBoundsVisible | Filters.tsx:103 | After the slider moves to a value, no visible product costs more than that value |
| Filters.ExactlyOneActive | Filters.tsx:83 | When the selected category is empty or one of the three named categories, exactly one button is highlighted |
| Filters.NoneActiveOtherwise | Filters.tsx:83 | A selected category that is not empty, not one of the three named categories and not the literal "All" highlights no button (the literal "All" highlights the "All" button) |
| Filters.InitialHighlightsAll | Filters.tsx:13 | The `Categories` list is "All" followed by three distinct named categories, so with no category selected exactly the "All" button is highlighted |
| Filters.CategoryChangeActivates | Filters.tsx:83 | After any category button is pressed, that button and no other is highlighted |
| Filters.SortOptionsMatchComparator | Filters.tsx:14-19 | The `SortOptions` values are exactly the four keys the comparator handles, each once |
| CountdownTimer.CalculateTimeLeft | CountdownTimer.tsx:18-31 | `calculateTimeLeft` on the difference in exact arithmetic: `Math.floor` of the divisions and JavaScript remainders, or all zeros when the difference is not positive (characterized by FieldsAreIntegerDivisions, FieldsInRange, Reconstruction) |
| CountdownTimer.Remainder | CountdownTimer.tsx:24-26 | JavaScript's `%` on a non-negative dividend and positive divisor |
| CountdownTimer.FieldsAreIntegerDivisions | CountdownTimer.tsx:23-26 | For a positive difference, each field equals the integer floor division and remainder of the milliseconds, and of the whole seconds |
| CountdownTimer.DaysField | CountdownTimer.tsx:23 | Days are the milliseconds divided by 86400000, rounded down |
| CountdownTimer.HoursField | CountdownTimer.tsx:24 | Hours are the whole hours modulo 24 |
| CountdownTimer.MinutesField | CountdownTimer.tsx:25 | Minutes are the whole minutes modulo 60 |
| CountdownTimer.SecondsField | CountdownTimer.tsx:26 | Seconds are the whole seconds modulo 60 |
| CountdownTimer.FloorOfRemainder | CountdownTimer.tsx:24-26 | `Math.floor((n / m) % k)` of whole numbers equals the integer `(n / m) % k` |
| CountdownTimer.ExpiredIsZero | CountdownTimer.tsx:10-29 | A difference of zero or less gives all zeros, the same as the initial state `InitialTimeLeft`, which shows zero total seconds |
| CountdownTimer.FieldsInRange | CountdownTimer.tsx:21-29 | Days are non-negative; hours are below 24; minutes and seconds are below 60 |
| CountdownTimer.Reconstruction | CountdownTimer.tsx:23-26 | For a positive difference, the four fields add back up to the whole seconds left |
| CountdownTimer.UnderOneSecondIsZero | CountdownTimer.tsx:21-26 | A positive difference under one second shows all zeros |
| CountdownTimer.TotalSecondsMonotonic | CountdownTimer.tsx:21-29 | More time left never shows fewer total seconds |
| CountdownTimer.FloorOfQuotient | CountdownTimer.tsx:23 | `Math.floor(n / m)` of whole numbers is integer division, and the dropped fraction lies in [0, 1) |
| ProductCard.BadgeStyles | ProductCard.tsx:22-33 | A badge gets a colour other than the slate default exactly when it is one of the three known badges |
| ProductCard.BadgeText | ProductCard.tsx:35-46 | A badge gets a non-empty label exactly when it is one of the three known badges |
| ProductCard.BadgesDistinguished | ProductCard.tsx:22-46 | Distinct known badges get distinct labels and distinct colours |
| ProductCard.ShowsBadge | ProductCard.tsx:63 | The badge is rendered when `product.badge` is truthy: present and non-empty |
| ProductCard.UnknownBadgeRendersEmpty | ProductCard.tsx:63-67 | A rendered badge the card does not know shows no text and the slate default colour |
| ProductCard.Round | ProductCard.tsx:72 | `Math.round` returns the integer within half of its argument, rounding halves up |
| ProductCard.DiscountPercent | ProductCard.tsx:72 | The discount badge's `Math.round((originalPrice - price) / originalPrice * 100)` for a truthy original price (range and monotonicity by DiscountInRange) |
| ProductCard.DiscountInRange | ProductCard.tsx:70-74 | A price between 0 and the original price shows a discount between 0 and 100 percent; a higher price never shows a larger discount |
| ProductCard.StockPercentage | ProductCard.tsx:48 | The percentage is a number exactly when `maxStock` is not zero; it is `NaN` exactly when both stock and `maxStock` are zero, and `Infinity` or `-Infinity` by the sign of the stock when only `maxStock` is zero |
| ProductCard.IsLowStock | ProductCard.tsx:49 | `stockPercentage < 30`: true for `-Infinity`, false for `NaN` and `Infinity` (characterized by LowStockIff) |
| ProductCard.LowStockIff | ProductCard.tsx:48-49 | For a positive maximum, stock is low exactly when `100 * stock < 30 * maxStock`; for a negative maximum, exactly when `100 * stock > 30 * maxStock`; for a zero maximum, exactly when the stock is negative |
| ProductCard.BarWidth | ProductCard.tsx:158 | The bar width is the larger of the percentage and 5, so never below 5 for a finite percentage; 5 for `-Infinity`; `NaN` exactly when the percentage is `NaN` and `Infinity` exactly when it is `Infinity` |
| ProductCard.BarWidthAtMostFull | ProductCard.tsx:158 | With stock at most a positive maximum, the bar width is at most 100 |
| ProductCard.AddToCartDisabled | ProductCard.tsx:178 | The button's `disabled` attribute: stock is 0 |
| ProductCard.AddToCartLabel | ProductCard.tsx:186 | The button's label: "Out of Stock" at stock 0, "Add to Cart" otherwise |
| ProductCard.AddToCartStyle | ProductCard.tsx:180-182 | The button's colour classes: greyed out with a not-allowed cursor at stock 0, blue otherwise (characterized by DisabledIffOutOfStock) |
| ProductCard.DisabledIffOutOfStock | ProductCard.tsx:178-186 | The `disabled` attribute, the label and the classes agree: the button is disabled exactly when it reads "Out of Stock", and exactly when it is drawn greyed out |
| ProductCard.InStockFilterHidesDisabled | ProductCard.tsx:178 | With "in stock only" on, no product that passes the filter has a disabled button |
| ProductCard.StarFilled | ProductCard.tsx:116 | Star `i` is filled when `i < Math.floor(rating)` |
| ProductCard.Stars | ProductCard.tsx:112-121 | The five stars, filled or not (count by FilledStarCount) |
| ProductCard.CountFilledPrefix | ProductCard.tsx:116 | Of the first `n` stars, the number filled under the test `i < k` is `k` clamped to `[0, n]` |
| ProductCard.FilledStarCount | ProductCard.tsx:112-121 | The card fills `floor(rating)` of the five stars, clamped to `[0, 5]`; for a non-negative rating that is `min(5, floor(rating))` |
| ProductCard.ShowsMoreToggle | ProductCard.tsx:136 | The toggle is rendered when the description is longer than 100 characters |
| ProductCard.DescriptionClamped | ProductCard.tsx:132 | The description is clamped to two lines unless expanded |
| ProductCard.ToggleCaption | ProductCard.tsx:141 | "Show less" while expanded, "Show more" otherwise |
| ProductCard.ToggleDescriptionFlips | ProductCard.tsx:132-143 | Each toggle click flips both the two-line clamp and the "Show more"/"Show less" caption; two clicks restore the state |
| ProductCard.Offered | ProductCard.tsx:80-195 | The clicks the card offers: the eye button, a dot per image when there are several, the toggle for long descriptions, the modal backdrop while open, and an enabled add-to-cart button |
| ProductCard.Step | ProductCard.tsx:80-195 | The state after each click: the setters at :80, :97, :138 and :195; adding to the cart leaves the card state as it is |
| ProductCard.StepPreservesInvariant | ProductCard.tsx:12-14 | The initial state `InitialCardState` has image index 0, and every offered click keeps the index 0 or valid and the description expanded only when it has a toggle |
| ProductCard.RunPreservesInvariant | ProductCard.tsx:94-97 | Along any sequence of offered clicks the image index stays 0 or an index of the images, and the description is expanded only when it is longer than 100 characters |
| ProductCard.ExactlyOneDotActive | ProductCard.tsx:92-104 | When the dots are shown, exactly one dot gets the full-white class `bg-white`, and after clicking a dot that dot and no other gets it |
| ProductCard.DotClass | ProductCard.tsx:98-100 | The dot's colour class: `bg-white` at the current index, `bg-white/50` elsewhere (characterized by ExactlyOneDotActive) |
| ProductCard.DisplayedImage | ProductCard.tsx:57 | Under the invariant, a product with images always shows the image at the current index |

## Left out

- The cart and the toast queue (`addToCart`, `onAddToCart`, `addToast`) are not modelled. `CartContext` and `useToast` are not part of this model, and adding to the cart leaves the card's own state unchanged.
- Header, Banner, App and Toast are not modelled. They hold scroll listeners, navigation, layout and timer-driven toasts, and none of them affects the catalog logic.
- The countdown's clock and refresh loop (`new Date()`, `setInterval`, `clearInterval`, the sale end seven days ahead) are not modelled. `difference` is a parameter holding the whole milliseconds left.
- IEEE floating point is not modelled. Prices, ratings, percentages and divisions are exact reals, so rounding at the 30 percent boundary and in the discount ratio is not captured. `toFixed(2)` price formatting is left out.
- Collation.Compare: `localeCompare` depends on the host's locale. The model uses lexicographic order on character codes instead, which is one consistent total order.
- JavaScript `length` counts UTF-16 code units. The model's `|description|` counts elements of the `seq<char>`.
- `useMemo` caching is not modelled. The visible products are a plain function of the catalog and the filters.
- Opening and closing the filter panel (`isOpen`, `onToggle`) is not modelled. It is a visibility flag with no effect on the filters.
- Which sort algorithm the host uses is not modelled. Insertion sort is used as the reference because ECMA-262 fixes the result of a stable sort under a consistent comparator. The proofs cover consistent comparators, and all of the grid's comparators are proved consistent.
- ProductCard.StockPercentage: the source does not guard `maxStock == 0`. The model follows the code: the percentage is `NaN` when stock is also 0, and `Infinity` or `-Infinity` by the sign of the stock otherwise.
- Stock counts: `stock` and `maxStock` in `Types.Product` are whole numbers of either sign, as nothing in the storefront rules out a negative count; fractional counts, which a JavaScript number would also admit, are not modelled.
- ProductGrid.HasOriginalPrice: JavaScript truthiness of `originalPrice` is modelled as present and non-zero. `NaN` does not arise with exact reals.
