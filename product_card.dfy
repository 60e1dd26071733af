/** The product card: the display decisions it derives from a product
    (badge, stock bar, rating stars, add-to-cart button, description toggle)
    and its local view state (shown image, expanded description, image
    modal). */
module ProductCard {
  import opened Types
  import ProductGrid

  // ---------------------------------------------------------------------
  // Badge

  /** The product's badge is rendered when it is present and non-empty. */
  predicate ShowsBadge(product: Product) {
    product.badge.Some? && product.badge.value != ""
  }

  /** The badges the card knows a label and a colour for. */
  predicate IsKnownBadge(badge: string) {
    badge == "bestseller" || badge == "low-stock" || badge == "new-arrival"
  }

  const DefaultBadgeStyle := "bg-slate-500 text-white"

  /** The CSS classes of the badge: one colour per known badge, slate for
      anything else. */
  function BadgeStyles(badge: string): (style: string)
    ensures style != DefaultBadgeStyle <==> IsKnownBadge(badge)
  {
    if badge == "bestseller" then "bg-green-500 text-white"
    else if badge == "low-stock" then "bg-orange-500 text-white"
    else if badge == "new-arrival" then "bg-blue-500 text-white"
    else DefaultBadgeStyle
  }

  /** The text of the badge: a fixed label per known badge, empty for
      anything else. */
  function BadgeText(badge: string): (text: string)
    ensures text != "" <==> IsKnownBadge(badge)
  {
    if badge == "bestseller" then "Best Seller"
    else if badge == "low-stock" then "Only Few Left"
    else if badge == "new-arrival" then "New Arrival"
    else ""
  }

  /** A badge the card does not know is still rendered (any non-empty
      string is truthy), as an empty pill in the slate default colour. */
  lemma UnknownBadgeRendersEmpty(product: Product)
    requires ShowsBadge(product) && !IsKnownBadge(product.badge.value)
    ensures BadgeText(product.badge.value) == ""
    ensures BadgeStyles(product.badge.value) == DefaultBadgeStyle
  {
  }

  /** Distinct known badges get distinct labels and distinct colours. */
  lemma BadgesDistinguished(a: string, b: string)
    requires IsKnownBadge(a) && IsKnownBadge(b) && a != b
    ensures BadgeText(a) != BadgeText(b)
    ensures BadgeStyles(a) != BadgeStyles(b)
  {
  }

  // ---------------------------------------------------------------------
  // Discount badge

  /** JavaScript's `Math.round`: the nearest integer, halves rounded up. */
  function Round(x: real): (n: int)
    ensures n as real - 0.5 <= x < n as real + 0.5
  {
    (x + 0.5).Floor
  }

  /** The percentage shown on the discount badge of a product with a
      (truthy) original price. */
  function DiscountPercent(product: Product): int
    requires ProductGrid.HasOriginalPrice(product)
  {
    var original := product.originalPrice.value;
    Round((original - product.price) / original * 100.0)
  }

  /** A product priced between zero and its original price shows a discount
      between 0 and 100 percent, and a higher price never shows a larger
      discount. */
  lemma DiscountInRange(product: Product, higher: real)
    requires ProductGrid.HasOriginalPrice(product)
    requires 0.0 <= product.price <= higher <= product.originalPrice.value
    ensures 0 <= DiscountPercent(product) <= 100
    ensures DiscountPercent(product.(price := higher)) <= DiscountPercent(product)
  {
    var o := product.originalPrice.value;
    var x := (o - product.price) / o * 100.0;
    var y := (o - higher) / o * 100.0;
    QuotientWithin(o - product.price, o);
    QuotientWithin(o - higher, o);
    QuotientMonotonic(o - higher, o - product.price, o);
    assert 0.0 <= y <= x <= 100.0;
  }

  lemma QuotientWithin(a: real, o: real)
    requires 0.0 <= a <= o && o > 0.0
    ensures 0.0 <= a / o <= 1.0
  {
  }

  lemma QuotientMonotonic(a: real, b: real, o: real)
    requires a <= b && o > 0.0
    ensures a / o <= b / o
  {
  }

  // ---------------------------------------------------------------------
  // Stock indicator

  /** A JavaScript number as far as the stock indicator needs one: dividing
      by a zero `maxStock` gives `Infinity`, `-Infinity` or `NaN`. */
  datatype JsNumber = Finite(value: real) | PositiveInfinity | NegativeInfinity | NaN

  /** `stockPercentage`: the stock as a percentage of the maximum stock.
      The source does not guard `maxStock == 0`: then it is `NaN` when the
      stock is zero as well, and an infinity of the stock's sign otherwise. */
  function StockPercentage(product: Product): (pct: JsNumber)
    ensures pct.Finite? <==> product.maxStock != 0
    ensures pct == NaN <==> product.maxStock == 0 && product.stock == 0
    ensures pct == PositiveInfinity <==> product.maxStock == 0 && product.stock > 0
    ensures pct == NegativeInfinity <==> product.maxStock == 0 && product.stock < 0
  {
    if product.maxStock != 0 then Finite((product.stock as real / product.maxStock as real) * 100.0)
    else if product.stock == 0 then NaN
    else if product.stock > 0 then PositiveInfinity
    else NegativeInfinity
  }

  /** `isLowStock`: below 30 percent of the maximum stock (`-Infinity` is
      below 30; neither `NaN` nor `Infinity` is). */
  predicate IsLowStock(product: Product) {
    var pct := StockPercentage(product);
    (pct.Finite? && pct.value < 30.0) || pct == NegativeInfinity
  }

  /** In exact arithmetic, low stock means 100 * stock < 30 * maxStock for
      a positive maximum and 100 * stock > 30 * maxStock for a negative one
      (dividing by a negative number turns the comparison round); with a
      zero maximum only a negative stock reads as low. */
  lemma LowStockIff(product: Product)
    ensures product.maxStock > 0 ==>
      (IsLowStock(product) <==> 100 * product.stock < 30 * product.maxStock)
    ensures product.maxStock < 0 ==>
      (IsLowStock(product) <==> 100 * product.stock > 30 * product.maxStock)
    ensures product.maxStock == 0 ==> (IsLowStock(product) <==> product.stock < 0)
  {
    var s, m := product.stock as real, product.maxStock as real;
    if product.maxStock != 0 {
      var q := s / m;
      assert StockPercentage(product) == Finite(q * 100.0);
      assert q * m == s;
      if product.maxStock > 0 {
        ScaledBelow(q, m, s);
      } else {
        ScaledAbove(q, m, s);
      }
    }
  }

  /** For a positive maximum, `q = s / m` is below 30 percent exactly when
      `100 * s < 30 * m`. */
  lemma ScaledBelow(q: real, m: real, s: real)
    requires m > 0.0 && q * m == s
    ensures q * 100.0 < 30.0 <==> 100.0 * s < 30.0 * m
  {
    if q < 0.3 {
      assert q * m < 0.3 * m;
    } else {
      assert q * m >= 0.3 * m;
    }
  }

  /** For a negative maximum, `q = s / m` is below 30 percent exactly when
      `100 * s > 30 * m`. */
  lemma ScaledAbove(q: real, m: real, s: real)
    requires m < 0.0 && q * m == s
    ensures q * 100.0 < 30.0 <==> 100.0 * s > 30.0 * m
  {
    if q < 0.3 {
      assert q * m > 0.3 * m;
    } else {
      assert q * m <= 0.3 * m;
    }
  }

  /** The width of the filled part of the stock bar, in percent:
      `Math.max(stockPercentage, 5)`, which is 5 for `-Infinity`, `NaN` when
      the percentage is and `Infinity` when the percentage is. */
  function BarWidth(product: Product): (width: JsNumber)
    ensures width.Finite? <==> StockPercentage(product).Finite? || StockPercentage(product) == NegativeInfinity
    ensures StockPercentage(product).Finite? ==>
      && width.Finite? && width.value >= 5.0 && width.value >= StockPercentage(product).value
      && (width.value == 5.0 || width.value == StockPercentage(product).value)
    ensures StockPercentage(product) == NegativeInfinity ==> width == Finite(5.0)
    ensures width == NaN <==> StockPercentage(product) == NaN
    ensures width == PositiveInfinity <==> StockPercentage(product) == PositiveInfinity
  {
    match StockPercentage(product)
    case Finite(pct) => Finite(if pct > 5.0 then pct else 5.0)
    case NegativeInfinity => Finite(5.0)
    case PositiveInfinity => PositiveInfinity
    case NaN => NaN
  }

  /** While the stock does not exceed a positive maximum, the bar fits its
      track (a negative stock gives the 5 percent minimum). */
  lemma BarWidthAtMostFull(product: Product)
    requires 0 < product.maxStock && product.stock <= product.maxStock
    ensures BarWidth(product).Finite? && BarWidth(product).value <= 100.0
  {
    var s, m := product.stock as real, product.maxStock as real;
    if s >= 0.0 {
      QuotientWithin(s, m);
    } else {
      NegativeQuotient(s, m);
    }
  }

  lemma NegativeQuotient(a: real, o: real)
    requires a < 0.0 && o > 0.0
    ensures a / o < 0.0
  {
    assert (a / o) * o == a;
  }

  // ---------------------------------------------------------------------
  // Add-to-cart button

  predicate AddToCartDisabled(product: Product) {
    product.stock == 0
  }

  function AddToCartLabel(product: Product): string {
    if product.stock == 0 then "Out of Stock" else "Add to Cart"
  }

  /** The button's colour classes: greyed out with a not-allowed cursor at
      zero stock, blue otherwise. */
  function AddToCartStyle(product: Product): string {
    if product.stock == 0 then "bg-slate-200 text-slate-500 cursor-not-allowed"
    else "bg-blue-600 hover:bg-blue-700 text-white transform hover:scale-105 active:scale-95"
  }

  /** The `disabled` attribute, the label and the colour classes agree: the
      button is disabled exactly when it reads "Out of Stock", and exactly
      when it is drawn greyed out. */
  lemma DisabledIffOutOfStock(product: Product)
    ensures AddToCartDisabled(product) <==> AddToCartLabel(product) == "Out of Stock"
    ensures AddToCartDisabled(product) <==>
      AddToCartStyle(product) == "bg-slate-200 text-slate-500 cursor-not-allowed"
  {
  }

  /** With "in stock only" on, no visible card has a disabled button. */
  lemma InStockFilterHidesDisabled(filters: FilterOptions, product: Product)
    requires filters.inStock && ProductGrid.PassesFilters(filters, product)
    ensures !AddToCartDisabled(product)
  {
  }

  // ---------------------------------------------------------------------
  // Rating stars

  /** Star `i` (counting from 0) is filled when `i < Math.floor(rating)`. */
  predicate StarFilled(rating: real, i: int) {
    i < rating.Floor
  }

  /** The five stars, filled or not. */
  function Stars(rating: real): seq<bool> {
    seq(5, i => StarFilled(rating, i))
  }

  /** The number of filled stars in a row. */
  function CountFilled(stars: seq<bool>): nat {
    if stars == [] then 0
    else CountFilled(stars[..|stars| - 1]) + (if stars[|stars| - 1] then 1 else 0)
  }

  /** `k` clamped to the range [0, n]. */
  function Clamp(k: int, n: nat): nat {
    if k <= 0 then 0 else if k >= n then n else k
  }

  /** Of the first `n` stars, those below `k` are filled. */
  lemma {:induction false} CountFilledPrefix(n: nat, k: int)
    ensures CountFilled(seq(n, i => i < k)) == Clamp(k, n)
  {
    if n > 0 {
      CountFilledPrefix(n - 1, k);
      assert seq(n, i => i < k)[..n - 1] == seq(n - 1, i => i < k);
    }
  }

  /** The card fills `Math.floor(rating)` stars, at most five and at least
      none. */
  lemma FilledStarCount(rating: real)
    ensures CountFilled(Stars(rating)) == Clamp(rating.Floor, 5)
    ensures 0.0 <= rating ==> CountFilled(Stars(rating)) == if rating.Floor < 5 then rating.Floor else 5
  {
    assert Stars(rating) == seq(5, i => i < rating.Floor);
    CountFilledPrefix(5, rating.Floor);
  }

  // ---------------------------------------------------------------------
  // Description toggle

  /** The "Show more" button is rendered for descriptions longer than 100
      characters. */
  predicate ShowsMoreToggle(product: Product) {
    |product.description| > 100
  }

  /** The description is clamped to two lines unless expanded. */
  predicate DescriptionClamped(s: CardState) {
    !s.isExpanded
  }

  /** The toggle reads "Show less" while expanded, "Show more" otherwise. */
  function ToggleCaption(s: CardState): string {
    if s.isExpanded then "Show less" else "Show more"
  }

  /** Each click on the toggle flips both the clamp and the caption, and
      two clicks restore the state. */
  lemma ToggleDescriptionFlips(s: CardState)
    ensures DescriptionClamped(Step(s, ToggleDescription)) != DescriptionClamped(s)
    ensures ToggleCaption(Step(s, ToggleDescription)) != ToggleCaption(s)
    ensures ToggleCaption(s) == "Show more" <==> DescriptionClamped(s)
    ensures Step(Step(s, ToggleDescription), ToggleDescription) == s
  {
  }

  // ---------------------------------------------------------------------
  // View state

  /** The card's `useState` values. */
  datatype CardState = CardState(currentImageIndex: int, isExpanded: bool, isImageExpanded: bool)

  const InitialCardState := CardState(0, false, false)

  /** The clicks the card reacts to. */
  datatype CardEvent =
    | SelectImage(index: int)
    | ToggleDescription
    | ExpandImage
    | CollapseImage
    | AddToCart

  /** The control for event `e` is on screen in state `s`: an image dot for
      each index of `images` when there is more than one image, the toggle
      for long descriptions, the modal's backdrop while it is open, and an
      enabled add-to-cart button. */
  predicate Offered(product: Product, s: CardState, e: CardEvent) {
    match e
    case SelectImage(i) => |product.images| > 1 && 0 <= i < |product.images|
    case ToggleDescription => ShowsMoreToggle(product)
    case ExpandImage => true
    case CollapseImage => s.isImageExpanded
    case AddToCart => !AddToCartDisabled(product)
  }

  /** The state after a click; adding to the cart leaves the card's state as
      it is (the cart itself is not part of this model). */
  function Step(s: CardState, e: CardEvent): CardState {
    match e
    case SelectImage(i) => s.(currentImageIndex := i)
    case ToggleDescription => s.(isExpanded := !s.isExpanded)
    case ExpandImage => s.(isImageExpanded := true)
    case CollapseImage => s.(isImageExpanded := false)
    case AddToCart => s
  }

  /** The card's state invariant: the image index is 0 or an index of
      `images`, and the description is only expanded when it has a toggle. */
  predicate Invariant(product: Product, s: CardState) {
    && 0 <= s.currentImageIndex
    && (s.currentImageIndex == 0 || s.currentImageIndex < |product.images|)
    && (s.isExpanded ==> ShowsMoreToggle(product))
  }

  /** The events of `events` are each offered in the state they find. */
  predicate IsTrace(product: Product, s: CardState, events: seq<CardEvent>)
    decreases |events|
  {
    events == [] || (Offered(product, s, events[0]) && IsTrace(product, Step(s, events[0]), events[1..]))
  }

  function Run(s: CardState, events: seq<CardEvent>): CardState
    decreases |events|
  {
    if events == [] then s else Run(Step(s, events[0]), events[1..])
  }

  /** The initial state satisfies the invariant and every offered click
      preserves it. */
  lemma StepPreservesInvariant(product: Product, s: CardState, e: CardEvent)
    requires Invariant(product, s) && Offered(product, s, e)
    ensures Invariant(product, Step(s, e))
    ensures Invariant(product, InitialCardState)
  {
  }

  /** Whatever the user clicks, the state keeps the invariant. */
  lemma {:induction false} RunPreservesInvariant(product: Product, s: CardState, events: seq<CardEvent>)
    requires Invariant(product, s) && IsTrace(product, s, events)
    ensures Invariant(product, Run(s, events))
    decreases |events|
  {
    if events != [] {
      StepPreservesInvariant(product, s, events[0]);
      RunPreservesInvariant(product, Step(s, events[0]), events[1..]);
    }
  }

  /** The colour class of the image dot at `index`: full white for the
      shown image, half-transparent white for the others. */
  function DotClass(s: CardState, index: int): string {
    if index == s.currentImageIndex then "bg-white" else "bg-white/50"
  }

  /** Under the invariant, when the dots are shown exactly one of them is
      drawn in full white, and clicking a dot makes it that one. */
  lemma ExactlyOneDotActive(product: Product, s: CardState, i: int)
    requires Invariant(product, s) && |product.images| > 1 && 0 <= i < |product.images|
    ensures exists k :: 0 <= k < |product.images| && DotClass(s, k) == "bg-white"
    ensures forall j, k ::
      (0 <= j < |product.images| && 0 <= k < |product.images| &&
       DotClass(s, j) == "bg-white" && DotClass(s, k) == "bg-white") ==> j == k
    ensures forall k :: 0 <= k < |product.images| ==>
      (DotClass(Step(s, SelectImage(i)), k) == "bg-white" <==> k == i)
  {
    assert DotClass(s, s.currentImageIndex) == "bg-white";
  }

  /** The image shown: `images[currentImageIndex]`, or nothing when that is
      not an index of `images`. Under the invariant a product with images
      always shows one of them. */
  function DisplayedImage(product: Product, s: CardState): (image: Option<string>)
    ensures Invariant(product, s) && |product.images| > 0 ==>
      image == Some(product.images[s.currentImageIndex])
  {
    if 0 <= s.currentImageIndex < |product.images| then Some(product.images[s.currentImageIndex])
    else None
  }
}
