/** The records shared by the catalog components: a product of the catalog
    and the filter criteria chosen in the filter panel. */
module Types {

  datatype Option<+T> = None | Some(value: T)

  /** A catalog product. Prices and ratings are exact reals (the storefront
      keeps them in JavaScript numbers); stock counts are whole numbers,
      which nothing in the storefront keeps from going negative. */
  datatype Product = Product(
    id: string,
    name: string,
    description: string,
    price: real,
    originalPrice: Option<real>,
    category: string,
    images: seq<string>,
    stock: int,
    maxStock: int,
    rating: real,
    reviews: nat,
    badge: Option<string>)

  /** The two-element `priceRange` array: `[min, max]`. */
  datatype PriceRange = PriceRange(min: real, max: real)

  /** The filter criteria. An empty `category` stands for "all categories";
      `sortBy` is the value of the sort select. */
  datatype FilterOptions = FilterOptions(
    category: string,
    priceRange: PriceRange,
    inStock: bool,
    sortBy: string)
}
