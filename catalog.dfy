// Texts the extraction stage writes and the transformation stage reads back.
module Catalog {
  /** The price text of a listing without a price element; the cleaner maps it to absence. */
  const PriceUnavailable := "Price Unavailable"
}
