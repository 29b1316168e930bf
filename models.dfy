/** The values the scraper produces and the ways an item can fail. */
module Models {
  import opened Wrappers
  import opened Decimals

  /** A tracked product, identified by its URL. */
  datatype Product = Product(url: string)

  /**
   * One `PriceHistory` row as `scrape_product` builds it. The currency and
   * the image URL may be absent, as the extractors can return `None` for them.
   */
  datatype PriceHistory = PriceHistory(
    productUrl: string,
    name: string,
    price: Decimal,
    currency: Option<string>,
    mainImageUrl: Option<string>,
    availability: bool,
    timestamp: int,
    product: Product,
    additionalData: map<string, string>)

  /** The exceptions that end the scrape of one product. */
  datatype ScrapeError =
    | FetchFailed(reason: string)   // the HTTP request, its status check or the HTML parse raised
    | IndexOutOfRange               // the URL has too few `/`-segments or host labels
    | TitleNotFound
    | PriceNotFound
    | ImageNotFound
    | NotANumber(text: string)      // `float` raised `ValueError` on this text
    | AttributeOfNone               // `.get` on the `None` that `find` returned
}
