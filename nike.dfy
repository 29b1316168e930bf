/** `NikeScrapper`: the node-selection rules for nike.com product pages. */
module Nike {
  import opened Wrappers
  import opened Text
  import opened Html
  import opened Decimals
  import opened Models
  import opened PriceText
  import opened Constants
  import opened Currency

  const TitleSel := Selector("h1", Some(("data-testid", "product_title")))
  const PriceSel := Selector("span", Some(("data-testid", "currentPrice-container")))
  const SoldOutSel := Selector("span", Some(("data-testid", "sold-out-container")))
  const ImageSel := Selector("img", Some(("data-testid", "HeroImg")))
  const OfferSel := Selector("span", Some(("data-testid", "OfferPercentage")))
  const SoldOutTextSel := Selector("div", Some(("data-testid", "sold-out-container")))

  /** The trimmed text of the first node `sel` selects, or `""` when there is none. */
  function TextOrEmpty(doc: Node, sel: Selector): string {
    match Find(doc, sel)
    case Some(n) => Strip(n.text)
    case None => ""
  }

  /** The title is the trimmed text of the title heading; without one the item fails. */
  function ExtractTitle(doc: Node): (r: Result<string, ScrapeError>)
    ensures r.Failure? <==> !Present(doc, TitleSel)
    ensures r.Failure? ==> r.error == TitleNotFound
    ensures r.Success? ==> Trimmed(r.value) && r.value == Strip(Find(doc, TitleSel).value.text)
  {
    match Find(doc, TitleSel)
    case Some(n) => Success(Strip(n.text))
    case None => Failure(TitleNotFound)
  }

  /** The price is `parse_price` of the trimmed price text; without a price node the item fails. */
  function ExtractPrice(doc: Node): (r: Result<Decimal, ScrapeError>)
    ensures !Present(doc, PriceSel) ==> r == Failure(PriceNotFound)
    ensures Present(doc, PriceSel) ==> r == ParsePrice(Strip(Find(doc, PriceSel).value.text))
  {
    match Find(doc, PriceSel)
    case Some(n) => ParsePrice(Strip(n.text))
    case None => Failure(PriceNotFound)
  }

  /** In stock exactly when the page has no sold-out marker; this never fails. */
  function ExtractAvailability(doc: Node): (r: bool)
    ensures r <==> forall i :: 0 <= i < |Descendants(doc)| ==> !Matches(Descendants(doc)[i], SoldOutSel)
  {
    Find(doc, SoldOutSel).None?
  }

  /** The hero image's `src`, possibly absent; without a hero image the item fails. */
  function ExtractImageUrl(doc: Node): (r: Result<Option<string>, ScrapeError>)
    ensures r.Failure? <==> !Present(doc, ImageSel)
    ensures r.Failure? ==> r.error == ImageNotFound
    ensures r.Success? ==> r.value == GetAttr(Find(doc, ImageSel).value, "src")
  {
    match Find(doc, ImageSel)
    case Some(n) => Success(GetAttr(n, "src"))
    case None => Failure(ImageNotFound)
  }

  /**
   * What `extract_currency` returns: `"INR"` when there is no price node, the
   * first code whose symbol occurs in the trimmed price text otherwise, and
   * `None` when the price node is there but no symbol occurs in it.
   */
  function CurrencyOf(doc: Node): (r: Option<string>)
    ensures !Present(doc, PriceSel) ==> r == Some("INR")
    ensures Present(doc, PriceSel) ==> r == FirstMatch(CurrencyMap, Strip(Find(doc, PriceSel).value.text))
    ensures r.None? <==>
              && Present(doc, PriceSel)
              && (forall i :: 0 <= i < |CurrencyMap| ==> !Hit(CurrencyMap[i].1, Strip(Find(doc, PriceSel).value.text)))
    ensures r.Some? ==> r.value in Codes(CurrencyMap)
  {
    match Find(doc, PriceSel)
    case Some(n) => FirstMatch(CurrencyMap, Strip(n.text))
    case None => assert Codes(CurrencyMap)[0] == "INR"; Some("INR")
  }

  /** `extract_currency`, running the table scan on the trimmed price text. */
  method ExtractCurrency(doc: Node) returns (code: Option<string>)
    ensures code == CurrencyOf(doc)
  {
    var price := Find(doc, PriceSel);
    if price.Some? {
      code := DetectCurrency(Strip(price.value.text));
    } else {
      code := Some("INR");
    }
  }

  /**
   * What `additional_data` returns: always exactly the keys `offer` and
   * `sold_out_text`, each the trimmed text of its node or `""` when the node
   * is absent.
   */
  function AdditionalFields(doc: Node): (data: map<string, string>)
    ensures data.Keys == {"offer", "sold_out_text"}
    ensures data["offer"] == (if Present(doc, OfferSel) then Strip(Find(doc, OfferSel).value.text) else "")
    ensures data["sold_out_text"] == (if Present(doc, SoldOutTextSel) then Strip(Find(doc, SoldOutTextSel).value.text) else "")
  {
    map["offer" := TextOrEmpty(doc, OfferSel), "sold_out_text" := TextOrEmpty(doc, SoldOutTextSel)]
  }

  /** `additional_data`, filling the dictionary one key at a time. */
  method AdditionalData(doc: Node) returns (data: map<string, string>)
    ensures data == AdditionalFields(doc)
  {
    data := map[];
    var offer := Find(doc, OfferSel);
    var soldOutText := Find(doc, SoldOutTextSel);
    data := data["offer" := if offer.Some? then Strip(offer.value.text) else ""];
    data := data["sold_out_text" := if soldOutText.Some? then Strip(soldOutText.value.text) else ""];
  }
}
