/** `AdidasScrapper`: the node-selection rules for adidas product pages. */
module Adidas {
  import opened Wrappers
  import opened Text
  import opened Html
  import opened Decimals
  import opened Models
  import opened PriceText
  import opened Constants
  import opened Currency

  const TitleSel := Selector("h1", Some(("data-testid", "product-title")))
  const PriceSel := Selector("div", Some(("data-testid", "main-price")))
  const SoldOutSel := Selector("section", Some(("data-testid", "sold-out-signup")))
  const GallerySel := Selector("div", Some(("id", "navigation-target-gallery")))
  const ImgSel := Selector("img", None)

  /** The title is the trimmed text of the title heading; without one the item fails. */
  function ExtractTitle(doc: Node): (r: Result<string, ScrapeError>)
    ensures r.Failure? <==> !Present(doc, TitleSel)
    ensures r.Failure? ==> r.error == TitleNotFound
    ensures r.Success? ==> Trimmed(r.value) && r.value == Strip(Find(doc, TitleSel).value.text)
  {
    match Find(doc, TitleSel)
    case Some(n) => Success(Strip(n.text))
    case None => Failure(TitleNotFound)
  }

  /** The price is `parse_price` of the trimmed price text; without a price node the item fails. */
  function ExtractPrice(doc: Node): (r: Result<Decimal, ScrapeError>)
    ensures !Present(doc, PriceSel) ==> r == Failure(PriceNotFound)
    ensures Present(doc, PriceSel) ==> r == ParsePrice(Strip(Find(doc, PriceSel).value.text))
  {
    match Find(doc, PriceSel)
    case Some(n) => ParsePrice(Strip(n.text))
    case None => Failure(PriceNotFound)
  }

  /** In stock exactly when the page has no sold-out sign-up section; this never fails. */
  function ExtractAvailability(doc: Node): (r: bool)
    ensures r <==> forall i :: 0 <= i < |Descendants(doc)| ==> !Matches(Descendants(doc)[i], SoldOutSel)
  {
    Find(doc, SoldOutSel).None?
  }

  /**
   * The `src` of the first image inside the gallery, possibly absent. Without
   * a gallery the item fails; a gallery with no image fails on `None.get`.
   */
  function ExtractImageUrl(doc: Node): (r: Result<Option<string>, ScrapeError>)
    ensures !Present(doc, GallerySel) ==> r == Failure(ImageNotFound)
    ensures Present(doc, GallerySel) && !Present(Find(doc, GallerySel).value, ImgSel) ==> r == Failure(AttributeOfNone)
    ensures r.Success? ==>
              && Present(doc, GallerySel)
              && Present(Find(doc, GallerySel).value, ImgSel)
              && r.value == GetAttr(Find(Find(doc, GallerySel).value, ImgSel).value, "src")
  {
    match Find(doc, GallerySel)
    case None => Failure(ImageNotFound)
    case Some(gallery) =>
      match Find(gallery, ImgSel)
      case None => Failure(AttributeOfNone)
      case Some(img) => Success(GetAttr(img, "src"))
  }

  /**
   * What `extract_currency` returns: the first code whose symbol occurs in the
   * trimmed price text, and `"INR"` both when there is no price node and when
   * no symbol occurs. It is always a code of the table.
   */
  function CurrencyOf(doc: Node): (r: string)
    ensures !Present(doc, PriceSel) ==> r == "INR"
    ensures Present(doc, PriceSel) ==>
              var found := FirstMatch(CurrencyMap, Strip(Find(doc, PriceSel).value.text));
              r == if found.Some? then found.value else "INR"
    ensures r in Codes(CurrencyMap)
  {
    assert Codes(CurrencyMap)[0] == "INR";
    match Find(doc, PriceSel)
    case Some(n) =>
      (match FirstMatch(CurrencyMap, Strip(n.text))
       case Some(code) => code
       case None => "INR")
    case None => "INR"
  }

  /** `extract_currency`, running the table scan on the trimmed price text. */
  method ExtractCurrency(doc: Node) returns (code: string)
    ensures code == CurrencyOf(doc)
  {
    var price := Find(doc, PriceSel);
    if price.Some? {
      var found := DetectCurrency(Strip(price.value.text));
      if found.Some? {
        return found.value;
      }
    }
    return "INR";
  }

  /** `additional_data`: adidas pages contribute nothing, so the mapping is always empty. */
  function AdditionalData(doc: Node): (data: map<string, string>)
    ensures data == map[]
  {
    map[]
  }
}
