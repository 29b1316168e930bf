/**
 * `scrape_product` without the fetch: derive the site key from the URL, pick
 * the site's scraper, run its extractors in order and build the record, the
 * first failing extractor ending the item.
 */
module Scrape {
  import opened Wrappers
  import opened Text
  import opened Html
  import opened Decimals
  import opened Models
  import Nike
  import Adidas

  /** The scrapers `scrapper_map` knows. */
  datatype Scrapper = NikeScrapper | AdidasScrapper

  /** `scrapper_map`: lower-case site key to scraper. */
  const ScrapperMap: map<string, Scrapper> := map["nike" := NikeScrapper, "adidas" := AdidasScrapper]

  /**
   * `url.split("/")[2].split(".")[1]`: the second dot-separated label of the
   * host segment; indexing past either list raises `IndexError`.
   */
  function SiteKey(url: string): (r: Result<string, ScrapeError>)
    ensures r.Failure? <==> |Split(url, '/')| < 3 || '.' !in Split(url, '/')[2]
    ensures r.Failure? ==> r.error == IndexOutOfRange
    ensures r.Success? ==> '/' !in r.value && '.' !in r.value
  {
    var segments := Split(url, '/');
    if |segments| < 3 then Failure(IndexOutOfRange)
    else
      var labels := Split(segments[2], '.');
      SplitCount(segments[2], '.');
      SplitJoin(url, '/');
      SplitJoin(segments[2], '.');
      assert '/' !in segments[2];
      if |labels| < 2 then Failure(IndexOutOfRange)
      else
        assert labels[1] in labels;
        assert Join(labels, '.') == labels[0] + ['.'] + Join(labels[1..], '.');
        JoinHasPart(labels[1..], '.');
        Success(labels[1])
  }

  /** Each part of a list appears inside its join. */
  lemma {:induction false} JoinHasPart(parts: seq<string>, sep: char)
    requires |parts| > 0
    ensures forall c :: c in parts[0] ==> c in Join(parts, sep)
  {
  }

  /** The scraper for a URL: `None` when the lower-cased key is not in `scrapper_map`. */
  function Resolve(url: string): (r: Result<Option<Scrapper>, ScrapeError>)
    ensures r.Failure? <==> SiteKey(url).Failure?
    ensures r.Success? ==> (r.value.Some? <==> Lower(SiteKey(url).value) in {"nike", "adidas"})
    ensures r.Success? && Lower(SiteKey(url).value) == "nike" ==> r.value == Some(NikeScrapper)
    ensures r.Success? && Lower(SiteKey(url).value) == "adidas" ==> r.value == Some(AdidasScrapper)
  {
    match SiteKey(url)
    case Failure(e) => Failure(e)
    case Success(key) =>
      var k := Lower(key);
      if k in ScrapperMap then Success(Some(ScrapperMap[k])) else Success(None)
  }

  /**
   * On a URL `scheme//host` followed by nothing or by a `/`-path, the key is
   * the host's second label, whatever the path.
   */
  lemma HostKey(scheme: string, host: string, rest: string)
    requires '/' !in scheme && '/' !in host
    requires rest == [] || rest[0] == '/'
    ensures SiteKey(scheme + "//" + host + rest) ==
              if |Split(host, '.')| > 1 then Success(Split(host, '.')[1]) else Failure(IndexOutOfRange)
  {
    var url := scheme + "//" + host + rest;
    if rest == [] {
      assert url == scheme + ['/'] + ("" + ['/'] + host);
      SplitAfter(scheme, '/', "" + ['/'] + host);
      SplitAfter("", '/', host);
      SplitNoSep(host, '/');
    } else {
      var path := rest[1..];
      assert url == scheme + ['/'] + ("" + ['/'] + (host + ['/'] + path));
      SplitAfter(scheme, '/', "" + ['/'] + (host + ['/'] + path));
      SplitAfter("", '/', host + ['/'] + path);
      SplitAfter(host, '/', path);
    }
    assert Split(url, '/')[2] == host;
    SplitCount(host, '.');
  }

  /** Text without the separator is a single part. */
  lemma SplitNoSep(s: string, sep: char)
    requires sep !in s
    ensures Split(s, sep) == [s]
  {
    SplitCount(s, sep);
    SplitJoin(s, sep);
  }

  /** URLs with the same scheme and host dispatch to the same scraper, whatever their paths. */
  lemma SameHostSameScraper(scheme: string, host: string, rest1: string, rest2: string)
    requires '/' !in scheme && '/' !in host
    requires rest1 == [] || rest1[0] == '/'
    requires rest2 == [] || rest2[0] == '/'
    ensures Resolve(scheme + "//" + host + rest1) == Resolve(scheme + "//" + host + rest2)
  {
    HostKey(scheme, host, rest1);
    HostKey(scheme, host, rest2);
  }

  /**
   * On `scheme//sub.brand.tld`, with or without a path, the scraper is the one registered for the
   * lower-cased `brand` label, so `www.nike.com` and `www.NIKE.com` both reach
   * the Nike scraper and `unknown-brand.example.com` reaches none.
   */
  lemma BrandHost(scheme: string, sub: string, brand: string, tld: string, rest: string)
    requires '/' !in scheme
    requires '/' !in sub && '/' !in brand && '/' !in tld
    requires '.' !in sub && '.' !in brand && '.' !in tld
    requires rest == [] || rest[0] == '/'
    ensures Resolve(scheme + "//" + sub + "." + brand + "." + tld + rest) ==
              Success(if Lower(brand) in ScrapperMap then Some(ScrapperMap[Lower(brand)]) else None)
  {
    var host := sub + "." + brand + "." + tld;
    SecondLabel(sub, brand, tld);
    assert '/' !in host;
    HostKey(scheme, host, rest);
    assert scheme + "//" + sub + "." + brand + "." + tld + rest == scheme + "//" + host + rest;
    assert SiteKey(scheme + "//" + host + rest) == Success(brand);
  }

  /** The labels of a three-label host. */
  lemma SecondLabel(a: string, b: string, c: string)
    requires '.' !in a && '.' !in b && '.' !in c
    ensures Split(a + "." + b + "." + c, '.') == [a, b, c]
  {
    assert a + "." + b + "." + c == a + ['.'] + (b + ['.'] + c);
    SplitAfter(a, '.', b + ['.'] + c);
    SplitAfter(b, '.', c);
    SplitCount(c, '.');
    SplitJoin(c, '.');
  }

  /** A host without a dot, `localhost` for one, raises on the label indexing. */
  lemma DotlessHost(scheme: string, host: string, rest: string)
    requires '/' !in scheme && '/' !in host && '.' !in host
    requires rest == [] || rest[0] == '/'
    ensures Resolve(scheme + "//" + host + rest) == Failure(IndexOutOfRange)
  {
    HostKey(scheme, host, rest);
    SplitCount(host, '.');
  }

  function TitleOf(s: Scrapper, doc: Node): Result<string, ScrapeError> {
    match s
    case NikeScrapper => Nike.ExtractTitle(doc)
    case AdidasScrapper => Adidas.ExtractTitle(doc)
  }

  function PriceOf(s: Scrapper, doc: Node): Result<Decimal, ScrapeError> {
    match s
    case NikeScrapper => Nike.ExtractPrice(doc)
    case AdidasScrapper => Adidas.ExtractPrice(doc)
  }

  function AvailabilityOf(s: Scrapper, doc: Node): bool {
    match s
    case NikeScrapper => Nike.ExtractAvailability(doc)
    case AdidasScrapper => Adidas.ExtractAvailability(doc)
  }

  function ImageUrlOf(s: Scrapper, doc: Node): Result<Option<string>, ScrapeError> {
    match s
    case NikeScrapper => Nike.ExtractImageUrl(doc)
    case AdidasScrapper => Adidas.ExtractImageUrl(doc)
  }

  function CurrencyOf(s: Scrapper, doc: Node): Option<string> {
    match s
    case NikeScrapper => Nike.CurrencyOf(doc)
    case AdidasScrapper => Some(Adidas.CurrencyOf(doc))
  }

  function AdditionalOf(s: Scrapper, doc: Node): map<string, string> {
    match s
    case NikeScrapper => Nike.AdditionalFields(doc)
    case AdidasScrapper => Adidas.AdditionalData(doc)
  }

  /** Which of the failing extractors runs first: title, then price, then image. */
  function FirstFailure(s: Scrapper, doc: Node): (r: Option<ScrapeError>)
    ensures r.None? <==> TitleOf(s, doc).Success? && PriceOf(s, doc).Success? && ImageUrlOf(s, doc).Success?
    ensures TitleOf(s, doc).Failure? ==> r == Some(TitleOf(s, doc).error)
    ensures TitleOf(s, doc).Success? && PriceOf(s, doc).Failure? ==> r == Some(PriceOf(s, doc).error)
    ensures r.Some? ==>
              || r.value == TitleNotFound || r.value == PriceNotFound || r.value.NotANumber?
              || r.value == ImageNotFound || r.value == AttributeOfNone
  {
    if TitleOf(s, doc).Failure? then Some(TitleOf(s, doc).error)
    else if PriceOf(s, doc).Failure? then Some(PriceOf(s, doc).error)
    else if ImageUrlOf(s, doc).Failure? then Some(ImageUrlOf(s, doc).error)
    else None
  }

  /** Every field of the record is what its extractor gives on the page, with the URL and the clock reading. */
  ghost predicate Assembled(s: Scrapper, doc: Node, url: string, now: int, rec: PriceHistory) {
    && rec.productUrl == url
    && rec.product == Product(url)
    && rec.timestamp == now
    && TitleOf(s, doc) == Success(rec.name)
    && PriceOf(s, doc) == Success(rec.price)
    && rec.availability == AvailabilityOf(s, doc)
    && ImageUrlOf(s, doc) == Success(rec.mainImageUrl)
    && rec.currency == CurrencyOf(s, doc)
    && rec.additionalData == AdditionalOf(s, doc)
  }

  /**
   * `scrape_product(url)` after the fetch: `page` is the parsed page or the
   * failure of the fetch, `now` the clock reading. The outcome is an error,
   * `None` for a site no scraper handles, or the record.
   */
  method ScrapeProduct(url: string, page: Result<Node, ScrapeError>, now: int)
    returns (outcome: Result<Option<PriceHistory>, ScrapeError>)
    ensures page.Failure? ==> outcome == Failure(page.error)
    ensures page.Success? && SiteKey(url).Failure? ==> outcome == Failure(IndexOutOfRange)
    ensures page.Success? && Resolve(url) == Success(None) ==> outcome == Success(None)
    ensures page.Success? && Resolve(url).Success? && Resolve(url).value.Some? ==>
              var s := Resolve(url).value.value;
              && (outcome.Failure? <==> FirstFailure(s, page.value).Some?)
              && (outcome.Failure? ==> outcome.error == FirstFailure(s, page.value).value)
              && (outcome.Success? ==> outcome.value.Some? && Assembled(s, page.value, url, now, outcome.value.value))
  {
    var doc :- page;
    var key :- SiteKey(url);
    var k := Lower(key);
    if k !in ScrapperMap {
      return Success(None);
    }
    var scrapper := ScrapperMap[k];
    var title :- TitleOf(scrapper, doc);
    var price :- PriceOf(scrapper, doc);
    var availability := AvailabilityOf(scrapper, doc);
    var imageUrl :- ImageUrlOf(scrapper, doc);
    var currency: Option<string>;
    var additional: map<string, string>;
    match scrapper {
      case NikeScrapper =>
        currency := Nike.ExtractCurrency(doc);
        additional := Nike.AdditionalData(doc);
      case AdidasScrapper =>
        var code := Adidas.ExtractCurrency(doc);
        currency := Some(code);
        additional := Adidas.AdditionalData(doc);
    }
    return Success(Some(PriceHistory(
      url, title, price, currency, imageUrl, availability, now, Product(url), additional)));
  }
}
