# price-alerts scraper core, modelled in Dafny

This project models the deterministic part of the price-alerts scraper. The
scraper fetches a product page from a shopping site and picks the adapter for
that site (Nike or Adidas). The adapter:

- reads the title, price, availability, image URL, currency and extra data off
  the parsed page;
- turns that into one `PriceHistory` record.

The model covers:

- **Price text.** The model has `parse_price`, which deletes `"Price"`, `"₹"`
  and `" "` and then calls `float`. It also has `parse_number`, which keeps
  only digits and `.` and then calls `float`. Python's `float` is modelled as
  an exact decimal parser (`Decimals.ParseFloat`) that returns `None` for
  text it does not read. Like `float`, it strips only the spaces `float` strips:
  ASCII space, tab, line feed, vertical tab, form feed and carriage return,
  plus the non-ASCII characters Python counts as whitespace. The separators
  U+001C to U+001F are not stripped, so `float("\x1c5")` fails even though
  `str.strip()` would remove that character.
- **Currency detection.** The model has the ordered symbol table
  `currency_map`. Detection is a first-match scan of that table, written as a
  loop (`Currency.Detect`) and proved equal to a specification function
  (`Currency.FirstMatch`). The two adapters default differently: Nike can
  return `None`, Adidas returns `"INR"`.
- **Site key and dispatch.** The site key is
  `url.split("/")[2].split(".")[1]` lower-cased and looked up in
  `scrapper_map`. A malformed URL raises `IndexError`. An unknown key gives
  `None`.
- **Adapters and record assembly.** The page is a tree of `Html.Node`s.
  BeautifulSoup's `find` returns the first matching descendant in document
  order. The extractors run title, price, availability, image, currency,
  additional data, and the first one that raises ends the item.

Modules: `Wrappers` (Option/Result), `Text` (the Python `str` operations the
scraper uses), `Decimals` (`float`), `Number` (`utils/number.py`), `Constants`
(`constants.py`), `Html` (the page tree and `find`), `Models` (the record and
the error kinds), `PriceText` (`parse_price`), `Currency`, `Nike`, `Adidas` and
`Scrape` (`scrape_product`).

Behaviour of the code worth knowing:

- `parse_price` does not remove thousands separators, so `"₹12,995"` is
  rejected.
- Nike's `extract_currency` can return `None`, even though its annotation says
  `str` (the loop falls through when nothing matches).
- A malformed URL raises `IndexError` at the indexing.
- A negative price such as `"-5"` is accepted by `parse_price`.
- An unknown site yields `None`; no other scraper is tried.

## Model

| member | source | states |
|---|---|---|
| Text.Contains | scrapper.py:58 | Substring test `p in s`: it holds only when the pattern is no longer than the text |
| Text.ContainsAt | scrapper.py:58 | `p in s` holds exactly when the pattern occurs at some index of the text |
| Text.Replace | scrapper.py:12 | `s.replace(p, "")` with a non-empty pattern never lengthens the text |
| Text.DeletePattern | scrapper.py:12 | `s.replace(p, "")` keeps the count of every character that is not in the pattern |
| Text.DeleteChar | scrapper.py:12 | After `s.replace(c, "")` the character `c` no longer occurs; every other character keeps its count, so a character absent before stays absent |
| Text.ReplaceAbsent | scrapper.py:12 | `replace` of a pattern that does not occur leaves the text unchanged |
| Text.StripIn | scrapper.py:13 | Stripping with a given whitespace class (that of `str.strip` or that of `float`) leaves none of it at either end |
| Text.Strip | scrapper.py:38 | `str.strip()` leaves no Python whitespace at either end |
| Text.StripSlice | scrapper.py:38 | `strip()` returns a contiguous slice of its input; everything cut off before and after it is whitespace |
| Text.StripTrimmed | scrapper.py:45 | `strip()` on text with no whitespace at either end returns it unchanged |
| Text.Split | scrapper.py:142 | `split(sep)` always gives at least one part |
| Text.SplitSize | scrapper.py:142 | `split(sep)` gives one part more than there are occurrences of `sep` |
| Text.SplitJoin | scrapper.py:142 | `split(sep)` round-trips: joining the parts with `sep` gives back the text, and no part contains `sep` |
| Text.SplitCount | scrapper.py:142 | `split(sep)` gives more than one part exactly when `sep` occurs in the text |
| Text.Lower | scrapper.py:144 | `lower()` keeps the length, leaves no upper-case ASCII letter, turns each upper-case letter into its lower-case partner and keeps every other character |
| Text.LowerIdempotent | scrapper.py:144 | Lower-casing an already lower-cased key changes nothing |
| Decimals.ParseFloat | scrapper.py:13 | `float` accepts only text whose `float`-stripped form is a number shape (sign only first, otherwise digits and points), and gives a negative value only when that form starts with `-` |
| Decimals.NegativeHasMinus | scrapper.py:13 | `float` gives a negative value only for text holding a `-` |
| Decimals.SignedShape | scrapper.py:13 | Every text the signed reader accepts is non-empty, made of digits and points, with a sign only in front |
| Decimals.UnsignedShape | scrapper.py:13 | Every text the unsigned reader accepts is non-empty and made of digits and points only |
| Decimals.SeparatorNotStripped | scrapper.py:13 | A leading U+001C to U+001F is removed by `str.strip()` but not by `float`, so `float` of it followed by digits fails |
| Decimals.ParseShow | utils/number.py:5 | `float` reads the canonical text of every decimal back as that same decimal, scale included |
| Decimals.ParseDigits | scrapper.py:13 | `float` of a non-empty string of digits is its value |
| Decimals.ParseNegative | scrapper.py:13 | `float` of `"-"` followed by digits is the negated value |
| Decimals.StrayCharacterFails | scrapper.py:13 | `float` fails on unsigned, trimmed text with any character that is neither a digit nor `.` |
| PriceText.CleanPriceText | scrapper.py:12 | The cleaned text holds no `"₹"` and no `" "`, keeps every other character outside `"Price₹ "` as often as it occurs, and is the input itself when the input holds none of the three patterns |
| PriceText.OthersKept | scrapper.py:12 | The three deletions keep the count of every character that is in none of the patterns |
| PriceText.ParsePrice | scrapper.py:11-13 | Succeeds exactly when `float` reads the cleaned text; a failure carries the cleaned text, which holds no `"₹"` and no `" "`; a negative price needs a `-` in the input |
| PriceText.MinusNeeded | scrapper.py:11-13 | A negative result is possible only when the input holds a `-` |
| PriceText.SeparatorPriceFails | scrapper.py:11-13 | `"₹"`, then a U+001C to U+001F separator, then digits fails with the separator and the digits as its text |
| PriceText.NothingToClean | scrapper.py:12 | Text with none of `"Price"`, `"₹"`, `" "` passes the three replacements unchanged |
| PriceText.RupeeSpaceAmount | scrapper.py:11-13 | `"₹ "` followed by digits is read as the digits' value, as `"₹ 12995"` gives 12995 |
| PriceText.RupeeCommaFails | scrapper.py:11-13 | A thousands separator survives cleaning, so `"₹" + digits + "," + digits` fails with the cleaned text as its error |
| PriceText.NegativePriceAccepted | scrapper.py:11-13 | The sign is not cleaned away: `"-"` followed by digits is accepted as a negative price |
| PriceText.ParsePriceShow | scrapper.py:11-13 | Every decimal written in canonical form is read back exactly by `parse_price` |
| Number.KeepNumeric | utils/number.py:5 | The filtered text holds only digits and `.`, and is no longer than the input |
| Number.KeepNumericConcat | utils/number.py:5 | The filter distributes over concatenation, so the kept characters stay in their original order |
| Number.KeepNumericCounts | utils/number.py:5 | Every digit and `.` survives as often as it occurs, and every other character disappears |
| Number.KeepNumericOnKept | utils/number.py:5 | Text of digits and points passes the filter unchanged |
| Number.KeepNumericIdempotent | utils/number.py:5 | Filtering the filter's output changes nothing |
| Number.ParseNumber | utils/number.py:4-5 | `parse_number` never gives a negative number, because signs are filtered out |
| Number.ParseKept | utils/number.py:5 | A text of digits and points reads as a number exactly when it has a digit and at most one point |
| Number.ParseNumberFails | utils/number.py:4-5 | `parse_number` fails exactly when the filtered text has no digit or more than one `.` |
| Number.RupeeWithSeparator | utils/number.py:4-5 | `"₹1,299.00"` gives 1299.00: the glyph and the comma are dropped |
| Number.MalformedNumbers | utils/number.py:4-5 | `""`, `"."` and `"1.2.3"` all fail |
| Number.DropsUnkept | utils/number.py:5 | A glyph before a number and a separator inside it are both removed by the filter |
| Constants.Codes | constants.py:19-27 | The codes of a table, one per entry, in entry order |
| Constants.TableOrder | constants.py:19-27 | The table is scanned INR, USD, EUR, GBP, JPY, KRW, CNY |
| Constants.CodeIsOwnSymbol | constants.py:20-26 | Each code is three letters long and is itself one of its symbols |
| Constants.SymbolsDisjointExceptYen | constants.py:19-27 | Only `"¥"` is listed under two codes (JPY and CNY) |
| Currency.FirstMatch | scrapper.py:57-59 | `None` exactly when no entry has a symbol occurring in the text; otherwise the code of an entry that has one, with no earlier entry having one |
| Currency.AnySymbol | scrapper.py:58 | The `any(...)` loop is true exactly when some symbol of the entry occurs in the text |
| Currency.Detect | scrapper.py:57-59 | The loop with early return computes the first-match code of the table it scans |
| Currency.DetectCurrency | scrapper.py:105-107 | The scan over `currency_map` computes its first-match code |
| Currency.RupeeWins | scrapper.py:57-59 | Text containing `"₹"` or `"INR"` is always read as INR, whatever else it holds |
| Currency.YenNeverYuan | constants.py:24-26 | Text containing `"¥"` always yields a code, never CNY, and JPY when none of the INR, USD, EUR and GBP symbols occurs |
| Currency.YenAmount | scrapper.py:57-59 | A yen amount such as `"¥1200.50"` is read as JPY |
| Currency.YuanNeedsCode | constants.py:24-26 | CNY is reported only for text that contains `"CNY"` and no `"¥"` |
| Currency.SoleEntry | scrapper.py:57-59 | When exactly one entry has a symbol in the text, detection returns that entry's code |
| Html.First | scrapper.py:36 | The first element of a listing that matches, or `None` exactly when none does |
| Html.FirstConcat | scrapper.py:36 | First-match over a concatenation looks in the second part only when the first has no match |
| Html.FindIn | scrapper.py:36 | The recursive search returns only nodes that match the selector |
| Html.FindInIsFirst | scrapper.py:36 | The recursive tree search returns exactly the first match of the document-order listing |
| Html.Find | scrapper.py:36 | `find` is `None` exactly when no descendant matches; otherwise it is the first matching descendant in document order |
| Html.GetAttr | scrapper.py:66 | `get(key)` is present exactly when the node has the attribute, and is then its value |
| Nike.ExtractTitle | scrapper.py:35-40 | Fails with "Title not found" exactly when no title heading is present; otherwise the trimmed text of the first one |
| Nike.ExtractPrice | scrapper.py:42-48 | Fails with "Price not found" when no price node is present; otherwise `parse_price` of the trimmed price text |
| Nike.ExtractAvailability | scrapper.py:50-51 | Never fails, and is true exactly when no descendant is a sold-out marker |
| Nike.ExtractImageUrl | scrapper.py:63-68 | Fails with "Image not found" exactly when there is no hero image; otherwise that image's `src`, which may be absent |
| Nike.CurrencyOf | scrapper.py:53-61 | `"INR"` without a price node; otherwise the first-match code of the trimmed price text. It is `None` exactly when the node is present and no symbol occurs, and it is always a code of the table |
| Nike.ExtractCurrency | scrapper.py:53-61 | The method with its table scan returns `CurrencyOf` |
| Nike.AdditionalFields | scrapper.py:70-79 | Exactly the keys `offer` and `sold_out_text`, each the trimmed text of its node or `""` when the node is absent |
| Nike.AdditionalData | scrapper.py:70-79 | The method filling the dictionary key by key returns `AdditionalFields` |
| Adidas.ExtractTitle | scrapper.py:83-88 | Fails with "Title not found" exactly when no title heading is present; otherwise the trimmed text of the first one |
| Adidas.ExtractPrice | scrapper.py:90-96 | Fails with "Price not found" when there is no price node; otherwise `parse_price` of the trimmed price text |
| Adidas.ExtractAvailability | scrapper.py:98-99 | Never fails, and is true exactly when no descendant is the sold-out sign-up section |
| Adidas.ExtractImageUrl | scrapper.py:110-115 | Fails with "Image not found" without a gallery, fails on `None.get` when the gallery holds no image, and otherwise gives the first image's `src` |
| Adidas.CurrencyOf | scrapper.py:101-108 | The first-match code of the trimmed price text, `"INR"` without a price node and when no symbol occurs; always a code of the table |
| Adidas.ExtractCurrency | scrapper.py:101-108 | The method with its table scan returns `CurrencyOf` |
| Adidas.AdditionalData | scrapper.py:117-120 | Adidas pages always contribute an empty mapping |
| Scrape.SiteKey | scrapper.py:142 | Fails with an index error exactly when the URL has fewer than three `/`-segments or its host has no `.`; the key never holds `/` or `.` |
| Scrape.Resolve | scrapper.py:142-148 | Fails exactly when the key does; otherwise gives a scraper exactly when the lower-cased key is `nike` or `adidas`, the Nike scraper for `nike` and the Adidas scraper for `adidas` |
| Scrape.HostKey | scrapper.py:142 | On `scheme//host`, followed by nothing or by a `/`-path, the key is the host's second label whatever the path, and an index error when the host has no `.` |
| Scrape.SplitNoSep | scrapper.py:142 | Text without the separator splits into itself alone |
| Scrape.SameHostSameScraper | scrapper.py:142-148 | URLs with the same scheme and host dispatch to the same scraper, with or without a path |
| Scrape.BrandHost | scrapper.py:142-148 | On `scheme//sub.brand.tld`, with or without a `/`-path, the scraper is the one registered for the lower-cased brand label, or none |
| Scrape.SecondLabel | scrapper.py:142 | A host `a.b.c` splits on `.` into its three labels |
| Scrape.DotlessHost | scrapper.py:142 | A host without a dot makes the key derivation raise |
| Scrape.FirstFailure | scrapper.py:149-152 | No failure exactly when title, price and image all succeed; a title failure is reported before a price failure; the error is always one an extractor raises |
| Scrape.ScrapeProduct | scrapper.py:123-166 | A fetch failure comes first, then a key failure. An unknown site gives `None` without running any extractor; otherwise the item fails exactly when title, price or image fails, with the first such error. On success every field of the record is its extractor's result on the page, with the URL and the clock reading |

## Left out

- The HTTP request (curl_cffi with browser impersonation, timeout and status check) is left out as network I/O. Its outcome is an input of `Scrape.ScrapeProduct`: the parsed page or `FetchFailed`.
- BeautifulSoup's HTML parsing is left out as a foreign library. The page is given as a tree of `Html.Node`s, and each node's `.text` is taken as given rather than recomputed from its children.
- `scrape_products` is left out: it runs `scrape_product` on a thread pool and prints the results. It submits every product, so a duplicate URL is fetched and scraped once per occurrence. Its dictionary is keyed by URL and keeps only the last future for each URL, so only the last outcome is reported and a failure of an earlier one is never seen.
- `datetime.now(timezone.utc)` is left out as the clock. The timestamp is a parameter (`now`).
- The logging `print` calls are left out as output only.
- The database layer (db.py) is left out, and so are the ORM columns and defaults of models.py (the uuid `id`, `is_active`, `is_deleted`), the pydantic `AIScrapperResult`, main.py and scripts/products.py. None of them is part of the scrape.
- `session_headers` and `ai_scrapper_task` in constants.py are left out: they are configuration strings that no modelled code reads.
- Decimals.ParseFloat: is weaker than Python's `float`. It accepts only the plain positional form (optional sign and ASCII digits with at most one point), after stripping the same whitespace `float` strips. Exponents, `inf`/`nan`, underscores and non-ASCII digits are rejected, although Python accepts them. Values are exact decimals, with no binary rounding and no signed zero.
- Number.KeepNumeric: keeps only ASCII digits. Python's `\d` also matches other Unicode decimal digits.
- Text.Lower: lower-cases ASCII letters only. Python's `lower()` handles all of Unicode.
- The abstract `BaseScraper` class has no behaviour of its own. Its two concrete scrapers are the `Scrape.Scrapper` datatype.
