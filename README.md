# Smartphone scraper, modelled in Dafny

A model of `App\Scrape`, the class that scrapes the smartphone listing
(`https://www.magpiehq.com/developer-challenge/smartphones`) into `Product`
records. The model has five modules:

- `Wrappers` — an `Option` datatype. It stands for PHP's nullable values and for
  Product fields that were never set.
- `Text` — the PHP string builtins the scraper relies on:
  - `strtolower` (ASCII case folding);
  - `str_contains` on a lower-cased haystack;
  - `trim`;
  - `str_ireplace` with an empty replacement.
- `Normalise` — the four helpers:
  - `capacityStringToMb`;
  - `cleanUrl`;
  - `trimAvailability`;
  - `trimUntilValidDate`, whose `strtotime` is a parameter `parse`. In `parse`,
    `None` stands for `false`.
- `Extraction` — the per-card closure of `scrape()`:
  - the duplicate-title check against the products held before the call;
  - the capacity, the image URL, the colours and the price text;
  - the availability/shipping text loop.

  It also covers the extraction of a whole page into a list of
  Product-or-null slots.
- `Scraping` — the pagination pass, the final null filter, and the `products`
  / `pages` state of a `Scraper` object:
  - `Scrape` and `Run` are methods that update that state;
  - each is proved equal to the specification function `ScrapeSpec`.

  `ScrapeHelper::fetchDocument` is the parameter `fetch`, and its `die()` on an
  HTTP error is `None`.

A page is given as already-extracted data:

- `Page` is its product cards and its pagination links.
- `Card` holds, per card:
  - the title text;
  - the capacity text;
  - the image `src`;
  - the `data-colour` values;
  - the price text;
  - the texts of the `.my-4.text-sm` children in document order.

A capacity text without any digit makes `capacityStringToMb` raise a
`TypeError` in PHP 8: the gigabyte branch computes `'' * 1024`, which is not
numeric, and the megabyte branch returns `''` from a function declared `int`. The model makes this
error path explicit:

- `CapacityStringToMb` returns `None`.
- The card becomes `Failed`.
- `Scrape` returns `false` and stops.

The model follows the code as written. In particular:

- **A capacity with no digits aborts the scrape.** PHP 8 raises a `TypeError`
  there, and nothing catches it.
- **Line 27 replaces `products`.** The comment at line 30 says repeated products
  are avoided by checking their titles. The check compares each card's title
  with the titles of the products held before that call, not with earlier cards
  of the same page. A fresh instance therefore keeps every card.
- **Sub-page products are appended without any title check.**
  - They are scraped with `deep = true` on a new instance.
  - The new instance's own list is empty, so the check there never drops a card.
- **Hrefs of active links are appended to `pages` unconditionally.**
- **Hrefs of non-active links are never recorded.** A non-active link that
  appears twice is fetched twice.
- **`trimUntilValidDate` always tries the whole text first,** however short it
  is.
  - It then tries the suffixes that start at index 1, 2, …, while they have at
    least two characters.
  - A timestamp of 0 counts as failure, because the loop tests `!$time`.
  - Strings are sequences of characters here, while PHP counts bytes; see
    "Left out".

## Model

| member | source | states |
|---|---|---|
| Text.Trim | src/Scrape.php:146 | trim() leaves no trim character at either end; its result is a slice of the input preceded and followed only by trim characters |
| Text.RemoveAllAbsent | src/Scrape.php:146 | str_ireplace (RemoveAllCI, matching through Lower/ContainsCI as strtolower and str_contains do) returns its subject unchanged when the subject has no case-insensitive occurrence of the search string |
| Normalise.Digits | src/Scrape.php:118 | the preg_replace keeps only digits, and its result is empty exactly when the text has no digit |
| Normalise.CapacityStringToMb | src/Scrape.php:116-125 | the conversion fails (TypeError) exactly when the text has no digit; otherwise the capacity is never negative |
| Normalise.DecimalRoundTrip | src/Scrape.php:118-124 | DecimalValue, the conversion of the digit string to an int at lines 121 and 124, reads back the digits of a rendered number as that number |
| Normalise.CapacityOfRenderedNumber | src/Scrape.php:109-125 | a number followed by a unit without digits converts to the number when the unit contains "mb" in any case, and to the number times 1024 otherwise |
| Normalise.CapacityExamples | src/Scrape.php:110-111 | "128MB" gives 128; "128GB" and "128 GB" give 131072 |
| Normalise.CleanUrl | src/Scrape.php:133-136 | ltrim(url, '.') is a suffix of the url, removes only full stops, and does not start with a full stop |
| Normalise.CleanUrlOfDottedPath | src/Scrape.php:127-136 | any number of leading full stops before a path that does not start with one are all removed, and the path comes back unchanged |
| Normalise.CleanUrlIdempotent | src/Scrape.php:133-136 | cleaning a cleaned url changes nothing |
| Normalise.TrimAvailability | src/Scrape.php:144-147 | the result has no trim character at either end |
| Normalise.TrimAvailabilityWithoutLabel | src/Scrape.php:144-147 | a text without "availability:" in any case is only trimmed |
| Normalise.TrimAvailabilityOfLabelled | src/Scrape.php:138-147 | a text that starts with "availability:" in any case, with no further occurrence of it, gives the trimmed rest: the label is trimmed from the beginning |
| Normalise.DateFromIsFirstAccepted | src/Scrape.php:160-168 | DateFrom, the loop from suffix k onwards, finds a date exactly when some tried suffix parses to a non-zero time, and it returns the first such time |
| Normalise.FirstValidDateIsFirstAccepted | src/Scrape.php:156-175 | FirstValidDate: a date is found exactly when the whole text or some suffix of two or more characters is accepted (Accepts: parses to a non-zero time, the negation of `!$time` at line 160); the date is the time of the first one, the whole text first and then shorter and shorter suffixes |
| Normalise.TrimUntilValidDate | src/Scrape.php:156-175 | the loop returns the first accepted time, as FirstValidDate defines it |
| Extraction.ApplyTexts | src/Scrape.php:61-78 | the text loop never changes the title, price, image, capacity or colours of the product |
| Extraction.LastWhere | src/Scrape.php:61-78 | the index of the last availability text (or last other text), or -1 when there is none |
| Extraction.AvailabilityFromLastAvailabilityText | src/Scrape.php:66-73 | after the loop, the availability text and flag come from the last text that mentions "availability" (IsAvailabilityText, line 68); the flag is false exactly when the trimmed text contains "out of"; with no such text, both keep their previous values |
| Extraction.ShippingFromLastOtherText | src/Scrape.php:74-77 | after the loop, the shipping text and date come from the last text that does not mention "availability", with the date being the first valid date of that text; with no such text, both keep their previous values |
| Extraction.ApplyTextStep | src/Scrape.php:65-78 | one pass of the inner closure equals ApplyText (lines 66-77): an availability text sets the availability text and flag, any other text sets the shipping text and its first valid date |
| Extraction.OutOfStockExample | src/Scrape.php:65-73 | "Availability: Out of Stock" gives the availability text "Out of Stock" and an unavailable product |
| Extraction.CardOutcome | src/Scrape.php:27-80 | CardSpec, the closure's result, built on BaseProduct (the fields set at lines 38-58): a card is dropped exactly when its title is already held; otherwise it fails exactly when its capacity has no digit; an extracted product carries the card's title and capacity in MB, and its image URL is BASE_URL followed by the src with leading full stops removed |
| Extraction.ExtractCard | src/Scrape.php:27-80 | the closure's result for one card equals CardSpec |
| Extraction.ExtractPage | src/Scrape.php:27-81 | equals PageSpec: the page yields Slots, one Slot per card (the closure's null or Product) in document order (null for a dropped card), or fails as a whole when any card fails |
| Extraction.Compact | src/Scrape.php:105-106 | array_filter leaves only products and never lengthens the list |
| Extraction.CompactAppend | src/Scrape.php:100-106 | removing nulls after a merge is the same as removing them from each part |
| Extraction.TitlesOfCompact | src/Scrape.php:105-106 | removing nulls keeps the titles of the products, in order |
| Extraction.SurvivorsInDocumentOrder | src/Scrape.php:27-38 | the titles left after filtering are exactly the titles of the cards whose title was not in TitleSet of the products held before the call (the array_map searched by in_array at lines 32-34), in document order |
| Extraction.NothingHeldNoNulls | src/Scrape.php:30-36 | with no products held, a page that succeeds has no null slot |
| Extraction.NothingHeldKeepsEveryTitle | src/Scrape.php:30-36 | with no products held, every card's title survives |
| Extraction.SamePageDuplicatesBothKept | src/Scrape.php:30-38 | two cards with the same new title on one page are both kept, because the check looks only at products held before the call |
| Scraping.SubPageProducts | src/Scrape.php:98-99 | a sub-page that is fetched and scraped yields products only, with no null among them |
| Scraping.ScrapeSpec | src/Scrape.php:25-107 | a successful scrape leaves only products (no null) |
| Scraping.PagesGrowOnlyByActiveLinks | src/Scrape.php:87-93 | after Paginate (LinkStep on each link, Href building the URL as at line 88), pages is its old value followed by the hrefs of the active links, in link order |
| Scraping.SubPagesAppendedInLinkOrder | src/Scrape.php:87-102 | Paginate succeeds exactly when every fetched href (a non-active link whose href is not in pages) can be fetched and scraped; the products are then the old ones followed by each sub-page's products, in link order |
| Scraping.RepeatedLinkFetchedTwice | src/Scrape.php:91-101 | a non-active link that appears twice is fetched twice, and its products are appended twice |
| Scraping.ScrapeOutcome | src/Scrape.php:25-107 | with cards checked against TitleSet of the old products, the scrape fails exactly when a card fails or a fetched sub-page fails; otherwise the products are the filtered page slots followed by the sub-page products, and pages grows by the active hrefs (deep: nothing is fetched and pages is unchanged) |
| Scraping.DeepScrapeFetchesNothing | src/Scrape.php:84 | a deep scrape does not depend on fetch and leaves pages unchanged |
| Scraping.FreshInstanceKeepsEveryCard | src/Scrape.php:27-38 | on a fresh instance a successful scrape begins with one product per card, in document order |
| Scraping.Scraper.constructor | src/Scrape.php:13-14 | a new instance holds no products and no pages |
| Scraping.Scraper.Scrape | src/Scrape.php:25-107 | the new products, pages and success flag are those of ScrapeSpec on the old state, and a successful scrape leaves no null behind |
| Scraping.Scraper.Run | src/Scrape.php:16-23 | the start page is fetched and scraped non-deep; when it cannot be fetched the run stops and the state is unchanged; a successful run leaves no null among the products |

## Left out

- HTTP (`ScrapeHelper::fetchDocument`, Guzzle): modelled only as the `fetch` parameter.
  - A failed request, which calls `die()`, becomes `None`.
- The DOM (Symfony DomCrawler):
  - Selector matching is replaced by the `Card` and `Page` values.
  - A missing element is not modelled. In PHP, `text()` on an empty node list throws, and a missing `src` gives `null` to `cleanUrl`.
- `floatval(ltrim(price, '£'))`: floating point is out of scope, so the price is kept as its text.
- `strtotime` and `DateTime`: the date grammar is the `parse` parameter.
  - The model assumes the two `strtotime` calls on the same text agree. In PHP, a relative date depends on the clock between them.
  - The `catch` around `new DateTime('@…')` is not modelled. An integer timestamp cannot make it throw.
  - A date is kept as its timestamp.
- `file_put_contents('output.json', json_encode(...))` (line 22) is not modelled.
  - `array_filter` keeps the array keys. When a null was removed, the JSON is therefore an object, not a list. The model renumbers.
- `in_array` uses loose comparison. Two numeric-looking titles such as "1e1" and "10" compare equal in PHP; the model compares titles as strings.
- Normalise.CapacityStringToMb: integers are unbounded.
  - PHP turns a product beyond `PHP_INT_MAX` into a float.
  - PHP returns a digit string too long for an int as a float. The `int` return type then rejects it.
- `Product` is a PHP object. The model uses a value, since no Product is shared or updated after the closure returns.
- A PHP error ends the process. The model instead returns `false` and leaves the state that the failing step left.
- Strings are modelled as sequences of characters, but PHP's `substr` and `strlen` count bytes.
  - In `trimUntilValidDate` (lines 161-163), PHP drops one byte per step and stops at one byte.
  - On non-ASCII text PHP therefore tries suffixes that start inside a multi-byte character, and it tries a two-byte final character that the model never passes to `parse`.
  - The two agree on ASCII text.
- Colours: a `span` without `data-colour` gives `null`, which the model keeps as `None`.
