# egrocery spiders, modelled in Dafny

This project models the core of the egrocery price scraper. That core is three Scrapy spiders. Each one walks a grocery site's catalogue and yields one flat record per product (store, city, category, product id, name, brand, price in tenge, currency, unit, source).

- **arbuz.kz** (`ArbuzConfig`, `ArbuzProducts`, `ArbuzCategories`, `ArbuzSpider`).
  - The spider finds the JSON object assigned to `window.platformConfiguration` in a category page. It scans from the opening brace with a depth counter that ignores braces inside strings and escaped quotes.
  - It turns each product dict of that object, or of a catalogue API response, into a record or discards it. A record with a non-string name or brand raises, and that ends the callback.
  - It keeps the per-category set `seen_ids` of product ids already yielded. Each callback yields only ids not in that set.
  - It decides whether to request the next API page.
  - It also discovers categories on a page: from anchors first, and from a regex over the raw HTML only when no anchor gives one.
  - The spider is a class with the fields `jwt` and `seenIds`. Its callbacks update `seenIds` in place.
- **clevermarket.kz** (`Clever`, `CleverScroll`).
  - It cleans whitespace.
  - It builds the category index: catalogue links deduplicated by category id, capped at forty.
  - It runs the load-more loop. The loop stops once the card count has stayed the same for two rounds, or after sixty rounds.
  - It deduplicates product cards by the last path segment of their link and builds one record per kept card.
  - It extracts the unit from a price text. It derives a category name from the `og:image` file name, else from the page title.
- **vkusmart.vmv.kz** (`Vkusmart`).
  - It clamps the `max_categories` argument, following Python's `int()` of a string.
  - It filters, joins and deduplicates catalogue links, then truncates them to `max_categories`. The class `VkusmartSpider` holds `maxCategories`.
  - It builds the records of a category page and finds the next-page link.

`Text` holds what the spiders share:
- `to_int_price`, which keeps the digits of a text and reads them as a decimal;
- `str.strip` and the collapsing of whitespace runs;
- substring search;
- the "int when all digits, text otherwise" rule for ids.

`Json` models decoded JSON values. A dict keeps insertion order.

Everything the spiders receive from outside is a parameter of the model:
- HTML reached through CSS queries becomes the fields of a `Card` or `Anchor` value, or a sequence of hrefs.
- `json.loads` becomes a function `parse: string -> Option<Json>`.
- `response.urljoin` becomes a function `string -> string`.
- The browser's card count at each round of the load-more loop becomes a function `count: nat -> nat`.
- Each API response becomes a status code and a decoded body.

Requests are reduced to what they ask for: an `ApiRequest` (category, page, limit), a category URL, or a next-page link.

## Model

| member | source | states |
|---|---|---|
| Text.ToIntPrice | egrocery_scraper/egrocery_scraper/spiders/clever_spider.py:8-12 | None exactly when the text is missing or holds no digit; otherwise the decimal value of its digits in order, every other character ignored |
| Text.ToIntPriceReadsDecimal | egrocery_scraper/egrocery_scraper/spiders/vkusmart.py:8-12 | a number written out between texts without digits reads back as itself |
| Text.IdOf | egrocery_scraper/egrocery_scraper/spiders/vkusmart.py:132 | an id is an int exactly when its text is non-empty and all digits, and then it is that text's decimal value; otherwise the text is kept unchanged |
| Text.IdOfNumber | egrocery_scraper/egrocery_scraper/spiders/clever_spider.py:187 | a product id written as a number comes back as that int |
| Text.IdOfLeadingZero | egrocery_scraper/egrocery_scraper/spiders/clever_spider.py:186-187 | the ids "012" and "12" both become the int 12, although deduplication treats them as different texts |
| Text.StripIdempotent | egrocery_scraper/egrocery_scraper/spiders/vkusmart.py:109 | stripping twice is stripping once |
| Text.Strip | egrocery_scraper/egrocery_scraper/spiders/vkusmart.py:109 | `str.strip()`: the text between the leading and the trailing whitespace of s, both of which are all whitespace; trimmed, and empty exactly when s is all whitespace |
| Text.StripSplit | egrocery_scraper/egrocery_scraper/spiders/vkusmart.py:109 | a text is its leading whitespace, its stripped text and its trailing whitespace, in that order |
| Text.DigitsOfStrip | egrocery_scraper/egrocery_scraper/spiders/arbuz.py:246-250 | stripping never changes the digits of a text |
| Text.Collapse | egrocery_scraper/egrocery_scraper/spiders/clever_spider.py:18 | `re.sub(r"\s+", " ", s).strip()`: trimmed, no two spaces in a row, empty exactly when s is all whitespace, and the same non-whitespace characters in the same order as s |
| Text.NonSpaceOfStrip | egrocery_scraper/egrocery_scraper/spiders/clever_spider.py:18 | stripping removes whitespace only: the non-whitespace characters stay, in order |
| Text.NonSpaceOfSquash | egrocery_scraper/egrocery_scraper/spiders/clever_spider.py:18 | replacing whitespace runs by one space leaves the non-whitespace characters as they were, in order |
| Json.Or | egrocery_scraper/egrocery_scraper/spiders/arbuz.py:256 | Python `a or b`: truthy exactly when either is; a when a is truthy and b when it is not |
| ArbuzConfig.Step | egrocery_scraper/egrocery_scraper/spiders/arbuz.py:406-422 | one scanner step: inside a string, and outside it on any character but a brace, the depth does not change |
| ArbuzConfig.BraceStart | egrocery_scraper/egrocery_scraper/spiders/arbuz.py:386-397 | the position found after the marker and the `=` holds an opening brace |
| ArbuzConfig.ExtractCandidate | egrocery_scraper/egrocery_scraper/spiders/arbuz.py:386-430 | the three searches and the scanning loop compute ConfigText, and a text they return starts with `{` and ends with `}` |
| ArbuzConfig.CutBalanced | egrocery_scraper/egrocery_scraper/spiders/arbuz.py:399-424 | the scanning loop from the opening brace returns the slice up to the brace that brings the depth back to 0 outside a string, which starts with `{` and ends with `}` |
| ArbuzConfig.ExtractPlatformConfiguration | egrocery_scraper/egrocery_scraper/spiders/arbuz.py:384-430 | returns the decoding of the extracted text, or None when there is no text or it does not decode |
| ArbuzConfig.ScanFindsFirstClose | egrocery_scraper/egrocery_scraper/spiders/arbuz.py:403-424 | the scan from a position stops at the first later position where the depth returns to 0 outside a string, and finds nothing when there is none |
| ArbuzConfig.DepthPositiveBeforeClose | egrocery_scraper/egrocery_scraper/spiders/arbuz.py:419-423 | before the first closing position the depth stays at least 1 |
| ArbuzConfig.ConfigTextNoneCases | egrocery_scraper/egrocery_scraper/spiders/arbuz.py:386-430 | nothing is extracted exactly when the marker, the `=` after it or the `{` after that is missing, or when the depth never returns to 0 |
| ArbuzConfig.ConfigTextIsFirstBalancedSpan | egrocery_scraper/egrocery_scraper/spiders/arbuz.py:399-424 | an extracted text is the page slice from the opening brace to the first balanced closing brace, with depth at least 1 inside |
| ArbuzConfig.QuotedBraceIgnored | egrocery_scraper/egrocery_scraper/spiders/arbuz.py:411-417 | a brace inside a JSON string does not count |
| ArbuzConfig.EscapedQuoteIgnored | egrocery_scraper/egrocery_scraper/spiders/arbuz.py:407-410 | an escaped quote does not end a string |
| ArbuzConfig.UnbalancedGivesNothing | egrocery_scraper/egrocery_scraper/spiders/arbuz.py:430 | an object whose braces never balance gives nothing |
| ArbuzProducts.ToInt | egrocery_scraper/egrocery_scraper/spiders/arbuz.py:240-250 | None and JSON null give None; an int or bool is taken as it is; a string gives the decimal value of its digits, or None when it has none |
| ArbuzProducts.TextToInt | egrocery_scraper/egrocery_scraper/spiders/arbuz.py:246-250 | a string gives a number exactly when it has a digit, and that number is the value of its digits |
| ArbuzProducts.ToIntAgreesWithToIntPrice | egrocery_scraper/egrocery_scraper/spiders/arbuz.py:246-250 | on strings `_to_int` and `to_int_price` agree: the strip it does first never changes the digits |
| ArbuzProducts.ToIntReadsText | egrocery_scraper/egrocery_scraper/spiders/arbuz.py:246-250 | a number written as text reads back as itself |
| ArbuzProducts.ToIntDropsSignOfText | egrocery_scraper/egrocery_scraper/spiders/arbuz.py:249 | the text "-n" reads as n, because a sign is not a digit |
| ArbuzProducts.StripField | egrocery_scraper/egrocery_scraper/spiders/arbuz.py:261-265 | `(v or "").strip()`: a falsy value gives the empty text, a string gives `str.strip()` of it, and any other truthy value raises |
| ArbuzProducts.PriceField | egrocery_scraper/egrocery_scraper/spiders/arbuz.py:267-269 | a `price` that is not None is used as it is |
| ArbuzProducts.UnitField | egrocery_scraper/egrocery_scraper/spiders/arbuz.py:272-273 | `measure or unit or measure_unit`, stripped: no unit when that value is falsy, not a string or blank, and otherwise the stripped text, which is non-empty |
| ArbuzProducts.BuildItem | egrocery_scraper/egrocery_scraper/spiders/arbuz.py:252-287 | a non-dict is discarded; a record comes out exactly when the id resolves, the name is a string that is non-empty after stripping and the brand is a string or falsy; the call raises exactly when the id resolves and either the name is a truthy non-string, or the name is non-empty and the brand a truthy non-string; a record carries the resolved id, the stripped name, the stripped brand or None when empty, the resolved price, the unit of UnitField and the given category and source |
| ArbuzProducts.NormalizeTwice | egrocery_scraper/egrocery_scraper/spiders/arbuz.py:252-287 | a record written back as a product dict normalises to itself |
| ArbuzProducts.BuildFromFields | egrocery_scraper/egrocery_scraper/spiders/arbuz.py:252-287 | a dict whose id, name, brand, unit and price fields read as a record's gives that record |
| ArbuzProducts.PriceFallback | egrocery_scraper/egrocery_scraper/spiders/arbuz.py:267-270 | when `price` is None the price is `prices.price` if `prices` is a dict, and a price that does not resolve leaves the record's price None without discarding it |
| ArbuzProducts.FirstPriorityList | egrocery_scraper/egrocery_scraper/spiders/arbuz.py:372-375 | the list under the first priority key whose value is a non-empty list of dicts, or nothing when no key qualifies |
| ArbuzProducts.FindProductsList | egrocery_scraper/egrocery_scraper/spiders/arbuz.py:364-382 | empty or a list starting with a dict; a list is returned as it is exactly when it is non-empty and starts with a dict; in a dict, a list of dicts under the first qualifying priority key is the result, and without one the search over the values in order (FindInValues); any other value gives nothing |
| ArbuzProducts.FindInValues | egrocery_scraper/egrocery_scraper/spiders/arbuz.py:377-380 | the depth-first search over a dict's values from the i-th on returns empty or a list starting with a dict (FindInValuesFirst states which list) |
| ArbuzProducts.FindInValuesFirst | egrocery_scraper/egrocery_scraper/spiders/arbuz.py:377-380 | the search over the values finds nothing exactly when no value's own search finds a list; otherwise it returns the list found in the first value, in dict order, whose search finds one |
| ArbuzProducts.FoundListQualifies | egrocery_scraper/egrocery_scraper/spiders/arbuz.py:364-382 | a list the search returns qualifies: it is a non-empty list starting with a dict, or a non-empty list of dicts under a priority key, found in the response through dict values only |
| ArbuzProducts.ValuesQualify | egrocery_scraper/egrocery_scraper/spiders/arbuz.py:377-380 | a list the search over a dict's values returns qualifies inside that dict |
| ArbuzProducts.FindComplete | egrocery_scraper/egrocery_scraper/spiders/arbuz.py:364-382 | whenever some qualifying list lies in the response, the search finds a list |
| ArbuzProducts.PriorityKeysFirst | egrocery_scraper/egrocery_scraper/spiders/arbuz.py:372-375 | the first of data, items, products and result that holds a non-empty list of dicts wins over any deeper list |
| ArbuzCategories.CategoryIdFromUrl | egrocery_scraper/egrocery_scraper/spiders/arbuz.py:289-292 | None exactly when no `/cat/<digits>-` occurs; otherwise the value of the digits at the first occurrence |
| ArbuzCategories.CategoryIdRoundTrip | egrocery_scraper/egrocery_scraper/spiders/arbuz.py:289-292 | the id written into `/cat/<n>-<slug>` is read back as n |
| ArbuzCategories.AbsoluteUrl | egrocery_scraper/egrocery_scraper/spiders/arbuz.py:304-307 | a site-relative href gets the site prefix, any other is kept |
| ArbuzCategories.Hint | egrocery_scraper/egrocery_scraper/spiders/arbuz.py:313-315 | the name hint is None exactly for a blank text; otherwise it is the text stripped with whitespace runs collapsed, non-empty and with the same non-whitespace characters as the text |
| ArbuzCategories.AnchorKey | egrocery_scraper/egrocery_scraper/spiders/arbuz.py:302-317 | an anchor gives no key exactly when its absolute URL has no `/cat/<digits>-` or the id there is 0; otherwise the key is that id and the absolute URL cut before its first `#` |
| ArbuzCategories.ExtractCategories | egrocery_scraper/egrocery_scraper/spiders/arbuz.py:294-338 | the two loops compute Categories: the anchors' categories, or the regex matches' when the anchors give none |
| ArbuzCategories.StructuredPassKeys | egrocery_scraper/egrocery_scraper/spiders/arbuz.py:300-326 | the anchor loop lists each qualifying anchor's (id, url) key exactly once, each with a nonzero id |
| ArbuzCategories.FallbackPassConsistent | egrocery_scraper/egrocery_scraper/spiders/arbuz.py:328-336 | the regex loop keeps the seen set equal to the listed keys, with no key twice |
| ArbuzCategories.CategoriesDistinct | egrocery_scraper/egrocery_scraper/spiders/arbuz.py:294-338 | the result lists distinct (id, url) pairs and no URL has a fragment |
| ArbuzCategories.FallbackOnlyWhenNoAnchor | egrocery_scraper/egrocery_scraper/spiders/arbuz.py:328 | once one anchor gives a category, the regex matches are ignored |
| ArbuzCategories.FallbackHasNoHints | egrocery_scraper/egrocery_scraper/spiders/arbuz.py:328-336 | when no anchor qualifies, the categories are those of the regex loop alone, none carries a name hint, and their (id, url) keys are distinct |
| ArbuzCategories.NoAnchorNothing | egrocery_scraper/egrocery_scraper/spiders/arbuz.py:308-311 | anchors without a nonzero id contribute nothing |
| ArbuzSpider.Candidates | egrocery_scraper/egrocery_scraper/spiders/arbuz.py:130-136 | one BuildItem outcome per product, in order, with source "arbuz.kz" |
| ArbuzSpider.Spider.constructor | egrocery_scraper/egrocery_scraper/spiders/arbuz.py:56-58 | the token starts as given and seen_ids starts empty |
| ArbuzSpider.Spider.AbsorbProducts | egrocery_scraper/egrocery_scraper/spiders/arbuz.py:189-204 | the product loop yields what Absorb yields, stores the grown seen set under the category only, counts the records yielded, and leaves the token alone |
| ArbuzSpider.Spider.ParseCategoryHtml | egrocery_scraper/egrocery_scraper/spiders/arbuz.py:117-165 | yields and stores exactly what HtmlResult gives for the old seen set and token |
| ArbuzSpider.Spider.ParseCategoryApi | egrocery_scraper/egrocery_scraper/spiders/arbuz.py:167-228 | yields and stores exactly what ApiResult gives for the old seen set |
| ArbuzSpider.AbsorbDedups | egrocery_scraper/egrocery_scraper/spiders/arbuz.py:197-204 | records are yielded only for ids not seen before and pairwise distinct, and the seen set grows by exactly their ids |
| ArbuzSpider.AbsorbComplete | egrocery_scraper/egrocery_scraper/spiders/arbuz.py:197-204 | unless a record raised, every normalised product whose id was not seen before has its id among the records yielded |
| ArbuzSpider.AbsorbSeenHas | egrocery_scraper/egrocery_scraper/spiders/arbuz.py:199-203 | unless a record raised, every normalised product's id ends up in the seen set |
| ArbuzSpider.AbsorbPrefix | egrocery_scraper/egrocery_scraper/spiders/arbuz.py:190-204 | records come out in product order: those yielded for a prefix of the products are a prefix of those yielded for all of them |
| ArbuzSpider.AbsorbGrowsSeen | egrocery_scraper/egrocery_scraper/spiders/arbuz.py:199-203 | the seen set only grows, by as many ids as new_count |
| ArbuzSpider.AbsorbEmitsCandidates | egrocery_scraper/egrocery_scraper/spiders/arbuz.py:190-204 | every yielded record is the normalisation of one of the products |
| ArbuzSpider.EmittedRecordsWellFormed | egrocery_scraper/egrocery_scraper/spiders/arbuz.py:190-204 | every yielded record is well formed and belongs to the category in hand |
| ArbuzSpider.AbsorbTwiceDisjoint | egrocery_scraper/egrocery_scraper/spiders/arbuz.py:140-142 | two responses for one category never yield the same id |
| ArbuzSpider.StaleListEmitsNothing | egrocery_scraper/egrocery_scraper/spiders/arbuz.py:197-201 | a list of discarded or already-seen products yields nothing and leaves the seen set alone |
| ArbuzSpider.NextPageRule | egrocery_scraper/egrocery_scraper/spiders/arbuz.py:206-218 | the next page is requested exactly when the response was accepted and held products, the loop ran to the end, the page is below 200, the list was full and something new came out; the request is for the next page with the same limit |
| ArbuzSpider.NextPageBelowCeiling | egrocery_scraper/egrocery_scraper/spiders/arbuz.py:206-207 | no next page is requested from page 200 or beyond |
| ArbuzSpider.StalePageStops | egrocery_scraper/egrocery_scraper/spiders/arbuz.py:209 | a page that yields nothing new ends the walk |
| ArbuzSpider.FailedResponseYieldsNothing | egrocery_scraper/egrocery_scraper/spiders/arbuz.py:174-187 | a 401 or 403, an undecodable body, or a body without a products list yields and requests nothing |
| ArbuzSpider.MissingConfigStops | egrocery_scraper/egrocery_scraper/spiders/arbuz.py:121-124 | when the configuration is missing or falsy the page yields nothing, requests no API page even with a token, and leaves the seen set alone |
| ArbuzSpider.FirstApiPageRule | egrocery_scraper/egrocery_scraper/spiders/arbuz.py:126-156 | the first API page (page 1, limit 40) is requested exactly when the configuration is a truthy dict whose products could be read, the loop ran to the end and a token is at hand |
| ArbuzSpider.ApiWalkBounded | egrocery_scraper/egrocery_scraper/spiders/arbuz.py:18-19 | a walk from page p reads at most 200 - p + 1 responses |
| Clever.CleanText | egrocery_scraper/egrocery_scraper/spiders/clever_spider.py:15-19 | None exactly for a missing or blank text; otherwise the text with whitespace runs collapsed and stripped, non-empty, with the same non-whitespace characters |
| Clever.CleanTextIdempotent | egrocery_scraper/egrocery_scraper/spiders/clever_spider.py:15-19 | cleaning twice is cleaning once |
| Clever.CatalogId | egrocery_scraper/egrocery_scraper/spiders/clever_spider.py:68-71 | None exactly when no `/supermarket/catalog/<slug>/<digits>` occurs; otherwise the digit run of the leftmost occurrence |
| Clever.CatalogIdRoundTrip | egrocery_scraper/egrocery_scraper/spiders/clever_spider.py:68-71 | the id written into a catalogue URL is read back |
| Clever.CleanLinks | egrocery_scraper/egrocery_scraper/spiders/clever_spider.py:61 | every non-empty link appears cut before its first `#`, and every cleaned link comes from a non-empty link that way; no cleaned link holds a `#` |
| Clever.CleanLinksAppend | egrocery_scraper/egrocery_scraper/spiders/clever_spider.py:61 | cleaning works link by link and keeps the order of the links |
| Clever.ParseCategoryIndex | egrocery_scraper/egrocery_scraper/spiders/clever_spider.py:59-86 | the loops compute CategoryRequests: the first forty deduplicated categories |
| Clever.IndexPassDedups | egrocery_scraper/egrocery_scraper/spiders/clever_spider.py:63-77 | one category per distinct id, and the seen set holds exactly the listed ids |
| Clever.IndexPassUrls | egrocery_scraper/egrocery_scraper/spiders/clever_spider.py:67-77 | every listed URL yields the id it is listed with |
| Clever.IndexPassFinds | egrocery_scraper/egrocery_scraper/spiders/clever_spider.py:66-75 | the listed ids are exactly the ids the links yield |
| Clever.IndexPassPrefix | egrocery_scraper/egrocery_scraper/spiders/clever_spider.py:65-77 | first-seen order: the categories listed from a prefix of the links are a prefix of those listed from all of them |
| Clever.CategoryRequestsBounded | egrocery_scraper/egrocery_scraper/spiders/clever_spider.py:85-86 | the requests are the first min(n, 40) of the n categories found, in order, with distinct ids, each URL carrying its id |
| Clever.LowerText | egrocery_scraper/egrocery_scraper/spiders/clever_spider.py:200 | lower-cases each character, keeping the length |
| Clever.FirstSlashUnit | egrocery_scraper/egrocery_scraper/spiders/clever_spider.py:201 | the first position where a slash, optional spaces and a unit letter occur |
| Clever.WordFrom | egrocery_scraper/egrocery_scraper/spiders/clever_spider.py:204 | a word found at a position is one of the alternatives and matches there as a whole word; none is found when none matches there |
| Clever.WordFromAt | egrocery_scraper/egrocery_scraper/spiders/clever_spider.py:204 | the alternatives are tried in order: when the i-th is the first to match at a position, it is the one found |
| Clever.FirstWord | egrocery_scraper/egrocery_scraper/spiders/clever_spider.py:204 | a word found is one of the alternatives and stands as a whole word at or after the start; none is found exactly when no alternative does anywhere from the start |
| Clever.FirstWordAt | egrocery_scraper/egrocery_scraper/spiders/clever_spider.py:204 | the search is leftmost: when k is the first position where an alternative matches, the word found is the one WordFrom picks at k |
| Clever.ExtractUnitFromPrice | egrocery_scraper/egrocery_scraper/spiders/clever_spider.py:196-207 | nothing for a missing or empty price text; a unit it finds is a non-empty run of letters and dots |
| Clever.ExtractUnitIsGroup | egrocery_scraper/egrocery_scraper/spiders/clever_spider.py:200-206 | the unit is the captured group of the lower-cased text, which the strip never changes |
| Clever.ExtractUnitBranches | egrocery_scraper/egrocery_scraper/spiders/clever_spider.py:196-207 | for every non-empty price text: when some slash is followed by unit letters, the unit is the letters after the first such slash; when none is, it is the first standalone unit word, or nothing |
| Clever.UnitAfterSlash | egrocery_scraper/egrocery_scraper/spiders/clever_spider.py:201-203 | "/Кг" gives "кг" |
| Clever.UnitWordWithoutSlash | egrocery_scraper/egrocery_scraper/spiders/clever_spider.py:201-206 | when no slash is followed by unit letters, the unit is the first standalone unit word |
| Clever.UnitWordStandalone | egrocery_scraper/egrocery_scraper/spiders/clever_spider.py:204-206 | "1 КГ" gives "кг" |
| Clever.SlashBeforeQuantity | egrocery_scraper/egrocery_scraper/spiders/clever_spider.py:201-206 | "200 ₸ / 1 кг" gives "кг": a slash followed by a quantity does not count, and the word branch decides |
| Clever.SplitExtBase | egrocery_scraper/egrocery_scraper/spiders/clever_spider.py:214 | `os.path.splitext(f)[0]`: a prefix of the name; when it cuts, it cuts at the last dot and something other than dots precedes it; when it does not cut, every last dot has only dots before it |
| Clever.DropSizePrefixOf | egrocery_scraper/egrocery_scraper/spiders/clever_spider.py:216 | a leading `S_<size>_` is removed |
| Clever.DropSizePrefixOnly | egrocery_scraper/egrocery_scraper/spiders/clever_spider.py:216 | nothing else comes off: a name that changes is `S_`, a non-empty run of digits and dots, `_` and the result |
| Clever.CommaReplaceRedundant | egrocery_scraper/egrocery_scraper/spiders/clever_spider.py:217-218 | replacing ",_" before replacing "_" changes nothing |
| Clever.ImageName | egrocery_scraper/egrocery_scraper/spiders/clever_spider.py:211-219 | the file name is the last path segment before any `?`, the extension and the `S_<size>_` prefix come off, underscores become spaces and whitespace is collapsed; the result is trimmed, single-spaced and holds no underscore |
| Clever.TitleHeadNonEmpty | egrocery_scraper/egrocery_scraper/spiders/clever_spider.py:230-231 | the head of a non-empty stripped title is non-empty, so the fallback on line 231 is never taken |
| Clever.ExtractCategoryName | egrocery_scraper/egrocery_scraper/spiders/clever_spider.py:209-233 | never empty, and the image name whenever it gives text |
| Clever.CategoryNameFallback | egrocery_scraper/egrocery_scraper/spiders/clever_spider.py:223-233 | without an image name, the title head is used if there is a title, and `category_<id>` otherwise |
| Clever.ProductSegmentSplits | egrocery_scraper/egrocery_scraper/spiders/clever_spider.py:160 | the product segment is `href.rstrip("/").split("/")[-1]` |
| Clever.CardRecord | egrocery_scraper/egrocery_scraper/spiders/clever_spider.py:165-194 | the name is the cleaned title, else the cleaned title text; the brand the cleaned brand, else the cleaned subtitle; the price `to_int_price` of the cleaned price text, else the alternative; the unit the cleaned measure, else the unit read from that price text; ids follow the int-when-digits rule; store, city, currency and source are the constants |
| Clever.CleanFirst | egrocery_scraper/egrocery_scraper/spiders/clever_spider.py:165-171 | `clean_text(a)`, or `clean_text(b)` when that gives nothing: nothing exactly when both are missing or blank |
| Clever.Records | egrocery_scraper/egrocery_scraper/spiders/clever_spider.py:182-194 | one record per kept card (RecordsAt gives the record at each position) |
| Clever.RecordsAt | egrocery_scraper/egrocery_scraper/spiders/clever_spider.py:182-194 | the record at each position is CardRecord of the card kept at that position, with its segment and the page's category |
| Clever.ParseCards | egrocery_scraper/egrocery_scraper/spiders/clever_spider.py:153-194 | the card loop yields the records of the cards the deduplicating pass keeps |
| Clever.CardPassDedups | egrocery_scraper/egrocery_scraper/spiders/clever_spider.py:153-163 | the kept segments are pairwise distinct and are what seen_products holds |
| Clever.CardPassComplete | egrocery_scraper/egrocery_scraper/spiders/clever_spider.py:155-163 | a card with a link always has its segment among the kept ones |
| Clever.CardPassKeepsLinks | egrocery_scraper/egrocery_scraper/spiders/clever_spider.py:156-158 | every kept card has a non-empty link, and its segment is that link's |
| Clever.CardPassPrefix | egrocery_scraper/egrocery_scraper/spiders/clever_spider.py:153-163 | first-seen order: the cards kept from a prefix of the cards are a prefix of those kept from all of them |
| CleverScroll.FirstSettled | egrocery_scraper/egrocery_scraper/spiders/clever_spider.py:113 | the first round from r on at which the count has settled, or 60 |
| CleverScroll.StreakSettled | egrocery_scraper/egrocery_scraper/spiders/clever_spider.py:119-123 | stable_rounds reaches 2 exactly when three readings in a row agree |
| CleverScroll.ScrollUntilStable | egrocery_scraper/egrocery_scraper/spiders/clever_spider.py:107-123 | the loop stops at the first settled round or at round 60; it stops with two stable rounds exactly when the count settled, and prev_count is the last reading |
| CleverScroll.FirstSettledIs | egrocery_scraper/egrocery_scraper/spiders/clever_spider.py:113 | a round before which nothing settled, and which is settled or the sixtieth, is the stop round |
| CleverScroll.StopsOnThirdEqualReading | egrocery_scraper/egrocery_scraper/spiders/clever_spider.py:113-123 | counts 5, 8, 8, 8, 12 stop after round 4 on 8 |
| CleverScroll.EmptyPageStopsAtRoundTwo | egrocery_scraper/egrocery_scraper/spiders/clever_spider.py:107-120 | a page that never shows a card stops after round 2, since prev_count starts at 0 |
| CleverScroll.ChangingCountRunsToLimit | egrocery_scraper/egrocery_scraper/spiders/clever_spider.py:110-113 | a count that changes every round runs all 60 rounds |
| Vkusmart.ParseIntRoundTrip | egrocery_scraper/egrocery_scraper/spiders/vkusmart.py:49 | `int()` of a number's text gives the number back |
| Vkusmart.ParseIntBlank | egrocery_scraper/egrocery_scraper/spiders/vkusmart.py:48-51 | a blank text does not parse |
| Vkusmart.ParseIntDoubleUnderscore | egrocery_scraper/egrocery_scraper/spiders/vkusmart.py:48-51 | "1__0" does not parse, because digit groups take one underscore |
| Vkusmart.ClampMaxCategories | egrocery_scraper/egrocery_scraper/spiders/vkusmart.py:46-51 | the result is at least 1; an int or a parsable text gives its value raised to 1; anything else gives 40 |
| Vkusmart.ClampTextNumber | egrocery_scraper/egrocery_scraper/spiders/vkusmart.py:49 | a number passed as text gives the same limit as the number |
| Vkusmart.UrlPassDistinct | egrocery_scraper/egrocery_scraper/spiders/vkusmart.py:58-70 | the URLs kept are pairwise distinct and seen holds exactly them |
| Vkusmart.UrlPassSound | egrocery_scraper/egrocery_scraper/spiders/vkusmart.py:58-70 | each kept URL is the join of an accepted href and names a category |
| Vkusmart.UrlPassComplete | egrocery_scraper/egrocery_scraper/spiders/vkusmart.py:58-70 | the join of every accepted href that names a category is kept |
| Vkusmart.UrlPassPrefix | egrocery_scraper/egrocery_scraper/spiders/vkusmart.py:58-70 | first-seen order: the URLs kept from a prefix of the hrefs are a prefix of those kept from all of them |
| Vkusmart.DropRoot | egrocery_scraper/egrocery_scraper/spiders/vkusmart.py:72 | the filter never makes the list longer (DropRootKeeps and DropRootAppend state its content and order) |
| Vkusmart.DropRootKeeps | egrocery_scraper/egrocery_scraper/spiders/vkusmart.py:72 | a URL survives the filter exactly when it was in the list and is not the catalogue root once its trailing slashes are dropped |
| Vkusmart.DropRootAppend | egrocery_scraper/egrocery_scraper/spiders/vkusmart.py:72 | the filter works URL by URL and keeps the order of the URLs |
| Vkusmart.DropRootOne | egrocery_scraper/egrocery_scraper/spiders/vkusmart.py:72 | a single URL is kept exactly when it is not the catalogue root |
| Vkusmart.RootFilterRedundant | egrocery_scraper/egrocery_scraper/spiders/vkusmart.py:67-72 | the root filter never drops a URL the loop kept |
| Vkusmart.CategoryUrlsSound | egrocery_scraper/egrocery_scraper/spiders/vkusmart.py:53-74 | the URLs followed are the first min(n, max_categories) of the n the loop kept, in order, distinct, each from an accepted href and naming a category |
| Vkusmart.StripOrNone | egrocery_scraper/egrocery_scraper/spiders/vkusmart.py:99 | `(s or "").strip() or None`: None exactly for a missing or blank text, otherwise `str.strip()` of it, non-empty |
| Vkusmart.StripOrNoneIdempotent | egrocery_scraper/egrocery_scraper/spiders/vkusmart.py:109-125 | applying it twice is applying it once |
| Vkusmart.FirstTruthy | egrocery_scraper/egrocery_scraper/spiders/vkusmart.py:114-116 | the first value when it is non-empty, else the second |
| Vkusmart.Currency | egrocery_scraper/egrocery_scraper/spiders/vkusmart.py:119-122 | "KZT" when neither source gives text, otherwise the first non-empty one stripped |
| Vkusmart.CurrencyBlank | egrocery_scraper/egrocery_scraper/spiders/vkusmart.py:119-122 | a whitespace-only currency gives the empty text, not "KZT" |
| Vkusmart.CardItem | egrocery_scraper/egrocery_scraper/spiders/vkusmart.py:103-140 | the name is the stripped meta name, else the title span; brand and unit are stripped or None; the price is read from the first non-empty price source; the currency is Currency of its two sources; the product id follows the int-when-digits rule; the category URL is the page's URL; store, city and source are the constants |
| Vkusmart.CategoryPageAt | egrocery_scraper/egrocery_scraper/spiders/vkusmart.py:98-140 | the i-th record of a page is the i-th card's, under the stripped h1 |
| Vkusmart.NextPage | egrocery_scraper/egrocery_scraper/spiders/vkusmart.py:142-147 | a next page is followed exactly when either link is non-empty: the rel=next link when it is, the arrow link otherwise |
| Vkusmart.VkusmartSpider.constructor | egrocery_scraper/egrocery_scraper/spiders/vkusmart.py:46-51 | the limit is the clamped argument and at least 1 |
| Vkusmart.VkusmartSpider.Parse | egrocery_scraper/egrocery_scraper/spiders/vkusmart.py:53-74 | the loops compute CategoryUrls with the spider's limit |
| Vkusmart.VkusmartSpider.ParseCategory | egrocery_scraper/egrocery_scraper/spiders/vkusmart.py:92-147 | the card loop yields CategoryPage, one record per card in order, and the next link is NextPage |

## Left out

- Scrapy scheduling, request metadata, callbacks and headers; Playwright and the browser's click and scroll script; waits and timeouts; logging. None of these affects which records are produced.
- How arbuz.kz gets its `jwt` cookie at start. The token is an argument of `ArbuzSpider.Spider.constructor`.
- `_build_api_url` in arbuz.py only formats a query string. An API request is modelled as its (category, page, limit).
- `_extract_category_name` in arbuz.py (HTML unescaping, a case-insensitive match of a Russian phrase, `str.title()`). The category name is a parameter of both callbacks.
- `json.loads`, `urljoin` and the CSS queries are parameters. The anchors, regex matches, cards and hrefs they return are inputs.
- ArbuzProducts.ToInt: the float branch (`int()` truncation) is not modelled, since JSON numbers are ints here. `str()` of a list or dict, which `_to_int` would then scan for digits, reads as None.
- ArbuzProducts.UnitField: `str()` of a list or dict unit reads as no unit.
- ArbuzProducts.FindInValues: its own contract gives only the shape of the result; which list it returns (the first value's, in dict order, whose search finds one) is stated by ArbuzProducts.FindInValuesFirst, to keep the recursive definition cheap to check.
- Clever.Records: its own contract gives only the number of records; the record at each position is stated by Clever.RecordsAt, for the same reason.
- Vkusmart.DropRoot: its own contract gives only a length bound; which URLs it keeps and their order are stated by Vkusmart.DropRootKeeps and Vkusmart.DropRootAppend.
- Json.Get: a dict with a repeated key gives the first value under that key, while `json.loads` keeps the last one.
- Text.IsDigit: only ASCII digits are modelled. Python's `\d` and `str.isdigit` also accept other Unicode digits. Text.IsSpace is the full set of characters Python's `str.isspace` and `\s` accept.
- Clever.Lower: lower-casing covers ASCII and the basic Cyrillic capitals only. Clever.IsWordChar is `\b`'s word class restricted to ASCII letters, digits, `_` and Cyrillic.
- Vkusmart.ClampMaxCategories: `int()` of a float or a bool argument is not modelled beyond `IntArg`. Every other argument type is `OtherArg`, which gives 40.
- The `scraped_at` timestamp in vkusmart.py reads the clock and is not modelled.
- The `reviews_scraping` scripts, `items.py` and the settings are outside the three spiders.
- Observations the proofs bring out, all about the code as written:
  - clever's load-more loop stops at the third equal card count in a row, and prev_count starts at 0.
  - The root filter on vkusmart.py line 72 never removes anything.
  - A whitespace-only currency in vkusmart.py gives "" rather than "KZT".
  - In clever, the product ids "012" and "12" pass deduplication as different texts but are both written out as 12.
  - The `or category_...` on clever_spider.py line 231 is never used.
  - vkusmart records carry the page's own URL as `category_url`.
  - arbuz's page callback stops without an API request when the configuration is not a dict.
