# Product lookup by SKU — a verified model of `scraping.py`

`scraping.py` is a scraper for one storefront (spinetohogar.com). Given a list
of SKUs, `buscar_por_skus` does four things for each one:

1. It opens the store's search page for the SKU.
2. It collects the product links on that page.
3. It visits the links in order. On each product page it reads the name,
   price, brand, SKU and image.
4. It stops at the first page whose SKU, once normalized, equals the
   requested one.

The result holds one entry per SKU: the matching product record, or a
"not found" entry with a reason.

This project models that logic in Dafny and proves what the code promises.
The live browser becomes a deterministic value:

- a page (`Dom.Page`) maps selectors to elements;
- every read that could throw in the browser yields a `Try`, which is
  `Ok(value)` or `Raised`;
- the site itself is a function `Web` from a URL to a page, or to `Raised`
  (a navigation timeout or a network error).

Modules, one file each:

- `Wrappers` (`wrappers.dfy`): `Option` and `Try`.
- `Text` (`text.dfy`): Python's `str.strip` over ASCII whitespace (what
  `str.isspace` accepts among ASCII characters), ASCII `lower`, and
  `replace(p, "")` as one left-to-right pass.
- `Sku` (`sku.dfy`): `normalize_sku` and the `"SKU:"` label removal.
- `Quote` (`quote.dfy`): `urllib.parse.quote` with its default safe
  character `/`. It encodes to UTF-8, then percent-encodes every byte that
  is not a letter, a digit, `_.-~` or `/`, with uppercase hex digits.
- `Dom` (`dom.dfy`): the page value.
- `Extract` (`extract.dfy`):
  - `get_text`;
  - the SKU, image and price extractors;
  - `extract_product_details`.
- `Links` (`links.dfy`): href filtering, resolution and de-duplication,
  including the imperative collecting loop.
- `Crawl` (`crawl.dfy`): the batch loop.
  - `Browser` is a class. It counts the pages opened and closed, keeps a log
    of every navigation, and records whether it was closed.
  - The loops are methods proved against specification functions.

A Python exception is modelled as `Raised`. `get_text` and both tiers of
`extract_price` catch their own exceptions, so a failing read there only
skips a selector or a tier. Other exceptions are not caught. These come from
`goto`, `waitForSelector("body")`, `querySelectorAll`, the `href` reads, and
the whole of `extract_image_url`. Such an exception ends `buscar_por_skus`:
the batch returns no list, and `browser.close()` is never reached. The model
proves exactly that (`Crawl.SearchBySkusWith`, `Crawl.AbortIsFinal`).

The code has no per-SKU error outcome: an uncaught exception ends the whole
batch, and no later SKU is searched.

The crawl is generic in the page reader (`Crawl.Reader`).
`Crawl.SearchBySkus` plugs in `Extract.ExtractProductDetails`, as the source
does. With this split, the proofs about the loop do not need to look inside
the extraction.

## Model

| member | source | states |
|---|---|---|
| Text.Strip | scraping.py:24 | `strip()`: the result has no whitespace at either end and is no longer than the input |
| Text.StripSplits | scraping.py:24 | the input is whitespace, then the stripped text, then whitespace |
| Text.StripLeft | scraping.py:24 | the kept text does not start with whitespace and is no longer than the input |
| Text.StripRight | scraping.py:24 | the kept text does not end with whitespace and is no longer than the input |
| Text.StripLeftSuffix | scraping.py:24 | the left strip keeps a suffix of the input, and everything it drops is whitespace |
| Text.StripRightPrefix | scraping.py:24 | the right strip keeps a prefix of the input, and everything it drops is whitespace |
| Text.StripShorter | scraping.py:24 | text with whitespace at either end gets strictly shorter |
| Text.StripKeeps | scraping.py:24 | stripping never introduces a character |
| Text.Lower | scraping.py:24 | `lower()`: same length; A–Z go to a–z, every other character is unchanged, and no upper-case letter remains |
| Text.RemoveAll | scraping.py:24 | `replace(p, "")`: never longer than the input, and the identity when `p` does not occur |
| Text.RemoveAllFirst | scraping.py:36 | at the first occurrence of `p`: the text before it is kept unchanged, the occurrence is removed, and the removal goes on right after it |
| Text.RemoveAllKeeps | scraping.py:24 | removing a pattern never introduces a character |
| Text.RemoveAllGone | scraping.py:24 | removing a one-character pattern removes every occurrence of that character |
| Text.StripLower | scraping.py:24 | stripping and lower-casing commute |
| Text.LowerTwice | scraping.py:24 | lower-casing is idempotent |
| Text.StripStripped | scraping.py:24 | stripping already-stripped text changes nothing |
| Sku.NormalizeSku | scraping.py:23-24 | `None` gives the empty key, and a key is never longer than its input |
| Sku.NormalizeSkuAlphabet | scraping.py:23-24 | a key has no `' '`, no `'#'` and no upper-case letter, is no longer than its input, and `None` gives `""` |
| Sku.NormalizeSkuPlain | scraping.py:23-24 | text that is already stripped, lower-case and free of `' '` and `'#'` is its own key |
| Sku.NormalizeSkuExample | scraping.py:23-24 | `"N #55028 "` and `"n55028"` have the same key, `"n55028"` |
| Sku.NormalizeSkuIdempotentIff | scraping.py:23-24 | a second pass leaves a key unchanged if and only if the key has no whitespace at either end |
| Sku.NormalizeSkuIdempotent | scraping.py:23-24 | when the only whitespace in the input is `' '`, normalizing twice equals normalizing once |
| Sku.NormalizeSkuSpaceFromInput | scraping.py:23-24 | whitespace in a key was already in the input |
| Sku.NormalizeSkuNotIdempotent | scraping.py:23-24 | for `"# \tx"` a second pass changes the key (`"\tx"` becomes `"x"`) |
| Sku.NormalizeSkuIgnoresCase | scraping.py:23-24 | lower-casing the input first does not change the key |
| Sku.StripSkuLabel | scraping.py:34-36 | empty raw text gives `""`; the result is stripped and no longer than the raw text; raw text without `"SKU:"` is only stripped |
| Sku.StripSkuLabelFirst | scraping.py:36 | at the first `"SKU:"`, the text before the label is kept and the removal goes on right after it, then the whole is stripped |
| Sku.StripSkuLabelUnlabelled | scraping.py:36 | stripped raw text without `"SKU:"` comes back unchanged |
| Sku.StripSkuLabelPrefix | scraping.py:36 | `"SKU: "` followed by a stripped code without a label gives the code back (so `"SKU: N55028"` gives `"N55028"`) |
| Sku.StripSkuLabelSinglePass | scraping.py:36 | the removal is one pass: `"SKSKU:U:"` gives `"SKU:"` |
| Quote.EncodeChar | scraping.py:96 | UTF-8: 1 to 4 bytes, one byte exactly for ASCII, a lead byte of at least 0xC0 and continuation bytes 0x80–0xBF otherwise |
| Quote.EncodeCharRoundTrip | scraping.py:96 | decoding a character's UTF-8 bytes gives the character back |
| Quote.Utf8 | scraping.py:96 | a string's UTF-8 bytes are at least as many as its characters |
| Quote.HexValue | scraping.py:96 | a hex digit's value is below 16 |
| Quote.HexRoundTrip | scraping.py:96 | reading back an uppercase hex digit gives its value |
| Quote.DecodeByte | scraping.py:96 | decoding an escaped or safe byte followed by more text gives the byte and that text |
| Quote.PercentRoundTrip | scraping.py:96 | percent-decoding the encoded bytes gives the bytes back |
| Quote.Quote | scraping.py:96 | `quote(sku)` percent-decodes back to the UTF-8 bytes of the SKU and is at least as long as the SKU |
| Quote.QuoteAlphabet | scraping.py:96 | encoded text holds only safe characters, `%` and uppercase hex digits, so nothing in it can end the query or start a fragment |
| Quote.QuoteSafeText | scraping.py:96 | text made only of safe ASCII characters is left unchanged |
| Extract.GetText | scraping.py:11-21 | the result never has whitespace at either end |
| Extract.GetTextStep | scraping.py:12-20 | a selector that yields text decides the result; a missing element, a raising lookup or read, or blank text passes on to the next selector |
| Extract.GetTextBlank | scraping.py:12-21 | the result is `""` if and only if no selector in the list yields text |
| Extract.GetTextFirst | scraping.py:12-18 | a non-empty result is the stripped text of the first selector that yields text |
| Extract.ExtractSku | scraping.py:26-36 | the SKU is stripped, and it is `""` when no SKU selector yields text |
| Extract.FirstImage | scraping.py:39-42 | `None` if and only if every source was read and none qualifies; a found source is the first qualifying one; `Raised` means a read raised before any source qualified |
| Extract.ResolveImageUrl | scraping.py:43-47 | `//…` gets `"https:"` in front; any other `/…` gets `https://spinetohogar.com` in front; anything else is unchanged; so the source is always the tail of the result, and a source starting with `/` becomes an `https://` URL |
| Extract.ResolvedImageOnCdn | scraping.py:42-47 | a resolved product image still contains `/cdn/`, so it is never the `"No disponible"` sentinel |
| Extract.ExtractImageUrl | scraping.py:38-48 | raises if and only if the image list or a `src` read raises first; `"No disponible"` if and only if no image qualifies; otherwise the resolved URL of the first qualifying source, read after every earlier source was read and rejected, and it contains `/cdn/` |
| Extract.PrimaryPrice | scraping.py:51-59 | the primary tier gives nothing if and only if the wait timed out, the lookup raised or found nothing, the read raised, or the untrimmed text is empty or ends in `"0,00"`; otherwise it gives that text stripped |
| Extract.MetaPrice | scraping.py:61-68 | the meta tier gives nothing if and only if the lookup raised or found nothing, or the `content` read raised, was `null` or was empty; otherwise it gives that `content` |
| Extract.ExtractPrice | scraping.py:50-70 | the stripped primary text when the primary tier succeeds; otherwise `"US$ "` and the meta `content` when the meta tier succeeds; otherwise `"Precio no disponible"` |
| Extract.PriceFromPrimary | scraping.py:54-57 | accepted primary text is the price, stripped |
| Extract.PlaceholderPriceIgnored | scraping.py:56 | primary text ending in `"0,00"` (so also `"10,00"`) is handled exactly as if the price element never appeared |
| Extract.PaddedPlaceholderAccepted | scraping.py:56-57 | the check is on the untrimmed text: `"0,00 "` passes and is shown as `"0,00"` |
| Extract.UsdPriceIsNotSentinel | scraping.py:66-70 | a meta price can never be mistaken for the sentinel |
| Extract.NoPriceOnlyWhenBothTiersFail | scraping.py:50-70 | the sentinel comes back if and only if both tiers fail, or the primary text itself strips to the sentinel |
| Extract.ExtractProductDetails | scraping.py:72-88 | raises if and only if the image extraction raises; `found` is always true; `matched` if and only if the normalized page SKU equals the normalized request; the placeholders for name and SKU; brand, price and image as extracted |
| Extract.BlankSkuMatchesBlankRequest | scraping.py:81-86 | a page without a SKU matches any request whose key is empty, and shows `"SKU no disponible"` |
| Extract.MatchedRecordSku | scraping.py:81-86 | a matched record that shows a real SKU has the request's key |
| Links.ResolveLink | scraping.py:109-112 | an href is kept if and only if it contains `/products/`; an href starting with `/` (`//` included) gets the origin; any other is kept as it is |
| Links.ResolvedHrefs | scraping.py:108-112 | the kept links are never more than the anchors |
| Links.ResolvedHrefsOk | scraping.py:108-109 | reading the hrefs raises if and only if one of the reads raises |
| Links.ResolvedHrefsRaised | scraping.py:108-109 | once an href read raises, the whole list raises |
| Links.ResolvedHrefsSound | scraping.py:108-112 | every kept link is the resolved href of some anchor |
| Links.ResolvedHrefsComplete | scraping.py:108-112 | every anchor whose href contains `/products/` has its resolved link kept |
| Links.ResolvedHrefsMembers | scraping.py:108-112 | the kept links are exactly the resolved hrefs that contain `/products/` |
| Links.ResolvedHrefsAreProducts | scraping.py:110 | every kept link contains `/products/` |
| Links.Dedup | scraping.py:113-115 | no repeats, no longer than the input, and the same links as the input |
| Links.DedupFirstSeenOrder | scraping.py:113-115 | links keep the order of their first occurrence |
| Links.DedupDistinct | scraping.py:113-115 | a list without repeats is unchanged |
| Links.CandidateLinks | scraping.py:106-115 | the candidate list raises exactly when reading the hrefs does; otherwise it has no repeats and no more links than anchors |
| Links.CandidateLinksSpec | scraping.py:106-115 | the candidate list raises if and only if an href read raises; otherwise it has no repeats and holds exactly the resolved product links |
| Links.CollectHrefs | scraping.py:106-115 | the loop with `seen` and `hrefs` computes exactly the candidate list |
| Crawl.SearchUrl | scraping.py:96-97 | the search URL starts with the fixed search prefix, and the query after it is at least as long as the SKU |
| Crawl.SearchUrlQuery | scraping.py:96-97 | the search URL is the fixed prefix followed by a query that percent-decodes to the SKU's UTF-8 bytes and holds only safe characters, `%` and hex digits |
| Crawl.FirstMatch | scraping.py:117-127 | a found record matched; `None` if and only if every candidate was read without raising and did not match |
| Crawl.CandidateVisits | scraping.py:118-127 | never more navigations than candidates, and the first candidate, if any, is always visited |
| Crawl.CandidateVisitsOrder | scraping.py:118-127 | with no match every candidate is visited once, in order; a match at candidate k is that candidate's record, and no candidate after k is visited |
| Crawl.StopIndex | scraping.py:118-127 | the walk's stopping point: every candidate before it is rejected, and the candidate at it (if any) raises or matches |
| Crawl.StopAt | scraping.py:118-127 | after k rejected candidates, one that raises or matches decides the result and is the last page visited |
| Crawl.NoneMatches | scraping.py:118-132 | when every candidate is rejected, the result is "no match" and all candidates were visited |
| Crawl.Outcome | scraping.py:101-132 | a found record matched; a missing entry names the SKU, with `"Sin resultados"` exactly when there were no anchors |
| Crawl.Lookup | scraping.py:95-132 | a found record matched, and a missing entry names the requested SKU |
| Crawl.LookupVisits | scraping.py:96-99 | every lookup navigates first to the SKU's search URL |
| Crawl.LookupMissing | scraping.py:101-132 | a missing entry carries the requested SKU; its message is `"Sin resultados"` exactly when the search page listed no anchors, and the "no coincide" message otherwise |
| Crawl.LookupNoMatch | scraping.py:106-132 | the "no coincide" message means the href reads succeeded and every candidate link was visited once, in order, and none matched |
| Crawl.LookupOutcome | scraping.py:95-132 | the outcome from the page facts: a raising search page raises; no anchors gives `"Sin resultados"` after one navigation; a raising href read raises; otherwise the first candidate that raises or matches decides, and the navigations are the search URL and the candidates up to it |
| Crawl.WalkOutcome | scraping.py:117-132 | the candidate loop's entry and navigations are those read off its stopping point |
| Crawl.FilteredAnchorsNoMatch | scraping.py:101-132 | anchors whose hrefs are all filtered out give the "no coincide" message, not "Sin resultados", with no product page visited |
| Crawl.FoundRecord | scraping.py:118-125 | with `extract_product_details` as the reader, a found record has `found` true, comes from one of the candidate links, and that page's SKU has the request's key |
| Crawl.SearchAll | scraping.py:95-132 | a completed batch has exactly one entry per SKU |
| Crawl.SearchVisits | scraping.py:95-132 | a completed batch navigates through each SKU's lookup in input order, one after the other |
| Crawl.SearchAllEntries | scraping.py:95-132 | the batch succeeds if and only if every lookup does, and then it holds one entry per SKU, in input order, each that SKU's own outcome |
| Crawl.AbortIsFinal | scraping.py:95-135 | after one lookup raises, no later SKU changes the result or is navigated to |
| Crawl.Browser.Launch | scraping.py:92 | a fresh browser: no pages, no navigations, not closed |
| Crawl.Browser.NewPage | scraping.py:93 | one more page open (the search tab here, each candidate tab at line 119) |
| Crawl.Browser.Goto | scraping.py:98-99 | the page the site gives for the URL, with the URL added to the navigation log (also the candidate visit at lines 121-122) |
| Crawl.Browser.ClosePage | scraping.py:129 | one more page closed |
| Crawl.Browser.Close | scraping.py:134 | the browser is closed |
| Crawl.VisitOne | scraping.py:119-129 | one candidate's record, one navigation, and the page closed on every path |
| Crawl.VisitCandidates | scraping.py:117-129 | the loop with `encontrado` and `break` returns the first match and visits exactly the candidates the specification names; every page it opens is closed |
| Crawl.SearchPage | scraping.py:96-101 | navigates to the search URL and returns its anchors, or raises |
| Crawl.Candidates | scraping.py:101-132 | "Sin resultados" for no anchors; otherwise collects the links and visits them, with the outcome and navigations of the specification |
| Crawl.LookupOne | scraping.py:95-132 | one pass of the batch loop gives the SKU's outcome and navigations |
| Crawl.SearchBySkusWith | scraping.py:90-135 | the result list is the specified one, or `Raised`; the navigation log is the specified one; only the search page stays open; the browser is closed exactly when the batch completes |
| Crawl.SearchBySkus | scraping.py:90-135 | the same, with `extract_product_details` as the reader |

## Left out

- The FastAPI app and the `/buscar` endpoint (scraping.py:1-6, 137-140): HTTP plumbing.
- pyppeteer itself is replaced by the `Web` function and the `Dom.Page` value. Not modelled:
  - the `headless` flag and `executablePath`;
  - navigation and selector timeouts (30 s and 8 s);
  - the JavaScript passed to `evaluate`;
  - `await` scheduling.
  A timeout appears only as its effect: `Raised` for navigation, `priceAppears = false` for the price wait.
- The site is assumed deterministic: the same URL always gives the same page. A live site can change between visits.
- `Text.Strip`, `Text.Lower`: they use ASCII whitespace and ASCII case only. Python's Unicode whitespace (such as U+00A0) and non-ASCII case mappings are not modelled.
- `Quote.Quote`: strings are sequences of Unicode scalar values, so the surrogate code points that make Python's `quote` raise cannot occur.
- `Crawl.Browser.Goto`: only the navigation log and the page the site returns are modelled. The separate tab used for each candidate (`prod_page`) is not told apart from the search tab.
- `Crawl.SearchBySkusWith`: the pages still open after an aborted batch are counted but not closed, as in the code. The browser's own cleanup at process exit is not modelled.
