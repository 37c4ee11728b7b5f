# Shopee / Google Maps crawler rules, modelled in Dafny

The crawler is a set of Selenium scripts. They walk Shopee category pages,
collect product and shop links, look the shops up on Google Maps, and
record phone numbers and addresses in CSV and JSON files. Under the
browser calls sit small deterministic rules. They decide which links are
kept, how work is split between worker threads, and how records are
normalised and written. This project states those rules in Dafny and
proves what they guarantee.

The browser, the file system and the random generator are inputs:

- A page is a sequence of element records: hrefs, texts, `aria-label`,
  `title` and `alt` values, ancestor texts. A lookup that raises is an
  `Outcome` with a `Raised` case. On Google Maps a `Page` maps an XPath
  `aria-label` test to the elements found, each read giving a label or
  raising.
- A directory listing is `fs(path)`. It is `None` when the directory does
  not exist.
- A JSON file is a `Json.JsonFile`: missing, unreadable, or loaded to a
  value. A CSV file is its rows up to the first failure.
- `rng(k)` is the `k`-th value of `random()`.
- "Does this click strategy work at attempt `a`?" and "did
  `add_cookie` accept this record?" are functions passed in.

One Dafny module models each source file of the core:

- `ProductUrlExtractor` (product_url_extractor.py);
- `FindShopOnGgmap`, `GetPhonenumAddress`, `GetProductInCategory`,
  `GetCategoryHref` and `GetShopSellProduct`, each named after its script;
- `LoadCookiesToDriver`, `Click` and `FakeAgent` (funcs/);
- `ClickFn` (click_fn.py);
- `ShopeeService` (services/shopee_service.py).

Shared helper modules:

- `Strs`: Python's `strip`, `split`, `join`, `lower`, `str(int)`, `int(str)`
  and `re.split` on a character class.
- `Seqs`: de-duplication, `s[:n]`, filter-and-map, flat-map (a loop
  that extends one list per element) and the first index that passes a test.
- `Listing`: `sorted` over a directory listing filtered by suffix.
- `Chunking`: round-robin and contiguous slicing.
- `Fallback`: first non-blank value of a cascade.
- `Json`: parsed JSON values and `dict` operations.
- `Wrappers`: `Option` and `Outcome`.

Regular expressions are written out by hand. Each one is a scanning
predicate, shown equal to a ghost predicate that states the pattern's
regex semantics. Three cases are covered: the product-URL patterns, the
mall-link pattern, and `-i\.(\d+)\.(\d+)` with leftmost-greedy matching.

## Model

| member | source | states |
|---|---|---|
| ProductUrlExtractor.IsValidProductUrlMeaning | product_url_extractor.py:58-71 | a URL is valid iff it is present, non-empty and one of the three `re.search` patterns matches, the third anchored at the end |
| ProductUrlExtractor.PrefixedScanCorrect | product_url_extractor.py:62-64 | the scanner accepts exactly the strings where the literal occurs before some `-i.<digits>.<digits>` |
| ProductUrlExtractor.AnchoredScanCorrect | product_url_extractor.py:65 | the scanner accepts exactly the strings with a `/` before an `-i.<digits>.<digits>` that ends the string |
| ProductUrlExtractor.SpanIdAt | product_url_extractor.py:82 | every regex match of the id pattern starts where the scanner finds an id, with the same second dot and an end no later than the greedy end |
| ProductUrlExtractor.CleanUrl | product_url_extractor.py:73-78 | the cleaned URL is the stripped prefix before the first `?` or `#`, and contains neither |
| ProductUrlExtractor.CutQueryStart | product_url_extractor.py:74-77 | cutting at the first `?` and then at the first `#` keeps exactly the text before whichever comes first |
| ProductUrlExtractor.CleanUrlIdempotent | product_url_extractor.py:73-78 | cleaning a cleaned URL changes nothing |
| ProductUrlExtractor.CleanUrlDropsTail | product_url_extractor.py:73-78 | a query or fragment after a trimmed base is removed entirely, e.g. `…-i.111.222?x=1#top` becomes `…-i.111.222` |
| ProductUrlExtractor.ExtractProductInfo | product_url_extractor.py:80-93 | `None` iff no `-i.<d+>.<d+>` occurs; otherwise the URL unchanged with the two digit groups of the leftmost, greedy match |
| ProductUrlExtractor.FirstIdLeftmost | product_url_extractor.py:82-84 | the scanner's first hit is the leftmost match, and its digit runs are the greedy groups |
| ProductUrlExtractor.LinksFrom | product_url_extractor.py:37-43 | one selector's pass: the cleaned forms of the valid hrefs, each once, at its first occurrence and in the order of those occurrences; pairwise distinct and free of `?` and `#` |
| ProductUrlExtractor.CleanedValid | product_url_extractor.py:37-41 | one cleaned URL per valid href, in href order, repeats kept: the image of the valid hrefs under `_clean_url` |
| ProductUrlExtractor.FirstProductive | product_url_extractor.py:33-50 | the index of the first selector whose pass yields a link; every earlier selector yields none |
| ProductUrlExtractor.GetAllProductLinks | product_url_extractor.py:17-56 | distinct clean links, empty iff no selector yields one, otherwise the links of the first selector that does, in first-seen order |
| ProductUrlExtractor.FirstProductiveLinks | product_url_extractor.py:33-56 | the same over any selector list |
| ProductUrlExtractor.GetAllProductLinksStopsEarly | product_url_extractor.py:48-50 | two pages that agree up to the first productive selector give the same links; later selectors are never consulted |
| ProductUrlExtractor.FirstProductiveStopsEarly | product_url_extractor.py:48-50 | the same over any selector list |
| ProductUrlExtractor.ScrollAndLoadMore | product_url_extractor.py:95-110 | at most `max_scrolls` scrolls; each scroll but the last changed the link count (up or down); the loop ends at the bound or at the first scroll that left the count unchanged |
| ProductUrlExtractor.WaitForProductsLoad | product_url_extractor.py:112-131 | `True` iff, going through the three selectors in order past those that time out, the first that does not time out has its element appear; `False` iff all three time out; an exception other than a timeout propagates from that first selector |
| ProductUrlExtractor.FirstWait | product_url_extractor.py:119-131 | over any selector list: `False` iff every selector times out; otherwise decided by the first selector that does not time out, `True` if its element appeared and a raise if it failed otherwise |
| ProductUrlExtractor.ExtractShopeeProducts | product_url_extractor.py:134-152 | raises iff the wait or the scroll raises; otherwise one product per collected link that has ids, in link order: the id extraction of exactly those links |
| ProductUrlExtractor.ProductsOf | product_url_extractor.py:145-150 | the same over any list of links: one product per link with ids, in link order, repeats kept |
| ProductUrlExtractor.DigitRun | product_url_extractor.py:82 | the maximal run of digits at a position |
| FindShopOnGgmap.ThreadCount | find_shop_on_ggmap.py:23-24 | a missing or non-positive thread count becomes 5; any other count is kept |
| FindShopOnGgmap.ShopChunking | find_shop_on_ggmap.py:17-42 | `[]` without the directory; otherwise exactly n chunks, sorted CSV `i` at position `i / n` of chunk `i % n`, every file once, sizes within one, all empty without CSVs |
| FindShopOnGgmap.RowName | find_shop_on_ggmap.py:80 | `shop_name`, else `name`, else `shop`, whichever is first non-empty; `None` iff all three are missing or empty |
| FindShopOnGgmap.ReadShopNamesFromCsv | find_shop_on_ggmap.py:72-85 | one stripped name per row that has one, in row order, repeats kept; no other names |
| FindShopOnGgmap.Container | find_shop_on_ggmap.py:165-170 | the first `role="feed"` div in document order if there is one, else the first div labelled "kết quả…"; `None` iff neither exists |
| FindShopOnGgmap.FirstWhere | find_shop_on_ggmap.py:165-170 | the first div in document order that satisfies the test, if any |
| FindShopOnGgmap.Resolve | find_shop_on_ggmap.py:185-186 | an href not starting with `/` is kept as it is; a path starting with a single `/` is joined onto `https://www.google.com`; a scheme-relative `//host` href takes the scheme `https:` |
| FindShopOnGgmap.AncestorName | find_shop_on_ggmap.py:190-201 | the first of at most four ancestor texts longer than two characters, else `''` |
| FindShopOnGgmap.PlaceName | find_shop_on_ggmap.py:188-201 | aria-label, else stripped text, else the ancestor name |
| FindShopOnGgmap.CollectPlacesIsTakeDedup | find_shop_on_ggmap.py:178-207 | the capped loop with its `seen` set is "first occurrence of each href, then the first `max_items`" |
| FindShopOnGgmap.ParseGgmapResults | find_shop_on_ggmap.py:160-212 | `[]` without a container or when `max_items` ≤ 0; at most `max_items` results with distinct hrefs; exactly the first `max_items` first-occurrences among the place anchors |
| FindShopOnGgmap.ParseGgmapResultsMembers | find_shop_on_ggmap.py:172-207 | every result is a place anchor's resolved href and name; below the cap, every place anchor's href is represented |
| FindShopOnGgmap.FilterMapPlaces | find_shop_on_ggmap.py:172-176 | filtering the anchors then converting them equals converting the kept anchors |
| FindShopOnGgmap.SaveGgmapResults | find_shop_on_ggmap.py:215-234 | nothing is appended iff the directory, open or write fails (the error is logged); otherwise appends to `ggmap_search/<category>.csv` the header only for a new file, then one row `[query_name, ';'.join(hrefs)]` |
| FindShopOnGgmap.HrefsOf | find_shop_on_ggmap.py:228 | the hrefs of the results, in order |
| Listing.Suffix | find_shop_on_ggmap.py:30 | `PurePath.suffix`: the name from its last dot on when that dot is neither the first nor the last character, else empty |
| Listing.Sort | find_shop_on_ggmap.py:30 | `sorted` on strings: a sorted permutation of its input |
| Listing.SortedSelectionMeaning | find_shop_on_ggmap.py:30 | the sorted selection is sorted and lists every regular file with the suffix exactly as often as the directory does |
| Listing.RoundRobinFiles | find_shop_on_ggmap.py:26-42 | the shared chunker core: `[]` without the directory, else the sorted selection dealt round-robin |
| Listing.LexLeTotal | find_shop_on_ggmap.py:30 | string order is total |
| Listing.LexLeTrans | find_shop_on_ggmap.py:30 | string order is transitive |
| Chunking.RoundRobin | find_shop_on_ggmap.py:36-39 | n chunks with item `i` at position `i / n` of chunk `i % n`, and sizes `len / n` plus one for the first `len % n` chunks |
| Chunking.RoundRobinBalanced | find_shop_on_ggmap.py:38-39 | chunk sizes differ by at most one |
| Chunking.RoundRobinSlot | find_shop_on_ggmap.py:38-39 | conversely, position `j` of chunk `k` holds item `j·n + k` |
| Chunking.RoundRobinPermutation | find_shop_on_ggmap.py:38-39 | the chunks together hold every item exactly once |
| Chunking.Slices | get_product_in_category.py:27 | consecutive slices of `chunk_size` items, all full but the last, ceil(n/size) of them, concatenating back to the input |
| GetPhonenumAddress.GgmapSearchChunking | get_phonenum_address.py:17-42 | the same defaulting and round-robin dealing as `shop_chunking`, over `ggmap_search` |
| GetPhonenumAddress.SplitHrefs | get_phonenum_address.py:83 | one stripped href per non-blank `;`-piece, in piece order, repeats kept, and nothing else |
| GetPhonenumAddress.SplitHrefsClean | get_phonenum_address.py:83 | every href of a cell is non-empty and stripped |
| GetPhonenumAddress.VisitedHrefs | get_phonenum_address.py:78-87 | an empty or missing `list_href` visits nothing; otherwise the split hrefs that start with `http` in any letter case, in cell order, a repeated href visited once per occurrence |
| GetPhonenumAddress.SplitHrefsJoined | get_phonenum_address.py:83 | splitting a `;`-join of non-empty, stripped, `;`-free hrefs gives them back |
| GetPhonenumAddress.VisitsJoined | get_phonenum_address.py:78-87 | a row holding such a join visits exactly those hrefs, in order |
| GetPhonenumAddress.SavedRowVisitsSavedHrefs | get_phonenum_address.py:76-87 | the row a successful `save_ggmap_results` appends, read back under its header, makes the worker visit exactly the saved http hrefs |
| GetPhonenumAddress.BaseName | get_phonenum_address.py:114 | `Path(p).name`: the `/`-free tail of the path |
| GetPhonenumAddress.Stem | get_phonenum_address.py:114 | the file name is the stem followed by the suffix |
| GetPhonenumAddress.RowCategory | get_phonenum_address.py:114 | the row's `category` if filled, else the stem of the CSV path |
| GetPhonenumAddress.GgmapFileStem | get_phonenum_address.py:114 | the stem of `ggmap_search/<category>.csv` is the category again, for a non-empty `/`-free category |
| GetPhonenumAddress.SafeCategory | get_phonenum_address.py:154 | empty becomes `unknown`; otherwise the same length, with every character outside `[0-9A-Za-z\-_ ]` replaced by `_` and the others kept |
| GetPhonenumAddress.SafeCategoryKeepsSafe | get_phonenum_address.py:154 | a non-empty category of safe characters is its own file name |
| GetPhonenumAddress.SafeCategoryIdempotent | get_phonenum_address.py:154 | sanitising twice is sanitising once |
| GetPhonenumAddress.ShopInfoRows | get_phonenum_address.py:161-174 | no rows without data; one row per phone (address `''`) or per address (phone `''`) when only one list is given; otherwise the phone-major product |
| GetPhonenumAddress.PairsPhoneMajor | get_phonenum_address.py:172-174 | the nested loops put phone `i`, address `j` at row `i·|A| + j`, and there are no other rows |
| GetPhonenumAddress.PairsAt | get_phonenum_address.py:172-174 | row `i·|A| + j` of the product exists and pairs phone `i` with address `j` |
| GetPhonenumAddress.PairsMembers | get_phonenum_address.py:172-174 | every product row names the shop and a listed phone and address |
| GetPhonenumAddress.PairsCover | get_phonenum_address.py:172-174 | every phone and every address appears in some product row |
| GetPhonenumAddress.ShopInfoRowsCover | get_phonenum_address.py:161-174 | every row carries a listed value or `''`, and every phone and address appears in some row |
| GetPhonenumAddress.OffsetIsProduct | get_phonenum_address.py:172-174 | the row offset of phone `i` is `i·|A|` |
| GetPhonenumAddress.SaveShopInfo | get_phonenum_address.py:153-186 | nothing iff both lists are empty or opening or writing the file fails (the error is logged); otherwise the rows above, appended to `shop_info/<safe category>.csv`, with the header only for a new file |
| GetPhonenumAddress.Unlabel | get_phonenum_address.py:197-199 | when the stripped text starts with the prefix, the result is the text after that prefix less the whitespace at each end; otherwise it is the input less the whitespace at each end; always stripped |
| GetPhonenumAddress.Normalize | get_phonenum_address.py:192-202 | the result is stripped, holds whitespace only as single spaces, and does not end in `,`, `.` or whitespace |
| GetPhonenumAddress.NormalizeKeepsWords | get_phonenum_address.py:197-201 | the words of the result are exactly those of the unlabelled text less its trailing run of `,`, `.` and whitespace, whole and in order |
| GetPhonenumAddress.NormalizeFixesNormalized | get_phonenum_address.py:192-202 | a normalised value without the prefix is left unchanged |
| GetPhonenumAddress.LabelParts | get_phonenum_address.py:209-214 | an address label is one part after the first prefix; a phone label is split into fields on the separator class |
| GetPhonenumAddress.NormalizeAll | get_phonenum_address.py:215-218 | one normalised value per part that does not normalise to empty, in part order, repeats kept |
| GetPhonenumAddress.LabelValues | get_phonenum_address.py:207-218 | an absent label, one without the prefix, or an empty prefix gives nothing; every value is non-empty and normalised |
| GetPhonenumAddress.LabelValuesContent | get_phonenum_address.py:209-218 | for a label holding the prefix: an address label gives the normalised text after the first prefix, if not empty; a phone label gives one normalised value per separator-free piece of that text that does not normalise to empty, in order |
| GetPhonenumAddress.AllValues | get_phonenum_address.py:204-221 | an empty prefix collects nothing, since `split('', 1)` raises for every element |
| GetPhonenumAddress.AllValuesMembers | get_phonenum_address.py:204-218 | a value is collected iff some element's label contributes it |
| GetPhonenumAddress.AllValuesAppend | get_phonenum_address.py:206-218 | the values of consecutive elements follow each other in element order; one element contributes exactly its own values |
| GetPhonenumAddress.ExtractAriaValuesWith | get_phonenum_address.py:189-230 | distinct, non-empty, normalised values, exactly those some element's label contributes, each kept at its first occurrence among the collected values and in that order |
| GetPhonenumAddress.ExtractAriaValuesAsWritten | get_phonenum_address.py:189-230 | the same with the character class as written, which includes `\` and `n` |
| GetPhonenumAddress.ExtractAriaValues | get_phonenum_address.py:189-230 | the same with the intended separators `; , / |` and newline |
| GetPhonenumAddress.PhoneSplitAsWrittenCutsAtN | get_phonenum_address.py:214 | as written, `a + "n" + b` splits into `a` and `b`; with the intended class it stays whole |
| GetPhonenumAddress.HotlineSplitAsWritten | get_phonenum_address.py:214 | as written, `0901 (hotline)` is split into `0901 (hotli` and `e)` |
| GetPhonenumAddress.PhoneSplitKeepsSeparatorFreeValue | get_phonenum_address.py:214 | with the intended class, a separator-free value is one field |
| GetPhonenumAddress.PhoneSplitSeparates | get_phonenum_address.py:214 | with the intended class, `;`-joined separator-free values split back into those values |
| GetPhonenumAddress.Lookup | get_phonenum_address.py:205 | a text holding `'` ends the XPath literal early and the lookup raises; any other text is looked up as given |
| GetPhonenumAddress.AriaLabels | get_phonenum_address.py:204-223 | a raised lookup gives no elements; otherwise one label per element, a raised read counting as absent, so it contributes nothing |
| GetPhonenumAddress.ReadsUntilRaise | get_phonenum_address.py:238-245 | the labels read, in order, before the first read that raises |
| GetPhonenumAddress.KeyLabels | get_phonenum_address.py:236-245 | a raised lookup, or a raised read, ends the scan of that key: it sees only the labels read before the raise |
| GetPhonenumAddress.FirstKeyIndex | get_phonenum_address.py:235-240 | the first key whose scan sees a non-blank label; every earlier key's scan saw only blank labels |
| GetPhonenumAddress.FirstLabel | get_phonenum_address.py:235-243 | `None` iff every key's scan sees only blank labels; otherwise a non-empty stripped label |
| GetPhonenumAddress.FirstKeyIndexAt | get_phonenum_address.py:235-240 | the first productive key is where the earlier keys found only blanks |
| GetPhonenumAddress.FirstLabelStopsEarly | get_phonenum_address.py:235-243 | the label found is the stripped first non-blank label of the first productive key |
| GetPhonenumAddress.FirstLabelSilentLast | get_phonenum_address.py:235-245 | a last key whose scan sees nothing changes nothing |
| GetPhonenumAddress.SafeGetTextFromGgmap | get_phonenum_address.py:233-248 | `default` when no key's scan finds a non-blank label; else, for the first one found, the stripped text after its first `:` if it has one, otherwise the whole stripped label |
| GetPhonenumAddress.RaisedReadEndsKey | get_phonenum_address.py:236-245 | a raising read ends its key's scan even when a later element of that key has a label: the text comes from the next key |
| GetPhonenumAddress.NameKeysThirdSilent | get_phonenum_address.py:95 | the third name key holds `'`, so the name comes from the first two keys alone |
| GetPhonenumAddress.RowShopName | get_phonenum_address.py:92 | the stripped `shop_name`, `''` when it is missing |
| GetPhonenumAddress.NamesOfRows | get_phonenum_address.py:143-146 | one stripped name per row whose name is not empty, in row order, repeats kept |
| GetPhonenumAddress.MappingNames | get_phonenum_address.py:137-148 | exactly the names of the rows of the `.csv` files in `shops`; all are non-empty and stripped |
| GetPhonenumAddress.MappingNamesAppend | get_phonenum_address.py:137-148 | the names of consecutive entries follow each other in listing order; one entry contributes the names of its rows if it is a `.csv` file, none otherwise |
| GetPhonenumAddress.BuildMapping | get_phonenum_address.py:146 | every key is the lower-case form of its value, and every name's lower-case form is a key |
| GetPhonenumAddress.BuildMappingLastWins | get_phonenum_address.py:143-146 | a key maps to the last name that lowers to it |
| GetPhonenumAddress.LoadShopsMapping | get_phonenum_address.py:131-150 | empty without `shops`; otherwise keyed exactly by the lower-cased names, each key mapping to the last name read, file by file in listing order, that lowers to it |
| GetPhonenumAddress.ResolveShopName | get_phonenum_address.py:92-102 | with `n` the row's stripped name, else the name read off the page: `''` when `n` is empty; the mapping's entry for `n.lower()` when that entry exists and is not empty; otherwise `n` |
| GetPhonenumAddress.ResolveKeepsName | get_phonenum_address.py:92-102 | with the loaded mapping, resolving changes a name at most in letter case |
| GetPhonenumAddress.VisitOfMeaning | get_phonenum_address.py:92-116 | a visit records the row's category and resolved name; its phones are exactly the values the page's phone labels hold, each once, at its first occurrence and in that order, and likewise its addresses for the address labels |
| GetProductInCategory.CategoryList | get_product_in_category.py:23-25 | present iff the file loaded to an object with a `category_hrefs` key, whose value is then that list |
| GetProductInCategory.CategoryChunking | get_product_in_category.py:15-34 | `[]` for a missing, unreadable or malformed file, or a size below one; otherwise slices that concatenate back to the list |
| GetProductInCategory.OrElse | get_product_in_category.py:49 | `a or b` on an optional string |
| GetProductInCategory.ResolveSelectors | get_product_in_category.py:48-67 | a given selector wins; otherwise the table's entry, then the defaults `div.ofs-recommend-page` and `a.contents` |
| GetProductInCategory.LookUp | get_product_in_category.py:51-59 | the XPath result when it is non-empty; else the CSS lookup when a selector is set; else nothing |
| GetProductInCategory.LookUpXPathFirst | get_product_in_category.py:52-59 | when the XPath finds something, the CSS selector is never tried |
| GetProductInCategory.ItemName | get_product_in_category.py:86-121 | a name, when present, is non-empty and stripped |
| GetProductInCategory.ItemNameCascade | get_product_in_category.py:86-121 | text, then line-clamp text, then image alt, then title, the first non-blank one stripped; `None` iff all are blank |
| GetProductInCategory.ItemsOf | get_product_in_category.py:65-77 | the tiles of each container in order |
| GetProductInCategory.CollectRecordsPerItem | get_product_in_category.py:65-123 | one record per tile, in container order, carrying that tile's href and name |
| GetProductInCategory.GetInforProduct | get_product_in_category.py:37-128 | `[]` when the container lookup raises or finds nothing; otherwise the records of the containers' tiles |
| GetProductInCategory.GetInforProductPerItem | get_product_in_category.py:78-123 | each tile yields exactly one `{href, name}` record, in order |
| GetProductInCategory.PageUrls | get_product_in_category.py:155-156 | `page_num` URLs (none for `page_num` ≤ 0), the `i`-th being page `i + 1` |
| GetProductInCategory.PageUrlNumber | get_product_in_category.py:156 | page `i` is the category URL plus `/popular?pageNumber=` and the decimal `i` |
| GetProductInCategory.PageUrlsDistinct | get_product_in_category.py:155-156 | no page is visited twice |
| GetCategoryHref.IsMallHrefMeaning | get_category_href.py:50 | the one-pass check accepts exactly the strings `re.match` accepts for `^https://shopee\.vn/mall/.+\.\d+$`, including `$` before a final newline |
| GetCategoryHref.MallScanSound | get_category_href.py:50 | every href the check accepts matches the pattern |
| GetCategoryHref.MallScanComplete | get_category_href.py:50 | every href matching the pattern is accepted |
| GetCategoryHref.Body | get_category_href.py:50 | the text `$` must end: the href without one final newline |
| GetCategoryHref.MallHrefs | get_category_href.py:52-58 | exactly the present hrefs that match |
| GetCategoryHref.MallHrefsAppend | get_category_href.py:52-58 | filtering commutes with concatenation, so document order is kept |
| GetCategoryHref.MallHrefsCount | get_category_href.py:52-58 | a matching href is kept as often as it occurs; duplicates are not removed |
| GetCategoryHref.ExtractCategoryHrefs | get_category_href.py:43-61 | `[]` when the wait, the lookup or a read raises; otherwise exactly the matching hrefs in order |
| GetCategoryHref.SaveHrefsToFile | get_category_href.py:64-78 | true iff the write succeeds, and then the record holds `total_hrefs = len(hrefs)` and `category_hrefs = hrefs` |
| GetCategoryHref.SavedHrefsChunkBack | get_category_href.py:66-69 | the saved file, chunked by `category_chunking` with any size ≥ 1, concatenates back to the hrefs |
| GetCategoryHref.JsonStrings | get_category_href.py:68 | the hrefs as JSON strings, in order |
| GetShopSellProduct.EmptyChunks | get_shop_sell_product.py:24 | `chunk_size` empty lists, none for a size below one |
| GetShopSellProduct.ProductsChunking | get_shop_sell_product.py:17-39 | `chunk_size` empty chunks without the directory or without `.json` files; `[]` for a size below one with files; otherwise the sorted files dealt round-robin into `chunk_size` chunks; here each entry's path is the resolved, absolute one (`str(p.resolve())`) |
| GetShopSellProduct.GetInforShop | get_shop_sell_product.py:42-44 | always `[]` |
| GetShopSellProduct.StrAll | get_shop_sell_product.py:108 | `str` of every element, in order |
| GetShopSellProduct.StringValues | get_shop_sell_product.py:115-117 | one value per entry holding a string, in entry order, and no other values |
| GetShopSellProduct.StringValuesAppend | get_shop_sell_product.py:115-117 | the string values of two runs of entries follow each other |
| GetShopSellProduct.FileProducts | get_shop_sell_product.py:102-119 | an unreadable file adds nothing; a list adds all elements as `str`; an object with a list `products` adds those; other objects add one value per string entry, in entry order; scalars add nothing |
| GetShopSellProduct.ReadProductsFromFiles | get_shop_sell_product.py:98-121 | the files' contributions, one after another |
| GetShopSellProduct.ReadProductsAppend | get_shop_sell_product.py:101-121 | reading two runs of files is reading each in turn, so file order is kept |
| GetShopSellProduct.SkipsUnreadable | get_shop_sell_product.py:118-119 | an unreadable file changes nothing |
| GetShopSellProduct.UrlListReadsBack | get_shop_sell_product.py:107-108 | a file holding a list of URL strings contributes exactly those URLs |
| LoadCookiesToDriver.Trunc | funcs/load_cookies_to_driver.py:47 | `int` of a float truncates toward zero |
| LoadCookiesToDriver.PyInt | funcs/load_cookies_to_driver.py:47 | `int(x)`: integers are kept, floats truncated, numeric strings parsed, and the rest raise |
| LoadCookiesToDriver.ConvertExpiry | funcs/load_cookies_to_driver.py:45-50 | `expirationDate` disappears and becomes `expiry = int(…)` when the conversion succeeds; nothing else changes |
| LoadCookiesToDriver.DropKeys | funcs/load_cookies_to_driver.py:53-54 | the listed keys are absent and every other key is unchanged |
| LoadCookiesToDriver.FixDomain | funcs/load_cookies_to_driver.py:57-58 | a string domain starting with `.` loses that character; anything else is unchanged |
| LoadCookiesToDriver.NormalizeDrops | funcs/load_cookies_to_driver.py:45-54 | after normalisation `expirationDate`, `hostOnly`, `storeId`, `id` and `sameSite` are absent |
| LoadCookiesToDriver.NormalizeKeeps | funcs/load_cookies_to_driver.py:45-58 | every other key except `expiry` and `domain` keeps its value |
| LoadCookiesToDriver.NormalizeExpiry | funcs/load_cookies_to_driver.py:45-50 | `expiry` is the converted date when conversion succeeds, and is the original `expiry` otherwise |
| LoadCookiesToDriver.NormalizeDomain | funcs/load_cookies_to_driver.py:57-58 | a dotted string domain loses its first character; any other domain is unchanged |
| LoadCookiesToDriver.OneDotRemoved | funcs/load_cookies_to_driver.py:57-58 | exactly one leading dot goes: `..host` becomes `.host` |
| LoadCookiesToDriver.DictCount | funcs/load_cookies_to_driver.py:41-43 | the number of dict entries is at most the list length |
| LoadCookiesToDriver.Count | funcs/load_cookies_to_driver.py:38-65 | a count over dict entries is at most the number of dicts |
| LoadCookiesToDriver.CountIsTakenAt | funcs/load_cookies_to_driver.py:38-65 | the loop's counter equals the number of list positions whose entry was taken |
| LoadCookiesToDriver.Added | funcs/load_cookies_to_driver.py:38-65 | the count is the number of dict entries whose normalised record `add_cookie` accepted, at most the number of dicts |
| LoadCookiesToDriver.LoadCookiesToDriver | funcs/load_cookies_to_driver.py:11-67 | 0 for a missing or unreadable file or a non-list; otherwise the number of successful `add_cookie` calls, at most the number of dict entries |
| Json.Get | funcs/load_cookies_to_driver.py:45 | `d.get(k)`: absent iff no entry has the key, otherwise the value of an entry for it |
| Json.GetFirst | funcs/load_cookies_to_driver.py:45 | the value found is that of the first entry for the key |
| Json.Remove | funcs/load_cookies_to_driver.py:54 | `pop(k, None)`: the key is gone and every other key is unchanged |
| Json.Put | funcs/load_cookies_to_driver.py:47 | `d[k] = v`: the key maps to `v` and every other key is unchanged |
| Click.AttemptTries | funcs/click.py:24-47 | one attempt tries one to three strategies |
| Click.AttemptTriesWalk | funcs/click.py:24-47 | an attempt starts with the clickable strategy; it moves on only past failures; it succeeds iff its last try succeeds; a failed attempt ends with the script click |
| Click.Attempts | funcs/click.py:20-54 | no messages without a callback; no attempt once the attempts are used up |
| Click.AutoClick | funcs/click.py:9-54 | `retries` ≤ 0 fails with no try, and with a callback logs only the give-up message; nothing is logged without a callback |
| Click.AttemptsSucceedIff | funcs/click.py:20-51 | a run succeeds iff some remaining attempt has a working strategy |
| Click.AutoClickSucceedsIff | funcs/click.py:20-54 | `True` iff one of the `retries` attempts has a working strategy |
| Click.AttemptsWalk | funcs/click.py:20-51 | the tries walk the strategies in order, one step at a time, and stop at the first success |
| Click.AutoClickTries | funcs/click.py:20-54 | the tries walk the strategies in order and stay below attempt `retries` |
| Click.AttemptsBounded | funcs/click.py:20 | every try belongs to an attempt in range |
| Click.AttemptsRetryLog | funcs/click.py:21-22 | a retry message for attempt `b + 1` is logged iff attempt `b > 0` was made |
| Click.AttemptsEndLog | funcs/click.py:28-53 | the give-up message is logged iff the run fails, and is then the last message; on success the last message names the strategy that worked |
| Click.AutoClickLog | funcs/click.py:21-53 | the same for `auto_click` with a callback |
| Click.Report | funcs/click.py:21-53 | every message reaches the callback, nothing reaches a silent channel, and standard output gets a message iff it is a retry notice |
| Click.StdoutOnlyNotices | click_fn.py:9-31 | standard output gets one copy of each retry notice and nothing for any other message |
| ClickFn.Click | click_fn.py:6-33 | `retries` ≤ 0 fails with no try and prints nothing |
| ClickFn.ChannelIrrelevant | click_fn.py:6-33 | where messages go changes neither the result nor the tries |
| ClickFn.ClickAsAutoClick | click_fn.py:6-33 | `click` has the result and tries of `auto_click`, with or without a callback |
| ClickFn.ClickResult | click_fn.py:7-33 | `True` iff some attempt has a working strategy; the tries walk the strategies in order, stop at the first success and stay below `retries` |
| ClickFn.AttemptsPrint | click_fn.py:8-31 | every printed line is a retry or not-found notice, and a retry notice is printed exactly for the attempts made after the first |
| ClickFn.ClickPrints | click_fn.py:8-31 | the same for `click` |
| FakeAgent.Uniform | funcs/fake_agent.py:20 | `uniform(a, b)` lies between the two bounds, whichever is larger |
| FakeAgent.RandInt | funcs/fake_agent.py:57 | `randint(a, b)` raises iff `a > b`, otherwise lies in `[a, b]` |
| FakeAgent.Sign | funcs/fake_agent.py:90 | `choice([-1, 1])` is −1 or 1 |
| FakeAgent.RandomSleep | funcs/fake_agent.py:11-30 | never negative; one or two draws; with `min ≤ max` the pause lies in `[max(0, min − j), max(0, max + j)]` with jitter, and in `[max(0, min), max(0, max)]` without |
| FakeAgent.RandomSleepNoJitter | funcs/fake_agent.py:20-27 | without jitter and with non-negative bounds, nothing is clamped: the pause is the first draw scaled onto the bounds |
| FakeAgent.HoverElement | funcs/fake_agent.py:33-73 | `True` iff the element is present and reachable; then `max(1, moves)` offsets, each within `[−max_offset, max_offset]` |
| FakeAgent.Taken | funcs/fake_agent.py:88-102 | the number of loop scrolls the page took, at most the loop count |
| FakeAgent.ScrollLoop | funcs/fake_agent.py:88-102 | raises iff the pixel range is empty and the loop runs; otherwise one entry per scroll taken, each `±px` with `px` in `[min_px, max_px]` |
| FakeAgent.RandomScroll | funcs/fake_agent.py:76-119 | `[]` for an empty scroll range; otherwise at most `max_scrolls + 1` entries: loop entries of `±px`, then at most one `±999999` jump; with both ranges non-empty, the length is the scrolls taken in some `n` of the range, plus at most one |
| ShopeeService.ChangeUserAgent | services/shopee_service.py:48-66 | `None` without a driver; a result is the non-empty agent that was set |
| ShopeeService.FirstWithLinks | services/shopee_service.py:210-220 | the first element of a selector holding `<a>` links |
| ShopeeService.FindCarousel | services/shopee_service.py:203-227 | the hit of the first selector that has one; `None` iff no selector hits |
| ShopeeService.FindCarouselFirst | services/shopee_service.py:207-220 | the first selector with a hit decides; later selectors are never consulted |
| ShopeeService.CategoryName | services/shopee_service.py:242-267 | the name is never empty |
| ShopeeService.CategoryNameCascade | services/shopee_service.py:242-267 | stripped text, else stripped title, else stripped image alt, else `Category_{i+1}` |
| ShopeeService.LinkRecord | services/shopee_service.py:237-280 | only `http` links are kept, with index `i + 1` and a non-empty name; a readable `http` link is always kept |
| ShopeeService.LinkRecordName | services/shopee_service.py:242-267 | the kept record's name is the cascade's name |
| ShopeeService.Kept | services/shopee_service.py:275 | exactly the records that were not skipped |
| ShopeeService.KeptIncreasing | services/shopee_service.py:269-275 | records indexed by position stay in range and strictly increasing |
| ShopeeService.CollectLinks | services/shopee_service.py:230-290 | exactly the records of the kept links, each with an `http` href and a non-empty name |
| ShopeeService.CollectLinksIndices | services/shopee_service.py:237-275 | indices lie in `1..len(links)` and strictly increase |
| ShopeeService.GetCategoryLinks | services/shopee_service.py:173-298 | `[]` without a driver or a carousel; otherwise the carousel's kept links, each `http`, named, with strictly increasing indices ≥ 1 |
| ShopeeService.SafeQuitDriver | services/shopee_service.py:396-430 | no attempt without a driver; otherwise one to three attempts, stopping at the first successful quit, with the driver cleared on every path |
| Fallback.FirstNonBlank | get_product_in_category.py:86-121 | `None` iff every value is blank; otherwise a non-empty stripped value |
| Fallback.FirstNonBlankAt | get_product_in_category.py:86-121 | it is the stripped first non-blank value |
| Seqs.DedupBy | find_shop_on_ggmap.py:203-207 | keeps elements of the input with pairwise-distinct keys, none of them already seen |
| Seqs.DedupByCovers | find_shop_on_ggmap.py:203-207 | every unseen key of the input is represented |
| Seqs.DedupByFirstOccurrence | find_shop_on_ggmap.py:203-207 | each kept element is its key's first occurrence, and document order is preserved |
| Seqs.Take | find_shop_on_ggmap.py:181-182 | `s[:n]`, empty for `n` ≤ 0 |
| Seqs.TakeNoDupBy | find_shop_on_ggmap.py:181-182 | a prefix of a duplicate-free sequence is duplicate-free |
| Seqs.FilterMap | get_phonenum_address.py:83 | `[f(x) for x in s if keep(x)]`: exactly the images of the kept elements |
| Seqs.FilterMapSelects | get_phonenum_address.py:83 | the result holds, in order, the image of each kept element, one per kept position, and nothing else |
| Seqs.FilterMapAppend | get_phonenum_address.py:83 | filtering and mapping a concatenation is concatenating the two results |
| Seqs.FilterMapOne | get_phonenum_address.py:83 | one element gives its image when kept and nothing otherwise |
| Seqs.FlatMapAppend | get_phonenum_address.py:206-218 | the lists of two runs of elements follow each other; one element gives its own list |
| Seqs.FlatMapMembers | get_phonenum_address.py:206-218 | a value is in the result iff it is in the list of some element |
| Seqs.FirstIndex | product_url_extractor.py:33-50 | the first position satisfying the test, or the length when none does; no earlier position satisfies it |
| Seqs.FilterMapKeepsAll | get_phonenum_address.py:83 | a sequence whose elements are all kept and fixed is returned unchanged |
| Seqs.Distinct | get_phonenum_address.py:224-230 | each distinct element once, at its first occurrence, in the order of first occurrences |
| Strs.Strip | find_shop_on_ggmap.py:82 | the result has no whitespace at either end and is no longer than the input |
| Strs.StripSlice | find_shop_on_ggmap.py:82 | `strip` removes a whitespace run from each end and nothing else |
| Strs.StripBlank | find_shop_on_ggmap.py:82 | only an all-whitespace string strips to nothing |
| Strs.StripIdempotent | find_shop_on_ggmap.py:82 | stripping twice is stripping once |
| Strs.Split | get_phonenum_address.py:83 | `str.split(sep)` |
| Strs.SplitJoin | get_phonenum_address.py:83 | splitting a join of separator-free parts gives the parts back |
| Strs.Fields | get_phonenum_address.py:214 | `re.split(class + '+')` less its empty pieces: non-empty pieces free of separators |
| Strs.FieldsPositions | get_phonenum_address.py:214 | the pieces are maximal separator-free runs at strictly increasing positions, and every such run is one of them: the non-separator text is kept whole, in order |
| Strs.FieldsJoin | get_phonenum_address.py:214 | splitting a join of non-empty separator-free parts gives them back |
| Strs.CollapseSpaces | get_phonenum_address.py:201 | `re.sub(r"\s+", ' ')`: whitespace only as single spaces, with a space at each end exactly where the input has whitespace there |
| Strs.CollapseKeepsWords | get_phonenum_address.py:201 | the whitespace-separated words of the result are exactly those of the input, in order |
| Strs.CollapseSingleSpaced | get_phonenum_address.py:201 | collapsing a single-spaced string changes nothing |
| Strs.DropTrailing | get_phonenum_address.py:200 | `re.sub(r"[,\.\s]+$", '')`: a prefix with no trailing junk |
| Strs.Lower | get_phonenum_address.py:146 | `lower()`, letter by letter |
| Strs.FindSub | get_phonenum_address.py:210 | the first occurrence of a substring, if any |
| Strs.AfterFirst | get_phonenum_address.py:210 | `s.split(prefix, 1)[1]`: the text after the first occurrence |
| Strs.Decimal | services/shopee_service.py:267 | `str(n)` of a natural number: digits with no leading zero |
| Strs.DecimalInjective | get_product_in_category.py:156 | different numbers have different decimal forms |
| Strs.IntStrParses | funcs/load_cookies_to_driver.py:47 | `int(str(n)) == n` |
| Strs.ParseIntDigits | funcs/load_cookies_to_driver.py:47 | a non-empty run of digits parses to its value |

## Left out

- Browser launch, profiles, window placement, thread fan-out and joining, `time.sleep`, navigation and zoom. These are I/O and concurrency; each worker's rules are modelled as functions of what the browser returns.
- Logging and `print`: only the click notices are modelled, as message sequences.
- HTML parsing (BeautifulSoup), CSS and XPath evaluation. A page is given as the sequence of elements a selector returns.
- FindShopOnGgmap.Resolve: joins by concatenation. `urljoin` also removes dot segments (`/a/../b` becomes `/b`), drops an empty `?` or `#`, and treats `;params` specially; `urlsplit` also deletes every tab, carriage return and newline anywhere in the href (`/maps/place/A<tab>B` becomes `/maps/place/AB`), and reads `///x` as an empty host, so `urljoin` gives `https://www.google.com/x` where the model gives `https:///x`. The model normalises none of these, so it is exact only for hrefs without them.
- Regex matching in general: each pattern is written out as a predicate. `\d` is taken to mean ASCII digits and `lower()` to change ASCII letters only. Python's `int()` also accepts Unicode digits and `_` separators; those are not modelled.
- Floating point: pauses and uniform draws are real numbers. Rounding is not modelled, nor the `repr` of floats in `str(x)`, which is a parameter.
- `RandInt`: the model scales one draw onto the range. CPython builds `randint` from raw random bits in a different way.
- JSON objects with repeated keys: `dict.get` takes the first entry, where Python keeps the last.
- `category_chunking` when the object lacks a `category_hrefs` list: Python raises on the unbound name and returns `[]`, and the model returns `[]` too.
- `get_category_links` lists the carousel's links a second time; the model assumes the second listing sees the same links as the first.
- `access_shopee`, `setup_driver`, the cookie methods and search methods of `ShopeeService` are driver glue. services/shopee_service.py also imports names that its utility module does not define; that import is not modelled.
- The `type='ggmap'` keyword passed to `load_cookies_to_driver` by two workers matches no parameter and would raise. Worker plumbing is not part of this model.
- Stub modules (models, views, controllers, utility and data-processor modules, the Maps API client) and the interactive test scripts have nothing to state.
- The code contains none of the following, so none is modelled:
  - greedy load balancing;
  - status-flag checkpoints and resume;
  - composite-key de-duplication across runs;
  - bot-block and "session poisoned" detection;
  - grid window layout.
- Behaviour of the code that a reader might not expect, modelled as the code does it:
  - The round-robin chunks do not concatenate back to the input list. They hold the same files, with sorted file `i` at position `i / n` of chunk `i % n`; the model proves that permutation.
  - A thread count below one does not become 1. `shop_chunking` and `ggmap_search_chunking` use 5, and `products_chunking` returns `[]`.
  - Within one click attempt, the script click runs only after both direct clicks fail.
  - `random_sleep` clamps at zero only when `jitter > 0`. Without jitter a negative draw makes `time.sleep` raise, and the call returns 0.0, so the pause is never negative either way.
- ProductUrlExtractor.ScrollAndLoadMore: the link counts are an input sequence, so the model does not connect them to the page's actual links.
- FindShopOnGgmap.SaveGgmapResults: a failure is modelled as appending nothing. A write that fails after the header went out leaves the header alone in the file; the model does not record such a partial append.
- GetPhonenumAddress.SaveShopInfo: a failure is modelled as appending nothing. A write that fails part-way leaves the header and a prefix of the rows in the file; the model does not record such a partial append.
- FakeAgent.RandomScroll: states the bounds on the entries, not which draw produced which entry.
- GetPhonenumAddress.VisitOf: collects phones with the intended separators (`;` `,` `/` `|` and newline), not the as-written class that also cuts at `\` and `n`; see Findings for both.
- GetPhonenumAddress.Lookup: a key holding `'` is taken to make a malformed XPath, so the lookup raises. That holds for the one such key here (`[aria-label*='Tên']`), but a quote can in general close the literal into a different, valid expression; that case is not modelled.
- GetShopSellProduct.StringValues: a key repeated in the object yields one value per entry. Python's `data.values()` keeps one value per key (the last), so for repeated keys the model lists more values than the code.
- ProductUrlExtractor.WaitForProductsLoad: which outcome each selector's wait meets (appeared, timed out, other exception) is an input. Only `TimeoutException` is caught; `extract_shopee_products` has no `try`, so any other exception propagates, modelled as `Raised`.
- ProductUrlExtractor.ExtractShopeeProducts: whether the scroll raises is an input flag, and the page's links are an input function of the selector.

## Findings

| source | as written | input that shows it | evidently intended | confidence | as-written member | corrected member |
|---|---|---|---|---|---|---|
| get_phonenum_address.py:214 | `re.split(r"[;,/\|\\n]+", val)`: in a raw string `\\n` is a backslash and the letter `n`, so phone values are cut at every `n` and `\` | the label text `0901 (hotline)` after the phone prefix yields `0901 (hotli` and `e)` | split on `;` `,` `/` `\|` and newline only | not executed | GetPhonenumAddress.PhoneSplitAsWrittenCutsAtN | GetPhonenumAddress.PhoneSplitSeparates |
