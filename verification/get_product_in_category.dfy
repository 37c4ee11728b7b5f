/** get_product_in_category.py: splitting the saved category links into
    contiguous work slices, reading the `{href, name}` record of every
    product tile on a category page, and the result pages a worker visits
    for each category.
    Files and the page are inputs: `file` is what `json.load` produced for
    the chunking file, and `find(sel)` is what `find_elements` returned for
    a selector (or that it raised). */
module GetProductInCategory {
  import opened Wrappers
  import opened Strs
  import Json
  import Chunking
  import Fallback

  // ---------------------------------------------------------------------
  // category_chunking

  /** The default file, `<script dir>/data/category_hrefs.json`, unless a
      non-empty path is given. */
  function CategoryFile(filePath: Option<string>): string {
    if filePath.Some? && filePath.value != "" then filePath.value else "data/category_hrefs.json"
  }

  /** The `category_hrefs` list of a file that loaded to an object whose
      `category_hrefs` entry is a list; `None` for every other file, for
      which the source's `categories` is never bound. */
  function CategoryList(file: Json.JsonFile): (r: Option<seq<Json.Json>>)
    ensures r.Some? <==> file.Loaded? && file.value.JObj? && Json.Get(file.value.entries, "category_hrefs").Some?
                          && Json.Get(file.value.entries, "category_hrefs").value.JArr?
    ensures r.Some? ==> Json.Get(file.value.entries, "category_hrefs") == Some(Json.JArr(r.value))
  {
    if file.Loaded? && file.value.JObj? then
      var v := Json.Get(file.value.entries, "category_hrefs");
      if v.Some? && v.value.JArr? then Some(v.value.items) else None
    else None
  }

  /** `category_chunking`: consecutive slices of `chunkSize` links (the
      last one possibly shorter) whose concatenation is the saved list.
      A missing or unreadable file, a file without a `category_hrefs`
      list, and a `chunkSize` below one all give `[]` (the first three
      raise and are caught; a zero step raises in `range`, a negative one
      yields an empty range). */
  function CategoryChunking(chunkSize: int, file: Json.JsonFile): (r: seq<seq<Json.Json>>)
    ensures CategoryList(file).None? || chunkSize < 1 ==> r == []
    ensures CategoryList(file).Some? && chunkSize >= 1 ==>
      && Chunking.Flatten(r) == CategoryList(file).value
      && |r| == (|CategoryList(file).value| + chunkSize - 1) / chunkSize
      && (forall j :: 0 <= j < |r| ==> 1 <= |r[j]| <= chunkSize)
      && (forall j :: 0 <= j < |r| - 1 ==> |r[j]| == chunkSize)
  {
    match CategoryList(file)
    case None => []
    case Some(categories) => if chunkSize < 1 then [] else Chunking.Slices(categories, chunkSize)
  }

  // ---------------------------------------------------------------------
  // get_infor_product

  datatype Selector = ByXPath(xpath: string) | ByCss(css: string)

  /** One product tile as the extractor reads it. Each field is what the
      corresponding read produced, `None` when the attribute or child is
      absent or the read raised (every such read is guarded):
      `href`, the tile's text, the text of its `div[class*='line-clamp']`
      child, its `img` child's `alt`, and its `title`. */
  datatype ProductItem = ProductItem(
    href: Option<string>,
    text: Option<string>,
    lineClampText: Option<string>,
    imgAlt: Option<string>,
    title: Option<string>)

  /** A product-list container: what `cont.find_elements(sel)` gives. */
  datatype ProductBox = ProductBox(find: Selector -> Outcome<seq<ProductItem>>)

  /** One record of the result list, `{'href': href, 'name': name}`. */
  datatype ProductRecord = ProductRecord(href: Option<string>, name: Option<string>)

  /** A configured selector that Python treats as true: present and
      non-empty. */
  predicate Truthy(s: Option<string>) {
    s.Some? && s.value != ""
  }

  /** `a or b` on an optional string. */
  function OrElse(a: Option<string>, b: string): (r: string)
    ensures Truthy(a) ==> r == a.value
    ensures !Truthy(a) ==> r == b
  {
    if Truthy(a) then a.value else b
  }

  /** The selectors in force: the optional XPath from the `SELECTORS`
      table, and the CSS selector given by the caller, else the table's,
      else the built-in default. The configuration package defines no
      `SELECTORS`, so its import fails and the table is empty in this
      repository; it stays a parameter here. */
  datatype Selectors = Selectors(containerXpath: Option<string>, containerCss: string, itemXpath: Option<string>, itemCss: string)

  function TableGet(table: map<string, string>, key: string): Option<string> {
    if key in table then Some(table[key]) else None
  }

  function ResolveSelectors(table: map<string, string>, containerSelector: Option<string>, itemSelector: Option<string>): (s: Selectors)
    ensures s.containerXpath == TableGet(table, "product_list_container_xpath")
    ensures s.itemXpath == TableGet(table, "product_item_xpath")
    ensures Truthy(containerSelector) ==> s.containerCss == containerSelector.value
    ensures !Truthy(containerSelector) ==> s.containerCss == TableGet(table, "product_list_container_css").GetOr("div.ofs-recommend-page")
    ensures Truthy(itemSelector) ==> s.itemCss == itemSelector.value
    ensures !Truthy(itemSelector) ==> s.itemCss == TableGet(table, "product_item_css").GetOr("a.contents")
  {
    Selectors(
      TableGet(table, "product_list_container_xpath"),
      OrElse(containerSelector, TableGet(table, "product_list_container_css").GetOr("div.ofs-recommend-page")),
      TableGet(table, "product_item_xpath"),
      OrElse(itemSelector, TableGet(table, "product_item_css").GetOr("a.contents")))
  }

  /** What the XPath lookup yields: its elements, or nothing when there is
      no XPath or the lookup raised (that exception is swallowed). */
  function ByXPathOrNothing<T>(find: Selector -> Outcome<seq<T>>, xpath: Option<string>): seq<T> {
    if Truthy(xpath) then
      match find(ByXPath(xpath.value))
      case Ok(v) => v
      case Raised => []
    else []
  }

  /** The XPath-then-CSS lookup used for both containers and items: the
      CSS selector is consulted only when the XPath found nothing, and only
      the CSS lookup can raise out of it. */
  function LookUp<T>(find: Selector -> Outcome<seq<T>>, xpath: Option<string>, css: string): (r: Outcome<seq<T>>)
    ensures ByXPathOrNothing(find, xpath) != [] ==> r == Ok(ByXPathOrNothing(find, xpath))
    ensures ByXPathOrNothing(find, xpath) == [] && css != "" ==> r == find(ByCss(css))
    ensures ByXPathOrNothing(find, xpath) == [] && css == "" ==> r == Ok([])
  {
    var byXpath := ByXPathOrNothing(find, xpath);
    if byXpath == [] && css != "" then find(ByCss(css)) else Ok(byXpath)
  }

  /** When the XPath finds something the CSS selector is never tried: two
      pages that agree on the XPath lookup give the same elements,
      whatever their CSS lookups do. */
  lemma LookUpXPathFirst<T>(find: Selector -> Outcome<seq<T>>, find': Selector -> Outcome<seq<T>>, xpath: Option<string>, css: string)
    requires Truthy(xpath) && find(ByXPath(xpath.value)) == find'(ByXPath(xpath.value))
    requires find(ByXPath(xpath.value)).Ok? && find(ByXPath(xpath.value)).value != []
    ensures LookUp(find, xpath, css) == LookUp(find', xpath, css) == find(ByXPath(xpath.value))
  {
  }

  /** The sources of a tile's name, in the order they are tried. */
  function NameSources(it: ProductItem): seq<Option<string>> {
    [it.text, it.lineClampText, it.imgAlt, it.title]
  }

  /** The name of a tile: its first non-blank source, stripped. */
  function ItemName(it: ProductItem): (r: Option<string>)
    ensures r.Some? ==> r.value != "" && Trimmed(r.value)
  {
    Fallback.FirstNonBlank(NameSources(it))
  }

  /** The name cascade: the tile's stripped text, else the line-clamp
      child's, else the image's `alt`, else the `title`, else `None`. */
  lemma ItemNameCascade(it: ProductItem)
    ensures !Fallback.Blank(it.text) ==> ItemName(it) == Some(Strip(it.text.value))
    ensures Fallback.Blank(it.text) && !Fallback.Blank(it.lineClampText) ==> ItemName(it) == Some(Strip(it.lineClampText.value))
    ensures Fallback.Blank(it.text) && Fallback.Blank(it.lineClampText) && !Fallback.Blank(it.imgAlt) ==>
      ItemName(it) == Some(Strip(it.imgAlt.value))
    ensures Fallback.Blank(it.text) && Fallback.Blank(it.lineClampText) && Fallback.Blank(it.imgAlt) && !Fallback.Blank(it.title) ==>
      ItemName(it) == Some(Strip(it.title.value))
    ensures ItemName(it).None? <==>
      Fallback.Blank(it.text) && Fallback.Blank(it.lineClampText) && Fallback.Blank(it.imgAlt) && Fallback.Blank(it.title)
  {
    var s := NameSources(it);
    assert s[0] == it.text && s[1] == it.lineClampText && s[2] == it.imgAlt && s[3] == it.title;
    if !Fallback.Blank(it.text) {
      Fallback.FirstNonBlankAt(s, 0);
    } else if !Fallback.Blank(it.lineClampText) {
      Fallback.FirstNonBlankAt(s, 1);
    } else if !Fallback.Blank(it.imgAlt) {
      Fallback.FirstNonBlankAt(s, 2);
    } else if !Fallback.Blank(it.title) {
      Fallback.FirstNonBlankAt(s, 3);
    } else {
      assert Fallback.AllBlank(s);
    }
  }

  function Record(it: ProductItem): ProductRecord {
    ProductRecord(it.href, ItemName(it))
  }

  /** The tiles of the containers in order, up to the first container
      whose item lookup raises. */
  function ItemsOf(boxes: seq<ProductBox>, s: Selectors): (items: seq<ProductItem>)
    ensures (forall k :: 0 <= k < |boxes| ==> LookUp(boxes[k].find, s.itemXpath, s.itemCss).Ok?) ==>
      |items| == ItemCount(boxes, s)
  {
    if |boxes| == 0 then []
    else
      match LookUp(boxes[0].find, s.itemXpath, s.itemCss)
      case Raised => []
      case Ok(v) => v + ItemsOf(boxes[1..], s)
  }

  /** How many tiles the containers hold between them. */
  function ItemCount(boxes: seq<ProductBox>, s: Selectors): nat {
    if |boxes| == 0 then 0
    else
      match LookUp(boxes[0].find, s.itemXpath, s.itemCss)
      case Raised => 0
      case Ok(v) => |v| + ItemCount(boxes[1..], s)
  }

  /** The loop over containers and items. An item lookup that raises ends
      the whole extraction (the outer `except`), which then returns the
      records gathered so far. */
  function CollectRecords(boxes: seq<ProductBox>, s: Selectors): (r: seq<ProductRecord>)
  {
    if |boxes| == 0 then []
    else
      match LookUp(boxes[0].find, s.itemXpath, s.itemCss)
      case Raised => []
      case Ok(items) => seq(|items|, i requires 0 <= i < |items| => Record(items[i])) + CollectRecords(boxes[1..], s)
  }

  /** One record per tile, in container order: record `k` carries tile
      `k`'s `href` and its cascaded name. */
  lemma {:induction false} CollectRecordsPerItem(boxes: seq<ProductBox>, s: Selectors)
    ensures |CollectRecords(boxes, s)| == |ItemsOf(boxes, s)|
    ensures forall k :: 0 <= k < |ItemsOf(boxes, s)| ==> CollectRecords(boxes, s)[k] == Record(ItemsOf(boxes, s)[k])
    decreases |boxes|
  {
    if |boxes| > 0 {
      CollectRecordsPerItem(boxes[1..], s);
    }
  }

  /** `get_infor_product`: the containers are looked up (XPath, then
      CSS); none found, or a raising CSS lookup, gives `[]`. */
  function GetInforProduct(page: Selector -> Outcome<seq<ProductBox>>, s: Selectors): (r: seq<ProductRecord>)
    ensures LookUp(page, s.containerXpath, s.containerCss) !in {Raised, Ok([])} ==>
      r == CollectRecords(LookUp(page, s.containerXpath, s.containerCss).value, s)
    ensures LookUp(page, s.containerXpath, s.containerCss) in {Raised, Ok([])} ==> r == []
  {
    match LookUp(page, s.containerXpath, s.containerCss)
    case Raised => []
    case Ok(boxes) => CollectRecords(boxes, s)
  }

  /** Every tile of every container yields exactly one record, in order,
      when no item lookup raises. */
  lemma GetInforProductPerItem(page: Selector -> Outcome<seq<ProductBox>>, s: Selectors)
    requires LookUp(page, s.containerXpath, s.containerCss).Ok?
    requires var boxes := LookUp(page, s.containerXpath, s.containerCss).value;
      forall k :: 0 <= k < |boxes| ==> LookUp(boxes[k].find, s.itemXpath, s.itemCss).Ok?
    ensures var boxes := LookUp(page, s.containerXpath, s.containerCss).value;
      && |GetInforProduct(page, s)| == ItemCount(boxes, s)
      && forall k :: 0 <= k < ItemCount(boxes, s) ==> GetInforProduct(page, s)[k] == Record(ItemsOf(boxes, s)[k])
  {
    CollectRecordsPerItem(LookUp(page, s.containerXpath, s.containerCss).value, s);
  }

  // ---------------------------------------------------------------------
  // the page loop of get_product_in_category

  const PageQuery: string := "/popular?pageNumber="

  function PageUrl(cat: string, i: nat): string {
    cat + PageQuery + Decimal(i)
  }

  /** `for i in range(1, page_num + 1): driver.get(f"{cat}/popular?pageNumber={i}")`. */
  function PageUrls(cat: string, pageNum: int): (r: seq<string>)
    ensures |r| == if pageNum > 0 then pageNum else 0
    ensures forall i :: 0 <= i < |r| ==> r[i] == PageUrl(cat, i + 1)
  {
    if pageNum <= 0 then [] else seq(pageNum, i requires 0 <= i < pageNum => PageUrl(cat, i + 1))
  }

  /** Page `i` of a category is the category URL with the query and the
      page number appended, and the number reads back from the URL. */
  lemma PageUrlNumber(cat: string, i: nat)
    ensures var u := PageUrl(cat, i);
      && StartsWith(u, cat + PageQuery)
      && AllDigits(u[|cat + PageQuery|..])
      && DigitsValue(u[|cat + PageQuery|..]) == i
  {
    var u := PageUrl(cat, i);
    assert u[|cat + PageQuery|..] == Decimal(i);
    assert u[..|cat + PageQuery|] == cat + PageQuery;
    DecimalValue(i);
  }

  /** No page of a category is visited twice. */
  lemma PageUrlsDistinct(cat: string, pageNum: int)
    ensures forall i, j :: 0 <= i < j < |PageUrls(cat, pageNum)| ==> PageUrls(cat, pageNum)[i] != PageUrls(cat, pageNum)[j]
  {
    var r := PageUrls(cat, pageNum);
    forall i, j | 0 <= i < j < |r| ensures r[i] != r[j] {
      PageUrlNumber(cat, i + 1);
      PageUrlNumber(cat, j + 1);
    }
  }
}
