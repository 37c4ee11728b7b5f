/** get_shop_sell_product.py: splitting the product JSON files between
    worker threads, the product URLs read out of a worker's files, and the
    (still empty) shop extraction.
    The filesystem is an input: `fs(path)` lists a directory (`None` when
    there is none) and `load(path)` is what opening the file and running
    `json.load` on it produced. */
module GetShopSellProduct {
  import opened Wrappers
  import opened Strs
  import Json
  import Seqs
  import Listing
  import Chunking

  // ---------------------------------------------------------------------
  // products_chunking

  /** `Path(file_path) if file_path else <script dir>/products`. */
  function ProductsDir(filePath: Option<string>): string {
    if filePath.Some? && filePath.value != "" then filePath.value else "products"
  }

  /** `[[] for _ in range(chunk_size)]`: no chunk at all for a count below one. */
  function EmptyChunks(chunkSize: int): (r: seq<seq<string>>)
    ensures |r| == (if chunkSize > 0 then chunkSize else 0)
    ensures forall k :: 0 <= k < |r| ==> r[k] == []
  {
    if chunkSize > 0 then Chunking.Empties(chunkSize) else []
  }

  /** `products_chunking`: here `chunk_size` is the number of chunks.
      Without the directory, or without a `.json` file in it, that many
      empty chunks; otherwise the sorted files dealt round-robin, or `[]`
      when the count is below one (the modulo or the indexing raises and
      is caught). */
  function ProductsChunking(chunkSize: int, filePath: Option<string>, fs: string -> Option<seq<Listing.DirEntry>>): (r: seq<seq<string>>)
    ensures var listing := fs(ProductsDir(filePath));
      listing.None? || Listing.SortedSelection(listing.value, ".json") == [] ==> r == EmptyChunks(chunkSize)
    ensures var listing := fs(ProductsDir(filePath));
      listing.Some? && Listing.SortedSelection(listing.value, ".json") != [] && chunkSize < 1 ==> r == []
    ensures var listing := fs(ProductsDir(filePath));
      listing.Some? && Listing.SortedSelection(listing.value, ".json") != [] && chunkSize >= 1 ==>
        Listing.DealtRoundRobin(r, Listing.SortedSelection(listing.value, ".json"), chunkSize)
  {
    var listing := fs(ProductsDir(filePath));
    if listing.None? || Listing.SortedSelection(listing.value, ".json") == [] then EmptyChunks(chunkSize)
    else if chunkSize < 1 then []
    else Listing.RoundRobinFiles(listing, ".json", chunkSize)
  }

  // ---------------------------------------------------------------------
  // get_infor_shop

  /** `get_infor_shop` is a stub: no shop, whatever the page. */
  function GetInforShop<Page>(page: Page): (shops: seq<string>)
    ensures |shops| == 0
  {
    []
  }

  // ---------------------------------------------------------------------
  // read_products_from_files

  /** `str(x)` of a loaded JSON value. A string is itself; integers,
      booleans and `None` are rendered as Python renders them; the
      rendering of floats, lists and dicts (`repr`) is the input
      `repr`. */
  function PyStr(x: Json.Json, repr: Json.Json -> string): string {
    match x
    case JStr(s) => s
    case JInt(i) => IntStr(i)
    case JBool(b) => if b then "True" else "False"
    case JNull => "None"
    case _ => repr(x)
  }

  /** `[str(x) for x in items]`. */
  function StrAll(items: seq<Json.Json>, repr: Json.Json -> string): (r: seq<string>)
    ensures |r| == |items| && forall i :: 0 <= i < |items| ==> r[i] == PyStr(items[i], repr)
  {
    seq(|items|, i requires 0 <= i < |items| => PyStr(items[i], repr))
  }

  predicate HoldsString(e: (string, Json.Json)) {
    e.1.JStr?
  }

  function StringOf(e: (string, Json.Json)): string {
    if e.1.JStr? then e.1.s else ""
  }

  /** The string values of a dict: one per entry that holds a string, in
      entry order. */
  function StringValues(d: Json.Entries): (r: seq<string>)
    ensures forall s :: s in r <==> exists k :: (k, Json.JStr(s)) in d
    ensures exists idx :: Seqs.Selects(d, HoldsString, StringOf, r, idx)
  {
    var r := Seqs.FilterMap(d, HoldsString, StringOf);
    Seqs.FilterMapOrdered(d, HoldsString, StringOf);
    assert forall s :: s in r <==> exists k :: (k, Json.JStr(s)) in d by {
      forall s ensures s in r <==> exists k :: (k, Json.JStr(s)) in d {
        if s in r {
          var e :| e in d && HoldsString(e) && s == StringOf(e);
          assert e == (e.0, Json.JStr(s));
        }
        if exists k :: (k, Json.JStr(s)) in d {
          var k :| (k, Json.JStr(s)) in d;
          assert HoldsString((k, Json.JStr(s)));
        }
      }
    }
    r
  }

  /** The string values of two runs of entries follow each other. */
  lemma StringValuesAppend(a: Json.Entries, b: Json.Entries)
    ensures StringValues(a + b) == StringValues(a) + StringValues(b)
  {
    Seqs.FilterMapAppend(a, b, HoldsString, StringOf);
  }

  /** The URLs one file contributes: every element (as `str`) of a list;
      every element of the `products` list of a dict that has one; the
      string values of any other dict, one per string entry in entry
      order; nothing for anything else,
      including a file that is missing or does not parse. */
  function FileProducts(file: Json.JsonFile, repr: Json.Json -> string): (r: seq<string>)
    ensures !file.Loaded? ==> r == []
    ensures file.Loaded? && file.value.JArr? ==> r == StrAll(file.value.items, repr)
    ensures file.Loaded? && file.value.JObj? && Json.Get(file.value.entries, "products").Some?
            && Json.Get(file.value.entries, "products").value.JArr? ==>
      r == StrAll(Json.Get(file.value.entries, "products").value.items, repr)
    ensures file.Loaded? && file.value.JObj? && !(Json.Get(file.value.entries, "products").Some?
            && Json.Get(file.value.entries, "products").value.JArr?) ==>
      forall s :: s in r <==> exists k :: (k, Json.JStr(s)) in file.value.entries
    ensures file.Loaded? && file.value.JObj? && !(Json.Get(file.value.entries, "products").Some?
            && Json.Get(file.value.entries, "products").value.JArr?) ==>
      exists idx :: Seqs.Selects(file.value.entries, HoldsString, StringOf, r, idx)
    ensures file.Loaded? && !file.value.JArr? && !file.value.JObj? ==> r == []
  {
    match file
    case Loaded(data) =>
      if data.JArr? then StrAll(data.items, repr)
      else if data.JObj? then
        var p := Json.Get(data.entries, "products");
        if p.Some? && p.value.JArr? then StrAll(p.value.items, repr) else StringValues(data.entries)
      else []
    case _ => []
  }

  /** `read_products_from_files`: the files' contributions, file by file,
      in the order given. */
  function ReadProductsFromFiles(paths: seq<string>, load: string -> Json.JsonFile, repr: Json.Json -> string): (r: seq<string>)
    ensures |paths| == 0 ==> r == []
    ensures |paths| == 1 ==> r == FileProducts(load(paths[0]), repr)
  {
    if |paths| == 0 then [] else FileProducts(load(paths[0]), repr) + ReadProductsFromFiles(paths[1..], load, repr)
  }

  /** File order is kept: reading two runs of files one after the other
      gives the first run's URLs, then the second's. */
  lemma {:induction false} ReadProductsAppend(a: seq<string>, b: seq<string>, load: string -> Json.JsonFile, repr: Json.Json -> string)
    ensures ReadProductsFromFiles(a + b, load, repr) == ReadProductsFromFiles(a, load, repr) + ReadProductsFromFiles(b, load, repr)
    decreases |a|
  {
    if |a| == 0 {
      assert a + b == b;
    } else {
      assert (a + b)[0] == a[0];
      assert (a + b)[1..] == a[1..] + b;
      ReadProductsAppend(a[1..], b, load, repr);
    }
  }

  /** A file skipped for being unreadable adds nothing: the result is that
      of the remaining files. */
  lemma SkipsUnreadable(a: seq<string>, p: string, b: seq<string>, load: string -> Json.JsonFile, repr: Json.Json -> string)
    requires !load(p).Loaded?
    ensures ReadProductsFromFiles(a + [p] + b, load, repr) == ReadProductsFromFiles(a + b, load, repr)
  {
    ReadProductsAppend(a + [p], b, load, repr);
    ReadProductsAppend(a, [p], load, repr);
    ReadProductsAppend(a, b, load, repr);
  }

  /** A file holding a list of URL strings gives back exactly those URLs,
      whether it is a bare list or a `{"products": [...]}` dict. */
  lemma UrlListReadsBack(urls: seq<string>, repr: Json.Json -> string)
    ensures var items := seq(|urls|, i requires 0 <= i < |urls| => Json.JStr(urls[i]));
      && FileProducts(Json.Loaded(Json.JArr(items)), repr) == urls
      && FileProducts(Json.Loaded(Json.JObj([("products", Json.JArr(items))])), repr) == urls
  {
  }
}
