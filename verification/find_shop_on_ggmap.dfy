/** find_shop_on_ggmap.py: splitting the shop CSV files between worker
    threads, reading the shop names out of one CSV file, turning a Google
    Maps result page into `{name, href}` records, and the row appended to
    `ggmap_search/<category>.csv`.
    The filesystem is an input: `fs(path)` is the listing of the directory
    at `path`, or `None` when there is no such directory. The result page is
    an input too: its `div` elements in document order, each with the
    anchors (those that carry an `href`) below it, their text as the HTML
    parser extracts it, and the texts of their ancestors, nearest first. */
module FindShopOnGgmap {
  import opened Wrappers
  import opened Strs
  import Seqs
  import Listing
  import Chunking

  // ---------------------------------------------------------------------
  // shop_chunking

  /** Number of chunks: `None` or a value below 1 means 5. */
  function ThreadCount(numThreads: Option<int>): (n: nat)
    ensures n >= 1
    ensures numThreads.Some? && numThreads.value >= 1 ==> n == numThreads.value
    ensures numThreads.None? || numThreads.value < 1 ==> n == 5
  {
    if numThreads.Some? && numThreads.value >= 1 then numThreads.value else 5
  }

  /** `Path(file_path) if file_path else Path("shops")`. */
  function ShopsDir(filePath: Option<string>): string {
    if filePath.Some? && filePath.value != "" then filePath.value else "shops"
  }

  /** `shop_chunking`: `[]` without the directory; otherwise exactly
      `ThreadCount(num_threads)` chunks, sorted CSV file `i` at position
      `i / n` of chunk `i % n`, every file exactly once, chunk sizes within
      one of each other (all empty when there is no CSV file). */
  function ShopChunking(filePath: Option<string>, numThreads: Option<int>, fs: string -> Option<seq<Listing.DirEntry>>): (r: seq<seq<string>>)
    ensures fs(ShopsDir(filePath)).None? ==> r == []
    ensures fs(ShopsDir(filePath)).Some? ==>
      Listing.DealtRoundRobin(r, Listing.SortedSelection(fs(ShopsDir(filePath)).value, ".csv"), ThreadCount(numThreads))
  {
    Listing.RoundRobinFiles(fs(ShopsDir(filePath)), ".csv", ThreadCount(numThreads))
  }

  // ---------------------------------------------------------------------
  // read_shop_names_from_csv

  /** A `csv.DictReader` row: a column maps to its cell; a missing cell has
      no entry. */
  type CsvRow = map<string, string>

  /** `row.get(k)` is truthy. */
  predicate Filled(row: CsvRow, k: string) {
    k in row && row[k] != ""
  }

  /** `row.get('shop_name') or row.get('name') or row.get('shop')`. */
  function RowName(row: CsvRow): (r: Option<string>)
    ensures r.None? <==> !Filled(row, "shop_name") && !Filled(row, "name") && !Filled(row, "shop")
    ensures r.Some? ==> r.value != ""
    ensures Filled(row, "shop_name") ==> r == Some(row["shop_name"])
    ensures !Filled(row, "shop_name") && Filled(row, "name") ==> r == Some(row["name"])
    ensures !Filled(row, "shop_name") && !Filled(row, "name") && Filled(row, "shop") ==> r == Some(row["shop"])
  {
    if Filled(row, "shop_name") then Some(row["shop_name"])
    else if Filled(row, "name") then Some(row["name"])
    else if Filled(row, "shop") then Some(row["shop"])
    else None
  }

  function StrippedName(row: CsvRow): string {
    if RowName(row).Some? then Strip(RowName(row).value) else ""
  }

  predicate Named(row: CsvRow) {
    RowName(row).Some?
  }

  /** `read_shop_names_from_csv` over the rows read before any error: the
      stripped name of every row that has one, in row order. A name made of
      whitespace only is kept, as the empty string. */
  function ReadShopNamesFromCsv(rows: seq<CsvRow>): (names: seq<string>)
    ensures |names| <= |rows|
    ensures forall x :: x in names ==> Trimmed(x)
    ensures forall x :: x in names <==> exists row :: row in rows && Named(row) && x == Strip(RowName(row).value)
    ensures exists idx :: Seqs.Selects(rows, Named, StrippedName, names, idx)
  {
    Seqs.FilterMapOrdered(rows, Named, StrippedName);
    Seqs.FilterMap(rows, Named, StrippedName)
  }

  // ---------------------------------------------------------------------
  // parse_ggmap_results

  datatype Anchor = Anchor(href: string, ariaLabel: Option<string>, text: string, ancestorTexts: seq<string>)

  datatype Div = Div(role: Option<string>, ariaLabel: Option<string>, anchors: seq<Anchor>)

  /** One `{'name': ..., 'href': ...}` result. */
  datatype Place = Place(name: string, href: string)

  /** "kết quả" ("results"), the start of the results panel's label. */
  const ResultsLabel: string := "k\U{1EBF}t qu\U{1EA3}"

  /** The div `soup.find` returns for the feed lookup. */
  predicate IsFeed(d: Div) {
    d.role == Some("feed")
  }

  /** The div the fallback lookup accepts. */
  predicate IsResultsPanel(d: Div) {
    StartsWith(Lower(d.ariaLabel.GetOr("")), ResultsLabel)
  }

  /** `divs[i]` is the first div `p` accepts. */
  predicate FirstAt(divs: seq<Div>, p: Div -> bool, i: int) {
    && 0 <= i < |divs|
    && p(divs[i])
    && forall j :: 0 <= j < i ==> !p(divs[j])
  }

  function FirstWhere(divs: seq<Div>, p: Div -> bool): (r: Option<Div>)
    ensures r.None? <==> forall i :: 0 <= i < |divs| ==> !p(divs[i])
    ensures r.Some? ==> exists i :: FirstAt(divs, p, i) && divs[i] == r.value
  {
    if |divs| == 0 then None
    else if p(divs[0]) then
      assert FirstAt(divs, p, 0);
      Some(divs[0])
    else
      var r := FirstWhere(divs[1..], p);
      assert forall j :: 1 <= j < |divs| ==> divs[1..][j - 1] == divs[j];
      if r.None? then r
      else
        FirstAtShift(divs, p, r.value);
        r
  }

  lemma FirstAtShift(divs: seq<Div>, p: Div -> bool, d: Div)
    requires |divs| > 0 && !p(divs[0])
    requires exists i :: FirstAt(divs[1..], p, i) && divs[1..][i] == d
    ensures exists i :: FirstAt(divs, p, i) && divs[i] == d
  {
    var i :| FirstAt(divs[1..], p, i) && divs[1..][i] == d;
    assert divs[i + 1] == d;
    assert FirstAt(divs, p, i + 1);
  }

  /** `divs[i]` is the first feed, or, when there is no feed, the first
      results panel. */
  predicate ChosenAt(divs: seq<Div>, i: int) {
    FirstAt(divs, IsFeed, i) || (FirstAt(divs, IsResultsPanel, i) && forall j :: 0 <= j < |divs| ==> !IsFeed(divs[j]))
  }

  /** The results container: the first `role="feed"` div, else the first
      div labelled "kết quả…", else none. */
  function Container(divs: seq<Div>): (r: Option<Div>)
    ensures r.None? <==> forall i :: 0 <= i < |divs| ==> !IsFeed(divs[i]) && !IsResultsPanel(divs[i])
    ensures r.Some? ==> r.value in divs && (IsFeed(r.value) || IsResultsPanel(r.value))
    ensures (exists i :: 0 <= i < |divs| && IsFeed(divs[i])) ==> r.Some? && IsFeed(r.value)
    ensures r.Some? ==> exists i :: ChosenAt(divs, i) && divs[i] == r.value
  {
    var feed := FirstWhere(divs, IsFeed);
    if feed.Some? then feed else FirstWhere(divs, IsResultsPanel)
  }

  /** The anchors kept: their href mentions a place. */
  predicate IsPlaceHref(href: string) {
    Contains(href, "/maps/place") || Contains(href, "/place/") || Contains(href, "/maps?cid=")
  }

  /** `urljoin('https://www.google.com', href)` for an href starting with
      `/`: a scheme-relative `//host/...` keeps its host and takes the scheme,
      a path gets the host prepended. */
  function Resolve(href: string): (r: string)
    ensures StartsWith(href, "/") ==> StartsWith(r, "https:")
    ensures !StartsWith(href, "/") ==> r == href
    ensures StartsWith(href, "/") && !StartsWith(href, "//") ==> r == "https://www.google.com" + href
  {
    if StartsWith(href, "//") then "https:" + href
    else if StartsWith(href, "/") then "https://www.google.com" + href
    else href
  }

  /** The first ancestor text (of at most four) longer than two characters. */
  function AncestorName(texts: seq<string>, budget: nat): (r: string)
    ensures r == "" || (|r| > 2 && exists i :: 0 <= i < |texts| && i < budget && texts[i] == r)
    ensures r != "" ==> exists i :: 0 <= i < |texts| && i < budget && texts[i] == r &&
                          forall j :: 0 <= j < i ==> |texts[j]| <= 2
    ensures r == "" ==> forall i :: 0 <= i < |texts| && i < budget ==> |texts[i]| <= 2
  {
    if |texts| == 0 || budget == 0 then ""
    else if |texts[0]| > 2 then texts[0]
    else
      var r := AncestorName(texts[1..], budget - 1);
      assert forall j :: 1 <= j < |texts| ==> texts[1..][j - 1] == texts[j];
      r
  }

  /** `a.get('aria-label') or a.get_text(strip=True) or ''`, then the
      ancestors. */
  function PlaceName(a: Anchor): (name: string)
    ensures a.ariaLabel.Some? && a.ariaLabel.value != "" ==> name == a.ariaLabel.value
    ensures (a.ariaLabel.None? || a.ariaLabel.value == "") && a.text != "" ==> name == a.text
    ensures (a.ariaLabel.None? || a.ariaLabel.value == "") && a.text == "" ==> name == AncestorName(a.ancestorTexts, 4)
  {
    if a.ariaLabel.Some? && a.ariaLabel.value != "" then a.ariaLabel.value
    else if a.text != "" then a.text
    else AncestorName(a.ancestorTexts, 4)
  }

  function ToPlace(a: Anchor): Place {
    Place(PlaceName(a), Resolve(a.href))
  }

  function PlaceHref(p: Place): string { p.href }

  function IsPlaceAnchor(a: Anchor): bool { IsPlaceHref(a.href) }

  /** The loop over the kept anchors: stop once `max_items` results exist,
      skip an href already seen. */
  function CollectPlaces(anchors: seq<Anchor>, maxItems: int, seen: set<string>): (r: seq<Place>)
    decreases |anchors|
  {
    if |anchors| == 0 || maxItems <= 0 then []
    else
      var p := ToPlace(anchors[0]);
      if p.href in seen then CollectPlaces(anchors[1..], maxItems, seen)
      else [p] + CollectPlaces(anchors[1..], maxItems - 1, seen + {p.href})
  }

  function Places(anchors: seq<Anchor>): (r: seq<Place>)
    ensures |r| == |anchors| && forall i :: 0 <= i < |anchors| ==> r[i] == ToPlace(anchors[i])
  {
    seq(|anchors|, i requires 0 <= i < |anchors| => ToPlace(anchors[i]))
  }

  /** The loop computes "first occurrence of every href, then the first
      `max_items` of those". */
  lemma {:induction false} CollectPlacesIsTakeDedup(anchors: seq<Anchor>, maxItems: int, seen: set<string>)
    ensures CollectPlaces(anchors, maxItems, seen) == Seqs.Take(Seqs.DedupBy(Places(anchors), PlaceHref, seen), maxItems)
    decreases |anchors|
  {
    if |anchors| > 0 && maxItems > 0 {
      var ps := Places(anchors);
      var p := ToPlace(anchors[0]);
      assert ps[0] == p && ps[1..] == Places(anchors[1..]);
      if p.href in seen {
        assert Seqs.DedupBy(ps, PlaceHref, seen) == Seqs.DedupBy(ps[1..], PlaceHref, seen);
        CollectPlacesIsTakeDedup(anchors[1..], maxItems, seen);
      } else {
        var rest := Seqs.DedupBy(ps[1..], PlaceHref, seen + {p.href});
        assert Seqs.DedupBy(ps, PlaceHref, seen) == [p] + rest;
        CollectPlacesIsTakeDedup(anchors[1..], maxItems - 1, seen + {p.href});
        Seqs.TakeCons(p, rest, maxItems);
      }
    }
  }

  /** `parse_ggmap_results`: `[]` without a container; otherwise, over the
      container's anchors whose href names a place, the first `max_items`
      distinct resolved hrefs in document order with their names. */
  function ParseGgmapResults(divs: seq<Div>, maxItems: int): (r: seq<Place>)
    ensures Container(divs).None? || maxItems <= 0 ==> r == []
    ensures |r| <= (if maxItems <= 0 then 0 else maxItems)
    ensures Seqs.NoDupBy(r, PlaceHref)
    ensures Container(divs).Some? ==>
      var kept := Seqs.FilterMap(Container(divs).value.anchors, IsPlaceAnchor, ToPlace);
      r == Seqs.Take(Seqs.DedupBy(kept, PlaceHref, {}), maxItems)
  {
    match Container(divs)
    case None => []
    case Some(c) =>
      var kept := Seqs.FilterMap(c.anchors, IsPlaceAnchor, (a: Anchor) => a);
      FilterMapPlaces(c.anchors);
      CollectPlacesIsTakeDedup(kept, maxItems, {});
      var d := Seqs.DedupBy(Places(kept), PlaceHref, {});
      Seqs.TakeNoDupBy(d, PlaceHref, maxItems);
      CollectPlaces(kept, maxItems, {})
  }

  /** Filtering, then mapping, is mapping the filtered anchors. */
  lemma {:induction false} FilterMapPlaces(anchors: seq<Anchor>)
    ensures Places(Seqs.FilterMap(anchors, IsPlaceAnchor, (a: Anchor) => a)) == Seqs.FilterMap(anchors, IsPlaceAnchor, ToPlace)
    decreases |anchors|
  {
    if |anchors| > 0 {
      FilterMapPlaces(anchors[1..]);
      var rest := Seqs.FilterMap(anchors[1..], IsPlaceAnchor, (a: Anchor) => a);
      if IsPlaceAnchor(anchors[0]) {
        assert Places([anchors[0]] + rest) == [ToPlace(anchors[0])] + Places(rest);
      }
    }
  }

  /** Every result is a kept anchor's resolved href with that anchor's name,
      and every kept href is among the results when fewer than `max_items`
      were found. */
  lemma ParseGgmapResultsMembers(divs: seq<Div>, maxItems: int)
    requires Container(divs).Some?
    ensures forall p :: p in ParseGgmapResults(divs, maxItems) ==>
      exists a :: a in Container(divs).value.anchors && IsPlaceHref(a.href) && p == ToPlace(a)
    ensures |ParseGgmapResults(divs, maxItems)| < maxItems ==>
      forall a :: a in Container(divs).value.anchors && IsPlaceHref(a.href) ==>
        exists p :: p in ParseGgmapResults(divs, maxItems) && p.href == Resolve(a.href)
  {
    var kept := Seqs.FilterMap(Container(divs).value.anchors, IsPlaceAnchor, ToPlace);
    var d := Seqs.DedupBy(kept, PlaceHref, {});
    var r := ParseGgmapResults(divs, maxItems);
    forall p | p in r ensures exists a :: a in Container(divs).value.anchors && IsPlaceHref(a.href) && p == ToPlace(a) {
      assert p in d;
    }
    if |r| < maxItems {
      assert r == d;
      forall a | a in Container(divs).value.anchors && IsPlaceHref(a.href)
        ensures exists p :: p in r && p.href == Resolve(a.href)
      {
        assert ToPlace(a) in kept;
        Seqs.DedupByCovers(kept, PlaceHref, {}, ToPlace(a));
      }
    }
  }

  // ---------------------------------------------------------------------
  // save_ggmap_results

  /** What one call appends to one CSV file. */
  datatype CsvAppend = CsvAppend(path: string, rows: seq<seq<string>>)

  const GgmapHeader: seq<string> := ["shop_name", "list_href"]

  /** `save_ggmap_results`: one row, query then the `;`-joined hrefs, after
      the header when the file does not exist yet. Whether creating the
      directory, opening and writing succeed is an input: on failure the
      error is logged and nothing is appended. */
  function SaveGgmapResults(category: string, queryName: string, results: seq<Place>, fileExists: bool, writeSucceeds: bool): (w: Option<CsvAppend>)
    ensures w.Some? <==> writeSucceeds
    ensures w.Some? ==> w.value.path == "ggmap_search/" + category + ".csv"
    ensures w.Some? ==> |w.value.rows| == (if fileExists then 1 else 2)
    ensures w.Some? && !fileExists ==> w.value.rows[0] == GgmapHeader
    ensures w.Some? ==> w.value.rows[|w.value.rows| - 1] == [queryName, Join(HrefsOf(results), ';')]
  {
    if !writeSucceeds then None
    else
      var line := [queryName, Join(HrefsOf(results), ';')];
      Some(CsvAppend("ggmap_search/" + category + ".csv", (if fileExists then [] else [GgmapHeader]) + [line]))
  }

  function HrefsOf(results: seq<Place>): (hs: seq<string>)
    ensures |hs| == |results| && forall i :: 0 <= i < |results| ==> hs[i] == results[i].href
  {
    seq(|results|, i requires 0 <= i < |results| => results[i].href)
  }
}
