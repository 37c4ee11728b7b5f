/** get_phonenum_address.py: splitting the `ggmap_search` CSV files between
    worker threads, the hrefs one CSV row makes a worker visit, the shop
    name a visit is filed under, the phone numbers and addresses read off
    a place page's `aria-label` attributes, and the rows appended to
    `shop_info/<category>.csv`.
    The browser is an input: a `Page` gives, for a text `s`, the outcome
    of reading the `aria-label` of every element whose `aria-label`
    contains `s`, in document order, or a raise of the lookup. Files are
    inputs too: `fs(path)` lists a directory (`None` when there is none) and
    `read(path)` gives the rows of a CSV file up to the first failure. */
module GetPhonenumAddress {
  import opened Wrappers
  import opened Strs
  import Seqs
  import Listing
  import Chunking
  import FindShopOnGgmap
  import opened Fallback

  type CsvRow = FindShopOnGgmap.CsvRow

  // ---------------------------------------------------------------------
  // ggmap_search_chunking

  /** `Path(file_path) if file_path else Path("ggmap_search")`. */
  function GgmapSearchDir(filePath: Option<string>): (d: string)
    ensures d != ""
    ensures filePath.Some? && filePath.value != "" ==> d == filePath.value
  {
    if filePath.Some? && filePath.value != "" then filePath.value else "ggmap_search"
  }

  /** `ggmap_search_chunking`: `[]` without the directory; otherwise its
      sorted CSV files dealt round-robin into `ThreadCount(num_threads)`
      chunks (a missing or non-positive count means 5). */
  function GgmapSearchChunking(filePath: Option<string>, numThreads: Option<int>, fs: string -> Option<seq<Listing.DirEntry>>): (r: seq<seq<string>>)
    ensures fs(GgmapSearchDir(filePath)).None? ==> r == []
    ensures fs(GgmapSearchDir(filePath)).Some? ==>
      Listing.DealtRoundRobin(r, Listing.SortedSelection(fs(GgmapSearchDir(filePath)).value, ".csv"), FindShopOnGgmap.ThreadCount(numThreads))
  {
    Listing.RoundRobinFiles(fs(GgmapSearchDir(filePath)), ".csv", FindShopOnGgmap.ThreadCount(numThreads))
  }

  // ---------------------------------------------------------------------
  // The hrefs of one row

  predicate NonBlank(h: string) {
    Strip(h) != ""
  }

  /** `href.lower().startswith('http')`. */
  predicate IsHttp(h: string) {
    StartsWith(Lower(h), "http")
  }

  function Same(h: string): string {
    h
  }

  /** `[h.strip() for h in raw.split(';') if h.strip()]`. */
  function SplitHrefs(raw: string): (hs: seq<string>)
    ensures forall h :: h in hs <==> exists p :: p in Split(raw, ';') && NonBlank(p) && h == Strip(p)
    ensures exists idx :: Seqs.Selects(Split(raw, ';'), NonBlank, Strip, hs, idx)
  {
    Seqs.FilterMapOrdered(Split(raw, ';'), NonBlank, Strip);
    Seqs.FilterMap(Split(raw, ';'), NonBlank, Strip)
  }

  /** Every href a `list_href` cell yields is non-empty and stripped. */
  lemma SplitHrefsClean(raw: string)
    ensures forall h :: h in SplitHrefs(raw) ==> h != "" && Trimmed(h)
  {
    var hs := SplitHrefs(raw);
    forall h | h in hs
      ensures h != "" && Trimmed(h)
    {
      var p :| p in Split(raw, ';') && NonBlank(p) && h == Strip(p);
    }
  }

  /** The hrefs a row sends the browser to, in order: the stripped
      non-blank `;`-pieces of `row.get('list_href') or ''` that start with
      "http" in any letter case (the others are logged and skipped). */
  function VisitedHrefs(row: CsvRow): (hs: seq<string>)
    ensures !FindShopOnGgmap.Filled(row, "list_href") ==> hs == []
    ensures FindShopOnGgmap.Filled(row, "list_href") ==>
      forall h :: h in hs <==> h in SplitHrefs(row["list_href"]) && IsHttp(h)
    ensures forall h :: h in hs ==> h != "" && Trimmed(h) && IsHttp(h)
    ensures FindShopOnGgmap.Filled(row, "list_href") ==>
      exists idx :: Seqs.Selects(SplitHrefs(row["list_href"]), IsHttp, Same, hs, idx)
  {
    if !FindShopOnGgmap.Filled(row, "list_href") then []
    else
      SplitHrefsClean(row["list_href"]);
      Seqs.FilterMapOrdered(SplitHrefs(row["list_href"]), IsHttp, Same);
      Seqs.FilterMap(SplitHrefs(row["list_href"]), IsHttp, Same)
  }

  /** The row a successful `save_ggmap_results` appends, read back by
      `csv.DictReader` under its header, makes the worker visit exactly the
      saved hrefs, in order, provided each is a non-empty, stripped,
      `;`-free http(s) link. */
  lemma SavedRowVisitsSavedHrefs(category: string, queryName: string, results: seq<FindShopOnGgmap.Place>, fileExists: bool)
    requires forall i :: 0 <= i < |results| ==>
      results[i].href != "" && Trimmed(results[i].href) && ';' !in results[i].href && IsHttp(results[i].href)
    ensures
      var w := FindShopOnGgmap.SaveGgmapResults(category, queryName, results, fileExists, true).value;
      var line := w.rows[|w.rows| - 1];
      VisitedHrefs(map["shop_name" := line[0], "list_href" := line[1]]) == FindShopOnGgmap.HrefsOf(results)
  {
    var hs := FindShopOnGgmap.HrefsOf(results);
    var w := FindShopOnGgmap.SaveGgmapResults(category, queryName, results, fileExists, true).value;
    var line := w.rows[|w.rows| - 1];
    assert line[0] == queryName && line[1] == Join(hs, ';');
    VisitsJoined(queryName, hs);
  }

  /** A row whose `list_href` cell joins suitable hrefs with `;` sends the
      browser to exactly those hrefs. */
  lemma VisitsJoined(name: string, hs: seq<string>)
    requires forall i :: 0 <= i < |hs| ==> hs[i] != "" && Trimmed(hs[i]) && ';' !in hs[i] && IsHttp(hs[i])
    ensures VisitedHrefs(map["shop_name" := name, "list_href" := Join(hs, ';')]) == hs
  {
    var cell := Join(hs, ';');
    var row := map["shop_name" := name, "list_href" := cell];
    assert row["list_href"] == cell;
    if hs == [] {
      assert !FindShopOnGgmap.Filled(row, "list_href");
    } else {
      SplitHrefsJoined(hs);
      Seqs.FilterMapKeepsAll(hs, IsHttp, Same);
      JoinNonEmpty(hs, ';');
      assert FindShopOnGgmap.Filled(row, "list_href");
    }
  }

  /** Splitting a `;`-joined list of stripped, non-empty, `;`-free hrefs
      gives the list back. */
  lemma SplitHrefsJoined(hs: seq<string>)
    requires |hs| > 0
    requires forall i :: 0 <= i < |hs| ==> hs[i] != "" && Trimmed(hs[i]) && ';' !in hs[i]
    ensures SplitHrefs(Join(hs, ';')) == hs
  {
    SplitJoin(hs, ';');
    forall i | 0 <= i < |hs| ensures NonBlank(hs[i]) && Strip(hs[i]) == hs[i] {
      StripTrimmed(hs[i]);
    }
    Seqs.FilterMapKeepsAll(hs, NonBlank, Strip);
  }

  // ---------------------------------------------------------------------
  // The category a visit is filed under

  /** `Path(p).name`: the text after the last `/`. */
  function BaseName(path: string): (name: string)
    ensures forall j :: 0 <= j < |name| ==> name[j] != '/'
    ensures |name| <= |path| && name == path[|path| - |name|..]
  {
    var i := RFind(path, '/');
    path[i + 1..]
  }

  /** `Path(p).stem`: the name without its suffix. */
  function Stem(path: string): (r: string)
    ensures BaseName(path) == r + Listing.Suffix(BaseName(path))
  {
    var name := BaseName(path);
    name[..|name| - |Listing.Suffix(name)|]
  }

  /** `row.get('category') or Path(csv_file).stem`. */
  function RowCategory(row: CsvRow, csvPath: string): (c: string)
    ensures FindShopOnGgmap.Filled(row, "category") ==> c == row["category"]
    ensures !FindShopOnGgmap.Filled(row, "category") ==> c == Stem(csvPath)
  {
    if FindShopOnGgmap.Filled(row, "category") then row["category"] else Stem(csvPath)
  }

  /** A file written by `save_ggmap_results` for a non-empty, `/`-free
      category names that category again through its stem. */
  lemma GgmapFileStem(category: string)
    requires category != "" && forall j :: 0 <= j < |category| ==> category[j] != '/'
    ensures Stem("ggmap_search/" + category + ".csv") == category
  {
    var path := "ggmap_search/" + category + ".csv";
    var name := category + ".csv";
    assert path == "ggmap_search/" + name;
    assert path[12] == '/';
    assert forall j :: 12 < j < |path| ==> path[j] == name[j - 13];
    RFindIs(path, '/', 12);
    assert path[13..] == name;
    assert name[|category|] == '.';
    RFindIs(name, '.', |category|);
    assert name[|category|..] == ".csv";
  }

  // ---------------------------------------------------------------------
  // save_shop_info

  /** `[0-9A-Za-z\-_ ]`: the characters a category keeps in a file name. */
  predicate SafeChar(c: char) {
    || ('0' <= c <= '9')
    || ('A' <= c <= 'Z')
    || ('a' <= c <= 'z')
    || c == '-' || c == '_' || c == ' '
  }

  /** `re.sub(r"[^0-9A-Za-z\-_ ]", '_', category or 'unknown')`. */
  function SafeCategory(category: string): (r: string)
    ensures category == "" ==> r == "unknown"
    ensures category != "" ==> |r| == |category|
    ensures forall i :: 0 <= i < |r| ==> SafeChar(r[i])
    ensures category != "" ==> forall i :: 0 <= i < |r| && SafeChar(category[i]) ==> r[i] == category[i]
  {
    var c := if category == "" then "unknown" else category;
    seq(|c|, i requires 0 <= i < |c| => if SafeChar(c[i]) then c[i] else '_')
  }

  /** A category made of safe characters names its own file; so
      `SafeCategory` is idempotent. */
  lemma SafeCategoryKeepsSafe(category: string)
    requires category != "" && forall i :: 0 <= i < |category| ==> SafeChar(category[i])
    ensures SafeCategory(category) == category
  {
  }

  lemma SafeCategoryIdempotent(category: string)
    ensures SafeCategory(SafeCategory(category)) == SafeCategory(category)
  {
    var r := SafeCategory(category);
    assert r != "";
    SafeCategoryKeepsSafe(r);
  }

  /** One `shop_name, phone, address` row. */
  datatype InfoRow = InfoRow(shopName: string, phone: string, address: string)

  /** What one call appends: the file, whether the header goes first, the rows. */
  datatype InfoAppend = InfoAppend(path: string, writeHeader: bool, rows: seq<InfoRow>)

  /** `i * n`, by repeated addition: the index of the first row of phone
      `i` when every phone has `n` rows. */
  function Offset(i: nat, n: nat): nat {
    if i == 0 then 0 else n + Offset(i - 1, n)
  }

  lemma {:induction false} OffsetIsProduct(i: nat, n: nat)
    ensures Offset(i, n) == i * n
  {
    if i > 0 {
      OffsetIsProduct(i - 1, n);
      Chunking.MulSub(i, 1, n);
    }
  }

  /** Row `Offset(i, |addresses|) + j` pairs phone `i` with address `j`,
      and there are no other rows. */
  predicate PhoneMajor(rows: seq<InfoRow>, shopName: string, phones: seq<string>, addresses: seq<string>) {
    && |rows| == Offset(|phones|, |addresses|)
    && forall i: nat, j: nat :: i < |phones| && j < |addresses| ==> PairedAt(rows, shopName, phones, addresses, i, j)
  }

  /** Row `Offset(i, |addresses|) + j` exists and pairs phone `i` with
      address `j`. */
  predicate PairedAt(rows: seq<InfoRow>, shopName: string, phones: seq<string>, addresses: seq<string>, i: nat, j: nat) {
    && i < |phones| && j < |addresses|
    && Offset(i, |addresses|) + j < |rows|
    && rows[Offset(i, |addresses|) + j] == InfoRow(shopName, phones[i], addresses[j])
  }

  /** One row per address, all with the same phone. */
  function AddressRows(shopName: string, phone: string, addresses: seq<string>): (rows: seq<InfoRow>)
    ensures |rows| == |addresses|
    ensures forall j :: 0 <= j < |addresses| ==> rows[j] == InfoRow(shopName, phone, addresses[j])
  {
    seq(|addresses|, j requires 0 <= j < |addresses| => InfoRow(shopName, phone, addresses[j]))
  }

  /** `for p in phones: for a in addresses: rows.append(...)`. */
  function Pairs(shopName: string, phones: seq<string>, addresses: seq<string>): (rows: seq<InfoRow>)
    ensures |rows| == Offset(|phones|, |addresses|)
  {
    if |phones| == 0 then []
    else AddressRows(shopName, phones[0], addresses) + Pairs(shopName, phones[1..], addresses)
  }

  lemma {:induction false} PairsMembers(shopName: string, phones: seq<string>, addresses: seq<string>)
    ensures forall r :: r in Pairs(shopName, phones, addresses) ==>
      r.shopName == shopName && r.phone in phones && r.address in addresses
  {
    if |phones| > 0 {
      PairsMembers(shopName, phones[1..], addresses);
      assert forall p :: p in phones[1..] ==> p in phones;
    }
  }

  lemma {:induction false} PairsAt(shopName: string, phones: seq<string>, addresses: seq<string>, i: nat, j: nat)
    requires i < |phones| && j < |addresses|
    ensures Offset(i, |addresses|) + j < |Pairs(shopName, phones, addresses)|
    ensures Pairs(shopName, phones, addresses)[Offset(i, |addresses|) + j] == InfoRow(shopName, phones[i], addresses[j])
    decreases i
  {
    if i > 0 {
      PairsAt(shopName, phones[1..], addresses, i - 1, j);
    }
  }

  /** The nested loops build the phone-major product. */
  lemma PairsPhoneMajor(shopName: string, phones: seq<string>, addresses: seq<string>)
    ensures PhoneMajor(Pairs(shopName, phones, addresses), shopName, phones, addresses)
  {
    forall i: nat, j: nat | i < |phones| && j < |addresses|
      ensures PairedAt(Pairs(shopName, phones, addresses), shopName, phones, addresses, i, j)
    {
      PairsAt(shopName, phones, addresses, i, j);
    }
  }

  /** Each phone and each address appears in some row of the product. */
  lemma PairsCover(shopName: string, phones: seq<string>, addresses: seq<string>)
    requires phones != [] && addresses != []
    ensures forall p :: p in phones ==> exists r :: r in Pairs(shopName, phones, addresses) && r.phone == p
    ensures forall a :: a in addresses ==> exists r :: r in Pairs(shopName, phones, addresses) && r.address == a
  {
    var rows := Pairs(shopName, phones, addresses);
    forall p | p in phones ensures exists r :: r in rows && r.phone == p {
      var i :| 0 <= i < |phones| && phones[i] == p;
      PairsAt(shopName, phones, addresses, i, 0);
      assert rows[Offset(i, |addresses|) + 0] in rows;
    }
    forall a | a in addresses ensures exists r :: r in rows && r.address == a {
      var j :| 0 <= j < |addresses| && addresses[j] == a;
      PairsAt(shopName, phones, addresses, 0, j);
      assert rows[Offset(0, |addresses|) + j] in rows;
    }
  }

  /** The rows `save_shop_info` builds: none without data; one per phone
      (empty address) or one per address (empty phone) when the other
      list is empty; otherwise the phone-major product. */
  function ShopInfoRows(shopName: string, phones: seq<string>, addresses: seq<string>): (rows: seq<InfoRow>)
    ensures phones == [] && addresses == [] ==> rows == []
    ensures phones != [] && addresses == [] ==>
      |rows| == |phones| && forall i :: 0 <= i < |phones| ==> rows[i] == InfoRow(shopName, phones[i], "")
    ensures phones == [] && addresses != [] ==>
      |rows| == |addresses| && forall j :: 0 <= j < |addresses| ==> rows[j] == InfoRow(shopName, "", addresses[j])
    ensures phones != [] && addresses != [] ==> PhoneMajor(rows, shopName, phones, addresses)
  {
    if phones != [] && addresses == [] then
      seq(|phones|, i requires 0 <= i < |phones| => InfoRow(shopName, phones[i], ""))
    else if addresses != [] && phones == [] then
      seq(|addresses|, j requires 0 <= j < |addresses| => InfoRow(shopName, "", addresses[j]))
    else
      PairsPhoneMajor(shopName, phones, addresses);
      Pairs(shopName, phones, addresses)
  }

  /** Every row names the shop and carries a listed phone (or none) and a
      listed address (or none); each phone and each address appears. */
  lemma ShopInfoRowsCover(shopName: string, phones: seq<string>, addresses: seq<string>)
    ensures forall r :: r in ShopInfoRows(shopName, phones, addresses) ==>
      && r.shopName == shopName
      && (r.phone in phones || (phones == [] && r.phone == ""))
      && (r.address in addresses || (addresses == [] && r.address == ""))
    ensures forall p :: p in phones ==> exists r :: r in ShopInfoRows(shopName, phones, addresses) && r.phone == p
    ensures forall a :: a in addresses ==> exists r :: r in ShopInfoRows(shopName, phones, addresses) && r.address == a
  {
    var rows := ShopInfoRows(shopName, phones, addresses);
    if phones != [] && addresses != [] {
      assert rows == Pairs(shopName, phones, addresses);
      PairsMembers(shopName, phones, addresses);
      PairsCover(shopName, phones, addresses);
    } else if phones != [] {
      forall p | p in phones ensures exists r :: r in rows && r.phone == p {
        var i :| 0 <= i < |phones| && phones[i] == p;
        assert rows[i] in rows;
      }
    } else if addresses != [] {
      forall a | a in addresses ensures exists r :: r in rows && r.address == a {
        var j :| 0 <= j < |addresses| && addresses[j] == a;
        assert rows[j] in rows;
      }
    }
  }

  /** `save_shop_info`: nothing when both lists are empty; otherwise the
      rows go to `shop_info/<safe category>.csv`, after the header when the
      file does not exist yet. Whether opening and writing the file succeed
      is an input: on failure the error is logged and nothing is appended. */
  function SaveShopInfo(category: string, shopName: string, phones: seq<string>, addresses: seq<string>, fileExists: bool, writeSucceeds: bool): (w: Option<InfoAppend>)
    ensures w.None? <==> (phones == [] && addresses == []) || !writeSucceeds
    ensures w.Some? ==> w.value.path == "shop_info/" + SafeCategory(category) + ".csv"
    ensures w.Some? ==> w.value.writeHeader == !fileExists
    ensures w.Some? ==> w.value.rows == ShopInfoRows(shopName, phones, addresses) && |w.value.rows| >= 1
  {
    if (phones == [] && addresses == []) || !writeSucceeds then None
    else
      var rows := ShopInfoRows(shopName, phones, addresses);
      assert |rows| >= 1 by {
        if phones != [] && addresses != [] {
          assert Offset(|phones|, |addresses|) >= |addresses|;
        }
      }
      Some(InfoAppend("shop_info/" + SafeCategory(category) + ".csv", !fileExists, rows))
  }

  // ---------------------------------------------------------------------
  // extract_aria_values

  const PhonePrefix: string := "S\U{1ED1} \U{111}i\U{1EC7}n tho\U{1EA1}i:"
  const AddressPrefix: string := "\U{110}\U{1ECB}a ch\U{1EC9}:"
  /** A prefix containing this marks an address label, which is not split. */
  const AddressMarker: string := "\U{110}\U{1ECB}a ch\U{1EC9}"

  /** `[,\.\s]`: what `normalize` trims from the end of a value. */
  predicate TrailingJunk(c: char) {
    c == ',' || c == '.' || IsSpace(c)
  }

  /** What `normalize` produces: stripped, whitespace only as single
      spaces, and not ending in `,` or `.`. */
  predicate Normalized(t: string) {
    && Trimmed(t)
    && SingleSpaced(t)
    && (|t| == 0 || !TrailingJunk(t[|t| - 1]))
  }

  /** The first two steps of `normalize`: strip, then drop one leading
      label prefix and strip again. */
  function Unlabel(s: string, prefix: string): (r: string)
    ensures Trimmed(r)
    ensures !StartsWith(Strip(s), prefix) ==> Inner(s, r)
    ensures StartsWith(Strip(s), prefix) ==> exists i :: LabelAt(s, prefix, i) && Inner(s[i + |prefix|..], r)
  {
    var s1 := Strip(s);
    StripSlice(s);
    if StartsWith(s1, prefix) then
      var r := Strip(s1[|prefix|..]);
      UnlabelDrops(s, prefix);
      r
    else s1
  }

  /** The label prefix sits at `i` in `s`, after nothing but whitespace. */
  predicate LabelAt(s: string, prefix: string, i: int) {
    0 <= i && i + |prefix| <= |s| && AllSpace(s[..i]) && s[i..i + |prefix|] == prefix
  }

  /** Dropping the prefix leaves the text after it, less a whitespace run
      at each end. */
  lemma UnlabelDrops(s: string, prefix: string)
    requires StartsWith(Strip(s), prefix)
    ensures exists i :: LabelAt(s, prefix, i) && Inner(s[i + |prefix|..], Strip(Strip(s)[|prefix|..]))
  {
    StripSlice(s);
    var i, j :| 0 <= i <= j <= |s| && Strip(s) == s[i..j] && AllSpace(s[..i]) && AllSpace(s[j..]);
    UnlabelDropsAt(s, prefix, i, j, Strip(s));
  }

  /** `UnlabelDrops` for the stripped text `x`, found at `s[i..j]`. */
  lemma UnlabelDropsAt(s: string, prefix: string, i: nat, j: nat, x: string)
    requires i <= j <= |s| && x == s[i..j] && AllSpace(s[..i]) && AllSpace(s[j..])
    requires StartsWith(x, prefix)
    ensures LabelAt(s, prefix, i) && Inner(s[i + |prefix|..], Strip(x[|prefix|..]))
  {
    var t := x[|prefix|..];
    SliceSplit(s, i, |prefix|, j, x);
    StripSlice(t);
    InnerExtend(t, Strip(t), s[j..]);
  }

  /** Cutting the slice `x == s[i..j]` after `m` characters. */
  lemma SliceSplit(s: string, i: nat, m: nat, j: nat, x: string)
    requires i + m <= j <= |s| && x == s[i..j]
    ensures x[..m] == s[i..i + m]
    ensures x[m..] == s[i + m..j]
    ensures s[i + m..] == x[m..] + s[j..]
  {
  }

  /** Whitespace appended at the end only lengthens the run `Inner` drops. */
  lemma InnerExtend(t: string, r: string, w: string)
    requires exists a, b :: 0 <= a <= b <= |t| && t[a..b] == r && AllSpace(t[..a]) && AllSpace(t[b..])
    requires AllSpace(w)
    ensures Inner(t + w, r)
  {
    var a, b :| 0 <= a <= b <= |t| && t[a..b] == r && AllSpace(t[..a]) && AllSpace(t[b..]);
    var u := t + w;
    assert u[a..b] == r && u[..a] == t[..a];
    assert u[b..] == t[b..] + w;
  }

  /** `normalize` inside `extract_aria_values`: `Unlabel`, then remove the
      trailing run of `,`, `.` and whitespace, then turn each whitespace
      run into one space. The string is stripped before the trailing run
      is removed, so it never ends in a newline and `$` can only match at
      its end. */
  function Normalize(s: string, prefix: string): (r: string)
    ensures Normalized(r)
  {
    var s2 := Unlabel(s, prefix);
    var s3 := DropTrailing(s2, TrailingJunk);
    assert Trimmed(s3) && (|s3| == 0 || !TrailingJunk(s3[|s3| - 1])) by {
      if |s3| > 0 {
        assert s3[0] == s2[0];
        assert !IsSpace(s3[|s3| - 1]);
      }
    }
    var r := CollapseSpaces(s3);
    assert |r| == 0 || !TrailingJunk(r[|r| - 1]) by {
      if |r| > 0 {
        assert r[|r| - 1] == s3[|s3| - 1];
      }
    }
    r
  }

  /** `Normalize` keeps the words of the unlabelled text, whole and in
      order, once its trailing run of `,`, `.` and whitespace is gone. */
  lemma NormalizeKeepsWords(s: string, prefix: string)
    ensures Fields(Normalize(s, prefix), IsSpace) == Fields(DropTrailing(Unlabel(s, prefix), TrailingJunk), IsSpace)
  {
    CollapseKeepsWords(DropTrailing(Unlabel(s, prefix), TrailingJunk));
  }

  /** A normalized value that does not start with the label prefix comes
      out of `Normalize` unchanged. */
  lemma NormalizeFixesNormalized(t: string, prefix: string)
    requires Normalized(t)
    requires prefix == "" || !StartsWith(t, prefix)
    ensures Normalize(t, prefix) == t
  {
    if prefix == "" {
      UnlabelEmptyPrefix(t, prefix);
    } else {
      UnlabelFixes(t, prefix);
    }
    DropTrailingFixes(t);
    CollapseSingleSpaced(t);
  }

  lemma UnlabelFixes(t: string, prefix: string)
    requires Trimmed(t)
    requires prefix != "" && !StartsWith(t, prefix)
    ensures Unlabel(t, prefix) == t
  {
    StripTrimmed(t);
  }

  lemma UnlabelEmptyPrefix(t: string, prefix: string)
    requires Trimmed(t) && prefix == ""
    ensures Unlabel(t, prefix) == t
  {
    StripTrimmed(t);
    assert t[|prefix|..] == t;
  }

  lemma DropTrailingFixes(t: string)
    requires |t| == 0 || !TrailingJunk(t[|t| - 1])
    ensures DropTrailing(t, TrailingJunk) == t
  {
  }

  /** The phone separators as the source writes them, `r"[;,/|\\n]+"`: in
      a raw string `\\n` is an escaped backslash followed by the letter
      `n`, so the class holds `;` `,` `/` `|` backslash and `n`. */
  predicate PhoneSepAsWritten(c: char) {
    c == ';' || c == ',' || c == '/' || c == '|' || c == '\\' || c == 'n'
  }

  /** The phone separators evidently intended: `;` `,` `/` `|` and newline. */
  predicate PhoneSep(c: char) {
    c == ';' || c == ',' || c == '/' || c == '|' || c == '\n'
  }

  /** The pieces of the text after the label prefix: the whole text for an
      address label, the separator-free runs otherwise. */
  function LabelParts(aria: string, prefix: string, isSep: char -> bool): (parts: seq<string>)
    requires Contains(aria, prefix)
    ensures Contains(prefix, AddressMarker) ==> parts == [AfterFirst(aria, prefix)]
    ensures !Contains(prefix, AddressMarker) ==> parts == Fields(AfterFirst(aria, prefix), isSep)
  {
    var v := AfterFirst(aria, prefix);
    if Contains(prefix, AddressMarker) then [v] else Fields(v, isSep)
  }

  /** `normalize` for one label prefix, as a function of the piece. */
  function NormOf(prefix: string): string -> string {
    (p: string) => Normalize(p, prefix)
  }

  /** The pieces `normalize` does not empty. */
  function KeepsNorm(prefix: string): string -> bool {
    (p: string) => Normalize(p, prefix) != ""
  }

  /** `[normalize(p) for p in parts if normalize(p)]`: the normalized
      pieces that are not empty, one per such piece, in the order of
      `parts`. */
  function NormalizeAll(parts: seq<string>, prefix: string): (vs: seq<string>)
    ensures |vs| <= |parts|
    ensures forall v :: v in vs <==> exists p :: p in parts && v == Normalize(p, prefix) && v != ""
    ensures forall v :: v in vs ==> v != "" && Normalized(v)
    ensures exists idx :: Seqs.Selects(parts, KeepsNorm(prefix), NormOf(prefix), vs, idx)
  {
    Seqs.FilterMapOrdered(parts, KeepsNorm(prefix), NormOf(prefix));
    Seqs.FilterMap(parts, KeepsNorm(prefix), NormOf(prefix))
  }

  /** The values one element's label contributes: nothing when the label
      is absent or lacks the prefix; for an address label, the normalized
      text after the first prefix when that is not empty; otherwise the
      non-empty normalized separator-free pieces of that text, in order.
      An empty prefix makes `al.split('', 1)` raise for every element, so
      it contributes none. */
  function LabelValues(aria: Option<string>, prefix: string, isSep: char -> bool): (vs: seq<string>)
    ensures forall v :: v in vs ==> v != "" && Normalized(v)
    ensures prefix == "" || aria.None? ==> vs == []
    ensures aria.Some? && !Contains(aria.value, prefix) ==> vs == []
  {
    if prefix == "" || aria.None? || !Contains(aria.value, prefix) then []
    else NormalizeAll(LabelParts(aria.value, prefix, isSep), prefix)
  }

  /** What a label holding the prefix contributes: for an address label,
      the normalized text after the first prefix when that is not empty;
      otherwise the non-empty normalized separator-free pieces of that
      text, one per piece, in order. */
  lemma LabelValuesContent(aria: string, prefix: string, isSep: char -> bool)
    requires prefix != "" && Contains(aria, prefix)
    ensures Contains(prefix, AddressMarker) ==>
      var v := Normalize(AfterFirst(aria, prefix), prefix);
      LabelValues(Some(aria), prefix, isSep) == if v == "" then [] else [v]
    ensures !Contains(prefix, AddressMarker) ==>
      exists idx :: Seqs.Selects(Fields(AfterFirst(aria, prefix), isSep), KeepsNorm(prefix), NormOf(prefix), LabelValues(Some(aria), prefix, isSep), idx)
  {
    var parts := LabelParts(aria, prefix, isSep);
    assert LabelValues(Some(aria), prefix, isSep) == NormalizeAll(parts, prefix);
    if Contains(prefix, AddressMarker) {
      Seqs.FilterMapOne(AfterFirst(aria, prefix), KeepsNorm(prefix), NormOf(prefix));
    }
  }

  /** `LabelValues` for one prefix and separator class, as a function of
      the label. */
  function ValuesOf(prefix: string, isSep: char -> bool): Option<string> -> seq<string> {
    (aria: Option<string>) => LabelValues(aria, prefix, isSep)
  }

  /** `results` before de-duplication: every element's values in order. */
  function AllValues(labels: seq<Option<string>>, prefix: string, isSep: char -> bool): (vs: seq<string>)
    ensures prefix == "" ==> vs == []
  {
    AllValuesEmptyPrefix(labels, prefix, isSep);
    Seqs.FlatMap(labels, ValuesOf(prefix, isSep))
  }

  lemma {:induction false} AllValuesEmptyPrefix(labels: seq<Option<string>>, prefix: string, isSep: char -> bool)
    ensures prefix == "" ==> Seqs.FlatMap(labels, ValuesOf(prefix, isSep)) == []
    decreases |labels|
  {
    if |labels| > 0 {
      AllValuesEmptyPrefix(labels[1..], prefix, isSep);
    }
  }

  /** A value is collected exactly when some element contributes it. */
  lemma AllValuesMembers(labels: seq<Option<string>>, prefix: string, isSep: char -> bool)
    ensures forall v :: v in AllValues(labels, prefix, isSep) <==> exists i :: 0 <= i < |labels| && v in LabelValues(labels[i], prefix, isSep)
  {
    Seqs.FlatMapMembers(labels, ValuesOf(prefix, isSep));
  }

  /** The values of consecutive runs of elements follow each other: the
      values of `a + b` are those of `a`, then those of `b`; one element
      contributes exactly its own values. */
  lemma AllValuesAppend(a: seq<Option<string>>, b: seq<Option<string>>, prefix: string, isSep: char -> bool)
    ensures AllValues(a + b, prefix, isSep) == AllValues(a, prefix, isSep) + AllValues(b, prefix, isSep)
    ensures |a| == 1 ==> AllValues(a, prefix, isSep) == LabelValues(a[0], prefix, isSep)
  {
    Seqs.FlatMapAppend(a, b, ValuesOf(prefix, isSep));
  }

  /** `extract_aria_values` with the phone separators given by `isSep`:
      the distinct normalized values of the labels that contain the
      prefix, in first-occurrence order. */
  function ExtractAriaValuesWith(labels: seq<Option<string>>, prefix: string, isSep: char -> bool): (r: seq<string>)
    ensures Seqs.NoDup(r)
    ensures forall v :: v in r ==> v != "" && Normalized(v)
    ensures forall v :: v in r <==> exists i :: 0 <= i < |labels| && v in LabelValues(labels[i], prefix, isSep)
    ensures prefix == "" ==> r == []
    ensures exists idx :: Seqs.FirstOccurrences(AllValues(labels, prefix, isSep), Seqs.Id, r, idx)
  {
    AllValuesMembers(labels, prefix, isSep);
    Seqs.Distinct(AllValues(labels, prefix, isSep))
  }

  /** `extract_aria_values` as the source writes it. */
  function ExtractAriaValuesAsWritten(labels: seq<Option<string>>, prefix: string): (r: seq<string>)
    ensures Seqs.NoDup(r)
    ensures forall v :: v in r ==> v != "" && Normalized(v)
    ensures forall v :: v in r <==> exists i :: 0 <= i < |labels| && v in LabelValues(labels[i], prefix, PhoneSepAsWritten)
    ensures exists idx :: Seqs.FirstOccurrences(AllValues(labels, prefix, PhoneSepAsWritten), Seqs.Id, r, idx)
  {
    ExtractAriaValuesWith(labels, prefix, PhoneSepAsWritten)
  }

  /** `extract_aria_values` with the evidently intended phone separators;
      the rest of the model uses this one. */
  function ExtractAriaValues(labels: seq<Option<string>>, prefix: string): (r: seq<string>)
    ensures Seqs.NoDup(r)
    ensures forall v :: v in r ==> v != "" && Normalized(v)
    ensures forall v :: v in r <==> exists i :: 0 <= i < |labels| && v in LabelValues(labels[i], prefix, PhoneSep)
    ensures exists idx :: Seqs.FirstOccurrences(AllValues(labels, prefix, PhoneSep), Seqs.Id, r, idx)
  {
    ExtractAriaValuesWith(labels, prefix, PhoneSep)
  }

  /** The as-written class cuts a phone value at every letter `n`: text
      `a + "n" + b` after the prefix gives the two values `a` and `b`
      even when neither holds an intended separator, which the intended
      class keeps as one value. */
  lemma PhoneSplitAsWrittenCutsAtN(a: string, b: string)
    requires a != "" && b != ""
    requires forall c :: c in a + b ==> !PhoneSepAsWritten(c) && !PhoneSep(c)
    ensures Fields(a + "n" + b, PhoneSepAsWritten) == [a, b]
    ensures Fields(a + "n" + b, PhoneSep) == [a + "n" + b]
  {
    assert forall c :: c in a ==> c in a + b;
    assert forall c :: c in b ==> c in a + b;
    assert Join([a, b], 'n') == a + "n" + b;
    FieldsJoin([a, b], 'n', PhoneSepAsWritten);
    var v := a + "n" + b;
    assert forall c :: c in v ==> c in a + b || c == 'n';
    FieldsJoin([v], ';', PhoneSep);
  }

  /** An instance: "0901 (hotline)" after the phone prefix is recorded as
      "0901 (hotli" and "e)". */
  lemma HotlineSplitAsWritten()
    ensures Fields("0901 (hotline)", PhoneSepAsWritten) == ["0901 (hotli", "e)"]
    ensures Fields("0901 (hotline)", PhoneSep) == ["0901 (hotline)"]
  {
    var a, b := "0901 (hotli", "e)";
    assert a + "n" + b == "0901 (hotline)";
    PhoneSplitAsWrittenCutsAtN(a, b);
  }

  /** With the intended class a value holding no `;` `,` `/` `|` or
      newline stays one piece. */
  lemma PhoneSplitKeepsSeparatorFreeValue(v: string)
    requires v != "" && forall c :: c in v ==> !PhoneSep(c)
    ensures Fields(v, PhoneSep) == [v]
  {
    FieldsJoin([v], ';', PhoneSep);
  }

  /** Values separated by `;` (or any intended separator) are split back
      into exactly those values. */
  lemma PhoneSplitSeparates(values: seq<string>)
    requires forall i :: 0 <= i < |values| ==> values[i] != "" && forall c :: c in values[i] ==> !PhoneSep(c)
    ensures Fields(Join(values, ';'), PhoneSep) == values
  {
    FieldsJoin(values, ';', PhoneSep);
  }

  // ---------------------------------------------------------------------
  // The page

  /** One `get_attribute('aria-label')` call: the attribute's value (`None`
      when the element has none), or a raise. */
  datatype AriaRead = Read(value: Option<string>) | ReadRaised

  /** The browser, for one place page: for a text `s`, the elements that
      `find_elements` returns for the XPath test `contains(@aria-label, '<s>')`, in
      document order, each as the outcome of reading its `aria-label`; or
      a raise of the lookup itself. */
  type Page = string -> Outcome<seq<AriaRead>>

  /** The lookup for `s`. The text is pasted between `'` quotes, so a `'`
      in it ends the XPath string literal early; for the one such key used
      here the expression is malformed and `find_elements` raises. */
  function Lookup(page: Page, s: string): (r: Outcome<seq<AriaRead>>)
    ensures '\'' in s ==> r == Raised
    ensures '\'' !in s ==> r == page(s)
  {
    if '\'' in s then Raised else page(s)
  }

  /** What `extract_aria_values` sees: one label per element (`None` for
      an element whose read raised, which contributes nothing), and no
      element at all when the lookup raised. */
  function AriaLabels(page: Page, prefix: string): (labels: seq<Option<string>>)
    ensures Lookup(page, prefix).Raised? ==> labels == []
    ensures Lookup(page, prefix).Ok? ==>
      && |labels| == |Lookup(page, prefix).value|
      && forall i :: 0 <= i < |labels| ==>
        labels[i] == if Lookup(page, prefix).value[i].Read? then Lookup(page, prefix).value[i].value else None
  {
    match Lookup(page, prefix)
    case Raised => []
    case Ok(got) =>
      seq(|got|, i requires 0 <= i < |got| => if got[i].Read? then got[i].value else None)
  }

  /** The labels read before the first read that raises. */
  function ReadsUntilRaise(got: seq<AriaRead>): (labels: seq<Option<string>>)
    ensures |labels| <= |got|
    ensures forall i :: 0 <= i < |labels| ==> got[i] == Read(labels[i])
    ensures |labels| < |got| ==> got[|labels|] == ReadRaised
  {
    if |got| == 0 || got[0] == ReadRaised then []
    else [got[0].value] + ReadsUntilRaise(got[1..])
  }

  /** What the loop of `safe_get_text_from_ggmap` over one key's elements
      can see: a raise, of the lookup or of a read, ends that key's scan
      and the next key is tried. */
  function KeyLabels(page: Page, key: string): (labels: seq<Option<string>>)
    ensures Lookup(page, key).Raised? ==> labels == []
    ensures Lookup(page, key).Ok? ==> labels == ReadsUntilRaise(Lookup(page, key).value)
  {
    match Lookup(page, key)
    case Raised => []
    case Ok(got) => ReadsUntilRaise(got)
  }

  function KeyScan(page: Page): string -> seq<Option<string>> {
    (key: string) => KeyLabels(page, key)
  }

  // ---------------------------------------------------------------------
  // safe_get_text_from_ggmap

  /** Index of the first key under which some label is not blank, or
      `|keys|` when there is none. */
  function FirstKeyIndex(scan: string -> seq<Option<string>>, keys: seq<string>): (k: nat)
    ensures k <= |keys|
    ensures forall j :: 0 <= j < k ==> AllBlank(scan(keys[j]))
    ensures k < |keys| ==> !AllBlank(scan(keys[k]))
  {
    if |keys| == 0 || !AllBlank(scan(keys[0])) then 0
    else
      var k := FirstKeyIndex(scan, keys[1..]);
      assert forall j :: 1 <= j <= k ==> keys[1..][j - 1] == keys[j];
      1 + k
  }

  /** The first non-blank label of the first key that has one. */
  function FirstLabel(scan: string -> seq<Option<string>>, keys: seq<string>): (r: Option<string>)
    ensures r.None? <==> forall k :: 0 <= k < |keys| ==> AllBlank(scan(keys[k]))
    ensures r.Some? ==> r.value != "" && Trimmed(r.value)
  {
    var k := FirstKeyIndex(scan, keys);
    if k < |keys| then FirstNonBlank(scan(keys[k])) else None
  }

  /** The first productive key is found where the keys before it found
      nothing. */
  lemma FirstKeyIndexAt(scan: string -> seq<Option<string>>, keys: seq<string>, k: nat)
    requires k < |keys| && !AllBlank(scan(keys[k]))
    requires forall j :: 0 <= j < k ==> AllBlank(scan(keys[j]))
    ensures FirstKeyIndex(scan, keys) == k
  {
    var k' := FirstKeyIndex(scan, keys);
    assert !(k' < k) && !(k < k');
  }

  /** `FirstLabel` is the stripped label at the first non-blank position of
      the first productive key: the lookups stop there. */
  lemma FirstLabelStopsEarly(scan: string -> seq<Option<string>>, keys: seq<string>, k: nat, i: nat)
    requires k < |keys| && i < |scan(keys[k])| && !Blank(scan(keys[k])[i])
    requires forall j :: 0 <= j < k ==> AllBlank(scan(keys[j]))
    requires forall l :: 0 <= l < i ==> Blank(scan(keys[k])[l])
    ensures FirstLabel(scan, keys) == Some(Strip(scan(keys[k])[i].GetOr("")))
  {
    FirstNonBlankAt(scan(keys[k]), i);
    FirstKeyIndexAt(scan, keys, k);
  }

  /** A last key that finds nothing changes nothing. */
  lemma FirstLabelSilentLast(scan: string -> seq<Option<string>>, keys: seq<string>)
    requires |keys| > 0 && scan(keys[|keys| - 1]) == []
    ensures FirstLabel(scan, keys) == FirstLabel(scan, keys[..|keys| - 1])
  {
    var init := keys[..|keys| - 1];
    var k := FirstKeyIndex(scan, init);
    assert forall j :: 0 <= j < |init| ==> init[j] == keys[j];
    if k < |init| {
      FirstKeyIndexAt(scan, keys, k);
    } else {
      assert forall j :: 0 <= j < |keys| ==> AllBlank(scan(keys[j])) by {
        forall j | 0 <= j < |keys| ensures AllBlank(scan(keys[j])) {
          if j < |init| {
            assert AllBlank(scan(init[j]));
          }
        }
      }
    }
  }

  /** `safe_get_text_from_ggmap`: the first non-blank label found under
      the keys in turn, cut after its first `:` and stripped when it has
      one; `default` when every label is blank. */
  function SafeGetTextFromGgmap(page: Page, keys: seq<string>, default: string): (r: string)
    ensures FirstLabel(KeyScan(page), keys).None? ==> r == default
    ensures FirstLabel(KeyScan(page), keys).Some? ==> Trimmed(r)
    ensures FirstLabel(KeyScan(page), keys).Some? && !Contains(FirstLabel(KeyScan(page), keys).value, ":") ==>
      r == FirstLabel(KeyScan(page), keys).value && r != ""
    ensures FirstLabel(KeyScan(page), keys).Some? && Contains(FirstLabel(KeyScan(page), keys).value, ":") ==>
      r == Strip(AfterFirst(FirstLabel(KeyScan(page), keys).value, ":"))
  {
    match FirstLabel(KeyScan(page), keys)
    case None => default
    case Some(txt) => if Contains(txt, ":") then Strip(AfterFirst(txt, ":")) else txt
  }

  /** A read that raises ends its key's scan, even when a later element of
      that key holds a label: here the name comes from the second key. */
  lemma RaisedReadEndsKey(page: Page)
    requires page("k0") == Ok([ReadRaised, Read(Some("Shop: A"))])
    requires page("k1") == Ok([Read(Some("B"))])
    ensures SafeGetTextFromGgmap(page, ["k0", "k1"], "") == "B"
  {
    var keys := ["k0", "k1"];
    var scan := KeyScan(page);
    assert scan(keys[0]) == [];
    assert scan(keys[1]) == [Some("B")];
    assert "B"[0] == 'B' && !IsSpace('B');
    assert !Blank(Some("B"));
    FirstLabelStopsEarly(scan, keys, 1, 0);
    StripTrimmed("B");
    assert !Contains("B", ":");
  }

  /** The lookups used for a shop name missing from the row. */
  const NameKeys: seq<string> := ["T\U{EA}n c\U{1EED}a h\U{E0}ng", "h1", "[aria-label*='T\U{EA}n']"]

  /** The third name key holds `'`, so its lookup always raises and the
      name comes from the first two keys alone. */
  lemma NameKeysThirdSilent(page: Page, default: string)
    ensures SafeGetTextFromGgmap(page, NameKeys, default) == SafeGetTextFromGgmap(page, NameKeys[..2], default)
  {
    assert NameKeys[2][13] == '\'';
    assert KeyScan(page)(NameKeys[2]) == [];
    FirstLabelSilentLast(KeyScan(page), NameKeys);
    assert NameKeys[..|NameKeys| - 1] == NameKeys[..2];
  }

  // ---------------------------------------------------------------------
  // load_shops_mapping

  /** `(row.get('shop_name') or '').strip()`. */
  function RowShopName(row: CsvRow): (name: string)
    ensures Trimmed(name)
    ensures !FindShopOnGgmap.Filled(row, "shop_name") ==> name == ""
  {
    if FindShopOnGgmap.Filled(row, "shop_name") then Strip(row["shop_name"]) else ""
  }

  predicate HasShopName(row: CsvRow) {
    RowShopName(row) != ""
  }

  /** The non-empty names of a file's rows: one per such row, in row
      order, repeats included. */
  function NamesOfRows(rows: seq<CsvRow>): (names: seq<string>)
    ensures forall n :: n in names <==> exists r :: r in rows && n == RowShopName(r) && n != ""
    ensures exists idx :: Seqs.Selects(rows, HasShopName, RowShopName, names, idx)
  {
    Seqs.FilterMapOrdered(rows, HasShopName, RowShopName);
    Seqs.FilterMap(rows, HasShopName, RowShopName)
  }

  /** The names one directory entry contributes: those of its rows when
      it is a `.csv` file, none otherwise. */
  function EntryNames(e: Listing.DirEntry, read: string -> seq<CsvRow>): seq<string> {
    if Listing.Selected(e, ".csv") then NamesOfRows(read(e.path)) else []
  }

  function EntryNamesOf(read: string -> seq<CsvRow>): Listing.DirEntry -> seq<string> {
    (e: Listing.DirEntry) => EntryNames(e, read)
  }

  /** The names `load_shops_mapping` sees, file by file in listing order
      (`iterdir` is not sorted), skipping entries that are not `.csv` files. */
  function MappingNames(entries: seq<Listing.DirEntry>, read: string -> seq<CsvRow>): (names: seq<string>)
    ensures forall n :: n in names ==> n != "" && Trimmed(n)
    ensures forall n :: n in names <==> exists e :: e in entries && Listing.Selected(e, ".csv") && n in NamesOfRows(read(e.path))
  {
    Seqs.FlatMapMembers(entries, EntryNamesOf(read));
    Seqs.FlatMap(entries, EntryNamesOf(read))
  }

  /** The names of consecutive runs of entries follow each other, and one
      entry contributes exactly its own names. */
  lemma MappingNamesAppend(a: seq<Listing.DirEntry>, b: seq<Listing.DirEntry>, read: string -> seq<CsvRow>)
    ensures MappingNames(a + b, read) == MappingNames(a, read) + MappingNames(b, read)
    ensures |a| == 1 ==> MappingNames(a, read) == EntryNames(a[0], read)
  {
    Seqs.FlatMapAppend(a, b, EntryNamesOf(read));
  }

  /** `for name in names: mapping[name.lower()] = name`. */
  function BuildMapping(names: seq<string>): (m: map<string, string>)
    ensures forall k :: k in m ==> Lower(m[k]) == k && m[k] in names
    ensures forall i :: 0 <= i < |names| ==> Lower(names[i]) in m
    decreases |names|
  {
    if |names| == 0 then map[]
    else
      var last := names[|names| - 1];
      var m := BuildMapping(names[..|names| - 1]);
      assert forall n :: n in names[..|names| - 1] ==> n in names;
      m[Lower(last) := last]
  }

  /** Later names win: a key maps to the last name that lowers to it. */
  lemma {:induction false} BuildMappingLastWins(names: seq<string>, i: nat)
    requires i < |names|
    requires forall j :: i < j < |names| ==> Lower(names[j]) != Lower(names[i])
    ensures BuildMapping(names)[Lower(names[i])] == names[i]
    decreases |names|
  {
    if i < |names| - 1 {
      var init := names[..|names| - 1];
      assert forall j :: i < j < |init| ==> init[j] == names[j];
      BuildMappingLastWins(init, i);
    }
  }

  /** No later name lowers to the same key as `names[i]`. */
  predicate LastOfKey(names: seq<string>, i: int) {
    0 <= i < |names| && forall j :: i < j < |names| ==> Lower(names[j]) != Lower(names[i])
  }

  /** Every key maps to the last name that lowers to it. */
  predicate LastWins(names: seq<string>, m: map<string, string>) {
    forall i :: 0 <= i < |names| && LastOfKey(names, i) ==> Lower(names[i]) in m && m[Lower(names[i])] == names[i]
  }

  /** `load_shops_mapping`: empty without a `shops` directory; otherwise
      the keys are the lower-cased names, file by file in listing order,
      and each key maps to the last name read that lowers to it. */
  function LoadShopsMapping(fs: string -> Option<seq<Listing.DirEntry>>, read: string -> seq<CsvRow>): (m: map<string, string>)
    ensures fs("shops").None? ==> m == map[]
    ensures forall k :: k in m ==> Lower(m[k]) == k && m[k] != "" && Trimmed(m[k])
    ensures fs("shops").Some? ==> forall k :: k in m <==> exists n :: n in MappingNames(fs("shops").value, read) && Lower(n) == k
    ensures fs("shops").Some? ==> LastWins(MappingNames(fs("shops").value, read), m)
  {
    match fs("shops")
    case None => map[]
    case Some(entries) =>
      var names := MappingNames(entries, read);
      var m := BuildMapping(names);
      assert forall n :: n in names ==> Lower(n) in m by {
        forall n | n in names ensures Lower(n) in m {
          var i :| 0 <= i < |names| && names[i] == n;
        }
      }
      assert LastWins(names, m) by {
        forall i | 0 <= i < |names| && LastOfKey(names, i) ensures Lower(names[i]) in m && m[Lower(names[i])] == names[i] {
          BuildMappingLastWins(names, i);
        }
      }
      m
  }

  // ---------------------------------------------------------------------
  // One visit

  /** The name before the shops mapping: the row's stripped `shop_name`,
      else the name read off the page (`''` when none is found). */
  function NameBeforeMapping(row: CsvRow, page: Page): string {
    var n := RowShopName(row);
    if n != "" then n else SafeGetTextFromGgmap(page, NameKeys, "")
  }

  /** The shop name a visit is filed under: the name before the mapping,
      replaced by the mapping's entry for its lower-cased form when that
      entry exists and is not empty; an empty name stays empty. */
  function ResolveShopName(row: CsvRow, page: Page, mapping: map<string, string>): (name: string)
    ensures var n2 := NameBeforeMapping(row, page);
      && (n2 == "" ==> name == "")
      && (n2 != "" && Lower(n2) !in mapping ==> name == n2)
      && (n2 != "" && Lower(n2) in mapping && mapping[Lower(n2)] != "" ==> name == mapping[Lower(n2)])
      && (n2 != "" && Lower(n2) in mapping && mapping[Lower(n2)] == "" ==> name == n2)
    ensures RowShopName(row) != "" ==> Lower(name) == Lower(RowShopName(row)) || (Lower(RowShopName(row)) in mapping && name == mapping[Lower(RowShopName(row))])
    ensures RowShopName(row) != "" && Lower(RowShopName(row)) !in mapping ==> name == RowShopName(row)
  {
    var n2 := NameBeforeMapping(row, page);
    if n2 != "" && Lower(n2) in mapping && mapping[Lower(n2)] != "" then mapping[Lower(n2)] else n2
  }

  /** With the mapping `load_shops_mapping` builds, resolving never changes
      a name beyond letter case. */
  lemma ResolveKeepsName(row: CsvRow, page: Page, fs: string -> Option<seq<Listing.DirEntry>>, read: string -> seq<CsvRow>)
    ensures Lower(ResolveShopName(row, page, LoadShopsMapping(fs, read))) == Lower(NameBeforeMapping(row, page))
  {
  }

  /** What one visit of a place page records. */
  datatype Visit = Visit(category: string, shopName: string, phones: seq<string>, addresses: seq<string>)

  /** The visit of `page` for `row`. */
  function VisitOf(row: CsvRow, csvPath: string, page: Page, mapping: map<string, string>): Visit
  {
    Visit(RowCategory(row, csvPath), ResolveShopName(row, page, mapping),
          ExtractAriaValues(AriaLabels(page, PhonePrefix), PhonePrefix),
          ExtractAriaValues(AriaLabels(page, AddressPrefix), AddressPrefix))
  }

  /** A visit records the row's category, the resolved shop name, and the
      distinct normalized phone numbers and addresses read off the page:
      exactly the values its phone (address) labels hold, each at its
      first occurrence among them, in that order. */
  lemma VisitOfMeaning(row: CsvRow, csvPath: string, page: Page, mapping: map<string, string>)
    ensures
      var v := VisitOf(row, csvPath, page, mapping);
      && v.category == RowCategory(row, csvPath)
      && v.shopName == ResolveShopName(row, page, mapping)
      && Seqs.NoDup(v.phones) && (forall p :: p in v.phones ==> p != "" && Normalized(p))
      && Seqs.NoDup(v.addresses) && (forall a :: a in v.addresses ==> a != "" && Normalized(a))
    ensures
      var v := VisitOf(row, csvPath, page, mapping);
      var phones := AllValues(AriaLabels(page, PhonePrefix), PhonePrefix, PhoneSep);
      && (forall p :: p in v.phones <==> p in phones)
      && exists idx :: Seqs.FirstOccurrences(phones, Seqs.Id, v.phones, idx)
    ensures
      var v := VisitOf(row, csvPath, page, mapping);
      var addresses := AllValues(AriaLabels(page, AddressPrefix), AddressPrefix, PhoneSep);
      && (forall a :: a in v.addresses <==> a in addresses)
      && exists idx :: Seqs.FirstOccurrences(addresses, Seqs.Id, v.addresses, idx)
  {
    AllValuesMembers(AriaLabels(page, PhonePrefix), PhonePrefix, PhoneSep);
    AllValuesMembers(AriaLabels(page, AddressPrefix), AddressPrefix, PhoneSep);
  }
}
