/** product_url_extractor.py: which hrefs are product links, how they are
    canonicalised, how the `-i.<shop>.<product>` ids are read out of them,
    and how links are collected from the first productive CSS selector.
    The page is an input: `find(selector)` is the list of `href` attributes
    (`None` when absent or unreadable) of the elements the selector matches,
    an empty list when the lookup itself fails. */
module ProductUrlExtractor {
  import opened Wrappers
  import opened Strs
  import Seqs
  import opened Regex

  // ---------------------------------------------------------------------
  // The regular expressions, in regex (backtracking) semantics.

  /** `-i\.\d+\.\d+` matches `s[p..e]`, its second dot at index `m`. */
  ghost predicate IdSpan(s: string, p: int, m: int, e: int) {
    && 0 <= p && p + 3 < m && m + 1 < e <= |s|
    && s[p..p + 3] == "-i."
    && AllDigits(s[p + 3..m])
    && s[m] == '.'
    && AllDigits(s[m + 1..e])
  }

  /** `re.search(lit + '.*-i\.\d+\.\d+', s)` for a literal prefix `lit`. */
  ghost predicate PrefixedIdSearch(s: string, lit: string) {
    exists a, p, m, e ::
      OccursAt(s, lit, a) && a + |lit| <= p && NoNewline(s, a + |lit|, p) && IdSpan(s, p, m, e)
  }

  /** `re.search(r'/.*-i\.\d+\.\d+$', s)`. */
  ghost predicate AnchoredIdSearch(s: string) {
    exists a, p, m, e ::
      0 <= a < |s| && s[a] == '/' && a + 1 <= p && NoNewline(s, a + 1, p) && IdSpan(s, p, m, e) && EndAnchor(s, e)
  }

  // ---------------------------------------------------------------------
  // A left-to-right scanner with maximal digit runs.

  /** Length of the run of digits starting at `i`. */
  function DigitRun(s: string, i: nat): (k: nat)
    requires i <= |s|
    ensures i + k <= |s|
    ensures AllDigits(s[i..i + k])
    ensures i + k == |s| || !IsDigit(s[i + k])
    decreases |s| - i
  {
    if i < |s| && IsDigit(s[i]) then
      var k := DigitRun(s, i + 1);
      assert s[i..i + 1 + k] == [s[i]] + s[i + 1..i + 1 + k];
      1 + k
    else 0
  }

  /** A digit run cannot reach past the maximal run. */
  lemma DigitRunMaximal(s: string, i: nat, j: nat)
    requires i <= j <= |s| && AllDigits(s[i..j])
    ensures j <= i + DigitRun(s, i)
  {
  }

  /** `-i.<digits>.<digits>` starts at `p`. */
  predicate IdAt(s: string, p: nat) {
    && p + 3 <= |s|
    && s[p..p + 3] == "-i."
    && var r1 := DigitRun(s, p + 3);
    && r1 >= 1
    && p + 3 + r1 < |s|
    && s[p + 3 + r1] == '.'
    && DigitRun(s, p + 4 + r1) >= 1
  }

  /** Index of the second dot of the id starting at `p`. */
  function IdDot(s: string, p: nat): (m: nat)
    requires IdAt(s, p)
    ensures m < |s|
  {
    p + 3 + DigitRun(s, p + 3)
  }

  /** End of the longest id match starting at `p` (greedy second `\d+`). */
  function IdEnd(s: string, p: nat): (e: nat)
    requires IdAt(s, p)
    ensures e <= |s|
  {
    var m := IdDot(s, p);
    m + 1 + DigitRun(s, m + 1)
  }

  /** Where the scanner finds an id, the regex matches with the shortest
      and with the longest second group. */
  lemma IdAtSpan(s: string, p: nat)
    requires IdAt(s, p)
    ensures IdSpan(s, p, IdDot(s, p), IdDot(s, p) + 2)
    ensures IdSpan(s, p, IdDot(s, p), IdEnd(s, p))
  {
    var m := IdDot(s, p);
    var r2 := DigitRun(s, m + 1);
    assert s[m + 1..m + 2] == s[m + 1..m + 1 + r2][..1];
  }

  /** Every regex match starts where the scanner finds an id, has the
      scanner's dot, and ends no later than the greedy end. */
  lemma SpanIdAt(s: string, p: nat, m: int, e: int)
    requires IdSpan(s, p, m, e)
    ensures IdAt(s, p) && m == IdDot(s, p) && e <= IdEnd(s, p)
  {
    RunEndsAt(s, p + 3, m);
    assert IsDigit(s[m + 1]) by {
      assert s[m + 1] == s[m + 1..e][0];
    }
    DigitRunMaximal(s, m + 1, e);
  }

  /** A non-empty digit run followed by a non-digit is the maximal run. */
  lemma RunEndsAt(s: string, i: nat, m: nat)
    requires i < m < |s| && AllDigits(s[i..m]) && !IsDigit(s[m])
    ensures DigitRun(s, i) == m - i
  {
    var r := DigitRun(s, i);
    DigitRunMaximal(s, i, m);
    forall j | i <= j < i + r ensures IsDigit(s[j]) {
      assert s[j] == s[i..i + r][j - i];
    }
  }

  /** The first index `>= from` where an id starts, if any. */
  function FirstIdFrom(s: string, from: nat): (r: Option<nat>)
    requires from <= |s|
    ensures r.Some? ==> from <= r.value < |s| && IdAt(s, r.value)
    ensures forall p :: from <= p < (if r.Some? then r.value else |s|) ==> !IdAt(s, p)
    decreases |s| - from
  {
    if from == |s| then None
    else if IdAt(s, from) then Some(from)
    else FirstIdFrom(s, from + 1)
  }

  /** `re.search(lit + '.*-i\.\d+\.\d+', s)` computed by scanning. */
  predicate PrefixedIdScan(s: string, lit: string) {
    exists a | 0 <= a <= |s| - |lit| ::
      OccursAt(s, lit, a) && exists p | a + |lit| <= p < |s| :: NoNewline(s, a + |lit|, p) && IdAt(s, p)
  }

  /** `re.search(r'/.*-i\.\d+\.\d+$', s)` computed by scanning. */
  predicate AnchoredIdScan(s: string) {
    exists a | 0 <= a < |s| ::
      s[a] == '/' && exists p | a + 1 <= p < |s| :: NoNewline(s, a + 1, p) && IdAt(s, p) && EndAnchor(s, IdEnd(s, p))
  }

  lemma PrefixedScanCorrect(s: string, lit: string)
    ensures PrefixedIdScan(s, lit) <==> PrefixedIdSearch(s, lit)
  {
    if PrefixedIdScan(s, lit) {
      var a :| 0 <= a <= |s| - |lit| && OccursAt(s, lit, a) && exists p | a + |lit| <= p < |s| :: NoNewline(s, a + |lit|, p) && IdAt(s, p);
      var p :| a + |lit| <= p < |s| && NoNewline(s, a + |lit|, p) && IdAt(s, p);
      IdAtSpan(s, p);
      assert IdSpan(s, p, IdDot(s, p), IdDot(s, p) + 2);
    }
    if PrefixedIdSearch(s, lit) {
      var a, p, m, e :| OccursAt(s, lit, a) && a + |lit| <= p && NoNewline(s, a + |lit|, p) && IdSpan(s, p, m, e);
      SpanIdAt(s, p, m, e);
    }
  }

  lemma AnchoredScanSound(s: string)
    requires AnchoredIdScan(s)
    ensures AnchoredIdSearch(s)
  {
    var a :| 0 <= a < |s| && s[a] == '/' && exists p | a + 1 <= p < |s| :: NoNewline(s, a + 1, p) && IdAt(s, p) && EndAnchor(s, IdEnd(s, p));
    var p :| a + 1 <= p < |s| && NoNewline(s, a + 1, p) && IdAt(s, p) && EndAnchor(s, IdEnd(s, p));
    IdAtSpan(s, p);
    assert IdSpan(s, p, IdDot(s, p), IdEnd(s, p));
  }

  /** An anchored match must end at the greedy end. */
  lemma AnchoredSpanEnd(s: string, p: nat, m: int, e: int)
    requires IdSpan(s, p, m, e) && EndAnchor(s, e)
    ensures IdAt(s, p) && e == IdEnd(s, p)
  {
    SpanIdAt(s, p, m, e);
  }

  lemma AnchoredScanComplete(s: string)
    requires AnchoredIdSearch(s)
    ensures AnchoredIdScan(s)
  {
    var a, p, m, e :| 0 <= a < |s| && s[a] == '/' && a + 1 <= p && NoNewline(s, a + 1, p) && IdSpan(s, p, m, e) && EndAnchor(s, e);
    AnchoredSpanEnd(s, p, m, e);
  }

  lemma AnchoredScanCorrect(s: string)
    ensures AnchoredIdScan(s) <==> AnchoredIdSearch(s)
  {
    if AnchoredIdScan(s) { AnchoredScanSound(s); }
    if AnchoredIdSearch(s) { AnchoredScanComplete(s); }
  }

  // ---------------------------------------------------------------------
  // The extractor's operations.

  /** `_is_valid_product_url`: false for `None` and for the empty string,
      otherwise whether one of the three patterns is found. */
  predicate IsValidProductUrl(url: Option<string>) {
    match url
    case None => false
    case Some(s) =>
      |s| > 0 && (PrefixedIdScan(s, "/product/") || PrefixedIdScan(s, "shopee.vn/") || AnchoredIdScan(s))
  }

  /** The scanner decides exactly the three `re.search` patterns. */
  lemma IsValidProductUrlMeaning(url: Option<string>)
    ensures IsValidProductUrl(url) <==>
      url.Some? && |url.value| > 0 &&
      (PrefixedIdSearch(url.value, "/product/") || PrefixedIdSearch(url.value, "shopee.vn/") || AnchoredIdSearch(url.value))
  {
    if url.Some? {
      PrefixedScanCorrect(url.value, "/product/");
      PrefixedScanCorrect(url.value, "shopee.vn/");
      AnchoredScanCorrect(url.value);
    }
  }

  /** Index of the first `?` or `#`, or the length when there is none. */
  function QueryStart(url: string): (k: nat)
    ensures k <= |url|
    ensures forall j :: 0 <= j < k ==> url[j] != '?' && url[j] != '#'
    ensures k < |url| ==> url[k] == '?' || url[k] == '#'
  {
    if |url| == 0 || url[0] == '?' || url[0] == '#' then 0
    else 1 + QueryStart(url[1..])
  }

  /** `url.split('?')[0]` when `?` occurs, then the same for `#`. */
  function CutQuery(url: string): string {
    var u := if '?' in url then Split(url, '?')[0] else url;
    if '#' in u then Split(u, '#')[0] else u
  }

  /** Cutting at `?` and then at `#` keeps exactly the part before the
      first of either. */
  lemma CutQueryStart(url: string)
    ensures CutQuery(url) == url[..QueryStart(url)]
  {
    var k1 := IndexOf(url, '?');
    SplitHead(url, '?');
    var u := url[..k1];
    assert (if '?' in url then Split(url, '?')[0] else url) == u;
    var k2 := IndexOf(u, '#');
    SplitHead(u, '#');
    assert CutQuery(url) == u[..k2];
    assert u[..k2] == url[..k2];
    forall j | 0 <= j < k2 ensures url[j] != '?' && url[j] != '#' {
      assert url[j] == url[..k1][j] == u[..k2][j];
    }
    QueryStartIs(url, k2);
  }

  /** Without `?` and `#` nothing is cut. */
  lemma QueryStartClean(url: string)
    requires '?' !in url && '#' !in url
    ensures QueryStart(url) == |url|
  {
    forall j | 0 <= j < |url| ensures url[j] != '?' && url[j] != '#' {
      assert url[j] in url;
    }
    QueryStartIs(url, |url|);
  }

  /** The first position holding `?` or `#` (or the length) is `QueryStart`. */
  lemma QueryStartIs(url: string, k: nat)
    requires k <= |url|
    requires forall j :: 0 <= j < k ==> url[j] != '?' && url[j] != '#'
    requires k < |url| ==> url[k] == '?' || url[k] == '#'
    ensures QueryStart(url) == k
  {
  }

  /** `_clean_url`: cut at the first `?`, then at the first `#`, then strip.
      The result is the stripped part before the first `?` or `#`. */
  function CleanUrl(url: string): (r: string)
    ensures r == Strip(url[..QueryStart(url)])
    ensures '?' !in r && '#' !in r
  {
    CutQueryStart(url);
    StripChars(CutQuery(url));
    Strip(CutQuery(url))
  }

  /** Cleaning a clean url changes nothing. */
  lemma CleanUrlIdempotent(url: string)
    ensures CleanUrl(CleanUrl(url)) == CleanUrl(url)
  {
    CleanUrlFixes(CleanUrl(url));
  }

  /** A trimmed url without `?` and `#` is already clean. */
  lemma CleanUrlFixes(r: string)
    requires Trimmed(r) && '?' !in r && '#' !in r
    ensures CleanUrl(r) == r
  {
    QueryStartClean(r);
    assert r[..QueryStart(r)] == r;
    StripTrimmed(r);
  }

  /** A query or fragment after a trimmed base is cut off entirely. */
  lemma CleanUrlDropsTail(base: string, c: char, tail: string)
    requires c == '?' || c == '#'
    requires '?' !in base && '#' !in base && Trimmed(base)
    ensures CleanUrl(base + [c] + tail) == base
  {
    var url := base + [c] + tail;
    assert url[|base|] == c;
    assert QueryStart(url) == |base|;
    assert url[..|base|] == base;
    StripTrimmed(base);
  }

  /** `extract_product_info`'s dict. */
  datatype ProductInfo = ProductInfo(shopId: string, productId: string, url: string)

  /** Without a scanner hit there is no regex match anywhere. */
  lemma NoIdNoSpan(url: string)
    requires FirstIdFrom(url, 0).None?
    ensures forall p, m, e :: !IdSpan(url, p, m, e)
  {
    forall p, m, e | IdSpan(url, p, m, e) ensures false {
      SpanIdAt(url, p, m, e);
    }
  }

  /** `url[p..e]` is the match `re.search` reports: the leftmost one, with
      the second digit group as long as it goes. */
  ghost predicate LeftmostMatch(url: string, p: int, m: int, e: int) {
    && IdSpan(url, p, m, e)
    && (e == |url| || !IsDigit(url[e]))
    && forall p', m', e' :: IdSpan(url, p', m', e') ==> p <= p'
  }

  /** The scanner's first hit is the leftmost regex match. */
  lemma FirstIdLeftmost(url: string, p: nat)
    requires FirstIdFrom(url, 0) == Some(p)
    ensures LeftmostMatch(url, p, IdDot(url, p), IdEnd(url, p))
  {
    IdAtSpan(url, p);
    forall p', m', e' | IdSpan(url, p', m', e') ensures p <= p' {
      SpanIdAt(url, p', m', e');
    }
  }

  /** `extract_product_info`: the two digit groups of the leftmost
      `-i\.(\d+)\.(\d+)` match (the second one greedy), with the url itself;
      `None` when nothing matches. */
  function ExtractProductInfo(url: string): (r: Option<ProductInfo>)
    ensures r.None? <==> forall p, m, e :: !IdSpan(url, p, m, e)
    ensures r.Some? ==> r.value.url == url && exists p, m, e ::
      && LeftmostMatch(url, p, m, e)
      && r.value.shopId == url[p + 3..m]
      && r.value.productId == url[m + 1..e]
  {
    match FirstIdFrom(url, 0)
    case None =>
      NoIdNoSpan(url);
      None
    case Some(p) =>
      FirstIdLeftmost(url, p);
      var m := IdDot(url, p);
      var e := IdEnd(url, p);
      assert LeftmostMatch(url, p, m, e);
      Some(ProductInfo(url[p + 3..m], url[m + 1..e], url))
  }

  /** The ten CSS selectors, in the order they are tried. */
  const LinkSelectors: seq<string> := [
    "a[href*='/product/']",
    "a[href*='-i.']",
    "[data-sqe*='name'] a",
    "[data-testid*='product'] a",
    "div[class*='grid'] a[href]",
    "div[class*='item'] a[href]",
    "[class*='shopee'] a[href*='-i.']",
    "[class*='product'] a[href]",
    "a[href][class*='flex']",
    "a[href][role='link']"
  ]

  /** `href` passes the validity test and cleans to `x`. */
  predicate CleansTo(href: Option<string>, x: string) {
    IsValidProductUrl(href) && x == CleanUrl(href.value)
  }

  function CleanHref(h: Option<string>): string {
    if h.Some? then CleanUrl(h.value) else ""
  }

  /** The cleaned form of every valid href, in document order. */
  function CleanedValid(hrefs: seq<Option<string>>): (r: seq<string>)
    ensures forall x :: x in r <==> exists h :: h in hrefs && CleansTo(h, x)
    ensures exists idx :: Seqs.Selects(hrefs, IsValidProductUrl, CleanHref, r, idx)
  {
    Seqs.FilterMapOrdered(hrefs, IsValidProductUrl, CleanHref);
    Seqs.FilterMap(hrefs, IsValidProductUrl, CleanHref)
  }

  /** One selector's pass, `if clean not in product_links: append`: the
      distinct cleaned valid hrefs, each at its first occurrence. */
  function LinksFrom(hrefs: seq<Option<string>>): (r: seq<string>)
    ensures Seqs.NoDup(r)
    ensures forall x :: x in r <==> exists h :: h in hrefs && CleansTo(h, x)
    ensures forall x :: x in r ==> '?' !in x && '#' !in x
    ensures exists idx :: Seqs.FirstOccurrences(CleanedValid(hrefs), Seqs.Id, r, idx)
  {
    Seqs.Distinct(CleanedValid(hrefs))
  }

  /** The pass of selector `sel` yields at least one link. */
  predicate Yields(find: string -> seq<Option<string>>, sel: string) {
    LinksFrom(find(sel)) != []
  }

  function YieldsOf(find: string -> seq<Option<string>>): string -> bool {
    (sel: string) => Yields(find, sel)
  }

  /** Index of the first selector whose pass yields a link, or |sels|. */
  function FirstProductive(find: string -> seq<Option<string>>, sels: seq<string>): (i: nat)
    ensures i <= |sels|
    ensures i < |sels| ==> Yields(find, sels[i])
    ensures forall j :: 0 <= j < i ==> !Yields(find, sels[j])
  {
    Seqs.FirstIndex(sels, YieldsOf(find))
  }

  /** `get_all_product_links`: the links of the first selector whose pass
      yields any (the list is still empty whenever the loop moves on), or
      `[]` when none does. */
  function GetAllProductLinks(find: string -> seq<Option<string>>): (r: seq<string>)
    ensures Seqs.NoDup(r)
    ensures forall x :: x in r ==> '?' !in x && '#' !in x
    ensures r == [] <==> forall j :: 0 <= j < |LinkSelectors| ==> LinksFrom(find(LinkSelectors[j])) == []
    ensures r != [] ==>
      exists i :: 0 <= i < |LinkSelectors| && r == LinksFrom(find(LinkSelectors[i])) &&
        forall j :: 0 <= j < i ==> LinksFrom(find(LinkSelectors[j])) == []
  {
    FirstProductiveLinks(find, LinkSelectors)
  }

  /** The links of the first selector of `sels` whose pass yields any. */
  function FirstProductiveLinks(find: string -> seq<Option<string>>, sels: seq<string>): (r: seq<string>)
    ensures Seqs.NoDup(r)
    ensures forall x :: x in r ==> '?' !in x && '#' !in x
    ensures r == [] <==> forall j :: 0 <= j < |sels| ==> LinksFrom(find(sels[j])) == []
    ensures r != [] ==>
      exists i :: 0 <= i < |sels| && r == LinksFrom(find(sels[i])) &&
        forall j :: 0 <= j < i ==> LinksFrom(find(sels[j])) == []
  {
    var i := FirstProductive(find, sels);
    if i == |sels| then [] else LinksFrom(find(sels[i]))
  }

  /** Later selectors are never consulted: two pages that agree on every
      selector up to a productive one give the same links. */
  lemma FirstProductiveStopsEarly(find: string -> seq<Option<string>>, find': string -> seq<Option<string>>, sels: seq<string>, i: nat)
    requires i < |sels|
    requires LinksFrom(find(sels[i])) != []
    requires forall j :: 0 <= j <= i ==> find(sels[j]) == find'(sels[j])
    ensures FirstProductiveLinks(find, sels) == FirstProductiveLinks(find', sels)
  {
    var k := FirstProductive(find, sels);
    assert k <= i;
    assert find(sels[k]) == find'(sels[k]);
    var k' := FirstProductive(find', sels);
    assert k' <= k;
    assert find(sels[k']) == find'(sels[k']);
    assert k <= k';
  }

  lemma GetAllProductLinksStopsEarly(find: string -> seq<Option<string>>, find': string -> seq<Option<string>>, i: nat)
    requires i < |LinkSelectors|
    requires LinksFrom(find(LinkSelectors[i])) != []
    requires forall j :: 0 <= j <= i ==> find(LinkSelectors[j]) == find'(LinkSelectors[j])
    ensures GetAllProductLinks(find) == GetAllProductLinks(find')
  {
    FirstProductiveStopsEarly(find, find', LinkSelectors, i);
  }

  /** `scroll_and_load_more`: scrolls until the link count stops changing or
      `max_scrolls` scrolls were made. `count(0)` is the count before the
      first scroll and `count(j)` the count after scroll `j`. Returns the
      number of scrolls made. */
  method ScrollAndLoadMore(maxScrolls: int, count: nat -> nat) returns (scrolls: nat)
    ensures scrolls <= (if maxScrolls < 0 then 0 else maxScrolls)
    ensures forall j :: 1 <= j < scrolls ==> count(j) != count(j - 1)
    ensures scrolls == (if maxScrolls < 0 then 0 else maxScrolls) || (scrolls >= 1 && count(scrolls) == count(scrolls - 1))
    ensures maxScrolls > 0 ==> scrolls >= 1
  {
    var previous := count(0);
    scrolls := 0;
    var i := 0;
    while i < maxScrolls
      invariant 0 <= i <= (if maxScrolls < 0 then 0 else maxScrolls)
      invariant scrolls == i
      invariant previous == count(i)
      invariant forall j :: 1 <= j <= i ==> count(j) != count(j - 1)
    {
      scrolls := i + 1;
      var current := count(i + 1);
      if current == previous {
        return;
      }
      previous := current;
      i := i + 1;
    }
  }

  /** What waiting for one selector does: the element appears, the wait
      times out, or the driver raises some other exception. */
  datatype Wait = Appeared | TimedOut | Failed

  /** The selectors are waited for in turn: a timeout moves on to the next
      one, an appearance answers `True`, and any other exception escapes. */
  function FirstWait(wait: string -> Wait, sels: seq<string>): (r: Outcome<bool>)
    ensures r == Ok(false) <==> forall i :: 0 <= i < |sels| ==> wait(sels[i]) == TimedOut
    ensures r != Ok(false) ==> exists i :: DecidedAt(wait, sels, i) && r == (if wait(sels[i]) == Appeared then Ok(true) else Raised)
  {
    if |sels| == 0 then Ok(false)
    else match wait(sels[0])
      case Appeared =>
        assert DecidedAt(wait, sels, 0);
        Ok(true)
      case Failed =>
        assert DecidedAt(wait, sels, 0);
        Raised
      case TimedOut =>
        var r := FirstWait(wait, sels[1..]);
        assert forall i :: 1 <= i < |sels| ==> sels[i] == sels[1..][i - 1];
        if r == Ok(false) then r
        else
          DecidedShift(wait, sels, r);
          r
  }

  lemma DecidedShift(wait: string -> Wait, sels: seq<string>, r: Outcome<bool>)
    requires |sels| > 0 && wait(sels[0]) == TimedOut
    requires exists i :: DecidedAt(wait, sels[1..], i) && r == (if wait(sels[1..][i]) == Appeared then Ok(true) else Raised)
    ensures exists i :: DecidedAt(wait, sels, i) && r == (if wait(sels[i]) == Appeared then Ok(true) else Raised)
  {
    var i :| DecidedAt(wait, sels[1..], i) && r == (if wait(sels[1..][i]) == Appeared then Ok(true) else Raised);
    assert sels[1..][i] == sels[i + 1];
    assert DecidedAt(wait, sels, i + 1);
  }

  /** Selector `i` is the first whose wait does not time out. */
  predicate DecidedAt(wait: string -> Wait, sels: seq<string>, i: int) {
    && 0 <= i < |sels|
    && wait(sels[i]) != TimedOut
    && forall j :: 0 <= j < i ==> wait(sels[j]) == TimedOut
  }

  /** `wait_for_products_load`: `True` once one of the three selectors
      appears, `False` when all three time out; a failure other than a
      timeout escapes. */
  function WaitForProductsLoad(wait: string -> Wait): (r: Outcome<bool>)
    ensures r == Ok(false) <==> forall i :: 0 <= i < |WaitSelectors| ==> wait(WaitSelectors[i]) == TimedOut
    ensures r == Ok(true) <==> exists i :: DecidedAt(wait, WaitSelectors, i) && wait(WaitSelectors[i]) == Appeared
    ensures r == Raised <==> exists i :: DecidedAt(wait, WaitSelectors, i) && wait(WaitSelectors[i]) == Failed
  {
    FirstWait(wait, WaitSelectors)
  }

  const WaitSelectors: seq<string> := ["a[href*='-i.']", "[data-sqe*='name']", "[class*='product']"]

  /** `url` carries the `-i.<shop>.<product>` ids. */
  predicate HasIds(url: string) {
    ExtractProductInfo(url).Some?
  }

  /** The product read from a link that carries ids. */
  function InfoOf(url: string): ProductInfo {
    ExtractProductInfo(url).GetOr(ProductInfo("", "", url))
  }

  /** `extract_shopee_products(driver, scroll_for_more)`: wait (a failed
      wait is only logged), scroll when asked, then one product for each
      collected link that carries ids, in link order. `scrollRaises` says
      the lookups of `scroll_and_load_more` raised; nothing in this function
      catches that, nor a wait failure other than a timeout. */
  function ExtractShopeeProducts(wait: string -> Wait, scrollForMore: bool, scrollRaises: bool,
                                 find: string -> seq<Option<string>>): (r: Outcome<seq<ProductInfo>>)
    ensures r.Raised? <==> WaitForProductsLoad(wait).Raised? || (scrollForMore && scrollRaises)
    ensures r.Ok? ==> |r.value| <= |GetAllProductLinks(find)|
    ensures r.Ok? ==> forall k :: 0 <= k < |r.value| ==>
      r.value[k].url in GetAllProductLinks(find) && ExtractProductInfo(r.value[k].url) == Some(r.value[k])
    ensures r.Ok? ==> exists idx :: Seqs.Selects(GetAllProductLinks(find), HasIds, InfoOf, r.value, idx)
  {
    if WaitForProductsLoad(wait).Raised? || (scrollForMore && scrollRaises) then Raised
    else Ok(ProductsOf(GetAllProductLinks(find)))
  }

  /** The products of the links that carry ids: one per such link, in link
      order, and none for the others. */
  function ProductsOf(links: seq<string>): (r: seq<ProductInfo>)
    ensures |r| <= |links|
    ensures forall k :: 0 <= k < |r| ==> r[k].url in links && ExtractProductInfo(r[k].url) == Some(r[k])
    ensures forall l :: l in links && ExtractProductInfo(l).Some? ==> ExtractProductInfo(l).value in r
    ensures exists idx :: Seqs.Selects(links, HasIds, InfoOf, r, idx)
  {
    Seqs.FilterMapOrdered(links, HasIds, InfoOf);
    Seqs.FilterMap(links, HasIds, InfoOf)
  }
}
