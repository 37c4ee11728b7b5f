/** get_category_href.py: which anchors of the mall page are kept as
    category links, and the JSON record they are saved in, which
    `category_chunking` reads back.
    The page is an input: whether the carousel appeared before the wait
    ran out, and the outcome of listing the anchors and of reading each
    one's `href`. */
module GetCategoryHref {
  import opened Wrappers
  import opened Strs
  import opened Regex
  import Seqs
  import Json
  import Chunking
  import GetProductInCategory

  // ---------------------------------------------------------------------
  // mall_pattern = r'^https://shopee\.vn/mall/.+\.\d+$' under re.match

  const MallPrefix: string := "https://shopee.vn/mall/"

  /** The pattern in regex semantics: after the prefix, a non-empty run
      without newlines (`.+`), a dot, a non-empty run of digits ending
      where `$` may match. */
  ghost predicate MallMatch(h: string) {
    && StartsWith(h, MallPrefix)
    && exists m, e ::
      |MallPrefix| < m && m + 1 < e <= |h|
      && NoNewline(h, |MallPrefix|, m)
      && h[m] == '.'
      && AllDigits(h[m + 1..e])
      && EndAnchor(h, e)
  }

  /** The string `$` must meet: a final newline is dropped. */
  function Body(h: string): (t: string)
    ensures t == h || (|h| > 0 && h[|h| - 1] == '\n' && t == h[..|h| - 1])
    ensures |h| > 0 && h[|h| - 1] == '\n' ==> t == h[..|h| - 1]
  {
    if |h| > 0 && h[|h| - 1] == '\n' then h[..|h| - 1] else h
  }

  /** The pattern decided by one look at the last dot. */
  predicate IsMallHref(h: string) {
    var t := Body(h);
    var m := RFind(t, '.');
    && StartsWith(h, MallPrefix)
    && |MallPrefix| < m < |t| - 1
    && AllDigits(t[m + 1..])
    && NoNewline(t, |MallPrefix|, m)
  }

  lemma MallScanSound(h: string)
    requires IsMallHref(h)
    ensures MallMatch(h)
  {
    var t := Body(h);
    var m := RFind(t, '.');
    assert h[m + 1..|t|] == t[m + 1..];
    assert NoNewline(h, |MallPrefix|, m);
    assert EndAnchor(h, |t|);
  }

  /** A digit run that `$` can follow ends where the body ends. */
  lemma DigitsReachBodyEnd(h: string, m: int, e: int)
    requires 0 <= m && m + 1 < e <= |h| && AllDigits(h[m + 1..e]) && EndAnchor(h, e)
    ensures e == |Body(h)|
  {
    assert h[m + 1..e][e - 1 - (m + 1)] == h[e - 1];
  }

  /** A dot followed only by digits is the last dot. */
  lemma LastDot(t: string, m: int)
    requires 0 <= m < |t| && t[m] == '.' && AllDigits(t[m + 1..])
    ensures RFind(t, '.') == m
  {
  }

  lemma MallScanComplete(h: string)
    requires MallMatch(h)
    ensures IsMallHref(h)
  {
    var m, e :| |MallPrefix| < m && m + 1 < e <= |h| && NoNewline(h, |MallPrefix|, m)
      && h[m] == '.' && AllDigits(h[m + 1..e]) && EndAnchor(h, e);
    var t := Body(h);
    DigitsReachBodyEnd(h, m, e);
    assert t[m + 1..] == h[m + 1..e];
    assert t[m] == '.';
    LastDot(t, m);
    assert NoNewline(t, |MallPrefix|, m);
  }

  /** The one-pass check decides exactly the regular expression. */
  lemma IsMallHrefMeaning(h: string)
    ensures IsMallHref(h) <==> MallMatch(h)
  {
    if IsMallHref(h) { MallScanSound(h); }
    if MallMatch(h) { MallScanComplete(h); }
  }

  // ---------------------------------------------------------------------
  // extract_category_hrefs

  function KeepMall(h: Option<string>): bool {
    h.Some? && IsMallHref(h.value)
  }

  function HrefValue(h: Option<string>): string {
    h.GetOr("")
  }

  /** The kept hrefs of a list of `href` attributes, in document order. */
  function MallHrefs(hrefs: seq<Option<string>>): (r: seq<string>)
    ensures forall h :: h in r <==> Some(h) in hrefs && IsMallHref(h)
  {
    assert forall x :: x in hrefs && KeepMall(x) <==> x.Some? && x in hrefs && IsMallHref(x.value);
    Seqs.FilterMap(hrefs, KeepMall, HrefValue)
  }

  /** Filtering commutes with concatenation: document order is kept. */
  lemma {:induction false} MallHrefsAppend(a: seq<Option<string>>, b: seq<Option<string>>)
    ensures MallHrefs(a + b) == MallHrefs(a) + MallHrefs(b)
    decreases |a|
  {
    if |a| > 0 {
      assert (a + b)[1..] == a[1..] + b;
      assert (a + b)[0] == a[0];
      MallHrefsAppend(a[1..], b);
    } else {
      assert a + b == b;
    }
  }

  /** Duplicates are not removed: a kept href occurs as often as the
      page lists it. */
  lemma {:induction false} MallHrefsCount(hrefs: seq<Option<string>>, h: string)
    ensures Seqs.Count(MallHrefs(hrefs), h) == if IsMallHref(h) then Seqs.Count(hrefs, Some(h)) else 0
    decreases |hrefs|
  {
    if |hrefs| > 0 {
      MallHrefsCount(hrefs[1..], h);
      assert hrefs == [hrefs[0]] + hrefs[1..];
      MallHrefsAppend([hrefs[0]], hrefs[1..]);
      assert MallHrefs([hrefs[0]]) == if KeepMall(hrefs[0]) then [hrefs[0].value] else [];
      Seqs.CountAppend(MallHrefs([hrefs[0]]), MallHrefs(hrefs[1..]), h);
    }
  }

  /** Whether every `href` read returned; one that raises ends the whole
      extraction. */
  predicate AllRead(attrs: seq<Outcome<Option<string>>>) {
    forall i :: 0 <= i < |attrs| ==> attrs[i].Ok?
  }

  function ReadValues(attrs: seq<Outcome<Option<string>>>): (hrefs: seq<Option<string>>)
    requires AllRead(attrs)
    ensures |hrefs| == |attrs| && forall i :: 0 <= i < |attrs| ==> hrefs[i] == attrs[i].value
  {
    seq(|attrs|, i requires 0 <= i < |attrs| && AllRead(attrs) => attrs[i].value)
  }

  /** `extract_category_hrefs`: the mall links among the anchors' `href`s,
      in document order and with repeats, or `[]` when the carousel wait
      times out, listing the anchors raises or any `href` read raises. */
  function ExtractCategoryHrefs(carouselFound: bool, anchors: Outcome<seq<Outcome<Option<string>>>>): (r: seq<string>)
    ensures !carouselFound || anchors.Raised? || !AllRead(anchors.value) ==> r == []
    ensures carouselFound && anchors.Ok? && AllRead(anchors.value) ==> r == MallHrefs(ReadValues(anchors.value))
    ensures forall h :: h in r ==> IsMallHref(h) && MallMatch(h)
  {
    if carouselFound && anchors.Ok? && AllRead(anchors.value) then
      var r := MallHrefs(ReadValues(anchors.value));
      forall h | h in r ensures MallMatch(h) {
        IsMallHrefMeaning(h);
      }
      r
    else []
  }

  // ---------------------------------------------------------------------
  // save_hrefs_to_file

  function JsonStrings(hrefs: seq<string>): (items: seq<Json.Json>)
    ensures |items| == |hrefs| && forall i :: 0 <= i < |hrefs| ==> items[i] == Json.JStr(hrefs[i])
  {
    seq(|hrefs|, i requires 0 <= i < |hrefs| => Json.JStr(hrefs[i]))
  }

  /** The object written: `{"total_hrefs": len(hrefs), "category_hrefs": hrefs}`. */
  function HrefsRecord(hrefs: seq<string>): Json.Json {
    Json.JObj([("total_hrefs", Json.JInt(|hrefs|)), ("category_hrefs", Json.JArr(JsonStrings(hrefs)))])
  }

  /** What `save_hrefs_to_file` did: whether it reports success, and the
      file's content afterwards when it does. */
  datatype Saved = Saved(ok: bool, content: Option<Json.Json>)

  /** `save_hrefs_to_file`: `True` and the record when opening and writing
      the file succeed, `False` (and nothing claimed about the file)
      otherwise. */
  function SaveHrefsToFile(hrefs: seq<string>, writeSucceeds: bool): (s: Saved)
    ensures s.ok <==> writeSucceeds
    ensures s.ok ==> s.content.Some? && s.content.value.JObj?
    ensures s.ok ==> Json.Get(s.content.value.entries, "total_hrefs") == Some(Json.JInt(|hrefs|))
    ensures s.ok ==> Json.Get(s.content.value.entries, "category_hrefs") == Some(Json.JArr(JsonStrings(hrefs)))
  {
    if writeSucceeds then Saved(true, Some(HrefsRecord(hrefs))) else Saved(false, None)
  }

  /** A file written by `save_hrefs_to_file` and read by `category_chunking`
      gives slices whose concatenation is the saved list, for any chunk
      size of at least one. */
  lemma SavedHrefsChunkBack(hrefs: seq<string>, chunkSize: int)
    requires chunkSize >= 1
    ensures var s := SaveHrefsToFile(hrefs, true);
      Chunking.Flatten(GetProductInCategory.CategoryChunking(chunkSize, Json.Loaded(s.content.value))) == JsonStrings(hrefs)
  {
    var s := SaveHrefsToFile(hrefs, true);
    assert GetProductInCategory.CategoryList(Json.Loaded(s.content.value)) == Some(JsonStrings(hrefs));
  }
}
