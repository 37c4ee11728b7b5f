/** services/shopee_service.py, the parts of `ShopeeService` that decide
    something: which carousel the category links are read from, which
    links are kept and how they are named, the bounded retries of
    `_safe_quit_driver`, and the driver guard of `change_user_agent`.
    The browser is an input: `find(selector)` is the outcome of
    `find_elements(By.CSS_SELECTOR, selector)` on the page, and each
    element and link carries the outcome of the reads made on it. Logging
    and sleeping are not modelled. */
module ShopeeService {
  import opened Wrappers
  import opened Strs
  import Fallback

  // ---------------------------------------------------------------------
  // change_user_agent

  /** `change_user_agent`: `None` without a driver; otherwise the agent
      `set_user_agent_for_driver` reports setting, or `None` when it
      reports nothing or raises. */
  function ChangeUserAgent(hasDriver: bool, agent: Outcome<Option<string>>): (r: Option<string>)
    ensures !hasDriver ==> r.None?
    ensures r.Some? ==> hasDriver && r.value != "" && agent == Ok(r)
    ensures hasDriver && agent.Ok? && agent.value.Some? && agent.value.value != "" ==> r == agent.value
  {
    if !hasDriver then None
    else if agent.Raised? || agent.value.None? || agent.value.value == "" then None
    else agent.value
  }

  // ---------------------------------------------------------------------
  // get_category_links: finding the carousel

  const CarouselSelectors: seq<string> := [
    "ul.image-carousel__item-list",
    "ul[class*='image-carousel__item-list']",
    ".image-carousel__item-list",
    "[class*='image-carousel'] ul",
    ".carousel ul",
    "[data-testid*='carousel'] ul",
    "ul[class*='carousel']"
  ]

  /** One carousel link: the outcome of reading its `href`, its text and
      its `title`, and the `alt` of its image (`None` when there is no
      image, no `alt`, or the lookup raised; that exception is
      swallowed). */
  datatype Link = Link(href: Outcome<Option<string>>, text: Outcome<string>, title: Outcome<Option<string>>, alt: Option<string>)

  /** A candidate carousel: the outcome of listing its `<a>` elements.
      Both listings made on the chosen element see the same links. */
  datatype Elem = Elem(links: Outcome<seq<Link>>)

  predicate HasLinks(e: Elem) {
    e.links.Ok? && |e.links.value| > 0
  }

  /** The elements of one selector, in order: the first with links, or
      `Raised` when listing some element's links raises before one is
      found (which abandons that selector). */
  function FirstWithLinks(elems: seq<Elem>): (r: Outcome<Option<Elem>>)
    ensures r == Ok(None) <==> forall j :: 0 <= j < |elems| ==> elems[j].links.Ok? && !HasLinks(elems[j])
    ensures r.Ok? && r.value.Some? ==> r.value.value in elems && HasLinks(r.value.value)
  {
    if |elems| == 0 then Ok(None)
    else if elems[0].links.Raised? then Raised
    else if HasLinks(elems[0]) then Ok(Some(elems[0]))
    else
      var r := FirstWithLinks(elems[1..]);
      assert forall j :: 1 <= j < |elems| ==> elems[1..][j - 1] == elems[j];
      r
  }

  /** What one selector contributes: its first element with links, if the
      lookup and the scan went through. */
  function Hit(found: Outcome<seq<Elem>>): (r: Option<Elem>)
    ensures r.Some? ==> HasLinks(r.value)
  {
    if found.Raised? then None
    else
      var f := FirstWithLinks(found.value);
      if f.Ok? then f.value else None
  }

  /** The carousel: the hit of the first selector, in order, that has
      one. */
  function FindCarousel(selectors: seq<string>, find: string -> Outcome<seq<Elem>>): (r: Option<Elem>)
    ensures r.None? <==> forall k :: 0 <= k < |selectors| ==> Hit(find(selectors[k])).None?
    ensures r.Some? ==> HasLinks(r.value)
  {
    if |selectors| == 0 then None
    else if Hit(find(selectors[0])).Some? then Hit(find(selectors[0]))
    else
      var r := FindCarousel(selectors[1..], find);
      assert forall k :: 1 <= k < |selectors| ==> selectors[1..][k - 1] == selectors[k];
      r
  }

  /** The first selector with a hit decides: later selectors are never
      consulted. */
  lemma {:induction false} FindCarouselFirst(selectors: seq<string>, find: string -> Outcome<seq<Elem>>, k: nat)
    requires k < |selectors| && Hit(find(selectors[k])).Some?
    requires forall j :: 0 <= j < k ==> Hit(find(selectors[j])).None?
    ensures FindCarousel(selectors, find) == Hit(find(selectors[k]))
    decreases k
  {
    if k > 0 {
      assert selectors[1..][k - 1] == selectors[k];
      assert forall j :: 0 <= j < k - 1 ==> selectors[1..][j] == selectors[j + 1];
      FindCarouselFirst(selectors[1..], find, k - 1);
    }
  }

  // ---------------------------------------------------------------------
  // get_category_links: the links

  /** A category link as returned: `{"name", "href", "index"}`. */
  datatype CategoryLink = CategoryLink(name: string, href: string, index: nat)

  /** `href and href.startswith('http')`. */
  predicate HttpHref(h: Option<string>) {
    h.Some? && StartsWith(h.value, "http")
  }

  /** The name sources in cascade order: the text, the title, the image's
      `alt`. */
  function NameSources(text: string, title: Option<string>, alt: Option<string>): seq<Option<string>> {
    [Some(text), title, alt]
  }

  /** The name of the link at position `i`: the first of its text, title
      and `alt` that is not blank, stripped; else `Category_<i+1>`. */
  function CategoryName(text: string, title: Option<string>, alt: Option<string>, i: nat): (name: string)
    ensures name != ""
  {
    Fallback.FirstNonBlank(NameSources(text, title, alt)).GetOr("Category_" + Decimal(i + 1))
  }

  lemma CategoryNameCascade(text: string, title: Option<string>, alt: Option<string>, i: nat)
    ensures !AllSpace(text) ==> CategoryName(text, title, alt, i) == Strip(text)
    ensures AllSpace(text) && !Fallback.Blank(title) ==> CategoryName(text, title, alt, i) == Strip(title.value)
    ensures AllSpace(text) && Fallback.Blank(title) && !Fallback.Blank(alt) ==> CategoryName(text, title, alt, i) == Strip(alt.value)
    ensures AllSpace(text) && Fallback.Blank(title) && Fallback.Blank(alt) ==> CategoryName(text, title, alt, i) == "Category_" + Decimal(i + 1)
  {
    var s0 := NameSources(text, title, alt);
    var s1 := s0[1..];
    var s2 := s1[1..];
    assert s0[0] == Some(text) && s1[0] == title && s2[0] == alt && |s2[1..]| == 0;
    if AllSpace(text) {
      assert Fallback.FirstNonBlank(s0) == Fallback.FirstNonBlank(s1);
      if Fallback.Blank(title) {
        assert Fallback.FirstNonBlank(s1) == Fallback.FirstNonBlank(s2);
      }
    }
  }

  /** The record for the link at position `i`, or `None` when the link is
      skipped: its `href` is not an `http` URL, or a read the cascade
      needed raised (the link's own `except` skips it). The title is read
      only when the text is blank. */
  function LinkRecord(l: Link, i: nat): (r: Option<CategoryLink>)
    ensures r.Some? ==> l.href.Ok? && HttpHref(l.href.value) && r.value.href == l.href.value.value
    ensures r.Some? ==> r.value.index == i + 1 && r.value.name != ""
    ensures l.href.Ok? && HttpHref(l.href.value) && l.text.Ok? && (!AllSpace(l.text.value) || l.title.Ok?) ==> r.Some?
  {
    if l.href.Raised? || !HttpHref(l.href.value) || l.text.Raised? then None
    else if AllSpace(l.text.value) && l.title.Raised? then None
    else
      var title := if AllSpace(l.text.value) then l.title.value else None;
      Some(CategoryLink(CategoryName(l.text.value, title, l.alt, i), l.href.value.value, i + 1))
  }

  /** The cascade ignores the title when the text is not blank, so an
      unread title stands for a read one. */
  lemma LinkRecordName(l: Link, i: nat)
    requires LinkRecord(l, i).Some? && l.title.Ok?
    ensures LinkRecord(l, i).value.name == CategoryName(l.text.value, l.title.value, l.alt, i)
  {
    CategoryNameCascade(l.text.value, l.title.value, l.alt, i);
    CategoryNameCascade(l.text.value, None, l.alt, i);
  }

  /** The record (or skip) of every link, by position. */
  function Records(links: seq<Link>): (rs: seq<Option<CategoryLink>>)
    ensures |rs| == |links| && forall i :: 0 <= i < |links| ==> rs[i] == LinkRecord(links[i], i)
  {
    seq(|links|, i requires 0 <= i < |links| => LinkRecord(links[i], i))
  }

  /** The records that were not skipped, in order. */
  function Kept(rs: seq<Option<CategoryLink>>): (r: seq<CategoryLink>)
    ensures |r| <= |rs|
    ensures forall c :: c in r <==> Some(c) in rs
  {
    if |rs| == 0 then []
    else
      var rest := Kept(rs[1..]);
      assert forall x :: x in rs <==> x == rs[0] || x in rs[1..];
      if rs[0].Some? then [rs[0].value] + rest else rest
  }

  /** Records that carry their position (plus `from + 1`) as index stay in
      increasing index order once the skips are dropped. */
  lemma {:induction false} KeptIncreasing(rs: seq<Option<CategoryLink>>, from: nat)
    requires forall i :: 0 <= i < |rs| && rs[i].Some? ==> rs[i].value.index == from + i + 1
    ensures forall j :: 0 <= j < |Kept(rs)| ==> from + 1 <= Kept(rs)[j].index <= from + |rs|
    ensures forall j, k :: 0 <= j < k < |Kept(rs)| ==> Kept(rs)[j].index < Kept(rs)[k].index
    decreases |rs|
  {
    if |rs| > 0 {
      var tail := rs[1..];
      forall i | 0 <= i < |tail| && tail[i].Some? ensures tail[i].value.index == (from + 1) + i + 1 {
        assert tail[i] == rs[i + 1];
      }
      KeptIncreasing(tail, from + 1);
      var rest := Kept(tail);
      if rs[0].Some? {
        var r := [rs[0].value] + rest;
        assert Kept(rs) == r;
        assert forall j :: 0 < j < |r| ==> r[j] == rest[j - 1];
      }
    }
  }

  /** The kept links of a carousel. */
  function CollectLinks(links: seq<Link>): (r: seq<CategoryLink>)
    ensures |r| <= |links|
    ensures forall c :: c in r <==> exists i :: 0 <= i < |links| && LinkRecord(links[i], i) == Some(c)
    ensures forall j :: 0 <= j < |r| ==> StartsWith(r[j].href, "http") && r[j].name != ""
  {
    var rs := Records(links);
    assert forall c :: Some(c) in rs <==> exists i :: 0 <= i < |links| && LinkRecord(links[i], i) == Some(c) by {
      forall c ensures Some(c) in rs <==> exists i :: 0 <= i < |links| && LinkRecord(links[i], i) == Some(c) {
        if Some(c) in rs {
          var i :| 0 <= i < |rs| && rs[i] == Some(c);
          assert LinkRecord(links[i], i) == Some(c);
        }
      }
    }
    var r := Kept(rs);
    forall j | 0 <= j < |r| ensures StartsWith(r[j].href, "http") && r[j].name != "" {
      assert Some(r[j]) in rs;
      var i :| 0 <= i < |rs| && rs[i] == Some(r[j]);
      assert LinkRecord(links[i], i) == Some(r[j]);
    }
    r
  }

  /** Every kept link is indexed by its position among all the carousel's
      links, from 1, and the indices strictly increase. */
  lemma CollectLinksIndices(links: seq<Link>)
    ensures forall j :: 0 <= j < |CollectLinks(links)| ==> 1 <= CollectLinks(links)[j].index <= |links|
    ensures forall j, k :: 0 <= j < k < |CollectLinks(links)| ==> CollectLinks(links)[j].index < CollectLinks(links)[k].index
  {
    var rs := Records(links);
    forall i | 0 <= i < |rs| && rs[i].Some? ensures rs[i].value.index == 0 + i + 1 {
      assert rs[i] == LinkRecord(links[i], i);
    }
    KeptIncreasing(rs, 0);
  }

  /** `get_category_links`: `[]` without a driver or without a carousel;
      otherwise the kept links of the carousel, in page order, each
      indexed by its position among all the carousel's links. */
  function GetCategoryLinks(hasDriver: bool, find: string -> Outcome<seq<Elem>>): (r: seq<CategoryLink>)
    ensures !hasDriver || FindCarousel(CarouselSelectors, find).None? ==> r == []
    ensures hasDriver && FindCarousel(CarouselSelectors, find).Some? ==>
      r == CollectLinks(FindCarousel(CarouselSelectors, find).value.links.value)
    ensures forall j :: 0 <= j < |r| ==> StartsWith(r[j].href, "http") && r[j].name != "" && r[j].index >= 1
    ensures forall j, k :: 0 <= j < k < |r| ==> r[j].index < r[k].index
  {
    if !hasDriver then []
    else
      match FindCarousel(CarouselSelectors, find)
      case None => []
      case Some(e) =>
        CollectLinksIndices(e.links.value);
        CollectLinks(e.links.value)
  }

  // ---------------------------------------------------------------------
  // _safe_quit_driver

  const MaxQuitAttempts: nat := 3

  /** `_safe_quit_driver`. `quits(a)` says whether `driver.quit()` returned
      normally on attempt `a` (closing the window first may fail; that is
      ignored). Returns how many attempts were made, whether one quit the
      driver, and whether the service still holds a driver afterwards. */
  method SafeQuitDriver(hasDriver: bool, quits: nat -> bool) returns (made: nat, quitOk: bool, driverAfter: bool)
    ensures !driverAfter
    ensures !hasDriver ==> made == 0 && !quitOk
    ensures hasDriver ==> 1 <= made <= MaxQuitAttempts
    ensures quitOk ==> quits(made - 1) && forall a :: 0 <= a < made - 1 ==> !quits(a)
    ensures hasDriver && !quitOk ==> made == MaxQuitAttempts && forall a :: 0 <= a < MaxQuitAttempts ==> !quits(a)
    ensures quitOk <==> hasDriver && exists a :: 0 <= a < MaxQuitAttempts && quits(a)
  {
    if !hasDriver {
      return 0, false, false;
    }
    var attempts := 0;
    driverAfter := true;
    while attempts < MaxQuitAttempts
      invariant 0 <= attempts <= MaxQuitAttempts
      invariant forall a :: 0 <= a < attempts ==> !quits(a)
      invariant driverAfter <==> attempts < MaxQuitAttempts
    {
      if quits(attempts) {
        return attempts + 1, true, false;
      }
      attempts := attempts + 1;
      if attempts >= MaxQuitAttempts {
        driverAfter := false;
      }
    }
    return attempts, false, driverAfter;
  }
}
