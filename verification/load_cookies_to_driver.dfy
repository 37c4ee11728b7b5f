/** funcs/load_cookies_to_driver.py: reading an exported cookie file,
    normalising each cookie record for Selenium's `add_cookie`, and
    counting the cookies the browser took.
    The file and the browser are inputs: `file(path)` is what checking,
    opening and `json.load`-ing the path produced, and `accepts(i, c)`
    says whether `add_cookie` returned normally for the normalised record
    `c` of list position `i`. */
module LoadCookiesToDriver {
  import opened Wrappers
  import opened Strs
  import Json

  /** `cookies_file or getattr(config, "COOKIES_FILE_PATH", ...)`: the
      configuration package defines no such attribute. */
  function CookiesPath(cookiesFile: Option<string>): string {
    if cookiesFile.Some? && cookiesFile.value != "" then cookiesFile.value else "data/cookies.json"
  }

  // ---------------------------------------------------------------------
  // int(cookie["expirationDate"])

  /** `int(f)` of a finite float: truncation toward zero. */
  function Trunc(f: real): (n: int)
    ensures f >= 0.0 ==> 0 <= n && n as real <= f < (n + 1) as real
    ensures f < 0.0 ==> n <= 0 && (n - 1) as real < f <= n as real
  {
    if f >= 0.0 then f.Floor else -((-f).Floor)
  }

  /** Python's `int(x)` on a loaded JSON value, `None` where it raises:
      integers are themselves, booleans 0 and 1, finite floats truncate,
      strings parse; NaN, the infinities, `null`, lists and dicts raise. */
  function PyInt(x: Json.Json): (r: Option<int>)
    ensures x.JInt? ==> r == Some(x.i)
    ensures x.JFloat? ==> r == Some(Trunc(x.f))
    ensures x.JNull? || x.JNonFinite? || x.JArr? || x.JObj? ==> r == None
  {
    match x
    case JInt(i) => Some(i)
    case JBool(b) => Some(if b then 1 else 0)
    case JFloat(f) => Some(Trunc(f))
    case JStr(s) => ParseInt(s)
    case _ => None
  }

  // ---------------------------------------------------------------------
  // Normalising one record

  const DroppedKeys: seq<string> := ["hostOnly", "storeId", "id", "sameSite"]

  /** `expirationDate` becomes `expiry = int(expirationDate)`; when the
      conversion raises the key is just removed. */
  function ConvertExpiry(d: Json.Entries): (r: Json.Entries)
    ensures Json.Get(r, "expirationDate") == None
    ensures forall k :: k != "expirationDate" && k != "expiry" ==> Json.Get(r, k) == Json.Get(d, k)
    ensures Json.Get(d, "expirationDate").Some? && PyInt(Json.Get(d, "expirationDate").value).Some? ==>
      Json.Get(r, "expiry") == Some(Json.JInt(PyInt(Json.Get(d, "expirationDate").value).value))
    ensures !(Json.Get(d, "expirationDate").Some? && PyInt(Json.Get(d, "expirationDate").value).Some?) ==>
      Json.Get(r, "expiry") == Json.Get(d, "expiry")
  {
    match Json.Get(d, "expirationDate")
    case None => d
    case Some(v) =>
      match PyInt(v)
      case Some(n) => Json.Remove(Json.Put(d, "expiry", Json.JInt(n)), "expirationDate")
      case None => Json.Remove(d, "expirationDate")
  }

  /** `for k in keys: cookie.pop(k, None)`. */
  function DropKeys(d: Json.Entries, keys: seq<string>): (r: Json.Entries)
    ensures forall k :: k in keys ==> Json.Get(r, k) == None
    ensures forall k :: k !in keys ==> Json.Get(r, k) == Json.Get(d, k)
    decreases |keys|
  {
    if |keys| == 0 then d
    else
      var r := DropKeys(Json.Remove(d, keys[0]), keys[1..]);
      assert forall k :: k in keys ==> k == keys[0] || k in keys[1..];
      r
  }

  /** Does the record carry a string domain with a leading dot? */
  predicate DottedDomain(d: Json.Entries) {
    var v := Json.Get(d, "domain");
    v.Some? && v.value.JStr? && |v.value.s| > 0 && v.value.s[0] == '.'
  }

  /** A string `domain` that starts with `.` loses that one dot. */
  function FixDomain(d: Json.Entries): (r: Json.Entries)
    ensures forall k :: k != "domain" ==> Json.Get(r, k) == Json.Get(d, k)
    ensures DottedDomain(d) ==> Json.Get(r, "domain") == Some(Json.JStr(Json.Get(d, "domain").value.s[1..]))
    ensures !DottedDomain(d) ==> r == d
  {
    if DottedDomain(d) then Json.Put(d, "domain", Json.JStr(Json.Get(d, "domain").value.s[1..])) else d
  }

  /** The record before the domain is fixed: expiry converted, rejected
      keys dropped. */
  function Pruned(d: Json.Entries): Json.Entries {
    DropKeys(ConvertExpiry(d), DroppedKeys)
  }

  /** The record handed to `add_cookie`. */
  function Normalize(d: Json.Entries): Json.Entries {
    FixDomain(Pruned(d))
  }

  /** Neither `expirationDate` nor any of the keys Selenium rejects is
      left. */
  lemma NormalizeDrops(d: Json.Entries, k: string)
    requires k == "expirationDate" || k in DroppedKeys
    ensures Json.Get(Normalize(d), k) == None
  {
    PrunedDrops(d, k);
    assert k != "domain";
  }

  lemma PrunedDrops(d: Json.Entries, k: string)
    requires k == "expirationDate" || k in DroppedKeys
    ensures Json.Get(Pruned(d), k) == None
  {
    var c := ConvertExpiry(d);
    if k !in DroppedKeys {
      assert Json.Get(c, k) == None;
    }
  }

  /** Every other key keeps its value. */
  lemma NormalizeKeeps(d: Json.Entries, k: string)
    requires k !in DroppedKeys && k != "expirationDate" && k != "expiry" && k != "domain"
    ensures Json.Get(Normalize(d), k) == Json.Get(d, k)
  {
  }

  /** `expiry` is the converted `expirationDate` when the conversion
      succeeds, and is left as it was otherwise. */
  lemma NormalizeExpiry(d: Json.Entries)
    ensures var e := Json.Get(d, "expirationDate");
      e.Some? && PyInt(e.value).Some? ==> Json.Get(Normalize(d), "expiry") == Some(Json.JInt(PyInt(e.value).value))
    ensures var e := Json.Get(d, "expirationDate");
      !(e.Some? && PyInt(e.value).Some?) ==> Json.Get(Normalize(d), "expiry") == Json.Get(d, "expiry")
  {
    PrunedExpiry(d);
    assert Json.Get(Normalize(d), "expiry") == Json.Get(Pruned(d), "expiry");
  }

  lemma PrunedExpiry(d: Json.Entries)
    ensures Json.Get(Pruned(d), "expiry") == Json.Get(ConvertExpiry(d), "expiry")
  {
    assert "expiry" !in DroppedKeys;
  }

  /** A string `domain` with a leading dot loses exactly that dot; any
      other `domain` is kept. */
  lemma NormalizeDomain(d: Json.Entries)
    ensures DottedDomain(d) ==> Json.Get(Normalize(d), "domain") == Some(Json.JStr(Json.Get(d, "domain").value.s[1..]))
    ensures !DottedDomain(d) ==> Json.Get(Normalize(d), "domain") == Json.Get(d, "domain")
  {
    PrunedDomain(d);
    assert DottedDomain(Pruned(d)) == DottedDomain(d);
  }

  lemma PrunedDomain(d: Json.Entries)
    ensures Json.Get(Pruned(d), "domain") == Json.Get(d, "domain")
  {
    var c := ConvertExpiry(d);
    assert Json.Get(c, "domain") == Json.Get(d, "domain");
    assert "domain" !in DroppedKeys;
  }

  /** Exactly one leading dot goes: `..example.com` keeps its second dot. */
  lemma OneDotRemoved(d: Json.Entries, host: string)
    requires Json.Get(d, "domain") == Some(Json.JStr(".." + host))
    ensures Json.Get(Normalize(d), "domain") == Some(Json.JStr("." + host))
  {
    var s := ".." + host;
    assert s[0] == '.';
    assert DottedDomain(d);
    assert s[1..] == "." + host;
    NormalizeDomain(d);
  }

  // ---------------------------------------------------------------------
  // The loop

  /** How many entries of the list are dicts. */
  function DictCount(items: seq<Json.Json>): (n: nat)
    ensures n <= |items|
  {
    if |items| == 0 then 0 else (if items[0].JObj? then 1 else 0) + DictCount(items[1..])
  }

  /** How many entries, at list positions counted from `from`, `takes`
      holds for. */
  function Count(items: seq<Json.Json>, from: nat, takes: (nat, Json.Json) -> bool): (n: nat)
    ensures (forall p, x :: takes(p, x) ==> x.JObj?) ==> n <= DictCount(items)
    decreases |items|
  {
    if |items| == 0 then 0 else (if takes(from, items[0]) then 1 else 0) + Count(items[1..], from + 1, takes)
  }

  predicate TakenAtPos(items: seq<Json.Json>, from: nat, takes: (nat, Json.Json) -> bool, p: nat)
    requires from <= p < from + |items|
  {
    takes(p, items[p - from])
  }

  /** The list positions whose entry `takes` holds for. */
  function TakenAt(items: seq<Json.Json>, from: nat, takes: (nat, Json.Json) -> bool): set<nat> {
    set p: nat | from <= p < from + |items| && TakenAtPos(items, from, takes, p)
  }

  function HeadTaken(items: seq<Json.Json>, from: nat, takes: (nat, Json.Json) -> bool): set<nat>
    requires |items| > 0
  {
    if takes(from, items[0]) then {from} else {}
  }

  lemma TakenAtSplit(items: seq<Json.Json>, from: nat, takes: (nat, Json.Json) -> bool)
    requires |items| > 0
    ensures TakenAt(items, from, takes) == HeadTaken(items, from, takes) + TakenAt(items[1..], from + 1, takes)
  {
    forall p: nat
      ensures p in TakenAt(items, from, takes) <==> p in HeadTaken(items, from, takes) + TakenAt(items[1..], from + 1, takes)
    {
      if from + 1 <= p < from + |items| {
        assert items[1..][p - (from + 1)] == items[p - from];
      }
    }
  }

  /** The count is the number of positions `takes` holds for. */
  lemma {:induction false} CountIsTakenAt(items: seq<Json.Json>, from: nat, takes: (nat, Json.Json) -> bool)
    ensures Count(items, from, takes) == |TakenAt(items, from, takes)|
    decreases |items|
  {
    if |items| > 0 {
      CountIsTakenAt(items[1..], from + 1, takes);
      TakenAtSplit(items, from, takes);
      assert from !in TakenAt(items[1..], from + 1, takes);
    }
  }

  /** Entry `x` at list position `p` is a dict that `add_cookie` took once
      normalised. */
  predicate Takes(accepts: (nat, Json.Entries) -> bool, p: nat, x: Json.Json) {
    x.JObj? && accepts(p, Normalize(x.entries))
  }

  /** `Takes` as a function of position and entry. */
  function Offer(accepts: (nat, Json.Entries) -> bool): (nat, Json.Json) -> bool {
    (p: nat, x: Json.Json) => Takes(accepts, p, x)
  }

  /** The list positions, counted from `from`, whose entry is a dict that
      `add_cookie` took once normalised. */
  function AcceptedAt(items: seq<Json.Json>, from: nat, accepts: (nat, Json.Entries) -> bool): set<nat> {
    TakenAt(items, from, Offer(accepts))
  }

  /** The loop over the list from position `from`: non-dicts are skipped,
      every dict is normalised and offered to `add_cookie`, and each
      offer that did not raise is counted. The count is exactly the number
      of positions `add_cookie` took, and at most the number of dicts. */
  function Added(items: seq<Json.Json>, from: nat, accepts: (nat, Json.Entries) -> bool): (n: nat)
    ensures n == |AcceptedAt(items, from, accepts)|
    ensures n <= DictCount(items)
  {
    CountIsTakenAt(items, from, Offer(accepts));
    Count(items, from, Offer(accepts))
  }

  /** `load_cookies_to_driver`: the number of cookies added; 0 when the
      file is missing, cannot be read or parsed, or is not a list. */
  function LoadCookiesToDriver(cookiesFile: Option<string>, file: string -> Json.JsonFile, accepts: (nat, Json.Entries) -> bool): (n: nat)
    ensures var f := file(CookiesPath(cookiesFile));
      !(f.Loaded? && f.value.JArr?) ==> n == 0
    ensures var f := file(CookiesPath(cookiesFile));
      f.Loaded? && f.value.JArr? ==> n == |AcceptedAt(f.value.items, 0, accepts)| && n <= DictCount(f.value.items)
  {
    match file(CookiesPath(cookiesFile))
    case Loaded(v) => if v.JArr? then Added(v.items, 0, accepts) else 0
    case _ => 0
  }
}
