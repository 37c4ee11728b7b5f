/** Parsed JSON values as `json.load` returns them, and the dict operations
    the scripts apply to them (`d.get(k)`, `d.pop(k, None)`, `d[k] = v`).
    A dict is a list of entries in insertion order, as a Python dict is. */
module Json {
  import opened Wrappers

  datatype Json =
    | JNull
    | JBool(b: bool)
    | JInt(i: int)
    | JFloat(f: real)    // a finite float
    | JNonFinite         // NaN, Infinity and -Infinity, which json.load accepts
    | JStr(s: string)
    | JArr(items: seq<Json>)
    | JObj(entries: seq<(string, Json)>)

  /** What opening a path and running `json.load` on it produced. */
  datatype JsonFile = Missing | Unreadable | Loaded(value: Json)

  type Entries = seq<(string, Json)>

  predicate HasKey(d: Entries, k: string) {
    exists i | 0 <= i < |d| :: d[i].0 == k
  }

  lemma HasKeyCons(d: Entries, k: string)
    requires |d| > 0
    ensures HasKey(d, k) <==> d[0].0 == k || HasKey(d[1..], k)
  {
    if HasKey(d, k) && d[0].0 != k {
      var i :| 0 <= i < |d| && d[i].0 == k;
      assert d[1..][i - 1].0 == k;
    }
    if HasKey(d[1..], k) {
      var i :| 0 <= i < |d[1..]| && d[1..][i].0 == k;
      assert d[i + 1].0 == k;
    }
  }

  /** `d.get(k)`. */
  function Get(d: Entries, k: string): (r: Option<Json>)
    ensures r.None? <==> !HasKey(d, k)
    ensures r.Some? ==> (k, r.value) in d
  {
    if |d| == 0 then None
    else if d[0].0 == k then Some(d[0].1)
    else
      HasKeyCons(d, k);
      Get(d[1..], k)
  }

  /** `d.get(k)` is the value of the first entry for `k`. */
  lemma {:induction false} GetFirst(d: Entries, k: string, i: nat)
    requires i < |d| && d[i].0 == k
    requires forall j :: 0 <= j < i ==> d[j].0 != k
    ensures Get(d, k) == Some(d[i].1)
  {
    if i > 0 {
      GetFirst(d[1..], k, i - 1);
    }
  }

  /** `d.pop(k, None)`: every entry except the one for `k`, order kept. */
  function Remove(d: Entries, k: string): (r: Entries)
    ensures Get(r, k) == None
    ensures forall k' :: k' != k ==> Get(r, k') == Get(d, k')
    ensures forall e :: e in r ==> e in d
  {
    if |d| == 0 then []
    else
      var rest := Remove(d[1..], k);
      assert forall e :: e in d[1..] ==> e in d;
      if d[0].0 == k then rest
      else
        assert ([d[0]] + rest)[1..] == rest;
        [d[0]] + rest
  }

  /** `d[k] = v`: overwrites in place when `k` is present, appends otherwise. */
  function Put(d: Entries, k: string, v: Json): (r: Entries)
    ensures Get(r, k) == Some(v)
    ensures forall k' :: k' != k ==> Get(r, k') == Get(d, k')
  {
    if |d| == 0 then [(k, v)]
    else if d[0].0 == k then
      var r := [(k, v)] + d[1..];
      assert r[1..] == d[1..];
      r
    else
      var r := [d[0]] + Put(d[1..], k, v);
      assert r[1..] == Put(d[1..], k, v);
      r
  }
}
