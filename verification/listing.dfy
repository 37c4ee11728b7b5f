/** Directory listings as the chunkers see them:
    `sorted(str(p) for p in base.iterdir() if p.is_file() and p.suffix.lower() == ext)`.
    The listing itself (and whether `base` is an existing directory) is an input. */
module Listing {
  import opened Wrappers
  import Strs
  import Chunking

  /** One entry of `base.iterdir()`: the path string the caller records
      (`str(p)`, or `str(p.resolve())`, the absolute path, in
      `products_chunking`), its final component `p.name`, and whether
      `p.is_file()` holds. */
  datatype DirEntry = DirEntry(path: string, name: string, isFile: bool)

  /** `PurePath.suffix`: from the last dot of the name, unless that dot is
      the first or the last character. */
  function Suffix(name: string): (r: string)
    ensures r == "" || (r[0] == '.' && '.' !in r[1..] && |r| >= 2 && |r| < |name| && r == name[|name| - |r|..])
    ensures 0 < Strs.RFind(name, '.') < |name| - 1 ==> r == name[Strs.RFind(name, '.')..]
    ensures !(0 < Strs.RFind(name, '.') < |name| - 1) ==> r == ""
  {
    var i := Strs.RFind(name, '.');
    if 0 < i < |name| - 1 then name[i..] else ""
  }

  /** Entry kept by the chunkers: a regular file whose lower-cased suffix is `ext`. */
  predicate Selected(e: DirEntry, ext: string) {
    e.isFile && Strs.Lower(Suffix(e.name)) == ext
  }

  /** Python's `<=` on `str`: code-point lexicographic order. */
  predicate LexLe(a: string, b: string) {
    if |a| == 0 then true
    else if |b| == 0 then false
    else if a[0] != b[0] then a[0] < b[0]
    else LexLe(a[1..], b[1..])
  }

  lemma {:induction false} LexLeTotal(a: string, b: string)
    ensures LexLe(a, b) || LexLe(b, a)
  {
    if |a| > 0 && |b| > 0 && a[0] == b[0] {
      LexLeTotal(a[1..], b[1..]);
    }
  }

  lemma {:induction false} LexLeTrans(a: string, b: string, c: string)
    requires LexLe(a, b) && LexLe(b, c)
    ensures LexLe(a, c)
  {
    if |a| > 0 && |b| > 0 && |c| > 0 && a[0] == b[0] && b[0] == c[0] {
      LexLeTrans(a[1..], b[1..], c[1..]);
    }
  }

  predicate Sorted(s: seq<string>) {
    forall i, j :: 0 <= i < j < |s| ==> LexLe(s[i], s[j])
  }

  function Insert(x: string, s: seq<string>): (r: seq<string>)
    requires Sorted(s)
    ensures Sorted(r)
    ensures multiset(r) == multiset(s) + multiset{x}
    ensures |r| == |s| + 1
  {
    if |s| == 0 then [x]
    else if LexLe(x, s[0]) then
      InsertFront(x, s);
      [x] + s
    else
      var rest := Insert(x, s[1..]);
      assert s == [s[0]] + s[1..];
      InsertBehind(x, s, rest);
      [s[0]] + rest
  }

  lemma InsertFront(x: string, s: seq<string>)
    requires Sorted(s) && |s| > 0 && LexLe(x, s[0])
    ensures Sorted([x] + s)
  {
    forall j | 0 <= j < |s| ensures LexLe(x, s[j]) {
      if j > 0 { LexLeTrans(x, s[0], s[j]); }
    }
  }

  lemma InsertBehind(x: string, s: seq<string>, rest: seq<string>)
    requires Sorted(s) && |s| > 0 && !LexLe(x, s[0])
    requires Sorted(rest) && multiset(rest) == multiset(s[1..]) + multiset{x}
    ensures Sorted([s[0]] + rest)
  {
    LexLeTotal(x, s[0]);
    var r := [s[0]] + rest;
    forall j | 1 <= j < |r| ensures LexLe(s[0], r[j]) {
      assert r[j] == rest[j - 1];
      var e := rest[j - 1];
      assert e in multiset(rest);
      if e != x {
        assert e in multiset(s[1..]);
        assert e in s[1..];
      }
    }
  }

  /** Python's `sorted` on strings (insertion sort). */
  function Sort(s: seq<string>): (r: seq<string>)
    ensures Sorted(r)
    ensures multiset(r) == multiset(s)
    ensures |r| == |s|
  {
    if |s| == 0 then []
    else
      assert s == [s[0]] + s[1..];
      Insert(s[0], Sort(s[1..]))
  }

  function SelectedPaths(entries: seq<DirEntry>, ext: string): (r: seq<string>)
    ensures forall p :: p in r <==> exists e :: e in entries && Selected(e, ext) && e.path == p
  {
    if |entries| == 0 then []
    else
      var head := if Selected(entries[0], ext) then [entries[0].path] else [];
      var rest := SelectedPaths(entries[1..], ext);
      assert forall e :: e in entries <==> e == entries[0] || e in entries[1..];
      head + rest
  }

  /** `sorted(str(p) for p in entries if selected)`. */
  function SortedSelection(entries: seq<DirEntry>, ext: string): seq<string>
  {
    Sort(SelectedPaths(entries, ext))
  }

  /** The sorted selection is sorted, lists every selected entry's path as
      often as it is listed, and nothing else. */
  lemma SortedSelectionMeaning(entries: seq<DirEntry>, ext: string)
    ensures Sorted(SortedSelection(entries, ext))
    ensures multiset(SortedSelection(entries, ext)) == multiset(SelectedPaths(entries, ext))
    ensures forall p :: p in SortedSelection(entries, ext) <==> exists e :: e in entries && Selected(e, ext) && e.path == p
  {
    var sel := SelectedPaths(entries, ext);
    var r := Sort(sel);
    assert forall p :: p in r <==> p in multiset(r);
    assert forall p :: p in sel <==> p in multiset(sel);
  }

  /** `r` deals `files` round-robin into `n` chunks: exactly `n` chunks
      (all empty when there is no file), file `i` at position `i / n` of
      chunk `i % n`, chunk sizes within one of each other, and every file
      exactly once. */
  predicate DealtRoundRobin(r: seq<seq<string>>, files: seq<string>, n: nat)
    requires n >= 1
  {
    && |r| == n
    && (files == [] ==> forall k :: 0 <= k < n ==> r[k] == [])
    && (forall i :: 0 <= i < |files| ==> i / n < |r[i % n]| && r[i % n][i / n] == files[i])
    && (forall k, l :: 0 <= k < n && 0 <= l < n ==> |r[k]| <= |r[l]| + 1)
    && multiset(Chunking.Flatten(r)) == multiset(files)
  }

  /** The chunkers' common core: the sorted selected files of a directory
      dealt round-robin into `n` chunks, or `[]` when the directory does
      not exist (`listing` is `None`). */
  function RoundRobinFiles(listing: Option<seq<DirEntry>>, ext: string, n: nat): (r: seq<seq<string>>)
    requires n >= 1
    ensures listing.None? ==> r == []
    ensures listing.Some? ==> DealtRoundRobin(r, SortedSelection(listing.value, ext), n)
  {
    match listing
    case None => []
    case Some(entries) =>
      var files := SortedSelection(entries, ext);
      Chunking.RoundRobinPermutation(files, n);
      var r := Chunking.RoundRobin(files, n);
      assert files == [] ==> r == Chunking.Empties(n);
      forall k, l | 0 <= k < n && 0 <= l < n ensures |r[k]| <= |r[l]| + 1 {
        Chunking.RoundRobinBalanced(files, n, k, l);
      }
      r
  }
}
