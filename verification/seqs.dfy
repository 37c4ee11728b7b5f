/** Sequence helpers shared by the extractors: first-occurrence
    de-duplication (the `seen` set idiom), truncation and counting. */
module Seqs {

  /** No two elements share a key. */
  predicate NoDupBy<T, K(==)>(s: seq<T>, key: T -> K) {
    forall i, j :: 0 <= i < j < |s| ==> key(s[i]) != key(s[j])
  }

  /** Keeps the first element for every key not already in `seen`, in order:
      the loop `if key(x) in seen: continue; seen.add(key(x)); out.append(x)`. */
  function DedupBy<T, K(==)>(s: seq<T>, key: T -> K, seen: set<K>): (r: seq<T>)
    ensures |r| <= |s|
    ensures NoDupBy(r, key)
    ensures forall i :: 0 <= i < |r| ==> key(r[i]) !in seen && r[i] in s
  {
    if |s| == 0 then []
    else if key(s[0]) in seen then DedupBy(s[1..], key, seen)
    else [s[0]] + DedupBy(s[1..], key, seen + {key(s[0])})
  }

  /** Every key of `s` outside `seen` is represented in the result. */
  lemma {:induction false} DedupByCovers<T, K>(s: seq<T>, key: T -> K, seen: set<K>, x: T)
    requires x in s && key(x) !in seen
    ensures exists i :: 0 <= i < |DedupBy(s, key, seen)| && key(DedupBy(s, key, seen)[i]) == key(x)
    decreases |s|
  {
    var r := DedupBy(s, key, seen);
    if key(s[0]) in seen {
      DedupByCovers(s[1..], key, seen, x);
    } else if key(x) == key(s[0]) {
      assert key(r[0]) == key(x);
    } else {
      var seen' := seen + {key(s[0])};
      DedupByCovers(s[1..], key, seen', x);
      var i :| 0 <= i < |DedupBy(s[1..], key, seen')| && key(DedupBy(s[1..], key, seen')[i]) == key(x);
      assert r[i + 1] == DedupBy(s[1..], key, seen')[i];
    }
  }

  /** `idx` lists, in increasing order, positions of `s` holding the
      elements of `r`, each the first position of `s` with its key. */
  ghost predicate FirstOccurrences<T, K>(s: seq<T>, key: T -> K, r: seq<T>, idx: seq<nat>) {
    && |idx| == |r|
    && (forall k :: 0 <= k < |idx| ==> idx[k] < |s| && s[idx[k]] == r[k])
    && (forall k, l :: 0 <= k < l < |idx| ==> idx[k] < idx[l])
    && (forall k, j :: 0 <= k < |idx| && 0 <= j < idx[k] ==> key(s[j]) != key(s[idx[k]]))
  }

  /** The element kept for each key is that key's first occurrence, and kept
      elements appear in the order of those first occurrences. */
  lemma {:induction false} DedupByFirstOccurrence<T, K>(s: seq<T>, key: T -> K, seen: set<K>) returns (idx: seq<nat>)
    ensures FirstOccurrences(s, key, DedupBy(s, key, seen), idx)
    decreases |s|
  {
    if |s| == 0 {
      idx := [];
    } else if key(s[0]) in seen {
      var rest := DedupByFirstOccurrence(s[1..], key, seen);
      idx := ShiftOccurrences(s, key, DedupBy(s[1..], key, seen), rest);
    } else {
      var seen' := seen + {key(s[0])};
      var r := DedupBy(s[1..], key, seen');
      var rest := DedupByFirstOccurrence(s[1..], key, seen');
      var shifted := ShiftOccurrences(s, key, r, rest);
      idx := [0] + shifted;
      PrependFirst(s, key, r, shifted);
    }
  }

  /** First occurrences in the tail of `s`, of keys other than the head's,
      are first occurrences in `s` one position further on. */
  lemma ShiftOccurrences<T, K>(s: seq<T>, key: T -> K, r: seq<T>, rest: seq<nat>) returns (idx: seq<nat>)
    requires |s| > 0
    requires FirstOccurrences(s[1..], key, r, rest)
    requires forall k :: 0 <= k < |r| ==> key(r[k]) != key(s[0])
    ensures FirstOccurrences(s, key, r, idx)
    ensures forall k :: 0 <= k < |idx| ==> idx[k] > 0
  {
    idx := seq(|rest|, k requires 0 <= k < |rest| => rest[k] + 1);
    forall k, j | 0 <= k < |idx| && 0 <= j < idx[k]
      ensures key(s[j]) != key(s[idx[k]])
    {
      assert s[idx[k]] == r[k];
      if j > 0 {
        assert s[j] == s[1..][j - 1];
      }
    }
  }

  /** The head of `s` is its key's first occurrence, before all others. */
  lemma PrependFirst<T, K>(s: seq<T>, key: T -> K, r: seq<T>, idx: seq<nat>)
    requires |s| > 0
    requires FirstOccurrences(s, key, r, idx)
    requires forall k :: 0 <= k < |idx| ==> idx[k] > 0
    ensures FirstOccurrences(s, key, [s[0]] + r, [0] + idx)
  {
    var idx' := [0] + idx;
    var r' := [s[0]] + r;
    assert forall k :: 1 <= k < |idx'| ==> idx'[k] == idx[k - 1] && r'[k] == r[k - 1];
  }

  /** Python's `s[:n]` for a count that may be negative. */
  function Take<T>(s: seq<T>, n: int): (r: seq<T>)
    ensures |r| == (if n <= 0 then 0 else if n >= |s| then |s| else n)
    ensures r == s[..|r|]
  {
    if n <= 0 then [] else if n >= |s| then s else s[..n]
  }

  /** Taking from a sequence with a head takes the head first. */
  lemma TakeCons<T>(x: T, s: seq<T>, n: int)
    requires n >= 1
    ensures Take([x] + s, n) == [x] + Take(s, n - 1)
  {
    var l := [x] + s;
    if n < |l| {
      assert l[..n] == [x] + s[..n - 1];
    }
  }

  /** A prefix of a sequence without repeated keys has none either. */
  lemma TakeNoDupBy<T, K>(s: seq<T>, key: T -> K, n: int)
    requires NoDupBy(s, key)
    ensures NoDupBy(Take(s, n), key)
  {
    var r := Take(s, n);
    assert forall i :: 0 <= i < |r| ==> r[i] == s[i];
  }

  /** Number of occurrences of `x` in `s`. */
  function Count<T(==)>(s: seq<T>, x: T): nat
  {
    if |s| == 0 then 0 else (if s[0] == x then 1 else 0) + Count(s[1..], x)
  }

  lemma {:induction false} CountAppend<T>(a: seq<T>, b: seq<T>, x: T)
    ensures Count(a + b, x) == Count(a, x) + Count(b, x)
    decreases |a|
  {
    if |a| > 0 {
      assert (a + b)[1..] == a[1..] + b;
      CountAppend(a[1..], b, x);
    } else {
      assert a + b == b;
    }
  }

  /** `[f(x) for x in s if keep(x)]`. */
  function FilterMap<A(!new), B(!new)>(s: seq<A>, keep: A -> bool, f: A -> B): (r: seq<B>)
    ensures |r| <= |s|
    ensures forall y :: y in r <==> exists x :: x in s && keep(x) && y == f(x)
  {
    if |s| == 0 then []
    else
      var rest := FilterMap(s[1..], keep, f);
      assert forall x :: x in s <==> x == s[0] || x in s[1..];
      if keep(s[0]) then [f(s[0])] + rest else rest
  }

  /** `idx` lists, in increasing order, exactly the positions of `s` that
      `keep` accepts, and `r` holds their images under `f`: the list
      comprehension's order and multiplicity. */
  ghost predicate Selects<A, B>(s: seq<A>, keep: A -> bool, f: A -> B, r: seq<B>, idx: seq<nat>) {
    && |idx| == |r|
    && (forall k :: 0 <= k < |idx| ==> idx[k] < |s| && keep(s[idx[k]]) && r[k] == f(s[idx[k]]))
    && (forall k, l :: 0 <= k < l < |idx| ==> idx[k] < idx[l])
    && (forall i :: 0 <= i < |s| && keep(s[i]) ==> i in idx)
  }

  /** The result is the image of the kept elements, one per kept position,
      in the order of `s`. */
  lemma {:induction false} FilterMapSelects<A(!new), B(!new)>(s: seq<A>, keep: A -> bool, f: A -> B) returns (idx: seq<nat>)
    ensures Selects(s, keep, f, FilterMap(s, keep, f), idx)
    decreases |s|
  {
    if |s| == 0 {
      idx := [];
    } else {
      var r := FilterMap(s[1..], keep, f);
      var rest := FilterMapSelects(s[1..], keep, f);
      var shifted := ShiftSelects(s, keep, f, r, rest);
      if keep(s[0]) {
        idx := [0] + shifted;
        PrependSelects(s, keep, f, r, shifted);
      } else {
        idx := shifted;
      }
    }
  }

  /** Every position of `rest` moved `d` further on. */
  function Shifted(rest: seq<nat>, d: nat): (idx: seq<nat>)
    ensures |idx| == |rest|
    ensures forall k :: 0 <= k < |rest| ==> idx[k] == rest[k] + d
  {
    seq(|rest|, k requires 0 <= k < |rest| => rest[k] + d)
  }

  /** A selection from the tail of `s` is one from `s`, one position further
      on, that covers every kept position but the first. */
  lemma ShiftSelects<A, B>(s: seq<A>, keep: A -> bool, f: A -> B, r: seq<B>, rest: seq<nat>) returns (idx: seq<nat>)
    requires |s| > 0
    requires Selects(s[1..], keep, f, r, rest)
    ensures |idx| == |r|
    ensures forall k :: 0 <= k < |idx| ==> 0 < idx[k] < |s| && keep(s[idx[k]]) && r[k] == f(s[idx[k]])
    ensures forall k, l :: 0 <= k < l < |idx| ==> idx[k] < idx[l]
    ensures !keep(s[0]) ==> Selects(s, keep, f, r, idx)
    ensures forall i :: 1 <= i < |s| && keep(s[i]) ==> i in idx
  {
    idx := Shifted(rest, 1);
    ShiftPicks(s, keep, f, r, rest);
    ShiftCovers(s, keep, f, r, rest);
  }

  lemma ShiftPicks<A, B>(s: seq<A>, keep: A -> bool, f: A -> B, r: seq<B>, rest: seq<nat>)
    requires |s| > 0
    requires |rest| == |r|
    requires forall k :: 0 <= k < |rest| ==> rest[k] < |s[1..]| && keep(s[1..][rest[k]]) && r[k] == f(s[1..][rest[k]])
    ensures forall k :: 0 <= k < |rest| ==>
      0 < Shifted(rest, 1)[k] < |s| && keep(s[Shifted(rest, 1)[k]]) && r[k] == f(s[Shifted(rest, 1)[k]])
  {
    forall k | 0 <= k < |rest| ensures s[Shifted(rest, 1)[k]] == s[1..][rest[k]] {
    }
  }

  lemma ShiftCovers<A, B>(s: seq<A>, keep: A -> bool, f: A -> B, r: seq<B>, rest: seq<nat>)
    requires |s| > 0
    requires forall i :: 0 <= i < |s[1..]| && keep(s[1..][i]) ==> i in rest
    ensures forall i :: 1 <= i < |s| && keep(s[i]) ==> i in Shifted(rest, 1)
  {
    var idx := Shifted(rest, 1);
    forall i | 1 <= i < |s| && keep(s[i]) ensures i in idx {
      assert s[1..][i - 1] == s[i];
      var k :| 0 <= k < |rest| && rest[k] == i - 1;
      assert idx[k] == i;
    }
  }

  /** A kept head goes in front of a selection from the rest. */
  lemma PrependSelects<A, B>(s: seq<A>, keep: A -> bool, f: A -> B, r: seq<B>, idx: seq<nat>)
    requires |s| > 0 && keep(s[0])
    requires |idx| == |r|
    requires forall k :: 0 <= k < |idx| ==> 0 < idx[k] < |s| && keep(s[idx[k]]) && r[k] == f(s[idx[k]])
    requires forall k, l :: 0 <= k < l < |idx| ==> idx[k] < idx[l]
    requires forall i :: 1 <= i < |s| && keep(s[i]) ==> i in idx
    ensures Selects(s, keep, f, [f(s[0])] + r, [0] + idx)
  {
    PrependPicks(s, keep, f, r, idx);
    PrependCovers(s, keep, idx);
  }

  lemma PrependPicks<A, B>(s: seq<A>, keep: A -> bool, f: A -> B, r: seq<B>, idx: seq<nat>)
    requires |s| > 0 && keep(s[0])
    requires |idx| == |r|
    requires forall k :: 0 <= k < |idx| ==> 0 < idx[k] < |s| && keep(s[idx[k]]) && r[k] == f(s[idx[k]])
    requires forall k, l :: 0 <= k < l < |idx| ==> idx[k] < idx[l]
    ensures forall k :: 0 <= k < |[0] + idx| ==>
      ([0] + idx)[k] < |s| && keep(s[([0] + idx)[k]]) && ([f(s[0])] + r)[k] == f(s[([0] + idx)[k]])
    ensures forall k, l :: 0 <= k < l < |[0] + idx| ==> ([0] + idx)[k] < ([0] + idx)[l]
  {
    var idx' := [0] + idx;
    var r' := [f(s[0])] + r;
    assert forall k :: 1 <= k < |idx'| ==> idx'[k] == idx[k - 1] && r'[k] == r[k - 1];
  }

  lemma PrependCovers<A>(s: seq<A>, keep: A -> bool, idx: seq<nat>)
    requires |s| > 0
    requires forall i :: 1 <= i < |s| && keep(s[i]) ==> i in idx
    ensures forall i :: 0 <= i < |s| && keep(s[i]) ==> i in [0] + idx
  {
    forall i | 0 <= i < |s| && keep(s[i]) ensures i in [0] + idx {
      if i > 0 {
        var k :| 0 <= k < |idx| && idx[k] == i;
        assert ([0] + idx)[k + 1] == i;
      }
    }
  }

  lemma FilterMapOrdered<A(!new), B(!new)>(s: seq<A>, keep: A -> bool, f: A -> B)
    ensures exists idx :: Selects(s, keep, f, FilterMap(s, keep, f), idx)
  {
    var idx := FilterMapSelects(s, keep, f);
  }

  /** Filtering and mapping commute with concatenation. */
  lemma {:induction false} FilterMapAppend<A(!new), B(!new)>(a: seq<A>, b: seq<A>, keep: A -> bool, f: A -> B)
    ensures FilterMap(a + b, keep, f) == FilterMap(a, keep, f) + FilterMap(b, keep, f)
    decreases |a|
  {
    if |a| == 0 {
      assert a + b == b;
    } else {
      assert (a + b)[1..] == a[1..] + b;
      FilterMapAppend(a[1..], b, keep, f);
    }
  }

  /** One element contributes its image when it is kept, nothing otherwise. */
  lemma FilterMapOne<A(!new), B(!new)>(x: A, keep: A -> bool, f: A -> B)
    ensures keep(x) ==> FilterMap([x], keep, f) == [f(x)]
    ensures !keep(x) ==> FilterMap([x], keep, f) == []
  {
    assert [x][1..] == [];
  }

  /** Filtering and mapping leave a sequence alone when every element is
      kept and mapped to itself. */
  lemma {:induction false} FilterMapKeepsAll<A(!new)>(s: seq<A>, keep: A -> bool, f: A -> A)
    requires forall i :: 0 <= i < |s| ==> keep(s[i]) && f(s[i]) == s[i]
    ensures FilterMap(s, keep, f) == s
    decreases |s|
  {
    if |s| > 0 {
      FilterMapKeepsAll(s[1..], keep, f);
      assert s == [s[0]] + s[1..];
    }
  }

  /** Index of the first element that satisfies `p`, or `|s|` when none does. */
  function FirstIndex<T>(s: seq<T>, p: T -> bool): (i: nat)
    ensures i <= |s|
    ensures i < |s| ==> p(s[i])
    ensures forall j :: 0 <= j < i ==> !p(s[j])
  {
    if |s| == 0 || p(s[0]) then 0
    else
      var i := FirstIndex(s[1..], p);
      assert forall j :: 1 <= j <= i ==> s[1..][j - 1] == s[j];
      1 + i
  }

  /** The lists `f` gives for the elements of `s`, concatenated in order. */
  function FlatMap<A, B>(s: seq<A>, f: A -> seq<B>): seq<B> {
    if |s| == 0 then [] else f(s[0]) + FlatMap(s[1..], f)
  }

  /** The lists of two runs of elements follow each other; one element
      contributes its own list. */
  lemma {:induction false} FlatMapAppend<A, B>(a: seq<A>, b: seq<A>, f: A -> seq<B>)
    ensures FlatMap(a + b, f) == FlatMap(a, f) + FlatMap(b, f)
    ensures |a| == 1 ==> FlatMap(a, f) == f(a[0])
    decreases |a|
  {
    if |a| == 0 {
      assert a + b == b;
    } else {
      assert (a + b)[0] == a[0] && (a + b)[1..] == a[1..] + b;
      FlatMapAppend(a[1..], b, f);
      assert |a| == 1 ==> a[1..] == [];
    }
  }

  /** An element of the result comes from the list of some element. */
  lemma {:induction false} FlatMapMembers<A, B>(s: seq<A>, f: A -> seq<B>)
    ensures forall y :: y in FlatMap(s, f) <==> exists i :: 0 <= i < |s| && y in f(s[i])
    decreases |s|
  {
    if |s| > 0 {
      FlatMapMembers(s[1..], f);
      assert forall i :: 1 <= i < |s| ==> s[1..][i - 1] == s[i];
    }
  }

  /** No element occurs twice. */
  predicate NoDup<T(==)>(s: seq<T>) {
    forall i, j :: 0 <= i < j < |s| ==> s[i] != s[j]
  }

  /** `for x in s: if x not in out: out.append(x)`: the distinct elements of
      `s`, each at its first occurrence. */
  function Distinct<T(==,!new)>(s: seq<T>): (r: seq<T>)
    ensures NoDup(r)
    ensures forall x :: x in r <==> x in s
    ensures exists idx :: FirstOccurrences(s, Id, r, idx)
  {
    var r := DedupBy(s, Id, {});
    forall x | x in s ensures x in r {
      DedupByCovers(s, Id, {}, x);
    }
    DedupByOrdered(s, Id, {});
    r
  }

  /** The identity, the key under which `Distinct` compares elements. */
  function Id<T>(x: T): T {
    x
  }

  lemma DedupByOrdered<T, K>(s: seq<T>, key: T -> K, seen: set<K>)
    ensures exists idx :: FirstOccurrences(s, key, DedupBy(s, key, seen), idx)
  {
    var idx := DedupByFirstOccurrence(s, key, seen);
  }
}
