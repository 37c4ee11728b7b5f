/** The two partitioning schemes of the scripts:
    round-robin (`chunks[idx % n].append(f)` over an enumeration) and
    contiguous slicing (`[xs[i:i + size] for i in range(0, len(xs), size)]`). */
module Chunking {

  lemma MulAtLeast(x: int, n: int)
    requires x >= 1 && n >= 1
    ensures x * n >= n
    decreases x
  {
    if x > 1 {
      MulAtLeast(x - 1, n);
      assert x * n == (x - 1) * n + n;
    }
  }

  lemma MulSub(a: int, b: int, n: int)
    ensures (a - b) * n == a * n - b * n
  {
  }

  /** Division with remainder is unique. */
  lemma DivModUnique(a: int, n: int, q: int, r: int)
    requires n >= 1 && 0 <= r < n && a == q * n + r
    ensures a / n == q && a % n == r
  {
    var q', r' := a / n, a % n;
    assert a == q' * n + r';
    if q' > q {
      MulSub(q', q, n);
      MulAtLeast(q' - q, n);
    } else if q' < q {
      MulSub(q, q', n);
      MulAtLeast(q - q', n);
    }
  }

  /** How quotient and remainder move when the dividend grows by one. */
  lemma DivModStep(m: nat, n: nat)
    requires n >= 1
    ensures m % n + 1 < n ==> (m + 1) / n == m / n && (m + 1) % n == m % n + 1
    ensures m % n + 1 == n ==> (m + 1) / n == m / n + 1 && (m + 1) % n == 0
  {
    if m % n + 1 < n {
      DivModUnique(m + 1, n, m / n, m % n + 1);
    } else {
      DivModUnique(m + 1, n, m / n + 1, 0);
    }
  }

  /** Round-robin assignment: the Python loop
      `for idx, f in enumerate(xs): chunks[idx % n].append(f)`
      over `n` initially empty chunks, written as a recursion on prefixes.
      Element `i` lands in chunk `i % n` at position `i / n`, and chunk `k`
      holds `|xs| / n` elements plus one when `k < |xs| % n`. */
  function RoundRobin<T>(xs: seq<T>, n: nat): (chunks: seq<seq<T>>)
    requires n >= 1
    ensures |chunks| == n
    ensures forall k :: 0 <= k < n ==> |chunks[k]| == |xs| / n + (if k < |xs| % n then 1 else 0)
    ensures forall i :: 0 <= i < |xs| ==> i / n < |chunks[i % n]| && chunks[i % n][i / n] == xs[i]
    decreases |xs|
  {
    if |xs| == 0 then Empties(n)
    else
      var m := |xs| - 1;
      var c := RoundRobin(xs[..m], n);
      var k := m % n;
      var r := c[k := c[k] + [xs[m]]];
      DivModStep(m, n);
      assert forall i :: 0 <= i < m ==> xs[..m][i] == xs[i];
      r
  }

  /** Round-robin sizes differ by at most one. */
  lemma RoundRobinBalanced<T>(xs: seq<T>, n: nat, k: nat, l: nat)
    requires n >= 1 && k < n && l < n
    ensures |RoundRobin(xs, n)[k]| <= |RoundRobin(xs, n)[l]| + 1
  {
  }

  /** The converse placement: position `j` of chunk `k` holds element
      `j * n + k`, so every element of every chunk is one input element and
      the assignment is a bijection between input indices and chunk slots. */
  lemma RoundRobinSlot<T>(xs: seq<T>, n: nat, k: nat, j: nat)
    requires n >= 1 && k < n && j < |RoundRobin(xs, n)[k]|
    ensures j * n + k < |xs| && RoundRobin(xs, n)[k][j] == xs[j * n + k]
  {
    SlotInRange(|xs|, n, k, j);
    DivModUnique(j * n + k, n, j, k);
  }

  lemma SlotInRange(len: nat, n: nat, k: nat, j: nat)
    requires n >= 1 && k < n && j < len / n + (if k < len % n then 1 else 0)
    ensures j * n + k < len
  {
    var q, r := len / n, len % n;
    if j < q {
      MulSub(q, j, n);
      MulAtLeast(q - j, n);
    }
  }

  /** Concatenation of a sequence of sequences. */
  function Flatten<T>(xss: seq<seq<T>>): seq<T>
  {
    if |xss| == 0 then [] else xss[0] + Flatten(xss[1..])
  }

  lemma {:induction false} FlattenUpdateAppend<T>(c: seq<seq<T>>, k: nat, x: T)
    requires k < |c|
    ensures multiset(Flatten(c[k := c[k] + [x]])) == multiset(Flatten(c)) + multiset{x}
    decreases |c|
  {
    var c' := c[k := c[k] + [x]];
    if k == 0 {
      assert c'[1..] == c[1..];
    } else {
      assert c'[1..] == c[1..][k - 1 := c[1..][k - 1] + [x]];
      FlattenUpdateAppend(c[1..], k - 1, x);
    }
  }

  /** `[[] for _ in range(n)]`. */
  function Empties<T>(n: nat): (r: seq<seq<T>>)
    ensures |r| == n && forall k :: 0 <= k < n ==> r[k] == []
  {
    seq(n, _ => [])
  }

  lemma {:induction false} FlattenEmpties<T>(n: nat)
    ensures Flatten(Empties<T>(n)) == []
    decreases n
  {
    if n > 0 {
      assert Empties<T>(n)[1..] == Empties<T>(n - 1);
      FlattenEmpties<T>(n - 1);
    }
  }

  /** Round-robin assignment neither loses nor duplicates an element: the
      chunks together hold exactly the input, as a multiset. */
  lemma {:induction false} RoundRobinPermutation<T>(xs: seq<T>, n: nat)
    requires n >= 1
    ensures multiset(Flatten(RoundRobin(xs, n))) == multiset(xs)
    decreases |xs|
  {
    if |xs| == 0 {
      FlattenEmpties<T>(n);
    } else {
      var m := |xs| - 1;
      RoundRobinPermutation(xs[..m], n);
      AppendKeepsPermutation(RoundRobin(xs[..m], n), m % n, xs);
    }
  }

  /** Appending the last element of `xs` to one chunk of a permutation of
      the rest of `xs` gives a permutation of `xs`. */
  lemma AppendKeepsPermutation<T>(c: seq<seq<T>>, k: nat, xs: seq<T>)
    requires |xs| > 0 && k < |c|
    requires multiset(Flatten(c)) == multiset(xs[..|xs| - 1])
    ensures multiset(Flatten(c[k := c[k] + [xs[|xs| - 1]]])) == multiset(xs)
  {
    var m := |xs| - 1;
    FlattenUpdateAppend(c, k, xs[m]);
    assert xs == xs[..m] + [xs[m]];
  }

  /** Contiguous slicing `[xs[i:i + size] for i in range(0, len(xs), size)]`:
      ceil(|xs| / size) slices, each full except possibly the last, whose
      concatenation is `xs`. */
  function Slices<T>(xs: seq<T>, size: nat): (r: seq<seq<T>>)
    requires size >= 1
    ensures Flatten(r) == xs
    ensures |r| == (|xs| + size - 1) / size
    ensures forall j :: 0 <= j < |r| ==> 1 <= |r[j]| <= size
    ensures forall j :: 0 <= j < |r| - 1 ==> |r[j]| == size
    decreases |xs|
  {
    if |xs| == 0 then
      DivModUnique(size - 1, size, 0, size - 1);
      []
    else if |xs| <= size then
      DivModUnique(|xs| + size - 1, size, 1, |xs| - 1);
      [xs]
    else
      var rest := Slices(xs[size..], size);
      var a := |xs| - 1;
      DivModUnique(a + size, size, a / size + 1, a % size);
      assert xs[..size] + xs[size..] == xs;
      [xs[..size]] + rest
  }
}
