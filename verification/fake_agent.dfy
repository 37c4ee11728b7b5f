/** funcs/fake_agent.py: random pauses, mouse jiggles and scrolls meant to
    look like a person. The random generator is an input: `rng(k)` is the
    k-th value its `random()` yields, and every draw, whatever primitive
    makes it, consumes one value. Which browser actions succeed is an
    input too; sleeping, moving and scrolling themselves are not
    modelled. */
module FakeAgent {
  import opened Wrappers

  /** A value of `random()`. */
  type Unit = x: real | 0.0 <= x < 1.0

  type Rng = nat -> Unit

  /** A drawn value and the position of the next unused draw. */
  datatype Drawn<T> = Drawn(value: T, next: nat)

  function Max(a: real, b: real): real {
    if a >= b then a else b
  }

  function Abs(n: int): nat {
    if n < 0 then -n else n
  }

  /** `d * u`: a fraction `u` of `d`. */
  function Scale(d: real, u: Unit): real {
    d * u
  }

  lemma ScaleBelow(d: real, u: Unit)
    requires d >= 0.0
    ensures 0.0 <= Scale(d, u)
    ensures Scale(d, u) <= d
  {
    var v := 1.0 - u;
    assert v > 0.0;
    assert d * v >= 0.0;
    assert d * v == d - d * u;
  }

  lemma ScaleNeg(d: real, u: Unit)
    ensures Scale(-d, u) == -Scale(d, u)
  {
  }

  /** `uniform(a, b)`, which is `a + (b - a) * random()`: a value between
      the two bounds, whichever is larger. */
  function Uniform(a: real, b: real, u: Unit): (x: real)
    ensures a <= b ==> a <= x <= b
    ensures b < a ==> b <= x <= a
  {
    if a <= b then
      ScaleBelow(b - a, u);
      a + Scale(b - a, u)
    else
      ScaleBelow(a - b, u);
      ScaleNeg(a - b, u);
      assert -(a - b) == b - a;
      a + Scale(b - a, u)
  }

  /** `randint(a, b)`: raises on an empty range, and is otherwise an
      integer of the range. How Python derives it from the generator's bits
      is not modelled; one draw is scaled onto the range. */
  function RandInt(a: int, b: int, u: Unit): (r: Option<int>)
    ensures r.None? <==> a > b
    ensures r.Some? ==> a <= r.value <= b
  {
    if a > b then None
    else
      var m := (b - a + 1) as real;
      ScaleBelow(m, u);
      var k := Scale(m, u).Floor;
      assert k as real <= Scale(m, u) < m;
      Some(a + k)
  }

  /** `choice([-1, 1])`. */
  function Sign(u: Unit): (d: int)
    ensures d == -1 || d == 1
  {
    if u < 0.5 then -1 else 1
  }

  // ---------------------------------------------------------------------
  // random_sleep

  /** `random_sleep(min_s, max_s, jitter, rng)` from draw `pos`: a uniform
      pause, plus a uniform jitter clamped at zero when `jitter` is
      positive. `time.sleep` raises on a negative length and that is caught
      and answered with 0.0, so the result is never negative. */
  function RandomSleep(minS: real, maxS: real, jitter: real, rng: Rng, pos: nat): (d: Drawn<real>)
    ensures d.value >= 0.0
    ensures d.next == pos + (if jitter > 0.0 then 2 else 1)
    ensures minS <= maxS && jitter > 0.0 ==> Max(0.0, minS - jitter) <= d.value <= Max(0.0, maxS + jitter)
    ensures minS <= maxS && jitter <= 0.0 ==> Max(0.0, minS) <= d.value <= Max(0.0, maxS)
  {
    var s := Uniform(minS, maxS, rng(pos));
    if jitter > 0.0 then
      var t := s + Uniform(-jitter, jitter, rng(pos + 1));
      Drawn(if t < 0.0 then 0.0 else t, pos + 2)
    else
      Drawn(if s < 0.0 then 0.0 else s, pos + 1)
  }

  /** Without jitter and with non-negative bounds, nothing is clamped: the
      pause is the first draw scaled onto the bounds. */
  lemma RandomSleepNoJitter(minS: real, maxS: real, jitter: real, rng: Rng, pos: nat)
    requires jitter <= 0.0 && 0.0 <= minS <= maxS
    ensures RandomSleep(minS, maxS, jitter, rng, pos).value == Uniform(minS, maxS, rng(pos))
  {
  }

  // ---------------------------------------------------------------------
  // hover_element

  predicate WithinOffset(o: (int, int), maxOffset: int) {
    -maxOffset <= o.0 <= maxOffset && -maxOffset <= o.1 <= maxOffset
  }

  /** `hover_element(driver, element, max_offset, moves, pause_min,
      pause_max, rng)`. `present` says the element is not `None`;
      `reached` says one of the two moves onto the element worked. The
      offsets of the jiggle moves are returned in order; a move that fails
      both ways is skipped silently and still listed. */
  method HoverElement(present: bool, reached: bool, maxOffset: int, moves: int, pauseMin: real, pauseMax: real, rng: Rng, pos: nat)
    returns (ok: bool, offsets: seq<(int, int)>, next: nat)
    ensures ok <==> present && reached && maxOffset >= 0
    ensures !ok ==> offsets == [] && next == pos
    ensures ok ==> |offsets| == (if moves > 1 then moves else 1)
    ensures forall i :: 0 <= i < |offsets| ==> WithinOffset(offsets[i], maxOffset)
  {
    if !present || !reached || maxOffset < 0 {
      return false, [], pos;
    }
    var count := if moves > 1 then moves else 1;
    offsets := [];
    var p := pos;
    var k := 0;
    while k < count
      invariant 0 <= k <= count && |offsets| == k
      invariant forall i :: 0 <= i < k ==> WithinOffset(offsets[i], maxOffset)
    {
      var x := RandInt(-maxOffset, maxOffset, rng(p));
      var y := RandInt(-maxOffset, maxOffset, rng(p + 1));
      offsets := offsets + [(x.value, y.value)];
      var pause := RandomSleep(pauseMin, pauseMax, 0.01, rng, p + 2);
      p := pause.next;
      k := k + 1;
    }
    var settle := RandomSleep(0.05, 0.18, 0.5, rng, p);
    return true, offsets, settle.next;
  }

  // ---------------------------------------------------------------------
  // random_scroll

  /** `x` is `px` or `-px` for some `px` from `minPx` to `maxPx`. */
  predicate ScrollAmount(x: int, minPx: int, maxPx: int) {
    (minPx <= x <= maxPx) || (minPx <= -x <= maxPx)
  }

  /** The offset of a jump to the top or the bottom of the page. */
  const Jump: int := 999999

  /** How many of the first `n` scroll requests the page took. */
  function Taken(scrolls: nat -> bool, n: int): (c: nat)
    ensures c <= (if n > 0 then n else 0)
    decreases if n > 0 then n else 0
  {
    if n <= 0 then 0 else Taken(scrolls, n - 1) + (if scrolls(n - 1) then 1 else 0)
  }

  /** The loop of `random_scroll`: `n` iterations from draw `pos`, each
      drawing a pixel count and a direction and, when the page took the
      scroll, recording it and pausing. `raised` says the first pixel draw
      raised (an empty pixel range), which ends the whole call. */
  method ScrollLoop(n: int, minPx: int, maxPx: int, delayMin: real, delayMax: real,
                    scrolls: nat -> bool, rng: Rng, pos: nat)
    returns (results: seq<int>, raised: bool, next: nat)
    ensures raised <==> n > 0 && minPx > maxPx
    ensures raised ==> results == []
    ensures !raised ==> |results| == Taken(scrolls, n)
    ensures forall i :: 0 <= i < |results| ==> ScrollAmount(results[i], minPx, maxPx)
  {
    results := [];
    var p: nat := pos;
    var k := 0;
    while k < n
      invariant 0 <= k <= (if n > 0 then n else 0)
      invariant minPx > maxPx ==> k == 0
      invariant |results| == Taken(scrolls, k)
      invariant forall i :: 0 <= i < |results| ==> ScrollAmount(results[i], minPx, maxPx)
    {
      var px := RandInt(minPx, maxPx, rng(p));
      if px.None? {
        return results, true, p;
      }
      var direction := Sign(rng(p + 1));
      p := p + 2;
      if scrolls(k) {
        assert direction * px.value == if direction == 1 then px.value else -px.value;
        results := results + [direction * px.value];
        var pause := RandomSleep(delayMin, delayMax, 0.05, rng, p);
        p := pause.next;
      }
      k := k + 1;
    }
    assert k == if n > 0 then n else 0;
    return results, false, p;
  }

  /** `random_scroll(driver, min_scrolls, max_scrolls, min_px, max_px,
      delay_min, delay_max, rng)`. `scrolls(k)` says one of the two scroll
      scripts of iteration `k` worked; `jumps` says the final jump script
      worked. The result lists the signed pixel counts scrolled: one entry
      per iteration the page took, each of `min_px` to `max_px` pixels
      either way, then possibly one jump entry. */
  method RandomScroll(minScrolls: int, maxScrolls: int, minPx: int, maxPx: int, delayMin: real, delayMax: real,
                      scrolls: nat -> bool, jumps: bool, rng: Rng, pos: nat)
    returns (results: seq<int>, next: nat)
    ensures minScrolls > maxScrolls ==> results == []
    ensures minScrolls <= maxScrolls ==> |results| <= (if maxScrolls > 0 then maxScrolls else 0) + 1
    ensures forall i :: 0 <= i < |results| - 1 ==> ScrollAmount(results[i], minPx, maxPx)
    ensures |results| > 0 ==> ScrollAmount(results[|results| - 1], minPx, maxPx) || Abs(results[|results| - 1]) == Jump
    ensures minPx > maxPx ==> |results| <= 1
    ensures minScrolls <= maxScrolls && minPx <= maxPx ==>
      exists n :: minScrolls <= n <= maxScrolls && Taken(scrolls, n) <= |results| <= Taken(scrolls, n) + 1
  {
    var n := RandInt(minScrolls, maxScrolls, rng(pos));
    if n.None? {
      return [], pos;
    }
    var raised, p;
    results, raised, p := ScrollLoop(n.value, minPx, maxPx, delayMin, delayMax, scrolls, rng, pos + 1);
    if raised {
      return results, p;
    }
    ghost var looped := results;
    if rng(p) < 0.15 {
      var up := rng(p + 1) < 0.5;
      p := p + 2;
      if jumps {
        results := results + [if up then -Jump else Jump];
        var pause := RandomSleep(0.3, 0.9, 0.5, rng, p);
        p := pause.next;
      }
    } else {
      p := p + 1;
    }
    assert results == looped || results == looped + [results[|results| - 1]];
    assert |looped| == Taken(scrolls, n.value);
    return results, p;
  }
}
