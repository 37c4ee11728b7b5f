/** funcs/click.py: `auto_click`, a click retried over several attempts,
    each trying three strategies in turn, with progress reported to an
    optional callback. click_fn.py runs the same attempts and reports on
    standard output instead.
    The browser is an input: `works(a, s)` says whether strategy `s` got
    through its wait, scroll and click without raising during attempt `a`
    (counted from 0). Waiting, scrolling and the XPath are not modelled. */
module Click {
  import opened Strs

  /** The three ways of clicking, in the order an attempt tries them:
      wait until clickable and click; wait until present, centre and click;
      wait until present and click from JavaScript. */
  datatype Strategy = Clickable | Centered | ScriptClick

  /** One strategy tried during one attempt. */
  datatype Try = Try(attempt: nat, strategy: Strategy)

  /** The messages reported. */
  datatype Msg =
    | Retrying(attempt: nat, retries: int)
    | Clicked(strategy: Strategy)
    | NotFoundRetrying
    | GaveUp(retries: int)

  /** The text of each message. */
  function Text(m: Msg): string {
    match m
    case Retrying(a, n) => "Đang thử lại lần " + IntStr(a) + "/" + IntStr(n) + "..."
    case Clicked(Clickable) => "Đã click thành công"
    case Clicked(Centered) => "Đã click thành công (phương án 2)"
    case Clicked(ScriptClick) => "Đã click thành công (JavaScript)"
    case NotFoundRetrying => "Không tìm thấy phần tử, đang thử lại..."
    case GaveUp(n) => "Không thể click sau " + IntStr(n) + " lần thử"
  }

  /** Where messages go: nowhere (`log_callback` is `None`), to the
      callback (every message), or to standard output (click_fn.py, which
      prints only the retry notices). */
  datatype Channel = Silent | Callback | Stdout

  function Report(ch: Channel, m: Msg): (out: seq<Msg>)
    ensures ch.Silent? ==> out == []
    ensures ch.Callback? ==> out == [m]
    ensures ch.Stdout? ==> (out == [m] <==> m.Retrying? || m.NotFoundRetrying?)
  {
    match ch
    case Silent => []
    case Callback => [m]
    case Stdout => if m.Retrying? || m.NotFoundRetrying? then [m] else []
  }

  /** Standard output gets exactly the retry notices: one copy of a
      notice, and nothing for any other message. */
  lemma StdoutOnlyNotices(m: Msg)
    ensures m.Retrying? || m.NotFoundRetrying? ==> Report(Stdout, m) == [m]
    ensures !(m.Retrying? || m.NotFoundRetrying?) ==> Report(Stdout, m) == []
  {
  }

  predicate Succeeds(t: Try, works: (nat, Strategy) -> bool) {
    works(t.attempt, t.strategy)
  }

  /** Some strategy of attempt `a` succeeds. */
  predicate Works(a: nat, works: (nat, Strategy) -> bool) {
    works(a, Clickable) || works(a, Centered) || works(a, ScriptClick)
  }

  /** The strategies attempt `a` tries: each one only when all before it
      failed. */
  function AttemptTries(a: nat, works: (nat, Strategy) -> bool): (ts: seq<Try>)
    ensures 1 <= |ts| <= 3
  {
    if works(a, Clickable) then [Try(a, Clickable)]
    else if works(a, Centered) then [Try(a, Clickable), Try(a, Centered)]
    else [Try(a, Clickable), Try(a, Centered), Try(a, ScriptClick)]
  }

  /** What a run did: its result, the strategies it tried in order and the
      messages it reported. */
  datatype Run = Run(ok: bool, tries: seq<Try>, log: seq<Msg>)

  /** The attempts from `a` to `retries - 1`: the first attempt with a
      working strategy returns `True`; after the last one fails the run
      gives up. Before attempt `a > 0` a retry notice goes out; after a
      failed attempt that is not the last, a not-found notice. */
  function Attempts(a: nat, retries: int, works: (nat, Strategy) -> bool, ch: Channel): (r: Run)
    ensures ch.Silent? ==> r.log == []
    ensures a >= retries ==> !r.ok && r.tries == []
    decreases retries - a
  {
    if a >= retries then Run(false, [], Report(ch, GaveUp(retries)))
    else
      var ts := AttemptTries(a, works);
      var retry := if a > 0 then Report(ch, Retrying(a + 1, retries)) else [];
      if Works(a, works) then Run(true, ts, retry + Report(ch, Clicked(ts[|ts| - 1].strategy)))
      else
        var rest := Attempts(a + 1, retries, works, ch);
        var notFound := if a < retries - 1 then Report(ch, NotFoundRetrying) else [];
        Run(rest.ok, ts + rest.tries, retry + notFound + rest.log)
  }

  /** `auto_click(driver, xpath, time, retries, log_callback)`; `logging`
      says whether a callback was given. */
  function AutoClick(retries: int, works: (nat, Strategy) -> bool, logging: bool): (r: Run)
    ensures retries <= 0 ==> !r.ok && r.tries == []
    ensures retries <= 0 && logging ==> r.log == [GaveUp(retries)]
    ensures !logging ==> r.log == []
  {
    Attempts(0, retries, works, if logging then Callback else Silent)
  }

  // ---------------------------------------------------------------------
  // The result

  /** The run succeeds exactly when some attempt left has a working
      strategy. */
  lemma {:induction false} AttemptsSucceedIff(a: nat, retries: int, works: (nat, Strategy) -> bool, ch: Channel)
    ensures Attempts(a, retries, works, ch).ok <==> exists b :: a <= b < retries && Works(b, works)
    decreases retries - a
  {
    if a < retries && !Works(a, works) {
      AttemptsSucceedIff(a + 1, retries, works, ch);
      assert forall b :: a <= b < retries && Works(b, works) ==> a + 1 <= b;
    }
  }

  /** `auto_click` returns `True` iff one of its `retries` attempts has a
      working strategy. */
  lemma AutoClickSucceedsIff(retries: int, works: (nat, Strategy) -> bool, logging: bool)
    ensures AutoClick(retries, works, logging).ok <==> exists b :: 0 <= b < retries && Works(b, works)
  {
    AttemptsSucceedIff(0, retries, works, if logging then Callback else Silent);
  }

  // ---------------------------------------------------------------------
  // The order of the tries

  /** The try after `t` when `t` fails: the next strategy of the same
      attempt, or the first strategy of the next attempt. */
  function Next(t: Try): Try {
    match t.strategy
    case Clickable => Try(t.attempt, Centered)
    case Centered => Try(t.attempt, ScriptClick)
    case ScriptClick => Try(t.attempt + 1, Clickable)
  }

  /** The tries of a run walk the strategies in order, one step at a time,
      from the first strategy of the first attempt; every try but the last
      fails; the last succeeds exactly when the run does, and a failed run
      ends with the last strategy of the last attempt. */
  predicate Walk(ts: seq<Try>, a: nat, retries: int, ok: bool, works: (nat, Strategy) -> bool) {
    && (a >= retries ==> ts == [])
    && (a < retries ==> |ts| > 0 && ts[0] == Try(a, Clickable))
    && (forall i :: 0 <= i < |ts| - 1 ==> !Succeeds(ts[i], works) && ts[i + 1] == Next(ts[i]))
    && (|ts| > 0 ==> (ok <==> Succeeds(ts[|ts| - 1], works)))
    && (|ts| > 0 && !ok ==> ts[|ts| - 1] == Try(retries - 1, ScriptClick))
  }

  lemma AttemptTriesWalk(a: nat, retries: int, works: (nat, Strategy) -> bool)
    requires a < retries
    ensures var ts := AttemptTries(a, works);
      && ts[0] == Try(a, Clickable)
      && (forall i :: 0 <= i < |ts| - 1 ==> !Succeeds(ts[i], works) && ts[i + 1] == Next(ts[i]))
      && (Works(a, works) <==> Succeeds(ts[|ts| - 1], works))
      && (!Works(a, works) ==> ts[|ts| - 1] == Try(a, ScriptClick))
  {
  }

  lemma {:induction false} AttemptsWalk(a: nat, retries: int, works: (nat, Strategy) -> bool, ch: Channel)
    ensures var r := Attempts(a, retries, works, ch);
      Walk(r.tries, a, retries, r.ok, works)
    decreases retries - a
  {
    if a < retries {
      if Works(a, works) {
        WalkHit(a, retries, works, ch);
      } else {
        AttemptsWalk(a + 1, retries, works, ch);
        WalkMiss(a, retries, works, ch);
      }
    }
  }

  /** A run whose first attempt works walks that attempt's tries. */
  lemma WalkHit(a: nat, retries: int, works: (nat, Strategy) -> bool, ch: Channel)
    requires a < retries && Works(a, works)
    ensures var r := Attempts(a, retries, works, ch);
      Walk(r.tries, a, retries, r.ok, works)
  {
    AttemptTriesWalk(a, retries, works);
  }

  /** A run whose first attempt fails walks that attempt's tries, then the
      walk of the rest of the run. */
  lemma WalkMiss(a: nat, retries: int, works: (nat, Strategy) -> bool, ch: Channel)
    requires a < retries && !Works(a, works)
    requires var rest := Attempts(a + 1, retries, works, ch);
      Walk(rest.tries, a + 1, retries, rest.ok, works)
    ensures var r := Attempts(a, retries, works, ch);
      Walk(r.tries, a, retries, r.ok, works)
  {
    var ts := AttemptTries(a, works);
    AttemptTriesWalk(a, retries, works);
    var rest := Attempts(a + 1, retries, works, ch);
    assert ts + rest.tries == Attempts(a, retries, works, ch).tries;
    if a + 1 < retries {
      WalkConcat(ts, rest.tries, a, retries, rest.ok, works);
    } else {
      assert rest.tries == [];
      assert ts + rest.tries == ts;
    }
  }

  /** A failed attempt's walk followed by the walk of the attempts after
      it is the walk from that attempt. */
  lemma WalkConcat(ts: seq<Try>, rest: seq<Try>, a: nat, retries: int, ok: bool, works: (nat, Strategy) -> bool)
    requires a + 1 < retries
    requires |ts| > 0 && ts[0] == Try(a, Clickable)
    requires forall i :: 0 <= i < |ts| - 1 ==> !Succeeds(ts[i], works) && ts[i + 1] == Next(ts[i])
    requires !Succeeds(ts[|ts| - 1], works) && ts[|ts| - 1] == Try(a, ScriptClick)
    requires Walk(rest, a + 1, retries, ok, works)
    ensures Walk(ts + rest, a, retries, ok, works)
  {
    var all := ts + rest;
    assert Next(ts[|ts| - 1]) == rest[0];
    forall i | 0 <= i < |all| - 1
      ensures !Succeeds(all[i], works) && all[i + 1] == Next(all[i])
    {
      if i + 1 < |ts| {
      } else if i + 1 == |ts| {
        assert all[i] == ts[|ts| - 1] && all[i + 1] == rest[0];
      } else {
        assert all[i] == rest[i - |ts|] && all[i + 1] == rest[i - |ts| + 1];
      }
    }
    assert all[|all| - 1] == rest[|rest| - 1];
  }

  /** `auto_click`'s tries: in order, stopping at the first success, and
      never beyond attempt `retries - 1`. */
  lemma AutoClickTries(retries: int, works: (nat, Strategy) -> bool, logging: bool)
    ensures var r := AutoClick(retries, works, logging);
      && Walk(r.tries, 0, retries, r.ok, works)
      && forall i :: 0 <= i < |r.tries| ==> r.tries[i].attempt < retries
  {
    var ch := if logging then Callback else Silent;
    var r := Attempts(0, retries, works, ch);
    AttemptsWalk(0, retries, works, ch);
    AttemptsBounded(0, retries, works, ch);
  }

  lemma {:induction false} AttemptsBounded(a: nat, retries: int, works: (nat, Strategy) -> bool, ch: Channel)
    ensures forall i :: 0 <= i < |Attempts(a, retries, works, ch).tries| ==>
      a <= Attempts(a, retries, works, ch).tries[i].attempt < retries
    decreases retries - a
  {
    if a < retries {
      var ts := AttemptTries(a, works);
      assert forall i :: 0 <= i < |ts| ==> ts[i].attempt == a;
      if !Works(a, works) {
        AttemptsBounded(a + 1, retries, works, ch);
        var rest := Attempts(a + 1, retries, works, ch).tries;
        assert Attempts(a, retries, works, ch).tries == ts + rest;
        BoundedConcat(ts, rest, a, retries);
      }
    }
  }

  /** The tries of attempt `a` followed by tries of later attempts in
      range stay in range. */
  lemma BoundedConcat(ts: seq<Try>, rest: seq<Try>, a: nat, retries: int)
    requires a < retries
    requires forall i :: 0 <= i < |ts| ==> ts[i].attempt == a
    requires forall i :: 0 <= i < |rest| ==> a + 1 <= rest[i].attempt < retries
    ensures forall i :: 0 <= i < |ts + rest| ==> a <= (ts + rest)[i].attempt < retries
  {
    forall i | 0 <= i < |ts + rest| ensures a <= (ts + rest)[i].attempt < retries {
      if i < |ts| {
        assert (ts + rest)[i] == ts[i];
      } else {
        assert (ts + rest)[i] == rest[i - |ts|];
      }
    }
  }

  // ---------------------------------------------------------------------
  // The messages

  /** Attempt `b` is made by a run starting at `a`: it is in range and all
      attempts before it failed. */
  predicate Reached(b: nat, a: nat, retries: int, works: (nat, Strategy) -> bool) {
    a <= b < retries && forall c :: a <= c < b ==> !Works(c, works)
  }

  /** One attempt's share of the callback log: the retry notice (after
      the first attempt), then the success notice, or the not-found notice
      (unless it was the last attempt) followed by the rest of the run. */
  lemma CallbackLogStep(a: nat, retries: int, works: (nat, Strategy) -> bool)
    requires a < retries
    ensures var r := Attempts(a, retries, works, Callback);
      var ts := AttemptTries(a, works);
      var retry := if a > 0 then [Retrying(a + 1, retries)] else [];
      var notFound := if a < retries - 1 then [NotFoundRetrying] else [];
      && (Works(a, works) ==> r.ok && r.tries == ts && r.log == retry + [Clicked(ts[|ts| - 1].strategy)])
      && (!Works(a, works) ==>
            var rest := Attempts(a + 1, retries, works, Callback);
            r.ok == rest.ok && r.tries == ts + rest.tries && r.log == retry + notFound + rest.log)
  {
  }

  /** With a callback, a retry notice goes out for every attempt made
      after the first, and for no other. */
  lemma {:induction false} AttemptsRetryLog(a: nat, retries: int, works: (nat, Strategy) -> bool, b: nat)
    ensures Retrying(b + 1, retries) in Attempts(a, retries, works, Callback).log <==> 0 < b && Reached(b, a, retries, works)
    decreases retries - a
  {
    if a < retries {
      CallbackLogStep(a, retries, works);
      if Works(a, works) {
        RetryLogHit(a, retries, works, b);
      } else {
        AttemptsRetryLog(a + 1, retries, works, b);
        RetryLogMiss(a, retries, works, b);
      }
    }
  }

  lemma RetryLogHit(a: nat, retries: int, works: (nat, Strategy) -> bool, b: nat)
    requires a < retries && Works(a, works)
    requires var ts := AttemptTries(a, works);
      Attempts(a, retries, works, Callback).log == (if a > 0 then [Retrying(a + 1, retries)] else []) + [Clicked(ts[|ts| - 1].strategy)]
    ensures Retrying(b + 1, retries) in Attempts(a, retries, works, Callback).log <==> 0 < b && Reached(b, a, retries, works)
  {
    assert Reached(b, a, retries, works) ==> b == a;
  }

  lemma RetryLogMiss(a: nat, retries: int, works: (nat, Strategy) -> bool, b: nat)
    requires a < retries && !Works(a, works)
    requires Attempts(a, retries, works, Callback).log ==
      (if a > 0 then [Retrying(a + 1, retries)] else []) + (if a < retries - 1 then [NotFoundRetrying] else [])
      + Attempts(a + 1, retries, works, Callback).log
    requires Retrying(b + 1, retries) in Attempts(a + 1, retries, works, Callback).log <==> 0 < b && Reached(b, a + 1, retries, works)
    ensures Retrying(b + 1, retries) in Attempts(a, retries, works, Callback).log <==> 0 < b && Reached(b, a, retries, works)
  {
    assert Reached(b, a, retries, works) <==> b == a || Reached(b, a + 1, retries, works);
  }

  /** With a callback, the last message is the give-up notice when the run
      fails (and it appears nowhere else), and the success notice naming
      the strategy that worked when the run succeeds. */
  lemma {:induction false} AttemptsEndLog(a: nat, retries: int, works: (nat, Strategy) -> bool)
    ensures var r := Attempts(a, retries, works, Callback);
      && |r.log| > 0
      && (GaveUp(retries) in r.log <==> !r.ok)
      && (!r.ok ==> r.log[|r.log| - 1] == GaveUp(retries))
      && (r.ok ==> |r.tries| > 0 && r.log[|r.log| - 1] == Clicked(r.tries[|r.tries| - 1].strategy))
    decreases retries - a
  {
    if a < retries {
      CallbackLogStep(a, retries, works);
      if !Works(a, works) {
        AttemptsEndLog(a + 1, retries, works);
        EndLogMiss(a, retries, works);
      }
    }
  }

  lemma EndLogMiss(a: nat, retries: int, works: (nat, Strategy) -> bool)
    requires a < retries && !Works(a, works)
    requires var r := Attempts(a, retries, works, Callback);
      var rest := Attempts(a + 1, retries, works, Callback);
      && r.ok == rest.ok && r.tries == AttemptTries(a, works) + rest.tries
      && r.log == (if a > 0 then [Retrying(a + 1, retries)] else []) + (if a < retries - 1 then [NotFoundRetrying] else []) + rest.log
    requires var rest := Attempts(a + 1, retries, works, Callback);
      && |rest.log| > 0
      && (GaveUp(retries) in rest.log <==> !rest.ok)
      && (!rest.ok ==> rest.log[|rest.log| - 1] == GaveUp(retries))
      && (rest.ok ==> |rest.tries| > 0 && rest.log[|rest.log| - 1] == Clicked(rest.tries[|rest.tries| - 1].strategy))
    ensures var r := Attempts(a, retries, works, Callback);
      && |r.log| > 0
      && (GaveUp(retries) in r.log <==> !r.ok)
      && (!r.ok ==> r.log[|r.log| - 1] == GaveUp(retries))
      && (r.ok ==> |r.tries| > 0 && r.log[|r.log| - 1] == Clicked(r.tries[|r.tries| - 1].strategy))
  {
    var r := Attempts(a, retries, works, Callback);
    var rest := Attempts(a + 1, retries, works, Callback);
    var head := (if a > 0 then [Retrying(a + 1, retries)] else []) + (if a < retries - 1 then [NotFoundRetrying] else []);
    assert GaveUp(retries) !in head;
    assert r.log == head + rest.log;
    if r.ok {
      assert r.tries[|r.tries| - 1] == rest.tries[|rest.tries| - 1];
    }
  }

  /** `auto_click`'s messages with a callback given. */
  lemma AutoClickLog(retries: int, works: (nat, Strategy) -> bool, b: nat)
    ensures var r := AutoClick(retries, works, true);
      && (Retrying(b + 1, retries) in r.log <==> 0 < b && Reached(b, 0, retries, works))
      && (GaveUp(retries) in r.log <==> !r.ok)
      && (r.ok ==> r.log[|r.log| - 1] == Clicked(r.tries[|r.tries| - 1].strategy))
  {
    AttemptsRetryLog(0, retries, works, b);
    AttemptsEndLog(0, retries, works);
  }
}
