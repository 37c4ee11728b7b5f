/** click_fn.py: `click`, the attempts of `auto_click` without a callback;
    the retry notices are printed instead, and nothing else is. */
module ClickFn {
  import C = Click

  /** `click(driver, xpath, time, retries)`; `log` holds the printed
      notices. */
  function Click(retries: int, works: (nat, C.Strategy) -> bool): (r: C.Run)
    ensures retries <= 0 ==> !r.ok && r.tries == [] && r.log == []
  {
    C.Attempts(0, retries, works, C.Stdout)
  }

  /** Where the messages go changes neither the result nor the tries. */
  lemma {:induction false} ChannelIrrelevant(a: nat, retries: int, works: (nat, C.Strategy) -> bool, ch: C.Channel, ch': C.Channel)
    ensures C.Attempts(a, retries, works, ch).ok == C.Attempts(a, retries, works, ch').ok
    ensures C.Attempts(a, retries, works, ch).tries == C.Attempts(a, retries, works, ch').tries
    decreases retries - a
  {
    if a < retries && !C.Works(a, works) {
      ChannelIrrelevant(a + 1, retries, works, ch, ch');
    }
  }

  /** `click` and `auto_click` click the same way and return the same
      result, with or without a callback. */
  lemma ClickAsAutoClick(retries: int, works: (nat, C.Strategy) -> bool, logging: bool)
    ensures Click(retries, works).ok == C.AutoClick(retries, works, logging).ok
    ensures Click(retries, works).tries == C.AutoClick(retries, works, logging).tries
  {
    ChannelIrrelevant(0, retries, works, C.Stdout, if logging then C.Callback else C.Silent);
  }

  /** `True` iff one of the `retries` attempts has a working strategy; the
      tries walk the strategies in order, stop at the first success and
      stay below attempt `retries`. */
  lemma ClickResult(retries: int, works: (nat, C.Strategy) -> bool)
    ensures var r := Click(retries, works);
      && (r.ok <==> exists b :: 0 <= b < retries && C.Works(b, works))
      && C.Walk(r.tries, 0, retries, r.ok, works)
      && forall i :: 0 <= i < |r.tries| ==> r.tries[i].attempt < retries
  {
    ClickAsAutoClick(retries, works, false);
    C.AutoClickSucceedsIff(retries, works, false);
    C.AutoClickTries(retries, works, false);
  }

  /** Every printed line is a retry or not-found notice, and a retry notice
      is printed for exactly the attempts made after the first. */
  lemma {:induction false} AttemptsPrint(a: nat, retries: int, works: (nat, C.Strategy) -> bool, b: nat)
    ensures var out := C.Attempts(a, retries, works, C.Stdout).log;
      && (forall i :: 0 <= i < |out| ==> out[i].Retrying? || out[i].NotFoundRetrying?)
      && (C.Retrying(b + 1, retries) in out <==> 0 < b && C.Reached(b, a, retries, works))
    decreases retries - a
  {
    var out := C.Attempts(a, retries, works, C.Stdout).log;
    if a < retries {
      var retry := if a > 0 then [C.Retrying(a + 1, retries)] else [];
      if C.Works(a, works) {
        assert out == retry;
        assert C.Reached(b, a, retries, works) ==> b == a;
      } else {
        var rest := C.Attempts(a + 1, retries, works, C.Stdout).log;
        AttemptsPrint(a + 1, retries, works, b);
        var notFound := if a < retries - 1 then [C.NotFoundRetrying] else [];
        assert out == retry + notFound + rest;
        assert C.Reached(b, a, retries, works) <==> b == a || C.Reached(b, a + 1, retries, works);
      }
    }
  }

  lemma ClickPrints(retries: int, works: (nat, C.Strategy) -> bool, b: nat)
    ensures var out := Click(retries, works).log;
      && (forall i :: 0 <= i < |out| ==> out[i].Retrying? || out[i].NotFoundRetrying?)
      && (C.Retrying(b + 1, retries) in out <==> 0 < b && C.Reached(b, 0, retries, works))
  {
    AttemptsPrint(0, retries, works, b);
  }
}
