/** The name-fallback cascades of the extractors: try sources in order
    (an element's text, a child's text, an `alt`, a `title`, an
    `aria-label` ...) and keep the first one that is not blank, stripped.
    A source that is absent, or whose read raised and was swallowed, is
    `None`. */
module Fallback {
  import opened Wrappers
  import opened Strs

  /** An absent or all-whitespace value (`(... or '').strip()` is empty,
      see `Strs.StripBlank`). */
  predicate Blank(v: Option<string>) {
    AllSpace(v.GetOr(""))
  }

  predicate AllBlank(values: seq<Option<string>>) {
    forall i :: 0 <= i < |values| ==> Blank(values[i])
  }

  /** The first value, in order, that is not blank, stripped. */
  function FirstNonBlank(values: seq<Option<string>>): (r: Option<string>)
    ensures r.None? <==> AllBlank(values)
    ensures r.Some? ==> r.value != "" && Trimmed(r.value)
  {
    if |values| == 0 then None
    else if !Blank(values[0]) then
      StripBlank(values[0].GetOr(""));
      Some(Strip(values[0].GetOr("")))
    else
      assert forall j :: 1 <= j < |values| ==> values[1..][j - 1] == values[j];
      FirstNonBlank(values[1..])
  }

  /** The first non-blank value is found where the values before it are
      all blank: the cascade stops there. */
  lemma {:induction false} FirstNonBlankAt(values: seq<Option<string>>, i: nat)
    requires i < |values| && !Blank(values[i])
    requires forall l :: 0 <= l < i ==> Blank(values[l])
    ensures FirstNonBlank(values) == Some(Strip(values[i].GetOr("")))
    decreases i
  {
    if i > 0 {
      assert values[1..][i - 1] == values[i];
      assert forall l :: 0 <= l < i - 1 ==> values[1..][l] == values[l + 1];
      FirstNonBlankAt(values[1..], i - 1);
    }
  }
}
