/** The Tab wrap rule of `trapFocus` (script.js:64-88) in the burger menu.
    Each opening of the menu installs a `keydown` handler on the menu list
    that captures the first and last focusable elements of that moment:
    Tab on the last moves to the first, Shift+Tab on the first moves to the
    last, and every other key press is left to the browser. `closeMenu`
    removes nothing, so every handler stays installed, and keeps acting,
    after the menu closes. Elements are named by their index among the
    `count` focusable elements an opening found; focus outside them is None. */
module FocusTrap {
  import opened Wrappers

  /** `handleTab`: the element it focuses (calling `preventDefault`), or
      None when it does nothing. With no focusable element `trapFocus`
      installs no handler, which is the same as one that does nothing. */
  function HandleTab(count: nat, focused: Option<nat>, key: string, shift: bool): (r: Option<nat>)
    ensures r.Some? ==> r.value < count
  {
    if count == 0 || key != "Tab" then None
    else if shift then (if focused == Some(0) then Some(count - 1) else None)
    else if focused == Some(count - 1) then Some(0) else None
  }

  /** The handler steps in exactly at the two ends, and then wraps around. */
  lemma WrapIff(count: nat, focused: Option<nat>, key: string, shift: bool)
    ensures HandleTab(count, focused, key, shift).Some? <==>
      count > 0 && key == "Tab" && focused == Some(if shift then 0 else count - 1)
    ensures HandleTab(count, focused, key, shift).Some? ==>
      HandleTab(count, focused, key, shift).value == if shift then count - 1 else 0
  {
  }

  /** Tab out of the last element and Shift+Tab back lands on the last
      element again, and the other way round. */
  lemma WrapRoundTrip(count: nat)
    requires count > 0
    ensures HandleTab(count, HandleTab(count, Some(count - 1), "Tab", false), "Tab", true) == Some(count - 1)
    ensures HandleTab(count, HandleTab(count, Some(0), "Tab", true), "Tab", false) == Some(0)
  {
  }

  /** The focus after the handler and whether the browser's own move was
      cancelled. */
  datatype Outcome = Outcome(focused: Option<nat>, prevented: bool)

  function Apply(count: nat, o: Outcome, key: string, shift: bool): Outcome {
    match HandleTab(count, o.focused, key, shift)
    case Some(t) => Outcome(Some(t), true)
    case None => o
  }

  /** `openMenu` calls `trapFocus` each time and nothing removes a handler,
      so after openings that found `counts[0]`, `counts[1]`, ... focusable
      elements one copy per opening runs, in that order, on every key
      press, each with the ends it captured. */
  function Handlers(counts: seq<nat>, o: Outcome, key: string, shift: bool): Outcome
    decreases |counts|
  {
    if counts == [] then o else Handlers(counts[1..], Apply(counts[0], o, key, shift), key, shift)
  }

  /** A second copy of the handler changes nothing: after the first one
      moved the focus, the new element is not the end the key wraps from,
      or (with one element) wrapping again lands on the same element. */
  lemma ApplyIdempotent(count: nat, o: Outcome, key: string, shift: bool)
    ensures Apply(count, Apply(count, o, key, shift), key, shift) == Apply(count, o, key, shift)
  {
  }

  /** However often the menu was opened, as long as every opening found the
      same `count` focusable elements, one key press has the effect of a
      single handler. */
  lemma {:induction false} RepeatedHandlersHarmless(counts: seq<nat>, count: nat, o: Outcome, key: string, shift: bool)
    requires |counts| >= 1
    requires forall i :: 0 <= i < |counts| ==> counts[i] == count
    ensures Handlers(counts, o, key, shift) == Apply(count, o, key, shift)
    decreases |counts|
  {
    if |counts| > 1 {
      var o1 := Apply(count, o, key, shift);
      RepeatedHandlersHarmless(counts[1..], count, o1, key, shift);
      ApplyIdempotent(count, o, key, shift);
    }
  }

  /** A copy left over from an opening that found a different number of
      elements still wraps at its old ends: with two elements then and three
      now, Tab on the middle element jumps back to the first, where one
      handler over the current list would leave the key to the browser. */
  lemma StaleHandlerWraps()
    ensures Handlers([2, 3], Outcome(Some(1), false), "Tab", false) == Outcome(Some(0), true)
    ensures Apply(3, Outcome(Some(1), false), "Tab", false) == Outcome(Some(1), false)
  {
  }
}
