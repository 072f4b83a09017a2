/** The form side of `initForms` (script.js:301-413): applying a field's
    verdict to its error display, the blur handler, the submit handler with
    its simulated 1500 ms submission, and the reset on completion. */
module Forms {
  import opened Wrappers
  import opened Validation
  import N = Notifications

  const WarningMsg := "Controleer de gemarkeerde velden en probeer opnieuw"
  const SuccessMsg := "Uw bericht is succesvol verzonden!"
  /** The busy label the submit button gets (the spinner markup left out). */
  const BusyLabel := "Verzenden..."

  /** The `.c-form__error` element next to a field: the problem whose
      message its text holds (None while the text is still empty), its
      `is-visible` class and whether its `display` style shows it. */
  datatype ErrorElement = ErrorElement(shown: Option<Problem>, visibleClass: bool, displayed: bool)

  /** The element's `textContent`. */
  function TextOf(e: ErrorElement): string {
    if e.shown.Some? then Message(e.shown.value) else ""
  }

  /** A field's `has-error` class and its error element, once one exists. */
  datatype ErrorDisplay = ErrorDisplay(hasError: bool, element: Option<ErrorElement>)

  /** The display `validateField` leaves for the problem found. A missing
      error element is created first (empty); a problem marks the field,
      writes its message and shows the element; no problem unmarks the field
      and hides the element, leaving its old text in place. */
  function Render(d: ErrorDisplay, problem: Option<Problem>): (r: ErrorDisplay)
    ensures r.element.Some?
    ensures r.hasError <==> problem.Some?
    ensures r.element.value.displayed <==> problem.Some?
    ensures r.element.value.visibleClass <==> problem.Some?
    ensures problem.Some? ==> r.element.value.shown == problem
    ensures problem.None? ==> r.element.value.shown == if d.element.Some? then d.element.value.shown else None
  {
    var e := if d.element.Some? then d.element.value else ErrorElement(None, false, false);
    if problem.Some? then ErrorDisplay(true, Some(ErrorElement(problem, true, true)))
    else ErrorDisplay(false, Some(e.(visibleClass := false, displayed := false)))
  }

  /** The display after completion: the element's `display` style is set to
      none and `has-error` is removed; the `is-visible` class and the text
      stay, and no element is created or dropped. */
  function Cleared(d: ErrorDisplay): (r: ErrorDisplay)
    ensures !r.hasError
    ensures r.element.Some? <==> d.element.Some?
    ensures r.element.Some? ==> !r.element.value.displayed
    ensures r.element.Some? ==> r.element.value.shown == d.element.value.shown
    ensures r.element.Some? ==> r.element.value.visibleClass == d.element.value.visibleClass
  {
    ErrorDisplay(false, if d.element.Some? then Some(d.element.value.(displayed := false)) else None)
  }

  /** The field is marked and its message shown exactly when the validator
      rejects it, the text shown is the validator's message, and a valid
      field keeps the text its element had. */
  lemma RenderMarksIffRejected(d: ErrorDisplay, f: FieldInput)
    ensures Render(d, Check(f)).element.Some?
    ensures Render(d, Check(f)).hasError <==> !Accepted(f)
    ensures Render(d, Check(f)).element.value.displayed <==> !Accepted(f)
    ensures Render(d, Check(f)).element.value.visibleClass <==> !Accepted(f)
    ensures !Accepted(f) ==> TextOf(Render(d, Check(f)).element.value) == Message(Check(f).value)
    ensures Accepted(f) && d.element.Some? ==> TextOf(Render(d, Check(f)).element.value) == TextOf(d.element.value)
  {
  }

  /** Validating an unchanged field a second time leaves the display as the
      first validation left it. */
  lemma RenderIdempotent(d: ErrorDisplay, problem: Option<Problem>)
    ensures Render(Render(d, problem), problem) == Render(d, problem)
  {
  }

  /** An `input`, `textarea` or `select` of a form, with its error display. */
  class Field {
    const name: string
    const typ: string
    const tagName: string
    const required: bool
    const defaultValue: string
    var value: string
    var display: ErrorDisplay

    constructor (name: string, typ: string, tagName: string, required: bool, defaultValue: string)
      ensures this.name == name && this.typ == typ && this.tagName == tagName
      ensures this.required == required && this.defaultValue == defaultValue
      ensures value == defaultValue && display == ErrorDisplay(false, None)
    {
      this.name, this.typ, this.tagName := name, typ, tagName;
      this.required, this.defaultValue := required, defaultValue;
      value := defaultValue;
      display := ErrorDisplay(false, None);
    }

    function Input(): FieldInput
      reads this`value
    {
      FieldInput(name, typ, tagName, required, value)
    }

    /** `validateField(field)`, which the blur handler also calls. */
    method Validate() returns (ok: bool)
      modifies this`display
      ensures ok <==> Accepted(Input())
      ensures display == Render(old(display), Check(Input()))
    {
      var problem := Check(Input());
      var e := if display.element.Some? then display.element.value else ErrorElement(None, false, false);
      if problem.Some? {
        display := ErrorDisplay(true, Some(ErrorElement(problem, true, true)));
        ok := false;
      } else {
        display := ErrorDisplay(false, Some(e.(visibleClass := false, displayed := false)));
        ok := true;
      }
    }

    /** What `form.reset()` does to this field. */
    method ResetValue()
      modifies this`value
      ensures value == defaultValue && display == old(display)
    {
      value := defaultValue;
    }

    /** `errors[m].style.display = 'none'`. */
    method HideError()
      modifies this`display
      ensures display == old(display).(element := if old(display).element.Some? then Some(old(display).element.value.(displayed := false)) else None)
    {
      if display.element.Some? {
        display := display.(element := Some(display.element.value.(displayed := false)));
      }
    }

    /** `hasErrors[n].classList.remove('has-error')`. */
    method ClearMark()
      modifies this`display
      ensures display == old(display).(hasError := false)
    {
      display := display.(hasError := false);
    }
  }

  /** A `.c-form` or `.needs-validation` form: its fields, its submit button
      (if it has one) and the 1500 ms completions in flight, each holding the
      button label it captured when it was scheduled. There is no
      "submitting" flag: only the disabled button stands in the way of a
      second submit. */
  class Form {
    const fields: seq<Field>
    const hasButton: bool
    const center: N.Center
    var disabled: bool
    var buttonText: string
    var pending: seq<string>

    /** Each field object occurs once, so updating one leaves the others. */
    ghost predicate Distinct()
      reads this
    {
      forall i, j :: 0 <= i < j < |fields| ==> fields[i] != fields[j]
    }

    ghost predicate Valid()
      reads this, center
    {
      Distinct() && center.Valid()
    }

    constructor (fields: seq<Field>, hasButton: bool, buttonText: string, center: N.Center)
      requires forall i, j :: 0 <= i < j < |fields| ==> fields[i] != fields[j]
      requires center.Valid()
      ensures Valid()
      ensures this.fields == fields && this.hasButton == hasButton && this.center == center
      ensures !disabled && this.buttonText == buttonText && pending == []
    {
      this.fields, this.hasButton, this.center := fields, hasButton, center;
      disabled, this.buttonText, pending := false, buttonText, [];
    }

    /** The loop of the submit handler: every field is validated, with no
        early exit, and the form is valid when all of them are. */
    method ValidateAll() returns (ok: bool)
      requires Distinct()
      modifies fields`display
      ensures ok <==> forall k :: 0 <= k < |fields| ==> Accepted(fields[k].Input())
      ensures forall k :: 0 <= k < |fields| ==> fields[k].value == old(fields[k].value)
      ensures forall k :: 0 <= k < |fields| ==>
        fields[k].display == Render(old(fields[k].display), Check(fields[k].Input()))
    {
      ghost var ds := Displays();
      ghost var vs := Verdicts();
      ok := true;
      var k := 0;
      while k < |fields|
        invariant 0 <= k <= |fields|
        invariant ok <==> forall j :: 0 <= j < k ==> vs[j].None?
        invariant forall j :: 0 <= j < k ==> fields[j].display == Render(ds[j], vs[j])
        invariant forall j :: k <= j < |fields| ==> fields[j].display == ds[j]
      {
        var fieldOk := fields[k].Validate();
        assert fieldOk <==> vs[k].None?;
        assert fields[k].display == Render(ds[k], vs[k]);
        if !fieldOk {
          ok := false;
        }
        k := k + 1;
      }
      assert forall j :: 0 <= j < |fields| ==> vs[j] == Check(fields[j].Input());
    }

    /** The rule chain's verdict on every field, as the values stand. */
    ghost function Verdicts(): (vs: seq<Option<Problem>>)
      reads this, fields
      ensures |vs| == |fields|
      ensures forall j :: 0 <= j < |fields| ==> vs[j] == Check(fields[j].Input())
    {
      seq(|fields|, j requires 0 <= j < |fields| reads fields => Check(fields[j].Input()))
    }

    ghost function Displays(): (ds: seq<ErrorDisplay>)
      reads this, fields
      ensures |ds| == |fields|
      ensures forall j :: 0 <= j < |fields| ==> ds[j] == fields[j].display
    {
      seq(|fields|, j requires 0 <= j < |fields| reads fields => fields[j].display)
    }

    /** The submit handler: validate every field; if any is rejected, post
        one warning and stop; otherwise disable the button, show the busy
        label and schedule the completion with the label the button had. */
    method Submit() returns (ok: bool)
      requires Valid()
      modifies this, fields`display, center
      ensures Valid()
      ensures ok <==> forall k :: 0 <= k < |fields| ==> Accepted(fields[k].Input())
      ensures forall k :: 0 <= k < |fields| ==> fields[k].value == old(fields[k].value)
      ensures forall k :: 0 <= k < |fields| ==>
        fields[k].display == Render(old(fields[k].display), Check(fields[k].Input()))
      ensures !ok ==> disabled == old(disabled) && buttonText == old(buttonText) && pending == old(pending)
      ensures !ok ==> center.State() == N.AfterNotify(old(center.State()), WarningMsg, "warning")
      ensures ok ==> center.State() == old(center.State())
      ensures ok ==> pending == old(pending) + [if hasButton then old(buttonText) else ""]
      ensures ok && hasButton ==> disabled && buttonText == BusyLabel
      ensures ok && !hasButton ==> disabled == old(disabled) && buttonText == old(buttonText)
    {
      ok := ValidateAll();
      if !ok {
        var _ := center.Notify(WarningMsg, "warning");
        return;
      }
      var originalText := if hasButton then buttonText else "";
      if hasButton {
        disabled := true;
        buttonText := BusyLabel;
      }
      pending := pending + [originalText];
    }

    /** The 1500 ms completion: re-enable the button with the label captured
        at submit, post the success message, reset every field to its default
        value, hide every error element and remove every `has-error` mark. */
    method CompleteSubmission()
      requires Valid() && |pending| > 0
      modifies this, fields, center
      ensures Valid()
      ensures pending == old(pending)[1..]
      ensures hasButton ==> !disabled && buttonText == old(pending)[0]
      ensures !hasButton ==> disabled == old(disabled) && buttonText == old(buttonText)
      ensures center.State() == N.AfterNotify(old(center.State()), SuccessMsg, "success")
      ensures forall k :: 0 <= k < |fields| ==> fields[k].value == fields[k].defaultValue
      ensures forall k :: 0 <= k < |fields| ==> fields[k].display == Cleared(old(fields[k].display))
    {
      var originalText := pending[0];
      pending := pending[1..];
      if hasButton {
        disabled := false;
        buttonText := originalText;
      }
      var _ := center.Notify(SuccessMsg, "success");
      ResetAll();
      HideErrors();
      ClearMarks();
    }

    /** `currentForm.reset()`: every field back to its default value. */
    method ResetAll()
      requires Distinct()
      modifies fields`value
      ensures forall j :: 0 <= j < |fields| ==> fields[j].value == fields[j].defaultValue
      ensures forall j :: 0 <= j < |fields| ==> fields[j].display == old(fields[j].display)
    {
      var k := 0;
      while k < |fields|
        invariant 0 <= k <= |fields|
        invariant forall j :: 0 <= j < k ==> fields[j].value == fields[j].defaultValue
        invariant forall j :: 0 <= j < |fields| ==> fields[j].display == old(fields[j].display)
      {
        fields[k].ResetValue();
        k := k + 1;
      }
    }

    /** The loop over the form's `.c-form__error` elements. */
    method HideErrors()
      requires Distinct()
      modifies fields`display
      ensures forall j :: 0 <= j < |fields| ==> fields[j].value == old(fields[j].value)
      ensures forall j :: 0 <= j < |fields| ==>
        fields[j].display == old(fields[j].display).(element := Cleared(old(fields[j].display)).element)
    {
      var m := 0;
      while m < |fields|
        invariant 0 <= m <= |fields|
        invariant forall j :: 0 <= j < |fields| ==> fields[j].value == old(fields[j].value)
        invariant forall j :: 0 <= j < m ==>
          fields[j].display == old(fields[j].display).(element := Cleared(old(fields[j].display)).element)
        invariant forall j :: m <= j < |fields| ==> fields[j].display == old(fields[j].display)
      {
        fields[m].HideError();
        m := m + 1;
      }
    }

    /** The loop over the form's `.has-error` elements. */
    method ClearMarks()
      requires Distinct()
      modifies fields`display
      ensures forall j :: 0 <= j < |fields| ==> fields[j].value == old(fields[j].value)
      ensures forall j :: 0 <= j < |fields| ==> fields[j].display == old(fields[j].display).(hasError := false)
    {
      var n := 0;
      while n < |fields|
        invariant 0 <= n <= |fields|
        invariant forall j :: 0 <= j < |fields| ==> fields[j].value == old(fields[j].value)
        invariant forall j :: 0 <= j < n ==> fields[j].display == old(fields[j].display).(hasError := false)
        invariant forall j :: n <= j < |fields| ==> fields[j].display == old(fields[j].display)
      {
        fields[n].ClearMark();
        n := n + 1;
      }
    }
  }

  /** With no guard beyond the disabled button, a second submit that reaches
      the handler while the first is in flight (here on a form whose one field
      is optional and blank, so both submits pass) captures the busy label,
      and the second completion puts the busy label back on an enabled button. */
  method OverlappingSubmits(center: N.Center, name: string, typ: string, tagName: string)
    requires center.Valid()
    modifies center
  {
    var f := new Field(name, typ, tagName, false, "");
    var form := new Form([f], true, "Verstuur", center);
    BlankOptionalAccepted(f.Input());
    var ok1 := form.Submit();
    var ok2 := form.Submit();
    assert form.pending == ["Verstuur", BusyLabel];
    form.CompleteSubmission();
    assert form.buttonText == "Verstuur" && !form.disabled;
    form.CompleteSubmission();
    assert form.buttonText == BusyLabel && !form.disabled;
  }
}
