# Site script: form validation, toasts, navigation rules and start-up

A Dafny model of the logic inside `script.js`, the browser script of a Dutch
business site. The script is mostly DOM wiring; what is modelled here are the
rules inside it:

- **Field validation** (`validateField`): the required check, then one check
  chosen by the field's kind (e-mail, telephone, name, textarea), each applied
  to the trimmed value, and the error display the verdict leaves behind.
- **Form submission**: every field is validated without an early exit; a
  rejected form gets one warning toast; an accepted one gets a disabled button
  with a busy label until the 1500 ms completion, which restores the button,
  posts a success toast, resets the fields and clears the error marks.
- **Toasts** (`app.notify`): an ordered container of entries. A close click
  and a 5000 ms timer each start a 300 ms removal, guarded by
  `alert.parentNode`.
- **Navigation**:
  - the homepage test;
  - the `#section` href rewrite on other pages;
  - which anchor clicks scroll;
  - which navigation links are marked active.
- **Focus trap**: the Tab/Shift+Tab wrap rule that each opening of the
  burger menu installs on the menu list. Closing the menu removes nothing,
  so every installed handler stays active after the menu closes.
- **Count-up**: how an element's text is split into prefix, number and
  suffix, and the text it ends on.
- **Start-up**: `app.init` and the one-shot `app.*Init` flags.

Modules, one per file:

| module | file | form |
|---|---|---|
| `Wrappers` | wrappers.dfy | `Option` |
| `Text` | text.dfy | whitespace, `trim`, ASCII lower-casing, `includes`, UTF-16 length |
| `Validation` | validation.dfy | pure rule chain; the e-mail regex as a matcher, proved against its meaning |
| `Notifications` | notifications.dfy | pure step functions over the container state, and a `Center` class whose methods are proved against them |
| `Forms` | forms.dfy | `Field` and `Form` classes whose methods update fields, button and pending completions |
| `Navigation` | navigation.dfy | pure path rules, and the two link loops as methods over arrays |
| `FocusTrap` | focustrap.dfy | pure |
| `CountUp` | countup.dfy | pure |
| `Startup` | startup.dfy | an `App` class with the init flags |

Assumptions and readings of the code:

- **Whitespace** (`\s` and `trim()`) is the ECMAScript WhiteSpace and
  LineTerminator set. `Text.IsSpaceIff` lists the code points.
- **Case mapping**: `toLowerCase()` maps ASCII letters only. Field names are
  ASCII in practice.
- **The active-link regex**: at script.js:198-199 the regular expression is
  printed as `/^//`, which is not a well-formed literal. The model takes the
  evident intent: drop one leading `/`.
- **`À-ÿ`** in the name pattern is U+00C0..U+00FF. That range includes `×`
  and `÷`, and the model keeps them.
- **Lengths**: `value.length` and the regex quantifiers count UTF-16 code
  units. The textarea rule uses that length (`Text.Utf16Length`). The
  telephone and name classes admit only Basic Multilingual Plane characters,
  so there the count of characters is the same; the contracts of
  `Validation.TelMatches` and `Validation.NameMatches` state the patterns
  in code units.
- **The error element**: a valid field hides its error element but keeps the
  element's old text. Completion sets only `display: none`, so the
  `is-visible` class stays. Both are modelled as written.
- **No submit guard**: there is no "submitting" flag. Only the disabled button
  stands between two submits. `Forms.OverlappingSubmits` walks through a
  second submit that reaches the handler anyway:
  - it captures the busy label as the label to restore;
  - the second completion re-enables the button with "Verzenden..." on it.

## Model

| member | source | states |
|---|---|---|
| Text.IsSpaceIff | script.js:304 | the whitespace `trim()` removes (and `\s` matches) is exactly the ECMAScript WhiteSpace and LineTerminator code points |
| Text.AsciiSpace | script.js:310 | among ASCII characters only space and tab..carriage return are whitespace |
| Text.TrimSlice | script.js:304 | `trim()` keeps one contiguous slice of the value, removes only whitespace on both sides, and the kept slice neither starts nor ends with whitespace |
| Text.TrimEmptyIff | script.js:306 | the trimmed value is empty (`!value`) exactly when the value is all whitespace |
| Text.TrimIdempotent | script.js:304 | trimming a trimmed value changes nothing |
| Text.ContainsIff | script.js:309 | `includes` finds `t` exactly when `t` occurs at some position |
| Text.Trim | script.js:304 | the trimmed value is never longer than the value, and neither starts nor ends with whitespace |
| Text.Lower | script.js:309 | the length is kept, each ASCII capital becomes its small letter, every other character stays, and no ASCII capital is left |
| Text.Contains | script.js:309 | the empty string is found in every name, and nothing longer than the name is found in it |
| Text.BmpLength | script.js:315-321 | on Basic Multilingual Plane characters the UTF-16 `length` equals the number of characters |
| Validation.Check | script.js:304-328 | the required message is only ever given to a required field, and any other message is the one of the single check the field's kind selects |
| Validation.KindOf | script.js:309-328 | exactly one check applies, by the precedence e-mail (type or name with "email"/"e-mail"), telephone (type or name with "phone"/"tel"), name ("name"/"naam"), textarea, otherwise none |
| Validation.EmailMatches | script.js:310-311 | the e-mail pattern accepts `v` exactly when `v` is `local@d1.d2` with three non-empty parts free of whitespace and `@` |
| Validation.TelMatches | script.js:315-316 | the pattern accepts exactly 10 to 20 UTF-16 code units, each a digit, `+`, whitespace, `(`, `)` or `-` |
| Validation.NameMatches | script.js:320-321 | the pattern accepts exactly 2 to 50 UTF-16 code units, each an ASCII letter, a character of U+00C0..U+00FF, whitespace, `-` or `'` |
| Validation.EmailExamples | script.js:310-311 | "a@b.co" passes; "a@b" and "a b@c.d" fail |
| Validation.TelExamples | script.js:315-316 | "+31 6 1234 5678" passes; "123" is too short |
| Validation.NameExamples | script.js:320-321 | "Jean-Luc" passes; "X7" fails on the digit |
| Validation.RequiredBlankRejected | script.js:304-308 | a required field whose value is blank gets the required message, whatever its kind |
| Validation.BlankOptionalAccepted | script.js:304-327 | a blank optional field is valid, whatever its kind |
| Validation.NonBlankVerdict | script.js:309-328 | a non-blank field is valid exactly when its trimmed value passes its kind's pattern (by its meaning), and otherwise gets that kind's message |
| Validation.TextAreaRule | script.js:324-327 | a textarea is rejected for length exactly when its trimmed length is 1 to 9 |
| Validation.HotelNameIsTel | script.js:314-323 | a field named "hotel_name" (not of type email) is checked as a telephone number, never as a name |
| Forms.Render | script.js:330-348 | a missing error element is created; the field is marked, and its element displayed with `is-visible`, exactly when there is a problem; the element then holds that problem, and with no problem it keeps its old text |
| Forms.RenderMarksIffRejected | script.js:330-348 | after validation the field has `has-error`, and its error element is shown with `is-visible`, exactly when the field is rejected; the shown text is the rule chain's message; a valid field's element keeps its old text |
| Forms.RenderIdempotent | script.js:337-348 | validating an unchanged field twice leaves the display as once |
| Forms.Cleared | script.js:401-408 | after completion no field is marked and no error element is displayed; no element is created or dropped, and `is-visible` and the text stay |
| Forms.Field.Validate | script.js:301-349 | returns true exactly when the rule chain finds no problem, leaves the value, and sets the display the verdict calls for |
| Forms.Field.ResetValue | script.js:399 | the field's value becomes its default value |
| Forms.Field.HideError | script.js:401-404 | the error element, if any, is no longer displayed; nothing else changes |
| Forms.Field.ClearMark | script.js:405-408 | `has-error` is removed; nothing else changes |
| Forms.Form.ValidateAll | script.js:366-373 | every field is validated (no early exit), each gets its own verdict's display, and the result is true exactly when every field is accepted |
| Forms.Form.Submit | script.js:361-391 | all fields validated; if any is rejected exactly one warning toast is added and button and pending completions are untouched; otherwise no toast, the button is disabled with the busy label and a completion holding the previous label is scheduled |
| Forms.Form.CompleteSubmission | script.js:393-408 | the oldest completion re-enables the button with the label it captured, adds one success toast, resets every field to its default value, and leaves no field marked and no error element displayed |
| Forms.Form.ResetAll | script.js:399 | every field holds its default value; displays unchanged |
| Forms.Form.HideErrors | script.js:401-404 | every error element is hidden; values and marks unchanged |
| Forms.Form.ClearMarks | script.js:405-408 | no field keeps `has-error`; values and error elements unchanged |
| Notifications.KindOrDefault | script.js:261 | a missing type becomes "info"; a given type is kept |
| Notifications.Without | script.js:278 | removing a child keeps the other entries in their order and drops exactly the first occurrence of the removed one |
| Notifications.WithoutNoDup | script.js:278 | removing an entry from a duplicate-free container leaves exactly the other entries, still without duplicates |
| Notifications.AfterNotify | script.js:260-295 | the new toast is appended last with its type defaulted (never empty), not sliding out, with its 5000 ms timer pending; nothing is removed |
| Notifications.AfterClose | script.js:274-281 | a close click on an attached toast starts its slide-out and one removal timer; the container, the removal log, the other toasts and the 5000 ms timers stay |
| Notifications.AfterAuto | script.js:284-294 | the 5000 ms timer retires itself; on an attached toast it starts the slide-out and one removal timer, on a removed one it changes nothing else; the container stays |
| Notifications.AfterRemove | script.js:276-280 | the removal timer retires itself; afterwards the container holds exactly the other entries, and the toast is logged as removed once, only if it was still attached |
| Notifications.NotifyKeepsInv | script.js:260-295 | `notify` appends the new entry at the end of the container with the defaulted type and keeps the container invariant |
| Notifications.CloseKeepsInv | script.js:274-281 | a close click keeps the container invariant and leaves the container and the removal log as they are |
| Notifications.AutoKeepsInv | script.js:285-293 | the 5000 ms timer leaves the container as it is and keeps the invariant |
| Notifications.RemoveKeepsInv | script.js:276-280 | a removal timer keeps every entry either attached or detached, and detached at most once |
| Notifications.AutoAfterGone | script.js:285-286 | the 5000 ms timer of an entry already removed starts no slide-out and no removal |
| Notifications.RemoveAtMostOnce | script.js:276-291 | a removal timer for an entry already removed does not touch the container |
| Notifications.StepKeepsInv | script.js:260-295 | every event keeps the invariant and only appends to the record of removed entries |
| Notifications.Run | script.js:260-295 | any interleaving of notifications, close clicks and timer firings keeps the invariant: no entry is removed twice, and only created entries are removed |
| Notifications.Center.Notify | script.js:260-282 | the container in place does what `AfterNotify` says, and the new entry's id is the next index |
| Notifications.Center.CloseClick | script.js:274-281 | as `AfterClose`, invariant kept |
| Notifications.Center.AutoFire | script.js:284-294 | as `AfterAuto`, invariant kept |
| Notifications.Center.RemoveFire | script.js:276-280 | as `AfterRemove`, invariant kept |
| Navigation.IsHomepage | script.js:134 | the homepage is exactly the root or any path ending in `/index.html` |
| Navigation.RewriteHref | script.js:136-145 | an href is either kept or prefixed with `/`, and it is changed exactly off the homepage for `#` followed by at least one character, other than `#!` |
| Navigation.RewritableIff | script.js:138-144 | a selected link is rewritten exactly when it is `#` followed by at least one character and is not `#!` (the `/#` test never fires) |
| Navigation.RewriteIdempotent | script.js:136-145 | a rewritten href starts with `/#`, and rewriting it again changes nothing |
| Navigation.RewriteSectionLinks | script.js:136-145 | every link's href becomes its rewrite; on the homepage nothing changes |
| Navigation.ScrollTarget | script.js:148-176 | a click looks up a section (and scrolls to it when the page has one) exactly for an href of `#` plus a non-empty id other than `#!`, and the id is the href without its `#` |
| Navigation.NoScrollOffHomepage | script.js:136-164 | off the homepage no rewritten `#` link scrolls the page |
| Navigation.StripSlash | script.js:198-199 | one leading `/` is dropped, nothing else changes |
| Navigation.ActiveIff | script.js:195-201 | a root link is active exactly on the homepage; any other link exactly when the current path without its leading `/` extends the link path without its leading `/` |
| Navigation.IsActive | script.js:195-201 | a link is always active on the page it names |
| Navigation.PrefixNotSegment | script.js:198-200 | the match is by prefix: `/over` is active on `/overzicht`, `/diensten` on `/diensten/advies`, and not on `/` |
| Navigation.MarkActiveLinks | script.js:185-210 | every link with an href gets the active verdict; a link without one is skipped |
| FocusTrap.HandleTab | script.js:71-85 | the handler only ever focuses one of the menu's elements |
| FocusTrap.WrapIff | script.js:71-85 | the handler acts exactly on Tab from the last element (to the first) and Shift+Tab from the first (to the last) |
| FocusTrap.WrapRoundTrip | script.js:71-85 | Tab out of the last element and Shift+Tab back return to it, and the other way round |
| FocusTrap.ApplyIdempotent | script.js:71-87 | a second copy of the handler on the same key press changes nothing |
| FocusTrap.RepeatedHandlersHarmless | script.js:51-87 | when every opening of the menu found the same focusable elements, the copies of the handler the openings installed act on a key press as one handler |
| FocusTrap.StaleHandlerWraps | script.js:64-87 | a copy installed while the menu had two focusable elements still wraps Tab from the second element to the first once the menu has three, where one current handler would leave the key to the browser |
| CountUp.DigitsOf | script.js:495 | the filter keeps only digits, and never more characters than the text has |
| CountUp.LeadingNonDigits | script.js:499 | the prefix is the longest leading part without digits |
| CountUp.TrailingNonDigits | script.js:500 | the suffix is the longest trailing part without digits |
| CountUp.Setup | script.js:494-500 | the count-up gives up exactly when the text has no digit; otherwise it counts to `parseInt` of all its digits, with a digit-free prefix that starts the text and a digit-free suffix that ends it |
| CountUp.StartText | script.js:507 | around a digit-free prefix and suffix, the only digit of the starting text is the single `0` |
| CountUp.FinalText | script.js:512 | around a digit-free prefix and suffix, the only digits of the final text are the decimal digits of the number |
| CountUp.Split | script.js:494-500 | a text with a digit is prefix, a middle that begins and ends with a digit, and suffix, and all its digits lie in the middle |
| CountUp.ValueOfDecimal | script.js:495-512 | reading back the decimal text of a number gives the number |
| CountUp.DecimalOfValue | script.js:495-512 | writing out what `parseInt` read from canonical digits gives those digits |
| CountUp.FinalTextIff | script.js:494-512 | the final text equals the original exactly when the middle is the number written canonically, so separators and leading zeros are lost |
| CountUp.Examples | script.js:494-512 | "€ 49,-" counts to 49 and ends on its own text |
| CountUp.NoNumberExample | script.js:496-497 | "n.v.t." is left alone |
| CountUp.SeparatorLost | script.js:494-512 | "1.250+" counts to 1250 and ends on "1250+" |
| Startup.InitOrderNoDup | script.js:642-654 | `app.init` calls thirteen set-ups, each once |
| Startup.App.RunSetup | script.js:35-36 | a set-up's body runs only while its flag is clear, and its flag is set afterwards |
| Startup.App.RunAll | script.js:642-654 | the set-ups are called in order; each flag is set afterwards, and from a clean state each body runs once, in that order |
| Startup.App.Init | script.js:638-655 | the first call sets every flag and, from a clean state, runs every set-up body once in order; any later call changes nothing |
| Startup.LoadPage | script.js:638-661 | after the page-load call of `app.init` and any number of further calls, each set-up body has run exactly once, in order, and every flag is set |

## Left out

- DOM querying, CSS, style strings, and the injected `<style>` keyframes. The toast's `innerHTML` is built from the unescaped message; that is left out too. All of this is presentation.
- Real time:
  - `setTimeout` and `setInterval` durations, and the `debounce` and `throttle` helpers (script.js:9-32).
  - Each timer firing is an event; no wall-clock time is modelled.
- Browser-driven effects:
  - `IntersectionObserver` scroll animations, the scroll-to-top button, the header shadow, image fade-in and card hover (script.js:418-444, 527-636);
  - the ripple effect (script.js:446-481);
  - image lazy-loading and the error placeholder (script.js:213-247);
  - the privacy-link handler (script.js:563-576).
  These are cosmetics driven by browser events. The model only records that their set-up runs once.
- The smooth-scroll offset (script.js:166-174) and the count-up stepping `number / steps` (script.js:501-517). Both are floating-point arithmetic. `CountUp.FinalText` is the text the interval ends on.
- The burger menu's open/close toggling, Escape handling and resize handling (script.js:38-127). The model keeps only the Tab wrap rule, and the handler copies that repeated openings install.
- FocusTrap.RepeatedHandlersHarmless: holds only when every opening of the menu found the same focusable elements. The model names elements by their position in the list an opening found, so a copy from an opening with a different list is compared by position; `FocusTrap.StaleHandlerWraps` shows such a copy changing the outcome.
- The count-up's one-shot `counted` class (script.js:491-492): each element is set up at most once, on its first intersection. Which elements intersect, and when, is browser-driven; the model covers one element's set-up and final text.
- The navigation to `thank_you.html` 1500 ms after completion (script.js:410-412). It is a page change with no checkable logic.
- Two fields that share a parent element share one error element in the browser. Here each field has its own error display.
- The spinner markup on the busy button label. The label is the text "Verzenden...".
- `field.name || 'field'` (script.js:302) is computed but never used.
- CountUp.Setup: the number is an unbounded natural. JavaScript numbers lose precision above 2^53, so a count-up on a text with more than 15 digits is not modelled exactly.
- Text.Lower: maps ASCII letters only. The full Unicode case mapping of `toLowerCase` (for example KELVIN SIGN to `k`) is not modelled.
- Forms.OverlappingSubmits: a client walk-through, checked by its assertions rather than by a contract.
