# Registration form controller (script2.js)

A Dafny model of the script that drives the registration form of the demo
page. The script wires up:

- inline error hints for the `nom`, `prenom`, `email` and `status` fields;
- a `validate` pass that runs on submit: trimmed names, a trimmed e-mail
  checked against `/^[^\s@]+@[^\s@]+\.[^\s@]+$/`, and one checked `sexe` radio;
- a confirmation overlay with OK, Annuler, Escape and a backdrop click;
- a demo store in `localStorage` under the key `sar7_users_demo`, to which
  OK appends a stamped copy of the payload;
- a short-lived success note whose timer gives the submit button back.

Modules:

- `Text` — the JavaScript whitespace class (`IsWs`), shared by `trim()` and `\s`,
  and `Trim`, with lemmas saying that it cuts exactly the whitespace at both ends.
- `EmailPattern` — the e-mail pattern as a hand-written automaton (`Matches`).
  It is proved equal to a literal reading of the regular expression
  (`RegexShape`) and to a second, independent characterisation
  (`Characterised`): no whitespace, exactly one `@`, and a dot with text on
  both sides somewhere after it.
- `Validation` — what one `validate` pass decides: the verdict (`Passes`) and
  the flag and hint each field ends up with (`ExpectedMarks`).
- `Registration` — the payload literal, the stored array, and what
  `saveToLocal` does to it (`Append`).
- `Form` — the class `FormController`. Its fields are the page state the
  handlers change: per-field marks, the shared `sexe` hint, the button's
  enabled flag, the open overlay with the payload it captured, the pending
  success note, and the store. Each handler is a method.
  `Handle` dispatches one `Event`. The scenario methods at the end replay
  whole interactions on a fresh controller.
- `Samples` — concrete fillings of the form and what the page makes of them.

Inputs the page reads from the outside are parameters of the methods:

- the field values and radios at submit time;
- `now`, the text of `new Date().toISOString()`;
- `storageOk`, whether `localStorage` could be read and written;
- the pressed key;
- whether a click hit the backdrop itself.

The store is one of four values:

- `Absent` and `EmptyText` both read as `[]`, through the `|| '[]'` in the source;
- `Records(entries)` is a parsed array;
- `Corrupt` is a text that does not parse, or that parses to something
  without `push`. In that case the `try` swallows the exception and nothing
  is written.

The comment at script2.js:267 says that closing the dialog with Annuler or
Escape re-enables the submit button. The handlers at script2.js:175-182 do
not do this, and the model follows the code (see Findings).

## Model

| member | source | states |
|---|---|---|
| Text.Trim | script2.js:58-68 | `trim()` never lengthens its input, and its result neither starts nor ends with whitespace |
| Text.TrimStartSuffix | script2.js:68 | `trim` drops exactly the leading whitespace: the result is a suffix, what it cut is all whitespace, and it does not start with whitespace |
| Text.TrimEndPrefix | script2.js:68 | `trim` drops exactly the trailing whitespace: the result is a prefix, what it cut is all whitespace, and it does not end with whitespace |
| Text.TrimIsSlice | script2.js:68 | the trimmed value is a slice of the input with only whitespace outside it and no whitespace at either end |
| Text.TrimEmptyIff | script2.js:58-66 | `!x.value.trim()` holds exactly when the value is whitespace only |
| Text.TrimIdempotent | script2.js:217-220 | trimming a trimmed value changes nothing |
| Text.TrimOfTrimmed | script2.js:217-220 | a value with no whitespace at either end is its own trim |
| Text.TrimOfPadded | script2.js:217-220 | whitespace padding on both sides of a value is exactly what trim removes |
| EmailPattern.StepCorrect | script2.js:69 | one step of the automaton from any state keeps exactly the strings that state stands for |
| EmailPattern.RunCorrect | script2.js:69 | from every automaton state, a run ends in `Done` exactly when the rest of the input is in the language that state stands for |
| EmailPattern.Matches | script2.js:69-73 | `emailRe.test` (the automaton run from Start ending in Done) accepts exactly the strings `[^\s@]+ @ [^\s@]+ \. [^\s@]+` |
| EmailPattern.RegexIffCharacterised | script2.js:69 | the regular expression's strings are those with no whitespace, exactly one `@` not at the start, and a dot after it with text on both sides |
| EmailPattern.MatchesIffCharacterised | script2.js:69 | the matcher accepts exactly the characterised strings |
| Validation.AnyChecked | script2.js:56 | `sexeInputs.some(i => i.checked)`, tried left to right, is true exactly when some radio is checked |
| Validation.EmailMessage | script2.js:68-76 | the e-mail gets the "missing" message exactly when it is whitespace only, the "format" message exactly when it is non-blank and not an address, and no message exactly when its trim is an address |
| Validation.Marks.Put | script2.js:20-43 | replacing one field's mark sets that field's mark, leaves the other three fields' marks as they were, and putting back the same mark changes nothing |
| Validation.ExpectedMarks | script2.js:55-76 | after `validate`, each of `nom` and `prenom` is flagged with its message exactly when it is blank, the e-mail is flagged exactly when its trim is not an address and carries its message, and `status` is clear |
| Validation.Passes | script2.js:52-108 | `validate` returns true exactly when both names have a non-whitespace character, the trimmed e-mail is an address, and a radio is checked |
| Validation.PassesIffUnmarked | script2.js:55-108 | `validate` returns true exactly when it leaves no field marked and a radio is checked |
| Registration.EmptyTextReadsAsAbsent | script2.js:190 | through the `'[]'` fallback of `getItem(key)` (`Existing`), an empty stored text reads as `[]` exactly like a missing key, and saving to either gives the same one-record array |
| Registration.FirstChecked | script2.js:221 | `find(i => i.checked)` finds nothing exactly when no radio is checked; otherwise it gives a checked radio with no checked radio before it |
| Registration.MakePayload | script2.js:217-223 | the payload holds the trimmed names and e-mail and the status as it is; `sexe` is the value of the first checked radio, or `""` when none is checked |
| Registration.PassingPayloadWellFormed | script2.js:210-223 | a payload built after a passing `validate` has non-empty, trimmed names and an e-mail of the address shape |
| Registration.Append | script2.js:187-197 | a readable store with working storage gets the stamped record appended to its array; a corrupt store or failing storage is left as it was |
| Registration.AppendOnly | script2.js:190-192 | the store only grows: the old array is a prefix of the new one, at most one entry shorter, and a readable store stays readable |
| Registration.AppendKeepsDuplicates | script2.js:190-192 | saving the same record twice stores it twice; there is no uniqueness check |
| Form.FormController.constructor | script2.js:7-17 | a fresh page has no marks, no `sexe` hint, an enabled button, no overlay, no success note, and whatever the store held |
| Form.FormController.SetInvalid | script2.js:20-36 | flags the field; with a non-empty message the field's hint is that message; with an empty message any old hint stays; other fields are untouched |
| Form.FormController.ClearInvalid | script2.js:38-43 | removes the flag and hint of that field only; clearing a clear field changes nothing |
| Form.FormController.ClearAll | script2.js:55 | `[nom, prenom, email, status].forEach(clearInvalid)`, here and again at script2.js:206, leaves all four fields without flag or hint |
| Form.FormController.Validate | script2.js:51-109 | throws exactly when there is no radio; otherwise returns true exactly when `Passes` holds; leaves exactly the marks of `ExpectedMarks`; the `sexe` hint is shown exactly when no radio is checked |
| Form.FormController.Submit | script2.js:200-233 | nothing happens while the button is disabled; otherwise the marks are those of `validate`; a passing form opens the overlay with `MakePayload` and keeps the button disabled; a failing form opens nothing and re-enables the button unless `validate` threw; the store is untouched |
| Form.FormController.SaveToLocal | script2.js:187-197 | the new store is `Append` of the old store and the stamped record |
| Form.FormController.ConfirmOk | script2.js:235-257 | saves the payload the overlay captured, closes it and shows the success note, with the button still disabled |
| Form.FormController.Cancel | script2.js:182 | closes the overlay and leaves the button as it was, so a submit that opened the overlay leaves the page stranded |
| Form.FormController.KeyDown | script2.js:175-180 | Escape closes the overlay exactly as Annuler does; any other key changes nothing |
| Form.FormController.OverlayClick | script2.js:268-272 | only a click on the backdrop of an open overlay closes it and re-enables the button; nothing is written |
| Form.FormController.TimerFires | script2.js:259-264 | the pending success note goes away and the button is enabled |
| Form.FormController.Input | script2.js:286-288 | typing in a field clears that field's mark only |
| Form.FormController.RadioChange | script2.js:289-293 | changing a radio removes the `sexe` hint |
| Form.FormController.Handle | script2.js:175-293 | every handler keeps the page invariant, and once the button is disabled with no overlay and no pending note, no handler enables it again |
| Form.FormController.CancelReenabling | script2.js:267 | the dismissal the comment describes: close the overlay and re-enable the button |
| Form.CancelStrandsSubmit | script2.js:175-182 | after a passing submit dismissed with Annuler or Escape, no sequence of later events re-enables the button or opens an overlay |
| Form.CorrectedCancelAllowsResubmit | script2.js:267-272 | with the corrected dismissal, submitting the same form again reopens the overlay with the same payload |
| Form.ConfirmAppendsOneRecord | script2.js:235-264 | on a readable store with working storage, a passing submit confirmed with OK appends exactly one stamped record; the button stays disabled until the timer fires and is enabled after it |
| Form.RejectedSubmit | script2.js:210-214 | a failing submit leaves the store alone, opens no overlay, shows the `validate` marks, and re-enables the button exactly when the page has radios |
| Samples.AliceMatches | script2.js:69 | `alice@mail.fr` matches the pattern |
| Samples.DoubledAtRefused | script2.js:69 | `bad@@x.com` does not match |
| Samples.OtherMalformedRefused | script2.js:69 | `a@b.` and `a @b.c` do not match |
| Samples.DupontTrimmed | script2.js:218 | a padded name loses exactly its padding |
| Samples.AliceTrimmed | script2.js:220 | a padded address loses exactly its padding |
| Samples.DupontPasses | script2.js:51-108 | a padded form with a valid address and the second radio checked passes `validate` |
| Samples.DupontPayload | script2.js:217-223 | that form gives the trimmed payload with the value of the checked radio |
| Samples.BlankNameBadEmail | script2.js:55-76 | a blank name and a doubled `@` each get their own message, and the form does not pass |

## Left out

- The modal's markup and styling (script2.js:112-172) and every inline style of the hints and of the success note: presentation only. The overlay is modelled as "open, with its captured payload".
- Strings are sequences of Unicode scalar values, while JavaScript strings are UTF-16 code units and the pattern has no `u` flag. Lone surrogates cannot be represented; on well-formed text the verdict of `trim` and of the pattern is the same.
- An entry of the stored array that the page did not write is one opaque JSON value. How `JSON.stringify` at script2.js:192 rewrites its text (spacing, number forms, duplicate keys) is not modelled.
- Focus and scrolling (script2.js:45-48, 102-106, 229): they change no state the model tracks.
- Real `localStorage`, `JSON.parse`/`JSON.stringify` and `Date`: the store is the abstract `Stored` value; the timestamp and the storage's availability are parameters.
- The 2200 ms delay of `setTimeout`: only the event "the timer fires" is modelled.
- The login button's redirect (script2.js:277-283): navigation leaves the page.
- The navigation-link highlight (script2.js:297-304): unrelated to the form.
- The commented-out `form.submit()` (script2.js:256) and `form.reset()` (script2.js:263): they are not part of the running code.
- The browser's own constraint validation (`required`, `type="email"`), which may stop a submit before the script sees it: it belongs to the page's markup, which is not part of this model.
- Form.FormController.Validate: each field is taken to have a parent element of its own, so that the `.error-hint` query of one field never finds another field's hint.
- Form.FormController.Submit: a submit while the button is disabled is a no-op. This is the browser's implicit-submission rule, not code in the script.
- The `.sexe-error` hint is a single optional text. The source's two lookups (`document.querySelector` at line 207, and the form's `querySelector` at lines 81-96 and 290-292) are taken to find the same element.

## Findings

| source | as written | input that shows it | evidently intended | confidence | as-written member | corrected member |
|---|---|---|---|---|---|---|
| script2.js:175-182 | Annuler and Escape only remove the overlay. The submit button, disabled at line 203, stays disabled, and no later event can enable it again. | Fill the form so that it passes, submit, then click Annuler (or press Escape). | Re-enable the submit button on these dismissals too, as the comment at line 267 says and as the backdrop click does at lines 268-272. | not executed | Form.CancelStrandsSubmit | Form.FormController.CancelReenabling |

`Form.FormController.Cancel` and `Form.FormController.KeyDown` model the
code as written. Because `Handle` replays the page as it behaves, it keeps
them. `Form.CorrectedCancelAllowsResubmit` proves the intended property for
the corrected handler: the same form can be submitted again and reopens the
overlay with the same payload.
