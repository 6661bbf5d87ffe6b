/** The form controller that the page wires up once its markup is ready:
    inline error hints, validation on submit, the confirmation overlay, the
    demo store and the success note with its timer. Each event handler is a
    method; the page state it touches is a field. */
module Form {
  import opened Wrappers
  import opened Text
  import opened EmailPattern
  import opened Validation
  import opened Registration

  /** How a call of `validate` ends: with its verdict, or with the
      exception `sexeInputs[0].closest(...)` raises when the page has no
      `sexe` radio at all. */
  datatype Completion = Returned(ok: bool) | Threw

  /** One user or timer event the page reacts to, with what the handler
      reads at that moment: the field values on submit, the clock text and
      whether the storage works on OK, the key, the click target. */
  datatype Event =
    | SubmitForm(nom: string, prenom: string, email: string, radios: seq<Radio>, status: string)
    | ClickOk(now: string, storageOk: bool)
    | ClickCancel
    | Key(key: string)
    | ClickOverlay(onBackdrop: bool)
    | TimerFired
    | Typed(field: Field)
    | RadioChanged

  class FormController {
    /** The flag and hint of each field. */
    var marks: Marks
    /** The shared `.sexe-error` hint in the form, if there is one. */
    var sexeHint: Option<string>
    /** `!submitBtn.disabled`. */
    var submitEnabled: bool
    /** The confirmation overlay in the page, with the payload its OK
        handler captured when it was built. */
    var overlay: Option<Payload>
    /** The success note is shown and its timer has not fired yet. */
    var successShown: bool
    /** `localStorage[StoreKey]`. */
    var store: Stored

    /** A hint is only ever shown together with its field's flag, `status`
        is never flagged, the button is disabled while a dialog is open or the
        success note is pending, and both never coexist. */
    ghost predicate Valid()
      reads this
    {
      && Consistent(marks.nom) && Consistent(marks.prenom) && Consistent(marks.email)
      && marks.status == Clear
      && (overlay.Some? ==> !submitEnabled && !successShown)
      && (successShown ==> !submitEnabled)
    }

    static predicate Consistent(m: Mark)
    {
      m.hint.Some? ==> m.invalid
    }

    /** What Cancel and Escape leave behind: no dialog, no pending timer,
        and the submit button still disabled. Every handler keeps it. */
    ghost predicate Stranded()
      reads this
    {
      !submitEnabled && overlay.None? && !successShown
    }

    /** The page right after `DOMContentLoaded`: no hints, the button
        enabled, whatever an earlier visit left in the store. */
    constructor (initial: Stored)
      ensures Valid()
      ensures marks == NoMarks && sexeHint == None
      ensures submitEnabled && overlay == None && !successShown
      ensures store == initial
    {
      marks, sexeHint := NoMarks, None;
      submitEnabled, overlay, successShown := true, None, false;
      store := initial;
    }

    /** `setInvalid(el, message)`: flag the field; with a non-empty message,
        create the hint if it is absent and set its text either way. */
    method SetInvalid(f: Field, message: string)
      modifies this`marks
      ensures message != [] ==> marks.Get(f) == Mark(true, Some(message))
      ensures message == [] ==> marks.Get(f) == old(marks.Get(f)).(invalid := true)
      ensures marks == old(marks).Put(f, marks.Get(f))
    {
      var hint := if message != [] then Some(message) else marks.Get(f).hint;
      marks := marks.Put(f, Mark(true, hint));
    }

    /** `clearInvalid(el)`: drop the flag and the hint of that field only.
        Clearing a field that is already clear changes nothing. */
    method ClearInvalid(f: Field)
      modifies this`marks
      ensures marks == old(marks).Put(f, Clear)
      ensures old(marks.Get(f)) == Clear ==> marks == old(marks)
    {
      marks := marks.Put(f, Clear);
    }

    /** `[nom, prenom, email, status].forEach(clearInvalid)`. */
    method ClearAll()
      modifies this`marks
      ensures marks == NoMarks
    {
      ClearInvalid(Nom);
      ClearInvalid(Prenom);
      ClearInvalid(Email);
      ClearInvalid(Status);
    }

    /** `validate()`: clear the four fields, then run every check, letting
        the failures accumulate into `ok`. */
    method Validate(nom: string, prenom: string, email: string, radios: seq<Radio>) returns (c: Completion)
      modifies this`marks, this`sexeHint
      ensures c.Threw? <==> radios == []
      ensures c.Returned? ==> (c.ok <==> Passes(nom, prenom, email, radios))
      ensures marks == ExpectedMarks(nom, prenom, email)
      ensures radios != [] ==> sexeHint == if AnyChecked(radios) then None else Some(SexeMissing)
      ensures radios == [] ==> sexeHint == old(sexeHint)
    {
      ClearAll();
      var ok := true;
      var sexeSelected := AnyChecked(radios);
      if Trim(nom) == [] {
        SetInvalid(Nom, NomMissing);
        ok := false;
      }
      assert marks == NoMarks.(nom := MarkFor(Nom, nom, prenom, email));
      assert ok <==> Trim(nom) != [];
      if Trim(prenom) == [] {
        SetInvalid(Prenom, PrenomMissing);
        ok := false;
      }
      assert marks == NoMarks.(nom := MarkFor(Nom, nom, prenom, email), prenom := MarkFor(Prenom, nom, prenom, email));
      assert ok <==> Trim(nom) != [] && Trim(prenom) != [];
      var emailValue := Trim(email);
      if emailValue == [] {
        SetInvalid(Email, EmailMissing);
        ok := false;
      } else if !Matches(emailValue) {
        SetInvalid(Email, EmailMalformed);
        ok := false;
      }
      assert marks == ExpectedMarks(nom, prenom, email);
      assert ok <==> Trim(nom) != [] && Trim(prenom) != [] && emailValue != [] && Matches(emailValue);
      if !sexeSelected {
        if radios == [] {
          // sexeInputs[0] is undefined: the exception leaves validate here
          return Threw;
        }
        sexeHint := Some(SexeMissing);
        ok := false;
      } else {
        sexeHint := None;
      }
      return Returned(ok);
    }

    /** The submit handler. The browser fires no submit while the button is
        disabled, so then nothing happens. Otherwise: disable the button,
        clear the old hints, validate; on failure re-enable the button, on
        success build the payload and open the confirmation overlay. */
    method Submit(nom: string, prenom: string, email: string, radios: seq<Radio>, status: string)
      requires Valid()
      modifies this
      ensures Valid()
      ensures store == old(store) && successShown == old(successShown)
      ensures !old(submitEnabled) ==>
        && marks == old(marks) && sexeHint == old(sexeHint)
        && submitEnabled == old(submitEnabled) && overlay == old(overlay)
      ensures old(submitEnabled) ==>
        && marks == ExpectedMarks(nom, prenom, email)
        && sexeHint == (if radios != [] && !AnyChecked(radios) then Some(SexeMissing) else None)
      ensures old(submitEnabled) && Passes(nom, prenom, email, radios) ==>
        overlay == Some(MakePayload(nom, prenom, email, radios, status)) && !submitEnabled
      ensures old(submitEnabled) && !Passes(nom, prenom, email, radios) ==>
        overlay == None && (submitEnabled <==> radios != [])
      ensures old(Stranded()) ==> Stranded()
    {
      if !submitEnabled {
        return;
      }
      assert overlay.None? && !successShown;
      submitEnabled := false;
      ClearAll();
      sexeHint := None;
      var c := Validate(nom, prenom, email, radios);
      assert Consistent(marks.nom) && Consistent(marks.prenom) && Consistent(marks.email);
      if c.Threw? {
        // the exception escapes the handler with the button still disabled
        return;
      }
      if !c.ok {
        submitEnabled := true;
        return;
      }
      var payload := MakePayload(nom, prenom, email, radios, status);
      overlay := Some(payload);
    }

    /** `saveToLocal(payload)`: parse what is stored (an absent or empty
        value reads as `[]`), push the stamped record and write the array
        back; a corrupt value, a non-array value or a failing storage throws,
        and the catch leaves the store as it was. */
    method SaveToLocal(payload: Payload, now: string, storageOk: bool)
      modifies this`store
      ensures store == Append(old(store), Record(payload, now), storageOk)
    {
      if store.Corrupt? {
        // JSON.parse throws, or the parsed value has no push
        return;
      }
      var existing := Existing(store);
      existing := existing + [Saved(Record(payload, now))];
      if storageOk {
        store := Records(existing);
      }
    }

    /** A click on OK: save the captured payload, remove the overlay and show
        the success note. The button stays disabled until the timer fires. */
    method ConfirmOk(now: string, storageOk: bool)
      requires Valid()
      modifies this`store, this`overlay, this`successShown
      ensures Valid()
      ensures old(overlay).None? ==>
        store == old(store) && overlay == old(overlay) && successShown == old(successShown)
      ensures old(overlay).Some? ==>
        && store == Append(old(store), Record(old(overlay).value, now), storageOk)
        && overlay.None? && successShown
      ensures old(Stranded()) ==> Stranded()
    {
      if overlay.Some? {
        SaveToLocal(overlay.value, now, storageOk);
        overlay := None;
        successShown := true;
      }
    }

    /** A click on Annuler removes the overlay and nothing else: the button
        is left disabled. */
    method Cancel()
      requires Valid()
      modifies this`overlay
      ensures Valid()
      ensures overlay.None?
      ensures old(overlay).Some? ==> Stranded()
      ensures old(Stranded()) ==> Stranded()
    {
      overlay := None;
    }

    /** A keydown inside the overlay: Escape removes it, exactly as Annuler
        does; any other key does nothing. */
    method KeyDown(key: string)
      requires Valid()
      modifies this`overlay
      ensures Valid()
      ensures key == "Escape" ==> overlay.None?
      ensures key == "Escape" && old(overlay).Some? ==> Stranded()
      ensures key != "Escape" ==> overlay == old(overlay)
      ensures old(Stranded()) ==> Stranded()
    {
      if key == "Escape" {
        overlay := None;
      }
    }

    /** A click that reaches the overlay. Only a click on the dimmed backdrop
        itself (not on the dialog or its buttons) removes the overlay and
        re-enables the button; it writes nothing. */
    method OverlayClick(onBackdrop: bool)
      requires Valid()
      modifies this`overlay, this`submitEnabled
      ensures Valid()
      ensures onBackdrop && old(overlay).Some? ==> overlay.None? && submitEnabled
      ensures !(onBackdrop && old(overlay).Some?) ==>
        overlay == old(overlay) && submitEnabled == old(submitEnabled)
      ensures old(Stranded()) ==> Stranded()
    {
      if onBackdrop && overlay.Some? {
        overlay := None;
        submitEnabled := true;
      }
    }

    /** The success timer fires: the note goes and the button is enabled. */
    method TimerFires()
      requires Valid()
      modifies this`successShown, this`submitEnabled
      ensures Valid()
      ensures old(successShown) ==> !successShown && submitEnabled
      ensures !old(successShown) ==> !successShown && submitEnabled == old(submitEnabled)
      ensures old(Stranded()) ==> Stranded()
    {
      if successShown {
        successShown := false;
        submitEnabled := true;
      }
    }

    /** Typing in a field clears that field's flag and hint. */
    method Input(f: Field)
      requires Valid()
      modifies this`marks
      ensures Valid()
      ensures marks == old(marks).Put(f, Clear)
    {
      ClearInvalid(f);
    }

    /** Changing a radio removes the shared group hint. */
    method RadioChange()
      modifies this`sexeHint
      ensures sexeHint == None
    {
      sexeHint := None;
    }

    /** Dispatches one event to its handler. */
    method Handle(e: Event)
      requires Valid()
      modifies this
      ensures Valid()
      ensures old(Stranded()) ==> Stranded()
    {
      match e
      case SubmitForm(nom, prenom, email, radios, status) => Submit(nom, prenom, email, radios, status);
      case ClickOk(now, storageOk) => ConfirmOk(now, storageOk);
      case ClickCancel => Cancel();
      case Key(key) => KeyDown(key);
      case ClickOverlay(onBackdrop) => OverlayClick(onBackdrop);
      case TimerFired => TimerFires();
      case Typed(f) => Input(f);
      case RadioChanged => RadioChange();
    }

    /** What the comment above the backdrop handler describes for Annuler
        and Escape: close the dialog and re-enable the button. */
    method CancelReenabling()
      requires Valid()
      modifies this`overlay, this`submitEnabled
      ensures Valid()
      ensures overlay.None?
      ensures old(overlay).Some? ==> submitEnabled
      ensures old(overlay).None? ==> submitEnabled == old(submitEnabled)
    {
      if overlay.Some? {
        overlay := None;
        submitEnabled := true;
      }
    }
  }

  /** Submit a passing form, then dismiss the dialog with Annuler (or Escape,
      which does the same): whatever happens afterwards, the button stays
      disabled and no dialog opens again until the page is reloaded. */
  method CancelStrandsSubmit(initial: Stored, nom: string, prenom: string, email: string,
                             radios: seq<Radio>, status: string, viaEscape: bool, later: seq<Event>)
    returns (enabled: bool, dialogOpen: bool)
    requires Passes(nom, prenom, email, radios)
    ensures !enabled && !dialogOpen
  {
    var page := new FormController(initial);
    page.Submit(nom, prenom, email, radios, status);
    if viaEscape {
      page.KeyDown("Escape");
    } else {
      page.Cancel();
    }
    var k := 0;
    while k < |later|
      invariant 0 <= k <= |later|
      invariant page.Valid() && page.Stranded()
    {
      page.Handle(later[k]);
      k := k + 1;
    }
    enabled, dialogOpen := page.submitEnabled, page.overlay.Some?;
  }

  /** With the corrected Annuler, the same form can be submitted again and
      the dialog reopens with the same payload. */
  method CorrectedCancelAllowsResubmit(initial: Stored, nom: string, prenom: string, email: string,
                                       radios: seq<Radio>, status: string)
    returns (dialog: Option<Payload>)
    requires Passes(nom, prenom, email, radios)
    ensures dialog == Some(MakePayload(nom, prenom, email, radios, status))
  {
    var page := new FormController(initial);
    page.Submit(nom, prenom, email, radios, status);
    page.CancelReenabling();
    page.Submit(nom, prenom, email, radios, status);
    dialog := page.overlay;
  }

  /** Submit a passing form and confirm: exactly one stamped record is
      appended to the store, and the button is disabled until the timer
      fires and enabled after. */
  method ConfirmAppendsOneRecord(initial: Stored, nom: string, prenom: string, email: string,
                                 radios: seq<Radio>, status: string, now: string)
    returns (stored: Stored, enabledBefore: bool, enabledAfter: bool)
    requires Passes(nom, prenom, email, radios)
    requires !initial.Corrupt?
    ensures stored == Records(Existing(initial) + [Saved(Record(MakePayload(nom, prenom, email, radios, status), now))])
    ensures !enabledBefore && enabledAfter
  {
    var page := new FormController(initial);
    page.Submit(nom, prenom, email, radios, status);
    page.ConfirmOk(now, true);
    enabledBefore := page.submitEnabled;
    page.TimerFires();
    enabledAfter := page.submitEnabled;
    stored := page.store;
  }

  /** A submit that fails validation shows the hints, leaves the store
      alone, opens no dialog and gives the button back, unless the page has
      no radio at all, when the exception leaves it disabled. */
  method RejectedSubmit(initial: Stored, nom: string, prenom: string, email: string,
                        radios: seq<Radio>, status: string)
    returns (stored: Stored, marks: Marks, dialogOpen: bool, enabled: bool)
    requires !Passes(nom, prenom, email, radios)
    ensures stored == initial && !dialogOpen
    ensures marks == ExpectedMarks(nom, prenom, email)
    ensures enabled <==> radios != []
  {
    var page := new FormController(initial);
    page.Submit(nom, prenom, email, radios, status);
    stored, marks, dialogOpen, enabled := page.store, page.marks, page.overlay.Some?, page.submitEnabled;
  }
}
