/** What one pass of `validate` decides: the overall verdict and the hint
    each field ends up with. The controller's `Validate` method is proved
    to produce exactly these. */
module Validation {
  import opened Wrappers
  import opened Text
  import opened EmailPattern

  /** The four fields that carry their own hint. */
  datatype Field = Nom | Prenom | Email | Status

  /** One `input[name="sexe"]` radio button. */
  datatype Radio = Radio(value: string, checked: bool)

  const NomMissing: string := "Veuillez entrer votre nom."
  const PrenomMissing: string := "Veuillez entrer votre prénom."
  const EmailMissing: string := "Veuillez entrer votre adresse e-mail."
  const EmailMalformed: string := "Format d'email invalide."
  const SexeMissing: string := "Veuillez sélectionner votre sexe."

  /** `sexeInputs.some(i => i.checked)`, tried left to right: true exactly
      when some radio is checked. */
  predicate AnyChecked(radios: seq<Radio>): (b: bool)
    ensures b <==> exists i :: 0 <= i < |radios| && radios[i].checked
  {
    if radios == [] then false
    else if radios[0].checked then true
    else
      assert forall i :: 0 < i < |radios| ==> radios[i] == radios[1..][i - 1];
      AnyChecked(radios[1..])
  }

  /** The message the e-mail field gets: the empty test first, the pattern
      only for a non-empty trimmed value. Only a whitespace-only e-mail gets
      the "missing" message, and the format message appears only for a
      non-empty trimmed e-mail outside the address shape. */
  function EmailMessage(email: string): (r: Option<string>)
    ensures r == Some(EmailMissing) <==> AllWs(email)
    ensures r == Some(EmailMalformed) <==> !AllWs(email) && !Characterised(Trim(email))
    ensures r == None <==> Characterised(Trim(email))
  {
    var v := Trim(email);
    TrimEmptyIff(email);
    MatchesIffCharacterised(v);
    if v == [] then Some(EmailMissing)
    else if !Matches(v) then Some(EmailMalformed)
    else None
  }

  /** What the page shows for one field: its `input-error` / `aria-invalid`
      flag, and the `.error-hint` in its parent if there is one. Every field
      is taken to have a parent of its own. */
  datatype Mark = Mark(invalid: bool, hint: Option<string>)

  const Clear: Mark := Mark(false, None)

  /** The marks of the four fields. */
  datatype Marks = Marks(nom: Mark, prenom: Mark, email: Mark, status: Mark)
  {
    function Get(f: Field): Mark
    {
      match f
      case Nom => nom
      case Prenom => prenom
      case Email => email
      case Status => status
    }

    /** The same marks with field `f`'s replaced by `m`. */
    function Put(f: Field, m: Mark): (r: Marks)
      ensures r.Get(f) == m
      ensures f != Nom ==> r.nom == nom
      ensures f != Prenom ==> r.prenom == prenom
      ensures f != Email ==> r.email == email
      ensures f != Status ==> r.status == status
      ensures m == Get(f) ==> r == this
    {
      match f
      case Nom => this.(nom := m)
      case Prenom => this.(prenom := m)
      case Email => this.(email := m)
      case Status => this.(status := m)
    }
  }

  const NoMarks: Marks := Marks(Clear, Clear, Clear, Clear)

  /** The message `validate` leaves on one field, if any. */
  function HintFor(f: Field, nom: string, prenom: string, email: string): Option<string>
  {
    match f
    case Nom => if Trim(nom) == [] then Some(NomMissing) else None
    case Prenom => if Trim(prenom) == [] then Some(PrenomMissing) else None
    case Email => EmailMessage(email)
    case Status => None
  }

  /** The mark `validate` leaves on one field: flagged with the message
      when the field fails, clear otherwise. */
  function MarkFor(f: Field, nom: string, prenom: string, email: string): Mark
  {
    match HintFor(f, nom, prenom, email)
    case Some(msg) => Mark(true, Some(msg))
    case None => Clear
  }

  /** The marks the four fields hold after `validate`: every field is
      cleared first, then each failing field is flagged with its own
      message, whatever the other fields hold; `status` never is. */
  function ExpectedMarks(nom: string, prenom: string, email: string): (m: Marks)
    ensures m.Get(Nom) == (if AllWs(nom) then Mark(true, Some(NomMissing)) else Clear)
    ensures m.Get(Prenom) == (if AllWs(prenom) then Mark(true, Some(PrenomMissing)) else Clear)
    ensures m.Get(Email).invalid <==> !Characterised(Trim(email))
    ensures m.Get(Email).hint == EmailMessage(email)
    ensures m.Get(Status) == Clear
  {
    TrimEmptyIff(nom);
    TrimEmptyIff(prenom);
    Marks(MarkFor(Nom, nom, prenom, email), MarkFor(Prenom, nom, prenom, email),
          MarkFor(Email, nom, prenom, email), MarkFor(Status, nom, prenom, email))
  }

  /** The value `validate` returns: true exactly when both names hold a
      non-whitespace character, the trimmed e-mail has the address shape and
      a radio is checked. */
  predicate Passes(nom: string, prenom: string, email: string, radios: seq<Radio>): (b: bool)
    ensures b <==>
      && !AllWs(nom) && !AllWs(prenom)
      && Characterised(Trim(email))
      && AnyChecked(radios)
  {
    TrimEmptyIff(nom);
    TrimEmptyIff(prenom);
    TrimEmptyIff(email);
    MatchesIffCharacterised(Trim(email));
    && Trim(nom) != []
    && Trim(prenom) != []
    && Trim(email) != [] && Matches(Trim(email))
    && AnyChecked(radios)
  }

  /** `validate` returns true exactly when no field is left marked and no
      group hint is shown: the verdict and the messages never disagree. */
  lemma PassesIffUnmarked(nom: string, prenom: string, email: string, radios: seq<Radio>)
    ensures Passes(nom, prenom, email, radios) <==>
      ExpectedMarks(nom, prenom, email) == NoMarks && AnyChecked(radios)
  {
  }
}
