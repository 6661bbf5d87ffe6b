/** The demo payload built from a passing form, and the demo store it is
    appended to under the key `sar7_users_demo`. */
module Registration {
  import opened Wrappers
  import opened Text
  import opened EmailPattern
  import opened Validation

  const StoreKey: string := "sar7_users_demo"

  datatype Payload = Payload(nom: string, prenom: string, email: string, sexe: string, status: string)

  /** `{...payload, created_at}`; the timestamp is an opaque ISO-8601 text. */
  datatype Record = Record(payload: Payload, createdAt: string)

  /** An element of the stored array: a record this page wrote, or any other
      JSON value that was already there, taken as one opaque value (what
      `JSON.stringify` writes back for it is not modelled). */
  datatype Entry = Saved(record: Record) | Foreign(json: string)

  /** What `localStorage.getItem(key)` holds, as far as the page cares:
      nothing, the empty string, a JSON array, or a text that either does
      not parse or parses to something that is not an array. */
  datatype Stored = Absent | EmptyText | Records(entries: seq<Entry>) | Corrupt

  /** The array `JSON.parse(getItem(key) || '[]')` yields, for a store that
      yields one. */
  function Existing(s: Stored): seq<Entry>
    requires !s.Corrupt?
  {
    if s.Records? then s.entries else []
  }

  /** Index of the first checked radio, as `find(i => i.checked)` gives it. */
  function FirstChecked(radios: seq<Radio>): (r: Option<nat>)
    ensures r.None? <==> !AnyChecked(radios)
    ensures r.Some? ==> r.value < |radios| && radios[r.value].checked
    ensures r.Some? ==> forall j :: 0 <= j < r.value ==> !radios[j].checked
  {
    if radios == [] then None
    else if radios[0].checked then Some(0)
    else
      var rest := FirstChecked(radios[1..]);
      assert forall j :: 0 < j < |radios| ==> radios[j] == radios[1..][j - 1];
      match rest
      case None => None
      case Some(i) => Some(i + 1)
  }

  /** The payload literal: trimmed names and e-mail, the value of the first
      checked radio (`?.value || ''`, which is the value itself or the empty
      string when none is checked) and the status as it is. */
  function MakePayload(nom: string, prenom: string, email: string, radios: seq<Radio>, status: string): (p: Payload)
    ensures p.nom == Trim(nom) && p.prenom == Trim(prenom) && p.email == Trim(email)
    ensures p.status == status
    ensures !AnyChecked(radios) ==> p.sexe == ""
    ensures AnyChecked(radios) ==> exists i ::
      && 0 <= i < |radios| && radios[i].checked && p.sexe == radios[i].value
      && forall j :: 0 <= j < i ==> !radios[j].checked
  {
    var sexe := match FirstChecked(radios)
      case Some(i) => radios[i].value
      case None => "";
    Payload(Trim(nom), Trim(prenom), Trim(email), sexe, status)
  }

  /** A payload built from a passing form has non-empty names without
      surrounding whitespace and an e-mail of the address shape: no
      malformed record reaches the store. */
  lemma PassingPayloadWellFormed(nom: string, prenom: string, email: string, radios: seq<Radio>, status: string)
    requires Passes(nom, prenom, email, radios)
    ensures var p := MakePayload(nom, prenom, email, radios, status);
      && p.nom != [] && Trim(p.nom) == p.nom
      && p.prenom != [] && Trim(p.prenom) == p.prenom
      && Characterised(p.email)
  {
    TrimIdempotent(nom);
    TrimIdempotent(prenom);
    MatchesIffCharacterised(Trim(email));
  }

  /** `saveToLocal`: read, parse, push, write back; any failure is caught
      and leaves the store as it was. `storageOk` says whether the storage
      was reachable and accepted the write. */
  function Append(stored: Stored, rec: Record, storageOk: bool): (r: Stored)
    ensures !storageOk || stored.Corrupt? ==> r == stored
    ensures storageOk && !stored.Corrupt? ==> r == Records(Existing(stored) + [Saved(rec)])
  {
    if stored.Corrupt? || !storageOk then stored
    else Records(Existing(stored) + [Saved(rec)])
  }

  /** `getItem(key) || '[]'`: an empty stored text reads exactly like a
      missing key, and saving to either gives the same one-record array. */
  lemma EmptyTextReadsAsAbsent(rec: Record)
    ensures Existing(EmptyText) == Existing(Absent) == []
    ensures Append(EmptyText, rec, true) == Append(Absent, rec, true) == Records([Saved(rec)])
  {
  }

  /** The store is append-only: what was readable before is a prefix of what
      is readable after, at most one entry longer, and a readable store
      stays readable. */
  lemma AppendOnly(stored: Stored, rec: Record, storageOk: bool)
    requires !stored.Corrupt?
    ensures var r := Append(stored, rec, storageOk);
      && !r.Corrupt?
      && Existing(stored) <= Existing(r)
      && |Existing(r)| <= |Existing(stored)| + 1
  {
  }

  /** Appending the same payload twice stores it twice: there is no
      uniqueness check. */
  lemma AppendKeepsDuplicates(stored: Stored, rec: Record)
    requires !stored.Corrupt?
    ensures Append(Append(stored, rec, true), rec, true)
      == Records(Existing(stored) + [Saved(rec), Saved(rec)])
  {
    assert Existing(stored) + [Saved(rec)] + [Saved(rec)]
      == Existing(stored) + [Saved(rec), Saved(rec)];
  }
}
