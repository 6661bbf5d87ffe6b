/** Worked inputs: what the page does with a few concrete form fillings. */
module Samples {
  import opened Wrappers
  import opened Text
  import opened EmailPattern
  import opened Validation
  import opened Registration

  lemma AliceMatches()
    ensures Matches("alice@mail.fr")
  {
    var s := "alice@mail.fr";
    assert s[..5] == "alice" && s[6..10] == "mail" && s[11..] == "fr";
    assert AllPlain("alice") && AllPlain("mail") && AllPlain("fr");
    assert RegexSplit(s, 5, 10);
  }

  /** A doubled `@` is refused: whichever `@` the local part ends at, the
      other one falls inside a run of `[^\s@]`. */
  lemma DoubledAtRefused(s: string)
    requires s == "bad@@x.com"
    ensures !Matches(s)
  {
    forall i: nat, k: nat | 0 < i && i + 1 < k && k + 1 < |s|
      ensures !RegexSplit(s, i, k)
    {
      if s[i] == '@' {
        if i == 3 {
          assert s[i + 1..k][0] == '@';
        } else {
          assert s[..i][3] == '@';
        }
      }
    }
  }

  /** A missing part after the dot and an inner space are refused too. */
  lemma OtherMalformedRefused()
    ensures !Matches("a@b.")
    ensures !Matches("a @b.c")
  {
  }

  /** Padding on either side is cut, inner text is kept. */
  lemma DupontTrimmed()
    ensures Trim("  Dupont ") == "Dupont"
  {
    TrimOfPadded("  ", "Dupont", " ");
    assert "  " + "Dupont" + " " == "  Dupont ";
  }

  lemma AliceTrimmed()
    ensures Trim(" alice@mail.fr\t") == "alice@mail.fr"
  {
    TrimOfPadded(" ", "alice@mail.fr", "\t");
    assert " " + "alice@mail.fr" + "\t" == " alice@mail.fr\t";
  }

  /** A padded form with the second radio checked passes. (The filling
      comes in through parameters so that the solver does not evaluate
      `Trim` and `Matches` on the literals.) */
  lemma DupontPasses(nom: string, prenom: string, email: string, radios: seq<Radio>)
    requires nom == "  Dupont " && prenom == "Jean" && email == " alice@mail.fr\t"
    requires radios == [Radio("homme", false), Radio("femme", true)]
    ensures Passes(nom, prenom, email, radios)
  {
    DupontTrimmed();
    TrimOfTrimmed("Jean");
    AliceTrimmed();
    AliceMatches();
    assert Trim(nom) != [] && Trim(prenom) != [];
    assert Trim(email) != [] && Matches(Trim(email));
    assert AnyChecked(radios) by {
      assert radios[1].checked;
    }
  }

  /** Its payload holds the trimmed texts and the value of the first
      checked radio. */
  lemma DupontPayload()
    ensures MakePayload("  Dupont ", "Jean", " alice@mail.fr\t", [Radio("homme", false), Radio("femme", true)], "etudiant")
         == Payload("Dupont", "Jean", "alice@mail.fr", "femme", "etudiant")
  {
    var radios := [Radio("homme", false), Radio("femme", true)];
    DupontTrimmed();
    TrimOfTrimmed("Jean");
    AliceTrimmed();
    assert radios[1].checked;
  }

  /** A blank name and a doubled `@`: both fields get their own message and
      the form does not pass. */
  lemma BlankNameBadEmail(nom: string, prenom: string, email: string)
    requires nom == "   " && prenom == "Jean" && email == "bad@@x.com"
    ensures var m := ExpectedMarks(nom, prenom, email);
      && m.nom == Mark(true, Some(NomMissing))
      && m.prenom == Clear
      && m.email == Mark(true, Some(EmailMalformed))
      && !Passes(nom, prenom, email, [Radio("homme", true)])
  {
    TrimEmptyIff(nom);
    TrimOfTrimmed(prenom);
    TrimOfTrimmed(email);
    DoubledAtRefused(email);
    assert Trim(nom) == [] && Trim(prenom) != [];
    assert EmailMessage(email) == Some(EmailMalformed);
  }
}
