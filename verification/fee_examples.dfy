/** Worked totals of the fee calculator. Each fact about a literal name is
    its own small lemma, so that the verifier evaluates one literal at a
    time. */
module FeeExamples {
  import opened Text
  import opened Fees

  /** A name already in normal form (no blanks, no capitals) is its own
      normal form. */
  lemma NormalizeNormal(w: string)
    requires forall i :: 0 <= i < |w| ==> !IsSpace(w[i]) && !('A' <= w[i] <= 'Z')
    ensures Normalize(w) == w
  {
    assert Strip(w) == w;
    assert ToLower(w) == w;
  }

  lemma StripBengali()
    ensures Strip("Bengali") == "Bengali"
  {
  }

  lemma LowerBengali()
    ensures ToLower("Bengali") == "bengali"
  {
  }

  lemma FeeOfBengali()
    ensures SubjectFee("Bengali") == 500
  {
    StripBengali();
    LowerBengali();
  }

  lemma StripPaddedHistory()
    ensures Strip(" HISTORY ") == "HISTORY"
  {
    assert " HISTORY "[1..] == "HISTORY ";
    assert "HISTORY "[..7] == "HISTORY";
  }

  lemma LowerHistory()
    ensures ToLower("HISTORY") == "history"
  {
  }

  lemma NormalizePaddedHistory()
    ensures Normalize(" HISTORY ") == "history"
  {
    StripPaddedHistory();
    LowerHistory();
  }

  lemma FeeOfPaddedHistory()
    ensures SubjectFee(" HISTORY ") == 400
  {
    NormalizePaddedHistory();
  }

  /** No subjects cost nothing. */
  lemma FeesOfNothing()
    ensures CalculateFees([]) == 0
  {
  }

  /** Case and padding are ignored: Bengali (500) and History (400). */
  lemma FeesIgnoreCaseAndPadding()
    ensures CalculateFees(["Bengali", " HISTORY "]) == 900
  {
    FeeOfBengali();
    FeeOfPaddedHistory();
    assert ["Bengali", " HISTORY "][1..] == [" HISTORY "];
  }

  lemma FeeOfFrench()
    ensures SubjectFee("french") == 0
  {
    NormalizeNormal("french");
  }

  lemma FeeOfEnglish()
    ensures SubjectFee("english") == 600
  {
    NormalizeNormal("english");
  }

  lemma FeeOfComputer()
    ensures SubjectFee("computer") == 700
  {
    NormalizeNormal("computer");
  }

  /** A subject missing from the table is free. */
  lemma FeesOfUnknownSubject()
    ensures CalculateFees(["french"]) == 0
  {
    FeeOfFrench();
    assert ["french"][1..] == [];
  }

  /** English (600) and Computer (700). */
  lemma FeesOfEnglishAndComputer()
    ensures CalculateFees(["english", "computer"]) == 1300
  {
    FeeOfEnglish();
    FeeOfComputer();
    assert ["english", "computer"][1..] == ["computer"];
  }
}
