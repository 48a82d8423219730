/** The question step: the submit predicate on the typed question, the question a
    suggestion chip fills in, and the visibility of the "Run Analysis" button. */
module Question {
  import Text
  import opened Wrappers

  /** The labels of the suggestion chips, in display order. */
  const Suggestions: seq<string> := ["Market size", "Growth rate", "Key competitors"]

  /** The question the step hands to `onAnalyze` when the form is submitted, or None when
      submitting does nothing. The question goes out as typed, not trimmed. */
  function Submit(question: string): (r: Option<string>)
    ensures r.Some? <==> |Text.Trim(question)| > 3
    ensures r.Some? ==> r.value == question
    ensures Text.AllSpace(question) ==> r.None?
    ensures |question| <= 3 ==> r.None?
  {
    if |Text.Trim(question)| > 3 then Some(question) else None
  }

  /** Whether the "Run Analysis" button is shown (otherwise it is transparent and ignores
      clicks). */
  predicate ButtonVisible(question: string) {
    |Text.Trim(question)| > 3
  }

  /** The button is shown exactly when submitting would call `onAnalyze`. */
  lemma VisibleIffSubmits(question: string)
    ensures ButtonVisible(question) <==> Submit(question).Some?
  {
  }

  /** Surrounding whitespace decides nothing: a padded question submits exactly when the
      bare one does, and it is still passed on with its padding. */
  lemma SubmitPadded(a: string, q: string, b: string)
    requires Text.AllSpace(a) && Text.AllSpace(b)
    requires q != [] && !Text.IsSpace(q[0]) && !Text.IsSpace(q[|q| - 1])
    ensures Submit(a + q + b).Some? <==> Submit(q).Some?
    ensures Submit(a + q + b).Some? ==> Submit(a + q + b).value == a + q + b
  {
    Text.TrimPadded(a, q, b);
    Text.TrimUntrimmed(q);
  }

  /** The question a suggestion chip sets: "What is the " + the lower-cased label + "?". */
  function Suggestion(chip: string): (q: string)
    ensures |q| == |chip| + 13
    ensures q[..12] == "What is the " && q[|q| - 1] == '?'
    ensures forall i :: 0 <= i < |chip| ==> q[12 + i] == Text.LowerChar(chip[i])
  {
    "What is the " + Text.Lower(chip) + "?"
  }

  /** Whatever its label, the question a chip fills in can be submitted as it stands. */
  lemma SuggestionSubmits(chip: string)
    ensures Submit(Suggestion(chip)) == Some(Suggestion(chip))
    ensures ButtonVisible(Suggestion(chip))
  {
    var q := Suggestion(chip);
    assert q[0] == 'W';
    Text.TrimUntrimmed(q);
  }
}
