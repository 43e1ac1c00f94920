/**
 * The modal that asks for one variable's value (sidepanel.js lines 286-421), reduced to
 * what decides its answer: the submit rule (lines 397-406), cancellation (lines 408-411)
 * and the chip delete it offers while open (lines 336-348).
 */
module Wizard {
  import opened Wrappers
  import opened Text

  /**
   * Submit: the trimmed input, or the default when the trimmed input is empty; with
   * neither, the modal stays open (None).
   */
  function Submit(input: string, default: string): (r: Option<string>)
    ensures r.None? <==> Trim(input) == [] && default == []
    ensures Trim(input) != [] ==> r == Some(Trim(input))
    ensures Trim(input) == [] && default != [] ==> r == Some(default)
  {
    var val := Trim(input);
    var val := if val == [] && default != [] then default else val;
    if val == [] && default == [] then None else Some(val)
  }

  /** An accepted value is never empty, and never blank when the default is trimmed. */
  lemma SubmitAccepted(input: string, default: string)
    requires IsTrimmed(default)
    requires Submit(input, default).Some?
    ensures Submit(input, default).value != []
    ensures IsTrimmed(Submit(input, default).value)
    ensures Trim(Submit(input, default).value) == Submit(input, default).value
  {
    var v := Submit(input, default).value;
    if Trim(input) != [] {
      TrimIdempotent(input);
    } else {
      TrimOfTrimmed(default);
    }
  }

  /** The text area opens holding the default, so submitting it untouched yields the default. */
  lemma SubmitPrefilled(default: string)
    requires IsTrimmed(default) && default != []
    ensures Submit(default, default) == Some(default)
  {
    TrimOfTrimmed(default);
  }

  /**
   * What the user does while the modal for one variable is open: submit the text area's
   * content (typed, pasted or filled from a chip), cancel, or delete history chip `index`.
   */
  datatype Response = Confirm(input: string) | Dismiss | DeleteChip(index: nat)
}
