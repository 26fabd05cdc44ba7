/** The "Add Speech Type" and "Delete Type" handlers of the multi-style tab.
    Besides the regular row the tab has MaxSpeechTypes - 1 extra rows, hidden
    at start; a counter in the session state says how many speech types are
    in use. Each handler returns the new counter and one update per extra row. */
module SpeechTypeRows {
  import opened SpeechTypes

  /** What a handler sends to one row: gr.update() (no change),
      gr.update(visible=True) or gr.update(visible=False). */
  datatype RowUpdate = Keep | Show | Hide

  /** The number of extra rows. */
  const ExtraRows := MaxSpeechTypes - 1

  /** The visibility of the extra rows once the updates are applied; updates[r]
      goes to row r, which the handlers' loops reach at position r + 1. */
  function Apply(visible: seq<bool>, updates: seq<RowUpdate>): (r: seq<bool>)
    requires |visible| == |updates|
    ensures |r| == |visible|
    ensures forall k :: 0 <= k < |r| ==> r[k] == (if updates[k] == Show then true else if updates[k] == Hide then false else visible[k])
  {
    seq(|visible|, k requires 0 <= k < |visible| =>
      if updates[k] == Show then true else if updates[k] == Hide then false else visible[k])
  }

  /** The rows agree with the counter: exactly the first count - 1 extra rows are shown. */
  ghost predicate InSync(visible: seq<bool>, count: int) {
    |visible| == ExtraRows && forall r :: 0 <= r < |visible| ==> (visible[r] <==> r + 1 < count)
  }

  // ---------------------------------------------------------------------------
  // add_speech_type_fn
  // ---------------------------------------------------------------------------

  /** The counter after "Add Speech Type": one more, up to the cap. */
  function AddCount(count: int): int {
    if count < MaxSpeechTypes then count + 1 else count
  }

  /** The updates of "Add Speech Type": below the cap, show every row the new
      counter covers; at the cap, change nothing. */
  function AddUpdates(count: int): seq<RowUpdate> {
    seq(ExtraRows, r => if count < MaxSpeechTypes && r + 1 < AddCount(count) then Show else Keep)
  }

  method AddSpeechType(count: int) returns (newCount: int, rowUpdates: seq<RowUpdate>)
    ensures newCount == (if count < MaxSpeechTypes then count + 1 else count)
    ensures |rowUpdates| == ExtraRows
    ensures forall r :: 0 <= r < ExtraRows ==> rowUpdates[r] == (if count < MaxSpeechTypes && r + 1 < newCount then Show else Keep)
    ensures newCount == AddCount(count) && rowUpdates == AddUpdates(count)
  {
    newCount := count;
    if newCount < MaxSpeechTypes {
      newCount := newCount + 1;
      rowUpdates := [];
      for i := 1 to MaxSpeechTypes
        invariant |rowUpdates| == i - 1
        invariant forall r :: 0 <= r < i - 1 ==> rowUpdates[r] == (if r + 1 < newCount then Show else Keep)
      {
        if i < newCount {
          rowUpdates := rowUpdates + [Show];
        } else {
          rowUpdates := rowUpdates + [Keep];
        }
      }
    } else {
      rowUpdates := seq(ExtraRows, _ => Keep);
    }
  }

  /** Adding keeps the counter within the cap and the rows in step with it. */
  lemma AddKeepsInSync(visible: seq<bool>, count: int)
    requires 1 <= count <= MaxSpeechTypes && InSync(visible, count)
    ensures AddCount(count) <= MaxSpeechTypes
    ensures InSync(Apply(visible, AddUpdates(count)), AddCount(count))
  {
  }

  // ---------------------------------------------------------------------------
  // make_delete_speech_type_fn / delete_speech_type_fn
  // ---------------------------------------------------------------------------

  /** The counter after "Delete Type": max(1, count); it is never decremented. */
  function DeleteCount(count: int): int {
    if count < 1 then 1 else count
  }

  /** The updates of the delete button made with `index`, as the loop builds
      them: a hide at loop position index, that is, for row index - 1. */
  function DeleteUpdates(index: int): seq<RowUpdate> {
    seq(ExtraRows, r => if r + 1 == index then Hide else Keep)
  }

  /** The delete handler as written: the button of row index (its position in
      the list of delete buttons) hides the row at loop position index. */
  method DeleteSpeechType(index: int, count: int) returns (newCount: int, rowUpdates: seq<RowUpdate>)
    ensures newCount == (if count < 1 then 1 else count)
    ensures |rowUpdates| == ExtraRows
    ensures forall r :: 0 <= r < ExtraRows ==> rowUpdates[r] == (if r + 1 == index then Hide else Keep)
    ensures newCount == DeleteCount(count) && rowUpdates == DeleteUpdates(index)
  {
    rowUpdates := [];
    for i := 1 to MaxSpeechTypes
      invariant |rowUpdates| == i - 1
      invariant forall r :: 0 <= r < i - 1 ==> rowUpdates[r] == (if r + 1 == index then Hide else Keep)
    {
      if i == index {
        rowUpdates := rowUpdates + [Hide];
      } else {
        rowUpdates := rowUpdates + [Keep];
      }
    }
    newCount := if count < 1 then 1 else count;
  }

  /** As written, the delete button of the first extra row hides nothing. */
  lemma DeleteFirstRowHidesNothing(visible: seq<bool>)
    requires |visible| == ExtraRows
    ensures Apply(visible, DeleteUpdates(0)) == visible
  {
  }

  /** As written, the delete button of any other row leaves that row as it was
      and hides the row above it. */
  lemma DeleteHidesRowAbove(visible: seq<bool>, index: int)
    requires |visible| == ExtraRows && 1 <= index < ExtraRows
    ensures Apply(visible, DeleteUpdates(index))[index] == visible[index]
    ensures !Apply(visible, DeleteUpdates(index))[index - 1]
  {
  }

  /** The updates the delete button of row index is evidently meant to send:
      a hide for row index itself. */
  function DeleteRowUpdates(index: int): seq<RowUpdate> {
    seq(ExtraRows, r => if r == index then Hide else Keep)
  }

  /** The delete handler with the loop position matched to the row: position
      index + 1 is row index. */
  method DeleteSpeechTypeRow(index: int, count: int) returns (newCount: int, rowUpdates: seq<RowUpdate>)
    ensures newCount == (if count < 1 then 1 else count)
    ensures |rowUpdates| == ExtraRows
    ensures forall r :: 0 <= r < ExtraRows ==> rowUpdates[r] == (if r == index then Hide else Keep)
    ensures newCount == DeleteCount(count) && rowUpdates == DeleteRowUpdates(index)
  {
    rowUpdates := [];
    for i := 1 to MaxSpeechTypes
      invariant |rowUpdates| == i - 1
      invariant forall r :: 0 <= r < i - 1 ==> rowUpdates[r] == (if r == index then Hide else Keep)
    {
      if i == index + 1 {
        rowUpdates := rowUpdates + [Hide];
      } else {
        rowUpdates := rowUpdates + [Keep];
      }
    }
    newCount := if count < 1 then 1 else count;
  }

  /** The corrected button hides its own row and touches no other. */
  lemma DeleteRowHidesOwnRow(visible: seq<bool>, index: int)
    requires |visible| == ExtraRows && 0 <= index < ExtraRows
    ensures Apply(visible, DeleteRowUpdates(index)) == visible[index := false]
  {
  }

  /** Because the counter is not decremented, the next "Add Speech Type" shows
      a deleted row again. */
  lemma AddShowsDeletedRowAgain(visible: seq<bool>, count: int, index: int)
    requires 1 <= count < MaxSpeechTypes && InSync(visible, count)
    requires 0 <= index && index + 1 < count
    ensures var afterDelete := Apply(visible, DeleteRowUpdates(index));
      !afterDelete[index] && Apply(afterDelete, AddUpdates(DeleteCount(count)))[index]
  {
  }
}
