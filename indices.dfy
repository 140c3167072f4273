/**
  Positional indices into a list of notes and how they move when one entry is
  removed (`Vec::remove`). The notes store uses this rule for its selection
  and its open colour menu, the editor for the note it is editing.
 */
module Indices {
  import opened Wrappers

  /** `Vec::remove(i)`: entry `i` is gone and the later entries move down by one. */
  function RemoveAt<T>(s: seq<T>, i: nat): (r: seq<T>)
    requires i < |s|
    ensures |r| == |s| - 1
    ensures forall k :: 0 <= k < i ==> r[k] == s[k]
    ensures forall k :: i <= k < |r| ==> r[k] == s[k + 1]
  {
    s[..i] + s[i + 1..]
  }

  /**
    An index held across the removal of entry `removed`: it is cleared when it
    named the removed entry, moved down when it was past it, and kept otherwise.
   */
  function ShiftAfterRemove(held: Option<nat>, removed: nat): Option<nat>
  {
    match held
    case None => None
    case Some(k) =>
      if k == removed then None
      else if k > removed then Some(k - 1)
      else Some(k)
  }

  /**
    The shifted index names the same entry in the shortened list as the held
    index named before, and it is cleared exactly when that entry was removed.
   */
  lemma ShiftKeepsEntry<T>(s: seq<T>, held: Option<nat>, removed: nat)
    requires removed < |s|
    requires held.Some? ==> held.value < |s|
    ensures var after := ShiftAfterRemove(held, removed);
      && (after == None <==> (held == None || held == Some(removed)))
      && (after.Some? ==> after.value < |s| - 1 && RemoveAt(s, removed)[after.value] == s[held.value])
  {
  }
}
