/**
  The notes store of src/notes/notes.rs: an ordered list of notes, the selected
  entry, the search text, the entry whose colour menu is open and the memory of
  the last click. Every index here is an absolute position in `entries`.
 */
module NoteStore {
  import opened Wrappers
  import opened Text
  import opened Indices

  /** Two clicks on one note at most this many milliseconds apart form a double-click. */
  const DOUBLE_CLICK_WINDOW_MS: nat := 300

  datatype NoteColor = Default | Cherry | Emerald | Ocean | Amber | Violet

  /** A note as it is stored; the markdown rendering of `body` is not part of the model. */
  datatype Note = Note(title: string, body: string, tags: seq<string>, color: NoteColor)

  /** `Note::new`: a fresh note carries the default colour. */
  function NewNote(title: string, body: string, tags: seq<string>): (n: Note)
    ensures n.color == Default
    ensures n.title == title && n.body == body && n.tags == tags
  {
    Note(title, body, tags, Default)
  }

  /**
    `Note::matches`: an empty query matches every note, any other query must
    occur in the lowercased title. The list view passes the query lowercased.
   */
  function Matches(note: Note, query: string): (r: bool)
    ensures query == [] ==> r
    ensures r <==> exists k :: OccursAt(Lower(note.title), query, k)
  {
    if query == [] then
      assert OccursAt(Lower(note.title), query, 0);
      true
    else
      Contains(Lower(note.title), query)
  }

  /**
    The entries the list view shows for the search text `search`: their
    absolute indices, in list order, exactly those whose title matches.
   */
  function Visible(entries: seq<Note>, search: string): (r: seq<nat>)
    ensures forall j :: 0 <= j < |r| ==> r[j] < |entries|
    ensures forall i :: 0 <= i < |entries| ==> (i in r <==> Matches(entries[i], Lower(search)))
    ensures forall j, j' :: 0 <= j < j' < |r| ==> r[j] < r[j']
  {
    VisibleBelow(entries, Lower(search), |entries|)
  }

  function VisibleBelow(entries: seq<Note>, query: string, n: nat): (r: seq<nat>)
    requires n <= |entries|
    ensures forall j :: 0 <= j < |r| ==> r[j] < n
    ensures forall i :: 0 <= i < n ==> (i in r <==> Matches(entries[i], query))
    ensures forall j, j' :: 0 <= j < j' < |r| ==> r[j] < r[j']
  {
    if n == 0 then []
    else
      var below := VisibleBelow(entries, query, n - 1);
      var r := below + (if Matches(entries[n - 1], query) then [n - 1] else []);
      assert n - 1 !in below;
      r
  }

  /** The search ignores the case of the search text as well as that of the titles. */
  lemma SearchIgnoresCase(entries: seq<Note>, search: string)
    ensures Visible(entries, search) == Visible(entries, Lower(search))
  {
    LowerIdempotent(search);
  }

  /** Searching for "proj" among three titles shows the first and the third. */
  lemma SearchExample()
    ensures Visible([NewNote("Project Plan", "", []), NewNote("Grocery List", "", []),
                     NewNote("Side project", "", [])], "proj") == [0, 2]
  {
    var entries := [NewNote("Project Plan", "", []), NewNote("Grocery List", "", []),
                    NewNote("Side project", "", [])];
    LowerProj();
    PlanMatches();
    GroceriesMiss();
    SideProjectMatches();
    ExampleSteps(entries, "proj");
  }

  lemma LowerProj()
    ensures Lower("proj") == "proj"
  {
  }

  lemma ExampleSteps(entries: seq<Note>, query: string)
    requires |entries| == 3
    requires Matches(entries[0], query) && !Matches(entries[1], query) && Matches(entries[2], query)
    ensures VisibleBelow(entries, query, 3) == [0, 2]
  {
    var below1 := VisibleBelow(entries, query, 1);
    var below2 := VisibleBelow(entries, query, 2);
    assert below1 == VisibleBelow(entries, query, 0) + [0];
    assert below2 == below1;
  }

  lemma PlanMatches()
    ensures Matches(NewNote("Project Plan", "", []), "proj")
  {
    assert OccursAt(Lower("Project Plan"), "proj", 0) by {
      assert Lower("Project Plan")[0..4] == "proj";
    }
  }

  lemma GroceriesMiss()
    ensures !Matches(NewNote("Grocery List", "", []), "proj")
  {
    var grocery := Lower("Grocery List");
    assert grocery == "grocery list";
    assert forall k :: 0 <= k < |grocery| ==> grocery[k] != 'p';
    MissingFirstChar(grocery, "proj");
  }

  lemma SideProjectMatches()
    ensures Matches(NewNote("Side project", "", []), "proj")
  {
    assert OccursAt(Lower("Side project"), "proj", 5) by {
      assert Lower("Side project")[5..9] == "proj";
    }
  }

  lemma MissingFirstChar(hay: string, needle: string)
    requires needle != []
    requires forall k :: 0 <= k < |hay| ==> hay[k] != needle[0]
    ensures !Contains(hay, needle)
  {
    forall k | 0 <= k && k + |needle| <= |hay|
      ensures !OccursAt(hay, needle, k)
    {
      assert hay[k..k + |needle|][0] == hay[k];
    }
  }

  /** A recorded click: which entry, and when (milliseconds). */
  datatype Click = Click(index: nat, at: int)

  /** `Instant::duration_since` in milliseconds, which is zero for a later `since`. */
  function Elapsed(since: int, now: int): nat
  {
    if now >= since then now - since else 0
  }

  /** A click on `index` at `now` completes a double-click begun by the recorded `last`. */
  predicate IsDoubleClick(last: Option<Click>, index: nat, now: int)
  {
    last.Some? && last.value.index == index && Elapsed(last.value.at, now) <= DOUBLE_CLICK_WINDOW_MS
  }

  /** The click memory after a click: cleared by a double-click, otherwise that click. */
  function NextClick(last: Option<Click>, index: nat, now: int): Option<Click>
  {
    if IsDoubleClick(last, index, now) then None else Some(Click(index, now))
  }

  /** A double-click is a click on the recorded entry no more than 300 ms after it. */
  lemma DoubleClickWindow(last: Option<Click>, index: nat, now: int)
    ensures IsDoubleClick(last, index, now)
        <==> exists t :: last == Some(Click(index, t)) && now - t <= 300
  {
    if IsDoubleClick(last, index, now) {
      assert last == Some(Click(index, last.value.at));
    }
  }

  /** How many edit requests a run of clicks produces, starting from the memory `last`. */
  function EditsOf(last: Option<Click>, clicks: seq<Click>): nat
    decreases |clicks|
  {
    if clicks == [] then 0
    else
      (if IsDoubleClick(last, clicks[0].index, clicks[0].at) then 1 else 0)
      + EditsOf(NextClick(last, clicks[0].index, clicks[0].at), clicks[1..])
  }

  /** Clicks all on one entry, each within the double-click window of the one before. */
  predicate RapidOn(clicks: seq<Click>, index: nat)
  {
    && (forall k :: 0 <= k < |clicks| ==> clicks[k].index == index)
    && (forall k :: 0 <= k < |clicks| - 1 ==> Elapsed(clicks[k].at, clicks[k + 1].at) <= DOUBLE_CLICK_WINDOW_MS)
  }

  /**
    A run of rapid clicks on one entry that does not continue an earlier click
    asks for an edit on every second click: n clicks give n / 2 edits, so two
    or three clicks give exactly one.
   */
  lemma {:induction false} RapidClicksEditEverySecond(last: Option<Click>, clicks: seq<Click>, index: nat)
    requires RapidOn(clicks, index)
    requires clicks != [] ==> !IsDoubleClick(last, index, clicks[0].at)
    ensures EditsOf(last, clicks) == |clicks| / 2
    decreases |clicks|
  {
    if |clicks| >= 2 {
      var after := NextClick(last, index, clicks[0].at);
      assert after == Some(clicks[0]);
      assert IsDoubleClick(after, index, clicks[1].at);
      assert clicks[1..][1..] == clicks[2..];
      assert EditsOf(last, clicks) == 1 + EditsOf(None, clicks[2..]);
      RapidClicksEditEverySecond(None, clicks[2..], index);
    } else if |clicks| == 1 {
      assert EditsOf(last, clicks) == EditsOf(Some(clicks[0]), []);
    }
  }

  /** `Notes::upsert` on the list alone: the new list and the index the note went to. */
  function UpsertInto(entries: seq<Note>, note: Note, editing: Option<nat>): (r: (seq<Note>, nat))
    ensures r.1 < |r.0|
    ensures editing.Some? && editing.value < |entries| ==>
      && r.1 == editing.value
      && |r.0| == |entries|
      && r.0[r.1] == note.(color := entries[r.1].color)
      && (forall k :: 0 <= k < |entries| && k != r.1 ==> r.0[k] == entries[k])
    ensures !(editing.Some? && editing.value < |entries|) ==>
      && r.1 == |entries|
      && |r.0| == |entries| + 1
      && r.0[r.1] == note
      && (forall k :: 0 <= k < |entries| ==> r.0[k] == entries[k])
  {
    match editing
    case Some(i) =>
      if i < |entries| then (entries[i := note.(color := entries[i].color)], i)
      else (entries + [note], |entries|)
    case None => (entries + [note], |entries|)
  }

  datatype Message =
    | NoteClicked(index: nat)
    | CreateNew
    | LinkClicked
    | ToggleColorMenu(index: nat)
    | ColorPicked(index: nat, color: NoteColor)
    | DeleteRequested(index: nat)
    | SearchChanged(query: string)
    | OpenSettings
    | OpenInNewWindow(index: nat)

  datatype Event =
    | Edit(index: nat)
    | Create
    | Delete(index: nat)
    | OpenSettings
    | OpenInNewWindow(index: nat)

  class Notes {
    var selected: Option<nat>
    var entries: seq<Note>
    var search: string
    var colorMenu: Option<nat>
    var lastClick: Option<Click>
    /** How many times the list has been written to the notes file. */
    ghost var writes: nat

    /** The selection, when there is one, names an existing entry. */
    ghost predicate Valid()
      reads this
    {
      selected.Some? ==> selected.value < |entries|
    }

    /** The store as loaded from the notes file (or `default_values` for an empty list). */
    constructor (loaded: seq<Note>)
      ensures Valid()
      ensures entries == loaded && selected == None && search == []
      ensures colorMenu == None && lastClick == None && writes == 0
    {
      selected := None;
      entries := loaded;
      search := [];
      colorMenu := None;
      lastClick := None;
      writes := 0;
    }

    /** `Notes::get`. */
    function Get(index: nat): (r: Option<Note>)
      reads this
      ensures r.Some? <==> index < |entries|
      ensures r.Some? ==> r.value == entries[index]
    {
      if index < |entries| then Some(entries[index]) else None
    }

    /** `Notes::select`: a selection is kept only when it names an existing entry. */
    method Select(selection: Option<nat>)
      modifies this`selected
      ensures Valid()
      ensures selection.Some? && selection.value < |entries| ==> selected == selection
      ensures !(selection.Some? && selection.value < |entries|) ==> selected == None
    {
      if selection.Some? && selection.value < |entries| {
        selected := selection;
      } else {
        selected := None;
      }
    }

    /**
      `Notes::upsert`: overwrite the entry being edited, keeping its colour, or
      append when there is none; the file is rewritten either way.
     */
    method Upsert(note: Note, editing: Option<nat>) returns (index: nat)
      requires Valid()
      modifies this`entries, this`writes
      ensures Valid()
      ensures (entries, index) == UpsertInto(old(entries), note, editing)
      ensures writes == old(writes) + 1
    {
      if editing.Some? && editing.value < |entries| {
        index := editing.value;
        entries := entries[index := note.(color := entries[index].color)];
      } else {
        index := |entries|;
        entries := entries + [note];
      }
      writes := writes + 1;
    }

    /**
      `Notes::adjust_after_remove`, run once entry `index` has been removed: the
      selection and the colour menu follow their entries.
     */
    method AdjustAfterRemove(index: nat)
      requires index <= |entries|
      requires selected.Some? ==> selected.value <= |entries|
      modifies this`selected, this`colorMenu
      ensures Valid()
      ensures selected == ShiftAfterRemove(old(selected), index)
      ensures colorMenu == ShiftAfterRemove(old(colorMenu), index)
    {
      if selected.Some? {
        if selected.value == index {
          selected := None;
        } else if selected.value > index {
          selected := Some(selected.value - 1);
        }
      }
      if colorMenu.Some? {
        if colorMenu.value == index {
          colorMenu := None;
        } else if colorMenu.value > index {
          colorMenu := Some(colorMenu.value - 1);
        }
      }
    }

    /** `Notes::update`: one message from the list view; `now` is the time of a click. */
    method Update(msg: Message, now: int) returns (ev: Option<Event>)
      requires Valid()
      requires msg.NoteClicked? ==> msg.index < |entries|
      modifies this
      ensures Valid()
      // A click selects its entry and closes the colour menu; the second click
      // of a double-click asks for the entry to be edited.
      ensures msg.NoteClicked? ==>
        && entries == old(entries) && search == old(search) && writes == old(writes)
        && selected == Some(msg.index) && colorMenu == None
        && lastClick == NextClick(old(lastClick), msg.index, now)
        && ev == (if IsDoubleClick(old(lastClick), msg.index, now) then Some(Edit(msg.index)) else None)
      ensures msg.CreateNew? ==>
        && entries == old(entries) && selected == old(selected) && search == old(search)
        && writes == old(writes)
        && colorMenu == None && lastClick == None && ev == Some(Create)
      ensures msg.OpenSettings? ==> unchanged(this) && ev == Some(Event.OpenSettings)
      ensures msg.LinkClicked? ==> unchanged(this) && ev == None
      ensures msg.OpenInNewWindow? ==>
        unchanged(this) && ev == Some(Event.OpenInNewWindow(msg.index))
      ensures msg.ToggleColorMenu? ==>
        && entries == old(entries) && selected == old(selected) && search == old(search)
        && lastClick == old(lastClick) && writes == old(writes)
        && colorMenu == (if old(colorMenu) == Some(msg.index) then None else Some(msg.index))
        && ev == None
      // Picking a colour recolours that entry alone, if it exists; the menu closes
      // and the file is rewritten even for a missing entry.
      ensures msg.ColorPicked? ==>
        && |entries| == |old(entries)|
        && (forall k :: 0 <= k < |entries| && k != msg.index ==> entries[k] == old(entries)[k])
        && (msg.index < |entries| ==> entries[msg.index] == old(entries)[msg.index].(color := msg.color))
        && selected == old(selected) && search == old(search) && lastClick == old(lastClick)
        && colorMenu == None && writes == old(writes) + 1 && ev == None
      // Deleting an existing entry removes it alone; the selection follows its
      // entry, the menu and the click memory are dropped.
      ensures msg.DeleteRequested? && msg.index < old(|entries|) ==>
        && entries == RemoveAt(old(entries), msg.index)
        && selected == ShiftAfterRemove(old(selected), msg.index)
        && colorMenu == None && lastClick == None && search == old(search)
        && writes == old(writes) + 1 && ev == Some(Delete(msg.index))
      ensures msg.DeleteRequested? && msg.index >= old(|entries|) ==> unchanged(this) && ev == None
      ensures msg.SearchChanged? ==>
        && entries == old(entries) && selected == old(selected) && writes == old(writes)
        && search == msg.query && colorMenu == None && lastClick == None && ev == None
    {
      match msg
      case NoteClicked(index) =>
        var double := IsDoubleClick(lastClick, index, now);
        lastClick := Some(Click(index, now));
        colorMenu := None;
        selected := Some(index);
        if double {
          lastClick := None;
          ev := Some(Edit(index));
        } else {
          ev := None;
        }
      case CreateNew =>
        colorMenu := None;
        lastClick := None;
        ev := Some(Create);
      case OpenSettings =>
        ev := Some(Event.OpenSettings);
      case LinkClicked =>
        ev := None;
      case ToggleColorMenu(index) =>
        colorMenu := if colorMenu == Some(index) then None else Some(index);
        ev := None;
      case ColorPicked(index, color) =>
        if index < |entries| {
          entries := entries[index := entries[index].(color := color)];
        }
        colorMenu := None;
        writes := writes + 1;
        ev := None;
      case DeleteRequested(index) =>
        if index < |entries| {
          entries := RemoveAt(entries, index);
          AdjustAfterRemove(index);
          // the shifted menu index is dropped straight away
          colorMenu := None;
          lastClick := None;
          writes := writes + 1;
          ev := Some(Delete(index));
        } else {
          ev := None;
        }
      case SearchChanged(query) =>
        search := query;
        colorMenu := None;
        lastClick := None;
        ev := None;
      case OpenInNewWindow(index) =>
        ev := Some(Event.OpenInNewWindow(index));
    }
  }

  /**
    After a delete, a selection that survives names the same note as before,
    and the selection is lost only when its own note was deleted.
   */
  lemma SelectionFollowsNote(entries: seq<Note>, selected: Option<nat>, removed: nat)
    requires removed < |entries|
    requires selected.Some? ==> selected.value < |entries|
    ensures var after := ShiftAfterRemove(selected, removed);
      && (after.Some? ==> RemoveAt(entries, removed)[after.value] == entries[selected.value])
      && (after.None? && selected.Some? ==> selected.value == removed)
  {
    ShiftKeepsEntry(entries, selected, removed);
  }
}
