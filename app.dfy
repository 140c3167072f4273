/**
  The application of src/main.rs: one message loop that routes the messages of
  the three screens, keeps the notes store and the editor in step, and keeps
  the map from open windows to what they show. Opening a window and exiting
  are requests to the windowing runtime; the model returns them as a `Task`
  and receives the id of a newly opened window as a parameter.
 */
module Faitout {
  import opened Wrappers
  import Text
  import opened Indices
  import NoteStore
  import EditorForm
  import SettingsStore

  datatype Screen = Notes | Editor | Settings

  /** The runtime's window identifier. */
  type WindowId = nat

  datatype WindowView = MainWindow | NoteWindow(index: nat)

  datatype Message =
    | EditorMsg(editorMsg: EditorForm.Message)
    | NotesMsg(notesMsg: NoteStore.Message)
    | SettingsMsg(settingsMsg: SettingsStore.Message)
    | WindowOpened(openedId: WindowId)
    | WindowClosed(closedId: WindowId)

  /** What `App::update` asks of the runtime. */
  datatype Task = NoTask | OpenWindow(id: WindowId) | Exit

  const APP_NAME: string := "faitout"

  /** What a note window's title puts after the application name. */
  const NOTE_TITLE_PREFIX: string := APP_NAME + " - "

  /**
    The title of window `id`: the application name for the main window (or an
    unknown id), and for a note window the name followed by the note's title,
    "Untitled page" for a blank title, or "Note" when the index names no note.
   */
  function WindowTitle(windows: map<WindowId, WindowView>, entries: seq<NoteStore.Note>, id: WindowId): (r: string)
    ensures APP_NAME <= r
    ensures r == APP_NAME <==> !(id in windows && windows[id].NoteWindow?)
    ensures id in windows && windows[id].NoteWindow? ==>
      var k := windows[id].index;
      && (k >= |entries| ==> r == NOTE_TITLE_PREFIX + "Note")
      && (k < |entries| && Text.AllWhitespace(entries[k].title) ==> r == NOTE_TITLE_PREFIX + "Untitled page")
      && (k < |entries| && !Text.AllWhitespace(entries[k].title) ==> r == NOTE_TITLE_PREFIX + entries[k].title)
  {
    if id in windows && windows[id].NoteWindow? then
      var shown := ShownTitle(entries, windows[id].index);
      LongerThanName(shown);
      NOTE_TITLE_PREFIX + shown
    else APP_NAME
  }

  /** The part of a note window's title after the prefix. */
  function ShownTitle(entries: seq<NoteStore.Note>, k: nat): (r: string)
    ensures k >= |entries| ==> r == "Note"
    ensures k < |entries| && Text.AllWhitespace(entries[k].title) ==> r == "Untitled page"
    ensures k < |entries| && !Text.AllWhitespace(entries[k].title) ==> r == entries[k].title
  {
    var title := if k < |entries| then entries[k].title else "Note";
    NotBlank();
    Text.TrimBlank(title);
    if Text.Trim(title) == [] then "Untitled page" else title
  }

  lemma NotBlank()
    ensures !Text.AllWhitespace("Note")
  {
    assert "Note"[0] == 'N';
  }

  lemma LongerThanName(shown: string)
    ensures APP_NAME < NOTE_TITLE_PREFIX + shown
  {
    assert (NOTE_TITLE_PREFIX + shown)[..|APP_NAME|] == APP_NAME;
  }

  /**
    A note window keeps its raw index when an earlier note is deleted, so it
    then shows the title of the note that used to follow the one it showed.
   */
  lemma NoteWindowShiftsAfterDelete(windows: map<WindowId, WindowView>, entries: seq<NoteStore.Note>,
                                    removed: nat, id: WindowId)
    requires removed < |entries|
    requires id in windows && windows[id].NoteWindow?
    requires removed <= windows[id].index < |entries| - 1
    ensures var k := windows[id].index;
      WindowTitle(windows, RemoveAt(entries, removed), id) == WindowTitle(windows, entries[k := entries[k + 1]], id)
  {
  }

  class App {
    var screen: Screen
    const editor: EditorForm.Editor
    const notes: NoteStore.Notes
    const settings: SettingsStore.SettingsState
    var windows: map<WindowId, WindowView>

    /**
      The notes store is consistent, and the note the editor is editing, when
      there is one, exists.
     */
    ghost predicate Valid()
      reads this, notes, editor
    {
      && notes.Valid()
      && (editor.editing.Some? ==> editor.editing.value < |notes.entries|)
    }

    /**
      The application at start-up: the notes and settings as loaded, the notes
      screen, and the main window `mainId` registered.
     */
    constructor (loaded: seq<NoteStore.Note>, prefs: SettingsStore.Prefs, mainId: WindowId)
      ensures Valid()
      ensures screen == Notes && windows == map[mainId := MainWindow]
      ensures notes.entries == loaded && notes.selected == None
      ensures notes.search == [] && notes.colorMenu == None && notes.lastClick == None && notes.writes == 0
      ensures editor.IsBlank() && settings.Value() == prefs && settings.writes == 0
      ensures fresh(notes) && fresh(editor) && fresh(settings)
    {
      screen := Notes;
      editor := new EditorForm.Editor();
      notes := new NoteStore.Notes(loaded);
      settings := new SettingsStore.SettingsState(prefs);
      windows := map[mainId := MainWindow];
    }

    /**
      The editor asked to save: the note is stored over the note being edited
      (keeping its colour) or appended, the saved note is selected, the editor
      starts a new page and the notes screen is shown.
     */
    method SaveNote(title: string, body: string, tags: seq<string>, editing: Option<nat>)
      requires notes.Valid()
      modifies notes`entries, notes`writes, notes`selected, editor, this`screen
      ensures Valid()
      ensures var (entries, index) := UpsertedNote(old(notes.entries), title, body, tags, editing);
        notes.entries == entries && notes.selected == Some(index)
      ensures editing.Some? && editing.value < old(|notes.entries|) ==>
        notes.selected == editing && |notes.entries| == old(|notes.entries|)
      ensures notes.writes == old(notes.writes) + 1
      ensures editor.IsBlank() && screen == Notes
    {
      var note := NoteStore.NewNote(title, body, tags);
      var index := notes.Upsert(note, editing);
      notes.Select(Some(index));
      editor.LoadNew();
      screen := Notes;
    }

    /** The list view asked to edit note `index`: when it exists, it is loaded and selected. */
    method OpenForEdit(index: nat)
      requires Valid()
      modifies editor, notes`selected, this`screen
      ensures Valid()
      ensures index < |notes.entries| ==>
        && editor.editing == Some(index) && editor.mode == EditorForm.PreviewOnly
        && editor.title == notes.entries[index].title && editor.body == notes.entries[index].body
        && editor.tagsInput == EditorForm.JoinTags(notes.entries[index].tags)
        && notes.selected == Some(index) && screen == Editor
      ensures index >= |notes.entries| ==>
        unchanged(editor) && notes.selected == old(notes.selected) && screen == old(screen)
    {
      var note := notes.Get(index);
      if note.Some? {
        editor.LoadExisting(index, note.value);
        notes.Select(Some(index));
        screen := Editor;
      }
    }

    /**
      Note `index` has just been removed from the store: the editor's index
      follows its note, and the selection becomes that index; when the editor
      has no note any more, the selection is cleared and the notes screen shown.
     */
    method FollowDelete(index: nat)
      requires notes.Valid()
      requires index <= |notes.entries|
      requires editor.editing.Some? ==> editor.editing.value <= |notes.entries|
      modifies editor, notes`selected, this`screen
      ensures Valid()
      ensures editor.editing == ShiftAfterRemove(old(editor.editing), index)
      ensures notes.selected == editor.editing
      ensures old(editor.editing) == Some(index) ==> editor.IsBlank()
      ensures old(editor.editing) != Some(index) ==>
        && editor.title == old(editor.title) && editor.tagsInput == old(editor.tagsInput)
        && editor.body == old(editor.body) && editor.mode == old(editor.mode)
      ensures editor.editing.None? ==> screen == Notes
      ensures editor.editing.Some? ==> screen == old(screen)
    {
      editor.AdjustAfterDelete(index);
      if editor.editing.Some? {
        notes.Select(editor.editing);
      } else {
        notes.Select(None);
        screen := Notes;
      }
    }

    /** A message of the editor screen. */
    method RouteEditor(msg: EditorForm.Message)
      requires Valid()
      modifies notes`entries, notes`writes, notes`selected, editor, this`screen
      ensures Valid()
      // only a save that produces a note rewrites the notes file
      ensures var save := EditorForm.SaveEvent(old(editor.title), old(editor.tagsInput), old(editor.body), old(editor.editing));
        notes.writes == old(notes.writes) + (if msg.SavePressed? && save.Some? then 1 else 0)
      ensures var save := EditorForm.SaveEvent(old(editor.title), old(editor.tagsInput), old(editor.body), old(editor.editing));
        msg.SavePressed? && save.None? ==> unchanged(notes, editor) && screen == old(screen)
      // a saved note being edited is overwritten where it stands, a new one is
      // appended; either way it ends up selected
      ensures var save := EditorForm.SaveEvent(old(editor.title), old(editor.tagsInput), old(editor.body), old(editor.editing));
        msg.SavePressed? && save.Some? ==>
          var (entries, index) := UpsertedNote(old(notes.entries), save.value.title, save.value.body, save.value.tags, old(editor.editing));
          && notes.entries == entries && notes.selected == Some(index)
          && editor.IsBlank() && screen == Notes
          && (old(editor.editing).Some? ==> index == old(editor.editing).value && |entries| == old(|notes.entries|))
          && (old(editor.editing).None? ==> index == old(|notes.entries|) && |entries| == old(|notes.entries|) + 1)
      ensures msg.BackPressed? ==> editor.IsBlank() && screen == Notes && unchanged(notes)
      ensures !msg.SavePressed? && !msg.BackPressed? ==>
        unchanged(notes) && screen == old(screen) && editor.editing == old(editor.editing)
    {
      var ev := editor.Update(msg);
      if ev.Some? {
        match ev.value
        case Save(title, body, tags, editing) =>
          SaveNote(title, body, tags, editing);
        case Back =>
          editor.LoadNew();
          screen := Notes;
      }
    }

    /** A message of the notes screen; `now` is the time of a click, `newWindow` the id a new window gets. */
    method RouteNotes(msg: NoteStore.Message, now: int, newWindow: WindowId) returns (task: Task)
      requires Valid()
      requires msg.NoteClicked? ==> msg.index < |notes.entries|
      modifies notes, editor, this`screen, this`windows
      ensures Valid()
      ensures msg.OpenInNewWindow? ==>
        && windows == old(windows)[newWindow := NoteWindow(msg.index)] && task == OpenWindow(newWindow)
        && unchanged(notes, editor) && screen == old(screen)
      ensures !msg.OpenInNewWindow? ==> windows == old(windows) && task == NoTask
      // the second click of a double-click opens the note in the editor
      // the store's own fields change as NoteStore.Notes.Update says
      ensures msg.NoteClicked? ==>
        && notes.lastClick == NoteStore.NextClick(old(notes.lastClick), msg.index, now)
        && notes.colorMenu == None && notes.search == old(notes.search)
        && notes.entries == old(notes.entries) && notes.writes == old(notes.writes)
      ensures msg.CreateNew? ==>
        && notes.selected == old(notes.selected) && notes.search == old(notes.search)
        && notes.colorMenu == None && notes.lastClick == None && notes.writes == old(notes.writes)
      ensures msg.ToggleColorMenu? ==>
        && notes.entries == old(notes.entries) && notes.selected == old(notes.selected)
        && notes.search == old(notes.search) && notes.lastClick == old(notes.lastClick)
        && notes.writes == old(notes.writes)
        && notes.colorMenu == (if old(notes.colorMenu) == Some(msg.index) then None else Some(msg.index))
      ensures msg.ColorPicked? ==>
        && |notes.entries| == old(|notes.entries|)
        && (forall k :: 0 <= k < |notes.entries| && k != msg.index ==> notes.entries[k] == old(notes.entries)[k])
        && (msg.index < |notes.entries| ==>
              notes.entries[msg.index] == old(notes.entries)[msg.index].(color := msg.color))
        && notes.selected == old(notes.selected) && notes.search == old(notes.search)
        && notes.lastClick == old(notes.lastClick) && notes.colorMenu == None
        && notes.writes == old(notes.writes) + 1
      ensures msg.SearchChanged? ==>
        && notes.entries == old(notes.entries) && notes.selected == old(notes.selected)
        && notes.search == msg.query && notes.colorMenu == None && notes.lastClick == None
        && notes.writes == old(notes.writes)
      ensures msg.LinkClicked? ==> unchanged(notes)
      ensures msg.DeleteRequested? && msg.index < old(|notes.entries|) ==>
        && notes.colorMenu == None && notes.lastClick == None && notes.search == old(notes.search)
        && notes.writes == old(notes.writes) + 1
      ensures msg.NoteClicked? && NoteStore.IsDoubleClick(old(notes.lastClick), msg.index, now) ==>
        && editor.editing == Some(msg.index) && notes.selected == Some(msg.index) && screen == Editor
        && editor.title == notes.entries[msg.index].title && editor.body == notes.entries[msg.index].body
        && editor.tagsInput == EditorForm.JoinTags(notes.entries[msg.index].tags)
        && editor.mode == EditorForm.PreviewOnly
        && notes.entries == old(notes.entries)
      ensures msg.NoteClicked? && !NoteStore.IsDoubleClick(old(notes.lastClick), msg.index, now) ==>
        unchanged(editor) && screen == old(screen) && notes.selected == Some(msg.index)
      ensures msg.CreateNew? ==> editor.IsBlank() && screen == Editor && notes.entries == old(notes.entries)
      ensures msg.OpenSettings? ==> screen == Settings && unchanged(notes, editor)
      // deleting a note: the editor's note and the selection stay on the same note
      ensures msg.DeleteRequested? && msg.index < old(|notes.entries|) ==>
        && notes.entries == RemoveAt(old(notes.entries), msg.index)
        && editor.editing == ShiftAfterRemove(old(editor.editing), msg.index)
        && notes.selected == editor.editing
        && (editor.editing.Some? ==>
              notes.entries[editor.editing.value] == old(notes.entries)[old(editor.editing).value]
              && screen == old(screen))
        && (editor.editing.None? ==> screen == Notes)
        // the form is reset when its own note was deleted and kept otherwise
        && (old(editor.editing) == Some(msg.index) ==> editor.IsBlank())
        && (old(editor.editing) != Some(msg.index) ==>
              && editor.title == old(editor.title) && editor.tagsInput == old(editor.tagsInput)
              && editor.body == old(editor.body) && editor.mode == old(editor.mode))
      ensures msg.DeleteRequested? && msg.index >= old(|notes.entries|) ==>
        unchanged(notes, editor) && screen == old(screen)
      ensures msg.ToggleColorMenu? || msg.ColorPicked? || msg.SearchChanged? || msg.LinkClicked? ==>
        unchanged(editor) && screen == old(screen) && |notes.entries| == old(|notes.entries|)
    {
      ghost var before := notes.entries;
      ghost var editingBefore := editor.editing;
      var ev := notes.Update(msg, now);
      task := NoTask;
      if ev.Some? {
        match ev.value
        case Create =>
          editor.LoadNew();
          screen := Editor;
        case Edit(index) =>
          OpenForEdit(index);
        case Delete(index) =>
          FollowDelete(index);
          ShiftKeepsEntry(before, editingBefore, index);
        case OpenSettings =>
          screen := Settings;
        case OpenInNewWindow(index) =>
          windows := windows[newWindow := NoteWindow(index)];
          task := OpenWindow(newWindow);
      }
    }

    /** A message of the settings screen: `Back` returns to the notes, the others change a setting. */
    method RouteSettings(msg: SettingsStore.Message)
      modifies settings, this`screen
      ensures msg.Back? ==> screen == Notes && unchanged(settings)
      ensures !msg.Back? ==>
        && settings.Value() == SettingsStore.Apply(old(settings.Value()), msg)
        && settings.writes == old(settings.writes) + (if settings.Value() != old(settings.Value()) then 1 else 0)
        && screen == old(screen)
    {
      if msg.Back? {
        screen := Notes;
      } else {
        settings.Update(msg);
      }
    }

    /** A window was closed: it is forgotten, and the application exits when none is left. */
    method CloseWindow(id: WindowId) returns (task: Task)
      modifies this`windows
      ensures windows == old(windows) - {id}
      ensures task == Exit <==> windows == map[]
      ensures task != Exit ==> task == NoTask
    {
      windows := windows - {id};
      if |windows| == 0 {
        task := Exit;
      } else {
        task := NoTask;
      }
    }

    /**
      `App::update`: route one message. The consistency of the notes store and
      the editor is kept, and the window map changes only when a note window
      is opened or a window is closed.
     */
    method Update(msg: Message, now: int, newWindow: WindowId) returns (task: Task)
      requires Valid()
      requires msg.NotesMsg? && msg.notesMsg.NoteClicked? ==> msg.notesMsg.index < |notes.entries|
      modifies this, notes, editor, settings
      ensures Valid()
      ensures msg.NotesMsg? && msg.notesMsg.OpenInNewWindow? ==>
        windows == old(windows)[newWindow := NoteWindow(msg.notesMsg.index)] && task == OpenWindow(newWindow)
      ensures msg.WindowClosed? ==> windows == old(windows) - {msg.closedId} && (task == Exit <==> windows == map[])
      ensures !(msg.NotesMsg? && msg.notesMsg.OpenInNewWindow?) && !msg.WindowClosed? ==>
        windows == old(windows) && task == NoTask
      ensures !msg.NotesMsg? && !msg.EditorMsg? ==> unchanged(notes, editor)
      ensures !msg.SettingsMsg? ==> unchanged(settings)
      ensures msg.WindowOpened? || msg.WindowClosed? ==> screen == old(screen)
    {
      match msg
      case EditorMsg(m) =>
        RouteEditor(m);
        task := NoTask;
      case NotesMsg(m) =>
        task := RouteNotes(m, now, newWindow);
      case SettingsMsg(m) =>
        RouteSettings(m);
        task := NoTask;
      case WindowOpened(_) =>
        // the window was registered when it was opened
        task := NoTask;
      case WindowClosed(id) =>
        task := CloseWindow(id);
    }
  }

  /** The store after saving a note with these fields: `upsert` of a new default-coloured note. */
  function UpsertedNote(entries: seq<NoteStore.Note>, title: string, body: string, tags: seq<string>,
                        editing: Option<nat>): (r: (seq<NoteStore.Note>, nat))
    ensures r.1 < |r.0|
    ensures r.0[r.1].title == title && r.0[r.1].body == body && r.0[r.1].tags == tags
    ensures editing.Some? && editing.value < |entries| ==>
      && r.1 == editing.value && |r.0| == |entries| && r.0[r.1].color == entries[r.1].color
      && (forall k :: 0 <= k < |entries| && k != r.1 ==> r.0[k] == entries[k])
    ensures !(editing.Some? && editing.value < |entries|) ==>
      r.1 == |entries| && r.0[..|entries|] == entries && r.0[r.1].color == NoteStore.Default
  {
    NoteStore.UpsertInto(entries, NoteStore.NewNote(title, body, tags), editing)
  }
}
