# faitout, modelled in Dafny

faitout is a small desktop note-taking application. It keeps an ordered list
of notes (title, markdown body, tags, colour) with a list screen, an editor
screen and an appearance-settings screen, and it can open a note in a window
of its own. This project models its application-state layer:

- `wrappers.dfy` (`Wrappers`): Rust's `Option`.
- `text.dfy` (`Text`): the `str` operations the application relies on
  (`trim`, `trim_end_matches`, `split`, `join`, `to_lowercase`, `contains`),
  each specified by its own contract or by lemmas (`join` by the round trips
  `SplitJoin` and `SplitOfJoin`), with the lemmas the tag handling needs.
- `indices.dfy` (`Indices`): `Vec::remove` and how an index held into the
  list moves when an entry is removed.
- `notes.dfy` (`NoteStore`): notes, the title search, double-click detection
  and the `Notes` store as a class whose methods update its fields.
- `editor.dfy` (`EditorForm`): the tag split and join, the save event and the
  `Editor` form as a class.
- `settings.dfy` (`SettingsStore`): theme, font and font size, the clamp, and
  the rule that a write happens only when a value changes.
- `app.dfy` (`Faitout`): the `App` router that keeps the store, the editor
  and the window map in step, and the window title.

Time is an integer number of milliseconds passed in by the caller. Writes to
the notes file and to the settings file are counted in ghost fields
(`writes`), so the contracts can say when a write happens. The invariant
`Faitout.App.Valid` says that the store's selection and the editor's note
index both name existing notes. Every router method keeps it, so saving a
note that is being edited always overwrites that note and never appends.

## Model

| member | source | states |
|---|---|---|
| Text.Trim | src/editor/editor.rs:81 | `str::trim`: the result has no whitespace at either end and is no longer than the input |
| Text.TrimStartSuffix | src/editor/editor.rs:81 | `trim_start` keeps a suffix of the input |
| Text.TrimEndPrefix | src/editor/editor.rs:81 | `trim_end` keeps a prefix of the input |
| Text.TrimStartDropsBlank | src/editor/editor.rs:81 | the characters `trim` removes from the front are all whitespace |
| Text.TrimEndDropsBlank | src/editor/editor.rs:81 | the characters `trim` removes from the back are all whitespace |
| Text.TrimBlank | src/editor/editor.rs:81-85 | the trimmed title is empty exactly when the title is all whitespace |
| Text.TrimOmits | src/editor/editor.rs:93 | trimming adds no character: one absent from the input, such as a comma, is absent from the result |
| Text.TrimPadded | src/editor/editor.rs:93 | whitespace put in front of a trimmed, non-empty string is removed again by `trim` |
| Text.TrimEndMatches | src/editor/editor.rs:83 | `trim_end_matches('\n')` returns a prefix of the input; everything it drops is `'\n'`, and the prefix does not end in `'\n'` |
| Text.TrimEndMatchesEmpty | src/editor/editor.rs:83-85 | the trimmed body is empty exactly when the body holds nothing but `'\n'` |
| Text.Split | src/editor/editor.rs:91 | `split(',')` always gives at least one piece |
| Text.SplitJoin | src/editor/editor.rs:91 | joining the pieces with the separator gives back the input |
| Text.SplitPiecesLackSep | src/editor/editor.rs:91 | no piece contains the separator |
| Text.SplitOfJoin | src/editor/editor.rs:91 | splitting a join of separator-free pieces gives back the same pieces |
| Text.SplitAtFirst | src/editor/editor.rs:91 | the piece before the first separator comes first, followed by the split of the rest |
| Text.Lower | src/notes/notes.rs:94 | lowercases character by character, ASCII letters only, keeping the length; lowercasing twice changes nothing more (with Text.LowerIdempotent) |
| Text.LowerIdempotent | src/notes/notes.rs:279 | lowercasing an already lowercased text leaves it unchanged |
| Text.Contains | src/notes/notes.rs:94 | `contains` holds exactly when the needle occurs at some position of the haystack |
| Indices.RemoveAt | src/notes/notes.rs:257 | `Vec::remove(i)` drops entry `i` alone: earlier entries stay put and later ones move down by one |
| Indices.ShiftKeepsEntry | src/notes/notes.rs:456-463 | an index shifted after a removal names the same entry as before, and it is cleared exactly when that entry was the one removed |
| NoteStore.NewNote | src/notes/notes.rs:71-80 | a new note keeps the given title, body and tags and has the default colour |
| NoteStore.Matches | src/notes/notes.rs:90-96 | the empty query matches every note; otherwise a note matches exactly when its lowercased title contains the query |
| NoteStore.Visible | src/notes/notes.rs:312-317 | the list shows, in increasing order, exactly the indices of the notes whose title matches the lowercased search; indices stay absolute |
| NoteStore.SearchIgnoresCase | src/notes/notes.rs:279 | searching for a text and for its lowercase form shows the same notes |
| NoteStore.SearchExample | src/notes/notes.rs:90-96 | in "Project Plan", "Grocery List", "Side project", searching "proj" shows entries 0 and 2 |
| NoteStore.DoubleClickWindow | src/notes/notes.rs:209-217 | a click is a double-click exactly when the previous click was on the same note at most 300 ms earlier |
| NoteStore.RapidClicksEditEverySecond | src/notes/notes.rs:219-228 | in a run of rapid clicks on one note, every second click asks for an edit, so three clicks give exactly one edit |
| NoteStore.UpsertInto | src/notes/notes.rs:431-450 | with a valid editing index, the note replaces that entry and keeps its colour, with the length, the other entries and the index unchanged; otherwise it is appended at the old length and earlier entries are unchanged |
| NoteStore.Notes.constructor | src/notes/notes.rs:106-165 | a store starts with the loaded notes and no selection, search, colour menu or remembered click |
| NoteStore.Notes.Get | src/notes/notes.rs:452-454 | a note is returned exactly when the index is in range, and it is the entry at that index |
| NoteStore.Notes.Select | src/notes/notes.rs:427-429 | the selection becomes the given index when it names an entry, and is cleared otherwise |
| NoteStore.Notes.Upsert | src/notes/notes.rs:431-450 | the list and the returned index are those of `UpsertInto`, and the file is written once |
| NoteStore.Notes.AdjustAfterRemove | src/notes/notes.rs:456-472 | the selection and the colour menu are each cleared if they named the removed entry, moved down if past it, and kept otherwise |
| NoteStore.Notes.Update | src/notes/notes.rs:207-275 | per message: a click selects its entry and closes the colour menu, and a double-click emits `Edit`; picking a colour recolours only an existing entry and always writes; deleting an existing entry removes it alone, shifts the selection and drops the menu and the click, while deleting a missing one changes nothing; the selection stays valid |
| NoteStore.SelectionFollowsNote | src/notes/notes.rs:255-262 | after a delete, a surviving selection names the same note, and it is lost only when its own note was deleted |
| EditorForm.Toggled | src/editor/editor.rs:111-114 | the view toggle always switches to the other layout |
| EditorForm.ToggleTwice | src/editor/editor.rs:110-121 | toggling twice restores the layout |
| EditorForm.Kept | src/editor/editor.rs:92-95 | the per-piece step of the tag filter; it yields at most one tag (its content is stated by CleanTagsContents) |
| EditorForm.KeptWellFormed | src/editor/editor.rs:92-95 | a comma-free piece is either dropped or kept as a well-formed tag |
| EditorForm.CleanTags | src/editor/editor.rs:92-95 | the `filter_map` over the pieces; it gives no more tags than pieces (its content is stated by CleanTagsContents) |
| EditorForm.CleanTagsContents | src/editor/editor.rs:92-95 | a string is a cleaned tag exactly when it is non-empty and is the trim of some piece |
| EditorForm.CleanIsFilteredTrims | src/editor/editor.rs:92-95 | the `filter_map` equals trimming every piece in order and then dropping the empty results |
| EditorForm.TrimEach | src/editor/editor.rs:93 | one trimmed string per piece, each the trim of the piece at the same position |
| EditorForm.NonEmptyHas | src/editor/editor.rs:94 | a string survives the empty-string filter exactly when it is non-empty and occurs in the input |
| EditorForm.CleanTagsWellFormed | src/editor/editor.rs:92-95 | cleaning comma-free pieces keeps only well-formed tags |
| EditorForm.SplitTags | src/editor/editor.rs:89-96 | every saved tag is non-empty, has no surrounding whitespace and contains no comma |
| EditorForm.TagsRoundTrip | src/editor/editor.rs:164-171 | loading a note joins its tags with ", ", and saving splits them back to the same list whenever each tag is well formed |
| EditorForm.SplitTagsStable | src/editor/editor.rs:89-96 | saving, reloading and saving again gives the tags the first save produced |
| EditorForm.SaveEvent | src/editor/editor.rs:80-104 | an emitted event is a save carrying the form's editing index unchanged |
| EditorForm.SaveEventNone | src/editor/editor.rs:81-87 | nothing is saved exactly when the title is blank and the body holds only line breaks |
| EditorForm.SaveEventFields | src/editor/editor.rs:80-104 | a saved title is the trimmed title; the saved body is a prefix of the body with only `'\n'` cut and no `'\n'` left at its end; the tags are well formed |
| EditorForm.WhitespaceBodySaves | src/editor/editor.rs:83-87 | a body of spaces under a blank title is still saved |
| EditorForm.Editor.constructor | src/editor/editor.rs:51-62 | a new form is blank: empty fields, no note, preview layout |
| EditorForm.Editor.LoadNew | src/editor/editor.rs:155-162 | the form is blank afterwards |
| EditorForm.Editor.LoadExisting | src/editor/editor.rs:164-171 | the form edits the given index and shows the note's title, body and joined tags in the preview layout |
| EditorForm.Editor.AdjustAfterDelete | src/editor/editor.rs:177-185 | the editing index is shifted like a held index; the form is reset when its own note was deleted and otherwise keeps its fields |
| EditorForm.Editor.Update | src/editor/editor.rs:65-123 | each field message sets only its field; saving changes nothing in the form and emits the save event; Back resets the form and emits `Back`; the toggle flips the layout only |
| SettingsStore.PickerListsComplete | src/settings/settings.rs:19-59 | the theme list and the font list each name every option exactly once |
| SettingsStore.LabelsDistinct | src/settings/settings.rs:26-67 | no two themes and no two fonts share a label |
| SettingsStore.ClampFontSize | src/settings/settings.rs:153 | the clamped size lies in [10, 48], equals the input when that is in range, and is the nearer bound otherwise |
| SettingsStore.Apply | src/settings/settings.rs:139-162 | a theme or font message sets only its own field; a size message sets the size to the clamped value, so it lies in [10, 48]; `Back` changes nothing |
| SettingsStore.ApplyIdempotent | src/settings/settings.rs:137-166 | repeating a message changes nothing more, so the repeat writes nothing |
| SettingsStore.FontSizeStaysInRange | src/settings/settings.rs:152-158 | a font size in range stays in range whatever the message |
| SettingsStore.DefaultsInRange | src/settings/settings.rs:106-112 | the defaults (Kanagawa Dragon, Sans, 16) are the first option of each picker and a size in range |
| SettingsStore.SettingsState.constructor | src/settings/settings.rs:99-103 | the settings start with the loaded values and no write |
| SettingsStore.SettingsState.Update | src/settings/settings.rs:136-167 | the new values are those of `Apply`, and one write happens exactly when some value changed |
| Faitout.WindowTitle | src/main.rs:21-32 | every title starts with "faitout"; it is exactly "faitout" unless the window shows a note; a note window shows the note's title, "Untitled page" for a blank one, or "Note" when the index names no note |
| Faitout.NoteWindowShiftsAfterDelete | src/main.rs:22-24 | a note window keeps its raw index across a delete, so it then shows the title of the note that followed the one it showed |
| Faitout.UpsertedNote | src/main.rs:97-99 | the saved note keeps the editor's title, body and tags; it overwrites the edited note in place, keeping its colour and every other entry, or is appended with the default colour after the unchanged entries |
| Faitout.App.constructor | src/main.rs:36-45 | the application starts on the notes screen with the loaded notes and settings, no selection, search, colour menu or remembered click, no write yet, a blank editor, and only the main window registered |
| Faitout.App.SaveNote | src/main.rs:91-103 | the saved note is upserted and selected (the selection is always valid), the editor is reset, the notes screen is shown, and the file is written once |
| Faitout.App.OpenForEdit | src/main.rs:120-128 | an existing note is loaded into the editor, selected and shown in the editor screen; a missing index changes nothing |
| Faitout.App.FollowDelete | src/main.rs:129-139 | after a delete, the selection equals the editor's shifted note index; the form is reset when its own note was deleted and keeps its title, tags input, body and layout otherwise; when the editor has no note any more, the notes screen is shown |
| Faitout.App.RouteEditor | src/main.rs:88-111 | a save overwrites the edited note where it stands, or appends a new one, then selects it, writes the notes file once and returns to a blank editor on the notes screen; the store's search, colour menu and click memory are never touched; an empty save changes nothing; Back resets the editor and leaves the notes alone |
| Faitout.App.RouteNotes | src/main.rs:112-155 | the store changes as `Notes::update` says for every message (click memory, colour menu, recolouring, search, the write on a colour pick or a delete); a double-click opens the note in the editor with its title, body, joined tags and the preview layout; Create opens a blank editor; a delete keeps the editor's note and the selection on the same note, resets the form when its own note went and keeps the form's fields otherwise; opening a note window adds it to the window map and asks for a window; nothing else touches the window map |
| Faitout.App.RouteSettings | src/main.rs:157-165 | Back returns to the notes screen and leaves the settings alone; any other message updates the settings |
| Faitout.App.CloseWindow | src/main.rs:170-177 | the closed window alone leaves the map, and the application exits exactly when no window is left |
| Faitout.App.Update | src/main.rs:86-179 | routing keeps the selection and the editor's note valid; only opening a note window or closing a window changes the window map; only settings messages touch the settings |

## Left out

- All `view` functions and the style helpers. They build widgets and float colours, so `NoteColor::label` and `swatch` are left out with them.
- The markdown form of a body (`parsed`, `preview`, `refresh_preview`, `markdown::parse`) is not part of this model, because it only feeds the views.
- The text editor widget (`text_editor::Content`): the body is a plain string. `BodyEdited` carries the edited text, so the effect of a widget action is not modelled. Neither is how `Content::text` renders the text (for example an added final line break).
- Reading and writing `notes.json` and `settings.json` (serde, the file system, `load`, `persist`, `storage_path`): loaded values are constructor parameters, and each write is one step of a ghost counter. A failed load falls back to `default_values`; the model expresses this by passing those values to the constructor.
- `Instant::now()`: a click's time is a parameter in milliseconds, and a clock going backwards counts as no time passed, as `duration_since` saturates.
- Text.Lower: lowercases only ASCII letters, whereas `str::to_lowercase` maps all of Unicode and can change the length of a string.
- The windowing runtime: `window::open` (its fresh id is a parameter), the `Task` values (returned as `Task`), `iced::exit`, the close-event subscription, the icon, and the theme and font conversions `to_theme` and `to_font`.
- `Editor::editing` is read as the `editing` field, and `SettingsState::font_size` as the `fontSize` field.
- build.rs is not part of this model. It only embeds an icon.
- Indices are unbounded naturals instead of `usize`. No index arithmetic in the core can overflow, because an index is only decremented when it is larger than another.
- NoteStore.Notes.Update: requires a clicked index to name an existing note. The list view only emits displayed indices, but the source stores any clicked index as the selection without checking it. Faitout.App.RouteNotes and Faitout.App.Update carry the same requirement.
- Faitout.App.RouteNotes: because a clicked index is always valid, its `Edit` arm always finds the note. The case of a missing note is stated on Faitout.App.OpenForEdit instead.
- NoteStore.Notes.Update: the colour menu is shifted by `AdjustAfterRemove` and then cleared at once, as in the source, so the contract only states that it ends up cleared.
- Faitout.App.RouteEditor: for the field and toggle messages it states only that the notes, the screen and the editor's note index are unchanged; the form's own changes are stated on EditorForm.Editor.Update.
- Faitout.App.Update: states the window map, settings and validity effects; the per-screen effects are stated on the route methods it calls.
