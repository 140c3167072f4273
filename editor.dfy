/**
  The page editor of src/editor/editor.rs: the form fields, the index of the
  note being edited (none for a new page) and the layout mode. The body is the
  plain text of the editor widget.
 */
module EditorForm {
  import opened Wrappers
  import Text
  import opened Indices
  import NoteStore

  datatype ViewMode = PreviewOnly | Split

  /** The layout `ToggleViewMode` switches to. */
  function Toggled(mode: ViewMode): (r: ViewMode)
    ensures r != mode
  {
    match mode
    case PreviewOnly => Split
    case Split => PreviewOnly
  }

  /** Toggling twice restores the layout. */
  lemma ToggleTwice(mode: ViewMode)
    ensures Toggled(Toggled(mode)) == mode
  {
  }

  /** A tag as saved: not empty, no whitespace at either end, no comma. */
  predicate WellFormedTag(t: string)
  {
    t != [] && Text.IsTrimmed(t) && ',' !in t
  }

  /** What cleaning keeps of one piece: the piece trimmed, unless that leaves nothing. */
  function Kept(piece: string): (r: seq<string>)
    ensures |r| <= 1
  {
    if Text.Trim(piece) == [] then [] else [Text.Trim(piece)]
  }

  /** A comma-free piece is kept, if at all, as a well-formed tag. */
  lemma KeptWellFormed(piece: string)
    requires ',' !in piece
    ensures forall t :: t in Kept(piece) ==> WellFormedTag(t)
  {
    Text.TrimOmits(piece, ',');
  }

  /** The trimmed pieces, with the pieces that trim to nothing dropped. */
  function CleanTags(pieces: seq<string>): (r: seq<string>)
    ensures |r| <= |pieces|
  {
    if pieces == [] then [] else Kept(pieces[0]) + CleanTags(pieces[1..])
  }

  /** Cleaning comma-free pieces leaves only well-formed tags. */
  lemma {:induction false} CleanTagsWellFormed(pieces: seq<string>)
    requires forall p :: p in pieces ==> ',' !in p
    ensures forall t :: t in CleanTags(pieces) ==> WellFormedTag(t)
    decreases |pieces|
  {
    if pieces != [] {
      assert forall p :: p in pieces[1..] ==> ',' !in p by {
        forall p | p in pieces[1..]
          ensures ',' !in p
        {
          assert p in pieces;
        }
      }
      CleanTagsWellFormed(pieces[1..]);
      assert ',' !in pieces[0] by {
        assert pieces[0] in pieces;
      }
      KeptWellFormed(pieces[0]);
    }
  }

  /** The cleaned tags are exactly the non-empty trims of the pieces. */
  lemma CleanTagsContents(pieces: seq<string>)
    ensures forall t :: t in CleanTags(pieces) <==>
      t != [] && exists i :: 0 <= i < |pieces| && Text.Trim(pieces[i]) == t
  {
    var trims := TrimEach(pieces);
    CleanIsFilteredTrims(pieces);
    forall t
      ensures t in CleanTags(pieces) <==>
        t != [] && exists i :: 0 <= i < |pieces| && Text.Trim(pieces[i]) == t
    {
      NonEmptyHas(trims, t);
      if t in trims {
        var i :| 0 <= i < |trims| && trims[i] == t;
      }
    }
  }

  /** Every piece trimmed, in order. */
  function TrimEach(pieces: seq<string>): (r: seq<string>)
    ensures |r| == |pieces|
    ensures forall i :: 0 <= i < |pieces| ==> r[i] == Text.Trim(pieces[i])
  {
    seq(|pieces|, i requires 0 <= i < |pieces| => Text.Trim(pieces[i]))
  }

  /** The strings that are not empty, in order. */
  function NonEmpty(ts: seq<string>): seq<string>
  {
    if ts == [] then []
    else (if ts[0] == [] then [] else [ts[0]]) + NonEmpty(ts[1..])
  }

  /** A string survives the filter exactly when it is not empty and occurs in the input. */
  lemma {:induction false} NonEmptyHas(ts: seq<string>, t: string)
    ensures t in NonEmpty(ts) <==> t != [] && t in ts
    decreases |ts|
  {
    if ts != [] {
      NonEmptyHas(ts[1..], t);
      assert ts == [ts[0]] + ts[1..];
    }
  }

  /** Cleaning is trimming every piece, then dropping the empty results. */
  lemma {:induction false} CleanIsFilteredTrims(pieces: seq<string>)
    ensures CleanTags(pieces) == NonEmpty(TrimEach(pieces))
    decreases |pieces|
  {
    if pieces != [] {
      var trims := TrimEach(pieces);
      CleanIsFilteredTrims(pieces[1..]);
      assert trims[1..] == TrimEach(pieces[1..]);
      assert trims[0] == Text.Trim(pieces[0]);
    }
  }

  /** The tags saved from the tag input: its comma-separated pieces, trimmed, empty ones dropped. */
  function SplitTags(input: string): (r: seq<string>)
    ensures forall t :: t in r ==> WellFormedTag(t)
  {
    Text.SplitPiecesLackSep(input, ',');
    CleanTagsWellFormed(Text.Split(input, ','));
    CleanTags(Text.Split(input, ','))
  }

  /** The tag input shown for a note being edited: its tags joined with ", ". */
  function JoinTags(tags: seq<string>): string
  {
    Text.Join(tags, ", ")
  }

  /** Loading a note into the editor and saving it again gives back its tags. */
  lemma TagsRoundTrip(tags: seq<string>)
    requires forall t :: t in tags ==> WellFormedTag(t)
    ensures SplitTags(JoinTags(tags)) == tags
  {
    if tags == [] {
      assert JoinTags(tags) == [];
      assert Text.Split([], ',') == [[]];
      CleanFirst([], []);
    } else {
      JoinSpaced(tags);
      SpacedCommaFree(tags);
      Text.SplitOfJoin(Spaced(tags), ',');
      CleanSpaced(tags);
    }
  }

  /**
    The pieces `split(',')` finds in the joined tags: the first tag, then every
    later tag behind the space of the ", " separator.
   */
  function Spaced(tags: seq<string>): (r: seq<string>)
    ensures |r| == |tags|
  {
    if tags == [] then [] else [tags[0]] + Padded(tags[1..])
  }

  /** Each tag behind one space. */
  function Padded(ts: seq<string>): (r: seq<string>)
    ensures |r| == |ts|
  {
    if ts == [] then [] else [" " + ts[0]] + Padded(ts[1..])
  }

  /** Joining with ", " is joining the spaced tags with ','. */
  lemma JoinSpaced(tags: seq<string>)
    requires tags != []
    ensures JoinTags(tags) == Text.Join(Spaced(tags), [','])
  {
    var s := Spaced(tags);
    assert s[0] == tags[0];
    if |tags| > 1 {
      var tail := tags[1..];
      JoinPadded(tail);
      assert s[1..] == Padded(tail);
      calc {
        Text.Join(s, [',']);
        s[0] + [','] + Text.Join(s[1..], [',']);
        tags[0] + [','] + (" " + JoinTags(tail));
        tags[0] + ", " + JoinTags(tail);
        JoinTags(tags);
      }
    }
  }

  lemma {:induction false} JoinPadded(ts: seq<string>)
    requires ts != []
    ensures Text.Join(Padded(ts), [',']) == " " + JoinTags(ts)
    decreases |ts|
  {
    var p := Padded(ts);
    if |ts| > 1 {
      var tail := ts[1..];
      JoinPadded(tail);
      assert p[1..] == Padded(tail);
      calc {
        Text.Join(p, [',']);
        p[0] + [','] + Text.Join(p[1..], [',']);
        (" " + ts[0]) + [','] + (" " + JoinTags(tail));
        " " + (ts[0] + ", " + JoinTags(tail));
        " " + JoinTags(ts);
      }
    }
  }

  /** No spaced piece holds a comma. */
  lemma SpacedCommaFree(tags: seq<string>)
    requires forall t :: t in tags ==> WellFormedTag(t)
    ensures forall p :: p in Spaced(tags) ==> ',' !in p
  {
    if tags != [] {
      assert tags[0] in tags;
      assert forall u :: u in tags[1..] ==> u in tags;
      PaddedCommaFree(tags[1..]);
    }
  }

  lemma {:induction false} PaddedCommaFree(ts: seq<string>)
    requires forall t :: t in ts ==> WellFormedTag(t)
    ensures forall p :: p in Padded(ts) ==> ',' !in p
    decreases |ts|
  {
    if ts != [] {
      var t := ts[0];
      assert t in ts;
      assert forall u :: u in ts[1..] ==> u in ts;
      PaddedCommaFree(ts[1..]);
      assert ',' !in " " + t by {
        assert forall c :: c in " " + t ==> c == ' ' || c in t;
      }
    }
  }

  /** Cleaning the spaced pieces gives back the tags. */
  lemma CleanSpaced(tags: seq<string>)
    requires tags != []
    requires forall t :: t in tags ==> WellFormedTag(t)
    ensures CleanTags(Spaced(tags)) == tags
  {
    var t := tags[0];
    assert t in tags;
    assert forall u :: u in tags[1..] ==> u in tags;
    calc {
      CleanTags(Spaced(tags));
      { CleanFirst(t, Padded(tags[1..])); }
      Kept(t) + CleanTags(Padded(tags[1..]));
      { KeptPadded([], t); CleanPadded(tags[1..]); }
      [t] + tags[1..];
      tags;
    }
  }

  lemma {:induction false} CleanPadded(ts: seq<string>)
    requires forall t :: t in ts ==> WellFormedTag(t)
    ensures CleanTags(Padded(ts)) == ts
    decreases |ts|
  {
    if ts != [] {
      var t := ts[0];
      assert t in ts;
      assert forall u :: u in ts[1..] ==> u in ts;
      calc {
        CleanTags(Padded(ts));
        { CleanFirst(" " + t, Padded(ts[1..])); }
        Kept(" " + t) + CleanTags(Padded(ts[1..]));
        { KeptPadded(" ", t); CleanPadded(ts[1..]); }
        [t] + ts[1..];
        ts;
      }
    }
  }

  /** A tag behind whitespace is kept as the tag itself. */
  lemma KeptPadded(pad: string, t: string)
    requires pad == [] || pad == " "
    requires WellFormedTag(t)
    ensures Kept(pad + t) == [t]
  {
    assert Text.AllWhitespace(pad) by {
      if pad != [] {
        assert pad[0] == ' ';
      }
    }
    Text.TrimPadded(pad, t);
  }

  lemma CleanFirst(piece: string, tail: seq<string>)
    ensures CleanTags([piece] + tail) == Kept(piece) + CleanTags(tail)
  {
    var pieces := [piece] + tail;
    assert pieces[0] == piece;
    assert pieces[1..] == tail;
  }

  /** Saving, reloading and saving again leaves the tags as the first save made them. */
  lemma SplitTagsStable(input: string)
    ensures SplitTags(JoinTags(SplitTags(input))) == SplitTags(input)
  {
    TagsRoundTrip(SplitTags(input));
  }

  datatype Message =
    | TitleChanged(value: string)
    | TagsChanged(value: string)
    | BodyEdited(text: string)
    | SavePressed
    | BackPressed
    | PreviewLinkClicked
    | ToggleViewMode

  datatype Event =
    | Save(title: string, body: string, tags: seq<string>, editing: Option<nat>)
    | Back

  /**
    What `SavePressed` emits for the form's fields. Nothing is saved when the
    title is blank and the body holds nothing but line breaks; otherwise the
    title loses its surrounding whitespace, the body its trailing line breaks,
    and the editing index is passed on as it is.
   */
  function SaveEvent(title: string, tagsInput: string, body: string, editing: Option<nat>): (r: Option<Event>)
    ensures r.Some? ==> r.value.Save? && r.value.editing == editing
  {
    var trimmedTitle := Text.Trim(title);
    var trimmedBody := Text.TrimEndMatches(body, '\n');
    if trimmedTitle == [] && trimmedBody == [] then None
    else Some(Save(trimmedTitle, trimmedBody, SplitTags(tagsInput), editing))
  }

  /** Nothing is saved exactly when the title is blank and the body holds only line breaks. */
  lemma SaveEventNone(title: string, tagsInput: string, body: string, editing: Option<nat>)
    ensures SaveEvent(title, tagsInput, body, editing).None? <==> Text.AllWhitespace(title) && Text.AllChar(body, '\n')
  {
    Text.TrimBlank(title);
    Text.TrimEndMatchesEmpty(body, '\n');
  }

  /**
    The fields of a save event: the title without surrounding whitespace, the
    body with its trailing line breaks cut and nothing else, and well-formed tags.
   */
  lemma SaveEventFields(title: string, tagsInput: string, body: string, editing: Option<nat>)
    ensures var r := SaveEvent(title, tagsInput, body, editing);
      r.Some? ==>
        && r.value.title == Text.Trim(title)
        && Text.IsTrimmed(r.value.title)
        && |r.value.body| <= |body| && r.value.body == body[..|r.value.body|]
        && (forall k :: |r.value.body| <= k < |body| ==> body[k] == '\n')
        && (r.value.body != [] ==> r.value.body[|r.value.body| - 1] != '\n')
        && (forall t :: t in r.value.tags ==> WellFormedTag(t))
  {
    var r := SaveEvent(title, tagsInput, body, editing);
    if r.Some? {
      var saved := Text.TrimEndMatches(body, '\n');
      assert r.value == Save(Text.Trim(title), saved, SplitTags(tagsInput), editing);
      assert saved != [] ==> saved[|saved| - 1] != '\n';
    }
  }

  /** A body of spaces is not empty once its line breaks are gone, so it is saved. */
  lemma WhitespaceBodySaves()
    ensures SaveEvent(" ", "", " \n", None) == Some(Save("", " ", [], None))
  {
    assert Text.AllWhitespace(" ");
    Text.TrimBlank(" ");
    assert Text.Trim([]) == [];
    assert CleanTags([[]]) == [];
    assert SplitTags("") == [];
    assert Text.TrimEndMatches(" \n", '\n') == " ";
  }

  class Editor {
    var title: string
    var tagsInput: string
    var body: string
    var editing: Option<nat>
    var mode: ViewMode

    /** The form as `load_new` leaves it: empty fields, a new page, preview only. */
    predicate IsBlank()
      reads this
    {
      title == [] && tagsInput == [] && body == [] && editing == None && mode == PreviewOnly
    }

    /** `Editor::default`. */
    constructor ()
      ensures IsBlank()
    {
      title := [];
      tagsInput := [];
      body := [];
      editing := None;
      mode := PreviewOnly;
    }

    /** `Editor::load_new`: start a new page. */
    method LoadNew()
      modifies this
      ensures IsBlank()
    {
      editing := None;
      title := [];
      tagsInput := [];
      body := [];
      mode := PreviewOnly;
    }

    /** `Editor::load_existing`: fill the form from the note at `index`. */
    method LoadExisting(index: nat, note: NoteStore.Note)
      modifies this
      ensures editing == Some(index) && mode == PreviewOnly
      ensures title == note.title && body == note.body
      ensures tagsInput == JoinTags(note.tags)
    {
      editing := Some(index);
      title := note.title;
      tagsInput := JoinTags(note.tags);
      body := note.body;
      mode := PreviewOnly;
    }

    /**
      `Editor::adjust_after_delete`: the editing index follows its note; when the
      note itself was deleted the form starts a new page.
     */
    method AdjustAfterDelete(index: nat)
      modifies this
      ensures editing == ShiftAfterRemove(old(editing), index)
      ensures old(editing) == Some(index) ==> IsBlank()
      ensures old(editing) != Some(index) ==>
        title == old(title) && tagsInput == old(tagsInput) && body == old(body) && mode == old(mode)
    {
      if editing.Some? {
        if editing.value == index {
          LoadNew();
        } else if editing.value > index {
          editing := Some(editing.value - 1);
        }
      }
    }

    /** `Editor::update`: one message from the form. */
    method Update(msg: Message) returns (ev: Option<Event>)
      modifies this
      ensures msg.TitleChanged? ==>
        && title == msg.value && ev == None
        && tagsInput == old(tagsInput) && body == old(body) && editing == old(editing) && mode == old(mode)
      ensures msg.TagsChanged? ==>
        && tagsInput == msg.value && ev == None
        && title == old(title) && body == old(body) && editing == old(editing) && mode == old(mode)
      ensures msg.BodyEdited? ==>
        && body == msg.text && ev == None
        && title == old(title) && tagsInput == old(tagsInput) && editing == old(editing) && mode == old(mode)
      // saving leaves the form as it is; the caller decides what happens next
      ensures msg.SavePressed? ==>
        unchanged(this) && ev == SaveEvent(old(title), old(tagsInput), old(body), old(editing))
      ensures msg.BackPressed? ==> IsBlank() && ev == Some(Back)
      ensures msg.PreviewLinkClicked? ==> unchanged(this) && ev == None
      ensures msg.ToggleViewMode? ==>
        && mode == Toggled(old(mode)) && ev == None
        && title == old(title) && tagsInput == old(tagsInput) && body == old(body) && editing == old(editing)
    {
      match msg
      case TitleChanged(value) =>
        title := value;
        ev := None;
      case TagsChanged(value) =>
        tagsInput := value;
        ev := None;
      case BodyEdited(text) =>
        body := text;
        ev := None;
      case SavePressed =>
        ev := SaveEvent(title, tagsInput, body, editing);
      case BackPressed =>
        LoadNew();
        ev := Some(Back);
      case PreviewLinkClicked =>
        ev := None;
      case ToggleViewMode =>
        mode := Toggled(mode);
        ev := None;
    }
  }
}
