/** The notes page: the list lookups it performs by id, and the single
    mutable state record its handlers update in place. */
module NotesPage {
  import opened Notes
  import NotesSidebar
  import NoteEditor

  const LoadFailed: string := "Failed to load notes"
  const SaveFailed: string := "Failed to save note"
  const DeleteFailed: string := "Failed to delete note"

  /** No two notes share an id. */
  predicate UniqueIds(notes: seq<Note>) {
    forall i, j :: 0 <= i < j < |notes| ==> notes[i].id != notes[j].id
  }

  /** The position of the first note with the given id (Array.prototype.findIndex). */
  function FirstMatch(notes: seq<Note>, id: string): (r: Option<nat>)
    ensures r.None? <==> forall k :: 0 <= k < |notes| ==> notes[k].id != id
    ensures r.Some? ==> r.value < |notes| && notes[r.value].id == id
    ensures r.Some? ==> forall k :: 0 <= k < r.value ==> notes[k].id != id
  {
    if notes == [] then None
    else if notes[0].id == id then Some(0)
    else match FirstMatch(notes[1..], id)
      case None => None
      case Some(k) => Some(k + 1)
  }

  /** The first note with the given id (Array.prototype.find). */
  function Lookup(notes: seq<Note>, id: string): (r: Option<Note>)
    ensures r.Some? ==> r.value in notes && r.value.id == id
    ensures r.Some? ==> exists k :: (0 <= k < |notes| && notes[k] == r.value &&
      forall j :: 0 <= j < k ==> notes[j].id != id)
    ensures r.None? <==> forall n :: n in notes ==> n.id != id
  {
    match FirstMatch(notes, id)
    case Some(k) => Some(notes[k])
    case None => None
  }

  /** The list after a successful update: the first note with the returned
      note's id is replaced by it; with no such note the list is unchanged. */
  function Patched(notes: seq<Note>, updated: Note): (r: seq<Note>)
    ensures |r| == |notes|
  {
    match FirstMatch(notes, updated.id)
    case Some(k) => notes[k := updated]
    case None => notes
  }

  /** The list after a successful delete: every note with that id filtered out. */
  function Without(notes: seq<Note>, id: string): seq<Note> {
    if notes == [] then []
    else (if notes[0].id == id then [] else [notes[0]]) + Without(notes[1..], id)
  }

  /** The filter works note by note: a note with the id is dropped, any
      other note is kept. */
  lemma WithoutSingle(n: Note, id: string)
    ensures Without([n], id) == if n.id == id then [] else [n]
  {
    assert [n][1..] == [];
  }

  /** The filter distributes over concatenation, so the kept notes stay in
      their order and keep their repeats. */
  lemma {:induction false} WithoutAppend(a: seq<Note>, b: seq<Note>, id: string)
    ensures Without(a + b, id) == Without(a, id) + Without(b, id)
  {
    if a != [] {
      assert (a + b)[1..] == a[1..] + b;
      WithoutAppend(a[1..], b, id);
    } else {
      assert a + b == b;
    }
  }

  /** What the filter keeps: exactly the notes with another id. */
  lemma {:induction false} WithoutKeeps(notes: seq<Note>, id: string)
    ensures forall n :: n in Without(notes, id) <==> n in notes && n.id != id
    ensures |Without(notes, id)| <= |notes|
  {
    if notes != [] {
      WithoutKeeps(notes[1..], id);
      assert notes == [notes[0]] + notes[1..];
    }
  }

  /** FirstMatch is pinned down by its contract: a position holding the id
      with no earlier match is the first match. */
  lemma {:induction false} FirstMatchAt(notes: seq<Note>, id: string, k: nat)
    requires k < |notes| && notes[k].id == id
    requires forall j :: 0 <= j < k ==> notes[j].id != id
    ensures FirstMatch(notes, id) == Some(k)
  {
    if k > 0 {
      FirstMatchAt(notes[1..], id, k - 1);
    }
  }

  /** An update changes at most one entry: the first match, which becomes
      the returned note; with no match the list is unchanged. */
  lemma PatchedChangesOnlyFirstMatch(notes: seq<Note>, updated: Note)
    ensures forall i :: 0 <= i < |notes| && Patched(notes, updated)[i] != notes[i] ==>
      Patched(notes, updated)[i] == updated && FirstMatch(notes, updated.id) == Some(i)
    ensures FirstMatch(notes, updated.id).None? ==> Patched(notes, updated) == notes
  {
  }

  /** After an update that found its entry, looking the id up finds the new version. */
  lemma PatchedIsFound(notes: seq<Note>, updated: Note)
    requires FirstMatch(notes, updated.id).Some?
    ensures Lookup(Patched(notes, updated), updated.id) == Some(updated)
  {
    var k := FirstMatch(notes, updated.id).value;
    var r := notes[k := updated];
    assert forall j :: 0 <= j < k ==> r[j] == notes[j];
    FirstMatchAt(r, updated.id, k);
  }

  /** An update never introduces a repeated id. */
  lemma PatchedKeepsIdsUnique(notes: seq<Note>, updated: Note)
    requires UniqueIds(notes)
    ensures UniqueIds(Patched(notes, updated))
  {
  }

  /** A create keeps ids unique exactly when the new id is fresh, and the
      created note is what a lookup of its id finds, fresh or not. */
  lemma PrependedIsFound(notes: seq<Note>, created: Note)
    ensures Lookup([created] + notes, created.id) == Some(created)
    ensures UniqueIds(notes) ==>
      (UniqueIds([created] + notes) <==> forall n :: n in notes ==> n.id != created.id)
  {
    var r := [created] + notes;
    if UniqueIds(notes) && !UniqueIds(r) {
      var i, j :| 0 <= i < j < |r| && r[i].id == r[j].id;
      assert i == 0 && r[j] in notes;
    }
    if UniqueIds(notes) && UniqueIds(r) {
      forall n | n in notes ensures n.id != created.id {
        var j :| 0 <= j < |notes| && notes[j] == n;
        assert r[0] == created && r[j + 1] == n;
      }
    }
  }

  /** With unique ids, deleting a present note removes that one entry and
      keeps the others in their original order; deleting an absent id
      changes nothing. */
  lemma DeleteRemovesOneEntry(notes: seq<Note>, id: string)
    requires UniqueIds(notes)
    ensures FirstMatch(notes, id).Some? ==>
      var k := FirstMatch(notes, id).value;
      Without(notes, id) == notes[..k] + notes[k + 1..]
    ensures FirstMatch(notes, id).None? ==> Without(notes, id) == notes
  {
  }

  /** A delete keeps ids unique and leaves nothing for a lookup of the id to find. */
  lemma DeleteLeavesNoMatch(notes: seq<Note>, id: string)
    ensures Lookup(Without(notes, id), id).None?
    ensures UniqueIds(notes) ==> UniqueIds(Without(notes, id))
  {
    WithoutKeeps(notes, id);
    if UniqueIds(notes) {
      WithoutSubsequence(notes, id);
    }
  }

  lemma {:induction false} WithoutSubsequence(notes: seq<Note>, id: string)
    requires UniqueIds(notes)
    ensures UniqueIds(Without(notes, id))
  {
    if notes != [] {
      WithoutSubsequence(notes[1..], id);
      WithoutKeeps(notes[1..], id);
      assert forall n :: n in notes[1..] ==> n.id != notes[0].id;
    }
  }

  /** Array.prototype.findIndex over the notes: the first position with the
      id, or -1. */
  method FindIndex(notes: seq<Note>, id: string) returns (idx: int)
    ensures FirstMatch(notes, id).None? ==> idx == -1
    ensures FirstMatch(notes, id).Some? ==> idx == FirstMatch(notes, id).value
  {
    idx := 0;
    while idx < |notes| && notes[idx].id != id
      invariant 0 <= idx <= |notes|
      invariant forall k :: 0 <= k < idx ==> notes[k].id != id
    {
      idx := idx + 1;
    }
    if idx == |notes| {
      idx := -1;
    }
  }

  /** The page's state record. */
  class NotesState {
    var loading: bool
    var error: Option<string>
    var notes: seq<Note>
    var selectedId: Option<string>
    var view: ViewMode
    var filter: string
    var tags: seq<string>

    /** Creating a note starts with nothing selected, and the editor for an
        existing note always has a selected id (which may match no note). */
    ghost predicate Valid()
      reads this
    {
      && (view == Create ==> selectedId.None?)
      && (view == Edit ==> selectedId.Some?)
    }

    constructor ()
      ensures Valid()
      ensures !loading && error.None? && notes == [] && selectedId.None?
      ensures view == List && filter == "" && tags == []
    {
      loading, error, notes, selectedId := false, None, [], None;
      view, filter, tags := List, "", [];
    }

    /** selectedNote(): the first note whose id is the selected id. */
    function SelectedNote(): (r: Option<Note>)
      reads this
      ensures r.Some? ==> selectedId == Some(r.value.id) && r.value in notes
      ensures r.Some? ==> selectedId.Some? && exists k :: (0 <= k < |notes| && notes[k] == r.value &&
        forall j :: 0 <= j < k ==> notes[j].id != selectedId.value)
      ensures r.None? <==> selectedId.None? || forall n :: n in notes ==> n.id != selectedId.value
    {
      match selectedId
      case None => None
      case Some(id) => Lookup(notes, id)
    }

    /** The note the editor is given: the selected note in edit view, and
        none otherwise, so a selection that resolves to nothing shows an
        empty form. */
    function EditorNote(): (r: Option<Note>)
      requires Valid()
      reads this
      ensures view != Edit ==> r.None?
      ensures view == Edit ==> r == SelectedNote()
      ensures r.Some? ==> view == Edit && selectedId == Some(r.value.id) && r.value in notes
      ensures view == Edit ==> (r.None? <==> forall n :: n in notes ==> n.id != selectedId.value)
    {
      if view == Edit then SelectedNote() else None
    }

    /** The first half of the list task: mark loading, clear the error and
        issue the list request for the current filter and tags. */
    method BeginLoad() returns (req: Request)
      requires Valid()
      modifies this
      ensures Valid()
      ensures req == ListNotes(filter, tags)
      ensures loading && error.None?
      ensures notes == old(notes) && selectedId == old(selectedId) && view == old(view)
      ensures filter == old(filter) && tags == old(tags)
    {
      loading := true;
      error := None;
      req := ListNotes(filter, tags);
    }

    /** The second half: take the list on success, record the failure
        otherwise (keeping the notes shown), and stop loading either way. */
    method CompleteLoad(response: Outcome<seq<Note>>)
      requires Valid()
      modifies this
      ensures Valid()
      ensures !loading
      ensures response.Success? ==> notes == response.value && error == old(error)
      ensures response.Failure? ==> notes == old(notes) && error == Some(FailureText(response, LoadFailed))
      ensures selectedId == old(selectedId) && view == old(view)
      ensures filter == old(filter) && tags == old(tags)
    {
      match response {
        case Success(list) =>
          notes := list;
        case Failure(_) =>
          error := Some(FailureText(response, LoadFailed));
      }
      loading := false;
    }

    /** The whole list task, run without interleaving. */
    method Load(response: Outcome<seq<Note>>) returns (req: Request)
      requires Valid()
      modifies this
      ensures Valid()
      ensures req == ListNotes(old(filter), old(tags))
      ensures !loading
      ensures response.Success? ==> notes == response.value && error.None?
      ensures response.Failure? ==> notes == old(notes) && error == Some(FailureText(response, LoadFailed))
      ensures selectedId == old(selectedId) && view == old(view)
      ensures filter == old(filter) && tags == old(tags)
    {
      req := BeginLoad();
      CompleteLoad(response);
    }

    /** The search box changed. */
    method ChangeFilter(value: string)
      requires Valid()
      modifies this
      ensures Valid()
      ensures filter == value
      ensures loading == old(loading) && error == old(error) && notes == old(notes)
      ensures selectedId == old(selectedId) && view == old(view) && tags == old(tags)
    {
      filter := value;
    }

    /** A tag button was clicked: the sidebar's toggled list becomes the tag filter. */
    method ToggleTag(t: string)
      requires Valid()
      modifies this
      ensures Valid()
      ensures tags == NotesSidebar.Toggle(old(tags), t)
      ensures NotesSidebar.IsActive(tags, t) == !NotesSidebar.IsActive(old(tags), t)
      ensures loading == old(loading) && error == old(error) && notes == old(notes)
      ensures selectedId == old(selectedId) && view == old(view) && filter == old(filter)
    {
      tags := NotesSidebar.Toggle(tags, t);
    }

    /** "New note": open an empty editor with nothing selected. */
    method New()
      modifies this
      ensures Valid()
      ensures view == Create && selectedId.None?
      ensures loading == old(loading) && error == old(error) && notes == old(notes)
      ensures filter == old(filter) && tags == old(tags)
    {
      view := Create;
      selectedId := None;
    }

    /** A note was picked from the list: edit it. */
    method Select(id: string)
      modifies this
      ensures Valid()
      ensures view == Edit && selectedId == Some(id)
      ensures loading == old(loading) && error == old(error) && notes == old(notes)
      ensures filter == old(filter) && tags == old(tags)
    {
      selectedId := Some(id);
      view := Edit;
    }

    /** The editor's cancel button: back to the list, selection kept. */
    method Cancel()
      requires Valid()
      modifies this
      ensures Valid()
      ensures view == List
      ensures selectedId == old(selectedId) && notes == old(notes)
      ensures loading == old(loading) && error == old(error)
      ensures filter == old(filter) && tags == old(tags)
    {
      view := List;
    }

    /** The editor's save: an update when the payload carries a (non-empty)
        id, a create otherwise. On success the returned note is patched in
        or prepended, selected and edited; on failure only the error changes. */
    method Save(draft: Draft, response: Outcome<Note>) returns (req: Request)
      requires Valid()
      modifies this
      ensures Valid()
      ensures IsTruthy(draft.id) ==> req == UpdateNote(draft.id.value, NoteBody(draft.title, draft.content, draft.tags))
      ensures !IsTruthy(draft.id) ==> req == CreateNote(NoteBody(draft.title, draft.content, draft.tags))
      ensures response.Success? ==>
        && selectedId == Some(response.value.id) && view == Edit && error == old(error)
        && notes == (if req.UpdateNote? then Patched(old(notes), response.value)
                     else [response.value] + old(notes))
      ensures response.Failure? ==>
        && error == Some(FailureText(response, SaveFailed))
        && notes == old(notes) && selectedId == old(selectedId) && view == old(view)
      ensures loading == old(loading) && filter == old(filter) && tags == old(tags)
    {
      var body := NoteBody(draft.title, draft.content, draft.tags);
      if IsTruthy(draft.id) {
        req := UpdateNote(draft.id.value, body);
        match response
        case Success(updated) =>
          var idx := FindIndex(notes, updated.id);
          if idx >= 0 {
            notes := notes[idx := updated];
          }
          selectedId := Some(updated.id);
          view := Edit;
        case Failure(_) =>
          error := Some(FailureText(response, SaveFailed));
      } else {
        req := CreateNote(body);
        match response
        case Success(created) =>
          notes := [created] + notes;
          selectedId := Some(created.id);
          view := Edit;
        case Failure(_) =>
          error := Some(FailureText(response, SaveFailed));
      }
    }

    /** Delete a note: on success it is filtered out, and if it was the
        selected one the page returns to the list; on failure only the
        error changes. */
    method Delete(id: string, response: Outcome<()>) returns (req: Request)
      requires Valid()
      modifies this
      ensures Valid()
      ensures req == DeleteNote(id)
      ensures response.Success? ==> notes == Without(old(notes), id) && error == old(error)
      ensures response.Success? && old(selectedId) == Some(id) ==> selectedId.None? && view == List
      ensures response.Success? && old(selectedId) != Some(id) ==>
        selectedId == old(selectedId) && view == old(view)
      ensures response.Failure? ==>
        && error == Some(FailureText(response, DeleteFailed))
        && notes == old(notes) && selectedId == old(selectedId) && view == old(view)
      ensures loading == old(loading) && filter == old(filter) && tags == old(tags)
    {
      req := DeleteNote(id);
      match response
      case Success(_) =>
        notes := Without(notes, id);
        if selectedId == Some(id) {
          selectedId := None;
          view := List;
        }
      case Failure(_) =>
        error := Some(FailureText(response, DeleteFailed));
    }

    /** The editor's delete button: deletes the selected note when there is
        a (non-empty) selected id, and does nothing otherwise. */
    method DeleteSelected(response: Outcome<()>) returns (req: Option<Request>)
      requires Valid()
      modifies this
      ensures Valid()
      ensures IsTruthy(old(selectedId)) ==> req == Some(DeleteNote(old(selectedId).value))
      ensures !IsTruthy(old(selectedId)) ==> req.None?
      ensures IsTruthy(old(selectedId)) && response.Success? ==>
        && notes == Without(old(notes), old(selectedId).value) && error == old(error)
        && selectedId.None? && view == List
      ensures IsTruthy(old(selectedId)) && response.Failure? ==>
        && error == Some(FailureText(response, DeleteFailed))
        && notes == old(notes) && selectedId == old(selectedId) && view == old(view)
      ensures !IsTruthy(old(selectedId)) ==>
        && notes == old(notes) && selectedId == old(selectedId) && view == old(view)
        && error == old(error)
      ensures loading == old(loading) && filter == old(filter) && tags == old(tags)
    {
      if IsTruthy(selectedId) {
        var r := Delete(selectedId.value, response);
        req := Some(r);
      } else {
        req := None;
      }
    }
  }

  /** Select a note of a loaded list, then delete it: the page is back on
      the list with nothing selected, and the note is gone. */
  method SelectThenDelete(list: seq<Note>, id: string) returns (view: ViewMode, selected: Option<string>, remaining: seq<Note>)
    requires id != ""
    ensures view == List && selected.None?
    ensures forall n :: n in remaining ==> n.id != id
  {
    var page := new NotesState();
    var _ := page.Load(Success(list));
    page.Select(id);
    var _ := page.DeleteSelected(Success(()));
    view, selected, remaining := page.view, page.selectedId, page.notes;
    WithoutKeeps(list, id);
  }

  /** A reload that fails after a successful one: the notes stay on screen,
      loading is over and the failure is reported. */
  method FailedReloadKeepsNotes(list: seq<Note>, message: Option<string>) returns (loading: bool, error: Option<string>, notes: seq<Note>)
    ensures !loading && notes == list
    ensures error == Some(if message.Some? then message.value else LoadFailed)
  {
    var page := new NotesState();
    var _ := page.Load(Success(list));
    var _ := page.Load(Failure(message));
    loading, error, notes := page.loading, page.error, page.notes;
  }

  /** "New note" and a successful save: the editor switches to editing the
      created note, which heads the list. */
  method CreateThenEdit(list: seq<Note>, draft: Draft, created: Note) returns (view: ViewMode, shown: Option<Note>, notes: seq<Note>)
    requires draft.id.None?
    ensures view == Edit && shown == Some(created)
    ensures notes == [created] + list
  {
    var page := new NotesState();
    var _ := page.Load(Success(list));
    page.New();
    var _ := page.Save(draft, Success(created));
    PrependedIsFound(list, created);
    view, shown, notes := page.view, page.EditorNote(), page.notes;
  }

  /** The error banner shows only a non-empty error. A failure whose
      operation has a non-empty fallback text therefore shows the banner
      exactly when it does not carry an empty message: an empty message is
      recorded but never shown. */
  lemma FailureBannerShown<T>(o: Outcome<T>, fallback: string)
    requires o.Failure? && fallback != ""
    ensures IsTruthy(Some(FailureText(o, fallback))) <==> o.message != Some("")
  {
  }

  /** A loaded note whose id is the empty string is falsy throughout: the
      editor's delete button does nothing for it, and saving it from the
      editor creates a new note instead of updating it. */
  method EmptyIdSavesAsNew(n: Note, created: Note) returns (deleteReq: Option<Request>, req: Request, notes: seq<Note>)
    requires n.id == ""
    ensures deleteReq.None?
    ensures req.CreateNote? && req.body.content == n.content
    ensures notes == [created, n]
  {
    var page := new NotesState();
    var _ := page.Load(Success([n]));
    page.Select("");
    deleteReq := page.DeleteSelected(Success(()));
    assert page.notes == [n];
    var shown := page.EditorNote();
    assert shown == Some(n);
    var form := new NoteEditor.EditorForm();
    form.Sync(page.view, shown);
    var draft := form.Save(shown);
    req := page.Save(draft, Success(created));
    notes := page.notes;
  }
}
