# Ocean Notes client core, modelled in Dafny

Ocean Notes is a single-page notes client. A sidebar filters notes by a
search string and by a set of tags. A list shows the notes, and an editor
creates or edits one note. Notes are stored behind a REST resource. This
project models the part of the client that can be stated precisely:

- **The page state** (`notes_page.dfy`, module `NotesPage`). One record holds
  `loading`, `error`, the ordered `notes`, `selectedId`, the view mode
  (`List`, `Create`, `Edit`), the search `filter` and the selected `tags`.
  The class `NotesState` has these fields, and its handlers change them in
  place:
  - the list task (`BeginLoad`/`CompleteLoad`, or `Load` for both);
  - "new note", "select", "cancel";
  - save, which updates or creates;
  - delete, and the editor's delete button.

  Each handler's `ensures` gives the whole new state in terms of the old one.
  Each service call is a parameter `response: Outcome<T>` that stands for what
  the server answered. The method returns the `Request` it issued. The list
  operations behind the handlers are separate functions with their own
  lemmas: `FirstMatch`/`Lookup` (find by id), `Patched` (in-place update) and
  `Without` (the delete filter).
- **The editor** (`note_editor.dfy`, module `NoteEditor`). The class
  `EditorForm` holds the three text fields. `Sync` loads them from a note, or
  clears them. `Save` derives the payload:
  - tags are split at commas, trimmed, and empty pieces are dropped (`ParseTags`);
  - a blank title becomes `"Untitled"` (`SavedTitle`);
  - the content is passed through unchanged.

  The lemmas characterise the tag parser piece by piece. They also prove the
  load-then-save round trip for tags.
- **The sidebar tag toggle** (`notes_sidebar.dfy`, module `NotesSidebar`).
  `Toggle` rebuilds the tag list through an insertion-ordered set. It removes
  the clicked tag if the tag is selected, and appends it otherwise. Its
  lemmas cover membership, absence of repeats, order, and toggling twice.
- **Support** (`text.dfy`, module `Text`). JavaScript's `trim`,
  characterised as the removal of a whitespace prefix and suffix and shown
  idempotent; `split` on one character and `join`, shown to invert each
  other under the conditions their lemmas state (join always undoes split;
  split undoes join for a non-empty list of parts without the separator).
  `notes.dfy` (module `Notes`) holds the shared datatypes.

Where the app's intended design and the code differ, the model follows the code:

- The intended design says that in edit view the selected id refers to a
  note of the list, and that no two notes share an id. The code keeps
  neither. A selected id can refer to no note while the view is `Edit`.
  This happens after `Select` of any id, after an update whose returned id matches no
  entry, or after a reload. The editor then receives no note
  (`EditorNote`). Ids are unique after a create only if the server's id is
  fresh (`PrependedIsFound`). What the code does keep is the class
  invariant `Valid()`: create view has no selection, and edit view always
  has a selected id, though possibly one that matches no note.
- A delete filters out *every* note with the id, not only "the matching
  entry" (`Without`, index.tsx line 102). With unique ids, deleting a present
  id removes exactly one entry, and an absent id removes none
  (`DeleteRemovesOneEntry`).
- An update looks up the entry by the id of the note the server *returned*,
  not by the id it sent (index.tsx line 80).
- Tags are an ordered sequence that may repeat, not a set. The sidebar
  toggle produces a list without repeats. The editor's parser keeps
  repeats (`BlankPiecesDropped` holds for equal tags too).
- JavaScript truthiness is modelled where the code depends on it. A note
  whose id is the empty string is saved through the create path (`if
  (note.id)`). The editor's delete button does nothing when the selected id
  is empty (`IsTruthy`). A failure message is used when present, even when it
  is empty (`e?.message ?? fallback`).

## Model

| member | source | states |
|---|---|---|
| Text.TrimCharacterized | frontend_notes_app/src/ui/NoteEditor.tsx:40 | `Trim` (String.prototype.trim) removes only whitespace, only at the two ends, and returns a contiguous slice of its input with no whitespace at either end |
| Text.TrimEmptyIff | frontend_notes_app/src/ui/NoteEditor.tsx:44 | the trimmed string is empty exactly when the input is all whitespace |
| Text.TrimIdempotent | frontend_notes_app/src/ui/NoteEditor.tsx:40 | trimming twice is the same as trimming once |
| Text.Split | frontend_notes_app/src/ui/NoteEditor.tsx:39 | split always yields at least one piece, and no piece contains the separator |
| Text.JoinSplit | frontend_notes_app/src/ui/NoteEditor.tsx:39 | `Join` (Array.prototype.join) undoes `Split`: joining the pieces of a split with the separator gives back the input |
| Text.SplitJoin | frontend_notes_app/src/ui/NoteEditor.tsx:29-39 | splitting a join gives back the parts for a non-empty list of parts, none containing the separator (an empty list comes back as `[""]`, since `[].join` is the empty string) |
| Text.SplitAtSeparator | frontend_notes_app/src/ui/NoteEditor.tsx:39 | the pieces of a + sep + b are the pieces of a followed by the pieces of b |
| NoteEditor.SavedTitle | frontend_notes_app/src/ui/NoteEditor.tsx:44 | the saved title is the trimmed title, or exactly "Untitled" when the title is all whitespace; it is never empty and never has whitespace at either end |
| NoteEditor.ParsedTagsAreClean | frontend_notes_app/src/ui/NoteEditor.tsx:38-41 | every parsed tag is non-empty and has no whitespace at either end |
| NoteEditor.ParseSingleSegment | frontend_notes_app/src/ui/NoteEditor.tsx:38-41 | `ParseTags` on a comma-free piece: the piece gives its trimmed self as one tag, or no tag when it is blank |
| NoteEditor.ParseAtComma | frontend_notes_app/src/ui/NoteEditor.tsx:38-41 | with ParseSingleSegment this determines `ParseTags`: the tags of a + "," + b are the tags of a followed by the tags of b: segment order is kept and duplicates stay |
| NoteEditor.BlankPiecesDropped | frontend_notes_app/src/ui/NoteEditor.tsx:38-41 | "a, , b," parses to exactly [a, b] for clean tags a and b, so blank and trailing pieces are dropped and equal tags are kept |
| NoteEditor.ParseExample | frontend_notes_app/src/ui/NoteEditor.tsx:38-41 | "work, , personal," parses to ["work", "personal"] |
| NoteEditor.TwoTags | frontend_notes_app/src/ui/NoteEditor.tsx:38-41 | two clean tags written as "a, b" parse to exactly [a, b], equal ones included |
| NoteEditor.TipExample | frontend_notes_app/src/ui/NoteEditor.tsx:91-93 | the editor's tip example "work, personal" parses to ["work", "personal"] |
| NoteEditor.TagsRoundTrip | frontend_notes_app/src/ui/NoteEditor.tsx:29-41 | tags that are non-empty, trimmed and comma-free survive being joined with ", " and parsed back |
| NoteEditor.EditorForm.constructor | frontend_notes_app/src/ui/NoteEditor.tsx:20-22 | the three fields start empty |
| NoteEditor.EditorForm.Sync | frontend_notes_app/src/ui/NoteEditor.tsx:24-35 | in edit mode with a note, the fields hold the note's title, its content and its tags joined with ", "; otherwise all three are empty |
| NoteEditor.EditorForm.TypeTitle | frontend_notes_app/src/ui/NoteEditor.tsx:73 | typing sets the title and leaves the other fields alone |
| NoteEditor.EditorForm.TypeContent | frontend_notes_app/src/ui/NoteEditor.tsx:81 | typing sets the content and leaves the other fields alone |
| NoteEditor.EditorForm.TypeTags | frontend_notes_app/src/ui/NoteEditor.tsx:88 | typing sets the tag text and leaves the other fields alone |
| NoteEditor.EditorForm.Save | frontend_notes_app/src/ui/NoteEditor.tsx:37-47 | the payload has the note's id (absent without a note), the defaulted title, the content untrimmed, and the parsed tags |
| NoteEditor.ReopenAndSave | frontend_notes_app/src/ui/NoteEditor.tsx:24-47 | loading any note and saving it without edits sends its id, its content unchanged, the defaulted title and the tags parsed from the joined field; when the tags are clean, exactly the note's tags |
| NotesSidebar.Dedup | frontend_notes_app/src/ui/NotesSidebar.tsx:24 | the set built from the tag list has no repeats and holds exactly the tags of the list |
| NotesSidebar.Remove | frontend_notes_app/src/ui/NotesSidebar.tsx:25 | deleting a tag keeps exactly the other tags |
| NotesSidebar.RemoveDistinct | frontend_notes_app/src/ui/NotesSidebar.tsx:25 | deleting from a list without repeats leaves a list without repeats |
| NotesSidebar.Toggle | frontend_notes_app/src/ui/NotesSidebar.tsx:23-28 | the clicked tag is in the result iff it was not in the input, every other tag keeps its membership, and the result has no repeats even when the input had some |
| NotesSidebar.DedupKeepsOrder | frontend_notes_app/src/ui/NotesSidebar.tsx:24-27 | the set lists tags in the order of their first occurrence in the input |
| NotesSidebar.RemoveKeepsOrder | frontend_notes_app/src/ui/NotesSidebar.tsx:25 | deleting a tag keeps the relative order of the rest |
| NotesSidebar.ToggleKeepsOrder | frontend_notes_app/src/ui/NotesSidebar.tsx:23-28 | after a toggle, the other tags are in the order of their first occurrence in the input |
| NotesSidebar.ToggleAppends | frontend_notes_app/src/ui/NotesSidebar.tsx:26-27 | a newly selected tag is placed last, after the input's tags without repeats |
| NotesSidebar.ToggleTwiceSameSet | frontend_notes_app/src/ui/NotesSidebar.tsx:23-28 | toggling the same tag twice restores the selected tags as a set |
| NotesSidebar.ToggleTwiceRestores | frontend_notes_app/src/ui/NotesSidebar.tsx:23-28 | selecting and then deselecting a tag gives back the input list without repeats, in its order |
| NotesSidebar.ToggleTwiceMovesLast | frontend_notes_app/src/ui/NotesSidebar.tsx:23-28 | deselecting and then reselecting a tag moves it to the end of the list without repeats; the sequence comes back only when the tag was already last |
| NotesSidebar.ButtonStates | frontend_notes_app/src/ui/NotesSidebar.tsx:30-65 | one active flag per offered tag button (`IsActive`: the selected list holds the tag), in the order the buttons are shown |
| NotesSidebar.ClickFlipsItsButton | frontend_notes_app/src/ui/NotesSidebar.tsx:23-65 | clicking one of the offered buttons flips that button's active flag and leaves every other offered button as it was |
| NotesSidebar.ToggleFlipsOneButton | frontend_notes_app/src/ui/NotesSidebar.tsx:64-65 | clicking a tag button flips the active state of that button and of no other |
| NotesPage.FirstMatch | frontend_notes_app/src/routes/index.tsx:80 | the result is the first position whose note has the id, and it is absent exactly when no note has it |
| NotesPage.FindIndex | frontend_notes_app/src/routes/index.tsx:80 | the loop returns the first matching position, or -1 when no note has the id |
| NotesPage.Lookup | frontend_notes_app/src/routes/index.tsx:113 | a found note has the id and is the first note in the list with it, even when ids repeat; nothing is found exactly when no note has the id |
| NotesPage.Patched | frontend_notes_app/src/routes/index.tsx:80-81 | an update keeps the number of notes |
| NotesPage.PatchedChangesOnlyFirstMatch | frontend_notes_app/src/routes/index.tsx:80-81 | an update changes at most one entry, the first whose id equals the returned note's id, and only to the returned note; with no match the list is unchanged |
| NotesPage.PatchedIsFound | frontend_notes_app/src/routes/index.tsx:80-83 | after an update that found its entry, the selected id resolves to the returned note |
| NotesPage.PatchedKeepsIdsUnique | frontend_notes_app/src/routes/index.tsx:80-81 | an update keeps ids unique |
| NotesPage.PrependedIsFound | frontend_notes_app/src/routes/index.tsx:90-92 | the created note is what a lookup of its id finds, and ids stay unique iff the new id is fresh |
| NotesPage.WithoutSingle | frontend_notes_app/src/routes/index.tsx:102 | the delete filter drops a note with the id and keeps any other note |
| NotesPage.WithoutAppend | frontend_notes_app/src/routes/index.tsx:102 | the delete filter works piece by piece over a concatenation, so the kept notes stay in their order and keep their repeats; with WithoutSingle this determines `Without` |
| NotesPage.WithoutKeeps | frontend_notes_app/src/routes/index.tsx:102 | the delete filter keeps exactly the notes with another id, and the list does not grow |
| NotesPage.DeleteRemovesOneEntry | frontend_notes_app/src/routes/index.tsx:102 | with unique ids, deleting a present note removes just that entry and keeps the others in order; deleting an absent id changes nothing |
| NotesPage.DeleteLeavesNoMatch | frontend_notes_app/src/routes/index.tsx:102 | after a delete no note has the id, and unique ids stay unique |
| NotesPage.NotesState.constructor | frontend_notes_app/src/routes/index.tsx:34-42 | the page starts not loading, without error, notes or selection, in list view with an empty filter and no tags |
| NotesPage.NotesState.SelectedNote | frontend_notes_app/src/routes/index.tsx:112-115 | the selected note is the first note in the list with the selected id; there is none exactly when nothing is selected or no note has the id |
| NotesPage.NotesState.EditorNote | frontend_notes_app/src/routes/index.tsx:156 | the editor gets no note outside edit view. In edit view it gets exactly the selected note, the first with the selected id, and gets none exactly when no note has that id |
| NotesPage.NotesState.BeginLoad | frontend_notes_app/src/routes/index.tsx:47-53 | the list task sets loading, clears the error and requests the current filter and tags, changing nothing else |
| NotesPage.NotesState.CompleteLoad | frontend_notes_app/src/routes/index.tsx:53-58 | on success the list is replaced wholesale; on failure the list is kept and the error is the failure's message, even an empty one, or "Failed to load notes" when it has none (`FailureText`, `e?.message ?? fallback`); loading ends either way |
| NotesPage.NotesState.Load | frontend_notes_app/src/routes/index.tsx:47-59 | the whole task: loading is false afterwards; on success the new list is shown without error; on failure the old list stays and the error is set |
| NotesPage.NotesState.ChangeFilter | frontend_notes_app/src/routes/index.tsx:124 | the search box sets the filter and nothing else |
| NotesPage.NotesState.ToggleTag | frontend_notes_app/src/routes/index.tsx:126 | a tag click replaces the tag filter by the sidebar's toggled list, which flips that tag's active state and changes nothing else |
| NotesPage.NotesState.New | frontend_notes_app/src/routes/index.tsx:61-64 | "new" enters create mode with no selection and changes nothing else |
| NotesPage.NotesState.Select | frontend_notes_app/src/routes/index.tsx:66-69 | select enters edit mode with that id and changes nothing else |
| NotesPage.NotesState.Cancel | frontend_notes_app/src/routes/index.tsx:157 | cancel returns to the list view and keeps the selection and the notes |
| NotesPage.NotesState.Save | frontend_notes_app/src/routes/index.tsx:71-97 | a payload with a truthy id (`IsTruthy`: present and non-empty) sends an update, and any other payload sends a create. On success the returned note is patched in or prepended, selected and edited, and the error is left alone. On failure only the error changes, to the failure's message or, when it has none, "Failed to save note" (`FailureText`) |
| NotesPage.NotesState.Delete | frontend_notes_app/src/routes/index.tsx:99-110 | on success every note with the id is filtered out, and a deleted selection returns the page to the list; on failure only the error changes, to the failure's message or, when it has none, "Failed to delete note" (`FailureText`) |
| NotesPage.NotesState.DeleteSelected | frontend_notes_app/src/routes/index.tsx:159 | the editor's delete calls delete exactly when the selected id is truthy (`IsTruthy`: present and non-empty), with that id, and otherwise changes nothing |
| NotesPage.SelectThenDelete | frontend_notes_app/src/routes/index.tsx:99-106 | after selecting a note and deleting it from the editor, the view is the list, nothing is selected and no note has the id |
| NotesPage.FailedReloadKeepsNotes | frontend_notes_app/src/routes/index.tsx:47-59 | a failed reload after a successful one keeps the loaded notes, ends loading and reports the message or the fallback |
| NotesPage.FailureBannerShown | frontend_notes_app/src/routes/index.tsx:138-142 | a recorded failure shows the error banner exactly when its message is not the empty string: an empty message is recorded but never shown |
| NotesPage.EmptyIdSavesAsNew | frontend_notes_app/src/routes/index.tsx:71-93 | a loaded note whose id is the empty string cannot be deleted from the editor (line 159), and saving it from the editor sends a create and prepends a second note instead of updating it |
| NotesPage.CreateThenEdit | frontend_notes_app/src/routes/index.tsx:84-93 | "new" followed by a successful save edits the created note, which heads the list |

## Left out

- frontend_notes_app/src/services/notes-service.ts is not part of this model. It covers HTTP requests, JSON decoding, URL building and the base-URL setting. Each call is a `Request` value the page returns, and what the server answered is an `Outcome` parameter.
- frontend_notes_app/src/ui/NotesList.tsx is not part of this model. It is rendering only: display fallbacks and locale date formatting.
- Asynchronous interleaving and reactivity are not modelled. Each handler runs as one atomic step. `BeginLoad`/`CompleteLoad` mark the await point of the list task, but no other handler is modelled as running between them. The re-fetch triggered by a change of filter or tags is left to the caller. A late list response that overwrites a newer one cannot be expressed without a model of concurrency.
- JSX, styling, ARIA attributes, the sidebar's open/closed signal, the search form's no-op submit handler and the page metadata are not modelled.
- The `|| ""` and `?.` fallbacks on a note's title, content and tags are not modelled, because the model's notes always carry these fields.
- Text.Trim: JavaScript trims UTF-16 code units, and Dafny strings here are sequences of Unicode scalar values. Every character `trim` removes lies in the Basic Multilingual Plane, so the two agree.
- The editor's delete button appears only in edit mode (NoteEditor.tsx line 57). `DeleteSelected` does not require edit mode, because the page's handler does not check it.
