/** The values the notes client passes around: notes, drafts, the view mode,
    the requests sent to the notes REST resource and their outcomes. */
module Notes {

  datatype Option<T> = None | Some(value: T)

  /** A note as the server returns it; `updatedAt` is an ISO-8601 timestamp,
      kept as text. */
  datatype Note = Note(id: string, title: string, content: string, tags: seq<string>, updatedAt: string)

  /** What the page shows: the list, the editor for a new note, or the
      editor for the selected note. */
  datatype ViewMode = List | Create | Edit

  /** The editor's save payload: the fields of a note, with the id of the
      note being edited when there is one. */
  datatype Draft = Draft(id: Option<string>, title: string, content: string, tags: seq<string>)

  /** The request body of create and update. */
  datatype NoteBody = NoteBody(title: string, content: string, tags: seq<string>)

  /** The calls the page makes on the notes service. */
  datatype Request =
    | ListNotes(search: string, tags: seq<string>)
    | CreateNote(body: NoteBody)
    | UpdateNote(id: string, body: NoteBody)
    | DeleteNote(id: string)

  /** How a service call ended: with its result, or with a failure that may
      carry a message. */
  datatype Outcome<T> = Success(value: T) | Failure(message: Option<string>)

  /** The message recorded for a failure: its own message when it has one,
      else the operation's fallback (JavaScript's `e?.message ?? fallback`,
      which keeps an empty message). */
  function FailureText<T>(o: Outcome<T>, fallback: string): (text: string)
    requires o.Failure?
    ensures text == fallback || o.message == Some(text)
    ensures text == "" <==> o.message == Some("") || (o.message.None? && fallback == "")
  {
    match o.message
    case Some(m) => m
    case None => fallback
  }

  /** JavaScript truthiness of an optional string: present and non-empty. */
  predicate IsTruthy(s: Option<string>) {
    s.Some? && s.value != ""
  }
}
