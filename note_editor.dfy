/** The note editor: the form fields it loads from a note, and the save
    payload it derives from them (tag parsing and title defaulting). */
module NoteEditor {
  import opened Notes
  import opened Text

  /** The title saved when the trimmed title is empty. */
  const Placeholder: string := "Untitled"

  /** The separator the tag field is written with when a note is loaded. */
  const TagSeparator: string := ", "

  /** Trim every piece. */
  function TrimEach(parts: seq<string>): (r: seq<string>)
    ensures |r| == |parts|
  {
    if parts == [] then [] else [Trim(parts[0])] + TrimEach(parts[1..])
  }

  lemma {:induction false} TrimEachAt(parts: seq<string>, i: nat)
    requires i < |parts|
    ensures TrimEach(parts)[i] == Trim(parts[i])
  {
    if i > 0 {
      TrimEachAt(parts[1..], i - 1);
    }
  }

  lemma {:induction false} TrimEachAppend(a: seq<string>, b: seq<string>)
    ensures TrimEach(a + b) == TrimEach(a) + TrimEach(b)
  {
    if a != [] {
      assert (a + b)[1..] == a[1..] + b;
      TrimEachAppend(a[1..], b);
    } else {
      assert a + b == b;
    }
  }

  /** Keep the non-empty pieces, in order. */
  function DropEmpty(parts: seq<string>): seq<string> {
    if parts == [] then []
    else (if parts[0] == "" then [] else [parts[0]]) + DropEmpty(parts[1..])
  }

  /** The tags of the save payload: the tag field split at commas, each piece
      trimmed, empty pieces dropped. */
  function ParseTags(raw: string): seq<string> {
    DropEmpty(TrimEach(Split(raw, ',')))
  }

  /** The title of the save payload: the trimmed title, or the placeholder
      when nothing but whitespace was typed. */
  function SavedTitle(title: string): (r: string)
    ensures AllWhitespace(title) ==> r == Placeholder
    ensures !AllWhitespace(title) ==> r == Trim(title)
    ensures r != "" && IsTrimmed(r)
  {
    TrimEmptyIff(title);
    TrimIsTrimmed(title);
    var t := Trim(title);
    if t == "" then Placeholder else t
  }

  lemma {:induction false} DropEmptyAppend(a: seq<string>, b: seq<string>)
    ensures DropEmpty(a + b) == DropEmpty(a) + DropEmpty(b)
  {
    if a != [] {
      assert (a + b)[1..] == a[1..] + b;
      DropEmptyAppend(a[1..], b);
    } else {
      assert a + b == b;
    }
  }

  lemma {:induction false} DropEmptyKeeps(parts: seq<string>)
    ensures forall t :: t in DropEmpty(parts) ==> t != "" && t in parts
    ensures (forall i :: 0 <= i < |parts| ==> parts[i] != "") ==> DropEmpty(parts) == parts
  {
    if parts != [] {
      DropEmptyKeeps(parts[1..]);
    }
  }

  /** Every parsed tag is non-empty and has no whitespace at either end. */
  lemma ParsedTagsAreClean(raw: string)
    ensures forall t :: t in ParseTags(raw) ==> t != "" && IsTrimmed(t)
  {
    var pieces := Split(raw, ',');
    DropEmptyKeeps(TrimEach(pieces));
    forall t | t in ParseTags(raw)
      ensures IsTrimmed(t)
    {
      var i :| 0 <= i < |pieces| && TrimEach(pieces)[i] == t;
      TrimEachAt(pieces, i);
      TrimIsTrimmed(pieces[i]);
    }
  }

  /** A piece without commas gives its trimmed self as a tag, or nothing
      when it is blank. */
  lemma ParseSingleSegment(s: string)
    requires ',' !in s
    ensures ParseTags(s) == if AllWhitespace(s) then [] else [Trim(s)]
  {
    SplitWithoutSeparator(s, ',');
    TrimEmptyIff(s);
    assert TrimEach([s]) == [Trim(s)] + TrimEach([]);
    assert DropEmpty([Trim(s)]) == (if Trim(s) == "" then [] else [Trim(s)]) + DropEmpty([]);
  }

  /** Tags are parsed segment by segment: the tags of a ++ "," ++ b are the
      tags of a followed by the tags of b (so order is kept and duplicates
      are not removed). */
  lemma ParseAtComma(a: string, b: string)
    ensures ParseTags(a + "," + b) == ParseTags(a) + ParseTags(b)
  {
    SplitAtSeparator(a, b, ',');
    var pa, pb := Split(a, ','), Split(b, ',');
    TrimEachAppend(pa, pb);
    DropEmptyAppend(TrimEach(pa), TrimEach(pb));
  }

  /** Whitespace in front of the tag field changes nothing. */
  lemma ParseAfterSpace(c: char, s: string)
    requires IsWhitespace(c)
    ensures ParseTags([c] + s) == ParseTags(s)
  {
  }

  /** A clean tag on its own parses to itself. */
  lemma ParseCleanTag(t: string)
    requires t != "" && IsTrimmed(t) && ',' !in t
    ensures ParseTags(t) == [t]
  {
    ParseSingleSegment(t);
    TrimEmptyIff(t);
    TrimOfTrimmed(t);
  }

  /** A blank piece parses to no tags. */
  lemma ParseBlank(w: string)
    requires AllWhitespace(w) && ',' !in w
    ensures ParseTags(w) == []
  {
    ParseSingleSegment(w);
  }

  /** A clean tag after a space, followed by a trailing comma, gives that tag. */
  lemma TagThenComma(b: string)
    requires b != "" && IsTrimmed(b) && ',' !in b
    ensures ParseTags(" " + b + ",") == [b]
  {
    assert " " + b + "," == ([' '] + b) + "," + "";
    ParseAtComma([' '] + b, "");
    ParseAfterSpace(' ', b);
    ParseCleanTag(b);
    ParseBlank("");
  }

  /** A blank piece in front of a clean tag and a trailing comma is dropped. */
  lemma BlankThenTag(b: string)
    requires b != "" && IsTrimmed(b) && ',' !in b
    ensures ParseTags(" , " + b + ",") == [b]
  {
    var blank: string := [' '];
    assert " , " + b + "," == blank + "," + (" " + b + ",");
    ParseAtComma(blank, " " + b + ",");
    ParseBlank(blank);
    TagThenComma(b);
  }

  /** Blank and trailing pieces are dropped: "a, , b," gives [a, b] for
      any two trimmed, non-empty, comma-free tags a and b (equal ones too). */
  lemma BlankPiecesDropped(a: string, b: string)
    requires a != "" && IsTrimmed(a) && ',' !in a
    requires b != "" && IsTrimmed(b) && ',' !in b
    ensures ParseTags(a + ", , " + b + ",") == [a, b]
  {
    assert a + ", , " + b + "," == a + "," + (" , " + b + ",");
    ParseAtComma(a, " , " + b + ",");
    ParseCleanTag(a);
    BlankThenTag(b);
  }

  /** Example: "work, , personal," saves the tags work and personal. */
  lemma ParseExample()
    ensures ParseTags("work, , personal,") == ["work", "personal"]
  {
    var a, b := "work", "personal";
    assert IsTrimmed(a) && IsTrimmed(b);
    BlankPiecesDropped(a, b);
    assert a + ", , " + b + "," == "work, , personal,";
  }

  /** A tag list is reproduced by a load and save without edits when every
      tag is non-empty, already trimmed and free of commas. */
  predicate SurvivesReload(tags: seq<string>) {
    forall i :: 0 <= i < |tags| ==> tags[i] != "" && IsTrimmed(tags[i]) && ',' !in tags[i]
  }

  /** Loading a note's tags into the field (joined with ", ") and parsing
      the field back gives the same tags. */
  lemma {:induction false} TagsRoundTrip(tags: seq<string>)
    requires SurvivesReload(tags)
    ensures ParseTags(Join(tags, TagSeparator)) == tags
  {
    if tags == [] {
      assert ParseTags("") == DropEmpty([""]);
    } else {
      ParseSingleSegment(tags[0]);
      TrimEmptyIff(tags[0]);
      TrimOfTrimmed(tags[0]);
      if |tags| > 1 {
        var rest := Join(tags[1..], TagSeparator);
        TagsRoundTrip(tags[1..]);
        assert Join(tags, TagSeparator) == tags[0] + "," + ([' '] + rest);
        ParseAtComma(tags[0], [' '] + rest);
        ParseAfterSpace(' ', rest);
        assert tags == [tags[0]] + tags[1..];
      }
    }
  }

  /** The editor's three text fields. */
  class EditorForm {
    var title: string
    var content: string
    var tags: string

    constructor ()
      ensures title == "" && content == "" && tags == ""
    {
      title, content, tags := "", "", "";
    }

    /** Load the fields from the note being edited, or clear them. */
    method Sync(mode: ViewMode, note: Option<Note>)
      modifies this
      ensures mode == Edit && note.Some? ==>
        title == note.value.title && content == note.value.content &&
        tags == Join(note.value.tags, TagSeparator)
      ensures !(mode == Edit && note.Some?) ==> title == "" && content == "" && tags == ""
    {
      if mode == Edit && note.Some? {
        title := note.value.title;
        content := note.value.content;
        tags := Join(note.value.tags, TagSeparator);
      } else {
        title := "";
        content := "";
        tags := "";
      }
    }

    /** Typing in the title box. */
    method TypeTitle(value: string)
      modifies this
      ensures title == value && content == old(content) && tags == old(tags)
    {
      title := value;
    }

    /** Typing in the content box. */
    method TypeContent(value: string)
      modifies this
      ensures content == value && title == old(title) && tags == old(tags)
    {
      content := value;
    }

    /** Typing in the tag box. */
    method TypeTags(value: string)
      modifies this
      ensures tags == value && title == old(title) && content == old(content)
    {
      tags := value;
    }

    /** The payload handed to the page on save: the note's id when a note is
        being edited, the defaulted title, the content as typed, the parsed tags. */
    method Save(note: Option<Note>) returns (draft: Draft)
      ensures draft.id == (if note.Some? then Some(note.value.id) else None)
      ensures draft.title == SavedTitle(title)
      ensures draft.content == content
      ensures draft.tags == ParseTags(tags)
    {
      var parsed := ParseTags(tags);
      var id := if note.Some? then Some(note.value.id) else None;
      draft := Draft(id, SavedTitle(title), content, parsed);
    }
  }

  /** Two clean tags separated by ", " give exactly those two tags. */
  lemma TwoTags(a: string, b: string)
    requires a != "" && IsTrimmed(a) && ',' !in a
    requires b != "" && IsTrimmed(b) && ',' !in b
    ensures ParseTags(a + ", " + b) == [a, b]
  {
    assert a + ", " + b == a + "," + ([' '] + b);
    ParseAtComma(a, [' '] + b);
    ParseAfterSpace(' ', b);
    ParseCleanTag(a);
    ParseCleanTag(b);
  }

  /** The editor's tip, "Example: work, personal", gives the tags work and personal. */
  lemma TipExample()
    ensures ParseTags("work, personal") == ["work", "personal"]
  {
    var a, b := "work", "personal";
    assert IsTrimmed(a) && IsTrimmed(b);
    TwoTags(a, b);
    assert a + ", " + b == "work, personal";
  }

  /** Opening any note in the editor and saving it untouched sends the
      note's own id and content, the defaulted title, the tags parsed back
      from the joined field, and, when the tags survive the reload, the
      note's own tags. */
  method ReopenAndSave(note: Note) returns (draft: Draft)
    ensures draft.id == Some(note.id) && draft.content == note.content
    ensures draft.title == SavedTitle(note.title)
    ensures draft.tags == ParseTags(Join(note.tags, TagSeparator))
    ensures SurvivesReload(note.tags) ==> draft.tags == note.tags
  {
    var form := new EditorForm();
    form.Sync(Edit, Some(note));
    draft := form.Save(Some(note));
    if SurvivesReload(note.tags) {
      TagsRoundTrip(note.tags);
    }
  }
}
