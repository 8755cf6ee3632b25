/** The notes file and the five handlers that read and rewrite it.
    Each request reads the whole collection, may change it and writes it
    back; requests are taken to run one after another. */
module NoteService {
  import opened JsString
  import opened Repository

  /** What the notes file holds when a request reads it: nothing yet, a JSON
      array of notes, or text that `JSON.parse` rejects. */
  datatype Storage = Absent | Stored(notes: seq<Note>) | Unparseable

  datatype Body = Text(text: string) | Json(notes: seq<Note>)

  /** What a handler answers. `Thrown` is an exception that escapes the
      handler; the framework, not the handler, then writes the response. */
  datatype Response = Reply(status: nat, body: Body) | Thrown

  const OK: nat := 200
  const CREATED: nat := 201
  const BAD_REQUEST: nat := 400
  const NOT_FOUND: nat := 404
  const SERVER_ERROR: nat := 500

  const NOTE_NOT_FOUND := "Нотатку не знайдено."
  const GET_UNREADABLE := "Не можливо прочитати файл."
  const DUPLICATE_NAME := "Нотатка з тим самим ім'ям вже існує."
  const NOTE_CREATED := "Нотатку створено"
  const INTERNAL_ERROR := "Internal Server Error"
  const ENTER_NAME := "Введіть назву нотатки."
  const TEXT_UPDATED := "Текст вказаної нотатки успішно оновлено"
  const UPDATE_NOT_FOUND := "Не знайдено нотатку"
  const NOTE_DELETED := "Нотатку успішно видалено."
  const DELETE_UNREADABLE := "Не вдалося прочитати файл."

  /** The file after the ensure-exists guard: a missing file now holds an
      empty array, and anything already there, readable or not, is kept. */
  function Initialized(s: Storage): (r: Storage)
    ensures !r.Absent?
    ensures s.Absent? || r == s
  {
    if s.Absent? then Stored([]) else s
  }

  /** The guard can be run any number of times. */
  lemma InitializedIdempotent(s: Storage)
    ensures Initialized(Initialized(s)) == Initialized(s)
    ensures s.Absent? ==> Initialized(s) == Stored([])
  {
  }

  class NoteStore {
    /** The contents of the notes file. */
    var file: Storage

    constructor (initial: Storage)
      ensures file == initial
    {
      file := initial;
    }

    /** The file, if it is readable, has at most one note per name. */
    ghost predicate NamesUnique()
      reads this
    {
      file.Stored? ==> UniqueNames(file.notes)
    }

    /** Creates a missing file holding an empty array; leaves an existing
        file, readable or not, untouched. */
    method EnsureExists()
      modifies this
      ensures file == Initialized(old(file))
    {
      if file.Absent? {
        file := Stored([]);
      }
    }

    /** GET /notes */
    method ListNotes() returns (r: Response)
      modifies this
      ensures file == Initialized(old(file))
      ensures file.Stored? ==> r == Reply(OK, Json(file.notes))
      ensures file.Unparseable? ==> r == Reply(SERVER_ERROR, Json([]))
      ensures old(NamesUnique()) ==> NamesUnique()
    {
      EnsureExists();
      if file.Unparseable? {
        r := Reply(SERVER_ERROR, Json([]));
      } else {
        r := Reply(OK, Json(file.notes));
      }
    }

    /** GET /notes/:note_name. The blank-name branch calls `alert`, which is
        not defined on a server, so it throws before the file is read. */
    method ReadNote(name: string) returns (r: Response)
      modifies this
      ensures file == Initialized(old(file))
      ensures IsBlank(name) ==> r == Thrown
      ensures !IsBlank(name) && file.Unparseable? ==> r == Reply(NOT_FOUND, Text(GET_UNREADABLE))
      ensures !IsBlank(name) && file.Stored? && name in Names(file.notes) ==>
        exists i :: IsFirstMatch(file.notes, name, i) && r == Reply(OK, Text(file.notes[i].text))
      ensures !IsBlank(name) && file.Stored? && name !in Names(file.notes) ==>
        r == Reply(NOT_FOUND, Text(NOTE_NOT_FOUND))
      ensures old(NamesUnique()) ==> NamesUnique()
    {
      EnsureExists();
      TrimEmptyIffBlank(name);
      if Trim(name) == "" {
        r := Thrown;
        return;
      }
      if file.Unparseable? {
        r := Reply(NOT_FOUND, Text(GET_UNREADABLE));
      } else {
        var note := Lookup(file.notes, name);
        if note.Some? {
          r := Reply(OK, Text(note.value.text));
        } else {
          r := Reply(NOT_FOUND, Text(NOTE_NOT_FOUND));
        }
      }
    }

    /** POST /upload with form fields note_name and note. */
    method UploadNote(name: string, text: string) returns (r: Response)
      modifies this
      ensures old(file).Unparseable? ==> file == old(file) && r == Reply(SERVER_ERROR, Text(INTERNAL_ERROR))
      ensures var before := Initialized(old(file));
        before.Stored? && name in Names(before.notes) ==>
          file == before && r == Reply(BAD_REQUEST, Text(DUPLICATE_NAME))
      ensures var before := Initialized(old(file));
        before.Stored? && name !in Names(before.notes) ==>
          file == Stored(before.notes + [Note(name, text)]) && r == Reply(CREATED, Text(NOTE_CREATED))
      ensures old(NamesUnique()) ==> NamesUnique()
    {
      EnsureExists();
      // the handler repeats the guard inside its try block
      EnsureExists();
      if file.Unparseable? {
        r := Reply(SERVER_ERROR, Text(INTERNAL_ERROR));
        return;
      }
      var notes := file.notes;
      var existing := Lookup(notes, name);
      if existing.Some? {
        r := Reply(BAD_REQUEST, Text(DUPLICATE_NAME));
      } else {
        if UniqueNames(notes) {
          AppendKeepsUnique(notes, name, text);
        }
        notes := notes + [Note(name, text)];
        file := Stored(notes);
        r := Reply(CREATED, Text(NOTE_CREATED));
      }
    }

    /** PUT /notes/:note_name with the new text as the body. Nothing catches
        a parse failure here, so unreadable storage makes the handler throw. */
    method UpdateNote(name: string, text: string) returns (r: Response)
      modifies this
      ensures IsBlank(name) ==>
        file == Initialized(old(file)) && r == Reply(BAD_REQUEST, Text(ENTER_NAME))
      ensures !IsBlank(name) && old(file).Unparseable? ==> file == old(file) && r == Thrown
      ensures var before := Initialized(old(file));
        !IsBlank(name) && before.Stored? && name in Names(before.notes) ==>
          file == Stored(SetText(before.notes, name, text)) && r == Reply(OK, Text(TEXT_UPDATED))
      ensures var before := Initialized(old(file));
        !IsBlank(name) && before.Stored? && name !in Names(before.notes) ==>
          file == before && r == Reply(NOT_FOUND, Text(UPDATE_NOT_FOUND))
      ensures old(NamesUnique()) ==> NamesUnique()
    {
      EnsureExists();
      TrimEmptyIffBlank(name);
      if Trim(name) == "" {
        r := Reply(BAD_REQUEST, Text(ENTER_NAME));
        return;
      }
      if file.Unparseable? {
        r := Thrown;
        return;
      }
      var notes := file.notes;
      // `find` hands back the stored record itself; its index stands for that reference
      var found := FindIndex(notes, name);
      if found.Some? {
        SetTextKeepsNames(notes, name, text);
        notes := notes[found.value := notes[found.value].(text := text)];
        file := Stored(notes);
        r := Reply(OK, Text(TEXT_UPDATED));
      } else {
        r := Reply(NOT_FOUND, Text(UPDATE_NOT_FOUND));
      }
    }

    /** DELETE /notes/:note_name */
    method DeleteNote(name: string) returns (r: Response)
      modifies this
      ensures old(file).Unparseable? ==> file == old(file) && r == Reply(NOT_FOUND, Text(DELETE_UNREADABLE))
      ensures var before := Initialized(old(file));
        before.Stored? && name in Names(before.notes) ==>
          file == Stored(Remove(before.notes, name)) && r == Reply(OK, Text(NOTE_DELETED))
      ensures var before := Initialized(old(file));
        before.Stored? && name !in Names(before.notes) ==>
          file == before && r == Reply(NOT_FOUND, Text(NOTE_NOT_FOUND))
      ensures old(NamesUnique()) ==> NamesUnique()
      ensures old(NamesUnique()) && file.Stored? ==> name !in Names(file.notes)
    {
      EnsureExists();
      if file.Unparseable? {
        r := Reply(NOT_FOUND, Text(DELETE_UNREADABLE));
        return;
      }
      var notes := file.notes;
      var index := FindIndex(notes, name);
      if index.Some? {
        if UniqueNames(notes) {
          RemoveKeepsUnique(notes, name);
          RemovedNameIsGone(notes, name);
        }
        notes := notes[..index.value] + notes[index.value + 1..];
        file := Stored(notes);
        r := Reply(OK, Text(NOTE_DELETED));
      } else {
        r := Reply(NOT_FOUND, Text(NOTE_NOT_FOUND));
      }
    }
  }

  /** The collection facts the session below goes through: one note called
      `name` is found, gets its new text, and is removed again. */
  lemma SingleNoteFacts(name: string, text: string, newText: string)
    ensures name in Names([Note(name, text)]) && IsFirstMatch([Note(name, text)], name, 0)
    ensures SetText([Note(name, text)], name, newText) == [Note(name, newText)]
    ensures name in Names([Note(name, newText)]) && IsFirstMatch([Note(name, newText)], name, 0)
    ensures Remove([Note(name, newText)], name) == []
  {
    assert Names([Note(name, text)])[0] == name;
    assert Names([Note(name, newText)])[0] == name;
  }

  /** A first run against a fresh deployment: list, create a note, read it,
      replace its text, read it again, delete it, read it once more. */
  method FreshDeploymentSession(name: string, text: string, newText: string) returns (rs: seq<Response>)
    requires !IsBlank(name)
    ensures rs == [
      Reply(OK, Json([])),
      Reply(CREATED, Text(NOTE_CREATED)),
      Reply(OK, Text(text)),
      Reply(OK, Text(TEXT_UPDATED)),
      Reply(OK, Text(newText)),
      Reply(OK, Text(NOTE_DELETED)),
      Reply(NOT_FOUND, Text(NOTE_NOT_FOUND))
    ]
  {
    SingleNoteFacts(name, text, newText);
    var store := new NoteStore(Absent);
    var list := store.ListNotes();
    assert store.file == Stored([]) && name !in Names([]);
    var created := store.UploadNote(name, text);
    assert store.file == Stored([Note(name, text)]);
    var read1 := store.ReadNote(name);
    var updated := store.UpdateNote(name, newText);
    assert store.file == Stored([Note(name, newText)]);
    var read2 := store.ReadNote(name);
    var deleted := store.DeleteNote(name);
    assert store.file == Stored([]);
    var read3 := store.ReadNote(name);
    rs := [list, created, read1, updated, read2, deleted, read3];
  }
}
