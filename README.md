# Notes service: the note-collection bookkeeping

The service keeps named text notes as a JSON array of `{name, text}` records
in one file, `notes.json`. Each HTTP handler first runs an ensure-exists guard
(a missing file is created holding `[]`). It then reads and parses the whole
file, searches the array with `find` / `findIndex` by strict equality of
names, and for a mutation (`push`, an assignment to the found record's `text`,
`splice`) writes the whole array back. This project models that bookkeeping
and proves what each handler answers and how it changes the file.

- `js_string.dfy`, module `JsString`: ECMAScript whitespace (`IsWhitespace`)
  and `String.prototype.trim`. The handlers' test `name.trim() === ''` is proved
  to hold exactly when every character is whitespace (`IsBlank`).
- `repository.dfy`, module `Repository`: the collection as `seq<Note>`.
  `FindIndex` is `findIndex`, `Lookup` is `find`, and `SetText` and `Remove`
  are the effects of update and delete. The lemmas cover lookups after each
  mutation, uniqueness of names, order, and create/delete being inverse.
- `note_store.dfy`, module `NoteService`: the file contents as
  `Storage = Absent | Stored(notes) | Unparseable`. Class `NoteStore` holds
  the file in a mutable field `file`, with one method per handler. Each method
  returns a `Response`: a status and a body (the handler's message text or
  the JSON list), or `Thrown` when an exception escapes the handler. Each
  method's postcondition gives the new `file` in terms of `old(file)` for
  every case. `FreshDeploymentSession` is a client of the class that runs the
  create / read / update / read / delete / read sequence on a fresh deployment.

Requests are modelled as running strictly one after another. The file's
text, JSON encoding and the file system are abstracted into the three
`Storage` cases.

Handler behaviour worth noting:
- PUT runs the ensure-exists guard before it checks the name for blankness. A
  blank name on PUT therefore still creates a missing file before the 400.
- Lookups compare the requested name exactly; it is not trimmed
  (`LookupIsExact`, `LookupDoesNotTrim`).
- GET of a single note with a blank name calls `alert`, which does not exist
  on the server, so the handler throws (`Thrown`).
- An unparseable file is never reset to `[]`. The guard only creates a missing
  file. Listing keeps answering 500 with `[]`, lookups and deletes keep
  answering 404, and creates keep answering 500.
- Names are unique only because create refuses duplicates. The file itself
  may hold duplicates, so uniqueness is proved to be preserved by every
  handler (`NamesUnique`), not assumed.

## Model

| member | source | states |
|---|---|---|
| JsString.WhitespaceTables | index.js:126 | `IsWhitespace`, the set of characters `trim` strips, is exactly the WhiteSpace table (TAB, VT, FF, ZWNBSP and the Zs space separators) together with the LineTerminator table (LF, CR, LINE SEPARATOR, PARAGRAPH SEPARATOR) of sections 12.2 and 12.3 of ECMA-262 |
| JsString.TrimStart | index.js:62 | the result is the suffix of the name that starts at its first non-whitespace character; everything dropped is whitespace |
| JsString.TrimEnd | index.js:126 | the result is the prefix that ends at the last non-whitespace character; everything dropped is whitespace |
| JsString.TrimEmptyIffBlank | index.js:126 | `name.trim() === ''` holds exactly when every character of the name is ECMAScript whitespace (the empty name included) |
| JsString.Trim | index.js:126 | `s.trim()`: the result is a slice of `s` with only `IsWhitespace` characters (the ECMAScript WhiteSpace and LineTerminator set) cut from either end, and if non-empty it starts and ends with a non-whitespace character; its empty test is `TrimEmptyIffBlank` |
| Repository.FindIndex | index.js:154 | `findIndex` by strict name equality: None exactly when no note has the name, otherwise the index of the first note with it |
| Repository.Lookup | index.js:70 | `find`: None exactly when the name is absent, otherwise the note at the first matching position |
| Repository.LookupIsExact | index.js:70 | a found note carries exactly the requested name (strict `===`, no trimming or case folding) |
| Repository.LookupDoesNotTrim | index.js:70 | names are compared exactly: a stored `todo` is not found under ` todo` or `Todo` |
| Repository.SetText | index.js:132-135 | same length; the first note with the name now has the new text, every other position is unchanged |
| Repository.Remove | index.js:154-157 | without a match the collection is unchanged; otherwise it is one shorter, entries before the first match stay put and later ones move down by one |
| Repository.LookupAfterAppend | index.js:105-106 | after pushing a fresh name, looking it up gives the new note, and every other name is found as before |
| Repository.AppendKeepsUnique | index.js:100-106 | pushing a name not yet present keeps names unique |
| Repository.SetTextKeepsNames | index.js:132-135 | an update leaves the sequence of names, and so their uniqueness, unchanged |
| Repository.LookupAfterSetText | index.js:132-135 | after an update the name finds the new text, and every other name finds what it did before |
| Repository.SetTextIdempotent | index.js:132-136 | writing the same text twice equals writing it once |
| Repository.RemoveKeepsUnique | index.js:154-157 | a delete keeps unique names unique |
| Repository.RemoveMultiset | index.js:154-157 | a delete takes away exactly one note, the first match, and keeps all others |
| Repository.RemovedNameIsGone | index.js:154-157 | with unique names, the deleted name is no longer found |
| Repository.LookupOtherAfterRemove | index.js:154-157 | a delete does not change the lookup of any other name, even with duplicates present |
| Repository.LookupAfterRemoveFindsNext | index.js:154-157 | when a name occurs more than once, after a delete the lookup finds the next note of that name |
| Repository.RemoveOnlyFirstOfDuplicates | index.js:154-157 | with two notes of one name, delete removes only the first, and the second is then found |
| Repository.RemoveUndoesAppend | index.js:105-157 | deleting a name just created restores the collection (create and delete are inverse) |
| NoteService.Initialized | index.js:43-45 | after the guard the file is never missing, and a file that existed (readable or not) is untouched |
| NoteService.InitializedIdempotent | index.js:85-95 | the guard, run twice as the create handler does, equals one run; a missing file becomes `[]` |
| NoteService.NoteStore.EnsureExists | index.js:43-45 | the file becomes `Initialized` of the old file |
| NoteService.NoteStore.ListNotes | index.js:40-53 | 200 with the stored list (`[]` for a missing file, which is created); 500 with `[]` on an unparseable file; nothing else is written |
| NoteService.NoteStore.ReadNote | index.js:56-80 | only the guard writes; a blank name throws; unparseable file gives 404 "cannot read"; otherwise 200 with the text of the first exact match, or 404 "not found" |
| NoteService.NoteStore.UploadNote | index.js:83-115 | unparseable file: 500, no write; existing name: 400, collection unchanged; fresh name: 201 and the file is the old collection with `{name, text}` appended; unique names stay unique |
| NoteService.NoteStore.UpdateNote | index.js:118-141 | blank name: 400 after the guard; unparseable file: throws, no write; known name: 200 and the file is `SetText` of the old collection; unknown name: 404, no write; unique names stay unique |
| NoteService.NoteStore.DeleteNote | index.js:144-166 | unparseable file: 404, no write; known name: 200 and the file is `Remove` of the old collection; unknown name: 404, no write; with unique names the name is gone afterwards |
| NoteService.FreshDeploymentSession | index.js:40-166 | on a fresh deployment, list, create, read, update, read, delete, read answer 200 `[]`, 201, 200 with the text, 200, 200 with the new text, 200, 404 |

## Left out

- Express setup, routing, body parsing, `app.listen` and the root route (index.js:1-19, 168-171): framework plumbing.
- The multer disk storage with its `Date.now()` file names and the static upload form (index.js:24-37): foreign libraries, clock and file I/O.
- File I/O and JSON: `existsSync`, `readFileSync`, `writeFileSync`, `JSON.parse` and `JSON.stringify` are abstracted into the `Storage` value. The differing indentation at the two write sites (index.js:107 vs 136) is therefore not visible.
- Write failures and read failures other than a parse error (permissions, a full disk): the model has no failing write. In particular, a failing guard outside a `try` is not modelled.
- A file holding valid JSON that is not an array of `{name, text}` records (for example `{}`) is not modelled. `Unparseable` stands only for text that `JSON.parse` rejects.
- Form fields or a PUT body that are missing or not text (`req.body.note_name` undefined, a JSON object as PUT body) are not modelled: names and texts are strings.
- `Thrown`: what the framework sends after a handler throws (its default error page) is not modelled.
- Concurrency: interleaved read-modify-write of concurrent requests (lost updates) is out of scope; requests run one at a time.
- Logging via `console.error`.
