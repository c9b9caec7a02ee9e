# Notes web app: the note store and the client note list

A Dafny model of the two pieces of state in a minimal notes application:

- **The backend note store** (`backend/server.js`). A process-wide array of
  notes that four REST handlers use: list (GET `/api/notes`), create (POST),
  delete (DELETE `/api/notes/:id`) and update (PUT `/api/notes/:id`). Module
  `NoteStore` models it as the class `Store`. Its field `notes: seq<Note>` is
  reassigned by the handler methods. The array's `filter` and `findIndex`
  become the functions `Without` and `FirstMatch`.
- **The client note list** (`frontend/src/App.jsx`). This is the component
  state `notes` / `currentNote` changed by `addNote` and `deleteNote`.
  Module `NotesApp` models it as the class `App`. JavaScript's `trim` becomes
  `Trim`, and the `filter` in `deleteNote` becomes `Remove`.

Modelling choices:

- Clock readings are inputs. `Date.now()` is an `int` parameter. The ISO
  timestamp (`toISOString`) and the locale string (`toLocaleString`) are
  opaque `string` parameters.
- The request path id is an `Option<int>`, the result of `parseInt`. `None`
  stands for `NaN`, which equals no number, so it matches no note.
- A backend note's `content` is an `Option<Json>`. `Json` covers every
  value the body parser can produce: `null`, booleans, numbers, strings,
  arrays and objects. `None` is the `undefined` stored when the request body
  has no `content` field, which serialisation leaves out. `Some(Null)` is an
  explicit `null`, which is kept. The handlers store and return whatever
  arrives without checking it. `updatedAt` is `None` until the first update.
- PUT answers with an `UpdateBody`. That is either the updated note or the
  error payload `{ error: 'Note not found' }`, written `ErrorBody("Note not found")`.
- Status codes are the datatype `Status` (`Ok`, `Created`, `NoContent`,
  `NotFound`). `Code` maps them to 200, 201, 204 and 404.
- Ids are NOT assumed unique. They are clock readings
  (backend/server.js:23, frontend/src/App.jsx:12), so two notes created in
  the same millisecond share one. The model follows the code:
  - delete drops every note with the id;
  - update changes only the first one, as `findIndex` does.

  Uniqueness is proved to hold when the clock has moved past every stored
  id (`AppendLaterKeepsUnique`), and delete keeps it (`WithoutKeepsUnique`).
  The `Create`, `Delete` and `Update` contracts state both facts about the
  store, and `Update` keeps uniqueness too.
  With unique ids, a delete removes exactly one note (`SoleMatchWithoutRemovesOne`).
- `Trim` strips the code points ECMAScript's `String.prototype.trim` strips.
  These are the WhiteSpace set (tab, vertical tab, form feed, U+FEFF and the
  space separators U+0020, U+00A0, U+1680, U+2000 to U+200A, U+202F, U+205F,
  U+3000) and the LineTerminator set (LF, CR, U+2028, U+2029).

## Model

| member | source | states |
|---|---|---|
| `NoteStore.Store.constructor` | backend/server.js:11 | The store starts with no notes. |
| `NoteStore.Store.List` | backend/server.js:15-17 | Answers 200 with exactly the stored sequence, in insertion order, and changes nothing. |
| `NoteStore.Store.Create` | backend/server.js:20-29 | Always answers 201, for any JSON content, including `null` or a missing field. The collection grows by one and earlier notes are unchanged. The new note is last, with id `now`, the given content, `createdAt` `nowIso` and no `updatedAt`, and it is the note returned. If ids were unique and the clock is past every stored id, ids stay unique. |
| `NoteStore.Store.Delete` | backend/server.js:32-36 | Always answers 204. The new collection is `Without(old, id)`: a note remains iff it was stored and its id differs. An id matching nothing (absent, or `NaN`) leaves the collection unchanged. Unique ids stay unique. |
| `NoteStore.Store.Update` | backend/server.js:38-55 | Answers 404 iff no stored note has the id (always so for `NaN`), and then returns the error payload "Note not found" and changes nothing. Otherwise answers 200 and changes only the first matching index: same id and `createdAt`, new content, `updatedAt` set to `nowIso`. It returns that note; the length and every other index are unchanged. Unique ids stay unique. |
| `NoteStore.FirstMatch` | backend/server.js:42-44 | `findIndex`: None iff no note matches. Otherwise an in-range index whose note matches, with no match before it. |
| `NoteStore.WithoutMembers` | backend/server.js:34 | A note is in the filtered collection iff it was stored and does not match the id. So every note with the id is removed and every other note is kept. |
| `NoteStore.WithoutConcat` | backend/server.js:34 | The filter distributes over concatenation, so the kept notes stay in their original relative order. |
| `NoteStore.WithoutNoMatch` | backend/server.js:34-35 | Deleting an id that no stored note has leaves the collection unchanged. |
| `NoteStore.WithoutUnparsed` | backend/server.js:33-34 | A non-numeric path id (`NaN`) deletes nothing. |
| `NoteStore.WithoutRemovesAll` | backend/server.js:34 | After a delete, no remaining note has the id. All duplicates are removed, not just one. |
| `NoteStore.WithoutIdempotent` | backend/server.js:34-35 | Deleting the same id twice equals deleting it once. |
| `NoteStore.WithoutSoleMatch` | backend/server.js:34 | Deleting the id of a note that no note before or after it shares leaves exactly the notes around it, in order. |
| `NoteStore.SoleMatchWithoutRemovesOne` | backend/server.js:34 | If no other note shares the id of the note at index i, deleting that id yields `s[..i] + s[i+1..]`. |
| `NoteStore.CreateThenDeleteRestores` | backend/server.js:22-34 | Appending a note with an id no stored note has, then deleting that id, gives back the original collection. |
| `NoteStore.AppendLaterKeepsUnique` | backend/server.js:23-27 | If every stored id is below the clock reading, a create keeps ids unique. |
| `NoteStore.WithoutKeepsUnique` | backend/server.js:34 | A delete keeps ids unique. |
| `NoteStore.Scenario` | backend/server.js:15-36 | Start empty and create "buy milk": the list is that one note. Create "call mom": the list is both notes, in creation order. Delete the first by id. If the two creates read different clock values, the list holds only the "call mom" note. If they read the same value, both notes share the id and the list is empty. |
| `NotesApp.SkipSpace` | frontend/src/App.jsx:10 | The first index at or after i that is not JavaScript white space. Everything skipped over is white space. |
| `NotesApp.SkipSpaceBack` | frontend/src/App.jsx:10 | The end of a range once trailing white space is dropped. Everything dropped is white space, and the last kept character is not. |
| `NotesApp.Trim` | frontend/src/App.jsx:10 | `trim()` yields the empty string iff the draft is blank (all white space or empty). A non-empty result neither starts nor ends with white space. |
| `NotesApp.TrimSlice` | frontend/src/App.jsx:10 | `trim()` is the contiguous slice of the draft that starts at its first non-space character. Only white space lies outside it. |
| `NotesApp.RemoveMembers` | frontend/src/App.jsx:21 | A note survives `deleteNote(id)` iff it was in the list and has a different id. So every note with the id is removed. |
| `NotesApp.RemoveConcat` | frontend/src/App.jsx:21 | The filter distributes over concatenation, so the kept notes stay in their original order. |
| `NotesApp.RemoveAbsent` | frontend/src/App.jsx:21 | Deleting an id no note has leaves the list unchanged. |
| `NotesApp.RemoveIdempotent` | frontend/src/App.jsx:21 | Deleting the same id twice equals deleting it once. |
| `NotesApp.AddThenDeleteRestores` | frontend/src/App.jsx:9-22 | Adding a note whose id no listed note has, then deleting that id, gives back the original list. |
| `NotesApp.App.constructor` | frontend/src/App.jsx:6-7 | The list starts empty and the draft starts as the empty string. |
| `NotesApp.App.AddNote` | frontend/src/App.jsx:9-18 | A blank draft changes neither the list nor the draft. Otherwise exactly one note is appended after the unchanged earlier notes and the draft is reset to "". The new note has id `now`, the UNtrimmed draft as content and `createdAt` `nowLocale`. |
| `NotesApp.App.DeleteNote` | frontend/src/App.jsx:20-22 | The list becomes `Remove(old, id)`: exactly the notes with another id are kept. An absent id leaves the list unchanged, and the draft is untouched. |

## Left out

- The Express set-up (CORS, JSON body parsing, `app.listen`), at
  backend/server.js:1-8 and 57-59. This is HTTP plumbing. Each handler
  answers with a status and a Dafny value for its body. The value is the
  note list, the note, or the 404 error payload; DELETE has no body.
  Serialisation to JSON text is not modelled.
- JSON numbers in `content` are `real`s. The precision of JavaScript's
  64-bit floating-point numbers is not modelled. Nothing in the model
  computes with them.
- `parseInt` itself. The path id arrives already parsed, as `Option<int>`.
  Prefix parsing (`"12abc"` gives 12), hexadecimal prefixes and the
  precision of JavaScript numbers are not modelled.
- Clock and time formatting (`Date.now()`, `toISOString`, `toLocaleString`).
  They are inputs. Whether they advance is a hypothesis of the lemmas that
  need it, never a property of the model.
- Concurrent requests on the shared array. The model is sequential.
- React's scheduling of state updates. The two setters in `addNote` are
  modelled as taking effect together, in sequence.
- The draft's `onChange` setter and the rest of the JSX rendering
  (frontend/src/App.jsx:24-53). This is UI wiring with no logic.
- frontend/src/services/api.js, frontend/src/components/Navbar.jsx and the
  root server.js. These are a thin `fetch` client, static markup, and two
  routes that return constant strings. None of them is part of this model.
