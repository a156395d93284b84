# notes-pwa note list, modelled in Dafny

This project models the note-list state machine of the notes-pwa browser app
(`app.js`). The state is the array of note records kept under the `notes` key
of the browser's key-value store, plus the id of the note being edited
(`currentEditingId`). Five operations act on it: save (add or replace), delete
after confirmation, start edit, cancel edit with Escape, and load (list newest
first). Only the key-value-store branch of each operation is modelled. In that
branch the whole array is read. Save and delete change it with `push`, `map`
or `filter` and write it back. Start edit only searches it with `find`. Load
reverses a fresh copy for display.

- `text.dfy`, module `Text`: the blank-submission test `!noteText.trim()`, with
  JavaScript's whitespace and line-terminator characters.
- `notes.dfy`, module `Notes`: the `Note` record and the list transforms as
  functions. `ReplaceById` is the `map` of a save, `RemoveById` the `filter`
  of a delete, `FindById` the `find` of an edit and `Reversed` the `reverse`
  of a load. Lemmas state what each one does.
- `app.dfy`, module `App`: class `NoteApp` with fields `notes: seq<Note>` and
  `editingId: Option<int>`. Its methods change these fields the way the
  source's handlers do. Three client methods show what a caller can prove
  from the method contracts alone.

Parameters stand in for the outside world. The three clock readings of a save
are `dateNow` and `updatedNow` (the two `new Date().toISOString()` calls) and
`idNow` (`Date.now()`). No order between them is assumed. The answer to the
`confirm()` dialog is `confirmed`, and the key of a keydown event is `key`.
`null` is `None`.

Four behaviours of the code are easy to misread; the model follows the code:

- An edit writes a freshly built record, so a note's `date` (creation time) is
  reset to the time of the edit; a reader might expect it to stay fixed.
  `NoteApp.Save` and `AddEditDeleteScenario` show the reset.
- Ids are not unique: a new id is `Date.now()`. The model never assumes
  uniqueness, so `map` replaces every record with the edited id, and `filter`
  removes every record with the deleted id.
- A save while editing an id that is no longer stored changes no record
  (`ReplaceByIdAbsent`), but it still leaves edit mode.
- Edit mode is tested for truthiness, so an editing id of 0 counts as "not
  editing". Such a save appends a new note and keeps the editing id, and
  Escape does not clear it either (`ZeroIdScenario`). Only a delete of id 0
  (a strict `===` comparison) or starting an edit on another stored id changes
  it.

## Model

| member | source | states |
|---|---|---|
| `Text.IsWhitespace` | app.js:59 | the characters `trim` removes (ECMAScript WhiteSpace and LineTerminator); defined by its body, used by `BlankIffAllWhitespace` |
| `Text.Trim` | app.js:59 | `trim`, defined by its body as `TrimEnd` after `TrimStart`; the contracts of those two describe it |
| `Text.IsBlank` | app.js:59 | the test `!noteText.trim()`, defined by its body; `BlankIffAllWhitespace` describes it |
| `Text.TrimStart` | app.js:59 | the result is a suffix of the input; the prefix cut off is all whitespace, and the result is empty or starts with a character that is not whitespace |
| `Text.TrimEnd` | app.js:59 | the result is a prefix of the input; the suffix cut off is all whitespace, and the result is empty or ends with a character that is not whitespace |
| `Text.BlankIffAllWhitespace` | app.js:59 | a submission is ignored exactly when every character of it is JavaScript whitespace or a line terminator |
| `Notes.ReplaceById` | app.js:76 | the `map` of an edit keeps the length; position k holds the new record if the note there had the edited id, and otherwise the old note |
| `Notes.ReplaceByIdAbsent` | app.js:76 | when no note has the edited id, the `map` returns the list unchanged |
| `Notes.RemoveById` | app.js:131 | the `filter` of a delete, defined by its body; `RemoveByIdCounts`, `RemoveByIdMembers`, `RemoveByIdAppend`, `RemoveByIdAbsent` and `RemoveByIdIdempotent` describe it |
| `Notes.RemoveByIdCounts` | app.js:131 | after the `filter`, every note with the id occurs 0 times, and every other note occurs as often as before |
| `Notes.RemoveByIdMembers` | app.js:131 | no note with the id remains, and a note remains exactly when it was stored and has another id |
| `Notes.RemoveByIdAppend` | app.js:131 | filtering a concatenation gives the concatenation of the filtered parts, so the kept notes stay in their relative order |
| `Notes.RemoveByIdAbsent` | app.js:131 | filtering a list that has no note with the id leaves it unchanged |
| `Notes.RemoveByIdIdempotent` | app.js:130-132 | deleting the same id a second time changes nothing |
| `Notes.FindById` | app.js:163 | `find` returns a note exactly when some note has the id, and then it is the first note with that id |
| `Notes.Reversed` | app.js:119 | the array after `reverse`, defined by its body; `ReversedAt`, `ReversedFromIndices` and `ReversedAppend` describe it |
| `Notes.ReversedAt` | app.js:119 | position k of the reversed list holds the stored note at position length-1-k |
| `Notes.ReversedFromIndices` | app.js:119 | any list holding the stored notes back to front is the reversal |
| `Notes.ReversedAppend` | app.js:116-119 | the note added last is listed first, followed by the earlier notes newest first (adds A, B, C list as C, B, A) |
| `App.IsEditing` | app.js:67 | the truthiness test of `currentEditingId` (also at app.js:241): null and 0 mean "not editing"; defined by its body, and `ZeroIdScenario` shows its effect |
| `App.NoteApp.constructor` | app.js:8 | a session starts with the stored array and no editing id |
| `App.NoteApp.Save` | app.js:58-94 | a blank save changes nothing. An edit replaces every record with the editing id by a new record whose date and updatedAt are both now, keeps the length and the other records, and clears the editing id. An add appends one note with id = `Date.now()` and keeps the earlier notes. After any non-blank save the app is not in edit mode, and saves never store blank text |
| `App.NoteApp.Delete` | app.js:123-143 | an unconfirmed delete changes nothing. A confirmed delete is the `filter` by id, leaves no note with that id and keeps every other note. It clears the editing id exactly when that id is the deleted one |
| `App.NoteApp.StartEdit` | app.js:161-170 | the list is unchanged; the editing id becomes the id when a note with it is stored, and otherwise stays as it was |
| `App.NoteApp.KeyDown` | app.js:240-246 | the list is unchanged; Escape clears a truthy editing id, and every other key or a falsy id leaves it as it was |
| `App.NoteApp.Load` | app.js:102-120 | the listed notes are exactly the stored notes in reverse storage order, with no sorting by timestamp |
| `App.Reverse` | app.js:119 | reversing an array in place puts at position k the element that was at position length-1-k |
| `App.AddEditDeleteScenario` | app.js:58-143 | add a note (say "Buy milk"), edit it (to "Buy oat milk"), then delete it. The list is first the one note, then the edited note with its creation date reset to the edit time, then empty |
| `App.DeleteTwiceScenario` | app.js:123-143 | after a confirmed delete the id is gone and the editing id is not that id; a second delete of it changes neither the list nor the editing id |
| `App.ZeroIdScenario` | app.js:67 | with a stored note of id 0, starting its edit and saving appends a new note instead of replacing it, and the editing id stays 0 after the save and after Escape |
| `Notes.ReplaceByIdNoBlank` | app.js:59-77 | an edit whose text is not blank keeps the list free of blank text when none was stored |
| `Notes.AppendNoBlank` | app.js:59-92 | an add whose text is not blank keeps the list free of blank text when none was stored |
| `Notes.RemoveByIdNoBlank` | app.js:130-132 | a delete stores no blank text when none was stored |

## Left out

- The IndexedDB branch of every operation (`initDB` and the `db` paths of app.js:28-55, 70-73, 82-85, 105-114, 125-128, 147-160). Its `add`, `put`, `delete` and `getAll` semantics and its auto-increment keys belong to a foreign asynchronous API.
- JSON serialisation through `localStorage.getItem`/`setItem`. The stored array is a sequence of records. A missing key reads as the empty array, which is the constructor's `stored` argument.
- `renderNotes`, the input value, the button label and focus, i.e. all DOM work. The `loadNotes()` call at the end of a save or delete only re-renders, so it is left out too.
- Event wiring (the click and Enter handlers that call save, the edit and delete buttons), the online/offline banner and service-worker registration.
- `Date`, `toISOString` and `Date.now()`. Time is an integer parameter, and the three readings of a save are independent. So `updatedAt >= date` is not an invariant of the model, and an update's `updatedAt` is not claimed to grow.
- The `confirm()` dialog, which is a boolean parameter.
- Reads and writes of the store always succeed. A `localStorage.setItem` that throws (quota exceeded, app.js:77, 92, 132) or a `JSON.parse` that throws on a corrupt value (app.js:75, 87, 116, 130, 162) is not modelled. In the source such a throw leaves the stored array as it was. On the save edit path it also leaves the editing id set, because app.js:79 is skipped. On a confirmed delete a throw at app.js:130 or 132 skips app.js:135-139, so deleting the note being edited keeps the editing id set. A throw at app.js:116 lists nothing.
- The interleaving of asynchronous handlers (`loadNotes()` is not awaited). Each operation is modelled as one atomic step.
- Ids are integers. The `NaN` that `Number()` of a malformed `data-id` attribute could give is not modelled.
