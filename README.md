# Note store model

A Dafny model of the note store of a small notes manager
(`src/store/noteStore.ts`). The store holds:

- an ordered list of notes, newest first;
- the id of the active note, or none;
- a loading flag.

Five actions change this state: `loadNotes`, `addNote`, `updateNote`,
`deleteNote` and `setActiveNote`. After every add, update and delete the
store writes the whole list to a storage backend. That backend is the host
application's API when one exists, and the browser's local storage otherwise.

Files:

- `wrappers.dfy`, module `Wrappers`: `Option`, used for `null` and for fields
  a `Partial<Note>` may leave out.
- `notes.dfy`, module `Notes`: the `Note` record and the list computations
  the actions run. These are `Merge` (the object spread), `UpdateMatching`
  (`notes.map`), `RemoveId` (`notes.filter`) and `FindById` (`notes.find`),
  with lemmas about each.
- `store.dfy`, module `Store`: the state as a value (`Snapshot`) and each
  action's effect as a function (`Step`, `Run` over a sequence of actions).
  Then the class `NoteStore`: its fields are `notes`, `activeNoteId`,
  `isLoading`, plus a ghost `persisted` list standing for the storage
  backend. Its methods update those fields in place and are proved to agree
  with `Step`.

Values from outside the store are parameters: the fresh id (`uuidv4()`),
the current time (`new Date().toISOString()`) and the storage's answer to a
load (`LoadOutcome`).

In these details the model follows the code:

- A missing or empty local-storage blob leaves `notes` as it was. It does not
  set an empty list.
- A blob that fails to parse throws. The catch path leaves `notes` as it was
  and clears `isLoading`.
- `updateNote` lets a supplied `id` overwrite the note's id. Ids are not
  immutable in the code.
- `deleteNote` of an id that no note carries is not always a no-op. The
  list stays the same, but the list is still written. And when that id is
  also the (dangling) active id, the first note becomes active.
- `setActiveNote` and `loadNotes` can leave `activeNoteId` naming no note.
  So "the active id names a note or is cleared" is not an invariant of the
  store. It is proved to be kept by add, by delete, and by updates that do
  not supply an id.
- The first note is selected on load when `activeNoteId` is falsy. In
  JavaScript that means null or the empty string (`IsFalsy`).
- A new note is titled "New Note". No title is filled in later when a user
  empties it.

## Model

| member | source | states |
|---|---|---|
| `Notes.Merge` | src/store/noteStore.ts:73 | supplied fields replace the note's, absent fields keep their values, and `updatedAt` is always the current time, even when `updates` carries its own |
| `Notes.MergeTwice` | src/store/noteStore.ts:73 | repeating an identical update equals applying it once at the later time (only `updatedAt` moves) |
| `Notes.UpdateMatching` | src/store/noteStore.ts:72-74 | same length and order; notes with another id are unchanged; each note with the id becomes its merge with the update |
| `Notes.UpdateMatchingTwice` | src/store/noteStore.ts:72-74 | repeating an identical update that supplies no `id` gives the list of applying it once at the later time |
| `Notes.UpdateMatchingAbsent` | src/store/noteStore.ts:72-74 | updating an id no note carries returns the list unchanged |
| `Notes.UpdateMatchingKeepsIds` | src/store/noteStore.ts:72-74 | an update without `id` keeps every note's id at its position, the set of ids, and id uniqueness |
| `Notes.RemoveId` | src/store/noteStore.ts:87 | a note survives exactly when it was in the list and does not carry the id; the list never grows |
| `Notes.RemoveIdAppend` | src/store/noteStore.ts:87 | filtering a concatenation is the concatenation of the filtered parts, so survivors keep their relative order |
| `Notes.RemoveIdCounts` | src/store/noteStore.ts:87 | counted with multiplicity, the result is the old list minus every note carrying the id |
| `Notes.RemoveIdAbsent` | src/store/noteStore.ts:87 | deleting an absent id leaves the list unchanged |
| `Notes.RemoveIdIdempotent` | src/store/noteStore.ts:87 | no note with the id remains, and filtering again changes nothing |
| `Notes.RemoveIdKeepsIdsUnique` | src/store/noteStore.ts:87 | removal keeps ids unique |
| `Notes.FindById` | src/components/NotesView.tsx:16 | finds a note exactly when some note carries the id; the result carries the id and is the first such note |
| `Notes.FindUnique` | src/components/NotesView.tsx:16 | with unique ids the lookup returns the one note carrying the id |
| `Notes.FindAfterUpdate` | src/store/noteStore.ts:70-75 | when the update supplies no `id`, the lookup after it gives the merge of the note found before, duplicate ids included |
| `Store.ActiveNote` | src/components/NotesView.tsx:16 | the editor shows a note exactly when the active id is set and names a note of the list; that note is in the list and carries the id |
| `Store.Loaded` | src/store/noteStore.ts:29-47 | a load always ends with `isLoading` false; a failed or empty read keeps the notes; only the host path changes the active id, and only from a falsy one to the first loaded note's id |
| `Store.Step` | src/store/noteStore.ts:24-104 | only a load touches `isLoading`; an update keeps the active id and the length; a selection keeps the notes; an add grows the list by one and activates its head; a delete never grows the list and leaves no note with the id |
| `Store.Run` | src/store/noteStore.ts:24-104 | a sequence of actions never sets `isLoading`, and one without a load leaves it as it was |
| `Store.StepKeepsIdsUnique` | src/store/noteStore.ts:24-104 | each action keeps ids unique, given a fresh id for add, no `id` in an update and a loaded list with unique ids |
| `Store.RunKeepsIdsUnique` | src/store/noteStore.ts:24-104 | any sequence of such actions keeps ids unique |
| `Store.AddShowsNewNote` | src/store/noteStore.ts:50-60 | after an add, the new note heads the list and is the note the editor shows |
| `Store.UpdateKeepsActiveNote` | src/store/noteStore.ts:70-75 | an update without `id` keeps the active id resolving exactly when it did; when the active note is the one updated, the editor then shows its merge |
| `Store.DeleteKeepsActiveResolved` | src/store/noteStore.ts:85-94 | after a delete the id is not found, and an active id that named a note still does |
| `Store.SelectUnchecked` | src/store/noteStore.ts:103 | selection takes the id as given; the editor shows the lookup of that id; an id no note carries dangles |
| `Store.NoteStore.constructor` | src/store/noteStore.ts:24-27 | the store starts with no notes, nothing active and not loading |
| `Store.NoteStore.LoadNotes` | src/store/noteStore.ts:29-47 | host path: notes become the result, or empty when it is null, and the first note is selected only if the result is non-empty and nothing is active; local path: notes become the parsed list, or stay when the blob is missing, and the active id never changes; on failure notes stay; `isLoading` is false on every exit; nothing is written |
| `Store.NoteStore.AddNote` | src/store/noteStore.ts:50-67 | the new list is a "New Note" note with empty content, the given id and time, followed by the old list unchanged; it is active; the list is written; ids stay unique when the id is fresh |
| `Store.NoteStore.UpdateNote` | src/store/noteStore.ts:70-82 | same length; notes with the id are merged and the others are unchanged; an absent id leaves the list unchanged (it is still written); the active id and loading flag are untouched; the list is written; ids stay unique when `updates` has no id |
| `Store.NoteStore.DeleteNote` | src/store/noteStore.ts:85-100 | the list is the old one with every note of the id filtered out, and an absent id leaves the list unchanged (it is still written); when the id equals the active id, the active id moves to the first note left, or to none, even if no note carried it; any other active id stays; the list is written; ids stay unique |
| `Store.NoteStore.SetActiveNote` | src/store/noteStore.ts:103 | the active id becomes the argument without a membership check; notes, loading flag and storage are unchanged |

The round trip from persisting to loading follows from these contracts.
After an add, update or delete, `persisted == notes`. `LoadNotes` with that
list (`HostFetched(Some(persisted))` or `LocalParsed(persisted)`) sets
`notes` to exactly that list.

`Store.AddEditAdd` is a client of the class. Starting from an empty store,
it adds note A, retitles A to "Groceries" and adds note B. It proves that
the list is then `[B, A]`, that A's title is "Groceries" and that B is
active.

## Left out

- Host storage and local storage (`getNotes`, `saveNotes`, `localStorage`): not called. A write is the ghost field `persisted`. A read is the `LoadOutcome` parameter.
- Which backend a write goes to: not distinguished, because both receive the same list.
- `JSON.stringify` and `JSON.parse`: not modelled. A parse is either a note list (`LocalParsed`) or a throw (`LocalFailed`).
- Blobs that parse to something other than a note list (for example `"null"`): not modelled.
- `uuidv4()` and the clock: replaced by parameters, because they are nondeterministic.
- Notes.UpdateMatching: takes one reading of the clock for every matching note. The code reads the clock once per matching note, so notes sharing an id could get different stamps. With unique ids at most one note matches, and the two agree.
- Store.NoteStore.UpdateNote: same single clock reading as `Notes.UpdateMatching`, for the same reason.
- Fresh ids: `AddNote` does not require its id to be fresh, since the code does not check it. Freshness is only a hypothesis of the uniqueness guarantees.
- The `await` inside `loadNotes`: `LoadNotes` runs as one atomic step. With this model, an add made while a load is in flight is not shown being overwritten when the fetched list arrives.
- `isLoading` being true while a load is pending: not observable, for the same reason.
- Failed storage writes: not modelled. The code neither awaits nor checks them.
- `console.error` on a failed load: not modelled.
- A `Partial<Note>` field present with the value `undefined`: not modelled. JavaScript would copy the `undefined` into the note; here a field is either supplied with a string or absent.
- zustand's `create`, `set`, `get` and subscriptions: a plain class with fields takes their place.
- `src/components/NotesView.tsx` (rendering, the rich-text editor, animation, the delete confirmation dialog): not modelled. Only its lookup of the active note (line 16) appears, as `ActiveNote`.
