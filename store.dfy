/** The note store (`useNoteStore`): the note list, the active note id and
    the loading flag, the five actions that change them, and the storage
    write that follows every add, update and delete.

    `Step` says what each action does to the store's state as a value;
    `NoteStore` is the store itself, a class whose methods change its
    fields in place and are proved to agree with `Step`. */
module Store {
  import opened Wrappers
  import opened Notes

  /** The store's observable state. */
  datatype Snapshot = Snapshot(notes: seq<Note>, activeNoteId: Option<string>, isLoading: bool)

  /** How one `loadNotes` call ended. The host storage API or the browser's
      local storage is consulted, never both. */
  datatype LoadOutcome =
    | HostFetched(result: Option<seq<Note>>)  // getNotes resolved; None for null or undefined
    | HostFailed                              // getNotes rejected
    | LocalMissing                            // no saved blob, or an empty one
    | LocalParsed(saved: seq<Note>)           // the saved blob parsed to a note list
    | LocalFailed                             // reading or parsing the blob threw

  /** One call of a store action, with the values it gets from outside
      (the fresh id and the clock) passed in. */
  datatype Action =
    | Load(outcome: LoadOutcome)
    | Add(newId: string, now: string)
    | Update(id: string, updates: NoteUpdate, now: string)
    | Delete(id: string)
    | Select(id: string)

  /** `!activeNoteId`: JavaScript treats null and the empty string alike. */
  predicate IsFalsy(active: Option<string>) {
    active == None || active == Some("")
  }

  /** The id of the first note, or none for an empty list. */
  function FirstId(notes: seq<Note>): Option<string> {
    if |notes| > 0 then Some(notes[0].id) else None
  }

  /** The state a `loadNotes` call leaves behind. */
  function Loaded(s: Snapshot, outcome: LoadOutcome): (r: Snapshot)
    ensures !r.isLoading
    ensures !outcome.HostFetched? && !outcome.LocalParsed? ==> r.notes == s.notes
    ensures !outcome.HostFetched? ==> r.activeNoteId == s.activeNoteId
    ensures r.activeNoteId != s.activeNoteId ==> IsFalsy(s.activeNoteId) && r.activeNoteId == FirstId(r.notes)
  {
    match outcome
    case HostFetched(result) =>
      var fetched := result.GetOr([]);
      var active := if |fetched| > 0 && IsFalsy(s.activeNoteId) then Some(fetched[0].id) else s.activeNoteId;
      Snapshot(fetched, active, false)
    case LocalParsed(saved) => s.(notes := saved, isLoading := false)
    case _ => s.(isLoading := false)
  }

  /** The state an action leaves behind. */
  function Step(s: Snapshot, a: Action): (r: Snapshot)
    ensures !a.Load? ==> r.isLoading == s.isLoading
    ensures a.Update? ==> r.activeNoteId == s.activeNoteId && |r.notes| == |s.notes|
    ensures a.Select? ==> r.notes == s.notes
    ensures a.Add? ==> |r.notes| == |s.notes| + 1 && r.activeNoteId == FirstId(r.notes)
    ensures a.Delete? ==> |r.notes| <= |s.notes| && !HasId(r.notes, a.id)
  {
    match a
    case Load(outcome) => Loaded(s, outcome)
    case Add(newId, now) => s.(notes := [NewNote(newId, now)] + s.notes, activeNoteId := Some(newId))
    case Update(id, updates, now) => s.(notes := UpdateMatching(s.notes, id, updates, now))
    case Delete(id) =>
      var rest := RemoveId(s.notes, id);
      s.(notes := rest, activeNoteId := if s.activeNoteId == Some(id) then FirstId(rest) else s.activeNoteId)
    case Select(id) => s.(activeNoteId := Some(id))
  }

  /** The state after a whole sequence of actions. */
  function Run(s: Snapshot, trace: seq<Action>): (r: Snapshot)
    ensures r.isLoading ==> s.isLoading
    ensures (forall i :: 0 <= i < |trace| ==> !trace[i].Load?) ==> r.isLoading == s.isLoading
    decreases |trace|
  {
    if trace == [] then s else Run(Step(s, trace[0]), trace[1..])
  }

  /** What the environment is trusted to supply: a fresh id is not already
      in use, the editor never passes an id inside an update, and a loaded
      list has unique ids (it is a list the store itself wrote). */
  predicate Admissible(s: Snapshot, a: Action) {
    match a
    case Add(newId, _) => !HasId(s.notes, newId)
    case Update(_, updates, _) => updates.id.None?
    case Load(HostFetched(result)) => UniqueIds(result.GetOr([]))
    case Load(LocalParsed(saved)) => UniqueIds(saved)
    case _ => true
  }

  /** Every action of `trace` is admissible in the state it runs in. */
  predicate AdmissibleRun(s: Snapshot, trace: seq<Action>)
    decreases |trace|
  {
    trace == [] || (Admissible(s, trace[0]) && AdmissibleRun(Step(s, trace[0]), trace[1..]))
  }

  /** The active id, when there is one, names a note of the list. */
  predicate ActiveResolves(s: Snapshot) {
    s.activeNoteId.Some? ==> HasId(s.notes, s.activeNoteId.value)
  }

  /** The note the editor pane shows: `notes.find(n => n.id === activeNoteId)`. */
  function ActiveNote(s: Snapshot): (r: Option<Note>)
    ensures r.Some? <==> s.activeNoteId.Some? && ActiveResolves(s)
    ensures r.Some? ==> r.value in s.notes && r.value.id == s.activeNoteId.value
  {
    if s.activeNoteId.Some? then
      var r := FindById(s.notes, s.activeNoteId.value);
      assert r.Some? ==> r.value in s.notes by {
        if r.Some? {
          var k :| 0 <= k < |s.notes| && s.notes[k] == r.value && !HasId(s.notes[..k], s.activeNoteId.value);
        }
      }
      r
    else None
  }

  /** Every admissible action keeps the note ids unique. */
  lemma StepKeepsIdsUnique(s: Snapshot, a: Action)
    requires UniqueIds(s.notes) && Admissible(s, a)
    ensures UniqueIds(Step(s, a).notes)
  {
    match a
    case Add(newId, now) => UniqueIdsCons(NewNote(newId, now), s.notes);
    case Update(id, updates, now) => UpdateMatchingKeepsIds(s.notes, id, updates, now);
    case Delete(id) => RemoveIdKeepsIdsUnique(s.notes, id);
    case Load(outcome) =>
    case Select(id) =>
  }

  /** However the actions are interleaved, an admissible run never puts two
      notes with the same id in the list. */
  lemma {:induction false} RunKeepsIdsUnique(s: Snapshot, trace: seq<Action>)
    requires UniqueIds(s.notes) && AdmissibleRun(s, trace)
    ensures UniqueIds(Run(s, trace).notes)
    decreases |trace|
  {
    if trace != [] {
      StepKeepsIdsUnique(s, trace[0]);
      RunKeepsIdsUnique(Step(s, trace[0]), trace[1..]);
    }
  }

  /** After an add the editor shows the new note, at the head of the list. */
  lemma AddShowsNewNote(s: Snapshot, newId: string, now: string)
    ensures Step(s, Add(newId, now)).notes[0] == NewNote(newId, now)
    ensures ActiveNote(Step(s, Add(newId, now))) == Some(NewNote(newId, now))
  {
  }

  /** An update that keeps ids keeps the active id resolvable, and the
      editor then shows the merged note. */
  lemma UpdateKeepsActiveNote(s: Snapshot, id: string, u: NoteUpdate, now: string)
    requires u.id.None?
    ensures ActiveResolves(Step(s, Update(id, u, now))) <==> ActiveResolves(s)
    ensures ActiveResolves(s) && s.activeNoteId == Some(id) ==>
              ActiveNote(Step(s, Update(id, u, now))) == Some(Merge(ActiveNote(s).value, u, now))
  {
    UpdateMatchingKeepsIds(s.notes, id, u, now);
    if ActiveResolves(s) && s.activeNoteId == Some(id) {
      FindAfterUpdate(s.notes, id, u, now);
    }
  }

  /** A delete keeps the active id resolvable: either it was not the one
      removed, or it moves to the first note left, or it is cleared. And the
      removed id is no longer found. */
  lemma DeleteKeepsActiveResolved(s: Snapshot, id: string)
    ensures FindById(Step(s, Delete(id)).notes, id) == None
    ensures ActiveResolves(s) ==> ActiveResolves(Step(s, Delete(id)))
  {
    var t := Step(s, Delete(id));
    RemoveIdIdempotent(s.notes, id);
    if ActiveResolves(s) && s.activeNoteId.Some? && s.activeNoteId != Some(id) {
      var a := s.activeNoteId.value;
      var i :| 0 <= i < |s.notes| && s.notes[i].id == a;
      assert s.notes[i] in t.notes;
      MemberHasId(s.notes[i], t.notes);
    }
  }

  /** Selecting does not check the id: the active id is whatever was passed,
      and an id no note carries leaves the editor with no note. */
  lemma SelectUnchecked(s: Snapshot, id: string)
    ensures Step(s, Select(id)).activeNoteId == Some(id)
    ensures ActiveNote(Step(s, Select(id))) == FindById(s.notes, id)
    ensures !HasId(s.notes, id) ==> !ActiveResolves(Step(s, Select(id)))
  {
  }

  /** The store. `persisted` stands for the list last written to the
      storage backend (the host's saveNotes or local storage's 'notes'
      entry), which the model does not otherwise represent. */
  class NoteStore {
    var notes: seq<Note>
    var activeNoteId: Option<string>
    var isLoading: bool
    ghost var persisted: seq<Note>

    /** The store's fields as a value. */
    function State(): Snapshot
      reads this
    {
      Snapshot(notes, activeNoteId, isLoading)
    }

    /** The initial store: no notes, nothing active, not loading. The
        storage backend holds whatever it held before. */
    constructor (ghost stored: seq<Note>)
      ensures State() == Snapshot([], None, false)
      ensures persisted == stored
    {
      notes := [];
      activeNoteId := None;
      isLoading := false;
      persisted := stored;
    }

    /** `loadNotes`, with the storage's answer passed in. */
    method LoadNotes(outcome: LoadOutcome)
      modifies this
      ensures State() == Step(old(State()), Load(outcome))
      ensures !isLoading && persisted == old(persisted)
      ensures outcome.HostFetched? ==> notes == outcome.result.GetOr([])
      ensures outcome.LocalParsed? ==> notes == outcome.saved
      ensures !outcome.HostFetched? && !outcome.LocalParsed? ==> notes == old(notes)
      ensures !outcome.HostFetched? ==> activeNoteId == old(activeNoteId)
      ensures outcome.HostFetched? ==>
                activeNoteId == if |notes| > 0 && IsFalsy(old(activeNoteId)) then Some(notes[0].id) else old(activeNoteId)
    {
      isLoading := true;
      match outcome {
        case HostFetched(result) =>
          notes, isLoading := if result.Some? then result.value else [], false;
          if result.Some? && |result.value| > 0 && IsFalsy(activeNoteId) {
            activeNoteId := Some(result.value[0].id);
          }
        case HostFailed =>
          isLoading := false;
        case LocalMissing =>
          isLoading := false;
        case LocalParsed(saved) =>
          notes := saved;
          isLoading := false;
        case LocalFailed =>
          isLoading := false;
      }
    }

    /** `addNote`: prepend a fresh note, make it active, write the list. */
    method AddNote(newId: string, now: string)
      modifies this
      ensures State() == Step(old(State()), Add(newId, now))
      ensures notes == [Note(newId, "New Note", "", now)] + old(notes)
      ensures activeNoteId == Some(newId) && isLoading == old(isLoading)
      ensures persisted == notes
      ensures UniqueIds(old(notes)) && !HasId(old(notes), newId) ==> UniqueIds(notes)
    {
      var newNote := NewNote(newId, now);
      var updatedNotes := [newNote] + notes;
      notes, activeNoteId := updatedNotes, Some(newNote.id);
      persisted := updatedNotes;
      UniqueIdsCons(newNote, old(notes));
    }

    /** `updateNote`: merge `updates` into every note with `id`, stamping
        the time, and write the list. */
    method UpdateNote(id: string, updates: NoteUpdate, now: string)
      modifies this
      ensures State() == Step(old(State()), Update(id, updates, now))
      ensures |notes| == |old(notes)|
      ensures forall i :: 0 <= i < |notes| ==>
                notes[i] == if old(notes)[i].id == id then Merge(old(notes)[i], updates, now) else old(notes)[i]
      ensures !HasId(old(notes), id) ==> notes == old(notes)
      ensures activeNoteId == old(activeNoteId) && isLoading == old(isLoading)
      ensures persisted == notes
      ensures updates.id.None? && UniqueIds(old(notes)) ==> UniqueIds(notes)
    {
      var updatedNotes := UpdateMatching(notes, id, updates, now);
      if updates.id.None? {
        UpdateMatchingKeepsIds(notes, id, updates, now);
      }
      notes := updatedNotes;
      persisted := updatedNotes;
    }

    /** `deleteNote`: drop every note with `id`; if it was the active one,
        select the first note left, or nothing; write the list. */
    method DeleteNote(id: string)
      modifies this
      ensures State() == Step(old(State()), Delete(id))
      ensures notes == RemoveId(old(notes), id) && !HasId(notes, id)
      ensures forall n :: n in notes <==> n in old(notes) && n.id != id
      ensures !HasId(old(notes), id) ==> notes == old(notes)
      ensures old(activeNoteId) == Some(id) ==>
                activeNoteId == if |notes| > 0 then Some(notes[0].id) else None
      ensures old(activeNoteId) != Some(id) ==> activeNoteId == old(activeNoteId)
      ensures isLoading == old(isLoading)
      ensures persisted == notes
      ensures UniqueIds(old(notes)) ==> UniqueIds(notes)
    {
      var updatedNotes := RemoveId(notes, id);
      var newActiveId := activeNoteId;
      if activeNoteId == Some(id) {
        newActiveId := if |updatedNotes| > 0 then Some(updatedNotes[0].id) else None;
      }
      notes, activeNoteId := updatedNotes, newActiveId;
      persisted := updatedNotes;
      RemoveIdIdempotent(old(notes), id);
      if !HasId(old(notes), id) {
        RemoveIdAbsent(old(notes), id);
      }
      if UniqueIds(old(notes)) {
        RemoveIdKeepsIdsUnique(old(notes), id);
      }
    }

    /** `setActiveNote`: make `id` active, whether or not a note carries it. */
    method SetActiveNote(id: string)
      modifies this
      ensures State() == Step(old(State()), Select(id))
      ensures activeNoteId == Some(id)
      ensures notes == old(notes) && isLoading == old(isLoading) && persisted == old(persisted)
    {
      activeNoteId := Some(id);
    }
  }

  /** Two adds around a title edit, as the editor would issue them: the
      later note heads the list and is active, the earlier one keeps its
      new title. */
  method AddEditAdd(a: string, b: string, t1: string, t2: string, t3: string)
    requires a != b
  {
    var store := new NoteStore([]);
    store.AddNote(a, t1);
    store.UpdateNote(a, NoteUpdate(None, Some("Groceries"), None, None), t2);
    store.AddNote(b, t3);
    assert store.notes == [Note(b, "New Note", "", t3), Note(a, "Groceries", "", t2)];
    assert store.activeNoteId == Some(b);
    assert store.persisted == store.notes;
    assert UniqueIds(store.notes);
  }
}
