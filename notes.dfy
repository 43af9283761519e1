/** The note record and the pure list computations the note store runs
    inside its actions: building a fresh note, overlaying a partial update
    (`notes.map`), removing by id (`notes.filter`) and looking a note up by
    id (`notes.find`). */
module Notes {
  import opened Wrappers

  /** One note. `content` is the editor's HTML markup, `updatedAt` an ISO
      timestamp; both are opaque text here. */
  datatype Note = Note(id: string, title: string, content: string, updatedAt: string)

  /** A `Partial<Note>`: every field may be supplied or left out. */
  datatype NoteUpdate = NoteUpdate(
    id: Option<string>,
    title: Option<string>,
    content: Option<string>,
    updatedAt: Option<string>)

  /** The title every new note starts with. */
  const DefaultTitle: string := "New Note"

  /** The note `addNote` creates from a fresh id and the current time. */
  function NewNote(id: string, now: string): Note {
    Note(id, DefaultTitle, "", now)
  }

  /** Some note of `notes` carries `id`. */
  predicate HasId(notes: seq<Note>, id: string) {
    exists i :: 0 <= i < |notes| && notes[i].id == id
  }

  /** No two notes of `notes` share an id. */
  predicate UniqueIds(notes: seq<Note>) {
    forall i, j :: 0 <= i < j < |notes| ==> notes[i].id != notes[j].id
  }

  /** A supplied field wins over the note's own. */
  function Overlay<T>(supplied: Option<T>, current: T): T {
    if supplied.Some? then supplied.value else current
  }

  /** `{ ...note, ...updates, updatedAt: now }`: the supplied fields replace
      the note's, the others keep their values, and the timestamp is the
      current time whatever `updates` said about it. */
  function Merge(n: Note, u: NoteUpdate, now: string): (r: Note)
    ensures r.updatedAt == now
    ensures u.id.None? ==> r.id == n.id
    ensures u.id.Some? ==> r.id == u.id.value
    ensures u.title.None? ==> r.title == n.title
    ensures u.title.Some? ==> r.title == u.title.value
    ensures u.content.None? ==> r.content == n.content
    ensures u.content.Some? ==> r.content == u.content.value
  {
    Note(Overlay(u.id, n.id), Overlay(u.title, n.title), Overlay(u.content, n.content), now)
  }

  /** Applying the same update twice is applying it once, at the later time. */
  lemma MergeTwice(n: Note, u: NoteUpdate, earlier: string, later: string)
    ensures Merge(Merge(n, u, earlier), u, later) == Merge(n, u, later)
  {
  }

  /** `notes.map(note => note.id === id ? merged : note)`: every note carrying
      `id` is merged with `u` at time `now`; the others, the length and the
      order stay as they were. */
  function UpdateMatching(notes: seq<Note>, id: string, u: NoteUpdate, now: string): (r: seq<Note>)
    ensures |r| == |notes|
    ensures forall i :: 0 <= i < |notes| && notes[i].id != id ==> r[i] == notes[i]
    ensures forall i :: 0 <= i < |notes| && notes[i].id == id ==> r[i] == Merge(notes[i], u, now)
  {
    if notes == [] then []
    else
      var head := if notes[0].id == id then Merge(notes[0], u, now) else notes[0];
      [head] + UpdateMatching(notes[1..], id, u, now)
  }

  /** Updating an id nobody carries leaves the list as it was. */
  lemma UpdateMatchingAbsent(notes: seq<Note>, id: string, u: NoteUpdate, now: string)
    requires !HasId(notes, id)
    ensures UpdateMatching(notes, id, u, now) == notes
  {
  }

  /** An update that does not supply an id keeps every note's id in place,
      hence keeps ids unique and the set of ids the same. */
  lemma UpdateMatchingKeepsIds(notes: seq<Note>, id: string, u: NoteUpdate, now: string)
    requires u.id.None?
    ensures forall i :: 0 <= i < |notes| ==> UpdateMatching(notes, id, u, now)[i].id == notes[i].id
    ensures forall x :: HasId(UpdateMatching(notes, id, u, now), x) <==> HasId(notes, x)
    ensures UniqueIds(notes) ==> UniqueIds(UpdateMatching(notes, id, u, now))
  {
    var r := UpdateMatching(notes, id, u, now);
    forall x ensures HasId(r, x) <==> HasId(notes, x) {
      if HasId(r, x) {
        var i :| 0 <= i < |r| && r[i].id == x;
        assert notes[i].id == x;
      }
      if HasId(notes, x) {
        var i :| 0 <= i < |notes| && notes[i].id == x;
        assert r[i].id == x;
      }
    }
  }

  /** Repeating an update that keeps ids is applying it once, at the later
      time: the same notes match the second time, and each merge absorbs
      the first. */
  lemma UpdateMatchingTwice(notes: seq<Note>, id: string, u: NoteUpdate, earlier: string, later: string)
    requires u.id.None?
    ensures UpdateMatching(UpdateMatching(notes, id, u, earlier), id, u, later) == UpdateMatching(notes, id, u, later)
  {
    var once := UpdateMatching(notes, id, u, earlier);
    UpdateMatchingKeepsIds(notes, id, u, earlier);
    forall i | 0 <= i < |notes| && notes[i].id == id
      ensures UpdateMatching(once, id, u, later)[i] == UpdateMatching(notes, id, u, later)[i]
    {
      MergeTwice(notes[i], u, earlier, later);
    }
  }

  /** `notes.filter(n => n.id !== id)`: the notes that do not carry `id`,
      in their original order. */
  function RemoveId(notes: seq<Note>, id: string): (r: seq<Note>)
    ensures forall n :: n in r <==> n in notes && n.id != id
    ensures |r| <= |notes|
  {
    if notes == [] then []
    else if notes[0].id == id then RemoveId(notes[1..], id)
    else [notes[0]] + RemoveId(notes[1..], id)
  }

  /** Removal works piecewise: the survivors of a concatenation are the
      survivors of each part, in the same order. */
  lemma {:induction false} RemoveIdAppend(a: seq<Note>, b: seq<Note>, id: string)
    ensures RemoveId(a + b, id) == RemoveId(a, id) + RemoveId(b, id)
  {
    if a == [] {
      assert a + b == b;
    } else {
      assert (a + b)[0] == a[0];
      assert (a + b)[1..] == a[1..] + b;
      RemoveIdAppend(a[1..], b, id);
    }
  }

  /** Counted with multiplicity, the survivors are the old notes minus
      every note that carries `id`. */
  lemma {:induction false} RemoveIdCounts(notes: seq<Note>, id: string)
    ensures forall n :: multiset(RemoveId(notes, id))[n] == if n.id == id then 0 else multiset(notes)[n]
  {
    if notes != [] {
      RemoveIdCounts(notes[1..], id);
      assert notes == [notes[0]] + notes[1..];
    }
  }

  /** Removing an id nobody carries leaves the list as it was. */
  lemma {:induction false} RemoveIdAbsent(notes: seq<Note>, id: string)
    requires !HasId(notes, id)
    ensures RemoveId(notes, id) == notes
  {
    if notes != [] {
      assert notes[0].id != id;
      assert !HasId(notes[1..], id) by {
        forall i | 0 <= i < |notes[1..]| ensures notes[1..][i].id != id {
          assert notes[1..][i] == notes[i + 1];
        }
      }
      RemoveIdAbsent(notes[1..], id);
    }
  }

  /** No survivor carries `id`, so removing it a second time changes nothing. */
  lemma RemoveIdIdempotent(notes: seq<Note>, id: string)
    ensures !HasId(RemoveId(notes, id), id)
    ensures RemoveId(RemoveId(notes, id), id) == RemoveId(notes, id)
  {
    var r := RemoveId(notes, id);
    assert !HasId(r, id) by {
      forall i | 0 <= i < |r| ensures r[i].id != id {
        assert r[i] in r;
      }
    }
    RemoveIdAbsent(r, id);
  }

  /** A note of `s` witnesses its own id. */
  lemma MemberHasId(n: Note, s: seq<Note>)
    requires n in s
    ensures HasId(s, n.id)
  {
    var i :| 0 <= i < |s| && s[i] == n;
  }

  /** Ids are unique in `[n] + s` exactly when they are in `s` and `n`'s id
      is new to `s`. */
  lemma UniqueIdsCons(n: Note, s: seq<Note>)
    ensures UniqueIds([n] + s) <==> !HasId(s, n.id) && UniqueIds(s)
  {
    var t := [n] + s;
    if UniqueIds(t) {
      forall i | 0 <= i < |s| ensures s[i].id != n.id {
        assert t[0] == n && t[i + 1] == s[i];
      }
      forall i, j | 0 <= i < j < |s| ensures s[i].id != s[j].id {
        assert t[i + 1] == s[i] && t[j + 1] == s[j];
      }
    }
    if !HasId(s, n.id) && UniqueIds(s) {
      forall i, j | 0 <= i < j < |t| ensures t[i].id != t[j].id {
        assert t[j] == s[j - 1];
        if i > 0 {
          assert t[i] == s[i - 1];
        }
      }
    }
  }

  /** Removing notes never makes two ids collide. */
  lemma {:induction false} RemoveIdKeepsIdsUnique(notes: seq<Note>, id: string)
    requires UniqueIds(notes)
    ensures UniqueIds(RemoveId(notes, id))
  {
    if notes != [] {
      var rest := notes[1..];
      assert notes == [notes[0]] + rest;
      UniqueIdsCons(notes[0], rest);
      RemoveIdKeepsIdsUnique(rest, id);
      if notes[0].id != id {
        var tail := RemoveId(rest, id);
        assert !HasId(tail, notes[0].id) by {
          forall i | 0 <= i < |tail| ensures tail[i].id != notes[0].id {
            assert tail[i] in rest;
            MemberHasId(tail[i], rest);
          }
        }
        UniqueIdsCons(notes[0], tail);
      }
    }
  }

  /** `notes.find(n => n.id === id)`: the first note carrying `id`, or
      nothing when no note does. */
  function FindById(notes: seq<Note>, id: string): (r: Option<Note>)
    ensures r.Some? <==> HasId(notes, id)
    ensures r.Some? ==> r.value.id == id
    ensures r.Some? ==> exists i :: 0 <= i < |notes| && notes[i] == r.value && !HasId(notes[..i], id)
  {
    if notes == [] then None
    else if notes[0].id == id then
      assert notes[..0] == [];
      Some(notes[0])
    else
      var r := FindById(notes[1..], id);
      assert HasId(notes, id) ==> HasId(notes[1..], id) by {
        if HasId(notes, id) {
          var i :| 0 <= i < |notes| && notes[i].id == id;
          assert notes[1..][i - 1] == notes[i];
        }
      }
      assert HasId(notes[1..], id) ==> HasId(notes, id) by {
        if HasId(notes[1..], id) {
          var i :| 0 <= i < |notes[1..]| && notes[1..][i].id == id;
          assert notes[i + 1] == notes[1..][i];
        }
      }
      if r.Some? then
        assert exists i :: 0 <= i < |notes| && notes[i] == r.value && !HasId(notes[..i], id) by {
          var k :| 0 <= k < |notes[1..]| && notes[1..][k] == r.value && !HasId(notes[1..][..k], id);
          assert notes[k + 1] == r.value;
          var pre := notes[..k + 1];
          assert pre == [notes[0]] + notes[1..][..k];
          assert !HasId(pre, id) by {
            forall j | 0 <= j < |pre| ensures pre[j].id != id {
              if j > 0 {
                assert pre[j] == notes[1..][..k][j - 1];
              }
            }
          }
        }
        r
      else r
  }

  /** With unique ids, the lookup finds the one note that carries the id. */
  lemma FindUnique(notes: seq<Note>, id: string, i: int)
    requires UniqueIds(notes) && 0 <= i < |notes| && notes[i].id == id
    ensures FindById(notes, id) == Some(notes[i])
  {
    assert HasId(notes, id);
    var found := FindById(notes, id);
    assert found.Some?;
    assert found.value.id == id;
    var k :| 0 <= k < |notes| && notes[k] == found.value && !HasId(notes[..k], id);
    assert notes[k].id == id;
  }

  /** A note carrying `id` with none before it is what the lookup finds. */
  lemma FirstMatchFound(notes: seq<Note>, id: string, k: int)
    requires 0 <= k < |notes| && notes[k].id == id && !HasId(notes[..k], id)
    ensures FindById(notes, id) == Some(notes[k])
  {
    assert HasId(notes, id);
    var found := FindById(notes, id);
    assert found.Some? && found.value.id == id;
    var m :| 0 <= m < |notes| && notes[m] == found.value && !HasId(notes[..m], id);
    forall j | 0 <= j < k ensures notes[j].id != id {
      assert notes[..k][j] == notes[j];
    }
    forall j | 0 <= j < m ensures notes[j].id != id {
      assert notes[..m][j] == notes[j];
    }
    assert notes[m].id == id;
  }

  /** Looking up an updated note gives the merge of what the lookup gave
      before the update, when the update keeps ids: the first note carrying
      the id stays at its position. */
  lemma FindAfterUpdate(notes: seq<Note>, id: string, u: NoteUpdate, now: string)
    requires HasId(notes, id) && u.id.None?
    ensures FindById(UpdateMatching(notes, id, u, now), id) == Some(Merge(FindById(notes, id).value, u, now))
  {
    var r := UpdateMatching(notes, id, u, now);
    var found := FindById(notes, id);
    assert found.Some? && found.value.id == id;
    var k :| 0 <= k < |notes| && notes[k] == found.value && !HasId(notes[..k], id);
    forall j | 0 <= j < k ensures r[..k][j].id != id {
      assert notes[..k][j] == notes[j];
      assert r[..k][j] == r[j] == notes[j];
    }
    assert r[k] == Merge(notes[k], u, now);
    FirstMatchFound(r, id, k);
  }
}
