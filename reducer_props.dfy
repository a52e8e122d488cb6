/**
 * What each action of the reducer does to the state, the round trip between
 * adding and removing a note, the invariant of unique ids, the effect of the
 * actions on the completed/total counter, and the loading and error flags
 * over a whole run of actions.
 */
module ReducerProps {
  import opened Wrappers
  import opened Notes
  import opened Reducer

  lemma SetNotesReplaces(s: State, notes: seq<Note>)
    ensures Reduce(s, SetNotes(notes)) == State(notes, false, s.error, s.form)
  {
  }

  lemma AddNotePrepends(s: State, note: Note)
    ensures Reduce(s, AddNote(note)) == State([note] + s.notes, s.loading, s.error, s.form)
  {
  }

  /** Removing a present id drops its first occurrence and keeps the other notes in order. */
  lemma RemovePresent(s: State, id: Id)
    requires HasId(s.notes, id)
    ensures var k, r := FindIndex(s.notes, id), Reduce(s, RemoveNote(id));
      && r == s.(notes := s.notes[..k] + s.notes[k + 1..])
      && |r.notes| == |s.notes| - 1
      && r.notes[..k] == s.notes[..k] && r.notes[k..] == s.notes[k + 1..]
      && multiset(r.notes) + multiset{s.notes[k]} == multiset(s.notes)
  {
    var k := FindIndex(s.notes, id);
    var r := Reduce(s, RemoveNote(id));
    assert r.notes == s.notes[..k] + s.notes[k + 1..];
    assert s.notes == s.notes[..k] + [s.notes[k]] + s.notes[k + 1..];
  }

  /**
   * Removing an absent id splices at index -1: `slice(0, -1)` is every note
   * but the last and `slice(0)` is the whole list, so the list is not left
   * as it was unless it has at most one note.
   */
  lemma RemoveAbsent(s: State, id: Id)
    requires !HasId(s.notes, id)
    ensures var n, r := |s.notes|, Reduce(s, RemoveNote(id));
      && r == s.(notes := if n == 0 then [] else s.notes[..n - 1] + s.notes)
      && (r.notes == s.notes <==> n <= 1)
  {
    var n := |s.notes|;
    if n >= 2 {
      var r := Reduce(s, RemoveNote(id));
      assert |r.notes| == 2 * n - 1;
    }
  }

  /** Removing the id of the note just added gives back the state before the add. */
  lemma AddThenRemove(s: State, note: Note)
    ensures Reduce(Reduce(s, AddNote(note)), RemoveNote(note.id)) == s
  {
    var t := Reduce(s, AddNote(note));
    assert t.notes[0].id == note.id;
    assert FindIndex(t.notes, note.id) == 0;
    assert t.notes[1..] == s.notes;
  }

  /** UPDATE_STATUS marks the first note with the id completed and changes nothing else. */
  lemma UpdateStatusPresent(s: State, id: Id)
    requires HasId(s.notes, id)
    ensures var k, r := FindIndex(s.notes, id), Reduce(s, UpdateStatus(id));
      && |r.notes| == |s.notes|
      && r.notes[k] == s.notes[k].(completed := true)
      && (forall j :: 0 <= j < |s.notes| && j != k ==> r.notes[j] == s.notes[j])
      && r.loading == s.loading && r.error == s.error && r.form == s.form
  {
  }

  /** Two lists with the same ids at the same places have the same findIndex. */
  lemma FindIndexSameIds(a: seq<Note>, b: seq<Note>, id: Id)
    requires |a| == |b|
    requires forall j :: 0 <= j < |a| ==> a[j].id == b[j].id
    ensures FindIndex(a, id) == FindIndex(b, id)
  {
  }

  /** Applying the same UPDATE_STATUS twice gives the state of applying it once. */
  lemma UpdateStatusIdempotent(s: State, id: Id)
    requires HasId(s.notes, id)
    ensures Defined(Reduce(s, UpdateStatus(id)), UpdateStatus(id))
    ensures Reduce(Reduce(s, UpdateStatus(id)), UpdateStatus(id)) == Reduce(s, UpdateStatus(id))
  {
    var k, t := FindIndex(s.notes, id), Reduce(s, UpdateStatus(id));
    FindIndexSameIds(s.notes, t.notes, id);
    assert t.notes[k].id == id;
  }

  /** UPDATE_STATUS on a note that is already completed leaves the state as it was. */
  lemma UpdateStatusNeverUncompletes(s: State, id: Id)
    requires HasId(s.notes, id)
    requires s.notes[FindIndex(s.notes, id)].completed
    ensures Reduce(s, UpdateStatus(id)) == s
  {
  }

  lemma SetInputChangesOneField(s: State, field: Field, value: string)
    ensures var r := Reduce(s, SetInput(field, value));
      && r.notes == s.notes && r.loading == s.loading && r.error == s.error
      && r.form == (if field == Name then Form(value, s.form.description) else Form(s.form.name, value))
  {
  }

  lemma ResetFormClears(s: State)
    ensures Reduce(s, ResetForm) == State(s.notes, s.loading, s.error, Form("", ""))
  {
  }

  lemma ErrorSetsFlags(s: State)
    ensures Reduce(s, Error) == State(s.notes, false, true, s.form)
  {
  }

  lemma UnrecognizedIsIdentity(s: State, tag: string)
    ensures Reduce(s, Unrecognized(tag)) == s
  {
  }

  /**
   * The actions keep the ids in the list unique when the caller adds only
   * fresh ids, sets only lists with unique ids and removes only present ids.
   */
  lemma UniqueIdsPreserved(s: State, a: Action)
    requires UniqueIds(s.notes) && Defined(s, a)
    requires a.SetNotes? ==> UniqueIds(a.notes)
    requires a.AddNote? ==> !HasId(s.notes, a.note.id)
    requires a.RemoveNote? ==> HasId(s.notes, a.id)
    ensures UniqueIds(Reduce(s, a).notes)
  {
    match a
    case SetNotes(items) =>
    case AddNote(note) => UniqueAfterAddNote(s, note);
    case RemoveNote(id) => UniqueAfterRemoveNote(s, id);
    case UpdateStatus(id) => UniqueAfterUpdateStatus(s, id);
    case ResetForm =>
    case SetInput(_, _) =>
    case Error =>
    case Unrecognized(_) =>
  }

  lemma UniqueAfterAddNote(s: State, note: Note)
    requires UniqueIds(s.notes) && !HasId(s.notes, note.id)
    ensures UniqueIds(Reduce(s, AddNote(note)).notes)
  {
    UniqueAfterPrepend(s.notes, note);
  }

  lemma UniqueAfterRemoveNote(s: State, id: Id)
    requires UniqueIds(s.notes) && HasId(s.notes, id)
    ensures UniqueIds(Reduce(s, RemoveNote(id)).notes)
  {
    RemovePresent(s, id);
    UniqueAfterDrop(s.notes, FindIndex(s.notes, id));
  }

  lemma UniqueAfterUpdateStatus(s: State, id: Id)
    requires UniqueIds(s.notes) && HasId(s.notes, id)
    ensures UniqueIds(Reduce(s, UpdateStatus(id)).notes)
  {
    var k := FindIndex(s.notes, id);
    UniqueSameIds(s.notes, s.notes[k := s.notes[k].(completed := true)]);
  }

  lemma UniqueAfterPrepend(notes: seq<Note>, note: Note)
    requires UniqueIds(notes) && !HasId(notes, note.id)
    ensures UniqueIds([note] + notes)
  {
    var r := [note] + notes;
    forall i, j | 0 <= i < j < |r| ensures r[i].id != r[j].id {
      assert r[j] == notes[j - 1];
      if i > 0 {
        assert r[i] == notes[i - 1];
      }
    }
  }

  lemma UniqueAfterDrop(notes: seq<Note>, k: nat)
    requires UniqueIds(notes) && k < |notes|
    ensures UniqueIds(notes[..k] + notes[k + 1..])
  {
    var r := notes[..k] + notes[k + 1..];
    forall i, j | 0 <= i < j < |r| ensures r[i].id != r[j].id {
      var i', j' := if i < k then i else i + 1, if j < k then j else j + 1;
      assert r[i] == notes[i'] && r[j] == notes[j'];
    }
  }

  lemma UniqueSameIds(a: seq<Note>, b: seq<Note>)
    requires UniqueIds(a) && |a| == |b|
    requires forall j :: 0 <= j < |a| ==> a[j].id == b[j].id
    ensures UniqueIds(b)
  {
    forall i, j | 0 <= i < j < |b| ensures b[i].id != b[j].id {
      assert a[i].id != a[j].id;
    }
  }

  /** The filter distributes over concatenation. */
  lemma {:induction false} CompletedNotesAppend(a: seq<Note>, b: seq<Note>)
    ensures CompletedNotes(a + b) == CompletedNotes(a) + CompletedNotes(b)
  {
    if |a| > 0 {
      assert (a + b)[1..] == a[1..] + b;
      CompletedNotesAppend(a[1..], b);
    } else {
      assert a + b == b;
    }
  }

  function Bit(b: bool): nat {
    if b then 1 else 0
  }

  lemma CounterAfterAdd(s: State, note: Note)
    ensures var before, after := Counter(s.notes), Counter(Reduce(s, AddNote(note)).notes);
      after.0 == before.0 + Bit(note.completed) && after.1 == before.1 + 1
  {
    assert ([note] + s.notes)[1..] == s.notes;
  }

  lemma CounterAfterRemove(s: State, id: Id)
    requires HasId(s.notes, id)
    ensures var k := FindIndex(s.notes, id);
      var before, after := Counter(s.notes), Counter(Reduce(s, RemoveNote(id)).notes);
      after.0 == before.0 - Bit(s.notes[k].completed) && after.1 == before.1 - 1
  {
    var k := FindIndex(s.notes, id);
    var rest := Reduce(s, RemoveNote(id)).notes;
    RemovePresent(s, id);
    assert rest == s.notes[..k] + s.notes[k + 1..];
    CompletedAfterDrop(s.notes, k);
    assert |CompletedNotes(rest)| == |CompletedNotes(s.notes)| - Bit(s.notes[k].completed);
  }

  lemma CounterAfterUpdateStatus(s: State, id: Id)
    requires HasId(s.notes, id)
    ensures var k := FindIndex(s.notes, id);
      var before, after := Counter(s.notes), Counter(Reduce(s, UpdateStatus(id)).notes);
      after.0 == before.0 + 1 - Bit(s.notes[k].completed) && after.1 == before.1
  {
    var k := FindIndex(s.notes, id);
    assert Reduce(s, UpdateStatus(id)).notes == s.notes[k := s.notes[k].(completed := true)];
    CompletedAfterComplete(s.notes, k);
  }

  lemma CompletedAfterDrop(notes: seq<Note>, k: nat)
    requires k < |notes|
    ensures |CompletedNotes(notes[..k] + notes[k + 1..])| == |CompletedNotes(notes)| - Bit(notes[k].completed)
  {
    CompletedNotesSplit(notes, k);
    CompletedNotesAppend(notes[..k], notes[k + 1..]);
  }

  lemma CompletedAfterComplete(notes: seq<Note>, k: nat)
    requires k < |notes|
    ensures |CompletedNotes(notes[k := notes[k].(completed := true)])|
      == |CompletedNotes(notes)| + 1 - Bit(notes[k].completed)
  {
    var after := notes[k := notes[k].(completed := true)];
    assert after[..k] == notes[..k] && after[k + 1..] == notes[k + 1..];
    CompletedNotesSplit(notes, k);
    CompletedNotesSplit(after, k);
  }

  /** The filtered list of a list split around index k. */
  lemma CompletedNotesSplit(notes: seq<Note>, k: nat)
    requires k < |notes|
    ensures |CompletedNotes(notes)|
      == |CompletedNotes(notes[..k])| + Bit(notes[k].completed) + |CompletedNotes(notes[k + 1..])|
  {
    assert notes == notes[..k] + ([notes[k]] + notes[k + 1..]);
    CompletedNotesAppend(notes[..k], [notes[k]] + notes[k + 1..]);
    CompletedNotesAppend([notes[k]], notes[k + 1..]);
    assert ([notes[k]] + notes[k + 1..])[1..] == notes[k + 1..];
  }

  /**
   * Over a run, the error flag ends up set exactly when it was set or an
   * ERROR was dispatched, and loading ends up cleared exactly when it was
   * clear or a SET_NOTES or ERROR was dispatched: no action sets loading back
   * or clears error.
   */
  lemma {:induction false} RunFlags(s: State, actions: seq<Action>, t: State)
    requires Run(s, actions) == Some(t)
    ensures t.error == (s.error || exists i :: 0 <= i < |actions| && actions[i].Error?)
    ensures t.loading == (s.loading && forall i :: 0 <= i < |actions| ==> !actions[i].SetNotes? && !actions[i].Error?)
    decreases |actions|
  {
    if |actions| > 0 {
      var tail := actions[1..];
      RunFlags(Reduce(s, actions[0]), tail, t);
      assert forall i :: 1 <= i < |actions| ==> actions[i] == tail[i - 1];
      if exists i :: 0 <= i < |tail| && tail[i].Error? {
        var i :| 0 <= i < |tail| && tail[i].Error?;
        assert actions[i + 1].Error?;
      }
    }
  }
}
