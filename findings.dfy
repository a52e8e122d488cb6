/**
 * Three places where the reducer and the update handler do not do what the
 * code evidently means to do. For each, a lemma shows the behaviour as
 * written on a concrete input, and a corrected definition is given with the
 * intended property proved. Each corrected definition is also shown to agree
 * with the code on inputs where the code behaves as intended: a present id
 * for removal, a note not yet completed for the status change, and another
 * client's completion of a present note for the update handler.
 */
module Findings {
  import opened Notes
  import opened Reducer
  import Sync
  import ReducerProps

  // REMOVE_NOTE on an absent id.

  /**
   * As written: when a note is removed twice (say, once by this client's own
   * delete echo and once by another client's delete), the second REMOVE_NOTE
   * finds nothing and splices at -1, duplicating the list.
   */
  lemma RemoveTwiceDuplicates(s: State, a: Note, b: Note, c: Note)
    requires a.id != b.id && a.id != c.id
    ensures var once := Reduce(s.(notes := [a, b, c]), RemoveNote(a.id));
      && once.notes == [b, c]
      && Reduce(once, RemoveNote(a.id)).notes == [b, b, c]
  {
    var once := Reduce(s.(notes := [a, b, c]), RemoveNote(a.id));
    assert FindIndex([a, b, c], a.id) == 0;
    assert once.notes == [b, c];
    assert !HasId([b, c], a.id);
    ReducerProps.RemoveAbsent(once, a.id);
  }

  /** Corrected: drop the first note with the id, and leave the list alone when there is none. */
  function RemoveFirst(notes: seq<Note>, id: Id): (r: seq<Note>)
    ensures !HasId(notes, id) ==> r == notes
    ensures HasId(notes, id) ==> |r| == |notes| - 1
    ensures forall x :: HasId(r, x) ==> HasId(notes, x)
    ensures UniqueIds(notes) ==> UniqueIds(r) && !HasId(r, id)
  {
    if |notes| == 0 then []
    else
      TailIds(notes);
      if notes[0].id == id then notes[1..]
      else
        var rest := RemoveFirst(notes[1..], id);
        ConsIds(notes[0], rest);
        [notes[0]] + rest
  }

  lemma TailIds(notes: seq<Note>)
    requires |notes| > 0
    ensures forall x :: HasId(notes[1..], x) ==> HasId(notes, x)
    ensures HasId(notes, notes[0].id)
    ensures forall x :: HasId(notes, x) && x != notes[0].id ==> HasId(notes[1..], x)
    ensures UniqueIds(notes) ==> UniqueIds(notes[1..]) && !HasId(notes[1..], notes[0].id)
  {
    assert forall j :: 1 <= j < |notes| ==> notes[j] == notes[1..][j - 1];
  }

  lemma ConsIds(head: Note, rest: seq<Note>)
    ensures forall x :: HasId([head] + rest, x) ==> x == head.id || HasId(rest, x)
    ensures UniqueIds(rest) && !HasId(rest, head.id) ==> UniqueIds([head] + rest)
  {
    var r := [head] + rest;
    assert forall j :: 1 <= j < |r| ==> r[j] == rest[j - 1];
  }

  /** Corrected removal is idempotent on a list with unique ids. */
  lemma RemoveFirstIdempotent(notes: seq<Note>, id: Id)
    requires UniqueIds(notes)
    ensures RemoveFirst(RemoveFirst(notes, id), id) == RemoveFirst(notes, id)
  {
  }

  /** Where the id is present, REMOVE_NOTE as written is the corrected removal. */
  lemma {:induction false} RemoveAgreesWhenPresent(s: State, id: Id)
    requires HasId(s.notes, id)
    ensures Reduce(s, RemoveNote(id)).notes == RemoveFirst(s.notes, id)
  {
    ReducerProps.RemovePresent(s, id);
    RemoveFirstAt(s.notes, id);
  }

  lemma {:induction false} RemoveFirstAt(notes: seq<Note>, id: Id)
    requires HasId(notes, id)
    ensures var k := FindIndex(notes, id); RemoveFirst(notes, id) == notes[..k] + notes[k + 1..]
  {
    if notes[0].id != id {
      var tail := notes[1..];
      assert HasId(tail, id) by {
        var j :| 0 <= j < |notes| && notes[j].id == id;
        assert tail[j - 1].id == id;
      }
      RemoveFirstAt(tail, id);
      var k := FindIndex(tail, id);
      assert FindIndex(notes, id) == k + 1;
      assert notes[..k + 1] == [notes[0]] + tail[..k];
      assert notes[k + 2..] == tail[k + 1..];
    }
  }

  // UPDATE_STATUS's new value `!notes.completed`.

  /** Corrected: toggle the first note with the id, `!notes[i].completed`. */
  function ToggleFirst(notes: seq<Note>, id: Id): (r: seq<Note>)
    ensures |r| == |notes|
    ensures forall j :: 0 <= j < |notes| ==> r[j].id == notes[j].id
  {
    if |notes| == 0 then []
    else if notes[0].id == id then [notes[0].(completed := !notes[0].completed)] + notes[1..]
    else [notes[0]] + ToggleFirst(notes[1..], id)
  }

  /** Toggling twice gives back the list. */
  lemma {:induction false} ToggleFirstTwice(notes: seq<Note>, id: Id)
    ensures ToggleFirst(ToggleFirst(notes, id), id) == notes
  {
    if |notes| > 0 && notes[0].id != id {
      ToggleFirstTwice(notes[1..], id);
      var once := ToggleFirst(notes, id);
      assert once[1..] == ToggleFirst(notes[1..], id);
    }
  }

  /** Toggling flips the flag of the first note with the id and of no other note. */
  lemma {:induction false} ToggleFirstAt(notes: seq<Note>, id: Id, k: nat)
    requires k < |notes| && notes[k].id == id
    requires forall j :: 0 <= j < k ==> notes[j].id != id
    ensures ToggleFirst(notes, id) == notes[k := notes[k].(completed := !notes[k].completed)]
  {
    if k > 0 {
      var tail := notes[1..];
      ToggleFirstAt(tail, id, k - 1);
      var flipped := tail[k - 1 := tail[k - 1].(completed := !tail[k - 1].completed)];
      assert ToggleFirst(notes, id) == [notes[0]] + flipped;
      assert [notes[0]] + flipped == notes[k := notes[k].(completed := !notes[k].completed)];
    }
  }

  /** As written and corrected agree on a note that is not yet completed. */
  lemma UpdateStatusAgreesWhenOpen(s: State, id: Id)
    requires HasId(s.notes, id) && !s.notes[FindIndex(s.notes, id)].completed
    ensures Reduce(s, UpdateStatus(id)).notes == ToggleFirst(s.notes, id)
  {
    ToggleFirstAt(s.notes, id, FindIndex(s.notes, id));
  }

  // The update handler's echo check.

  /**
   * As written: this client un-completes a completed note; the echo of its
   * own update reaches the update handler, which applies it anyway, and the
   * note is completed again.
   */
  lemma UncompleteRevertedByEcho(s: State, k: nat)
    requires k < |s.notes| && FindIndex(s.notes, s.notes[k].id) == k && s.notes[k].completed
    ensures var t := Sync.UpdateNote(s, s.notes[k]);
      && Defined(t, UpdateStatus(s.notes[k].id))
      && !t.notes[k].completed
      && Reduce(t, UpdateStatus(s.notes[k].id)).notes[k].completed
  {
    var t := Sync.UpdateNote(s, s.notes[k]);
    ReducerProps.FindIndexSameIds(s.notes, t.notes, s.notes[k].id);
  }

  /**
   * An update event carrying the note's id, its new flag and the id of the
   * client that wrote it. The update mutation sends only `{ id, completed }`,
   * so this correction also needs updateNote to stamp its client id on the
   * mutation's input, as createNote does.
   */
  datatype UpdateEvent = UpdateEvent(id: Id, completed: bool, clientId: Id)

  /**
   * Corrected handler: drop the echo of this client's own write; otherwise set
   * the flag the event carries on the note, and ignore an id that is not here.
   */
  function OnUpdateEventChecked(s: State, clientId: Id, e: UpdateEvent): (r: State)
    ensures r.loading == s.loading && r.error == s.error && r.form == s.form
    ensures e.clientId == clientId || !HasId(s.notes, e.id) ==> r == s
  {
    if e.clientId == clientId then s
    else
      var k := FindIndex(s.notes, e.id);
      if k == -1 then s else s.(notes := s.notes[k := s.notes[k].(completed := e.completed)])
  }

  /**
   * Where the code works, as written and corrected agree: another client's
   * update that completes a present note.
   */
  lemma ForeignCompleteAgrees(s: State, clientId: Id, e: UpdateEvent)
    requires e.clientId != clientId && HasId(s.notes, e.id) && e.completed
    ensures OnUpdateEventChecked(s, clientId, e) == Reduce(s, UpdateStatus(e.id))
  {
  }

  /** Corrected: the echo of this client's own toggle leaves the toggled state alone. */
  lemma OwnUpdateEchoDropped(s: State, clientId: Id, note: Note)
    ensures var t := Sync.UpdateNote(s, note);
      OnUpdateEventChecked(t, clientId, UpdateEvent(note.id, !note.completed, clientId)) == t
  {
  }

  /** Corrected: another client's update sets the note's flag to the value it carries, once for all repeats. */
  lemma ForeignUpdateApplied(s: State, clientId: Id, e: UpdateEvent)
    requires e.clientId != clientId && HasId(s.notes, e.id)
    ensures var k, r := FindIndex(s.notes, e.id), OnUpdateEventChecked(s, clientId, e);
      && |r.notes| == |s.notes|
      && r.notes[k] == s.notes[k].(completed := e.completed)
      && (forall j :: 0 <= j < |s.notes| && j != k ==> r.notes[j] == s.notes[j])
      && OnUpdateEventChecked(r, clientId, e) == r
  {
    var k, r := FindIndex(s.notes, e.id), OnUpdateEventChecked(s, clientId, e);
    ReducerProps.FindIndexSameIds(s.notes, r.notes, e.id);
  }
}
