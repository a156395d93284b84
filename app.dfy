/** The note editor's state machine: the stored array of notes and the id of
    the note being edited, changed by save, delete, start-edit and the Escape
    key, and read by load. Only the key-value-store branch of each operation
    is modelled; the stored array is a sequence, not its JSON text. */
module App {

  import opened Notes
  import Text

  /** The truthiness test `if (currentEditingId)`: null and 0 both read as
      "not editing". */
  predicate IsEditing(e: Option<int>)
  {
    e.Some? && e.value != 0
  }

  class NoteApp {
    /** The array stored under the key `notes`, in storage order. */
    var notes: seq<Note>
    /** `currentEditingId`; None stands for null. */
    var editingId: Option<int>

    /** A page load: the stored array (empty when the key is missing) and no
        note being edited. */
    constructor (stored: seq<Note>)
      ensures notes == stored && editingId == None
    {
      notes := stored;
      editingId := None;
    }

    /** saveNote(text). The three clock readings of the source are
        parameters: `date` and `updatedAt` of the record, and the
        `Date.now()` that becomes a new note's id. */
    method Save(text: string, dateNow: Time, updatedNow: Time, idNow: int)
      modifies this
      // a blank submission changes nothing
      ensures Text.IsBlank(text) ==> notes == old(notes) && editingId == old(editingId)
      // editing: every record with the edited id becomes the fresh record,
      // whose creation date is the current time too; nothing else moves
      ensures !Text.IsBlank(text) && IsEditing(old(editingId)) ==>
        var rec := Note(old(editingId).value, text, dateNow, updatedNow);
        && |notes| == |old(notes)|
        && (forall k :: 0 <= k < |notes| ==>
              notes[k] == if old(notes)[k].id == rec.id then rec else old(notes)[k])
        && editingId == None
      // adding: exactly one note is appended, earlier notes keep their place
      ensures !Text.IsBlank(text) && !IsEditing(old(editingId)) ==>
        && |notes| == |old(notes)| + 1
        && notes[..|old(notes)|] == old(notes)
        && notes[|old(notes)|] == Note(idNow, text, dateNow, updatedNow)
        && editingId == old(editingId)
      ensures !Text.IsBlank(text) ==> !IsEditing(editingId)
      ensures NoBlankText(old(notes)) ==> NoBlankText(notes)
    {
      if Text.IsBlank(text) {
        return;
      }
      Text.BlankIffAllWhitespace(text);
      if IsEditing(editingId) {
        var note := Note(editingId.value, text, dateNow, updatedNow);
        if NoBlankText(notes) {
          ReplaceByIdNoBlank(notes, editingId.value, note);
        }
        notes := ReplaceById(notes, editingId.value, note);
        editingId := None;
      } else {
        if NoBlankText(notes) {
          AppendNoBlank(notes, Note(idNow, text, dateNow, updatedNow));
        }
        notes := notes + [Note(idNow, text, dateNow, updatedNow)];
      }
    }

    /** deleteNote(id); `confirmed` is the answer to the confirm() dialog. */
    method Delete(id: int, confirmed: bool)
      modifies this
      ensures !confirmed ==> notes == old(notes) && editingId == old(editingId)
      ensures confirmed ==> notes == RemoveById(old(notes), id)
      ensures confirmed ==> !HasId(notes, id)
      ensures confirmed ==> forall n :: n in notes <==> n in old(notes) && n.id != id
      ensures confirmed ==> editingId == if old(editingId) == Some(id) then None else old(editingId)
      ensures NoBlankText(old(notes)) ==> NoBlankText(notes)
    {
      if confirmed {
        RemoveByIdMembers(notes, id);
        if NoBlankText(notes) {
          RemoveByIdNoBlank(notes, id);
        }
        notes := RemoveById(notes, id);
        if editingId == Some(id) {
          editingId := None;
        }
      }
    }

    /** editNote(id): edit mode is entered only for an id that is stored. */
    method StartEdit(id: int)
      modifies this
      ensures notes == old(notes)
      ensures HasId(notes, id) ==> editingId == Some(id)
      ensures !HasId(notes, id) ==> editingId == old(editingId)
    {
      var found := FindById(notes, id);
      if found.Some? {
        editingId := Some(id);
      }
    }

    /** The keydown handler of the input: Escape leaves edit mode when the
        editing id is truthy; no other key, and no other state, is touched. */
    method KeyDown(key: string)
      modifies this
      ensures notes == old(notes)
      ensures key == "Escape" ==> !IsEditing(editingId)
      ensures key == "Escape" && IsEditing(old(editingId)) ==> editingId == None
      ensures key != "Escape" || !IsEditing(old(editingId)) ==> editingId == old(editingId)
    {
      if key == "Escape" && IsEditing(editingId) {
        editingId := None;
      }
    }

    /** loadNotes(): the stored array is copied and reversed in place, so
        the newest addition comes first; no timestamp is consulted. */
    method Load() returns (shown: seq<Note>)
      ensures |shown| == |notes|
      ensures forall k :: 0 <= k < |notes| ==> shown[k] == notes[|notes| - 1 - k]
      ensures shown == Reversed(notes)
    {
      var stored := notes;
      var a := new Note[|stored|](i requires 0 <= i < |stored| => stored[i]);
      assert a[..] == stored;
      Reverse(a);
      shown := a[..];
      ReversedFromIndices(stored, shown);
    }
  }

  /** `Array.prototype.reverse`: the elements of a swap places pairwise from
      both ends inward. */
  method Reverse(a: array<Note>)
    modifies a
    ensures forall k :: 0 <= k < a.Length ==> a[k] == old(a[a.Length - 1 - k])
  {
    var n := a.Length;
    var i := 0;
    while i < n / 2
      invariant 0 <= i <= n / 2
      invariant forall k :: 0 <= k < i ==> a[k] == old(a[n - 1 - k]) && a[n - 1 - k] == old(a[k])
      invariant forall k :: i <= k < n - i ==> a[k] == old(a[k])
    {
      a[i], a[n - 1 - i] := a[n - 1 - i], a[i];
      i := i + 1;
    }
  }

  /** Adding a note, editing it and deleting it, as a caller sees the list
      after each step (adding "Buy milk" and editing it to "Buy oat milk",
      say). */
  method AddEditDeleteScenario(first: string, second: string, t1: Time, t2: Time)
    returns (afterAdd: seq<Note>, afterEdit: seq<Note>, afterDelete: seq<Note>)
    requires !Text.IsBlank(first) && !Text.IsBlank(second)
    requires t1 != 0
    ensures afterAdd == [Note(t1, first, t1, t1)]
    ensures afterEdit == [Note(t1, second, t2, t2)]
    ensures afterDelete == []
  {
    var app := new NoteApp([]);
    app.Save(first, t1, t1, t1);
    assert app.notes == [Note(t1, first, t1, t1)];
    afterAdd := app.Load();
    app.StartEdit(t1);
    assert app.editingId == Some(t1) by {
      assert app.notes[0].id == t1;
    }
    app.Save(second, t2, t2, t2);
    assert app.notes == [Note(t1, second, t2, t2)];
    afterEdit := app.Load();
    app.Delete(t1, true);
    afterDelete := app.Load();
  }

  /** Two confirmed deletes of the same id, after an edit was started on
      editId: the second one changes neither the list nor the editing id. */
  method DeleteTwiceScenario(stored: seq<Note>, editId: int, id: int)
    returns (once: seq<Note>, twice: seq<Note>, editingOnce: Option<int>, editingTwice: Option<int>)
    ensures once == RemoveById(stored, id) && !HasId(once, id)
    ensures twice == once && editingTwice == editingOnce
    ensures editingOnce != Some(id)
  {
    var app := new NoteApp(stored);
    app.StartEdit(editId);
    app.Delete(id, true);
    once, editingOnce := app.notes, app.editingId;
    app.Delete(id, true);
    twice, editingTwice := app.notes, app.editingId;
    RemoveByIdIdempotent(stored, id);
  }

  /** A stored note whose id is 0: edit mode is entered for it, but the
      truthiness test sends the save down the add path, so a second note is
      appended, and neither that save nor Escape clears the editing id. */
  method ZeroIdScenario(stored: string, typed: string, t: Time, t2: Time)
    returns (afterSave: seq<Note>, editing: Option<int>)
    requires !Text.IsBlank(typed)
    ensures afterSave == [Note(0, stored, t, t), Note(t2, typed, t2, t2)]
    ensures editing == Some(0)
  {
    var app := new NoteApp([Note(0, stored, t, t)]);
    assert app.notes[0].id == 0;
    app.StartEdit(0);
    app.Save(typed, t2, t2, t2);
    app.KeyDown("Escape");
    afterSave, editing := app.notes, app.editingId;
  }
}
