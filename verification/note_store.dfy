/**
 * The note manager's mutable state and the operations that change it: the
 * note collection, the id of the note being edited, and the copy last written
 * to browser storage, which every successful change refreshes.
 */
module NoteStore {

  import opened Optional
  import opened JsString
  import opened Notes

  /** `if (currentId)`: JavaScript truthiness, so both `null` and the id 0 mean "not editing". */
  predicate IsEditing(currentId: Option<int>)
  {
    currentId.Some? && currentId.value != 0
  }

  /** The submit form accepts the input when neither trimmed field is empty. */
  predicate ValidInput(titleValue: string, contentValue: string)
  {
    Trim(titleValue) != [] && Trim(contentValue) != []
  }

  class Store {
    /** The collection, newest first. */
    var notes: seq<Note>
    /** The note loaded into the form for editing; `None` is JavaScript's `null`. */
    var currentId: Option<int>
    /** What browser storage holds under the key "notes". */
    ghost var persisted: seq<Note>

    /** Storage agrees with the collection in memory. */
    ghost predicate Saved()
      reads this
    {
      persisted == notes
    }

    /** Start-up: the collection read back from storage, nothing being edited. */
    constructor (stored: seq<Note>)
      ensures notes == stored && currentId == None && Saved()
    {
      notes := stored;
      currentId := None;
      persisted := stored;
    }

    /** saveToLocalStorage: storage now holds the collection. */
    method SaveToLocalStorage()
      modifies this`persisted
      ensures Saved()
    {
      persisted := notes;
    }

    /** addNote: the new note goes to the front, then the collection is saved. */
    method AddNote(title: string, content: string, id: int, createdAt: string, lastEdited: string)
      modifies this`notes, this`persisted
      ensures notes == [NewNote(title, content, id, createdAt, lastEdited)] + old(notes)
      ensures Saved()
    {
      notes := [NewNote(title, content, id, createdAt, lastEdited)] + notes;
      SaveToLocalStorage();
    }

    /**
     * updateNote: every note with the id gets the new title, content and edit
     * time, the collection is saved and the edit target is cleared. A missing id
     * is not reported: the collection then stays as it was, and is still saved.
     */
    method UpdateNote(id: int, title: string, content: string, now: string)
      modifies this
      ensures notes == UpdateNotes(old(notes), id, title, content, now)
      ensures !HasId(old(notes), id) ==> notes == old(notes)
      ensures currentId == None && Saved()
    {
      notes := UpdateNotes(notes, id, title, content, now);
      if !HasId(old(notes), id) {
        UpdateMissingIdIsNoOp(old(notes), id, title, content, now);
      }
      SaveToLocalStorage();
      currentId := None;
    }

    /**
     * deleteNote: only when the user confirms, every note with the id is
     * removed and the collection is saved. The edit target is left alone.
     */
    method DeleteNote(id: int, confirmed: bool)
      modifies this`notes, this`persisted
      ensures notes == if confirmed then WithoutId(old(notes), id) else old(notes)
      ensures persisted == if confirmed then notes else old(persisted)
    {
      if confirmed {
        notes := WithoutId(notes, id);
        SaveToLocalStorage();
      }
    }

    /**
     * editNote: the first note with the id is handed back for the form and
     * becomes the edit target; when there is none, nothing changes.
     */
    method EditNote(id: int) returns (found: Option<Note>)
      modifies this`currentId
      ensures found == FindNote(notes, id)
      ensures currentId == if HasId(notes, id) then Some(id) else old(currentId)
    {
      found := FindNote(notes, id);
      if found.Some? {
        currentId := Some(id);
      }
    }

    /** resetForm, state part: nothing is being edited any more. */
    method ResetForm()
      modifies this`currentId
      ensures currentId == None
    {
      currentId := None;
    }

    /**
     * handleSubmit: trims both fields and rejects the submission when either is
     * empty. Otherwise it updates the edit target, or adds a new note when there
     * is none, and resets the form. `id`, `createdAt` and `lastEdited` are the
     * clock readings a new note or an update would take.
     */
    method HandleSubmit(titleValue: string, contentValue: string, id: int, createdAt: string, lastEdited: string)
      returns (accepted: bool)
      modifies this
      ensures accepted == ValidInput(titleValue, contentValue)
      ensures !accepted ==> notes == old(notes) && currentId == old(currentId) && persisted == old(persisted)
      ensures accepted && IsEditing(old(currentId)) ==>
        notes == UpdateNotes(old(notes), old(currentId).value, Trim(titleValue), Trim(contentValue), lastEdited)
      ensures accepted && !IsEditing(old(currentId)) ==>
        notes == [NewNote(Trim(titleValue), Trim(contentValue), id, createdAt, lastEdited)] + old(notes)
      ensures accepted ==> currentId == None && Saved()
      ensures AllFilled(old(notes)) ==> AllFilled(notes)
    {
      var title := Trim(titleValue);
      var content := Trim(contentValue);
      if title == [] || content == [] {
        return false;
      }
      if IsEditing(currentId) {
        if AllFilled(notes) {
          UpdateKeepsFilled(notes, currentId.value, title, content, lastEdited);
        }
        UpdateNote(currentId.value, title, content, lastEdited);
      } else {
        if AllFilled(notes) {
          AddKeepsFilled(notes, title, content, id, createdAt, lastEdited);
        }
        AddNote(title, content, id, createdAt, lastEdited);
      }
      ResetForm();
      accepted := true;
    }
  }

  /**
   * Deleting the note that is loaded for editing does not clear the edit
   * target, so the next submit updates a note that no longer exists: the
   * collection stays as it was and the typed text is dropped.
   */
  method DeleteWhileEditing(stored: seq<Note>, x: int, title: string, content: string)
    requires x != 0 && HasId(stored, x)
    requires title != [] && content != [] && Trim(title) == title && Trim(content) == content
  {
    var store := new Store(stored);
    var found := store.EditNote(x);
    store.DeleteNote(x, true);
    assert store.currentId == Some(x);
    var before := store.notes;
    var accepted := store.HandleSubmit(title, content, x, "t", "t");
    assert accepted;
    UpdateAfterDeleteIsNoOp(stored, x, title, content, "t");
    assert store.notes == before;
  }
}
