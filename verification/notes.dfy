/**
 * The note record and the pure parts of the note manager: the `map` callback
 * of updateNote, the `filter` callback of deleteNote, the `find` callback of
 * editNote and the search filter of renderNotes.
 */
module Notes {

  import opened Optional
  import opened JsString
  import opened JsArray

  /** One stored note; the timestamps are the display strings the page shows. */
  datatype Note = Note(id: int, title: string, content: string, createdAt: string, lastEdited: string)

  /** Some note in `ns` carries the id. */
  predicate HasId(ns: seq<Note>, id: int)
  {
    exists n | n in ns :: n.id == id
  }

  /** The ids of the notes, in collection order. */
  function Ids(ns: seq<Note>): seq<int>
  {
    seq(|ns|, i requires 0 <= i < |ns| => ns[i].id)
  }

  /** Every stored note has a non-empty title and content, as the submit form enforces. */
  ghost predicate AllFilled(ns: seq<Note>)
  {
    forall n | n in ns :: n.title != [] && n.content != []
  }

  // ---------------------------------------------------------------- addNote

  /** The record addNote builds. */
  function NewNote(title: string, content: string, id: int, createdAt: string, lastEdited: string): Note
  {
    Note(id, title, content, createdAt, lastEdited)
  }

  /**
   * Adding a note with a non-empty title and content keeps every note filled,
   * keeps every old note with all its copies, and adds exactly one note.
   */
  lemma AddKeepsFilled(ns: seq<Note>, title: string, content: string, id: int, createdAt: string, lastEdited: string)
    requires AllFilled(ns) && title != [] && content != []
    ensures AllFilled([NewNote(title, content, id, createdAt, lastEdited)] + ns)
    ensures multiset([NewNote(title, content, id, createdAt, lastEdited)] + ns)
      == multiset(ns) + multiset{NewNote(title, content, id, createdAt, lastEdited)}
  {
  }

  // ------------------------------------------------------------- updateNote

  /** The `map` callback of updateNote: a matching note gets the new text and edit time. */
  function Edited(note: Note, id: int, title: string, content: string, now: string): Note
  {
    if note.id == id then note.(title := title, content := content, lastEdited := now) else note
  }

  /** updateNote's `notes.map(...)`. */
  function UpdateNotes(ns: seq<Note>, id: int, title: string, content: string, now: string): (r: seq<Note>)
    ensures |r| == |ns|
    ensures forall i | 0 <= i < |ns| && ns[i].id != id :: r[i] == ns[i]
    ensures forall i | 0 <= i < |ns| && ns[i].id == id ::
      r[i].id == id && r[i].createdAt == ns[i].createdAt
      && r[i].title == title && r[i].content == content && r[i].lastEdited == now
  {
    seq(|ns|, i requires 0 <= i < |ns| => Edited(ns[i], id, title, content, now))
  }

  /** Updating never moves, adds or drops a note: the ids stay where they were. */
  lemma UpdateKeepsIds(ns: seq<Note>, id: int, title: string, content: string, now: string)
    ensures Ids(UpdateNotes(ns, id, title, content, now)) == Ids(ns)
  {
  }

  /** Updating an id no note carries leaves the collection as it was. */
  lemma UpdateMissingIdIsNoOp(ns: seq<Note>, id: int, title: string, content: string, now: string)
    requires !HasId(ns, id)
    ensures UpdateNotes(ns, id, title, content, now) == ns
  {
    var r := UpdateNotes(ns, id, title, content, now);
    forall i | 0 <= i < |ns| ensures r[i] == ns[i] {
      assert ns[i] in ns;
    }
  }

  /** Updating with a non-empty title and content keeps every note filled. */
  lemma UpdateKeepsFilled(ns: seq<Note>, id: int, title: string, content: string, now: string)
    requires AllFilled(ns) && title != [] && content != []
    ensures AllFilled(UpdateNotes(ns, id, title, content, now))
  {
    var r := UpdateNotes(ns, id, title, content, now);
    forall n | n in r ensures n.title != [] && n.content != [] {
      var i :| 0 <= i < |r| && r[i] == n;
      assert ns[i] in ns;
    }
  }

  // ------------------------------------------------------------- deleteNote

  /** deleteNote's `notes.filter(note => note.id !== id)`. */
  function WithoutId(ns: seq<Note>, id: int): seq<Note>
  {
    Filter(ns, (n: Note) => n.id != id)
  }

  /**
   * Deleting removes every note with the id and nothing else: each other note
   * keeps all its copies, the order is kept, and nothing is added.
   */
  lemma DeleteRemovesExactlyId(ns: seq<Note>, id: int)
    ensures !HasId(WithoutId(ns, id), id)
    ensures |WithoutId(ns, id)| <= |ns|
    ensures IsSubsequence(WithoutId(ns, id), ns)
    ensures forall n: Note | n.id != id :: multiset(WithoutId(ns, id))[n] == multiset(ns)[n]
    ensures forall n: Note | n.id == id :: multiset(WithoutId(ns, id))[n] == 0
  {
    var keep := (n: Note) => n.id != id;
    FilterIsSubsequence(ns, keep);
    forall n: Note ensures multiset(WithoutId(ns, id))[n] == if n.id != id then multiset(ns)[n] else 0 {
      FilterMultiplicity(ns, keep, n);
    }
  }

  /** Deleting an id no note carries changes nothing. */
  lemma DeleteMissingIdIsNoOp(ns: seq<Note>, id: int)
    requires !HasId(ns, id)
    ensures WithoutId(ns, id) == ns
  {
    FilterKeepsAll(ns, (n: Note) => n.id != id);
  }

  /**
   * The edit target is not cleared by a delete. Submitting after the note being
   * edited was deleted runs updateNote on an id that is gone: nothing changes,
   * and the submitted text is dropped.
   */
  lemma UpdateAfterDeleteIsNoOp(ns: seq<Note>, id: int, title: string, content: string, now: string)
    ensures UpdateNotes(WithoutId(ns, id), id, title, content, now) == WithoutId(ns, id)
  {
    DeleteRemovesExactlyId(ns, id);
    UpdateMissingIdIsNoOp(WithoutId(ns, id), id, title, content, now);
  }

  // --------------------------------------------------------------- editNote

  /** editNote's `notes.find(note => note.id === id)`. */
  function FindNote(ns: seq<Note>, id: int): (r: Option<Note>)
    ensures r.Some? <==> HasId(ns, id)
    ensures r.Some? ==> r.value in ns && r.value.id == id
  {
    Find(ns, (n: Note) => n.id == id)
  }

  /** `find` returns the first note with the id, not a later one. */
  lemma FindNoteIsFirst(ns: seq<Note>, id: int, k: nat)
    requires k < |ns| && ns[k].id == id
    requires forall j | 0 <= j < k :: ns[j].id != id
    ensures FindNote(ns, id) == Some(ns[k])
  {
    var i := FindIndex(ns, (n: Note) => n.id == id);
    assert i == k;
  }

  // ----------------------------------------------------------- renderNotes

  /** The callback of renderNotes' filter: `term` occurs in the lowercased title or content. */
  predicate MatchesSearch(note: Note, term: string)
  {
    Includes(ToLowerCase(note.title), term) || Includes(ToLowerCase(note.content), term)
  }

  /** renderNotes' filter over the collection, with the term as given. */
  function FilterNotes(ns: seq<Note>, term: string): seq<Note>
  {
    Filter(ns, (n: Note) => MatchesSearch(n, term))
  }

  /** handleSearch lowercases the typed text and hands it to renderNotes. */
  function SearchNotes(ns: seq<Note>, input: string): seq<Note>
  {
    FilterNotes(ns, ToLowerCase(input))
  }

  /** `text` contains `term` when case is ignored. */
  ghost predicate ContainsIgnoringCase(text: string, term: string)
  {
    exists i :: OccursAt(ToLowerCase(text), ToLowerCase(term), i)
  }

  /** A note is listed exactly when the typed text occurs in its title or content, ignoring case. */
  lemma SearchMembership(ns: seq<Note>, input: string, n: Note)
    ensures n in SearchNotes(ns, input) <==>
      n in ns && (ContainsIgnoringCase(n.title, input) || ContainsIgnoringCase(n.content, input))
  {
    IncludesIffOccurs(ToLowerCase(n.title), ToLowerCase(input));
    IncludesIffOccurs(ToLowerCase(n.content), ToLowerCase(input));
  }

  /** The search result lists the matching notes in collection order, each as often as it is stored. */
  lemma SearchKeepsOrder(ns: seq<Note>, input: string)
    ensures IsSubsequence(SearchNotes(ns, input), ns)
    ensures forall n: Note | MatchesSearch(n, ToLowerCase(input)) ::
      multiset(SearchNotes(ns, input))[n] == multiset(ns)[n]
  {
    var keep := (n: Note) => MatchesSearch(n, ToLowerCase(input));
    FilterIsSubsequence(ns, keep);
    forall n: Note | MatchesSearch(n, ToLowerCase(input))
      ensures multiset(SearchNotes(ns, input))[n] == multiset(ns)[n]
    {
      FilterMultiplicity(ns, keep, n);
    }
  }

  /** An empty term, renderNotes' default, lists every note in order. */
  lemma EmptySearchListsAll(ns: seq<Note>)
    ensures FilterNotes(ns, "") == ns
    ensures SearchNotes(ns, "") == ns
  {
    forall n | n in ns ensures MatchesSearch(n, "") {
      IncludesEmpty(ToLowerCase(n.title));
    }
    FilterKeepsAll(ns, (n: Note) => MatchesSearch(n, ""));
  }

  /** Typing the term in another case lists the same notes. */
  lemma SearchIgnoresCase(ns: seq<Note>, a: string, b: string)
    requires ToLowerCase(a) == ToLowerCase(b)
    ensures SearchNotes(ns, a) == SearchNotes(ns, b)
  {
  }
}
