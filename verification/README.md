# Notes: a verified model of the note manager

This project models the note manager in `notes.js`, a browser widget that stores short notes. The manager keeps an ordered collection of notes. It adds new notes at the front, rewrites notes by id, deletes them after the user confirms, loads one into the form for editing and filters the list by a search term. It writes the collection to browser storage after every change. When it renders a title or content, it escapes the HTML special characters.

Modules:

- `Optional` (optional.dfy): the `Option` type. It stands for JavaScript's `null` edit target and for `undefined` from `find`.
- `JsString` (js_string.dfy): the string built-ins the code calls. These are `trim`, `toLowerCase`, `includes`, and `replace` with a global one-character pattern and a replacement without `$`, as at every call site. What is proved about each:
  - `trim`: the contract says the result is the input with exactly its leading and trailing white space removed. It is also proved idempotent.
  - `toLowerCase`: lowercasing twice is lowercasing once.
  - `includes`: it is tied to a reference definition, an occurrence of the term at some index.
  - `replace`: it distributes over concatenation, leaves a string without the character unchanged, and on one character is a single comparison.
- `JsArray` (js_array.dfy): `filter` and `find`. `filter` is proved to keep exactly the accepted elements, each as many times as it occurs, in their original order. `find` is proved to return the first accepted element.
- `Escaping` (escaping.dfy): `escapeHtml` as the chain of five replacements, exactly as written. It is proved equal to a single per-character substitution. Its output holds no `<`, `>`, `"` or `'`, and decoding the five entities gives back the original text.
- `Notes` (notes.dfy): the `Note` record and the per-note callbacks of `map`, `filter` and `find`. It also holds the update, delete and search functions over the collection, with their lemmas.
- `NoteStore` (note_store.dfy): class `Store`. Its fields are `notes`, `currentId` and a ghost `persisted`, which is the copy in browser storage. Its methods are addNote, updateNote, deleteNote, editNote, resetForm, saveToLocalStorage and handleSubmit. The module also has a client method, `DeleteWhileEditing`. It shows what a caller can prove from the contracts alone.

Behaviour the model follows from the code:

- `handleSubmit` tests `if (currentId)`, which uses JavaScript truthiness. An edit target whose id is 0 therefore counts as no edit target, and the submit adds a new note (`IsEditing`).
- `updateNote` does not report an id that no note carries. It still saves, and it still clears the edit target.
- `deleteNote` removes every note that carries the id, not just one.
- `deleteNote` leaves the edit target as it is. So editing a note, deleting it and then submitting changes nothing, and the typed text is lost (`UpdateAfterDeleteIsNoOp`, `DeleteWhileEditing`).
- The code never checks that ids are unique. An id is the clock reading at creation, and `createdAt` and `lastEdited` come from two separate clock readings. The model takes all three as parameters and claims neither uniqueness nor `createdAt == lastEdited`.
- The start-up load at notes.js:4 throws on malformed JSON. It does not fall back to an empty collection. The model takes the already-decoded collection as the constructor's argument.

## Model

| member | source | states |
|---|---|---|
| `JsString.IsWhitespace` | notes.js:42-43 | no contract of its own: the set of characters `trim` removes; `JsString.Trim` and `JsString.TrimIdempotent` state what trimming does with it |
| `JsString.TrimStart` | notes.js:42-43 | the result is a suffix of the input, everything dropped is white space, and the result does not start with white space |
| `JsString.TrimEnd` | notes.js:42-43 | the result is a prefix of the input, everything dropped is white space, and the result does not end with white space |
| `JsString.Trim` | notes.js:42-43 | the result is the input with leading and trailing white space removed: a contiguous slice with only white space before and after it; it is empty exactly when the input is all white space, and otherwise neither starts nor ends with white space |
| `JsString.TrimIdempotent` | notes.js:42-43 | trimming an already trimmed string changes nothing |
| `JsString.ToLowerCaseIdempotent` | notes.js:71 | lowercasing twice is lowercasing once, and the result holds no upper-case ASCII letter |
| `JsString.ToLowerCase` | notes.js:71 | no contract of its own: lowercases each ASCII letter; `JsString.ToLowerCaseIdempotent` and `Notes.SearchIgnoresCase` state its behaviour |
| `JsString.Includes` | notes.js:160-161 | no contract of its own: `includes` as a scan over start positions; `JsString.IncludesIffOccurs` and `JsString.IncludesEmpty` state its meaning |
| `JsString.IncludesIffOccurs` | notes.js:160-161 | `includes(s, t)` holds exactly when `t` occurs in `s` at some index |
| `JsString.IncludesEmpty` | notes.js:158 | every string includes the empty string |
| `JsString.ReplaceAll` | notes.js:205-209 | after a global replacement of `c` by a string without `c`, the result holds no `c` |
| `JsString.ReplaceAllAppend` | notes.js:205-209 | replacing a concatenation equals concatenating the replaced parts |
| `JsString.ReplaceAllAbsent` | notes.js:205-209 | a string that does not contain the character is left unchanged |
| `JsString.ReplaceAllSingle` | notes.js:205-209 | on a one-character string, replacing yields the replacement text or the character itself |
| `JsArray.Filter` | notes.js:128 | the result is no longer than the input and holds exactly the input elements the callback accepts |
| `JsArray.FilterIsSubsequence` | notes.js:159-162 | the filtered array keeps the original order |
| `JsArray.FilterMultiplicity` | notes.js:159-162 | an accepted element occurs in the result as often as in the input; a rejected one does not occur |
| `JsArray.FilterKeepsAll` | notes.js:128 | when the callback accepts every element, the result equals the input |
| `JsArray.FindIndex` | notes.js:140 | the index is that of the first accepted element, or the length when no element is accepted |
| `JsArray.Find` | notes.js:140 | the result is nothing exactly when no element is accepted; otherwise it is the first accepted element of the array |
| `Escaping.EscapeHtml` | notes.js:203-209 | no contract of its own: the five global replacements in source order; `Escaping.EscapeHtmlIsPerCharacter`, `Escaping.EscapeHtmlIsSafe`, `Escaping.UnescapeEscapeHtml` and `Escaping.EscapeHtmlInjective` state its behaviour |
| `Escaping.EscapeEach` | notes.js:203-209 | the per-character substitution never yields `<`, `>`, `"` or `'` and never shortens the text |
| `Escaping.EscapeHtmlAppend` | notes.js:203-209 | the replacement chain distributes over concatenation |
| `Escaping.EscapeHtmlChar` | notes.js:205-209 | on one character the chain yields that character's entity; a later step never rewrites an earlier entity |
| `Escaping.EscapeHtmlIsPerCharacter` | notes.js:203-209 | because `&` is replaced first, the chain equals the per-character substitution |
| `Escaping.EscapeHtmlIsSafe` | notes.js:202-209 | escaped text holds no `<`, `>`, `"` or `'` |
| `Escaping.EscapeHtmlKeepsPlainText` | notes.js:203-209 | text without the five special characters comes out unchanged |
| `Escaping.UnescapeEscapeHtml` | notes.js:167-172 | decoding the five entities gives back exactly the stored (trimmed) title or content that was escaped |
| `Escaping.EscapeHtmlInjective` | notes.js:203-209 | two different texts never escape to the same markup |
| `Notes.NewNote` | notes.js:80-90 | no contract of its own: the note record built by `addNote`, with id and times as parameters; `NoteStore.Store.AddNote` and `Notes.AddKeepsFilled` state how it enters the collection |
| `Notes.AddKeepsFilled` | notes.js:46-59 | adding a note with a non-empty title and content keeps every note's title and content non-empty, keeps every old note with all its copies and adds exactly that one note |
| `Notes.Edited` | notes.js:100-114 | no contract of its own: the spread copy with new title, content and edit time; `Notes.UpdateNotes` states what it keeps and what it replaces |
| `Notes.UpdateNotes` | notes.js:99-115 | the length is kept; a note with another id is unchanged; a note with the id keeps its id and createdAt and gets the new title, content and edit time |
| `Notes.UpdateKeepsIds` | notes.js:99-115 | updating never moves, adds or drops a note: the sequence of ids is unchanged |
| `Notes.UpdateMissingIdIsNoOp` | notes.js:99-115 | when no note carries the id, the collection is unchanged |
| `Notes.UpdateKeepsFilled` | notes.js:46-55 | an update with a non-empty title and content keeps every note's title and content non-empty |
| `Notes.WithoutId` | notes.js:128 | no contract of its own: the filter that drops the id; `Notes.DeleteRemovesExactlyId` and `Notes.DeleteMissingIdIsNoOp` state its behaviour |
| `Notes.DeleteRemovesExactlyId` | notes.js:128 | no note with the id remains; every other note keeps all its copies in the original order; nothing is added |
| `Notes.DeleteMissingIdIsNoOp` | notes.js:128 | deleting an id no note carries leaves the collection unchanged |
| `Notes.UpdateAfterDeleteIsNoOp` | notes.js:52-55 | updating an id right after deleting it leaves the collection as the delete left it |
| `Notes.FindNote` | notes.js:140 | a note is found exactly when some note carries the id, and the found note is in the collection and carries the id |
| `Notes.FindNoteIsFirst` | notes.js:140 | the note found is the first one that carries the id |
| `Notes.MatchesSearch` | notes.js:159-162 | no contract of its own: the filter callback, the lowercased title or content includes the term; `Notes.SearchMembership` states its meaning |
| `Notes.FilterNotes` | notes.js:158-162 | no contract of its own: `renderNotes`'s filter over an already lowercased term; `Notes.EmptySearchListsAll` states the default-term case |
| `Notes.SearchNotes` | notes.js:70-74 | no contract of its own: `handleSearch` lowercasing the typed term and filtering with it; `Notes.SearchMembership`, `Notes.SearchKeepsOrder` and `Notes.SearchIgnoresCase` state its behaviour |
| `Notes.SearchMembership` | notes.js:158-162 | a note is listed exactly when it is stored and the typed term occurs in its title or content, ignoring case |
| `Notes.SearchKeepsOrder` | notes.js:158-162 | the listed notes keep collection order, and a matching note appears as often as it is stored |
| `Notes.EmptySearchListsAll` | notes.js:158 | an empty term lists every note in collection order |
| `Notes.SearchIgnoresCase` | notes.js:71 | two terms that lowercase alike list the same notes |
| `NoteStore.IsEditing` | notes.js:52 | no contract of its own: the truthiness test on the edit target, so id 0 counts as not editing; `NoteStore.Store.HandleSubmit` states which branch follows |
| `NoteStore.ValidInput` | notes.js:42-46 | no contract of its own: both trimmed fields non-empty; `NoteStore.Store.HandleSubmit` states that input is accepted exactly when it holds |
| `NoteStore.Store.constructor` | notes.js:4-7 | starts with the stored collection and no edit target, with storage in agreement |
| `NoteStore.Store.SaveToLocalStorage` | notes.js:196-200 | afterwards storage holds the collection in memory |
| `NoteStore.Store.AddNote` | notes.js:79-95 | the collection becomes the new note followed by the old collection, and storage agrees with it |
| `NoteStore.Store.UpdateNote` | notes.js:98-121 | the collection becomes the mapped update, which is unchanged when the id is missing; storage agrees and the edit target is cleared |
| `NoteStore.Store.DeleteNote` | notes.js:124-134 | without confirmation nothing changes; with it the collection loses every note with the id and storage agrees |
| `NoteStore.Store.EditNote` | notes.js:137-154 | returns the first note with the id; the edit target becomes the id exactly when such a note exists and is unchanged otherwise |
| `NoteStore.Store.ResetForm` | notes.js:182-193 | afterwards there is no edit target |
| `NoteStore.Store.HandleSubmit` | notes.js:39-67 | rejects input whose trimmed title or content is empty and changes nothing then; otherwise updates the edit target when it is truthy and adds a new note when it is not, then clears the edit target; storage agrees afterwards, and stored notes stay filled |

## Left out

- The page itself is not modelled: element lookups, `innerHTML` markup, `focus`, button labels, filling and clearing the input fields, and the event listeners (notes.js:11-16, 120, 144-152, 165-178, 185-186, 192, 215-232). `EditNote` returns the note whose text would fill the form.
- The `alert` and `confirm` dialogs (notes.js:47, 125) are not modelled. `HandleSubmit` returns whether the input was accepted, and `DeleteNote` takes the user's answer as a `bool`.
- `localStorage` and JSON encoding are not modelled (notes.js:4, 27, 32, 199). Storage is the ghost field `persisted`, and the JSON round trip is not modelled.
- Dark mode (notes.js:25-36) and `init` (notes.js:19-22) are page set-up only.
- Clock readings are not modelled (`Date.now()`, `toLocaleString()`, notes.js:83, 88-89, 109). They are method parameters.
- The calls to `renderNotes` after a change (notes.js:66, 132) are not modelled, because they only redraw. Their filtering is modelled by `SearchNotes`.
- `NoteStore.Store.UpdateNote` uses one edit time for every matching note. The code reads the clock once for each matching note, so two notes with the same id could get different times.
- `JsString.ToLowerCaseIdempotent` and every search lemma rely on `ToLowerCase`, which lowers ASCII letters only. JavaScript's `toLowerCase` follows full Unicode case mapping.
- `JsString.Trim` strips only the white space listed in `IsWhitespace`: tab, line feed, vertical tab, form feed, carriage return, space, U+00A0, U+FEFF, U+2028 and U+2029. JavaScript's `trim` also strips the other Unicode space separators.
