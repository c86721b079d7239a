# Library manager catalog, modelled in Dafny

The library manager is a single-page book catalog. It keeps a list of book
records `{id, title, author, year}` in memory and writes the list through to
browser storage after every change. Its handlers add and edit records from a
form, delete records, clear the catalog, filter the table by a search text,
and export and import the catalog as JSON. All of this lives in `js/app.js`.

This project restates those handlers as pure functions over immutable values:

- `Text`: `trim` with the full ECMAScript whitespace set, `toLowerCase` on ASCII letters, and `includes`.
- `Html`: `escapeHtml` as three global replacements, plus a per-character reference definition.
- `Seqs`: `Array.prototype.filter`, proved to be an order-preserving selection.
- `Books`: the record type, the search view, the `findIndex` update of the first match and the delete of every match.
- `Transfer`: the export snapshot and the all-or-nothing import.
- `App`: the page as a state machine. The state holds the catalog, the copy in storage (`stored`) and the form mode `Idle | Editing(id)`, which stands for the `data-edit-id` attribute. It also holds the invariant that every reachable state keeps.
- `Flows`: sequences of actions composed from the handlers.

The clock (`Date.now().toString(36)`) is a parameter. A submit takes the id
it would stamp. An import takes a function from item position to the clock
reading, because `Date.now()` is read once for each item without a truthy id. Confirm
dialogs are a `confirmed` argument.

## Model

| member | source | states |
|---|---|---|
| Text.Trim | js/app.js:44-46 | the trimmed field is a slice of the input; everything cut away is JavaScript whitespace; the result neither starts nor ends with whitespace |
| Text.TrimEmptyIff | js/app.js:47 | a field counts as missing exactly when every character of it is whitespace |
| Text.TrimIdempotent | js/app.js:44-46 | trimming an already trimmed field changes nothing |
| Text.LowerConcat | js/app.js:27 | lower-casing `title + ' ' + author` is the concatenation of the lower-cased parts |
| Text.Lower | js/app.js:27 | `toLowerCase` keeps the length and maps each character on its own: `A`-`Z` become `a`-`z`, every other character is kept |
| Text.Contains | js/app.js:27 | the empty needle is always found; a found needle is no longer than the text; a needle that is a prefix of the text is found |
| Text.ContainsIffOccurs | js/app.js:27 | `includes` is true exactly when the needle occurs at some offset; the empty needle always occurs |
| Html.ReplaceAll | js/app.js:23 | a global replace leaves no occurrence of the replaced character when the replacement lacks it, and adds no other character |
| Html.EscapeHtml | js/app.js:23 | escaped text contains no `<` and no `>` |
| Html.EscapeHtmlIsCharwise | js/app.js:23 | the three ordered replacements equal the single per-character mapping `&`→`&amp;`, `<`→`&lt;`, `>`→`&gt;`, everything else unchanged |
| Html.UnescapeEscapeHtml | js/app.js:23 | decoding the escaped text gives back the original string, so escaping loses nothing |
| Seqs.FilterMembers | js/app.js:27 | an element survives `filter` exactly when it is in the input and satisfies the callback |
| Books.Visible | js/app.js:27 | a record is shown iff lower(title + " " + author) contains lower(filter); the empty filter shows the whole catalog |
| Books.VisibleInOrder | js/app.js:27 | the shown rows are the matching records in catalog order, each exactly once |
| Books.MatchesByField | js/app.js:27 | a record whose title or author alone contains the filter, ignoring ASCII case, is shown |
| Books.FindIndex | js/app.js:51 | returns the first position holding the id, or none exactly when no record has it |
| Books.UpdateFirst | js/app.js:51-52 | overwrites title, author and year of only the first record with the id; ids, length and all other records stay; an absent id changes nothing |
| Books.Remove | js/app.js:66 | keeps exactly the records whose id differs, so none with the id is left; an absent id changes nothing |
| Books.RemoveInOrder | js/app.js:66 | the surviving records keep their original order |
| Books.RemoveUndoesAppend | js/app.js:56-66 | deleting the id of a record just appended with an unused id restores the catalog |
| Books.RemoveIdempotent | js/app.js:66 | deleting the same id twice equals deleting it once |
| Books.DuplicateIdsDiverge | js/app.js:51-66 | with a repeated id, update leaves the later duplicate untouched while delete removes it |
| Transfer.CheckItems | js/app.js:88 | the shape check passes iff every item has a truthy title and a truthy author |
| Transfer.Export | js/app.js:75 | the snapshot has one item per record of the full catalog, in order, carrying all four fields |
| Transfer.Import | js/app.js:85-89 | parse failure, a non-array and an invalid item are refused with their own error; otherwise item i becomes record i with title, author and year copied and the id kept when truthy, else clock reading i |
| Transfer.ExportImportRoundTrip | js/app.js:75-89 | importing an export returns the same catalog when ids, titles and authors are non-empty |
| Transfer.ExportImportAccepted | js/app.js:75-88 | an export is accepted back exactly when no record has an empty title or author |
| Transfer.ImportWellFormed | js/app.js:88-89 | an accepted import yields records with non-empty id, title and author when the clock never reads as empty |
| App.Load | js/app.js:4 | at startup the in-memory catalog is exactly what storage held, storage is unchanged, and the form is not editing |
| App.Save | js/app.js:20 | after a save, storage holds exactly the new catalog |
| App.Submit | js/app.js:44-59 | empty trimmed title or author: state and mode unchanged; editing: first match updated with trimmed fields and its id kept, absent id leaves the catalog, mode returns to Idle; idle: trimmed record appended after unchanged earlier records; storage equals memory after every save |
| App.StartEdit | js/app.js:67 | enters `Editing(id)` only when a record has the id, otherwise the state is unchanged; the catalog is never touched |
| App.CancelEdit | js/app.js:95 | returns to Idle and leaves catalog and storage unchanged |
| App.DeleteBook | js/app.js:66 | when confirmed, the catalog becomes `Books.Remove` of it, i.e. the records with another id in their original order, and it is saved and the mode kept; when declined, nothing changes |
| App.ClearAll | js/app.js:71 | when confirmed, the catalog and storage are both empty; when declined, nothing changes |
| App.ImportBooks | js/app.js:84-91 | a refused payload leaves the whole state as it was and reports the error; an accepted one replaces the catalog and storage with the import |
| App.StepKeepsGood | js/app.js:38-95 | every handler keeps storage equal to memory, all records with non-empty id, title and author, and an edit id non-empty |
| App.RunKeepsGood | js/app.js:38-95 | the same holds after any sequence of user actions |
| App.ReachableRoundTrip | js/app.js:74-90 | from well-formed storage, after any actions, storage equals memory and import of the export gives the catalog back |
| Flows.AddThenDelete | js/app.js:56-66 | adding a record with an unused id and then deleting that id restores the catalog |
| Flows.EditThenSubmit | js/app.js:49-67 | edit then a valid submit rewrites that record in place with the trimmed fields, keeps its id and position, saves, and ends idle |
| Flows.EditOfEmptyIdAppends | js/app.js:49-58 | an edit id equal to the empty string is falsy, so the submit appends a new record and the form stays in edit mode |
| Flows.DeleteWhileEditing | js/app.js:50-53 | deleting the record being edited and then submitting leaves the catalog unchanged, shows no toast and ends idle |
| Flows.SearchIgnoresCase | js/app.js:27 | in any catalog holding "Smithsonian Guide", the search "smith" shows that record |

## Behaviour of the code worth knowing

- Ids are not unique. An added record gets `Date.now()` with no collision check. Id-less items read within the same millisecond of one import share an id. Imported ids are taken as they are. So the model states no uniqueness invariant. Update changes only the first record with an id, and delete removes every record with it.
- Updating an id that no longer exists is not an error. The catalog stays as it is, it is still saved, the form returns to Idle, and no toast is shown. This happens, for example, when the record being edited was deleted, since delete, clear and import leave the mode alone.
- The import check is JavaScript truthiness, not trimmed emptiness. A title of blanks is accepted, and imported fields are not trimmed.
- The submit handler tests `if(idField)`. An edit id equal to the empty string therefore takes the add path and leaves the mode as `Editing("")`. The invariant `App.Good` shows that this cannot happen from well-formed storage.

## Left out

- DOM and presentation: element lookup and the missing-element early returns (lines 6-18, 40-43), table building, toasts and their timers, prefilling the form on edit, and resetting it. `Notice` records which toast or alert a handler ends with.
- Storage and JSON: `localStorage` is the `stored` field. `JSON.stringify` and `JSON.parse` are not modelled: export yields items, and import starts from a parsed `Payload`. The unguarded startup parse (line 4) is `App.Load` of an already-parsed catalog.
- File download and upload: the Blob, the object URL, `f.text()` and resetting the input (lines 75-78, 83-85, 92).
- The search box's current text: the view `Books.Visible` takes the filter as an argument.
- App.Save: storage writes are assumed to succeed. `localStorage.setItem` (line 20) can throw, for example when the quota is exceeded, and the model does not cover that case. In the code, a failing import has then already replaced `books` when the catch reports "Import failed" (lines 89-91). A failing submit or delete has already changed the in-memory catalog but not storage, and the table is not re-rendered (lines 52, 56, 59, 66).
- App.StartEdit and App.DeleteBook take the record's id as the button's id. The table writes `data-id="${b.id}"` without escaping (lines 31-32), and the handler reads `btn.dataset.id` (line 65). So the two agree exactly when HTML attribute parsing leaves the id unchanged: no `"`, no `&` that starts a character reference such as `&amp;` or `&lt`, no carriage return (read back as a line feed) and no NUL (read back as U+FFFD). An imported id such as `a&amp;b` arrives as `a&b`: delete then removes nothing but still saves and shows "Deleted", and edit does nothing. `Flows.EditThenSubmit` relies on the same assumption.
- Text.Lower: models `toLowerCase` on ASCII letters only. Other characters are left unchanged rather than following Unicode case mapping.
- Transfer.Import: an item's properties are strings or absent. Other JSON values are not modelled: numbers, booleans, nested objects, and `null` items that make `x.title` throw.
