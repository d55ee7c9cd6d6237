# Contact list controller — a Dafny model

This project models the client-side controller of a browser phone book
(`script.js`). The controller keeps a rendered list of contacts in step with a
remote REST collection (`/ContactLists`). It loads the list on page load, adds a
contact from a form, filters the list as the user types in a search box,
deletes a contact after confirmation, and edits a contact inline: begin edit,
save and cancel.

The model has four modules:

- `Text` (`text.dfy`) holds the string operations the handlers use:
  - `trim`, over the full ECMAScript WhiteSpace and LineTerminator set;
  - `toLowerCase` and `toUpperCase`, on ASCII letters;
  - the capitalise-first-letter transform used on cancel;
  - `includes`, as "there is an index where the term occurs".
- `Contacts` (`contacts.dfy`) holds the values the controller works with and
  the pure rules behind the handlers:
  - the values: server records, rows, row modes, the placeholder;
  - input validation;
  - the search predicate, the filtered list and its count, and the placeholder choice;
  - the row built by `displayContact`;
  - removal of one row;
  - the three row transitions of the inline editor.
- `Controller` (`controller.dfy`) holds the class `ContactList`. Its fields are
  the row sequence (the `<li>` children of the list), the "no contacts"
  placeholder, and the two inputs of the add form. Each event handler is a
  method that changes these fields in place. The class invariant `Valid()`
  says that every stored name is lower-case, and that the empty-state message
  is on show only when the list is empty.
- `Scenarios` (`scenarios.dfy`) holds worked examples. Each one passes concrete
  inputs to the class's methods, and its `ensures` clauses state the exact
  result, which the verifier proves from the methods' contracts.

Each network call is a parameter: `Reply<T>`, either `Failed` or
`Received(value)`. `Failed` covers transport errors and non-2xx statuses alike,
as the source does. `confirm` is a boolean parameter. Each handler that can send
a request returns it as an `Option`: `None` means no request was made. That is
how the model states that a blank field blocks the request.

A row is `Row(id, storedName, storedPhone, visible, mode)`. `mode` is
`Display(shownName, shownPhone)` or `Editing(draftName, draftPhone)`. The stored
fields are the `data-id`, `data-name` and `data-phone` attributes, and
`visible` is the row's `style.display`.

Three behaviours of the code worth noting:

- Cancel rebuilds the card from the stored, lower-cased name, with its first
  letter upper-cased. So beginning an edit and then cancelling it does not
  always restore what the card showed: "McDonald" comes back as "Mcdonald".
  The card comes back unchanged only when it already showed the capitalised
  stored name and the stored phone (`Contacts.BeginEditThenCancel`,
  `Scenarios.CancelShowsCapitalisedStoredName`).
- A row mounted after a search is visible whatever the search term is, since
  `displayContact` never consults the search box (`Contacts.RowFor`).
- A search over an empty list shows the empty-state message. A search that
  hides the placeholder keeps its old text (`Contacts.SearchPlaceholder`).

## Model

| member | source | states |
|---|---|---|
| `Text.ToLower` | script.js:72 | `toLowerCase` on ASCII letters, applied character by character; its properties are stated by `Text.ToLowerIsLower` and `Text.ToLowerIdempotent` |
| `Text.Capitalize` | script.js:270 | upper-cases the first character and keeps the rest; the empty string stays empty; `Text.CapitalizeLowerRoundTrip` states its round trip |
| `Text.Contains` | script.js:109 | `includes`: some index of `s` starts an occurrence of `t`; `Text.ContainsEmpty` covers the empty term |
| `Contacts.Validate` | script.js:33-40 | the add and save validation, also at script.js:201-207: the trimmed pair, or no request when either is empty; stated by `Contacts.ValidateSpec` |
| `Contacts.NormalizeTerm` | script.js:100 | the search term is the input lower-cased and then trimmed; stated by `Contacts.NormalizeTermIdempotent` and `Contacts.NormalizeIgnoresCase` |
| `Contacts.RowMatches` | script.js:109 | a row matches when its stored name or its stored phone includes the term |
| `Contacts.ApplyFilter` | script.js:105-115 | every row, in order, with its visibility set from `RowMatches`; stated by `Contacts.FilterKeepsRows` |
| `Contacts.PlaceholderAfterSearch` | script.js:118-126 | the three-way placeholder choice after a search; stated by `Contacts.SearchPlaceholder` |
| `Contacts.RowFor` | script.js:66-73 | the row `displayContact` builds; stated by `Contacts.RowForIndexesRecord` |
| `Contacts.RowsFor` | script.js:22 | one row per server record, in server order; stated by `Contacts.RowsForAppend` |
| `Contacts.BeginEditRow` | script.js:170-182 | the card becomes two inputs pre-filled with the shown name and phone; stated with cancel by `Contacts.BeginEditThenCancel` |
| `Contacts.SaveRow` | script.js:223-236 | the row re-synced from the server's record; stated by `Contacts.SaveResyncs` |
| `Contacts.CancelRow` | script.js:258-271 | the card rebuilt from the stored attributes with the name capitalised; stated by `Contacts.CancelRestoresStored` |
| `Text.Trim` | script.js:33-34 | the result is `s` with leading and trailing white space removed: it is a contiguous slice of `s`, everything outside it is white space, and it neither starts nor ends with white space |
| `Text.TrimmedUnique` | script.js:33-34 | that description of a trimmed string admits exactly one result, so `Trim` is determined by it |
| `Text.TrimIdempotent` | script.js:204 | trimming an already trimmed value changes nothing |
| `Text.TrimEmptyIffBlank` | script.js:37 | a value trims to the empty string exactly when it consists only of white space |
| `Text.ToLowerIsLower` | script.js:72 | lower-casing keeps the length and leaves no upper-case ASCII letter; a string is lower-case exactly when lower-casing leaves it unchanged |
| `Text.ToLowerIdempotent` | script.js:100 | lower-casing twice is lower-casing once |
| `Text.CapitalizeLowerRoundTrip` | script.js:270 | capitalising a lower-case stored name keeps its length, and lower-casing the result gives the stored name back |
| `Text.ContainsEmpty` | script.js:109 | every string includes the empty term |
| `Contacts.ValidateSpec` | script.js:32-40 | validation passes exactly when neither field is all white space; it then yields both fields trimmed, non-empty and unchanged by a further trim |
| `Contacts.NormalizeIgnoresCase` | script.js:100 | the search term is the same whatever the letter case of the typed input |
| `Contacts.NormalizeTermIdempotent` | script.js:100 | the normalised term is lower-case and normalising it again changes nothing |
| `Contacts.CountMatching` | script.js:103-115 | the number of matching rows never exceeds the number of rows |
| `Contacts.CountMatchingExtremes` | script.js:118-126 | the count is 0 exactly when no row matches, and equals the row count exactly when every row matches |
| `Contacts.FilterKeepsRows` | script.js:105-115 | a search keeps the same rows in the same order and changes only visibility; a row is visible exactly when its stored name or stored phone includes the term |
| `Contacts.FilterCountAgrees` | script.js:103-115 | the count kept by the loop equals the number of rows the search leaves visible |
| `Contacts.EmptyTermShowsAll` | script.js:100-115 | an empty term makes every row visible and the count equals the number of rows |
| `Contacts.SearchPlaceholder` | script.js:118-126 | after a search the placeholder shows the empty-state message when there are no rows, and the no-match message when rows exist but none matches; when one row matches it is hidden with its old text; it is shown exactly when no row is visible |
| `Contacts.RowsForAppend` | script.js:18-22 | the rows for a server list split in two parts are the rows of the first part followed by those of the second, ids in server order; this is the step `Load` takes for each mounted record |
| `Contacts.RowForIndexesRecord` | script.js:66-73 | a mounted row keeps the record's id and phone, stores the lower-cased name, is visible, and shows the record's name and phone as the page reads them back (see the note on HTML-special characters under Left out) |
| `Contacts.RemoveAt` | script.js:148 | removing a row drops exactly that row (as a multiset) and keeps the rows before and after it in order |
| `Contacts.SaveResyncs` | script.js:220-236 | a save keeps the row's id and visibility, stores the lower-cased server name and the server phone, and shows the server's name and phone rather than the drafts |
| `Contacts.CancelRestoresStored` | script.js:257-271 | cancel keeps id, stored attributes and visibility; it shows the stored phone and a name that lower-cases back to the stored name |
| `Contacts.BeginEditThenCancel` | script.js:258-270 | beginning an edit and cancelling it restores the row exactly when the card showed the capitalised stored name and the stored phone |
| `Controller.ContactList.constructor` | script.js:5-8 | the controller starts with no rows, an empty form and the page's initial placeholder |
| `Controller.ContactList.EnterForm` | script.js:33-34 | typing into the add form changes only the form inputs |
| `Controller.ContactList.Mount` | script.js:66-96 | `displayContact` appends exactly one row for the record at the end and hides the placeholder; earlier rows and the form are unchanged |
| `Controller.ContactList.Load` | script.js:13-26 | a failed load changes nothing; a successful load appends the server's records in server order; an empty list leaves the placeholder untouched, and a non-empty one hides it |
| `Controller.ContactList.Add` | script.js:29-63 | the request is the validated, trimmed pair, or none when a field is blank; a blocked or failed add changes nothing, not even the form; a successful one clears the form, hides the placeholder and appends the server's record |
| `Controller.ContactList.Search` | script.js:99-127 | after a search every row's visibility is recomputed from the lower-cased, trimmed term, and the returned count is the number of matching rows, which equals the number of visible rows; the placeholder follows `PlaceholderAfterSearch`; the form is unchanged |
| `Controller.ContactList.ShowMatching` | script.js:101-115 | the loop leaves the rows filtered by the term and returns the number of matching rows, which equals the number it left visible |
| `Controller.ContactList.Delete` | script.js:132-161 | for a displayed row (only its card has the delete button): without confirmation nothing is sent and nothing changes; otherwise the row's id is sent; on failure nothing changes; on success exactly that row is removed, and the empty-state message is on show exactly when the list is now empty (the class invariant keeps it from being on show over a non-empty list) |
| `Controller.ContactList.BeginEdit` | script.js:164-195 | a displayed row switches to editing with drafts pre-filled from the name and phone it showed; nothing else changes |
| `Controller.ContactList.EditDraft` | script.js:181-182 | typing into a row's edit inputs changes only that row's drafts |
| `Controller.ContactList.Save` | script.js:198-252 | the request is the row's id with the trimmed drafts, or none when a draft is blank; a blocked or failed save leaves every row as it was, including this row's edit mode and drafts; a successful save re-syncs only that row from the server's record |
| `Controller.ContactList.Cancel` | script.js:255-281 | only that row changes: it returns to display mode, rebuilt from its stored attributes; because every stored name is lower-case (the class invariant), the shown name lower-cases back to the stored name and the shown phone is the stored phone |
| `Scenarios.AdaValidates` | script.js:33-40 | the add form's " Ada " / "123" passes validation as the trimmed pair "Ada" / "123" |
| `Scenarios.BoValidates` | script.js:201-207 | the drafts "Bo " / "555" pass validation as the trimmed pair "Bo" / "555" |
| `Scenarios.AddRoundTrip` | script.js:29-58 | submitting " Ada " / "123" sends the trimmed "Ada" / "123"; the server's record with id "7" then yields exactly one row indexed by "7", "ada" and "123", and the form is cleared |
| `Scenarios.AddBlankName` | script.js:37-40 | a blank name sends no request, adds no row and leaves the form as typed |
| `Scenarios.SearchAdaBob` | script.js:99-115 | with "Ada" and "Bob", typing "A" shows Ada and hides Bob (count 1); clearing the search shows both (count 2) |
| `Scenarios.DeleteLastAndNotLast` | script.js:148-154 | deleting the only row shows the empty-state message; deleting one of two rows does not, and the other row remains |
| `Scenarios.SaveBlockedOrFailed` | script.js:201-251 | a blank draft sends nothing; a failed update sends the trimmed drafts and leaves the row editing with the typed drafts |
| `Scenarios.CancelShowsCapitalisedStoredName` | script.js:257-271 | a contact mounted as "McDonald" shows "Mcdonald" after an edit is cancelled |

## Left out

- `fetch`, JSON encoding and decoding, the endpoint URL and HTTP statuses: each request is a `Reply` parameter, and every failure is one `Failed` case, as in the source.
- Images, CSS classes, `focus()`, `console.error` and `alert` are left out: they are presentation and diagnostics only. A row's card is reduced to its mode and the texts it shows.
- HTML parsing of the card markup is not modelled. The cards are built by inserting names and phones into `innerHTML` templates (script.js:83, 170-182, 235-236, 270). The model assumes that names and phones contain no HTML-special characters (`"`, `<`, `&`), so the text a card shows and the value an edit input is pre-filled with equal the inserted string. For other strings they differ from the record: for example, a name `A"B` pre-fills the edit input with `A`, and saving without retyping then sends "A".
- `confirm` is a boolean parameter of `Delete`.
- Interleaving of handlers that await network replies: each handler is one atomic step.
- Unicode case mapping: `toLowerCase` and `toUpperCase` are modelled on the ASCII letters only, and other characters are left unchanged. Strings are sequences of Unicode scalar values rather than UTF-16 code units.
- The page's initial markup is not part of this model: the placeholder's initial state is a constructor parameter, and `contactForm.reset()` is taken to restore empty inputs.
- `hasChildNodes` at script.js:151 is modelled as "the row sequence is empty". Whitespace text nodes in the list's markup are not modelled.
- Which row a click lands on is an index parameter. The delete, edit, save and cancel handlers require the row to be in the mode that offers that button, since only that mode's markup contains it: delete and edit need a displayed row, and save and cancel need an editing row.
- `Controller.ContactList.ShowMatching` rewrites each row's visibility in a local copy of the row sequence and assigns it back once the loop ends. Nothing else runs in between, so the final state is the one the in-place loop reaches.
