# Employee records engine: a Dafny model

This project models the client-side record engine of a Lit employee-management UI:

- the form's validators (required, e-mail shape, phone shape), the per-field dispatch `validateField` and the whole-form pass `validateForm`;
- the add/edit form as a state machine: `open`, `handleInputChange`, `handleSubmit`, `handleClose`;
- the list's filter (case-insensitive search on first name, last name or e-mail, AND exact department; the page never wires up the department control, see Left out), page slicing (`Array.prototype.slice`, negative indices included), the page count and the pagination controls, the page-reset rules, and the pending-delete state behind the confirmation modal;
- the application's collection operations `addEmployee`, `updateEmployee`, `deleteEmployee`, the integer part of `getEmployeeStats`, and the handlers that wire the form and the list to the collection (the add handler as defined; the page never triggers it, see Left out);
- the localization manager:
  - `t` and its fallback chain (current language, then English, then the key itself);
  - `{placeholder}` substitution;
  - `setLanguage`, browser-language detection;
  - the listener registry;
  - the department catalogue.

Everything is a pure function over immutable values. A record is `Records.Employee`: an integer id, three present strings (first name, last name, e-mail) and five optional strings. Form data is a `map<string, string>`. Validation errors are tags (`Required(field)` / `Invalid(field)`); their shown text is the translation of a key (`Validation.ErrorKey`). A handler that dispatches DOM events returns the events, in dispatch order, beside its new state.

The clock, the random source, browser storage and `navigator.language` are not read. They enter as parameters:

- the id a new record gets from the application (`freshId`);
- the id the form gives a new record (`now`);
- the stored language;
- the browser's language string.

The two regular expressions of the form are stated twice:

- declaratively, as how the string splits (`Validation.EmailShape`, `Validation.PhoneShape`);
- as the scanning checkers the validator runs (`Validation.MatchEmail`, `Validation.MatchPhone`).

Lemmas prove each pair equivalent.

Modules, one per file: `Wrappers`, `Seqs` (subsequences, filter, duplicates), `Text` (ECMAScript whitespace, `trim`, ASCII `toLowerCase`, `includes`, global `replace`), `Records`, `Validation`, `FormController` (employee-form.js), `Filtering`, `Pagination`, `ListController` (employee-list.js), `Store`, `App` (employee-app.js), `I18n` (i18n.js).

## Model

| member | source | states |
|---|---|---|
| Text.Trim | employee-form.js:20-22 | the trimmed value is a contiguous piece of the input with only whitespace cut from both ends; it starts and ends with a non-space, and it is empty exactly when the input is all whitespace |
| Text.Lower | employee-list.js:18-20 | lower-casing keeps the length and maps each character on its own (ASCII letters only) |
| Text.LowerIdempotent | employee-list.js:18-20 | lower-casing an already lower-cased string changes nothing |
| Text.IncludesIsContains | employee-list.js:18-20 | the scanning `includes` holds exactly when the needle occurs at some index of the haystack |
| Text.ReplaceAllLength | i18n.js:239-241 | a global replace changes the length by the number of occurrences times the difference between value and pattern lengths |
| Text.ReplaceAllAbsent | i18n.js:239-241 | a global replace of a pattern that does not occur returns the text unchanged |
| Text.ReplaceAllSelf | i18n.js:239-241 | replacing a pattern by itself returns the text unchanged |
| Validation.ValidateRequired | employee-form.js:20-22 | a value passes exactly when some character is not whitespace, so the empty string fails |
| Validation.EmailShapeOfParts | employee-form.js:10-13 | any three non-empty parts free of whitespace and `@`, joined as `a@b.c`, have the e-mail shape |
| Validation.MatchEmailIsShape | employee-form.js:10-13 | the e-mail checker accepts exactly the strings `a@b.c` with a, b, c non-empty and free of whitespace and `@` |
| Validation.MatchPhoneIsShape | employee-form.js:15-18 | the phone checker accepts exactly an optional `+` followed by at least 10 digits, whitespace, `-`, `(` or `)` |
| Validation.CheckFormat | employee-form.js:37-42 | for e-mail and phone, a blank value gives Required and never Invalid; Invalid comes only for a non-blank value that fails the format check |
| Validation.ValidateField | employee-form.js:27-50 | an unknown field never fails; a known field is Required exactly when blank; Invalid is given exactly to a non-blank e-mail outside the e-mail shape or a non-blank phone outside the phone shape |
| Validation.ValidateForm | employee-form.js:52-59 | the result's keys are exactly the form's fields whose check fails, each with that field's error; only known fields can appear |
| Validation.CollectErrorsFold | employee-form.js:54-57 | the `forEach` over distinct keys adds to the accumulator exactly the failing fields among those keys |
| Validation.ValidateFormOrderIndependent | employee-form.js:52-59 | whatever order the form's keys are enumerated in, the `forEach` builds the same error map |
| Validation.ErrorMessage | i18n.js:235-236 | the shown error text is never empty, and it is the key itself when neither table has it |
| FormController.InitialFormData | employee-form.js:325-334 | the initial data has exactly the eight form fields, all empty |
| FormController.Construct | employee-form.js:293-316 | the constructor builds a form exactly when the localization manager has `getDepartments`, `getPositions`, `getLanguage` and `addListener`, each of which it calls; a missing one throws; a built form is the initial one |
| FormController.ConstructorThrows | employee-form.js:300 | as written, the manager has no `getPositions`, so the constructor throws and there is no form |
| FormController.InitialForm | employee-form.js:293-302 | as intended, the constructed form is closed, not editing, holds all eight fields, all empty, and has no errors |
| FormController.Open | employee-form.js:387-408 | opening sets edit mode exactly when an employee is given, clears errors, and fills the eight fields from the employee (a missing field as empty) or else all empty |
| FormController.HandleInputChange | employee-form.js:337-350 | only the edited field's value changes; a shown error on that field is cleared and every other error is kept |
| FormController.HandleClose | employee-form.js:376-385 | closing resets the data to the eight empty fields, clears errors, and dispatches exactly the form-closed event |
| FormController.HandleSubmit | employee-form.js:352-374 | with errors, nothing is dispatched and only the errors change; without, exactly one created or updated event (an edit keeps the record's id) is dispatched, followed by form-closed, and the form is closed and reset with the edited record kept |
| FormController.SubmitShowsFailingFields | employee-form.js:352-357 | after a submission the form shows an error on exactly the fields that fail validation, each with that field's error, and none when it is accepted |
| FormController.SubmitAcceptedIffAllFieldsValid | employee-form.js:352-374 | a submission commits exactly when every field of the form validates |
| FormController.TransitionsKeepFormShape | employee-form.js:337-408 | open, input change and close keep all eight fields present |
| FormController.SubmitKeepsFormShape | employee-form.js:352-385 | submission keeps all eight fields present |
| FormController.SubmitCommitsFormData | employee-form.js:362-370 | a committed event carries the form's data as it stood at submission |
| FormController.RecordOf | employee-form.js:362-365 | the record a committed event stands for has the event's id and every one of the form's eight fields, the optional ones as present |
| FormController.OpenThenRecordOf | employee-form.js:387-408 | opening a record with every field present and reading the form back gives the record itself |
| FormController.UntouchedEditSubmitsSameRecord | employee-form.js:352-408 | submitting an untouched, valid edit form reports the record unchanged under its own id |
| FormController.BlankEmailRejected | employee-form.js:40-42 | a new form with only the first name filled in is rejected with Required on the e-mail, stays open and dispatches nothing |
| Filtering.FilterEmployees | employee-list.js:15-27 | the result is an order-preserving subsequence of the input keeping exactly the records that match both conditions, each with its multiplicity |
| Filtering.MatchesSearchIsSubstring | employee-list.js:17-20 | a record matches the search exactly when the term is empty or the lower-cased term is a substring of the lower-cased first name, last name or e-mail |
| Filtering.SearchIgnoresCase | employee-list.js:17-20 | a term and its lower-cased form select the same records |
| Filtering.EmptyCriteriaKeepAll | employee-list.js:15-27 | with no search term and no department filter the list is returned unchanged |
| Filtering.FilterTwiceIsOnce | employee-list.js:15-27 | filtering a filtered list again changes nothing |
| Pagination.RelativeIndex | employee-list.js:504-508 | a slice index is clamped to the length, and a negative one counts from the end |
| Pagination.PageOf | employee-list.js:504-508 | page p (p ≥ 1) of size k holds the elements from index (p-1)k up to pk, cut off at the length |
| Pagination.PageWindow | employee-list.js:504-508 | page p (p ≥ 1) of size k is the slice from (p-1)k to pk clamped to the length, and empty once (p-1)k reaches the length |
| Pagination.TotalPages | employee-list.js:510-512 | the page count is the ceiling of n/k: the smallest count whose pages hold n items, and 0 exactly when n is 0 |
| Pagination.PagesArePrefix | employee-list.js:504-512 | pages 1..c laid end to end are the first ck items of the list |
| Pagination.PagesReconstruct | employee-list.js:504-512 | pages 1..totalPages laid end to end give back the list, with nothing lost or repeated |
| Pagination.PageBeyondLastIsEmpty | employee-list.js:504-512 | a page past the last one is empty |
| Pagination.PageNonEmptyIffInRange | employee-list.js:504-512 | a page from 1 on has records exactly when it is not past the last page |
| Pagination.RenderPagination | employee-list.js:697-733 | given the item count and page count, `renderPagination` returns nothing exactly when the items fit on one page; otherwise buttons 1..totalPages, Prev disabled exactly on page 1, Next disabled exactly on the last page |
| ListController.InitialList | employee-list.js:414-431 | the list holds the given collection, starts with empty search and department filters, in table mode at 9 per page, on page 1, with no pending employee and the modal shut |
| ListController.InitialListShowsFirstPage | employee-list.js:414-431 | a fresh list shows the first 9 records of its collection, or all of them when there are fewer |
| ListController.HandleSearchChange | employee-list.js:451-454 | a new search term sends the list to page 1 and changes nothing else |
| ListController.HandleDepartmentChange | employee-list.js:456-459 | a new department filter sends the list to page 1 and changes nothing else |
| ListController.HandlePageChange | employee-list.js:461-463 | a page change sets the page and nothing else |
| ListController.HandleViewModeChange | employee-list.js:465-468 | the table mode shows 9 per page and any other mode 4; as written, the page is kept |
| ListController.ShownIffPageInRange | employee-list.js:555-565 | from page 1 on, rows are drawn exactly when the page is not past the last one, and pagination controls exactly when in addition there is more than one page |
| ListController.ViewModeChangeStrandsPage | employee-list.js:465-468 | as written, twelve matching records on page 3 at four a page, switched to the table, show no rows and no controls |
| ListController.HandleViewModeChangeFixed | employee-list.js:465-468 | as intended, the page size follows the mode and, like a search or department change, the list goes back to page 1; nothing else changes |
| ListController.FixedViewModeShowsRows | employee-list.js:465-468 | with the intended handler, a list with matching records always shows rows after a view-mode change: the first page's worth of them |
| ListController.HandleDeleteEmployee | employee-list.js:484-489 | a delete request records the employee, opens the modal for a delete with its full name, and changes nothing else |
| ListController.HandleModalConfirm | employee-list.js:491-501 | a deletion is reported exactly when the action is delete and an employee is pending, and then it is that employee; the modal always shuts and the pending employee is always cleared, and nothing else changes |
| ListController.HandleModalClose | employee-list.js:571 | cancelling shuts the modal and changes nothing else |
| ListController.ConfirmReportsAtMostOnce | employee-list.js:491-501 | a second confirmation reports nothing, so one request yields at most one deletion |
| ListController.DeleteThenConfirm | employee-list.js:484-501 | requesting a delete and confirming it reports exactly that employee |
| ListController.HandlersKeepValid | employee-list.js:451-501 | every handler, the intended view-mode handler included, keeps the page size at 9 or 4 |
| ListController.SearchShowsFirstPage | employee-list.js:451-454 | after a new search term the list shows the first page's worth of matching records |
| ListController.DepartmentShowsFirstPage | employee-list.js:456-459 | after a new department filter the list shows the first page's worth of matching records |
| Store.AddEmployee | employee-app.js:41-43 | adding appends one record under the fresh id and keeps every earlier record in place |
| Store.UpdateEmployee | employee-app.js:45-49 | updating keeps length and ids in place, replaces every record carrying the updated id and leaves the rest as they were |
| Store.DeleteEmployee | employee-app.js:51-53 | deleting keeps, in order and with their multiplicities, exactly the records with another id |
| Store.AddKeepsIdsUnique | employee-app.js:41-43 | with unique ids and a fresh id, ids stay unique after an add |
| Store.DeleteUndoesAdd | employee-app.js:41-53 | deleting the fresh id of an add gives back the collection |
| Store.UpdateAbsentIsIdentity | employee-app.js:45-49 | updating with an id no record carries changes nothing |
| Store.UpdatePresentStores | employee-app.js:45-49 | updating with a present id puts the updated record in the collection |
| Store.UpdateKeepsIdsUnique | employee-app.js:45-49 | update keeps ids unique |
| Store.UpdateIdempotent | employee-app.js:45-49 | updating twice with the same record is updating once |
| Store.DeleteIdempotent | employee-app.js:51-53 | deleting the same id twice is deleting once |
| Store.DeleteAbsentIsIdentity | employee-app.js:51-53 | deleting an absent id changes nothing |
| Store.SubsequenceKeepsIdsUnique | employee-app.js:51-53 | any subsequence of a collection with unique ids has unique ids |
| Store.DeleteKeepsIdsUnique | employee-app.js:51-53 | delete keeps ids unique |
| Store.EmployeeStats | employee-app.js:286-295 | the head count is the collection's length and the department count is the number of distinct department values, at most the head count and 0 for an empty collection |
| App.HandleAddEmployee | employee-app.js:316-319 | the handler as defined shows the form for a new record and leaves the collection untouched |
| App.HandleEditEmployee | employee-app.js:321-324 | the form is shown for the reported record and the collection is untouched |
| App.HandleFormClosed | employee-app.js:347-350 | the form is hidden, nothing is being edited and the collection is untouched |
| App.OpenForm | employee-app.js:352-362 | the form opens with no errors, in edit mode exactly when a record is being edited |
| App.HandleEmployeeCreated | employee-app.js:330-334 | the form's record is appended under the fresh id, in place of the form's own id, after the unchanged collection |
| App.HandleEmployeeUpdated | employee-app.js:336-340 | the record carrying the event's id becomes the form's record; every other record and every id stay in place |
| App.HandleEmployeeDeleted | employee-app.js:342-345 | as written, the collection is untouched |
| App.DeletedRecordStaysListed | employee-app.js:342-345 | as written, the record the list reports as deleted is still in the collection afterwards |
| App.HandleEmployeeDeletedFixed | employee-app.js:342-345 | as intended, the reported id leaves the collection and every other record stays, in order |
| App.NotificationShowsUndefined | employee-app.js:330-345 | as written, a notification whose template opens with `{name}` reads "undefined" followed by the rest of the template, whatever the record |
| App.NotificationNamesRecord | i18n.js:62-64 | as intended, such a notification opens with the record's first and last name followed by the rest of the template |
| App.CommitKeepsIdsUnique | employee-app.js:330-340 | applying a created or updated event keeps ids unique when the fresh id is new, and the form-closed event that follows leaves the collection alone |
| App.AcceptedSubmitKeepsIdsUnique | employee-form.js:352-374 | the event an accepted submission dispatches is a commit of form-shaped data, and applying it keeps ids unique |
| App.EditUpdatesInPlace | employee-app.js:336-340 | saving an edit of the k-th record replaces that record in place and leaves every other record and the size unchanged |
| App.ConfirmedDeleteRemovesRecord | employee-list.js:484-501 | request then confirm reports the record, and the intended handler removes its id and keeps every other record |
| App.CancelledDeleteKeepsCollection | employee-list.js:571 | cancelling a delete request shuts the modal and leaves the collection as it was |
| I18n.LanguagesAreEnglishAndTurkish | i18n.js:7-191 | the catalogue has a table for exactly English and Turkish |
| I18n.Entry | i18n.js:236 | a table entry is used exactly when the language and key are present and the entry is non-empty (truthy) |
| I18n.Lookup | i18n.js:236 | the translation is the current language's truthy entry, else English's, else the key itself |
| I18n.Placeholder | i18n.js:240 | the placeholder for a name is the name wrapped in braces |
| I18n.TranslationTruthy | i18n.js:236 | the translation of a non-empty key is never empty |
| I18n.UnknownLanguageFallsBack | i18n.js:236 | a language without a table reads the English table |
| I18n.MissingKeyIsItself | i18n.js:236 | a key neither table has translates to itself |
| I18n.T | i18n.js:235-242 | called without replacements, `t` returns the looked-up translation |
| I18n.UnbracedTranslationIgnoresReplacements | i18n.js:235-242 | a translation with no `{` is returned as looked up, whatever replacements are passed |
| I18n.NoReplacementsIsLookup | i18n.js:235-242 | with no replacements the translation is returned as looked up |
| I18n.SubstitutePlaceholder | i18n.js:238-241 | a text that is just `{name}` becomes the value given for `name` |
| I18n.SubstituteLeadingPlaceholder | i18n.js:238-241 | a template that opens with `{name}` and has no other brace gets the value in front of the rest |
| I18n.SubstituteAbsent | i18n.js:238-241 | placeholders that do not occur leave the text unchanged |
| I18n.DetectLanguage | i18n.js:201-208 | the detected language is always one the catalogue has (English or Turkish) |
| I18n.DetectedLanguageIsRead | i18n.js:195-208 | a manager started without a stored language translates from the Turkish table for a browser language such as "tr-TR" and from the English table for any other, such as "en-US" |
| I18n.InitManager | i18n.js:195-198 | a truthy stored language is taken, otherwise the detected one; no listeners are registered |
| I18n.SetLanguage | i18n.js:221-227 | only a language with a table is taken, and only then is every listener notified, in order; otherwise nothing changes |
| I18n.SetLanguageThenTranslate | i18n.js:221-242 | after an accepted switch, `t` reads the new language's table |
| I18n.AddListener | i18n.js:245-249 | registering appends a callback only when it is new, so a duplicate-free registry stays duplicate-free |
| I18n.RemoveListener | i18n.js:252-257 | removing drops one occurrence of the callback and keeps the others in order; an absent callback changes nothing |
| I18n.AddThenRemove | i18n.js:245-257 | registering a new callback and removing it again restores the registry |
| I18n.GetDepartments | i18n.js:273-282 | the six departments come in a fixed order, each with its fixed key and value and labelled with the translation of that key |
| I18n.DepartmentsLanguageIndependent | i18n.js:273-282 | switching language changes only the labels; keys and values stay put |

## Left out

- Rendering: the `html` templates, CSS, DOM event wiring and focus handling are presentation. They carry no record logic.
- action-modal.js and my-element.js are not part of this model. The modal's only contract, a confirm event carrying `{action, recordName}`, is the input `ListController.ConfirmDetail`. The starter element has no domain logic.
- Browser storage, `navigator.language` and console logging are I/O. The stored language and the browser's language string are parameters. `storeLanguage`, the write `setLanguage` makes, is not modelled. The application's load/save of the collection is not modelled either.
- `formatCurrency`, `formatDate`, `formatSalary` depend on `Intl` locale data and floating point.
- `averageSalary` and `recentHires` of `getEmployeeStats` need float division and the current clock. Records the form creates have no salary.
- `generateId` and `Date.now()` draw from the clock and a random source, so their results are the parameters `freshId` and `now`. Ids are integers here, not the source's fractional numbers.
- `showNotification` is a timed DOM toast. Only the notification's text is modelled (`App.NotificationAsWritten`, `App.Notification`).
- Text.Lower: `toLowerCase` is modelled for ASCII letters only; the source folds every Unicode letter.
- I18n.Substitute: `String.prototype.replace` special patterns such as `$&` in a value are not interpreted. Placeholder names are taken literally; in the source they are regular-expression text.
- `getPositions` is called by the form's constructor, but i18n.js does not define it. As written, the constructor therefore throws (`FormController.ConstructorThrows`, listed under Findings). The rest of the form model describes the form as intended, built by `FormController.InitialForm`. The position catalogue itself is not modelled.
- `handleDepartmentChange` is defined, but the list's render binds no control to it. So as written the department filter stays empty and every department matches. The model covers the handler and the filter as defined.
- `handleAddEmployee` in the list (employee-list.js:470-475) would dispatch the `add-employee` event the application listens for, but the list's render binds no control to it. So as written no record can be created. `App.HandleAddEmployee`, `FormController.Open` without an employee and `App.HandleEmployeeCreated` are modelled as defined.
- The sample data the application loads uses `name`/`salary` fields instead of the form's fields, and a non-empty search over it would throw. Only form-shaped records are modelled, with first name, last name and e-mail always present.
- JavaScript's `languages[language]` also accepts inherited object keys such as `"toString"`. `I18n.SetLanguage` accepts only the catalogue's own language codes.
- App.NotificationShowsUndefined and App.NotificationNamesRecord take the template's shape as a precondition. They are not proved against the concrete catalogue entries, whose unfolding is too costly for the verifier.
- App.ApplyFormEvent only dispatches a form event to the matching handler. Its properties are stated through `App.CommitKeepsIdsUnique`.
- `openForm`'s `setTimeout` deferral is not modelled. `App.OpenForm` is the deferred call itself.
- A confirmed delete is meant to remove the record: the modal asks for it, and the notification reads "… has been removed successfully!". The code's `handleEmployeeDeleted` does not remove it. The model follows the code, and the intended behaviour is listed under Findings.

## Findings

| source | as written | input that shows it | evidently intended | confidence | as-written member | corrected member |
|---|---|---|---|---|---|---|
| employee-app.js:342-345 | `handleEmployeeDeleted` shows a notification and never calls `deleteEmployee` | any record in the collection: request delete, confirm, and the record is still listed | the confirmed record's id is removed from the collection | not executed | App.DeletedRecordStaysListed | App.HandleEmployeeDeletedFixed |
| employee-app.js:333 | the created/updated/deleted notifications pass `name: record.name`, a property form-shaped records do not have | a created record `{firstName: "Ada", lastName: "Lovelace", …}` with the English template `{name} has been added successfully!` gives "undefined has been added successfully!" | the record's full name, as the list's confirmation modal shows it | not executed | App.NotificationShowsUndefined | App.NotificationNamesRecord |
| employee-form.js:300 | the form's constructor calls `i18n.getPositions()`, which the localization manager does not define, so it throws before the form data and errors are set | clicking Edit on any row: the form element is created, its constructor throws on `i18n.getPositions()`, and the edit form never opens | a manager that provides the positions, and a constructed form that is closed with the eight empty fields | not executed | FormController.ConstructorThrows | FormController.InitialForm |
| employee-list.js:465-468 | a view-mode change keeps the current page, even past the last page at the new page size | twelve matching records in the list view (four a page) on page 3, then switching to the table (nine a page): page 3 is empty, so the empty state shows and no pagination controls are drawn | reset the page to 1, as the search and department handlers do when the shape of the view changes | not executed | ListController.ViewModeChangeStrandsPage | ListController.HandleViewModeChangeFixed |
