# Curriculum ingestion and soft-delete managers, modelled in Dafny

This project models the five administration screens at the core of an
educational-content admin console:

- **BNCC manager** (`components/BNCCManager.tsx`): the table of curriculum
  skills (BNCC items), with search and a component filter, and the manual
  create/edit form. It also runs the PDF upload pipeline. The pipeline checks
  the file type, parses the text, skips a blank text and calls the structured
  extractor. It maps every failure to an explanatory result. Then it saves the
  reviewed candidates one by one.
- **Extraction summary** (`components/BNCCExtractionSummary.tsx`): the review
  dialog. It has four screens: processing, not about the BNCC, nothing found,
  and the review list. Its state is a set of selected candidate indices with
  toggle and toggle-all. The save list holds the selected candidates in
  extraction order, with missing fields filled with `''`.
- **Institution-type manager** (`components/InstitutionTypeManager.tsx`): a
  searchable, paginated list with a one-field form that sends a trimmed name.
- **User-rule manager** (`components/UserRuleManager.tsx`): a list with a
  show-deleted filter and a create/edit form.
- **Institution manager** (`components/InstitutionManager.tsx`): the form with
  its address and manager sections. Submitting dispatches to add or update.

All four managers share the soft-delete lifecycle. A row carries a `deleted`
flag. An active row offers edit and delete, and a deleted row offers restore.
A confirmation dialog holds the pending action. Confirming it makes exactly
one delete or restore call. The lifecycle is modelled once (module
`Lifecycle`, class `ConfirmDialog`). Each manager instantiates it with its own
choices. They differ in whether the dialog resets or keeps its fields when
cancelled and when the call succeeds, and in whether a rejected call is
caught or leaves the handler. The type screen resets the dialog in both
cases. The other three keep its fields.

Layout:

| file | module | contents |
|---|---|---|
| `values.dfy` | `Values` | `Option`, `Attempt` (the outcome of an awaited call), `HandlerResult`, JavaScript truthiness of an optional string |
| `seqs.dfy` | `Seqs` | subsequences, `Array.prototype.filter`, `Array.prototype.slice` |
| `text.dfy` | `Text` | `trim`, `toLowerCase`, `includes`, string order and sort-with-dedup |
| `lifecycle.dfy` | `Lifecycle` | the soft-delete row actions, the show-deleted filter, `ConfirmDialog` |
| `bncc_extraction_summary.dfy` | `BnccExtractionSummary` | the review dialog |
| `bncc_manager.dfy` | `BnccManager` | the BNCC screen and its upload pipeline |
| `institution_type_manager.dfy` | `InstitutionTypeManager` | the type screen, its filter and pagination |
| `user_rule_manager.dfy` | `UserRuleManager` | the rule screen |
| `institution_manager.dfy` | `InstitutionManager` | the institution screen |

How the model is built:

- Each screen is a class. Its fields are the component's `useState`
  variables, and each event handler is a method over those fields.
- Derived values (`filteredItems`, `uniqueComponents`, `filteredTypes`,
  `paginatedTypes`, `displayedRules`) are functions, with lemmas about them.
- An awaited call becomes a parameter of type `Attempt<T>`: either
  `Returns(value)` or `Throws(message)`. This covers the PDF parser, the
  extractor and every store call. Each screen records the calls it issues in
  a `log`/`calls` field, so contracts can say which calls were made, with
  what arguments and in what order.
- A handler has four possible endings (`HandlerResult`):
  - `Skipped`: it returned before doing anything.
  - `Done`: it finished.
  - `Caught(message)`: its own `catch` handled a rejection.
  - `Rethrown(message)`: a rejection escaped the handler. This happens where
    the code has only `try/finally`.

Where the code behaves differently from what a reader of the screens might
expect, the model follows the code:

- A failed parse or extraction is not a separate failure state. It becomes an
  ordinary result with `hasBNCCContent = false`, no candidates, and the error
  text as its message.
- The extractor's answer is used as it is. A result saying the document is
  not about the BNCC keeps whatever candidates came with it. The dialog then
  shows only the explanation.
- Saving the reviewed candidates stops at the first call that throws. The
  calls before it stay done, and no count of saved records is returned. A call
  that resolves to `false` does not stop the batch.
- The review dialog mounts while the PDF is still being parsed, and at that
  point there is no result. Its selection initialiser therefore runs on an
  empty result. After an upload the review list starts with nothing selected:
  the select-all box is unchecked and saving is disabled
  (`ReviewStartsWithNothingSelected`). Closing the dialog, or a batch saved
  without a rejection, unmounts it. The next upload therefore starts again
  from an empty selection (`ReuploadAfterCloseStartsEmpty`).
- The institution form only rejects an empty name (`!newName`). A name made
  only of spaces is sent. The type form trims the name and rejects a blank one.
- The type list resets to page 1 when the search or the show-deleted switch
  changes, but not when the list shrinks after a reload. A page past the last
  then shows no rows (`PageIsWindow`).
- None of the screens checks for administrator rights inside its handlers.
  The whole screen is replaced by a notice for a non-administrator. Only the
  institution list renders for everyone, and there the row buttons depend on
  `isAdmin` (`InstitutionActions`).

## Model

| member | source | states |
|---|---|---|
| `Seqs.Filter` | components/UserRuleManager.tsx:81 | `Array.prototype.filter`: the result is an order-preserving subsequence of the input; every element satisfying the predicate occurs in it as often as in the input, and no other element occurs |
| `Seqs.JsSlice` | components/InstitutionTypeManager.tsx:67 | `slice(start, end)` never returns more than `end - start` elements; for `0 <= start <= end` it is the part of the list between the two bounds, each clamped to the list's length |
| `Text.TrimStart` | components/InstitutionTypeManager.tsx:49 | the result is a suffix of the input that does not start with whitespace, and everything dropped is whitespace |
| `Text.TrimEnd` | components/InstitutionTypeManager.tsx:49 | the result is a prefix of the input that does not end with whitespace, and everything dropped is whitespace |
| `Text.TrimEmptyIffBlank` | components/InstitutionTypeManager.tsx:88 | `s.trim()` is empty exactly when every character of `s` is whitespace |
| `Text.TrimSplits` | components/InstitutionTypeManager.tsx:96 | a string is its leading whitespace, then its trimmed core, then its trailing whitespace |
| `Text.TrimmedEnds` | components/InstitutionTypeManager.tsx:96 | a non-empty trimmed string neither starts nor ends with whitespace |
| `Text.LowerChar` | components/BNCCManager.tsx:168 | one character lower-cased: a capital becomes the letter 32 code points above it, which is not a capital; anything else is kept |
| `Text.ToLower` | components/BNCCManager.tsx:168 | `toLowerCase` keeps the length, turns each capital into its small letter 32 code points above, and keeps every other character |
| `Text.SortDistinct` | components/BNCCManager.tsx:165 | `Array.from(new Set(...)).sort()`: the result is strictly sorted (so each value appears once) and holds exactly the values of the input |
| `Lifecycle.CallFor` | components/BNCCManager.tsx:91-95 | confirming calls the delete store function for a pending delete and the restore function otherwise, always with the pending id |
| `Lifecycle.Closed` | components/InstitutionTypeManager.tsx:139 | a closed dialog is not open; `KeepFields` keeps the id, action and name, and `ResetToDefault` is the initial `modalConfig` |
| `Lifecycle.LifecycleActions` | components/BNCCManager.tsx:399-406 | an active row offers edit and delete, a deleted row offers only restore |
| `Lifecycle.OneTransitionPerRow` | components/UserRuleManager.tsx:172-179 | every row offers exactly one of delete and restore: the transition that leaves its current state |
| `Lifecycle.Visible` | components/UserRuleManager.tsx:81 | with show-deleted on, every row is listed; otherwise exactly the rows not deleted are listed, in order, each as often as in the input |
| `Lifecycle.HidingIsIdempotent` | components/UserRuleManager.tsx:81 | hiding deleted rows from a list that already hides them changes nothing |
| `Lifecycle.ConfirmDialog.constructor` | components/BNCCManager.tsx:38-44 | the dialog starts closed with no pending id, the action `delete` and an empty name, not loading, with no calls made |
| `Lifecycle.ConfirmDialog.Open` | components/InstitutionTypeManager.tsx:122-128 | opening records the row's id, name and action, and makes no call |
| `Lifecycle.ConfirmDialog.Dismiss` | components/InstitutionTypeManager.tsx:205 | cancelling closes the dialog in the manager's style (keeping id, action and name, or back to the initial `modalConfig`) and makes no call |
| `Lifecycle.ConfirmDialog.ExecuteAction` | components/BNCCManager.tsx:88-101 | with no pending id nothing happens; otherwise exactly one delete or restore call for the pending id is made and loading ends whatever the outcome; the dialog closes (by the manager's policy) only if the call resolves; a rejection is caught or rethrown by the manager's policy and leaves the dialog as it was |
| `BnccExtractionSummary.AllIndices` | components/BNCCExtractionSummary.tsx:24 | the set holds exactly the indices `0 .. n-1` |
| `BnccExtractionSummary.FullSizeMeansAll` | components/BNCCExtractionSummary.tsx:64-70 | for a selection of candidate indices, having as many elements as there are candidates is the same as being all of them, which is what the size comparisons in `toggleAll` and the select-all box rely on |
| `BnccExtractionSummary.InitialSelection` | components/BNCCExtractionSummary.tsx:23-25 | the initial selection is every candidate index of the result, and empty when there is no result |
| `BnccExtractionSummary.Toggled` | components/BNCCExtractionSummary.tsx:54-62 | toggling flips the membership of the index and no other index changes |
| `BnccExtractionSummary.ToggleInvolution` | components/BNCCExtractionSummary.tsx:54-62 | toggling the same index twice restores the selection |
| `BnccExtractionSummary.ToggleStaysInRange` | components/BNCCExtractionSummary.tsx:54-62 | toggling a candidate's index keeps the selection within the candidates |
| `BnccExtractionSummary.ToggleAllClearsOrFills` | components/BNCCExtractionSummary.tsx:64-70 | toggle-all empties a full selection and selects every candidate otherwise; twice from full comes back full |
| `BnccExtractionSummary.SaveFollowsSelectionActions` | components/BNCCExtractionSummary.tsx:250 | with no save running, toggle-all on a full list disables saving, toggle-all on any other list enables it, and picking one candidate from an empty selection enables it; while a save runs it stays disabled |
| `BnccExtractionSummary.SelectedIndicesSpec` | components/BNCCExtractionSummary.tsx:73-74 | the indices kept by the filter are exactly the selected candidate indices, each once, in increasing order |
| `BnccExtractionSummary.ItemsToSaveFollowsSelection` | components/BNCCExtractionSummary.tsx:72-81 | the save list has one record per selected candidate; its k-th record is the k-th selected candidate with missing fields filled with `''` |
| `BnccExtractionSummary.SelectedIndicesCount` | components/BNCCExtractionSummary.tsx:73-74 | the number of records saved is the number of selected indices that name a candidate |
| `BnccExtractionSummary.InRange` | components/BNCCExtractionSummary.tsx:73-74 | the selected indices that name a candidate |
| `BnccExtractionSummary.SaveAllKeepsOrder` | components/BNCCExtractionSummary.tsx:72-81 | with everything selected, every candidate is saved, in extraction order |
| `BnccExtractionSummary.DeselectTwoOfFive` | components/BNCCExtractionSummary.tsx:72-81 | with five candidates and indices 1 and 3 deselected, the records of candidates 0, 2 and 4 are saved, in that order |
| `BnccExtractionSummary.ChooseScreen` | components/BNCCExtractionSummary.tsx:28-156 | exactly one screen applies: processing while extracting or without a result; the explanation when the document is not about the BNCC, showing the result's message or the default text when it has none; "none found" for an empty list; otherwise the review list |
| `BnccExtractionSummary.Summary.constructor` | components/BNCCExtractionSummary.tsx:23-25 | mounting starts the selection from the result of the first render |
| `BnccExtractionSummary.Summary.ToggleItem` | components/BNCCExtractionSummary.tsx:54-62 | the new selection is the old one with the index toggled |
| `BnccExtractionSummary.Summary.ToggleAll` | components/BNCCExtractionSummary.tsx:64-70 | the new selection is empty when the old one had as many elements as there are candidates, and every candidate otherwise |
| `BnccExtractionSummary.Summary.SaveList` | components/BNCCExtractionSummary.tsx:72-83 | the list passed to `onSave` is the save list of the current selection: one record per selected candidate, the k-th being the k-th selected candidate with missing fields filled with `''` |
| `BnccManager.FilteredItems` | components/BNCCManager.tsx:167-171 | the rows listed are exactly the rows whose code or description contains the search term, ignoring case, and whose component is the chosen one (or any, for "All"), in store order, each as often as in the store |
| `BnccManager.NoFilterListsAll` | components/BNCCManager.tsx:167-171 | an empty search with "All" lists every row |
| `BnccManager.SearchIgnoresCase` | components/BNCCManager.tsx:168 | a search term and its lower-cased form list the same rows |
| `BnccManager.TruthyComponents` | components/BNCCManager.tsx:165 | the values kept are exactly the non-empty components of some row |
| `BnccManager.UniqueComponents` | components/BNCCManager.tsx:165 | the component options are sorted, each appears once, and they are exactly the non-empty components of some row |
| `BnccManager.OfferedComponentHasRows` | components/BNCCManager.tsx:165-171 | choosing any offered component with an empty search lists at least one row |
| `BnccManager.FailureResult` | components/BNCCManager.tsx:133-140 | a failure becomes a result with no candidates, not about the BNCC, whose message is the error prefix followed by the error's message, or by the unknown-error text when it has none |
| `BnccManager.ExtractionOutcome` | components/BNCCManager.tsx:114-140 | a parse failure, no text or blank text, and an extractor failure each give their fixed result; only the extractor's own answer can carry candidates or claim BNCC content, and when it answers, its answer is the result |
| `BnccManager.FailuresAreExplained` | components/BNCCManager.tsx:120-140 | every outcome not answered by the extractor carries a message and opens the dialog on the explanation screen showing that message |
| `BnccManager.BlankTextNotExtracted` | components/BNCCManager.tsx:120 | the extractor is called on a parsed text exactly when the text is not blank |
| `BnccManager.FirstThrow` | components/BNCCManager.tsx:152-154 | the position of the first rejected call: every call before it resolved, and the call there (if any) was rejected |
| `BnccManager.FirstThrowAt` | components/BNCCManager.tsx:152-154 | when every call before position i resolved and the call at i was rejected (or there is none), the first rejection is at i |
| `BnccManager.BnccPage.constructor` | components/BNCCManager.tsx:23-44 | the screen starts with a closed empty form, no extraction, no result and no dialog mounted |
| `BnccManager.BnccPage.Render` | components/BNCCManager.tsx:265-276 | the review dialog is mounted exactly while there is a result or an extraction runs (`Mounted`, which every method of the screen keeps); a mounted dialog keeps its state, and a newly mounted one starts from the current result |
| `BnccManager.BnccPage.HandleCreate` | components/BNCCManager.tsx:46-50 | the form opens empty for a new item |
| `BnccManager.BnccPage.HandleEdit` | components/BNCCManager.tsx:52-63 | the form opens on the item's id with its five fields |
| `BnccManager.BnccPage.HandleSave` | components/BNCCManager.tsx:65-78 | without a code and a component no call is made; otherwise one save call with the editing id and the form, the form closes only when the call reports success, saving ends whatever the outcome, and a rejection leaves the handler |
| `BnccManager.BnccPage.OpenModal` | components/BNCCManager.tsx:80-86 | the dialog asks to confirm the action on the item, named by its code, and no call is made |
| `BnccManager.BnccPage.DismissModal` | components/BNCCManager.tsx:246 | cancelling closes the dialog keeping its fields, and no call is made |
| `BnccManager.BnccPage.ExecuteAction` | components/BNCCManager.tsx:88-101 | with no pending id nothing happens: no call, and the dialog and its loading flag stay as they were; otherwise one delete or restore call for the pending id; on success the dialog closes keeping its fields; a rejection leaves the handler with the dialog open |
| `BnccManager.BnccPage.HandleFileUpload` | components/BNCCManager.tsx:103-147 | a missing or non-PDF file changes nothing; a PDF is parsed, its text is sent to the extractor only when it is not blank, the result is the outcome of those calls, and the extraction flag ends cleared; a dialog not already mounted mounts during parsing with nothing selected |
| `BnccManager.BnccPage.CloseSummary` | components/BNCCManager.tsx:270-273 | closing the dialog clears the result and the file name, and the dialog unmounts unless an extraction runs |
| `BnccManager.BnccPage.SaveEach` | components/BNCCManager.tsx:152-154 | one save call per record as a new item, in order, up to and including the first rejected call; it stops at the first rejection |
| `BnccManager.BnccPage.HandleSaveExtracted` | components/BNCCManager.tsx:149-163 | the records are saved one at a time, in order, as new items, up to and including the first rejected call and none after it; only a batch with no rejection clears the result and unmounts the dialog; the rejection is caught; saving ends whatever the outcome |
| `BnccManager.SaveCallsPerRecord` | components/BNCCManager.tsx:152-154 | a batch that gets through makes exactly one `saveItem(null, record)` call per record, in the records' order |
| `BnccManager.SavingTheReviewSavesTheSelection` | components/BNCCManager.tsx:152-154 | saving the review's list with every call resolving issues one new-item call per selected candidate, as its draft, in extraction order |
| `BnccManager.ReviewStartsWithNothingSelected` | components/BNCCManager.tsx:103-147 | from any screen state with the dialog closed, after a PDF yields candidates the review list opens with nothing selected, the select-all box unchecked and saving disabled |
| `BnccManager.ReuploadAfterCloseStartsEmpty` | components/BNCCManager.tsx:265-276 | a candidate chosen in one review does not carry over: after closing and uploading again the new review starts with nothing selected |
| `InstitutionTypeManager.FilteredTypes` | components/InstitutionTypeManager.tsx:45-60 | the types listed are, in store order, exactly those whose name contains the trimmed search term ignoring case (any type for a blank term) and that are not deleted unless deleted types are shown, each as often as in the store |
| `InstitutionTypeManager.BlankSearchKeepsAll` | components/InstitutionTypeManager.tsx:49-52 | a blank search with deleted types shown lists the store as it is |
| `InstitutionTypeManager.PageStart` | components/InstitutionTypeManager.tsx:64-65 | a page in range starts inside the list and a page past the last starts at or after its end |
| `InstitutionTypeManager.TotalPagesIsCeiling` | components/InstitutionTypeManager.tsx:63 | the page count is the ceiling of items over page size: enough pages to hold every item, one fewer would not, and zero exactly for an empty list |
| `InstitutionTypeManager.PageItems` | components/InstitutionTypeManager.tsx:64-68 | a page never holds more than the page size |
| `InstitutionTypeManager.PageIsWindow` | components/InstitutionTypeManager.tsx:64-68 | a page in range is the non-empty window of the list starting `(page - 1) * size` items in; a page past the last is empty |
| `InstitutionTypeManager.PagesUpToPrefix` | components/InstitutionTypeManager.tsx:63-68 | the first k pages, read in order, are the list's prefix of `k * size` items |
| `InstitutionTypeManager.PagesCoverList` | components/InstitutionTypeManager.tsx:63-68 | all the pages, read in order, are exactly the filtered list: every item is on one page and nothing else is |
| `InstitutionTypeManager.PrevPage` | components/InstitutionTypeManager.tsx:354 | one page back, never below the first |
| `InstitutionTypeManager.NextPage` | components/InstitutionTypeManager.tsx:367 | one page on, never past the last |
| `InstitutionTypeManager.GoToPage` | components/InstitutionTypeManager.tsx:384 | the typed page clamped into `[1, totalPages]`; a page in range is kept |
| `InstitutionTypeManager.NavigationStaysInRange` | components/InstitutionTypeManager.tsx:332-386 | the controls are shown only with more than one page, and from a page in range each of them leads to a page in range |
| `InstitutionTypeManager.NameToSend` | components/InstitutionTypeManager.tsx:88-96 | a blank name sends nothing; any other name is sent as a non-empty string with no whitespace at either end |
| `InstitutionTypeManager.NameSentIsCore` | components/InstitutionTypeManager.tsx:96 | the name sent is the typed name without its leading and trailing whitespace, and only whitespace is dropped |
| `InstitutionTypeManager.SaveCall` | components/InstitutionTypeManager.tsx:94-99 | an update of the edited type when one is being edited, an add otherwise, with the given name |
| `InstitutionTypeManager.TypePage.constructor` | components/InstitutionTypeManager.tsx:21-42 | the screen starts on page 1, 50 per page, with an empty search, a closed empty form and deleted types hidden |
| `InstitutionTypeManager.TypePage.Shown` | components/InstitutionTypeManager.tsx:66-68 | the rows of the table are at most a page's worth, all taken from the filtered list |
| `InstitutionTypeManager.TypePage.Reload` | components/InstitutionTypeManager.tsx:16-19 | the store's new list replaces the old and the current page is kept |
| `InstitutionTypeManager.TypePage.SetSearchTerm` | components/InstitutionTypeManager.tsx:71-73 | the term is set, and the page goes back to 1 exactly when the term changes |
| `InstitutionTypeManager.TypePage.SetShowDeleted` | components/InstitutionTypeManager.tsx:71-73 | the switch is set, and the page goes back to 1 exactly when it changes |
| `InstitutionTypeManager.TypePage.SetItemsPerPage` | components/InstitutionTypeManager.tsx:338-342 | a page size from the menu is set and the page goes back to 1; every handler of the screen keeps the page size one the menu offers (`Valid`) |
| `InstitutionTypeManager.TypePage.GoPrev` | components/InstitutionTypeManager.tsx:354 | the page becomes the previous page |
| `InstitutionTypeManager.TypePage.GoNext` | components/InstitutionTypeManager.tsx:367 | the page becomes the next page, capped at the page count |
| `InstitutionTypeManager.TypePage.GoTo` | components/InstitutionTypeManager.tsx:383-385 | the page becomes the typed page clamped to the page range, and lies in range whenever there is a page |
| `InstitutionTypeManager.TypePage.HandleEdit` | components/InstitutionTypeManager.tsx:108-113 | the form opens on the type's id and name |
| `InstitutionTypeManager.TypePage.HandleCancel` | components/InstitutionTypeManager.tsx:115-119 | the form closes and is cleared |
| `InstitutionTypeManager.TypePage.ToggleForm` | components/InstitutionTypeManager.tsx:191 | an open form closes and is cleared; a closed one opens as it was left |
| `InstitutionTypeManager.TypePage.HandleSave` | components/InstitutionTypeManager.tsx:86-106 | a blank name makes no call; otherwise one add or update call with the trimmed name, the form is closed and cleared only when the call resolves, submitting ends whatever the outcome, and a rejection leaves the handler with the form as it was |
| `InstitutionTypeManager.TypePage.OpenModal` | components/InstitutionTypeManager.tsx:122-128 | the dialog asks to confirm the action on the type, named by its name, and no call is made |
| `InstitutionTypeManager.TypePage.DismissModal` | components/InstitutionTypeManager.tsx:205 | cancelling returns the dialog to its initial state, and no call is made |
| `InstitutionTypeManager.TypePage.ExecuteAction` | components/InstitutionTypeManager.tsx:130-145 | with no pending id nothing happens: no call, and the dialog and its loading flag stay as they were; otherwise one delete or restore call for the pending id; on success the dialog returns to its initial state; a rejection is caught and the dialog stays open |
| `UserRuleManager.DisplayedRules` | components/UserRuleManager.tsx:81 | every rule when deleted rules are shown, otherwise exactly the rules not deleted, in order, each as often as in the list |
| `UserRuleManager.HidingDeletedIsIdempotent` | components/UserRuleManager.tsx:81 | filtering the displayed rules again changes nothing |
| `UserRuleManager.EditForm` | components/UserRuleManager.tsx:38 | the form an edit starts from holds the rule's name, description and enabled switch |
| `UserRuleManager.RulePage.constructor` | components/UserRuleManager.tsx:16-28 | the screen starts with a closed form holding an empty, enabled rule |
| `UserRuleManager.RulePage.HandleCreate` | components/UserRuleManager.tsx:30-34 | the form opens on an empty, enabled rule |
| `UserRuleManager.RulePage.HandleEdit` | components/UserRuleManager.tsx:36-40 | the form opens on the rule's id and fields |
| `UserRuleManager.RulePage.HandleSave` | components/UserRuleManager.tsx:42-53 | one save call with the editing id and the form, with no validation; the form closes only when the call reports success; a rejection leaves the handler |
| `UserRuleManager.RulePage.OpenModal` | components/UserRuleManager.tsx:55-61 | the dialog asks to confirm the action on the rule, named by its rule name, and no call is made |
| `UserRuleManager.RulePage.DismissModal` | components/UserRuleManager.tsx:132 | cancelling closes the dialog keeping its fields, and no call is made |
| `UserRuleManager.RulePage.ExecuteAction` | components/UserRuleManager.tsx:63-76 | with no pending id nothing happens: no call, and the dialog and its loading flag stay as they were; otherwise one delete or restore call for the pending id; on success the dialog closes keeping its fields; a rejection leaves the handler with the dialog open |
| `InstitutionManager.MakePayload` | components/InstitutionManager.tsx:128-131 | the payload carries the name, and the type id exactly when one was chosen |
| `InstitutionManager.AddressSent` | components/InstitutionManager.tsx:132-146 | the form's address is sent exactly when it has a street, a city or a country |
| `InstitutionManager.PostalCodeAndStateIgnored` | components/InstitutionManager.tsx:132 | the postal code and the state never decide whether the address is sent |
| `InstitutionManager.SubmitCall` | components/InstitutionManager.tsx:134-147 | an update of the edited institution when one is being edited, an add otherwise, with the payload, address and manager given |
| `InstitutionManager.ResolveTypeId` | components/InstitutionManager.tsx:85 | the type id is the institution's own, else its joined type's, else empty |
| `InstitutionManager.ManagerFor` | components/InstitutionManager.tsx:106-117 | the manager section copies the names and e-mail of the attached manager and leaves the password and the manager's address blank |
| `InstitutionManager.EditForm` | components/InstitutionManager.tsx:82-120 | the edit form holds the institution's id, name and type, its stored address and country (or an empty address), its manager, and is shown |
| `InstitutionManager.SubmitAfterEdit` | components/InstitutionManager.tsx:82-153 | submitting a just-opened edit unchanged updates that institution with its name and type, sends the address exactly when the stored one has a street, a city or a country, and sends a blank password |
| `InstitutionManager.InstitutionActions` | components/InstitutionManager.tsx:420-434 | view is always offered; edit and delete on an active row and restore on a deleted one, for an administrator only |
| `InstitutionManager.InstitutionPage.constructor` | components/InstitutionManager.tsx:41-69 | the screen starts with the cleared form, not submitting, with no calls made |
| `InstitutionManager.InstitutionPage.ResetForm` | components/InstitutionManager.tsx:71-80 | the form returns to the cleared state and closes |
| `InstitutionManager.InstitutionPage.HandleEditClick` | components/InstitutionManager.tsx:82-120 | the form becomes the edit form of the institution; the state dropdown keeps its previous value when a stored address exists |
| `InstitutionManager.InstitutionPage.ToggleForm` | components/InstitutionManager.tsx:230 | an open form is reset and closed; a closed one opens as it was left |
| `InstitutionManager.InstitutionPage.HandleSubmit` | components/InstitutionManager.tsx:122-153 | an empty name makes no call; otherwise one add or update call with the payload, the address when it has a street, city or country, and the manager; the form is reset only when the call resolves; submitting ends whatever the outcome; a rejection leaves the handler with the form as it was |
| `InstitutionManager.InstitutionPage.OpenModal` | components/InstitutionManager.tsx:156-162 | the dialog asks to confirm the action on the institution, named by its name, and no call is made |
| `InstitutionManager.InstitutionPage.DismissModal` | components/InstitutionManager.tsx:239 | cancelling closes the dialog keeping its fields, and no call is made |
| `InstitutionManager.InstitutionPage.ExecuteAction` | components/InstitutionManager.tsx:164-179 | with no pending id nothing happens: no call, and the dialog and its loading flag stay as they were; otherwise one delete or restore call for the pending id; on success the dialog closes keeping its fields; a rejection is caught and the dialog stays open |

## Left out

- The store hooks (`useBNCCManager`, `useSettingsManager`, `useUserRuleManager`, the institution hook) are not part of this model. The model sees only the calls the screens make and the lists they hand back. The hooks' own filtering of deleted rows, uniqueness checks and idempotent restore are therefore not modelled.
- The screen-level guards (no database configured, loading, not an administrator) are rendering only and are left out. So are the effects that refresh the lists when the switch or the admin state changes.
- `alert`, `console.error`, `window.scrollTo`, translations and all markup are user interface output with no state.
- The HTML `required` attributes of the forms are browser validation outside the handlers.
- The upper-casing of the code as it is typed in the BNCC form is an input formatter outside the handlers.
- Clearing the file input after an upload touches the DOM only.
- The success alert's count of saved records is display only.
- The institution detail view (`handleViewDetails`, the breadcrumb, the detail component) is navigation, not state the core keeps.
- The country and state lists and the hook that fetches them are not part of this model. So is the delayed `setTimeout` that sets the state dropdown after an edit click: `HandleEditClick` keeps the previous state value, which is what the form holds until that timer fires.
- `Text.ToLower`: lower-cases Latin-1 letters only, because full Unicode case mapping is not modelled.
- `Text.SortDistinct`: compares strings by code point, not by UTF-16 code unit as JavaScript's default sort does. The two orders differ only outside the Basic Multilingual Plane.
- `InstitutionTypeManager.TypePage.GoTo`: takes an integer page. `Number()` of a non-numeric or fractional input (`NaN`, `2.5`) is not modelled.
- `InstitutionTypeManager.TypePage.SetItemsPerPage`: requires a value from the menu (10, 25, 50, 100), because that is all the select offers.
- `InstitutionTypeManager.FilteredTypes`: the fallback `types || []` for a missing list is taken as an empty sequence, since the model's list is never missing.
- `BnccManager.BnccPage.HandleSaveExtracted`: requires one reply per record, because the oracle must answer every call the loop could make.
- `BnccManager.ReviewStartsWithNothingSelected`: starts from a screen whose review dialog is closed. The upload control lies under the dialog's full-screen overlay, so an upload cannot start while the dialog is open.
