# Member directory and refund form, modelled in Dafny

This project models the client-side logic of a welfare association's
member-management screen. The model has two parts.

- **The member directory** (`src/components/MembersTable.jsx`):
  - the list of members loaded from `GET /members` and sorted by welfare number;
  - the search box and the filtered view it produces;
  - the highlighted first match;
  - the member selected for the detail dialog;
  - the confirmed delete;
  - the `M/D/YYYY` date format used in the table's date columns.
- **The refund request form** (`src/components/benefits/RefundForm.jsx`):
  - the four-field `formData` record, with single-field edits;
  - a submission that clears the form on success and keeps it on failure;
  - the member list behind the EPF suggestions.

Each component is a Dafny `class` whose fields are the component's state
(`members`, `searchTerm`, `highlightedMemberId`, `selectedMember`;
`members`, `formData`). Each handler is a method that changes only the fields
its `modifies` clause names. The pure parts are functions with lemmas about
them:
- the sort comparator;
- the filter predicate;
- the highlight rule;
- `formatDate`;
- the object-spread update.

Network requests and browser calls are parameters:
- a request's result is a `Response` (`Received(data)` or `Rejected`) or an
  `Outcome` (`Succeeded` or `Failed`);
- the answer to `window.confirm` is a `bool`;
- which table rows are mounted is a set of `_id`s;
- the texts of `alert` and `toast` are returned values.

Files:
- `options.dfy`: the `Option` type.
- `text.dfy`: `toLowerCase` restricted to ASCII, `includes`, and the decimal
  text of integers. It also holds the parser and splitter used as the inverse
  of the date format.
- `seqs.dfy`: `Array.prototype.filter`, and the proof that it keeps exactly
  the passing elements in order.
- `members.dfy`: the member record and the request outcomes.
- `members_table.dfy`: module `Directory`, the member directory.
- `refund_form.dfy`: module `Refund`, the refund form.

Points where the code's behaviour is easy to misread:
- An empty search does not show every record. The code drops a record whose
  `epf`, `welfareNo` and `name` are all absent, because optional chaining
  yields `undefined`, which is falsy (lines 84-89). See
  `EmptySearchKeepsFielded`.
- A delete removes every entry whose `_id` matches, not just one (line 69).
  It removes exactly one entry only when `_id`s are unique
  (`DeleteOfListedShrinksByOne`).
- The key of a record is `_id`, which is the field `id` of `Member` here.
- The detail dialog shows the raw date strings (lines 263-273). `formatDate`
  is used only in the table columns (lines 191 and 194).
- Nothing in the live screen calls `handleDialogOpen`. Its only caller is
  the commented-out `DialogTrigger` at lines 235-241. `selectedMember`
  therefore stays null, and the detail dialog (lines 242-342) never renders.
  `HandleDialogOpen` models the handler as written.

## Model

| member | source | states |
|---|---|---|
| Text.Lower | src/components/MembersTable.jsx:84-89 | `toLowerCase` keeps the length and folds each character on its own |
| Text.IncludesIffOccurs | src/components/MembersTable.jsx:84-89 | `Includes`, the model of `includes`, is true exactly when the pattern occurs at some index of the text |
| Text.NatText | src/components/MembersTable.jsx:85-86 | the decimal text of a natural number is non-empty, all digits, with no leading zero |
| Text.DecimalText | src/components/MembersTable.jsx:52 | an integer's text is non-empty, has a minus sign first exactly when the integer is negative, and is digits otherwise |
| Text.ParseDecimalText | src/components/MembersTable.jsx:52 | reading back an integer's decimal text gives the integer, so different numbers print differently |
| Text.LowerOfDecimalText | src/components/MembersTable.jsx:85-88 | lower-casing the text of a welfare number leaves it unchanged |
| Seqs.Keep | src/components/MembersTable.jsx:82-90 | `filter` keeps an element exactly when it was in the input and passes the test, and never lengthens the list |
| Seqs.KeepSelectsInOrder | src/components/MembersTable.jsx:82-90 | `filter` returns the input's elements at ascending indices, and those indices are exactly the ones whose element passes |
| Directory.InsertByWelfareNo | src/components/MembersTable.jsx:37-39 | inserting a member adds exactly that member to the list's contents |
| Directory.SortByWelfareNo | src/components/MembersTable.jsx:37-39 | the stored list is a permutation of the response, sorted ascending by `welfareNo` |
| Directory.SortKeepsKeyClasses | src/components/MembersTable.jsx:37-39 | the sort is stable: for every welfare number, the members carrying it keep their response order |
| Directory.StableOrderIsUnique | src/components/MembersTable.jsx:37-39 | two lists sorted by welfare number with the same per-number subsequences are equal |
| Directory.StableSortIsDetermined | src/components/MembersTable.jsx:37-40 | any stable ascending sort of the response gives exactly `SortByWelfareNo`, so the stored list does not depend on the engine's sort algorithm |
| Directory.SortOfSortedIsIdentity | src/components/MembersTable.jsx:37-40 | a response already in welfare-number order is stored unchanged |
| Directory.ReloadIsIdempotent | src/components/MembersTable.jsx:32-44 | sorting the stored list again changes nothing, so a server that returns the list already in welfare-number order has it stored as it is |
| Directory.LoadExample | src/components/MembersTable.jsx:37-40 | members with welfare numbers 5 then 2 are stored as 2 then 5 |
| Directory.FieldMatchesIffOccurs | src/components/MembersTable.jsx:84-89 | `FieldMatches`, the test applied to each of `epf`, `welfareNo` and `name`, holds exactly when the field is present and the lower-cased term occurs in its lower-cased text; an absent field never matches |
| Directory.WelfareNoMatchesDigits | src/components/MembersTable.jsx:85-88 | a present welfare number matches exactly when the lower-cased term occurs in its decimal digits |
| Directory.FilteredIsOrderedSelection | src/components/MembersTable.jsx:82-90 | `Filtered`, the model of `filteredMembers` through the member test `MatchesSearch`, is the subsequence of `members` at the ascending indices of the matching members, and only those |
| Directory.FilteredEmptyIffNoMatch | src/components/MembersTable.jsx:82-90 | the view is empty exactly when no member matches |
| Directory.EmptySearchKeepsFielded | src/components/MembersTable.jsx:84-89 | with an empty term, the view is exactly the members that have an EPF number, a welfare number or a name |
| Directory.EmptySearchShowsDirectory | src/components/MembersTable.jsx:82-90 | every loaded member has a welfare number, so an empty term shows the whole directory |
| Directory.SearchExample | src/components/MembersTable.jsx:82-90 | searching "jo" among John and Mary leaves only John |
| Directory.HighlightIsFirstMatch | src/components/MembersTable.jsx:92-105 | `HighlightFor`, the model of the highlight effect, gives the `_id` of the first matching member when its row is mounted, and null when that row is not mounted or nothing matches |
| Directory.FormatDateRoundTrip | src/components/MembersTable.jsx:46-53 | `FormatDate`, the model of `formatDate`, gives a valid date an `M/D/YYYY` text that `ParseDate` reads back as the same month, day and year, so distinct dates display differently |
| Directory.FormatDateDashIffInvalid | src/components/MembersTable.jsx:46-53 | `FormatDate` gives `-` exactly for an invalid date |
| Directory.FormatDateExample | src/components/MembersTable.jsx:46-53 | 5 March 2024 displays as `3/5/2024` |
| Directory.DeleteKeepsOthersInOrder | src/components/MembersTable.jsx:69 | `Without`, the model of the filter at line 69, keeps exactly the members whose `_id` differs from the target, in their order |
| Directory.DeleteKeepsSorted | src/components/MembersTable.jsx:69 | a delete keeps the directory sorted by welfare number |
| Directory.DeleteOfListedShrinksByOne | src/components/MembersTable.jsx:69 | with unique `_id`s, deleting a listed member shortens the list by one and leaves no member with that `_id` |
| Directory.DeleteUnconfirmedOrFailedChangesNothing | src/components/MembersTable.jsx:63-75 | `AfterDelete`, the list `handleDelete` leaves, is unchanged when there is no confirmation or the request is rejected |
| Directory.DeleteAsWrittenNeverRemoves | src/components/MembersTable.jsx:63-75 | as the file is written, a confirmed delete of a listed member keeps it even when the server would accept; with the server's real outcome it would be gone |
| Directory.MembersTable.constructor | src/components/MembersTable.jsx:19-22 | the component starts with no members, an empty search, no highlight and no selection |
| Directory.MembersTable.FetchMembers | src/components/MembersTable.jsx:32-44 | a response is stored as its stable ascending sort by welfare number; a rejection leaves `members` unchanged; nothing else changes; the directory stays sorted |
| Directory.MembersTable.HandleSearchChange | src/components/MembersTable.jsx:78-80 | the typed text becomes `searchTerm`; nothing else changes |
| Directory.MembersTable.RefreshHighlight | src/components/MembersTable.jsx:92-105 | `highlightedMemberId` becomes the highlight rule applied to the current view, always the `_id` of a mounted row or null |
| Directory.MembersTable.HandleDialogOpen | src/components/MembersTable.jsx:55-57 | opening the detail dialog selects that member |
| Directory.MembersTable.HandleDialogClose | src/components/MembersTable.jsx:59-61 | closing the dialog clears the selection |
| Directory.MembersTable.HandleDelete | src/components/MembersTable.jsx:63-76 | `members` changes only after a confirmation and a successful request, then loses exactly the target `_id`; the alert names the outcome; the directory stays sorted |
| Refund.Set | src/components/benefits/RefundForm.jsx:31-37 | the spread update sets field `name` to `value` and leaves every other field as it was |
| Refund.EmptyFormIsBlank | src/components/benefits/RefundForm.jsx:8-13 | every field of the initial form is `""` |
| Refund.SetSameValue | src/components/benefits/RefundForm.jsx:31-37 | writing a field's own value back changes nothing |
| Refund.SetsCommute | src/components/benefits/RefundForm.jsx:31-37 | edits to different fields commute |
| Refund.SetOverrides | src/components/benefits/RefundForm.jsx:31-37 | a later edit of the same field overrides the earlier one |
| Refund.RefundForm.constructor | src/components/benefits/RefundForm.jsx:7-13 | the form starts with no members and all four fields empty |
| Refund.RefundForm.FetchMembers | src/components/benefits/RefundForm.jsx:15-25 | a response replaces `members` as it came, unsorted and unfiltered; a rejection keeps it |
| Refund.RefundForm.HandleChange | src/components/benefits/RefundForm.jsx:31-37 | only the edited field changes, and it now holds the typed value |
| Refund.RefundForm.HandleSubmit | src/components/benefits/RefundForm.jsx:39-56 | the posted payload is exactly the current `formData`; success resets all four fields to `""`, failure leaves them unchanged; the toast names the outcome |
| Refund.RetryAfterFailure | src/components/benefits/RefundForm.jsx:39-56 | after a failed submission, resubmitting posts the same payload again; neither submission touches the member list |

## Left out

- HTTP transport is not modelled: `API.get`, `axios.get/post/delete`, `BASE_URL` and `withCredentials`. Each request is reduced to its outcome.
- `src/api/axiosInstance.js` (the client setup and the `Bearer` token read from `localStorage`) is not modelled. It depends on library and browser behaviour.
- Parsing of date strings by JavaScript's `Date`, and time zones, are not modelled. `formatDate` takes the already-parsed year, month (counted from 0) and day, or `None` for an invalid date.
- Not modelled: `console.error` logging, `window.scrollY`/`scrollTo`, `scrollIntoView`, `memberRefs`, the scroll-position ref, `navigate` and `handleMemberClick` (lines 107-120). These are browser effects.
- Rendering is not modelled: the JSX and CSS, the dialog components, `MemberUpdate`, the `N/A` fallbacks of the detail dialog, and the authorization predicates of `@/authorization`. None of their code is part of this model.
- React scheduling is not modelled. This covers when effects run, the stale `members` captured by `handleDelete`, and a load racing a delete. It also covers edits typed into the refund form while its POST is in flight. `handleSubmit` posts the `formData` it captured when called (src/components/benefits/RefundForm.jsx:43), and the reset on success (lines 47-52) then wipes those edits. `Refund.RefundForm.HandleSubmit` treats a submission as one atomic step. `RefreshHighlight` is called explicitly with the set of mounted rows.
- Directory.MembersTable.FetchMembers: accepts only responses in which every member has an integer `welfareNo`. In the comparator `a.welfareNo - b.welfareNo`, a missing or non-numeric `welfareNo` gives `NaN`, a `null` one counts as 0, and a numeric string counts as its value. The model leaves all these records out.
- Text.Lower: folds only ASCII letters. `toLowerCase` applies the full Unicode case mapping.
- Text.DecimalText: uses unbounded integers and prints every digit. JavaScript numbers are doubles, so the text `toString` gives differs in two ranges. Above 2^53, it prints the shortest digits that read back as the same double: `2**60` prints as `1152921504606847000`, while the model prints `1152921504606846976`. From 1e21 up, it uses exponent form. In these ranges a welfare-number search (`Directory.WelfareText`, lines 85-88) can match in the model and not in the program, or the reverse.
- Members.Member: keeps only `_id`, `epf`, `welfareNo` and `name`. `epf` and `name` are held as the text `toString()` gives them. The other fields are used only for rendering.
- Identity is by value, not by reference. A Dafny `Member` is a value, so two records with equal fields are indistinguishable here, while JavaScript objects are not.
- Refund.RefundForm.HandleSubmit: accepts any `formData`. The `required` attributes on the `epf` and `amount` inputs (src/components/benefits/RefundForm.jsx:73 and 93) make the browser refuse the submit while either is empty, before `handleSubmit` runs. The model does not capture this browser validation.
- Refund.RefundForm.HandleChange: takes one of the four input names. An input with any other `name` would add a new key to `formData`.
- The commented-out earlier RefundForm (src/components/benefits/RefundForm.jsx:136-274) is not modelled.

## Findings

| source | as written | input that shows it | evidently intended | confidence | as-written member | corrected member |
|---|---|---|---|---|---|---|
| src/components/MembersTable.jsx:66 | `axios.delete(...)` is called, but the file imports only `API` (lines 1-16). The call throws inside the `try`, so the failure branch runs and the member stays listed. | a confirmed delete of a listed member that the server would accept | send the DELETE through the imported client and remove the member on success | medium, not executed (a global `axios` would hide it) | Directory.DeleteAsWrittenNeverRemoves | Directory.MembersTable.HandleDelete |
