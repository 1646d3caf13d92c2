# Roster admin: list projection, form upsert and birth-date rule

A model of the roster logic of a small React admin app for people records
(`User`: optional id, name, gender, birth date as text, role). Three pieces are modelled:

- **The list screen** (`UserList.tsx`). The rows on screen are the stored roster after two steps.
  First comes a case-insensitive search on the name with the trimmed search text.
  Then comes a stable sort of a copy on name, gender or birth date, ascending or descending.
  The screen's handlers are methods of the class `ListController.UserList`:
  - a column click switches the sort column or flips the direction;
  - a row's delete button, then confirm or cancel, removes the record by id once the remote delete has succeeded.
- **The registration/edit form** (`UserForm.tsx`), as the class `UserForm.Form`:
  - submit validates, focuses the first failing field, and otherwise sends the record with the typed name and the selected id laid over it;
  - a successful save upserts the record into the stored roster, keyed by the selected id;
  - the new-user dialog saves through the same upsert;
  - autocomplete options that are already stored cannot be clicked;
  - the nurse role's label depends on the chosen gender.
- **The birth-date field** (`BirthDatePicker.tsx`). The field is required, and the age in whole years on today's date must be at least 18. The picker stores `YYYY-MM-DD` for a picked day, null when cleared, and the text "Invalid Date" while a typed date names no day.

Modules:
- `Roster`: the record and the remote outcome.
- `Text`: JavaScript string `<`, `trim`, `toLowerCase` and `includes`.
- `Seqs`: `filter`.
- `Projection`: search and stable sort.
- `ListController`: the list screen's state.
- `Calendar`: dates, dayjs's whole-year difference, the ISO text form.
- `Rules`: the field rules.
- `UserForm`: upsert, validation order, option guard, role menu, and the form's state.

Remote calls (`PUT`, `DELETE`) are reduced to an `Outcome` parameter, `Succeeded` or `Failed`. The clock is a parameter: `today`.

The sort engine is modelled by insertion sort (`Projection.SortBy`).
`Projection.SortIsUnique` proves that any sorted output that keeps tied records in input order equals `SortBy`.
So every stable sort with this comparator, including `Array.prototype.sort`, gives the same rows.

Several behaviours of the code are easy to misread; the model follows the code:
- **Mounting.** The form is always mounted with a record. The home page hands over the record being edited or, failing that, a default record (`UserForm.DefaultUser`: id `'0'`, gender `''`, birth date `'00.00.0000'`). So a fresh form has `'0'` selected and the gender `''`, and the nurse option reads "Медсестра" until a gender is picked. A fresh create from the main form is sent and stored under id `'0'`, and the next such create overwrites that entry (`UserForm.SecondSaveReusesSlot`). Dialog saves from a fresh form carry no id, so while no stored record has id `'0'` each of them adds another id-less entry in front (`UserForm.IdlessSavesAccumulate`). The selection is null before the mount effect runs, and also after it when the record handed over for editing is one of those id-less entries. Emptying the name box later gives `undefined`, which the model leaves out (see below). The model covers this by constructing the form with `Some(DefaultUser)`.
- **Upsert matching.** The upsert matches on the selected id, not on the record's own id.
  A create therefore prepends only when no stored record has the selected id.
  With nothing selected, a stored record whose id is null is overwritten instead (`UserForm.UnsavedRecordIsOverwritten`).
  So while nothing is selected, a second unsaved create overwrites the first instead of adding a second entry.
- **Name rule.** The name rule is the plain `required` rule. It rejects only `""` and null, not a name that is blank after trimming.
- **Free text.** Typing free text that keeps the box non-empty does not clear the selected id. The selection changes in three ways:
  - choosing an option sets it, and puts the option's label in the name box;
  - emptying the box clears it to `undefined`;
  - a record handed over for editing sets it.
- **New-user dialog.** The dialog saves a record that has no id and an empty birth date. It has no id field, and its birth-date picker writes the main form instead of the dialog's record. Its role values (`doctor`, `med`, `admin`) are not the main form's role values.
- **Descending order.** Descending order inverts the comparator, so records with equal keys keep their input order in both directions (`Projection.DescendingIsNotReversedAscending`). The result is not the reverse of the ascending order.

## Model

| member | source | states |
|---|---|---|
| Text.Lt | src/enteties/UserList/ui/UserList.tsx:105-106 | JavaScript's `<` on strings: at the first differing character the smaller code wins, and a proper prefix is smaller |
| Text.LtIrreflexive | src/enteties/UserList/ui/UserList.tsx:105-106 | no string is smaller than itself under JavaScript's `<` |
| Text.LtTransitive | src/enteties/UserList/ui/UserList.tsx:105-106 | string `<` is transitive |
| Text.LtTrichotomy | src/enteties/UserList/ui/UserList.tsx:105-106 | two different strings are always ordered one way or the other |
| Text.LtAsymmetric | src/enteties/UserList/ui/UserList.tsx:105-106 | `a < b` and `b < a` never both hold |
| Text.TrimStart | src/enteties/UserList/ui/UserList.tsx:83 | the result is a suffix with no leading whitespace, and every dropped character is whitespace |
| Text.TrimEnd | src/enteties/UserList/ui/UserList.tsx:83 | the result is a prefix with no trailing whitespace, and every dropped character is whitespace |
| Text.Trim | src/enteties/UserList/ui/UserList.tsx:83 | `trim` gives the piece of the search between a whitespace-only front and a whitespace-only back, and that piece neither starts nor ends with whitespace |
| Text.TrimEmptyIff | src/enteties/UserList/ui/UserList.tsx:83 | the trimmed search is empty exactly when the search is all whitespace |
| Text.Lower | src/enteties/UserList/ui/UserList.tsx:85 | `toLowerCase` keeps the length, leaves no Latin or basic Cyrillic capital, and keeps every other character as it was |
| Text.LowerIgnoresCase | src/enteties/UserList/ui/UserList.tsx:85 | strings that differ only in the case of their letters lower-case to the same string |
| Text.Includes | src/enteties/UserList/ui/UserList.tsx:85 | `includes`: the term is a prefix of the name or of one of its suffixes |
| Text.IncludesIff | src/enteties/UserList/ui/UserList.tsx:85 | `includes` holds exactly when the term occurs at some position of the name |
| Seqs.Filter | src/enteties/UserList/ui/UserList.tsx:84-86 | `filter` never grows the list, and everything it keeps was in the input and passes the test |
| Seqs.FilterMembership | src/enteties/UserList/ui/UserList.tsx:84-86 | an element survives `filter` exactly when it is in the input and passes the test |
| Seqs.FilterAppend | src/enteties/UserList/ui/UserList.tsx:84-86 | `filter` distributes over concatenation, so survivors keep their relative order |
| Seqs.FilterKeepsAll | src/enteties/UserList/ui/UserList.tsx:84-86 | when every element passes, `filter` returns the input |
| Seqs.FilterIdempotent | src/enteties/UserList/ui/UserList.tsx:84-86 | filtering twice with the same test equals filtering once |
| Seqs.FilterPartition | src/enteties/UserList/ui/UserList.tsx:125 | the kept and the dropped elements together are the input, as multisets |
| Seqs.FilterSameTest | src/enteties/UserList/ui/UserList.tsx:84-86 | tests that agree on every element keep the same elements |
| Projection.Key | src/enteties/UserList/ui/UserList.tsx:89-104 | the comparator reads the name, the gender or the birth date, according to the sort column |
| Projection.Compare | src/enteties/UserList/ui/UserList.tsx:88-108 | the comparator returns -1, 0 or 1, and returns 0 exactly on equal keys |
| Projection.CompareConsistent | src/enteties/UserList/ui/UserList.tsx:105-107 | swapping the arguments negates the comparator; it lets `a` go first exactly when `a`'s key may precede `b`'s in the chosen direction |
| Projection.KeyLeReflexive | src/enteties/UserList/ui/UserList.tsx:105-107 | the order the comparator induces is reflexive |
| Projection.KeyLeTotal | src/enteties/UserList/ui/UserList.tsx:105-107 | the order the comparator induces is total |
| Projection.KeyLeTransitive | src/enteties/UserList/ui/UserList.tsx:105-107 | the order the comparator induces is transitive |
| Projection.KeyLeAntisymmetric | src/enteties/UserList/ui/UserList.tsx:105-107 | keys that may precede each other both ways are equal |
| Projection.Insert | src/enteties/UserList/ui/UserList.tsx:88 | inserting adds exactly the one record, as multisets |
| Projection.SortBy | src/enteties/UserList/ui/UserList.tsx:88 | the sorted copy is a permutation of its input |
| Projection.InsertSorted | src/enteties/UserList/ui/UserList.tsx:88-108 | inserting into a sorted list keeps it sorted |
| Projection.SortSorted | src/enteties/UserList/ui/UserList.tsx:88-108 | the output is non-decreasing (ascending) or non-increasing (descending) in the key |
| Projection.InsertStable | src/enteties/UserList/ui/UserList.tsx:105-107 | inserting puts the new record in front of the records with its key, and keeps their order |
| Projection.SortStable | src/enteties/UserList/ui/UserList.tsx:105-107 | records with equal keys keep their input order |
| Projection.SortedStableUnique | src/enteties/UserList/ui/UserList.tsx:88 | two sorted lists with the same records per key are equal |
| Projection.SortIsUnique | src/enteties/UserList/ui/UserList.tsx:88 | any sorted output that keeps ties in input order equals the model's sort |
| Projection.NameMatches | src/enteties/UserList/ui/UserList.tsx:84-86 | the search test: the lower-cased name includes the lower-cased term |
| Projection.FilterByName | src/enteties/UserList/ui/UserList.tsx:83-87 | the searched records are no more than the roster, and each of them is in the roster |
| Projection.Project | src/enteties/UserList/ui/UserList.tsx:81-110 | the rows are the searched records rearranged, so each row comes from the roster |
| Projection.BlankSearchKeepsEveryone | src/enteties/UserList/ui/UserList.tsx:83 | an empty or whitespace-only search filters nothing out |
| Projection.SearchKeepsExactlyMatches | src/enteties/UserList/ui/UserList.tsx:84-86 | otherwise a record is kept exactly when its lower-cased name contains the lower-cased trimmed search |
| Projection.SearchIgnoresCase | src/enteties/UserList/ui/UserList.tsx:84-86 | trimmed searches that differ only in letter case keep the same records |
| Projection.NameMatchIgnoresCase | src/enteties/UserList/ui/UserList.tsx:85 | whether a record is kept does not depend on the case of its name |
| Projection.SearchKeepsOrder | src/enteties/UserList/ui/UserList.tsx:84-86 | the search keeps the relative order of the records it keeps |
| Projection.ProjectSpec | src/enteties/UserList/ui/UserList.tsx:81-110 | the rows are a permutation of the searched records, sorted by the key in the chosen direction, with ties in input order |
| Projection.DescendingIsNotReversedAscending | src/enteties/UserList/ui/UserList.tsx:105-107 | two records with the same name come out in input order in both directions |
| Projection.Pad2Order | src/enteties/UserList/ui/UserList.tsx:100-106 | zero-padded two-digit numbers compare as strings like the numbers |
| Projection.BirthDateKeyIsChronological | src/enteties/UserList/ui/UserList.tsx:100-106 | a stored birth date sorts before another exactly when it is the earlier day |
| ListController.RemoveById | src/enteties/UserList/ui/UserList.tsx:125 | removal never grows the list, and no survivor has the id |
| ListController.RemoveByIdSpec | src/enteties/UserList/ui/UserList.tsx:125 | a record survives exactly when it was present and its id differs; no survivor has the id; removing again changes nothing; the list never grows |
| ListController.RemoveByIdKeepsOrder | src/enteties/UserList/ui/UserList.tsx:125 | removal distributes over concatenation, so the survivors keep their order |
| ListController.RemoveAbsentId | src/enteties/UserList/ui/UserList.tsx:125 | nothing is removed when no record has the id |
| ListController.UserList.constructor | src/enteties/UserList/ui/UserList.tsx:64-79 | the list starts as a copy of the stored roster, sorted by name ascending, with no search, no pending delete and no notice; the rows are then the whole roster |
| ListController.UserList.Rows | src/enteties/UserList/ui/UserList.tsx:81-110 | the rows on screen come from the working list |
| ListController.UserList.HandleSort | src/enteties/UserList/ui/UserList.tsx:112-119 | the same column flips the direction; another column becomes the sort column, ascending |
| ListController.UserList.SetSearch | src/enteties/UserList/ui/UserList.tsx:151 | the search text becomes the typed text |
| ListController.UserList.RequestDelete | src/enteties/UserList/ui/UserList.tsx:221 | the row's record waits for confirmation |
| ListController.UserList.CancelDelete | src/enteties/UserList/ui/UserList.tsx:241 | cancelling clears only the pending record |
| ListController.UserList.ConfirmDelete | src/enteties/UserList/ui/UserList.tsx:121-140 | a request is sent exactly when a record is pending; on success the working and stored lists both become the list without that id, the pending record is cleared and the notice opens, and no row on screen has the id; otherwise nothing changes |
| ListController.UserList.CloseDeleteSuccess | src/enteties/UserList/ui/UserList.tsx:249 | closing the notice hides it |
| Calendar.DaysInMonth | src/enteties/UserForm/ui/BirthDatePicker.tsx:26 | every month has 28 to 31 days |
| Calendar.PrevDay | src/enteties/UserForm/ui/BirthDatePicker.tsx:26-27 | the day before is a valid earlier date with no valid date in between |
| Calendar.Anniversary | src/enteties/UserForm/ui/BirthDatePicker.tsx:26 | the anniversary is a valid date in the birth month, `n` years on |
| Calendar.CompleteMonths | src/enteties/UserForm/ui/BirthDatePicker.tsx:26 | the whole months are non-negative exactly when today is not before the birth date |
| Calendar.AgeYears | src/enteties/UserForm/ui/BirthDatePicker.tsx:26 | the whole-year age is the whole months divided by twelve, truncated toward zero |
| Calendar.AgeOnAnniversary | src/enteties/UserForm/ui/BirthDatePicker.tsx:26 | on the `n`th anniversary the whole-year age is `n` |
| Calendar.AgeOnDayBeforeAnniversary | src/enteties/UserForm/ui/BirthDatePicker.tsx:26 | on the day before the `n`th anniversary the age is `n - 1` |
| Calendar.CompleteMonthsMonotonic | src/enteties/UserForm/ui/BirthDatePicker.tsx:26 | whole months never decrease as time passes |
| Calendar.AgeMonotonic | src/enteties/UserForm/ui/BirthDatePicker.tsx:26 | the whole-year age never decreases as time passes |
| Calendar.Pad2Value | src/enteties/UserForm/ui/BirthDatePicker.tsx:35 | two padded digits read back as the number |
| Calendar.Pad2OfDigits | src/enteties/UserForm/ui/BirthDatePicker.tsx:35 | padding the number two digits spell gives back the digits |
| Calendar.FormatIso | src/enteties/UserForm/ui/BirthDatePicker.tsx:35 | the formatted date has the `YYYY-MM-DD` shape |
| Calendar.ParseIso | src/enteties/UserForm/ui/BirthDatePicker.tsx:24 | a string names a date only when it has the `YYYY-MM-DD` shape and the day exists |
| Calendar.ParseFormat | src/enteties/UserForm/ui/BirthDatePicker.tsx:35 | reading back a formatted date gives the date |
| Calendar.FormatParse | src/enteties/UserForm/ui/BirthDatePicker.tsx:24 | a string that names a date is that date's only `YYYY-MM-DD` form |
| Rules.Required | src/enteties/UserForm/ui/BirthDatePicker.tsx:21 | the rule fails, with the required message, exactly on null or `""` |
| Rules.AgeCheck | src/enteties/UserForm/ui/BirthDatePicker.tsx:22-28 | a falsy value passes, leaving it to `required`; any failure carries the age message |
| Rules.BirthDateRule | src/enteties/UserForm/ui/BirthDatePicker.tsx:20-28 | a falsy value fails as required; a value passes exactly when it names a date with age at least 18 today |
| Rules.PickerValue | src/enteties/UserForm/ui/BirthDatePicker.tsx:35 | a cleared picker stores null; a picked day stores a `YYYY-MM-DD` string that reads back as that day; an invalid date value stores "Invalid Date" |
| Rules.PickedDateRule | src/enteties/UserForm/ui/BirthDatePicker.tsx:20-35 | a cleared picker fails as required; an invalid date value fails with the age message; a picked day passes exactly when the age is at least 18, and otherwise fails with the age message |
| Rules.EighteenthBirthdayBoundary | src/enteties/UserForm/ui/BirthDatePicker.tsx:26-27 | on the 18th birthday the rules pass; on the day before they fail with the age message |
| Rules.PassingStaysPassing | src/enteties/UserForm/ui/BirthDatePicker.tsx:26-27 | a birth date that passes today passes on every later day |
| UserForm.FindIndex | src/enteties/UserForm/ui/UserForm.tsx:111 | -1 when no record has the id, otherwise the first index with the id |
| UserForm.Upsert | src/enteties/UserForm/ui/UserForm.tsx:110-120 | the first record with the selected id is replaced, the length and every other index unchanged; with no match the record is prepended and the old entries shift by one |
| UserForm.UpsertIdempotent | src/enteties/UserForm/ui/UserForm.tsx:110-120 | saving a record under its own id twice stores it once |
| UserForm.SecondSaveReusesSlot | src/enteties/UserForm/ui/UserForm.tsx:107-124 | after a save whose record carries the selected id, the next save under the same selection overwrites it: the roster does not grow, and it ends as if only the second save had happened |
| UserForm.IdlessSavesAccumulate | src/enteties/UserForm/ui/UserForm.tsx:107-124 | a save of an id-less record (the dialog's, UserForm.tsx:165-166) under a selection no stored record has goes in front and leaves the selection unmatched, so two such saves add two entries |
| UserForm.UnsavedRecordIsOverwritten | src/enteties/UserForm/ui/UserForm.tsx:111 | matching uses the selected id: with nothing selected, a stored id-less record is overwritten and the roster does not grow |
| UserForm.Validate | src/enteties/UserForm/ui/UserForm.tsx:127 | all rules pass exactly when name, gender and role are non-empty and the birth date names a date with age at least 18 |
| UserForm.FirstInvalid | src/enteties/UserForm/ui/UserForm.tsx:128-133 | no field exactly when all pass; otherwise a failing field before which, in the order name, gender, birth date, role, every field passes |
| UserForm.CompoundData | src/enteties/UserForm/ui/UserForm.tsx:136-140 | the sent record has the typed name and the selected id, and otherwise equals the submitted values |
| UserForm.IsInLocalStorage | src/enteties/UserForm/ui/UserForm.tsx:218 | an option is already stored when some stored record has its id |
| UserForm.InLocalStorageIff | src/enteties/UserForm/ui/UserForm.tsx:218 | an option is already stored exactly when the upsert would find a slot for its id |
| UserForm.OptionLabel | src/enteties/UserForm/ui/UserForm.tsx:212-216 | an option reads as its first name, a space, and its last name |
| UserForm.NurseLabel | src/enteties/UserForm/ui/UserForm.tsx:312-315 | no gender gives the combined label; `male` gives the masculine label; any other gender gives the feminine one |
| UserForm.RoleOptions | src/enteties/UserForm/ui/UserForm.tsx:311-316 | three roles; each shows its value, except the nurse role, whose label follows the gender |
| UserForm.RoleValuesIgnoreGender | src/enteties/UserForm/ui/UserForm.tsx:311-316 | the three role values never depend on the gender, and only the nurse option's label does |
| UserForm.Form.constructor | src/enteties/UserForm/ui/UserForm.tsx:90-105 | a handed-over record preselects its id, name and gender; otherwise nothing is selected; both dialogs are closed |
| UserForm.Form.UpdateUser | src/enteties/UserForm/ui/UserForm.tsx:107-124 | on success the stored roster becomes the upsert keyed by the selected id and the success dialog opens; on failure nothing changes |
| UserForm.Form.OnSubmit | src/enteties/UserForm/ui/UserForm.tsx:126-143 | on a failing rule focus goes to the first failing field and nothing is sent or stored; otherwise the overlaid record is sent and upserted on success |
| UserForm.Form.HandleNewUserSubmit | src/enteties/UserForm/ui/UserForm.tsx:165-168 | the dialog's record is upserted under the selected id on success, and the dialog closes whatever the outcome |
| UserForm.Form.OnInputChange | src/enteties/UserForm/ui/UserForm.tsx:189-192 | the typed text becomes the input value |
| UserForm.Form.OnGenderChange | src/enteties/UserForm/ui/UserForm.tsx:273-276 | the chosen gender is recorded, and the nurse role then reads as the masculine label for `male` and the feminine one otherwise |
| UserForm.Form.RoleMenu | src/enteties/UserForm/ui/UserForm.tsx:311-316 | the role menu shows three roles, the nurse label following the chosen gender |
| UserForm.Form.OnOptionClick | src/enteties/UserForm/ui/UserForm.tsx:189-234 | a click selects the option exactly when its id is not stored, and then puts the option's label in the name box; a suppressed click changes neither |
| UserForm.Form.OpenNewUserModal | src/enteties/UserForm/ui/UserForm.tsx:157-159 | the new-user dialog opens |
| UserForm.Form.CloseNewUserModal | src/enteties/UserForm/ui/UserForm.tsx:161-163 | the new-user dialog closes |
| UserForm.Form.SetNewUserName | src/enteties/UserForm/ui/NewUserModal.tsx:54-56 | the dialog's name field changes only the name of the dialog's record |
| UserForm.Form.SetNewUserGender | src/enteties/UserForm/ui/NewUserModal.tsx:63-67 | the dialog's gender field changes only the gender of the dialog's record |
| UserForm.Form.SetNewUserRole | src/enteties/UserForm/ui/NewUserModal.tsx:80-84 | the dialog's role field changes only the role of the dialog's record |
| UserForm.Form.CloseSuccessModal | src/enteties/UserForm/ui/UserForm.tsx:145-147 | the success dialog closes |

## Left out

- Network I/O: the `fetch` calls, the API key and the base address. Each remote call is an `Outcome` parameter, and `onError` only logs, which the model omits.
- react-query caching, infinite pagination and `invalidateQueries`. Loading the autocomplete options is not modelled.
- `use-local-storage` persistence and JSON serialisation. The stored roster is a field of each class. The list copies it into its working list when the list is built (`ListController.UserList.constructor`), and a successful delete writes both. Changes made to the store from elsewhere while the list is open (another tab, the form) are not modelled.
- `handleScroll`, because it compares DOM scroll metrics in floating point.
- Locale formatting of dates in the list (`formatDate`), and every rendering detail: styles, dialogs' text, the success dialog's wording.
- `toLowerCase` covers ASCII and basic Cyrillic letters only. Full Unicode case mapping is not modelled.
- String `<` is modelled on characters. Comparison by UTF-16 code units differs only for characters outside the Basic Multilingual Plane.
- Calendar.CompleteMonths follows dayjs's month difference only when today is not earlier than the birth date. For a birth date in the future it counts whole months the same way, where dayjs counts toward zero from the other side.
- Rules.AgeCheck reads only `YYYY-MM-DD` strings with years 0-9999. dayjs's other input formats and its rollover of invalid dates are not modelled, so such a value fails the age rule here.
- UserForm.Form.OnSubmit focuses from the rules' results on the submitted values. The source reads the error snapshot of the last render, and the form library's submit wrapper validates before calling it. Both are internals of react-hook-form.
- UserForm.Form.OnOptionClick models a mouse click on an option. Keyboard selection through the autocomplete bypasses the guard, and it is not modelled.
- Emptying the name box makes the autocomplete report a cleared choice, which sets the selection to `undefined`. Strict equality tells `undefined` apart from null, and the model has a single "nothing selected" value, so clearing is not modelled.
- Calendar.ParseIso reads a year from 0 to 99 as written. dayjs builds such a date with `new Date(y, …)`, which reads it as 1900-1999. The rule's verdict differs only for a `today` within a few years of such a date.
- The optional `User` fields (school, e-mail, avatar and others) are not modelled, because no modelled operation reads them.
- The order in which React applies state updates and runs callbacks. Each handler is modelled as one atomic step.
