# Record layer of a spreadsheet-backed administration tool

This project models the record layer of a Streamlit administration tool for a senior-education association. The tool keeps every entity (teachers, users, classes, timetables) in a Google Sheets worksheet whose first row is the header. Every section of the tool goes through one generic layer to read, validate, create, update, delete and search records. The model covers three parts:

- **The record layer** (`Crud`, from `utils/crud.py`):
  - the sheet configuration;
  - sequential ID generation (`prefix` + a zero-padded number one above the largest existing one);
  - the validators for required, unique and schedule-conflict fields, and their concatenation;
  - create, update and delete, from 0-based snapshot positions to storage rows `index + 2`;
  - case-insensitive search, equality filters, and one page of results.
- **The field predicates** (`Validation`, from `utils/validation.py`):
  - phone, NIF, postal code and e-mail checks;
  - half-open time-interval overlap and range checks;
  - the rule-driven form validator and the error compiler;
  - display-name truncation and accent-insensitive normalisation.
- **The teacher section** (`Teachers`, from `secoes/professores.py`):
  - its configuration and form rules;
  - the accent-insensitive duplicate-name check before a create;
  - the update path;
  - the guards that drop a stale selected position in the edit and delete views;
  - the any-cell list search.

Three supporting modules carry the rest:

- `PyValues` holds the Python and pandas semantics the source relies on:
  - `str.strip` / `lower` / `title`, `int()`, `f"{n:04d}"`;
  - slicing with negative bounds;
  - `<` between values, which raises on mixed kinds.
- `Worksheet` is the positional store (a class with `append_row`, `update` and `delete_rows`) and the snapshot `get_all_records` builds from it.
- `Session` is the part of `st.session_state` the layer reads and writes.

Python exceptions that the source lets escape, or catches and turns into `False`, are modelled by `Checked<T> = Done(value) | Raised`. Cell values are `Value = Str | Int | Null`.

## Model

| member | source | states |
|---|---|---|
| Crud.DefaultConfig | utils/crud.py:27-39 | a configuration built with every optional argument left out has ID column "ID", an empty prefix, no required or unique columns and no conflict rule |
| Crud.CountedIff | utils/crud.py:82-89 | a number is among the collected existing IDs exactly when some value of the column is a string that starts with the prefix and whose remainder, with every occurrence of the prefix removed, parses with `int()`; nothing else is collected and nothing aborts the scan |
| Crud.MaxOf | utils/crud.py:93 | `max` of a non-empty list is a member of it and at least every member |
| Crud.NextNumber | utils/crud.py:78-95 | an empty snapshot, a missing ID column or no counted ID gives `start_num`; otherwise the result is one above a counted number and above every counted number |
| Crud.GenerateUniqueId | utils/crud.py:63-95 | the loop over the column computes prefix + the next number, formatted `{:04d}` |
| Crud.IdNumberOfGenerated | utils/crud.py:78-94 | a generated ID parses back to its number under the same prefix, when the prefix cannot occur inside digits |
| Crud.NextIdFresh | utils/crud.py:78-95 | the generated ID differs from every value already in the ID column, counted or not |
| Crud.NextIdAdvances | utils/crud.py:78-95 | after appending a record that holds the generated ID, the next generated number is one higher |
| Crud.ValidateRequiredFields | utils/crud.py:98-128 | the loop appends exactly the messages of the required-field specification, in field order |
| Crud.RequiredErrorsIff | utils/crud.py:114-126 | at most one message per field; no message exactly when no field is missing (absent, `None`, or a blank string); every missing field gets its message |
| Crud.RequiredExamples | utils/crud.py:119-126 | a present integer 0 passes, while a whitespace-only string is reported with its display name |
| Crud.HasClashIff | utils/crud.py:156-164 | a clash is a row other than the excluded position whose `str(...).strip().lower()` value equals the new value's |
| Crud.ValidateUniqueFields | utils/crud.py:131-168 | the loop over the unique fields yields exactly the uniqueness specification |
| Crud.FindClash | utils/crud.py:156-166 | the inner row scan, which skips the excluded position and stops at the first match, finds a clash exactly when one exists |
| Crud.FindOther | utils/crud.py:159-166 | scanning the canonical cells finds the key exactly when some non-excluded position holds it |
| Crud.UniqueErrorsIff | utils/crud.py:151-166 | at most one message per field (the `break`), and none exactly when no field of the data clashes |
| Crud.UniqueExcludesOwnRow | utils/crud.py:160-161 | a record compared against a snapshot that holds only its own row at the excluded position passes |
| Crud.UniqueIgnoresCaseAndSpaces | utils/crud.py:156-164 | " ana silva " in the sheet clashes with a new "Ana Silva" |
| Crud.ResourceMessagesIff | utils/crud.py:214-218 | a resource field gives its message exactly when the data holds it with the row's value, and every message names a resource field |
| Crud.ValidateCustomRules | utils/crud.py:171-220 | the row loop yields exactly the conflict specification: nothing unless the rule and the day/start/end data are present; skips the excluded position and other days; raises when `<` compares values of different kinds |
| Crud.CollectResourceClashes | utils/crud.py:214-218 | the loop over the resource fields yields exactly their messages |
| Crud.ConflictsRaisedStays | utils/crud.py:203-218 | once a row raises, the whole check raises |
| Crud.ConflictsQuiet | utils/crud.py:203-218 | when no non-excluded row conflicts, there is no message |
| Crud.ConflictsComplete | utils/crud.py:203-218 | every message that a non-excluded row yields appears in the result of the check |
| Crud.ConflictsBounded | utils/crud.py:203-218 | at most one message per row and resource field, each naming a resource field |
| Crud.BackToBackQuiet | utils/crud.py:212 | an existing booking that ends when the new one starts, or starts when it ends, causes no message |
| Crud.StrLessHHMM | utils/crud.py:212 | for valid times, comparing "HH:MM" strings with `<` orders them as their minutes since midnight |
| Crud.TimesOverlapAgrees | utils/crud.py:209-212 | on "HH:MM" strings the stored-value test `new_start < existing_end and new_end > existing_start` agrees with `check_time_overlap` of utils/validation.py |
| Crud.ValidateData | utils/crud.py:223-258 | required errors, then uniqueness errors, then custom-rule errors, concatenated in that order |
| Crud.ValidationErrorsEmptyIff | utils/crud.py:238-258 | validation passes exactly when no required field is missing, no unique field clashes and the custom rules yield nothing |
| Crud.WithId | utils/crud.py:287-290 | the ID is generated only when the ID column is missing or falsy; every other field is kept |
| Crud.RowCells | utils/crud.py:294 | the row holds the data's value under each column, in column order, and `''` where the data has none |
| Crud.CreateRecordUnder | utils/crud.py:276-296 | the shared body of both creates: nothing is appended when validation reports anything; otherwise the data with its generated ID is appended as one row laid out by the given column list |
| Crud.CreateRecordAsWritten | utils/crud.py:276-313 | `create_record` as written: nothing is appended when validation reports anything; otherwise the row is built from the snapshot's columns and appended |
| Crud.CreateOnHeaderOnlyLosesRecord | utils/crud.py:294-296 | on a worksheet that holds only its header, the written row has no cells, so none of the record's values (its ID included) is stored; that the row then reads back as empty strings follows from the model's choice of storing an empty row |
| Crud.CreateRecord | utils/crud.py:276-313 | `create_record` with the row built in header order: appends exactly one row, the validated data with its ID, or changes nothing |
| Crud.CreateRecordReadsBack | utils/crud.py:292-296 | the appended record reads back as the data under each header column; on a non-empty worksheet this row is the one the written code builds |
| Crud.UpdatedCells | utils/crud.py:343-354 | the new row is built in snapshot column order; reading the snapshot at a position it lacks raises exactly when some column must be taken from it |
| Crud.UpdateRecord | utils/crud.py:331-372 | validates with the own position excluded; overwrites storage row `index + 2` with the built row, or changes nothing and reports failure |
| Crud.UpdateKeepsOtherColumns | utils/crud.py:346-357 | after the update, columns the data names hold its values and every other column keeps its stored value |
| Crud.DeleteRecord | utils/crud.py:390-428 | the first call for a position only arms `confirm_delete`; a call for the armed position deletes storage row `index + 2` and clears the confirmation, or fails and changes nothing |
| Crud.RestrictKept | utils/crud.py:471-474 | applying one more equality filter to the kept positions is keeping under the longer filter list |
| Crud.KeptIgnoresFilter | utils/crud.py:473 | a filter whose column is absent or whose value is `None` changes nothing |
| Crud.SearchAndFilter | utils/crud.py:433-480 | the text and filter loops compute the search specification, with the empty-frame and missing-search-column cases |
| Crud.SelectByText | utils/crud.py:456-468 | the text-search loop keeps exactly the positions of the text specification |
| Crud.Narrow | utils/crud.py:474 | one equality filter keeps exactly the positions whose cell equals the value |
| Crud.RowHit | utils/crud.py:461-463 | the OR over the search columns is the text-hit predicate |
| Crud.KeptIff | utils/crud.py:456-474 | a position is kept exactly when its row satisfies the text search and every applicable filter |
| Crud.KeptIncreasing | utils/crud.py:465-474 | kept positions keep the snapshot's order |
| Crud.KeptAll | utils/crud.py:467-468 | with empty text or no search columns every row is kept |
| Crud.SearchResultPage | utils/crud.py:476-480 | the page has at most `limit` rows, each of them kept, in the snapshot's order |
| Crud.SearchResultWindow | utils/crud.py:476-480 | the page is consecutive kept positions from the clamped start `offset*limit`; for a non-negative offset it is exactly the kept positions in the window `[offset*limit, offset*limit + limit)` |
| Validation.PhoneValidIff | utils/validation.py:80-83 | empty is valid; otherwise valid exactly when every character is a space or a digit and there are exactly nine digits |
| Validation.PhoneIgnoresSpaces | utils/validation.py:82 | inserting a space does not change validity |
| Validation.NifOfPaddedDigits | utils/validation.py:95-97 | nine digits with surrounding whitespace are a valid NIF |
| Validation.NifShape | utils/validation.py:95-97 | a valid non-empty NIF is nine digits with only whitespace around them |
| Validation.PostalRoundTrip | utils/validation.py:109-111 | every `DDDD-DDD` code built from two numbers is valid and gives the numbers back |
| Validation.EmailCheckIffPattern | utils/validation.py:125 | the executable split check agrees with the pattern `local@domain.tld` (local from `[a-zA-Z0-9._%+-]`, domain from `[a-zA-Z0-9.-]`, a TLD of two or more letters) |
| Validation.EmailValidIff | utils/validation.py:123-125 | empty is valid; otherwise the stripped value must match the pattern |
| Validation.OverlapIffCommonMinute | utils/validation.py:189-200 | for non-empty intervals, overlap holds exactly when some minute lies in both half-open intervals |
| Validation.OverlapProperties | utils/validation.py:189-200 | overlap is symmetric; back-to-back intervals do not overlap; an interval overlaps itself exactly when it is non-empty |
| Validation.RangeProperties | utils/validation.py:292-298 | with no bounds every value passes; with both bounds exactly the closed interval passes; narrowing the bounds only removes values |
| Validation.ValidateFormData | utils/validation.py:332-391 | the rule loop computes the form-validation specification |
| Validation.FormErrorsStep | utils/validation.py:344-391 | each rule appends its own messages after the earlier rules' messages |
| Validation.FormErrorsAtMostOnePerRule | utils/validation.py:344-376 | at most one message per rule |
| Validation.FormErrorsOnStringsDone | utils/validation.py:356-376 | a form of strings and `None` never raises |
| Validation.RuleErrorsCases | utils/validation.py:345-376 | a missing or empty value gives the required message only for a required rule; a non-empty string gives one type message exactly when its predicate fails |
| Validation.CompileValidationErrors | utils/validation.py:303-329 | the loop over the results computes the compiled messages |
| Validation.CompiledErrorsProperties | utils/validation.py:314-327 | no compiled message is empty, and there is none exactly when every result passes |
| Validation.FormatDisplayName | utils/validation.py:406-412 | an empty name gives "N/A"; a name within the limit is unchanged; for a limit of at least 3, a longer one becomes its first `max_length - 3` characters + "...", of length `max_length` |
| Validation.NormalizeString | utils/validation.py:214-220 | the output is pure ASCII, and a non-string or empty input gives "" |
| Validation.NormalizeIdempotent | utils/validation.py:217-220 | normalising a normalised string changes nothing |
| Validation.NormalizeAccented | utils/validation.py:217-220 | "José" normalises to "jose" |
| Validation.NormalizeUpperAccented | utils/validation.py:217-220 | "JOÃO" normalises to "joao" |
| Teachers.TeacherRulesMessages | secoes/professores.py:47-51 | on a form of strings the rules give: a required message for an empty name; a required or nine-digit message for the phone; a format message for a non-empty malformed e-mail |
| Teachers.FirstTeacherRaises | secoes/professores.py:164-166 | on a worksheet that holds only its header, a named teacher makes the duplicate check raise `KeyError` before anything is created |
| Teachers.DuplicateNameErrorsAsWritten | secoes/professores.py:164-169 | the duplicate check as written raises exactly when the name is truthy and the snapshot has no name column; otherwise it yields the duplicate message or nothing |
| Teachers.DuplicateNameErrors | secoes/professores.py:164-169 | the duplicate check yields either the duplicate message or nothing |
| Teachers.DuplicateNameIff | secoes/professores.py:164-169 | the duplicate message appears exactly when the name is truthy and some existing name normalises to the same string; this agrees with the written check wherever that one does not raise; an empty snapshot gives no message |
| Teachers.DuplicateIgnoresAccents | secoes/professores.py:165-168 | "José" is refused next to a stored "Jose" |
| Teachers.SaveTeacher | secoes/professores.py:149-179 | `salvar_professor` as written: form errors, then the duplicate message; it raises when the form rules raise or a named teacher meets a snapshot without the name column; nothing is created while any message exists; otherwise the result and the appended row (in the snapshot's column order) are those of `create_record` as written |
| Teachers.SaveErrorsAgree | secoes/professores.py:161-169 | the written and the corrected message lists agree wherever the written one does not raise, and always when the snapshot has the name column |
| Teachers.SaveTeacherCorrected | secoes/professores.py:149-179 | the corrected save: a missing name column means no existing names, and the created row follows the worksheet's header; otherwise as `salvar_professor` |
| Teachers.UpdateTeacher | secoes/professores.py:289-311 | only the form rules, then an update with the teacher's own position excluded from the uniqueness check |
| Teachers.UpdateMissesAccentVariant | secoes/professores.py:301-311 | renaming to "José" next to a stored "Jose" passes the update's uniqueness check, although the create path refuses that name |
| Teachers.CheckEditView | secoes/professores.py:200-229 | no selection: not shown; a selected position at or past the snapshot's end is dropped and not shown; otherwise shown, and "back" drops the selection |
| Teachers.CheckDeleteView | secoes/professores.py:314-356 | the new session and rows on every path: no selection or a stale one is not shown (a stale one is dropped); idle changes nothing; back and cancel drop the selection; a first confirm arms `confirm_delete`; a confirm of the armed position inside the store removes that row and drops both keys, and outside it changes nothing |
| Teachers.CellHitsIff | secoes/professores.py:377-381 | a row is listed exactly when one of its cells, as lowered text, contains the lowered search text |
| Teachers.CellHitsIncreasing | secoes/professores.py:381 | the listed positions keep the snapshot's order |
| Teachers.TeacherSearchIsGenericSearch | secoes/professores.py:377-383 | the teacher search is the generic search over every column with no filters |
| Teachers.TeacherSearchAgrees | secoes/professores.py:377-383 | the teacher list equals one page of the generic search that holds every row |
| PyValues.StripEmptyIff | utils/crud.py:121 | `str.strip()` is empty exactly when the string is all whitespace |
| PyValues.StripOfPadded | utils/crud.py:156-163 | stripping removes exactly the surrounding whitespace |
| PyValues.ParseFormat04 | utils/crud.py:86-93 | `int()` reads back every number that `{:04d}` formats, negative ones included |
| PyValues.PySliceWindow | utils/crud.py:477-480 | `iloc[i:i+len]` holds at most `len` elements, which are consecutive elements of the input |
| PyValues.PySliceExact | utils/crud.py:477-480 | `iloc[i:i+len]` is consecutive elements from the clamped start, and from a non-negative start exactly the elements in `[i, i+len)` that exist |
| PyValues.PyLess | utils/crud.py:212 | `<` raises exactly when the two values are not both strings or both integers |
| PyValues.PyLessIrreflexive | utils/crud.py:212 | a value is never below itself |
| Worksheet.SnapshotOf | utils/crud.py:56-57 | one record per data row, each holding the row's cell under every header name; a worksheet that holds only its header gives a frame with no columns |
| Worksheet.Sheet.AppendRow | utils/crud.py:296 | `append_row` adds the cells as a new last data row and keeps the header and every earlier row |
| Session.SessionState.Put | utils/crud.py:394-395 | `st.session_state.confirm_delete = index` sets that key and keeps every other entry |
| Session.SessionState.Remove | utils/crud.py:420-421 | `del st.session_state[key]` on a present key removes exactly that key |
| Worksheet.SnapshotAfterAppend | utils/crud.py:296 | appending puts a new record at position `len(snapshot)` and keeps every earlier one |
| Worksheet.SnapshotAfterDelete | utils/crud.py:411 | deleting storage row `k + 2` removes the record at position `k` and shifts every later record down by one |
| Worksheet.Sheet.UpdateRow | utils/crud.py:357 | `update('A{r}', [cells])` replaces the first cells of data row `r` and keeps the rest |
| Worksheet.Sheet.DeleteRow | utils/crud.py:411 | `delete_rows(r)` removes data row `r` |

## Left out

- Google Sheets I/O and caching (`get_sheet_data`, `get_worksheet`, `get_sheet_data.clear()`). The worksheet is a class holding a sequence of rows. Every call receives the snapshot as an explicit parameter.
- Streamlit rendering, messages and buttons: `st.error`, `st.success`, `st.warning`, forms and widgets. A button press is a parameter. This includes:
  - the buttons inside `delete_record`'s first call;
  - the card buttons that store `edit_prof_index` / `delete_prof_index`.
- Authentication, floating point, and library-defined date and time parsing. This covers:
  - the `numeric` branch of `validate_form_data`;
  - `format_currency`;
  - the `strftime` conversion in `update_record`.
  - `ValidateRange` is stated over `real`, not IEEE floats.
- Lists and pandas `Series` values in `validate_required_fields` and `validate_form_data`. Only strings, integers and `None` are modelled.
- Validation.NormalizeString: NFD decomposition and `lower()` are tabulated for Latin-1 letters only; other characters pass through unchanged.
- PyValues.Strip: `str.isspace` is tabulated for code points below 256.
- PyValues.IsDigitChar: `str.isdigit` is tabulated for code points below 256. Python also accepts other Unicode digits, such as Arabic-Indic `٩`, so `is_valid_phone` and `is_valid_nif` accept more than the model.
- PyValues.LowerChar, PyValues.UpperChar and PyValues.Lower: case mapping is tabulated for Latin-1 letters only. So `'ŠIMON'` and `'šimon'` do not clash in the uniqueness check, while Python's `lower()` makes them clash; the same goes for letters such as `Œ`, `Ł` and `Ž`.
- PyValues.Title: as `Lower`, and without length-changing mappings. Python's `'ß'.title()` is `'Ss'`; the model keeps `'ß'`.
- PyValues.ParseInt: `int()` reads ASCII digits only. Python's `int()` also reads other Unicode decimal digits.
- Validation.PostalShape: `\d` is an ASCII digit. Python's `re` matches every Unicode decimal digit, so `'١٢٣٤-٥٦٧'` is valid there and not in the model.
- Crud.SearchAndFilter: the search text is a literal substring. pandas `str.contains` treats it as a regular expression, and metacharacters are not modelled.
- Crud.SearchAndFilter: the source's `filters` dict becomes a sequence of pairs in the dict's order. Duplicate column names in a snapshot are not modelled.
- Crud.GenerateUniqueId: gspread's conversion of numeric-looking cells to numbers is not modelled. A cell is a string unless the snapshot holds an integer.
- Worksheet.Sheet.UpdateRow and Worksheet.Sheet.DeleteRow: a write addressed to the header or past the last data row is modelled as a failed call that changes nothing. The real calls behave differently:
  - at position -1, `update_record` calls `update('A1', …)`, which overwrites the header, and an armed `delete_record` calls `delete_rows(1)`, which deletes it;
  - a row past the last data row but inside the sheet's grid is written (a blank grid row filled) or deleted without error, so `update_record` and `delete_record` return `True` and `confirm_delete` is cleared;
  - only a row number outside the grid (0 or below, or past the grid) makes the service raise, which both functions catch and turn into `False`.
  - The model reports failure in all of these cases.
- Teachers.CheckDeleteView: the confirmation dialog comes from `utils/components.py`, which is not part of this model. The two-call arming of `delete_record` is modelled through `Crud.DeleteRecord`, and cancelling does not clear `confirm_delete`.
- Validation.FormatDisplayName: the contract says nothing about limits below 3. There `name[:max_length-3]` slices from the end, and the body follows Python's slice rule.
- Concurrency: nothing in the layer runs concurrently.

## Findings

| source | as written | input that shows it | evidently intended | confidence | as-written member | corrected member |
|---|---|---|---|---|---|---|
| utils/crud.py:294-296 | `create_record` builds the new row from the snapshot's columns | a worksheet holding only its header: `get_all_records` gives a frame with no columns, so an empty row is appended and the record is lost | the row is built under the worksheet's header | not executed | Crud.CreateRecordAsWritten, Crud.CreateOnHeaderOnlyLosesRecord | Crud.CreateRecord, Crud.CreateRecordReadsBack |
| secoes/professores.py:164-166 | `salvar_professor` reads `professor_df['Nome Completo']` without checking the column | adding the first teacher to a worksheet holding only its header raises `KeyError`, which nothing catches | an empty snapshot means there are no existing names | not executed | Teachers.DuplicateNameErrorsAsWritten, Teachers.FirstTeacherRaises, Teachers.SaveTeacher | Teachers.DuplicateNameErrors, Teachers.DuplicateNameIff, Teachers.SaveTeacherCorrected, Teachers.SaveErrorsAgree |
