# Clinic app: a verified model of the data layer of clinic_app_v1.py

clinic_app_v1.py is a Tkinter desktop application for a dental or medical
clinic. It keeps patients, their cases and each case's treatment plan in one
SQLite file. This project models what the application does with that data,
and leaves the widgets out:

- the three tables (`patients`, `cases`, `treatment_plans`) as maps from row
  id to row. The constraints `init_db` declares are one invariant, `Schema`:
  AUTOINCREMENT ids, two foreign keys with `ON DELETE CASCADE`,
  `UNIQUE(phone) ON CONFLICT IGNORE` and `op_number UNIQUE`;
- the session state of the `ClinicApp` window: `current_patient_id`,
  `current_case_id`, the in-memory `plan_items` list, `editing_plan_index`
  and `search_page`. These are the fields of the class `Clinic.ClinicApp`.
  There is one method per handler, and the database is its field `db`;
- each handler's statements, as functions on the table value. Saving a case
  is one transaction: case row, delete of the plan rows, one insert per
  item. On a failure the transaction rolls back to the tables it started
  from;
- the helpers the handlers build on. `safe_str` is modelled as Python's
  `str.strip()`. `parse_date` and `strftime` work on a proleptic Gregorian
  date model, years 1 to 9999. `calc_end_date` is modelled with an ordinal
  day count as the reference. Python `int()` and `str()` are modelled on
  decimal text. SQLite's ASCII `LOWER`, `LIKE '%x%'` and BINARY text order
  are modelled too;
- the two queries: the patient list (`ORDER BY last_name, first_name LIMIT
  500`) and the paged case search (`ORDER BY case_date DESC, id DESC LIMIT 50
  OFFSET page*50`). The ordering is an insertion sort under a strict total
  order that ends in the row id.

In the files:

- `wrappers.dfy`: Option and Result;
- `text.dfy`, `dates.dfy`: the string and date helpers;
- `records.dfy`: rows, raw form inputs and validation;
- `tables.dfy` (module `Database`): the tables and the statements;
- `sorting.dfy`: ordering and windows;
- `search.dfy`: the queries;
- `clinic_app.dfy`: the handlers.

Form inputs, confirmation dialogs, tree selections and today's date are
parameters of the handler methods. Message boxes are returned results.

Behaviour of the code that the model keeps as written:

- **Duplicate phone on insert.** Saving a new patient whose phone is already
  on file inserts nothing, because of `ON CONFLICT IGNORE`. The empty phone
  counts too: it is stored as `""`, not NULL. `last_insert_rowid()` on the
  fresh connection then gives 0, so `current_patient_id` becomes 0. That is
  falsy, so `on_save_case` then reports that the patient could not be
  determined.
- **Stale case id after a rollback.** `on_save_case` stores the new case id
  as soon as the INSERT has run. If a later plan insert fails, the whole
  block rolls back and the case row is gone, but the handler keeps that id.
  A plan insert fails when a duration is wider than 64 bits, which raises
  an uncaught `OverflowError`. The next save then takes the UPDATE path,
  matches no row, and with an empty plan list "commits" without writing
  any case.
- **Delete leaves the current case.** `on_delete_patient` behaves as "New
  Patient" only. The current case and the plan list stay, and may now refer
  to a deleted case.
- **Stale editing position.** `editing_plan_index` is never adjusted when
  the list changes. "Save Changes" after a delete or a new case can name a
  position past the end. The assignment then raises and nothing changes.
- **Duration 0 gives no end date.** A duration of 0 is falsy in
  `calc_end_date`, so the end date is empty. A stored 0 loads back as an
  empty duration (`str(0 or "")`). This holds although the start plus 0
  days is a valid date.
- **End date set when the item is built.** The end date is computed when
  the item is added or edited, not when the case is saved. An item keeps the
  end date it was built with, and `on_save_case` writes that stored value.

## Model

| member | source | states |
|---|---|---|
| Text.Trim | clinic_app_v1.py:26-27 | the strip of a string: its middle part between a leading and a trailing run of white space, with no white space at either end; empty exactly when the string is all white space |
| Text.TrimIdempotent | clinic_app_v1.py:26-27 | stripping twice is stripping once |
| Text.ContainsAt | clinic_app_v1.py:302-309 | the `LIKE '%x%'` test holds exactly when the needle occurs at some offset of the text |
| Text.StrLtTransitive | clinic_app_v1.py:315 | the BINARY text order used by ORDER BY is transitive |
| Text.StrLtTotal | clinic_app_v1.py:315 | of two distinct strings one sorts before the other |
| Text.StrLtConcat | clinic_app_v1.py:1184 | strings cut at the same length compare by their first parts, then by their second parts |
| Text.PadDecimal | clinic_app_v1.py:35 | the zero-padded `%m`/`%d` rendering, and `%Y` as Python documents it: exactly w digits whose value is n modulo 10^w |
| Text.PadDecimalOfValue | clinic_app_v1.py:22-24 | every digit string is the padded rendering of its own value |
| Text.PadDecimalOrder | clinic_app_v1.py:1153-1161 | padded renderings of the same width compare as text exactly as the numbers compare |
| Text.ParseInt | clinic_app_v1.py:975-980 | `int(s)` yields a value exactly for an integer literal: text ending in a digit whose every character is a digit, a sign in front, or an underscore between two digits; a negative value only behind a minus sign |
| Text.ParseIntRejects | clinic_app_v1.py:975-980 | `int()` refuses the empty text, a lone sign, a decimal point, a letter, an inner sign and a leading, trailing or doubled underscore |
| Text.ParsePlus | clinic_app_v1.py:975-980 | a `+` in front does not change the value |
| Text.ParseLeadingZero | clinic_app_v1.py:975-980 | a leading zero does not change the value |
| Text.ParseUnderscore | clinic_app_v1.py:975-980 | digit groups joined by `_` denote the same number as the digits written together |
| Text.ParseDigits | clinic_app_v1.py:975-980 | `int()` of a digit string is the number the digits denote |
| Text.ParseNegativeDigits | clinic_app_v1.py:975-980 | `int()` of a minus sign and digits is minus that number |
| Text.NatToString | clinic_app_v1.py:1283 | `str(n)` for n >= 0: decimal digits denoting n, without leading zeros |
| Text.IntToStringUnpadded | clinic_app_v1.py:1283 | `str(n)` is non-empty and survives `strip()` unchanged |
| Text.IntToStringRoundTrip | clinic_app_v1.py:1283 | `int(str(n)) == n` for every integer |
| Dates.ParseDate | clinic_app_v1.py:22-24 | `parse_date` succeeds only with a date Python can represent |
| Dates.FormatThenParse | clinic_app_v1.py:19-24 | formatting a date and parsing the text gives the date back |
| Dates.ParseThenFormat | clinic_app_v1.py:22-24 | text that parses is the formatting of the date it denotes |
| Dates.OrdinalInjective | clinic_app_v1.py:34 | two dates with the same day number are the same date |
| Dates.AddDays | clinic_app_v1.py:34 | `date + timedelta(days=n)` yields only representable dates |
| Dates.AddDaysOrdinal | clinic_app_v1.py:34 | adding n days succeeds exactly when the day number plus n is in the calendar's range, and its result's day number is the old one plus n |
| Dates.AddDaysCharacterised | clinic_app_v1.py:34 | the result of adding n days is the one valid date whose day number is the start's plus n |
| Dates.AddDaysCompose | clinic_app_v1.py:34 | adding a days then b days is adding a + b days, failure included |
| Dates.FormatOrder | clinic_app_v1.py:1153-1161 | ISO date strings compare as text exactly as the days compare on the calendar |
| Dates.CalcEndDate | clinic_app_v1.py:29-37 | empty exactly when the start is empty, the duration is 0, the start does not parse, or the end date is not representable; otherwise a parseable date whose day number is the start's plus the duration |
| Dates.EndDateExample | clinic_app_v1.py:29-37 | 2024-01-10 plus 5 days is 2024-01-15 |
| Records.ValidatePatient | clinic_app_v1.py:458-467 | the checks in source order: first name, last name, then the date of birth when given; on success every column is the stripped input |
| Records.PatientFormRoundTrip | clinic_app_v1.py:1275-1281 | a saved patient loaded back into the form (PatientFormOf) validates to the same row |
| Records.NoneIfEmpty | clinic_app_v1.py:1019 | `x or None`: NULL exactly for the empty string, and reading the column back as `x or ""` (OrEmpty) gives the string again |
| Records.ValidateCase | clinic_app_v1.py:970-1025 | each error exactly under its condition, checked in source order: OP number missing, OP number not a positive integer, chief complaint missing, case date not a date, follow-up date given but not a date; on success a positive OP number parsed from the input, the case date or today, the stripped follow-up date or NULL, status `safe_str(v or "Open")` (OrDefault), closed date today exactly when the status is "Closed", every text column stripped, and the consent date and file NULL when empty |
| Records.LoadedCaseValidates | clinic_app_v1.py:1283-1307 | the form loaded from a saved case passes validation again |
| Records.NullableRoundTrip | clinic_app_v1.py:1284 | a nullable column loaded as `x or ""` (OrEmpty) and saved as `x or None` is unchanged |
| Records.ColumnsRoundTrip | clinic_app_v1.py:1283-1307 | re-saving the loaded form writes the same columns, except the closed date, which is stamped afresh |
| Records.CaseFormRoundTrip | clinic_app_v1.py:1283-1307 | filling the form from a saved case (CaseFormOf: `str(op_number)`, the date or today, the status or "Open") and saving on a later day gives back the saved case, with a closed case taking the new day as its closing date |
| Records.EndDateOf | clinic_app_v1.py:821 | the item's end date is empty exactly when calc_end_date's conditions say so, and otherwise lies `int(duration)` days after the start |
| Records.BuildPlanItem | clinic_app_v1.py:808-832 | name, then start date, then integer duration, checked in that order; the built item has the stripped name, dosage, frequency, duration, start and notes, type and status `safe_str(v or default)` (OrDefault), and the end date of its start and duration |
| Records.EditUnchangedRoundTrip | clinic_app_v1.py:852-904 | loading an item into the inputs for editing (FormOf) and saving it unchanged gives the same item |
| Records.ToRows | clinic_app_v1.py:1053-1058 | one row per item, in list order |
| Records.DurationText | clinic_app_v1.py:1328 | `str(d or "")`: empty exactly for NULL or 0, otherwise text that parses back to d |
| Records.FromRow | clinic_app_v1.py:1321-1331 | the rebuilt item has the row's name and the loaded duration text, and satisfies the plan-list invariant |
| Records.FromRows | clinic_app_v1.py:1319-1334 | one item per row, in row order |
| Records.CanonicalDuration | clinic_app_v1.py:1328 | the duration after save and reload: empty exactly for an empty or zero duration, otherwise the same integer |
| Records.RowRoundTrip | clinic_app_v1.py:1053-1058 | the row inserted for an item (ToRow: `int(duration)` or NULL, NULL for an empty start or end), loaded back (FromRow), gives the item with only the spelling of its duration changed |
| Records.RowsRoundTrip | clinic_app_v1.py:1319-1334 | the same for a whole plan list, position by position |
| Records.CanonicalStable | clinic_app_v1.py:1328 | a second save and reload changes nothing more |
| Database.EmptySchema | clinic_app_v1.py:41-104 | the freshly created file satisfies the schema invariant |
| Database.InsertPatient | clinic_app_v1.py:470-481 | the id read back is 0 exactly when the phone is on file, and then nothing changes; otherwise a fresh id with the row, and the schema is kept |
| Database.UpdatePatient | clinic_app_v1.py:483-494 | the row is replaced exactly when it exists and no other patient has the phone, otherwise nothing changes; the schema is kept |
| Database.DeletePatient | clinic_app_v1.py:359-361 | the patient's row goes, and so do exactly its cases and exactly the plan rows of those cases; every other row is kept |
| Database.DeletePatientCascade | clinic_app_v1.py:80-96 | after the cascade the schema holds, and no row refers to the patient directly or through a case |
| Database.InsertCase | clinic_app_v1.py:1009-1026 | refused exactly when the OP number is on file (UNIQUE) or the patient is missing (FOREIGN KEY); otherwise the next id with the row, and the schema is kept |
| Database.UpdateCase | clinic_app_v1.py:1027-1044 | a missing id changes nothing; otherwise refused exactly when another case has the OP number, else the fields are replaced and the owner is kept |
| Database.CloseCase | clinic_app_v1.py:1353-1358 | only the status ("Closed") and closed date (today) of that one row change; a missing id changes nothing |
| Database.DeletePlansOf | clinic_app_v1.py:1047 | exactly the plan rows of the case are removed |
| Database.DeletePlansRows | clinic_app_v1.py:1047 | afterwards the case has no plan rows and every other case keeps its rows |
| Database.InsertPlan | clinic_app_v1.py:1053-1058 | refused for a duration wider than 64 bits, then for a missing case; otherwise the row is appended under the next id |
| Database.InsertPlanRows | clinic_app_v1.py:1053-1058 | an inserted row comes last among its case's rows; other cases are untouched |
| Database.InsertPlans | clinic_app_v1.py:1053-1059 | the plan loop succeeds exactly when every duration fits and the case exists (or there are no items); the case's rows then gain exactly the items' rows in order |
| Database.SaveCaseTransaction | clinic_app_v1.py:1008-1059 | commits exactly under SaveCommits, and then the case row and plan rows are written as CaseSaved says; a UNIQUE error exactly for an OP-number conflict; on failure the handler holds the new case id when the INSERT had run, a row that is not in the tables |
| Sorting.Insert | clinic_app_v1.py:315 | inserting adds exactly one element |
| Sorting.Sort | clinic_app_v1.py:315 | ORDER BY returns a permutation of the matching rows |
| Sorting.InsertSorted | clinic_app_v1.py:315 | inserting a new element keeps a sorted sequence sorted |
| Sorting.SortSorted | clinic_app_v1.py:315 | distinct ids come back in strictly ascending order |
| Sorting.SortedDistinct | clinic_app_v1.py:1184 | a strictly sorted result holds no row twice |
| Sorting.SortedUnique | clinic_app_v1.py:1184 | there is only one sorted arrangement of a set of rows, so the result order is determined |
| Sorting.Window | clinic_app_v1.py:1185 | `LIMIT count OFFSET offset`: at most count elements, the ones starting at offset, empty past the end |
| Sorting.WindowsAdjacent | clinic_app_v1.py:1176-1185 | a full window and the next one together are the double window |
| Sorting.Filter | clinic_app_v1.py:312 | WHERE keeps exactly the rows that satisfy the condition |
| Sorting.FilterDistinct | clinic_app_v1.py:312 | filtering distinct ids keeps them distinct |
| Search.PatientOrderTotal | clinic_app_v1.py:315 | `ORDER BY last_name, first_name` with ties by id is a strict total order |
| Search.PatientHits | clinic_app_v1.py:300-309 | the scan keeps exactly the patients the WHERE clause matches |
| Search.PatientSearch | clinic_app_v1.py:292-317 | at most 500 ids, each of a patient matching the stripped inputs |
| Search.PatientSearchSpec | clinic_app_v1.py:292-317 | no patient twice, sorted, every match when there are at most 500, and every match left out sorts after every one shown |
| Search.TakeSpec | clinic_app_v1.py:316 | the first `limit` of a sorted arrangement are the least `limit` elements |
| Search.BuildCaseFilter | clinic_app_v1.py:1134-1166 | fails exactly when a non-empty date bound does not parse, with the "from" bound checked first; otherwise the stripped inputs with NULL for empty bounds |
| Search.CaseOrderTotal | clinic_app_v1.py:1184 | `ORDER BY case_date DESC, id DESC` is a strict total order |
| Search.CaseSearch | clinic_app_v1.py:1168-1189 | an invalid date bound stops the search; otherwise at most 50 ids, rows page*50 onward of the full ordered result |
| Search.CaseResultsSpec | clinic_app_v1.py:1177-1189 | the full result holds every matching case exactly once, newest first |
| Search.PagesAdjacent | clinic_app_v1.py:1203-1209 | page n+1 starts where a full page n ends |
| Search.DateBoundsAreCalendar | clinic_app_v1.py:1153-1161 | for stored dates, the text conditions `case_date >= from` and `case_date <= to` are calendar comparisons |
| Search.CaseMatchesByCalendar | clinic_app_v1.py:1134-1166 | a case matches exactly when its patient matches, its day lies between the bounds on the calendar and its diagnosis contains the text |
| Clinic.SavePatientOutcome | clinic_app_v1.py:458-513 | a failed validation changes nothing; an insert gives id 0 exactly when the phone is on file, else a fresh id with the row; an update replaces the row only when allowed; cases and plans untouched, schema kept |
| Clinic.SavedPatientOnFile | clinic_app_v1.py:470-481 | after a save a known current id is on file, holding the validated row when it was just inserted; other patients keep their rows |
| Clinic.PatientStep | clinic_app_v1.py:961-967 | nothing happens when a patient is known or a name is missing; a newly known patient is on file with the validated row |
| Clinic.SaveThenLoadItems | clinic_app_v1.py:1046-1059 | after a committed save, loading the case gives the saved plan list, position by position, up to the duration's spelling |
| Clinic.StaleCaseSaveWritesNothing | clinic_app_v1.py:1026-1059 | a save under a case id that names no row, with no plan items, commits and leaves the cases as they were |
| Clinic.PlanAddOutcome | clinic_app_v1.py:808-841 | a valid item is appended and nothing else changes; an invalid one leaves the list and reports its error |
| Clinic.PlanEditOutcome | clinic_app_v1.py:875-919 | no edit in progress, an invalid item or a position past the end changes nothing; otherwise exactly that position gets the item and editing ends |
| Clinic.CommittedSave | clinic_app_v1.py:1046-1069 | a committed save block leaves the saved case current, page 0, and the plan rows of the list |
| Clinic.FailedSave | clinic_app_v1.py:1008-1078 | a rolled-back save block leaves the tables and page as they were, holding the rolled-back id when the INSERT had run |
| Clinic.CaseDatesKept | clinic_app_v1.py:986-987 | a committed save keeps every stored case date a calendar date |
| Clinic.ClinicApp.constructor | clinic_app_v1.py:120-124 | the initial state: no patient, no case, empty plan list, page 0 |
| Clinic.ClinicApp.SavePatient | clinic_app_v1.py:458-513 | the new tables, current patient and message are those of SavePatientOutcome; the rest of the state is unchanged |
| Clinic.ClinicApp.NewPatient | clinic_app_v1.py:336-345 | no patient is current; nothing else changes |
| Clinic.ClinicApp.DeletePatient | clinic_app_v1.py:347-365 | without a selection or a confirmation nothing changes; otherwise the cascade delete, no patient current, and the current case and plan list kept |
| Clinic.ClinicApp.SelectPatient | clinic_app_v1.py:367-389 | the selected patient becomes current and the inputs are filled from its row; without a selection nothing changes |
| Clinic.ClinicApp.PatientsSearch | clinic_app_v1.py:292-329 | the patient list of the inputs: at most 500 ids, distinct, in name order |
| Clinic.ClinicApp.AddPlan | clinic_app_v1.py:808-841 | the plan list and message are those of PlanAddOutcome; the rest of the state is unchanged |
| Clinic.ClinicApp.DeletePlan | clinic_app_v1.py:843-850 | the selected position is removed and the rest of the list kept in order; without a selection nothing changes |
| Clinic.ClinicApp.EditPlan | clinic_app_v1.py:852-873 | the selected position is remembered and the inputs are filled from that item |
| Clinic.ClinicApp.SavePlanChanges | clinic_app_v1.py:875-919 | the plan list, editing position and message are those of PlanEditOutcome |
| Clinic.ClinicApp.NewCase | clinic_app_v1.py:933-955 | no case is current and the plan list is empty |
| Clinic.ClinicApp.SaveCase | clinic_app_v1.py:957-1078 | the patient step, then either the patient error or the outcome of the validated save block as CaseSaveOutcome states it |
| Clinic.ClinicApp.SaveValidatedCase | clinic_app_v1.py:970-1078 | a form error changes nothing; otherwise commit exactly under SaveCommits with the case saved and current and page 0, else rollback with the id the handler holds |
| Clinic.ClinicApp.LoadCaseById | clinic_app_v1.py:1243-1341 | an unknown case (or one without its patient) changes nothing; otherwise that case and patient become current, the plan list is the case's rows in id order, and the forms are filled from the rows |
| Clinic.ClinicApp.CloseCase | clinic_app_v1.py:1343-1373 | without a current case or a confirmation nothing changes; otherwise exactly the current case is closed today |
| Clinic.ClinicApp.RunSearch | clinic_app_v1.py:1168-1192 | the current page of the case search: at most 50 ids, each of a matching case |
| Clinic.ClinicApp.NextPage | clinic_app_v1.py:1203-1205 | the page goes up by one and that page is searched |
| Clinic.ClinicApp.PrevPage | clinic_app_v1.py:1207-1209 | the page goes down by one, never below 0, and that page is searched |
| Clinic.ClinicApp.ClearSearch | clinic_app_v1.py:1194-1201 | empty filters on page 0; when all cases fit on a page, the result is exactly the cases whose patient exists |

## Left out

- The Tk widgets: layout, trees, scrolling, tab switches, message box texts
  and the debug `print`s. Form values are handler parameters, and a message
  is a returned result.
- `clear_plan_inputs`, the `var_case_status` update in `on_close_case`,
  filling the patient list after a save or delete, and the `on_search()`
  that refills the browse list after a committed case save. These only set
  widgets and read the database; the save's page reset is modelled.
- The case history panel (`load_case_history_for_patient`,
  `clear_case_history`, `on_open_selected_history_case`,
  `on_new_case_for_selected_patient`). It only fills a tree and
  reads the database.
- `on_load_selected_case` reads a tree selection and calls
  `load_case_by_id`, which is modelled. `on_open_selected_patient_from_search`
  looks up the case's patient, refills the patient list, highlights the
  patient and calls `on_patient_selected` (Clinic.ClinicApp.SelectPatient);
  the lookup and the highlighting are not modelled.
- Clinic.ClinicApp.SelectPatient: the selected id is a patient on file,
  because the patient list is refilled after every save and delete. The
  branch of `on_patient_selected` for a row that is gone is not modelled.
- The consent-file dialogs (`on_browse_consent_file`,
  `on_view_consent_file`): file system and operating-system calls.
- The clock. `iso_today()` is the `today` parameter.
- `created_at` (`CURRENT_TIMESTAMP`), which no handler reads.
- test_pdf_export.py is not part of this model.
- Dates.FormatDate, Dates.CalcEndDate: `%Y` is written as four digits for
  every year, as Python documents it. `strftime` hands `%Y` to the C
  library, and glibc does not zero-pad years below 1000, so on Linux
  `calc_end_date("0500-01-01", 1)` gives "500-01-02", which `parse_date`
  then refuses. The model gives "0500-01-02" and states that the result
  parses; that holds only where `%Y` is padded.
- Dates.ParseDate: accepts only the zero-padded `YYYY-MM-DD` spelling in
  ASCII digits. `strptime("%Y-%m-%d")` also takes unpadded months and days
  ("2024-1-5"), a day padded with a space ("2024-01- 5", which its `%d`
  pattern allows before a single digit), and non-ASCII decimal digits in
  any field ("２０２４-01-05", which its patterns match with `\d`). The
  model refuses all three spellings.
- Text.ParseInt: only ASCII digits. Python's `int()` also takes other
  Unicode decimal digits.
- Text.Lower: folds ASCII letters only, as SQLite's built-in `LOWER` does.
  `%` and `_` typed into a search field act as `LIKE` wildcards in the
  source; the model reads them as plain characters.
- Search.PatientSearch: ties in `ORDER BY last_name, first_name` are broken
  by id. SQLite leaves the order of equal names unspecified.
- SQLite type affinity. Every column is stored with the type the handler
  binds, so a column declared INTEGER holding text does not arise.
- The AUTOINCREMENT counters are unbounded, so running out of row ids is
  not modelled.
- Database.SaveCaseTransaction: an op number or duration wider than 64 bits
  raises `OverflowError`, which the handler does not catch. The model
  returns it as `DatabaseError(IntegerOverflow)` after the rollback, with
  the state the exception leaves. It does not model the traceback.
- Clinic.ClinicApp.DeletePlan, Clinic.ClinicApp.EditPlan: the selected row
  is a position in the plan list. The plan tree always lists exactly the
  items of `plan_items`, in order, so the position is less than the list's
  length.
