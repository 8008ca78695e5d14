# smart-attendance: a verified model of the attendance bookkeeping

smart-attendance is a single-page React app. A teacher registers students with a photo. The teacher scans the classroom with the camera, and a face-recognition service marks who is present. The scan is saved as a session of attendance records for today. The app then shows a daily dashboard, a history report and a CSV export.

This project models the bookkeeping behind those screens, with rendering, camera, network and storage stripped away:

- `Types` holds the records (`types.ts`) and the two views every screen derives from a session list: all of its records, and the sessions of one date. `Seqs` models `Array.prototype.filter`.
- `Consolidation` models the daily dashboard (`consolidatedData`, `openStatusList` in `App.tsx`):
  - every record of the selected date is merged per student with the precedence present > late > absent;
  - roster students without a record count as absent;
  - the counts and rounded percentages are tallied.
  The two loops are methods proved against a reference resolver (`Resolve`, `DailyStatus`).
- `Override` models the manual status override (`updateManualStatus`). It amends the first session of the date in list order, or creates a one-record session in front.
- `Roster` models the roster updates (`addStudent`, `deleteStudent`, `editStudent`) and `saveAttendance`.
- `History` models the history report (`components/AttendanceHistory.tsx`): the raw record tallies, and the date filter with its newest-first sort.
- `HistoryExport` models the CSV text that `exportCSV` builds line by line.
- `Taking` models the scan review (`components/AttendanceTaking.tsx`). It lays the recognition answer over the roster, falls back when the analysis fails, edits entries by index, and confirms into records. The review state is a class.
- `Registration` models the student directory (`components/StudentRegistration.tsx`): the case-insensitive name search, and the add/edit form as a class whose submit issues at most one roster request.
- `Scenario` is a concrete day (Alice present in one scan and absent in another, Bob late), checked for both session orders.

Clock readings (`Date.now()`, today's date), fresh ids (`crypto.randomUUID()`), the recognition service's answer and the locale formatting of timestamps are parameters.

## Model

| member | source | states |
|---|---|---|
| Seqs.Filter | App.tsx:153 | The kept elements are exactly the elements satisfying the predicate. The result is no longer than the input and is a sub-multiset of it. |
| Seqs.FilterAll | App.tsx:153 | A predicate every element satisfies keeps the whole sequence. |
| Seqs.FilterNone | App.tsx:110-112 | A predicate no element satisfies keeps nothing (the `daySessions.length > 0` test fails exactly then). |
| Seqs.FilterFirst | App.tsx:110-115 | The first kept element is the first element that satisfies the predicate (`daySessions[0]`). |
| Seqs.FilterAppend | App.tsx:85 | Filtering distributes over concatenation, so it keeps the original order. |
| Seqs.FilterAgree | components/AttendanceHistory.tsx:29-30 | Two predicates that agree on every element filter alike. |
| Types.StatusName | types.ts:2 | The printed status is non-empty and contains no line break. |
| Types.FindStudent | components/AttendanceHistory.tsx:37 | `find` returns nothing exactly when no student has the id. Otherwise it returns the first student in roster order that has the id. |
| Types.SameDay | App.tsx:153 | A session is kept exactly when it is in the list and has the date. |
| Types.AllRecordsSnoc | App.tsx:156-161 | One more session at the end adds exactly its records, in order, after all earlier records. |
| Types.AllRecordsMember | App.tsx:156-161 | A record is among all records exactly when some session holds it. |
| Types.AllRecordsLength | components/AttendanceHistory.tsx:18-20 | The number of all records is the sum of the sessions' record counts. |
| Consolidation.Merge | App.tsx:162-167 | One scan step always yields a status. With no previous status it is the record's status. Otherwise it is the stronger of the two, and it is one of the two. |
| Consolidation.ResolveSnoc | App.tsx:161-167 | Appending one record changes the reference resolution exactly as one scan step does, and only for that record's student. |
| Consolidation.ResolveDependsOnMembersOnly | App.tsx:156-168 | The resolution depends only on which records exist, not on their order or multiplicity. |
| Consolidation.OrAbsent | App.tsx:175 | A stored status is shown as it is. The shown status is absent exactly when there is no entry or the entry is absent. |
| Consolidation.DayRecordsSameMembers | App.tsx:153-161 | Any reordering of the session list leaves the same records on every date. |
| Consolidation.DailyStatusSessionOrder | App.tsx:153-168 | Any reordering of the session list gives every student the same daily status. |
| Consolidation.UniformStatus | App.tsx:161-175 | When the student has a record and all of them carry one status, that status is shown. |
| Consolidation.PrecedenceOfResolve | App.tsx:163-175 | Present exactly when some record is present. Late exactly when some record is late and none is present. Absent when no record mentions the student. |
| Consolidation.CountsCoverRoster | App.tsx:174-181 | present + late + absent equals the roster size: each student is counted exactly once. |
| Consolidation.UnknownRecordsNotTallied | App.tsx:174-181 | A record for a student outside the roster changes no count. |
| Consolidation.CountsDependOnMembersOnly | App.tsx:152-181 | The counts are the same for any two record lists holding the same records. |
| Consolidation.CountsSessionOrder | App.tsx:152-181 | The dashboard counts for a date are the same for any order of the session list. |
| Consolidation.Percent | App.tsx:189-191 | The percentage is 0 for an empty roster. Otherwise it is 100·count/total rounded half up, stated as a bracketing inequality. |
| Consolidation.PercentInRange | App.tsx:189-191 | A share of the roster is at most 100 percent. |
| Consolidation.PercentsNearHundred | App.tsx:189-191 | For a non-empty roster the three percentages add up to 99, 100 or 101. |
| Consolidation.MergeRecords | App.tsx:161-168 | The record loop turns a day map that resolves the records seen so far into one that resolves them followed by the session's records. |
| Consolidation.MergeSession | App.tsx:156-169 | The session step leaves the session's date as the only key, and its day map resolves the earlier records followed by the session's. |
| Consolidation.StudentDailyBest | App.tsx:153-169 | The nested merge loops leave at most the selected date as a key. That date's map gives every student the reference resolution of the day's records. |
| Consolidation.TallyRoster | App.tsx:171-181 | The roster loop counts every student once. Each count equals the number of students with that daily status. The map holds exactly the roster ids, each with its daily status. |
| Consolidation.ConsolidatedData | App.tsx:152-193 | The dashboard value: the total is the roster size, and the counts equal the students resolved to each status. The student map gives each roster id its daily status. The percentages are the rounded shares. |
| Consolidation.OpenStatusListMatchesCount | App.tsx:195-199 | The list opened for a status has exactly as many entries as that status's headline count. |
| Consolidation.OpenStatusList | App.tsx:195-199 | Every listed entry is a roster student paired with the requested status, which is the status the map shows for them (absent when missing). Every roster student shown with that status is listed. |
| Consolidation.StatusItemsCount | App.tsx:195-199 | Keeping the roster items of one status keeps as many as the dashboard counts for that status. |
| Override.AmendRecords | App.tsx:116-126 | The amended records always hold a record of the student, and there are as many records as before or one more. |
| Override.UpdateManualStatus | App.tsx:108-147 | When the date has a session, the list keeps its length and only records change. Otherwise the result is a session with the fresh id and the date in front of the unchanged list. |
| Override.FirstOfSameDay | App.tsx:110-115 | The first session with the date in list order is `daySessions[0]`. |
| Override.AmendsOnlyFirstSessionOfDate | App.tsx:110-130 | With unique session ids, the list keeps its length and only the first session of the date is amended. Every other session is unchanged. |
| Override.CreatesSessionWhenDateIsNew | App.tsx:131-146 | With no session on the date, one session is put in front of the unchanged list. It has the fresh id, the date and an empty photo, and exactly one record: for the student, with the status, the date and confidence 100. |
| Override.AmendReplacesStudentRecords | App.tsx:116-118 | Each of the student's records takes the new status and timestamp, and keeps its id, date, note and confidence. Other records are untouched and the length is kept. |
| Override.AmendAppendsOneRecord | App.tsx:119-126 | When the student has no record, the old records are kept as a prefix and exactly one record is appended. It carries the student, the status, the date and confidence 100. |
| Override.CountForZero | App.tsx:116 | The student has no record exactly when `some` finds none. |
| Override.AmendStudentRecordCount | App.tsx:116-126 | The amended session holds as many records of the student as before, or one when it held none. |
| Override.AmendSupersedes | App.tsx:116-126 | Amending twice equals amending once with the second status and time. A record appended by the first amendment keeps the first call's fresh id. |
| Override.LaterOverrideSupersedes | App.tsx:108-147 | Two overrides of one student and date, each with its own clock reading and fresh ids, equal the second override alone. A session or record that the first call created keeps that call's id. This holds whether or not the date had a session, provided the first fresh session id is unused. |
| Override.SecondOverrideAmendsFreshSession | App.tsx:110-146 | After the first override creates the session of a new date, a second override amends that session and leaves the rest of the list alone. |
| Override.UpdateManualStatusIdempotent | App.tsx:108-147 | Repeating an override with the same clock reading and the same fresh ids gives the same list as applying it once, when the fresh session id is not already in use. |
| Override.TwiceLeavesOneRecord | App.tsx:110-146 | Two overrides with independent clock readings and fresh ids leave exactly one record of the student in the first session of the date. When the date had a session, that session stays first at the same index, provided it held at most one such record. When it had none, the session the first call created is first. |
| Override.AmendKeepsFirst | App.tsx:110-130 | The amended session stays the first one of its date, and its records are the amended ones. |
| Override.AmendedHoldsStatus | App.tsx:116-126 | The amended records hold a record of the student with the new status. |
| Override.OverrideRecordOnDate | App.tsx:108-147 | After the override, some session on the date holds a record of the student with the new status. |
| Override.PresentRecordShowsPresent | App.tsx:153-175 | A present record of the student in a session of the date makes the dashboard show the student present. |
| Override.OverrideToPresentShowsPresent | App.tsx:108-175 | After an override to present, the dashboard shows the student present on that date. |
| Override.AmendedStudentRecordsHaveStatus | App.tsx:116-126 | After amending, every record of the student in the session has the new status. |
| Override.SoleSessionRecordHasStatus | App.tsx:110-147 | With at most one session on the date, every record of the student that day has the new status after the override. |
| Override.OverrideTakesEffectOnSoleSession | App.tsx:108-175 | With at most one session on the date, the dashboard shows exactly the requested status after the override. |
| Roster.AddStudent | App.tsx:74-82 | The roster grows by one at its end, with the form's name and photo, the fresh id and the creation time. The old roster is kept as a prefix. |
| Roster.DeleteStudent | App.tsx:84-87 | A student remains exactly when they were on the roster and have another id. |
| Roster.EditStudent | App.tsx:89-92 | The length is kept. Each entry with the edited id becomes the updated student, and every other entry is unchanged. |
| Roster.DeleteStudentKeepsOthersInOrder | App.tsx:84-87 | Deleting distributes over any split of the roster, so order is kept, and no remaining entry has the id. |
| Roster.DeleteAbsentIdIsIdentity | App.tsx:84-87 | Deleting an id that is not on the roster changes nothing. |
| Roster.DeleteUndoesAdd | App.tsx:74-87 | Adding a student with a fresh id and then deleting that id restores the roster. |
| Roster.EditStudentKeepsIds | App.tsx:89-92 | An edit keeps the roster's ids in order and introduces no entry other than the updated student. |
| Roster.SaveAttendance | App.tsx:94-102 | The new session is put in front of the unchanged list, with the fresh id, today's date, the records and the photo. |
| Roster.SaveAttendanceAddsRecords | App.tsx:94-102 | After saving, all records are the new records followed by all earlier ones. |
| Roster.SavedSessionCountsToday | App.tsx:94-175 | A student marked present in a saved scan shows as present on today's dashboard. |
| History.StatusCountsCoverAll | components/AttendanceHistory.tsx:16-27 | Each record has exactly one status, so the three tallies add up to the number of records. |
| History.ComputeStats | components/AttendanceHistory.tsx:16-27 | The nested counting loops give total = the number of records across all sessions, duplicates included. Each count is the number of records with that status, and present + absent + late = total. |
| History.PresentInSession | components/AttendanceHistory.tsx:174-178 | A session row's present figure is the number of its present records, and at most its total. |
| History.FilterCountsStatus | components/AttendanceHistory.tsx:174 | Filtering a session's records by a status keeps exactly as many records as the tally counts for that status. |
| History.DateLeqTotal | components/AttendanceHistory.tsx:31 | Any two dates are comparable. |
| History.DateLeqTransitive | components/AttendanceHistory.tsx:31 | The date order is transitive. |
| History.InsertByDate | components/AttendanceHistory.tsx:31 | Inserting into a newest-first list keeps it newest-first, and adds exactly the one session. |
| History.SortByDate | components/AttendanceHistory.tsx:31 | The sort is a permutation and its result is ordered newest date first. |
| History.KeptSessions | components/AttendanceHistory.tsx:29-30 | A session is kept exactly when the filter is empty or the session has the filter date. |
| History.FilteredSessions | components/AttendanceHistory.tsx:29-31 | The shown list is a permutation of the kept sessions, ordered newest date first. A session is shown exactly when it passes the filter. |
| History.EmptyFilterKeepsEverySession | components/AttendanceHistory.tsx:29-31 | With an empty filter date, the shown list is a reordering of all sessions. |
| History.DateFilterKeepsThatDay | components/AttendanceHistory.tsx:29-31 | With a filter date, the shown list is a reordering of exactly that date's sessions. |
| HistoryExport.NameOf | components/AttendanceHistory.tsx:37-38 | The name field is the first matching roster student's name. It is "Unknown" when there is no such student or the name is empty, and it is never empty. |
| HistoryExport.NatToString | components/AttendanceHistory.tsx:38 | The confidence prints as a non-empty string of decimal digits. |
| HistoryExport.NatToStringValue | components/AttendanceHistory.tsx:38 | The printed digits denote the confidence itself. |
| HistoryExport.RowLayout | components/AttendanceHistory.tsx:38 | A record's line starts with its session's date followed by a comma and the opening quote of the name, and ends with a line break. |
| HistoryExport.SessionText | components/AttendanceHistory.tsx:36-39 | The inner loop's text is the session's lines joined in record order. |
| HistoryExport.RowsSnoc | components/AttendanceHistory.tsx:35-39 | The lines for a list of sessions are the lines for all but the last, followed by the last session's lines. |
| HistoryExport.ExportCsv | components/AttendanceHistory.tsx:33-40 | The export is the header followed by the report lines, session by session and record by record. |
| HistoryExport.RecordAtPosition | components/AttendanceHistory.tsx:35-36 | Record m of session j is at position (records of the sessions before j) + m of all records. |
| HistoryExport.RecordPosition | components/AttendanceHistory.tsx:35-36 | Every position of all records is record m of some session j, at that offset. |
| HistoryExport.DatedAtPosition | components/AttendanceHistory.tsx:35-38 | At the position of record m of session j, the record is paired with session j's date. |
| HistoryExport.RowAtPosition | components/AttendanceHistory.tsx:35-39 | The line at the position of record m of session j is that record's line, written with session j's date. |
| HistoryExport.RowsFollowRecords | components/AttendanceHistory.tsx:35-39 | There is one line per record. The k-th line is the k-th record's line in session order, written with the date of a session holding that record. RowAtPosition names that session by index. |
| HistoryExport.RowIsOneLine | components/AttendanceHistory.tsx:38 | A record's line holds exactly one line break when the date, names and rendered time hold none. |
| HistoryExport.HeaderIsOneLine | components/AttendanceHistory.tsx:34 | The header is exactly one line. |
| HistoryExport.ExportLineCount | components/AttendanceHistory.tsx:34-40 | When no field spans lines, the export has exactly 1 + (number of records) lines. |
| Taking.FindResult | components/AttendanceTaking.tsx:28 | `find` returns nothing exactly when no result names the student. Otherwise it returns the first result about the student. |
| Taking.FirstMatchUnique | components/AttendanceTaking.tsx:28 | The first result about a student is unique and is what `find` returns. |
| Taking.EntryFor | components/AttendanceTaking.tsx:28-33 | The entry is for the student, never late, and carries no note. It is present exactly when the first result about the student says present. Its confidence is that result's, or 0 when no result names the student. |
| Taking.Combine | components/AttendanceTaking.tsx:27-34 | One entry per roster student, in roster order. An entry is present exactly when the first result about the student says present, otherwise absent, and never late. Confidence is the first result's, or 0 when there is none. |
| Taking.CombineWithDistinctResults | components/AttendanceTaking.tsx:28-31 | With at most one result per student, an entry is present exactly when some result for the student says present. |
| Taking.Fallback | components/AttendanceTaking.tsx:37-39 | When the analysis fails, every roster student is absent with confidence 0, in roster order. |
| Taking.SilentAnswerIsFallback | components/AttendanceTaking.tsx:27-39 | An answer that mentions no roster student reviews exactly like a failed analysis. |
| Taking.ToRecords | components/AttendanceTaking.tsx:53-61 | One record per entry. Each record has the entry's student id, status, confidence and note, a fresh id, today's date and the confirmation time. |
| Taking.ConfirmedScanCoversRoster | components/AttendanceTaking.tsx:27-61 | A confirmed unedited scan records each roster student once, in roster order, with the scan's status. All records are dated today and none is late. |
| Taking.ConfirmedPresentShowsPresent | components/AttendanceTaking.tsx:51-62 | A student the scan reports present shows as present on today's dashboard once the scan is saved. |
| Taking.Review.constructor | components/AttendanceTaking.tsx:14-17 | The review starts with no photo, no entries and the camera hidden. |
| Taking.Review.Capture | components/AttendanceTaking.tsx:19-43 | The photo is kept and the camera hidden. The entries are the combined answer, or the fallback when the analysis failed. |
| Taking.Review.UpdateStatus | components/AttendanceTaking.tsx:45-49 | Entry i gets the status. The length and every other entry are unchanged. |
| Taking.Review.Reset | components/AttendanceTaking.tsx:100 | The Reset button forgets the photo and the entries. |
| Taking.Review.HasPhoto | components/AttendanceTaking.tsx:52 | A photo counts only when it is set and not the empty string. |
| Taking.Review.Confirm | components/AttendanceTaking.tsx:51-65 | Without a photo, either none or the empty string, nothing is saved and nothing changes. Otherwise the entries become records saved with the photo, and the photo and entries are cleared. |
| Registration.LowerChar | components/StudentRegistration.tsx:22 | Upper-case ASCII letters map to lower case, and every other character is kept. |
| Registration.Lower | components/StudentRegistration.tsx:22 | Lower-casing keeps the length and lowers each character. |
| Registration.LowerIdempotent | components/StudentRegistration.tsx:22 | Lower-casing twice is lower-casing once. |
| Registration.Contains | components/StudentRegistration.tsx:22 | `includes` holds exactly when the term occurs at some position. |
| Registration.ContainsEmpty | components/StudentRegistration.tsx:22 | Every name contains the empty term. |
| Registration.Search | components/StudentRegistration.tsx:21-23 | A student is listed exactly when they are on the roster and their lower-cased name contains the lower-cased term. |
| Registration.EmptySearchKeepsAll | components/StudentRegistration.tsx:21-23 | An empty search term lists the whole roster, in order. |
| Registration.SearchKeepsOrder | components/StudentRegistration.tsx:21-23 | The search distributes over any split of the roster, so it keeps the roster order. |
| Registration.SearchIgnoresTermCase | components/StudentRegistration.tsx:21-23 | Searching for a term or its lower-case form lists the same students. |
| Registration.SubmitRequest | components/StudentRegistration.tsx:41-52 | An empty name or photo issues nothing. Without an editing id, submit adds exactly the form's name and photo. An editing id not on the roster issues nothing. Otherwise the first student with the id is edited, keeping their id and creation time and taking the form's name and photo. |
| Registration.SubmitEditChangesOnlyThatStudent | components/StudentRegistration.tsx:45-49 | With unique ids, an edit submit keeps the roster's ids in order. Every student is unchanged except the edited one, which takes the form's name and photo. |
| Registration.SubmitAddAppendsOne | components/StudentRegistration.tsx:50-52 | An add submit appends exactly one student with the form's name and photo. |
| Registration.EditThenSubmitUnchangedIsNoOp | components/StudentRegistration.tsx:45-63 | Opening a student for edit and submitting unchanged fields leaves the roster as it was. |
| Registration.Form.constructor | components/StudentRegistration.tsx:15-19 | The form starts empty, in add mode, with the modal and camera closed. |
| Registration.Form.OpenAdd | components/StudentRegistration.tsx:81-85 | The Add Student button empties the form, selects add mode and opens the modal. |
| Registration.Form.PhotoCaptured | components/StudentRegistration.tsx:25-28 | The captured picture becomes the photo and the camera closes. Nothing else changes. |
| Registration.Form.EditClick | components/StudentRegistration.tsx:59-63 | The student's name and photo are loaded, the editing id is the student's id, and the modal opens. |
| Registration.Form.Submit | components/StudentRegistration.tsx:41-57 | The issued request is the one described above. An empty name or photo leaves the form as it was. Any other submit empties the form, closes the modal and clears the editing id. |
| Scenario.ScenarioStatuses | App.tsx:153-168 | Alice, present in one scan and absent in the other, resolves to present in either order. Bob resolves to late. |
| Scenario.EndToEndScenario | App.tsx:152-193 | That day's dashboard counts present 1, late 1 and absent 0 for either session order, with percentages 50, 50 and 0. |

## Left out

- Rendering (JSX, the pie-chart gradient, the status modal), the theme and dark mode, toasts and their timers, and `localStorage` persistence (App.tsx:28-72, 208-350) are not modelled.
- The camera and canvas capture (components/Camera.tsx) and `FileReader` upload are left out. Only their outcome is modelled, as the photo string passed to `Registration.Form.PhotoCaptured` or `Taking.Review.Capture`.
- The recognition service (services/geminiService.ts) is a network call. It is an oracle: `Taking.Review.Capture` receives its answer, or `None` when the call throws.
- `crypto.randomUUID()`, `Date.now()` and `new Date()` are parameters. Dates are `YYYY-MM-DD` strings compared as strings, which is how `new Date(date).getTime()` orders them.
- Override.UpdateManualStatus: one timestamp `now` serves every amended record. The source calls `Date.now()` once per record inside the `map`, so amended records could differ by milliseconds.
- Taking.ToRecords: one `today` and one `now` serve all records. The source reads the clock once per record, so a confirmation straddling midnight could split the dates. Fresh ids are the function `newId` applied to the record's index.
- Taking.Review.UpdateStatus: the entry is replaced by value. The source shallow-copies the array and assigns `status` on the shared entry object, which the previous array also sees. That array is discarded at once, so no observable state differs.
- Taking.Combine: confidence is a natural number, so `match?.confidence || 0` only replaces a missing match. The service declares confidence as any number (services/geminiService.ts:45, 70). Non-integer confidences are not modelled: 87.5 would print as `87.5%` in the export. NaN and negative confidences are not modelled either.
- Consolidation.Percent: integer round-half-up `(200·count + total) / (2·total)` stands for the floating-point `Math.round(count / total * 100)`. The two can differ where binary rounding puts an exact half just below .5.
- Registration.Lower: only ASCII letters are lower-cased. JavaScript's `toLowerCase` also maps non-ASCII letters.
- History.SortByDate, History.FilteredSessions: the sort is proved to be a permutation ordered newest first, but stability among equal dates is not claimed. Unparseable dates (where the source's comparator yields NaN) are not modelled.
- HistoryExport.ExportCsv: `toLocaleString` of the timestamp is the parameter `formatTime`. Building the Blob, the download link and the file name is left out. The source does not escape quotes inside names, and neither does the model.
- Override.OverrideTakesEffectOnSoleSession: the override is proved to show on the dashboard only when the date has at most one session. With several sessions, a stronger record in a session other than the first still wins the precedence, so an override to absent or late can be masked.
- The unmarked status with a reporting policy, the status-toggle cycle, the month-grid builder, per-person range summaries and the monthly export are described for this system but absent from the code, and are not modelled. The code always treats a student with no record as absent (App.tsx:175).
- App.tsx:307 passes `onUpdateStatus={updateManualStatus}` to `AttendanceHistory`, whose props do not declare it. The override is modelled as written but is not reachable from the shown screens.
