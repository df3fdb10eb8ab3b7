# ada_ipt2 core, modelled in Dafny

ada_ipt2 is a school administration app. A Laravel back end serves faculty, report and token-authentication endpoints. A React front end has student, faculty, report, settings and profile screens. There is also a stand-alone Express mock of the authentication API and a PHP script that creates the MySQL database named in `.env`.

The project models the decision logic of these parts and proves what it promises:

- **`FacultyController`** covers `store` and `update`:
  - which payload keys fill which columns;
  - the `first name / last name / name` derivation;
  - the `data:` URL pattern and its 50 MB guard;
  - the upload path.
- **`ReportController`** covers the filtered, id-descending student and faculty reports: totals, status counts, the status breakdown grouped by status, and the distinct departments.
- **`AuthController`** covers:
  - the `username`/`email` lookup `login` builds;
  - its 422 and 401 refusals;
  - the 80-digit hex token stored on the user;
  - how `verify` reads a token.
- **`MockAuthServer`**: the `mock-` + base64 tokens of the Express server, with the round trip from `makeToken` through `parseToken`.
- **`CreateDatabase`**: the `.env` parser, last assignment winning, the defaults and the `CREATE DATABASE` statement.
- **Screens:**
  - `StudentList`: filters, search, pagination and the page-button window;
  - `FacultyPage`: directory filters, region/province/city cascade and the add form;
  - `ReportPage`: request URL, summary fallbacks and fetch outcomes;
  - `SettingsPage`: add, edit, archive and restore;
  - `ProfilePage`: initials and handlers.
- **Shared modules:**
  - `Values`: PHP/JavaScript truthiness, `??`, `?:`, `||`;
  - `Text`: trim, explode/split, implode/join, `strpos`, ASCII case;
  - `Encoding`: UTF-8, RFC 4648 base64, `bin2hex`, `application/x-www-form-urlencoded` as `URLSearchParams` writes it;
  - `Seqs`: filter, count, dedup, subsequence.

Each piece takes the source's own form:

- State that the source updates in place is a `class`:
  - the `users` table;
  - a stored faculty row;
  - each screen's React state.
- A class method states its whole new state.
- Loops become methods with invariants: the `.env` loop and the page-window loop.
- Pure computations are functions, with lemmas relating them.

The external world enters as parameters:

- request bodies, database rows and fetch outcomes;
- the clock (`now`), `random_bytes` / `Str::random` and the file reader's data URL;
- `base64_decode` and `Hash::check`, passed as oracles;
- `Schema::hasColumn`, passed as a flag.

`Val` is `Null | Str(s)`, because every payload and column value the core handles is a string or null.

Faculty records get no generated ID: `store` takes `FacultyID`, else `faculty_id`, from the request (`FacultyController.php:20`), and `update` never touches it.

## Model

| member | source | states |
|---|---|---|
| FacultyController.BeforeFinalNewline | app/Http/Controllers/FacultyController.php:31 | the text PCRE's `$` lets the pattern see is the string or the string without one final line feed |
| FacultyController.DataUrlMatchSound | app/Http/Controllers/FacultyController.php:31-33 | a match splits the string as `data:` + mime + `;base64,` + data, optionally followed by one final `\n`; neither group holds a line feed, and the mime group ends at the first `;base64,` of the string |
| FacultyController.DataUrlMatchComplete | app/Http/Controllers/FacultyController.php:31 | every string of the shape the pattern describes is matched |
| FacultyController.FirstMarker | app/Http/Controllers/FacultyController.php:31 | the lazy group ends at the first `;base64,` of the whole string |
| FacultyController.Extension | app/Http/Controllers/FacultyController.php:39-40 | `png` when the mime type has no `/`; in every case only ASCII letters and digits |
| FacultyController.ExtensionOfSubtype | app/Http/Controllers/FacultyController.php:40 | with a `/` in the mime type the extension is `explode('/', $mime)[1]`, the text between the first and second `/`, with everything but ASCII letters and digits removed |
| FacultyController.ProcessPicture | app/Http/Controllers/FacultyController.php:30-47 | refused (422) exactly for a truthy value that the pattern matches and whose payload does not decode or exceeds 50 MiB; a matched one that decodes within the limit becomes exactly `/uploads/faculties/fac_<random>.<ext>`; a falsy or unmatched value is kept as it is |
| FacultyController.StoredPathShape | app/Http/Controllers/FacultyController.php:41-45 | a stored path lies in `/uploads/faculties/`, starts `fac_`, then the 12 random characters, a `.` and only ASCII letters and digits |
| FacultyController.UploadPathShape | app/Http/Controllers/FacultyController.php:41-45 | `/uploads/faculties/fac_`, the 12 random characters, `.`, then the extension's ASCII letters and digits |
| FacultyController.NameSplit | app/Http/Controllers/FacultyController.php:21-23 | without FirstName/LastName, first name is `Name` up to the first space, last name the rest after it, and `name` is `Name` |
| FacultyController.NameFromParts | app/Http/Controllers/FacultyController.php:21-23 | without `Name`, the given names are kept and `name` is the trimmed `first last` |
| FacultyController.Store | app/Http/Controllers/FacultyController.php:16-55 | 500 exactly when there is no `Name` key and `FirstName` or `LastName` is null, since the fallback then reads the undefined key; otherwise 422 exactly when the picture step refuses; otherwise every column is set, each from its payload key (with the `faculty_id` and `email` fallbacks) or null, and the name and picture columns as derived |
| FacultyController.FillColumns | app/Http/Controllers/FacultyController.php:19-54 | never a 500; 422 exactly when the picture step refuses; otherwise all thirteen columns with the values `store` gives them |
| FacultyController.CopyIfPresent | app/Http/Controllers/FacultyController.php:66-73 | a column is set from its request key exactly when `array_key_exists`, and no other column changes |
| FacultyController.CopyStep | app/Http/Controllers/FacultyController.php:66-95 | each copy extends the set of columns copied so far by one column, as the source's order visits them |
| FacultyController.CopyPersonColumns | app/Http/Controllers/FacultyController.php:66-73 | after the first eight copies, exactly the present keys among them are columns, each with its request value |
| FacultyController.CopyPlaceColumns | app/Http/Controllers/FacultyController.php:92-95 | the status and location copies add exactly the present keys and keep the earlier columns |
| FacultyController.UpdateData | app/Http/Controllers/FacultyController.php:62-97 | rejected with 422 exactly when the picture step refuses; otherwise the changes hold exactly the columns whose key is present, with the request's values and the processed picture |
| FacultyController.FacultyRecord.Update | app/Http/Controllers/FacultyController.php:62-98 | refused (422, the upload message) exactly when a `ProfilePicture` key is present and the picture step refuses it, and then the row is unchanged; otherwise the row's columns are its old ones plus exactly those whose key is present, absent keys keep their values, present ones take the request's value and the picture its processed value, the response is the updated row, and `faculty_id` never changes |
| ReportController.Select | app/Http/Controllers/ReportController.php:13-17 | with a falsy or `All` filter every row is kept, otherwise exactly the rows whose column equals the filter |
| ReportController.InsertById | app/Http/Controllers/ReportController.php:19 | inserting into an id-descending list keeps it id-descending and adds exactly the one row |
| ReportController.SortByIdDesc | app/Http/Controllers/ReportController.php:19 | the result is ordered by id, highest first, and is a permutation of the rows |
| ReportController.CountWhere | app/Http/Controllers/ReportController.php:23 | the count is the number of rows whose column holds the value (the length of that filter), at most the number of rows and zero exactly when no row holds it |
| ReportController.FilterColumns | app/Http/Controllers/ReportController.php:23 | testing the rows' column maps picks as many as testing the rows |
| ReportController.Tally | app/Http/Controllers/ReportController.php:25 | one entry per key, in the keys' order |
| ReportController.TallyCounts | app/Http/Controllers/ReportController.php:25 | each entry's count is the number of rows with that status |
| ReportController.TallyTotal | app/Http/Controllers/ReportController.php:25 | the tallied counts add up to the keys' occurrences |
| ReportController.BreakdownTotal | app/Http/Controllers/ReportController.php:25 | the breakdown's counts sum to the number of rows and each status appears once |
| ReportController.BreakdownEntries | app/Http/Controllers/ReportController.php:50 | every status of the rows has an entry, and every entry is a status of the rows with its exact count |
| ReportController.DepartmentsMembership | app/Http/Controllers/ReportController.php:49 | a value is plucked exactly when some row has it as its department |
| ReportController.TextsMembership | app/Http/Controllers/ReportController.php:49 | the texts of string values hold exactly the strings among them |
| ReportController.DistinctDepartments | app/Http/Controllers/ReportController.php:49 | no duplicates; exactly the truthy departments that occur in some row |
| ReportController.StudentReportOf | app/Http/Controllers/ReportController.php:11-33 | the students are the filtered rows, id-descending; total is their number; enrolled is exactly the number of them with status `Enrolled`; the breakdown is the grouped status count of the listed students and sums to the total; the label is the filter or `All`; the stamp is `now` |
| ReportController.FacultyReportOf | app/Http/Controllers/ReportController.php:35-58 | the same for faculty, with active exactly the number with status `Active`, and the departments the distinct truthy departments of the listed faculty: each held by one of them, and every truthy department among them listed |
| ReportController.FilteredReportRows | app/Http/Controllers/ReportController.php:39-43 | a department-filtered report lists exactly the table's rows of that department |
| AuthController.BuildLookup | app/Http/Controllers/AuthController.php:29-44 | one or two clauses; a user satisfies them exactly when the intended username/email match holds, with and without a `username` column |
| AuthController.AnyHoldsShort | app/Http/Controllers/AuthController.php:31-40 | a one- or two-clause `orWhere` group holds exactly when one of its clauses holds |
| AuthController.UsernameOnly | app/Http/Controllers/AuthController.php:32-39 | with only a username, a user is found whose username or email equals it |
| AuthController.Hidden | app/Http/Controllers/AuthController.php:79 | the response user has every column but `password`, with unchanged values |
| AuthController.NewToken | app/Http/Controllers/AuthController.php:71 | 80 lowercase hex digits that decode back to the 40 random bytes |
| AuthController.ExtractToken | app/Http/Controllers/AuthController.php:110-111 | of the header when truthy, else the query parameter: the text after `Bearer ` when it starts so, else the whole text |
| AuthController.BearerHeader | app/Http/Controllers/AuthController.php:111 | a `Bearer t` header gives `t` |
| AuthController.PlainHeader | app/Http/Controllers/AuthController.php:111 | any other truthy header is the token whole |
| AuthController.QueryFallback | app/Http/Controllers/AuthController.php:110 | without a truthy header only the query parameter matters |
| AuthController.Verify | app/Http/Controllers/AuthController.php:108-123 | `Token required` (401) exactly for a falsy token, `Invalid token` (401) exactly when no row carries a truthy token, otherwise a row carrying it, shown without the password |
| AuthController.UserTable.constructor | database/migrations/2025_11_13_000000_create_users_table.php:18-25 | the table holds the given rows |
| AuthController.UserTable.Login | app/Http/Controllers/AuthController.php:22-80 | 422 without a truthy identifier; 401 for no match or a failed hash check with the table unchanged; otherwise only the first match's `api_token` changes to the new token, which the response carries with the user minus the password |
| MockAuthServer.Safe | api/server.js:44 | the safe user has every field of the user but the password |
| MockAuthServer.MakeToken | api/server.js:15-18 | the token starts with `mock-` |
| MockAuthServer.ParseToken | api/server.js:21-30 | a name exactly for a truthy token starting `mock-`; a name never contains `:` |
| MockAuthServer.TokenRoundTrip | api/server.js:15-30 | an ASCII username comes back from its token up to its first `:` |
| MockAuthServer.TokenNamesUser | api/server.js:15-30 | a username without `:` comes back whole |
| MockAuthServer.PayloadAscii | api/server.js:16 | the payload of an ASCII username is ASCII |
| MockAuthServer.PayloadHead | api/server.js:25 | the first `:`-part of the payload is the username up to its own first `:` |
| MockAuthServer.Login | api/server.js:33-46 | 400 exactly for a falsy username or password, 401 exactly when no user has both, otherwise a token for that user and the user without password |
| MockAuthServer.RequestToken | api/server.js:50-51 | the rest of a `Bearer ` header, else the query token or null |
| MockAuthServer.Verify | api/server.js:49-58 | 401 unless the parsed name belongs to a known user, then that user without password |
| MockAuthServer.UsersWellFormed | api/server.js:9-12 | the known usernames are distinct, non-empty and ASCII without `:` |
| MockAuthServer.LoginThenVerify | api/server.js:33-58 | a token from a successful login verifies as the same user, as a bearer header or as the query parameter |
| CreateDatabase.CommentIsTrimmedHash | scripts/create_database.php:13 | a line is skipped as a comment exactly when its trimmed text starts with `#` |
| CreateDatabase.CommentAtStart | scripts/create_database.php:13 | a comment is a line whose first non-white-space character is `#` |
| CreateDatabase.Entry | scripts/create_database.php:13-16 | an entry exactly for a non-comment with `=` after position 0; the key has no `=`; the value has no quote, space, CR or LF at its ends |
| CreateDatabase.EntryOfAssignment | scripts/create_database.php:15-16 | `key=value` yields the trimmed key and the value trimmed of spaces, quotes and line ends |
| CreateDatabase.TrimKeepsOut | scripts/create_database.php:16 | trimming adds no character |
| CreateDatabase.Entries | scripts/create_database.php:12 | one entry per line, in order |
| CreateDatabase.ParseEnv | scripts/create_database.php:10-17 | the loop's variables are those the lines define, each applied in turn |
| CreateDatabase.LastAssignment | scripts/create_database.php:16 | the position of the last entry assigning the key, or none |
| CreateDatabase.LastAssignmentWins | scripts/create_database.php:12-17 | a key is set exactly when some entry assigns it, and then to the last such value |
| CreateDatabase.LastLineWins | scripts/create_database.php:12-17 | the same, on the lines of `.env` |
| CreateDatabase.IgnoredLine | scripts/create_database.php:13-14 | a comment or a line without `=` past position 0 changes nothing |
| CreateDatabase.Setting | scripts/create_database.php:19-23 | the variable when set, else the default |
| CreateDatabase.Config | scripts/create_database.php:19-23 | the five settings with defaults `127.0.0.1`, `3306`, `ada`, `root` and empty |
| CreateDatabase.DefaultConfig | scripts/create_database.php:19-23 | an empty `.env` gives exactly the defaults |
| CreateDatabase.CreateStatement | scripts/create_database.php:30 | the statement is the fixed head ending in a backtick, then the name, then the fixed tail starting with a backtick and naming `utf8mb4` |
| CreateDatabase.CreateStatementInjective | scripts/create_database.php:30 | different names give different statements |
| CreateDatabase.PlanOf | scripts/create_database.php:5-31 | exit 1 exactly without `.env`; otherwise the DSN, user, password and statement of the parsed configuration |
| StudentList.ChangeFilter | resources/js/components/student.js:127-129 | the named filter takes the value, or `` for `All`; the other filter is kept |
| StudentList.FilteredSubsequence | resources/js/components/student.js:382-406 | the filtered list is a subsequence holding exactly the students matching every active condition |
| StudentList.EmptySearchKeepsAll | resources/js/components/student.js:382-406 | with no filter and no search every student is listed |
| StudentList.TotalPages | resources/js/components/student.js:288 | the least page count whose pages hold all items |
| StudentList.Slice | resources/js/components/student.js:411 | `slice` with end clamped to the list and a start past the end giving nothing |
| StudentList.Page | resources/js/components/student.js:409-412 | at most five items, the ones at the page's offset; non-empty exactly for pages up to the page count; full before the last page |
| StudentList.PagesCoverItems | resources/js/components/student.js:409-412 | the pages `1..TotalPages` are the successive chunks of the list and together are the list |
| StudentList.PageOfRest | resources/js/components/student.js:410 | page `p` is page `p-1` of the list after its first five items |
| StudentList.Range | resources/js/components/student.js:304-316 | the consecutive integers from `lo` to `hi` |
| StudentList.PageWindowShape | resources/js/components/student.js:307-316 | the buttons are consecutive existing pages, at most five; the current page is among them when it exists |
| StudentList.AllPagesShown | resources/js/components/student.js:308-309 | with at most five pages every page has a button |
| StudentList.DisplayedPages | resources/js/components/student.js:307-316 | the loop builds exactly the page window |
| StudentList.NextEnabledWithoutPages | resources/js/components/student.js:338 | with no students the Next button is enabled on page 1 and leads to an empty page |
| StudentList.NextStaysOnPages | resources/js/components/student.js:338 | with Next disabled from the last page on, Next always leads to a page with items |
| StudentList.StudentStats | resources/js/components/student.js:415-422 | total is every student, active at most total, inactive the non-`Active` ones, active plus inactive is total |
| StudentList.StudentsApp.constructor | resources/js/components/student.js:376-378 | empty search, no filters, page 1 |
| StudentList.StudentsApp.SetSearchTerm | resources/js/components/student.js:376 | only the search term changes |
| StudentList.StudentsApp.HandleFilterChange | resources/js/components/student.js:127-129 | the filters change as `ChangeFilter` says; the page is not reset |
| StudentList.StudentsApp.PressPrevious | resources/js/components/student.js:321-323 | one page back unless on page 1 |
| StudentList.StudentsApp.PressNext | resources/js/components/student.js:336-338 | one page forward unless on or past the last page, and a page moved to shows items |
| StudentList.StudentsApp.PressPage | resources/js/components/student.js:329-331 | a shown page button selects that page, which shows items |
| FacultyPage.DisplayName | resources/js/components/Faculty.js:86 | `name` when truthy, else first and last name joined by a space |
| FacultyPage.FilteredFaculty | resources/js/components/Faculty.js:81-91 | a subsequence holding exactly the records passing the department, status and search tests |
| FacultyPage.NoFilterShowsAll | resources/js/components/Faculty.js:82-89 | both filters at `All` and a blank search show every record |
| FacultyPage.FindRegion | resources/js/components/Faculty.js:8-33 | the region of that name, or none when no region has it |
| FacultyPage.ProvinceKeys | resources/js/components/Faculty.js:295 | the region's province names in order, or nothing for an unknown region |
| FacultyPage.NoRegionNoProvinces | resources/js/components/Faculty.js:267 | the initial empty region offers no provinces |
| FacultyPage.FindProvince | resources/js/components/Faculty.js:308 | the position of the named province, or none |
| FacultyPage.CityOptions | resources/js/components/Faculty.js:308 | none exactly for an unknown region (the lookup throws); a non-empty list only for a province of that region, and then its cities |
| FacultyPage.LocationsHaveCities | resources/js/components/Faculty.js:8-33 | every province in the table has cities |
| FacultyPage.OfferedProvincesHaveCities | resources/js/components/Faculty.js:295-308 | every offered province leads to a non-empty city list |
| FacultyPage.HasFieldsUpdate | resources/js/components/Faculty.js:284 | setting a field keeps every form field present |
| FacultyPage.SubmitPayload | resources/js/components/Faculty.js:329-343 | `FacultyID` or null, `Name` as `first last`, the picture or the preview, the other fields copied |
| FacultyPage.SubmittedNamesStored | resources/js/components/Faculty.js:329-343 | the back end stores the sent first and last names and the joined name unchanged |
| FacultyPage.AddFacultyModal.constructor | resources/js/components/Faculty.js:258-275 | the initial form, no options, no preview, no error |
| FacultyPage.AddFacultyModal.HandleChange | resources/js/components/Faculty.js:282-285 | only the named field changes |
| FacultyPage.AddFacultyModal.HandleRegionChange | resources/js/components/Faculty.js:287-298 | region set, province and city cleared, provinces offered for the region, cities cleared |
| FacultyPage.AddFacultyModal.HandleProvinceChange | resources/js/components/Faculty.js:300-309 | province set, city cleared; cities from the previous region's table, none for a blank region or province, and a throw for an unknown region |
| FacultyPage.AddFacultyModal.HandleAvatar | resources/js/components/Faculty.js:311-320 | no file changes nothing; a read file sets preview and picture |
| FacultyPage.AddFacultyModal.HandleSubmit | resources/js/components/Faculty.js:322-350 | refused exactly when a trimmed name is blank; otherwise sends the payload and closes on success or shows the save error |
| FacultyPage.FacultyDirectory.constructor | resources/js/components/Faculty.js:45-51 | the loaded list, empty search, both filters `All`, not saving |
| FacultyPage.FacultyDirectory.ResetFilters | resources/js/components/Faculty.js:93 | both filters back to `All`, nothing else changes |
| FacultyPage.FacultyDirectory.SetFilters | resources/js/components/Faculty.js:47 | only the filters change |
| FacultyPage.FacultyDirectory.SetSearchTerm | resources/js/components/Faculty.js:46 | only the search term changes |
| FacultyPage.FacultyDirectory.AddCreated | resources/js/components/Faculty.js:131 | the created record goes in front of the list |
| FacultyPage.CreateFailedMessage | resources/js/components/Faculty.js:123-126 | `Create failed: <status>`, followed by a space and the detail exactly when there is one: the object's `message`, else its JSON text, or the raw text |
| FacultyPage.SaveOutcome | resources/js/components/Faculty.js:100-134 | the created record exactly for a 2xx answer with an object; a non-2xx answer gives the `Create failed` message, a 2xx text answer the unexpected-response message, a thrown error its message or the fallback, and no error message is empty |
| FacultyPage.FacultyDirectory.SaveFacultyAsWritten | resources/js/components/Faculty.js:97-99 | whatever the server would answer, the save fails with `setModalMessage is not defined`, the list is unchanged and `modalSaving` stays set |
| FacultyPage.FacultyDirectory.SaveFaculty | resources/js/components/Faculty.js:97-137 | the result is the save outcome; a created record goes in front of the list, a failure leaves it; `modalSaving` ends cleared |
| ReportPage.ReportUrl | resources/js/components/Report.js:32-38 | the bare path unless filtering; a `?` appears exactly when filtering |
| ReportPage.UrlCarriesFilter | resources/js/components/Report.js:32-38 | a filtered URL is path `?` key `=` encoded value; the value has no `&`, `=` or `#` and parses back to the filter's UTF-8 bytes |
| ReportPage.Records | resources/js/components/Report.js:43 | the array when there is one, else empty |
| ReportPage.OrElse | resources/js/components/Report.js:46-48 | the server's value when present, else the fallback |
| ReportPage.WithStatus | resources/js/components/Report.js:47 | exactly the number of records with the status (the filter's length), at most the number of records, zero exactly when none has it |
| ReportPage.Departments | resources/js/components/Report.js:82 | each record's department, in order |
| ReportPage.FallbackDepartments | resources/js/components/Report.js:82 | no duplicates; exactly the truthy departments of the records |
| ReportPage.FallbackDepartmentsOrder | resources/js/components/Report.js:82 | in the order of first occurrence |
| ReportPage.StudentSummaryOf | resources/js/components/Report.js:45-49 | each server field when given, else the count, the `Enrolled` count, the filter or `All` |
| ReportPage.FacultySummaryOf | resources/js/components/Report.js:78-83 | the same for faculty, with the departments fallback |
| ReportPage.FallbackSummaryBounds | resources/js/components/Report.js:78-83 | without a server summary, total is the number of records, active is at most total, and the department label is not empty |
| ReportPage.StampOf | resources/js/components/Report.js:50-51 | a truthy server stamp is used, otherwise the page's clock |
| ReportPage.StudentSummaryAgrees | resources/js/components/Report.js:45-49 | the back end's total and enrolled count equal what the page computes from the records, and so does the label unless the filter is `0` |
| ReportPage.FacultySummaryAgrees | resources/js/components/Report.js:78-83 | the same for the faculty total, active count and department label |
| ReportPage.ReportScreen.constructor | resources/js/components/Report.js:16-27 | filters `All`, no records, initial summaries, no stamps, not loading, no errors |
| ReportPage.ReportScreen.ReceiveStudentReport | resources/js/components/Report.js:42-51 | records, summary and stamp from the answer; nothing else changes |
| ReportPage.ReportScreen.FailStudentReport | resources/js/components/Report.js:52-56 | records cleared, initial summary, no stamp, the failure message; nothing else changes |
| ReportPage.ReportScreen.FetchStudentReport | resources/js/components/Report.js:29-60 | requests the report URL, applies the answer or the failure, and ends not loading |
| ReportPage.ReportScreen.ReceiveFacultyReport | resources/js/components/Report.js:75-85 | the same for faculty |
| ReportPage.ReportScreen.FailFacultyReport | resources/js/components/Report.js:86-90 | the same for faculty |
| ReportPage.ReportScreen.FetchFacultyReport | resources/js/components/Report.js:62-94 | the same for faculty |
| ReportPage.ReportScreen.SetStudentCourseFilter | resources/js/components/Report.js:96-98 | the filter changes and the student report is fetched for it: the URL, then the answer's records, summary and stamp or the cleared state with the failure message, not loading; faculty state is untouched |
| ReportPage.ReportScreen.SetFacultyDepartmentFilter | resources/js/components/Report.js:100-102 | the same for the faculty filter and report; student state is untouched |
| SettingsPage.BlankIsTrimmedEmpty | resources/js/components/Settings.js:52 | `!field.trim()` holds exactly when trimming leaves nothing |
| SettingsPage.Edit | resources/js/components/Settings.js:57-60 | same length; entries with another id unchanged; the edited one merged with the form |
| SettingsPage.EditKeepsIds | resources/js/components/Settings.js:57-60 | an edit keeps every id |
| SettingsPage.EditTwice | resources/js/components/Settings.js:57-60 | two edits are one edit with the later form winning |
| SettingsPage.EditAbsent | resources/js/components/Settings.js:57-60 | editing an absent id changes nothing |
| SettingsPage.NewEntry | resources/js/components/Settings.js:61-66 | the form's fields plus an id of prefix and time |
| SettingsPage.FindById | resources/js/components/Settings.js:102 | the first entry with the id, or none |
| SettingsPage.WithoutId | resources/js/components/Settings.js:105 | a subsequence holding exactly the entries with another id |
| SettingsPage.WithoutUniqueId | resources/js/components/Settings.js:105 | removing an id only entry `k` has removes just that entry |
| SettingsPage.Archive | resources/js/components/Settings.js:100-106 | nothing changes for an absent id; otherwise the first match, stamped, goes in front of the archive and all entries with the id leave the list |
| SettingsPage.ArchiveKeepsSize | resources/js/components/Settings.js:100-106 | with distinct ids the two lists together keep their size |
| SettingsPage.Project | resources/js/components/Settings.js:123 | exactly the named fields, from the item |
| SettingsPage.Restore | resources/js/components/Settings.js:120-127 | the projected item goes in front of the list; the archive keeps exactly its entries with another id |
| SettingsPage.TagAll | resources/js/components/Settings.js:34-35 | each entry tagged, in order |
| SettingsPage.ArchivedItems | resources/js/components/Settings.js:32-38 | tagged courses then tagged years; the `Course` tag marks exactly the first part |
| SettingsPage.ArchiveThenRestore | resources/js/components/Settings.js:100-127 | archiving an entry with a unique id and restoring it puts its projected fields in front of the other entries and leaves the archive as before |
| SettingsPage.ProjectDropsStamps | resources/js/components/Settings.js:104-126 | the archive stamp and type tag do not survive a restore |
| SettingsPage.Settings.constructor | resources/js/components/Settings.js:21-30 | the sample lists, empty archives, empty forms, nothing being edited, no alert |
| SettingsPage.Settings.SelectTab | resources/js/components/Settings.js:142 | the chosen tab is shown and nothing else changes |
| SettingsPage.Settings.ChangeCourseField | resources/js/components/Settings.js:161-169 | the typed-in course field takes the text, the other form fields and all other state are kept |
| SettingsPage.Settings.ChangeYearField | resources/js/components/Settings.js:229-246 | the same for the year label and dates |
| SettingsPage.Settings.ResetCourseForm | resources/js/components/Settings.js:40-43 | "Cancel edit" (line 176): the course form is emptied and no course is being edited; nothing else changes |
| SettingsPage.Settings.ResetYearForm | resources/js/components/Settings.js:45-48 | the same for the year form (line 252) |
| SettingsPage.Settings.HandleCourseSubmit | resources/js/components/Settings.js:50-68 | an incomplete form only raises the alert; otherwise the course is edited or added in front, and the form is reset |
| SettingsPage.Settings.HandleYearSubmit | resources/js/components/Settings.js:70-86 | the same for academic years, with dates required |
| SettingsPage.Settings.HandleEditCourse | resources/js/components/Settings.js:88-92 | the form takes the course's title and code, its id is being edited, and the courses tab is shown |
| SettingsPage.Settings.HandleEditYear | resources/js/components/Settings.js:94-98 | the same for an academic year |
| SettingsPage.Settings.ArchiveCourse | resources/js/components/Settings.js:100-108 | lists as `Archive` says; the form is reset exactly when that course was being edited |
| SettingsPage.Settings.ArchiveYear | resources/js/components/Settings.js:110-118 | the same for academic years |
| SettingsPage.Settings.RestoreItem | resources/js/components/Settings.js:120-127 | a `Course` item restored to the courses, any other to the years |
| ProfilePage.NonEmpty | resources/js/components/Profile.js:35 | a subsequence of the parts holding exactly the non-empty ones |
| ProfilePage.Firsts | resources/js/components/Profile.js:35 | one character per non-empty part, its first |
| ProfilePage.Initials | resources/js/components/Profile.js:35 | one upper-cased first letter per non-empty space-separated part |
| ProfilePage.InitialOfWord | resources/js/components/Profile.js:35 | one word gives its upper-cased first letter |
| ProfilePage.DefaultInitials | resources/js/components/Profile.js:5-9 | the default profile shows `A` |
| ProfilePage.InitialsOfWords | resources/js/components/Profile.js:35 | words joined by single spaces give one initial per word, in order |
| ProfilePage.ProfileScreen.constructor | resources/js/components/Profile.js:13-14 | the default profile and no message |
| ProfilePage.ProfileScreen.HandleChange | resources/js/components/Profile.js:16-19 | only the named field changes |
| ProfilePage.ProfileScreen.HandleSave | resources/js/components/Profile.js:21-24 | the saved message is set, the profile unchanged |
| Seqs.CountField | app/Http/Controllers/ReportController.php:23 | the number of rows holding the value (the length of that filter), at most the number of rows, zero exactly when no row holds it |
| Text.TrimIsSlice | scripts/create_database.php:16 | trimming leaves a contiguous piece whose ends are not trimmed characters and around which everything is |
| Text.TrimEmpty | resources/js/components/Settings.js:52 | trimming leaves nothing exactly when every character is trimmed |
| Text.JoinSplit | app/Http/Controllers/FacultyController.php:21-22 | implode of explode gives back the string |
| Text.SplitJoin | resources/js/components/Profile.js:35 | splitting pieces joined by a separator they avoid gives back the pieces |
| Text.SplitHead | app/Http/Controllers/FacultyController.php:21 | the first piece is the text before the first separator |
| Text.SplitTail | app/Http/Controllers/FacultyController.php:22 | the later pieces are the split of the text after the first separator |
| Text.SplitPartsAvoidSeparator | api/server.js:25 | no piece contains the separator |
| Text.FindSub | scripts/create_database.php:14 | the first position where the needle occurs, or none |
| Text.NatToStringValue | api/server.js:16 | the decimal rendering of `Date.now()` reads back as the same number |
| Encoding.Utf8AsciiRoundTrip | api/server.js:17-24 | decoding the UTF-8 of an ASCII string gives it back |
| Encoding.Base64EncodeAlphabet | api/server.js:17 | every character of an encoding is padding or one the decoder reads as a 6-bit value |
| Encoding.Base64RoundTrip | api/server.js:17-24 | decoding an RFC 4648 encoding gives back the bytes |
| Encoding.HexEncode | app/Http/Controllers/AuthController.php:71 | two lowercase hex digits per byte |
| Encoding.HexRoundTrip | app/Http/Controllers/AuthController.php:71 | `bin2hex` output decodes to the same bytes |
| Encoding.FormUrlEncode | resources/js/components/Report.js:34-36 | every character of a serialized value is form-safe: unreserved, `+`, `%` or an uppercase hex digit |
| Encoding.FormRoundTrip | resources/js/components/Report.js:34-36 | a serialized value parses back to the UTF-8 bytes of the original |

## Left out

- HTTP and `fetch`: requests, responses and JSON bodies are values. React rendering, effects, batching and the `loading` spinners appear only as the state fields the handlers set.
- The filesystem: `file_exists`, `file`, `mkdir` and `file_put_contents` are left out. `.env` is a list of lines after `FILE_IGNORE_NEW_LINES | FILE_SKIP_EMPTY_LINES`.
- PDO and MySQL: connecting and running the statement, and the exit codes 0 and 2, are not modelled. The plan stops at the DSN, the credentials and the statement.
- Clocks and randomness are parameters:
  - `now()`, `Date.now()` and `new Date()`;
  - `random_bytes`, `Str::random`.
- `Intl.DateTimeFormat` formatting is left out.
- Oracles and flags:
  - `base64_decode` is an oracle;
  - `Hash::check` is an oracle and hashing is not modelled;
  - `Schema::hasColumn` is a flag.
- The request validation at `AuthController.php:15-20` is not modelled.
- Laravel's `create` and `update` persistence, mass assignment and timestamps are left out. The created row is the column map.
- Comparison semantics:
  - SQL equality and MySQL's case-insensitive collation are exact string equality;
  - the loose comparison in `where`, `unique` and `groupBy` on collections is exact string equality;
  - ties between equal ids under `orderBy('id', 'desc')` are not pinned down, only the order by id and the permutation.
- Only strings and null are modelled. Numbers, booleans, arrays and the typing of the JSON summary fields are not.
- Node's `toString('utf8')` is exact on ASCII bytes only. Other bytes become U+FFFD one by one, an approximation of the real decoder.
- Letter case: `toLowerCase` and `toUpperCase` map only ASCII letters.
- `part[0]` in `Profile.js:35` is taken as a whole character, not a UTF-16 code unit.
- `FacultyPage.AddFacultyModal.HandleProvinceChange`: the TypeError `PH_LOCATIONS[region].provinces` raises for an unknown region is returned as a flag.
- FacultyPage form fields that React leaves `undefined` are not modelled. All form fields are present strings.
- `FacultyPage.AddFacultyModal.HandleSubmit`: the save outcome is an input. `handleSaveFaculty` itself is `FacultyPage.FacultyDirectory.SaveFaculty`, with the request's answer as an input; the CSRF cookie and headers are not modelled.
- `FacultyPage.SaveOutcome`: a JSON body of `null`, an array or a number, and a failed `JSON.parse`, are not told apart from an object or text.
- `ReportPage.ReportScreen.SetStudentCourseFilter` and `ReportPage.ReportScreen.SetFacultyDepartmentFilter` fetch on every call; React re-runs the effect only when the value changed, so choosing the selected option again fetches nothing.
- `ReportPage.ReportScreen.FetchStudentReport` and `ReportPage.ReportScreen.FetchFacultyReport` run to completion one at a time. Two requests that overlap (`Report.js:37-38`, `Report.js:70-71`) can settle out of order, and the older answer can then overwrite the newer; that interleaving is not modelled.
- `StudentList.StudentsApp.HandleFilterChange`: the source does not reset `currentPage`, so a page beyond the new page count can remain selected. The model keeps that behaviour.
- The `MockStats`/banner rendering of `student.js` is not modelled, only `studentStats`.
- Truthiness differs for the string `"0"`: PHP treats it as falsy and JavaScript as truthy. Both are kept, so the page and the server read such a filter differently. `ReportPage.StudentSummaryAgrees` and `ReportPage.FacultySummaryAgrees` relate them through `ServerFilter`.
- Other operations:
  - `AuthController::register` (`AuthController.php:84-105`) is not modelled;
  - `FacultyController`'s `index`, `show` and `destroy` (`FacultyController.php:11-14`, `57-60`, `101-105`) are one-line Eloquent calls with no logic;
  - `Profile.js`'s `handleLogout` (`localStorage` and navigation) is not modelled;
  - the Landing and Example components, routing, the seeders and the migrations are not part of this model.

## Findings

| source | as written | input that shows it | evidently intended | confidence | as-written member | corrected member |
|---|---|---|---|---|---|---|
| resources/js/components/student.js:338 | Next is disabled only when `currentPage === totalPages` | a search matching no student: `totalPages` is 0 and the page is 1, so Next is enabled and moves to page 2, which is empty | disabled from the last page on (`currentPage >= totalPages`) | not executed | StudentList.NextEnabledWithoutPages | StudentList.StudentsApp.PressNext |
| resources/js/components/Faculty.js:99 | `handleSaveFaculty` calls `setModalMessage('')`, a setter the component never declares | any save, even one the server would answer 201: the call throws a ReferenceError before the request, the list is not extended, and `modalSaving` is never cleared | clear the message with a declared setter, or drop the call | not executed | FacultyPage.FacultyDirectory.SaveFacultyAsWritten | FacultyPage.FacultyDirectory.SaveFaculty |
