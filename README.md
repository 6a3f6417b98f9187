# Teacher portal: a Dafny model of its decision and bookkeeping logic

The teacher portal keeps a class list and the day's attendance in the browser. It has a
user-management page for administrators, a demo login endpoint, a one-off script that creates
the main administrator, and a configuration module read from the process environment. This
project models the logic of those five pieces and proves what each one promises.

- `Portal.dfy`: the portal page script (`frontend/portal.js`).
  - The class `Portal.PortalPage` holds the page's module-level variables (`students`,
    `editingId`, `currentEditingStudentId`). Its methods update them the way the page
    functions do:
    - "Absent" is given to every student without a status;
    - today's attendance records are laid over the table;
    - `setStatus` and `toggleStatus` change one student;
    - the edit dialog is opened and closed.
  - Each method is tied by its `ensures` to a specification function: `WithDefaultStatus`,
    `Overlay`/`ApplyRecord`, `Statistics` and `InSection`. The lemmas prove the promised
    properties of those functions:
    - the counters partition the students;
    - percentages are rounded and bounded;
    - the last record wins on the table;
    - unknown ids change nothing;
    - sections are distinct and in first-appearance order.
  - The page's own quirk is kept. The table takes the status of the **last** record for a
    student, but the statistics count the **first**. `LoadedStatusMatchesStatistics` proves
    the two agree when the fetched students have distinct ids and no status of their own, and
    no student has two records. `DuplicateRecordsDisagree` exhibits a
    table showing "Late" that is counted as present.
  - `editingId` is never given a value anywhere in the page. The class invariant `Valid()`
    records this, so `saveStudent` always sends a POST.
- `UserManagement.dfy`: the user-management page (`frontend/user-management.js`).
  - The Edit/Delete rule per account row.
  - `escapeHtml`, with its round trip through the browser's reading of the five entities.
  - The edit and create forms and the `PUT` body.
  - The edit dialog's selected account, as the class `EditDialog`.
- `DemoLogin.dfy`: the `POST /api/login` handler of `backend/server.js` over its constant
  user list.
- `MainAdmin.dfy`: `backend/scripts/create_main_admin.js`.
  - The ordered validation chain and the duplicate-e-mail check.
  - The insert into the admins table, modelled as the class `AdminTable` whose `rows` the
    method extends.
- `Environment.dfy`: `config/environment.js`. The configuration record uses JavaScript `||`
  defaults, and there is a `validate()` check.
- `Text.dfy`: `String.prototype.trim`, which both pages apply to form fields, and `length`
  counted in UTF-16 code units.
- `Wrappers.dfy`: `Option` and `Result`, and `Selected`: the test both pages apply to their
  edit dialog's id.

Values the sources only test for truthiness are the empty string when unset. Ids that are
tested with `!id` are `Option<int>`, with id 0 counting as unselected.

## Model

| member | source | states |
|---|---|---|
| Portal.FindStudent | frontend/portal.js:454 | the index of the first student with the id, or None exactly when no student has it |
| Portal.FirstRecord | frontend/portal.js:142 | the index of the first record for the id, or None exactly when no record names it |
| Portal.LastRecordStatus | frontend/portal.js:107-113 | None exactly when no record names the id; otherwise the status of a record for the id that no later record for the id follows |
| Portal.WithDefaultStatus | frontend/portal.js:77-81 | same students in the same order; a student with a status keeps it, one without gets "Absent"; only `status` changes and no status is left empty |
| Portal.ApplyRecord | frontend/portal.js:108-111 | an unknown id leaves the table unchanged; otherwise the first student with the id takes the record's status and every other student and field is unchanged |
| Portal.Overlay | frontend/portal.js:107-113 | laying the records over the table keeps its length (its per-student effect is `OverlayAt`) |
| Portal.OverlayAt | frontend/portal.js:107-113 | after the overlay, a student keeps its id, and takes the status of the LAST record naming its id when it is the first student with that id; otherwise it is unchanged |
| Portal.UnknownRecordIgnored | frontend/portal.js:107-111 | a record whose id matches no student changes nothing |
| Portal.StatisticsStatus | frontend/portal.js:142-143 | the status the counters read: that of the FIRST record for the student, "Absent" when there is none |
| Portal.CountedAbsent | frontend/portal.js:142-147 | a student is counted absent exactly when no record names it or the first record's status is neither "Present" nor "Late" |
| Portal.CountCategory | frontend/portal.js:141-148 | a counter never exceeds the number of students |
| Portal.CountsPartition | frontend/portal.js:141-150 | present + absent + late equals the number of students |
| Portal.PercentageIsRounded | frontend/portal.js:151-153 | the percentage is 100·count/total rounded to the nearest integer (halves up), so it lies in 0..100, is 0 for count 0 and 100 for count = total |
| Portal.Classify | frontend/portal.js:145-147 | "Present" and "Late" are their own categories; every other status is absent |
| Portal.Percentage | frontend/portal.js:151-153 | 0 with no students; otherwise the p with 2·total·p ≤ 200·count + total < 2·total·(p + 1), i.e. 100·count/total rounded half up |
| Portal.Statistics | frontend/portal.js:123-163 | no students: every figure 0; otherwise each counter is the number of students in its category, the counters add up to the total, each percentage is at most 100 and the total reads 100% |
| Portal.OverlaySameStatistics | frontend/portal.js:107-119 | laying the records over the table does not change the statistics computed from them |
| Portal.UpdateHomeStatistics | frontend/portal.js:123-169 | the counting loop yields exactly `Statistics` of the table and records, and its counters add up to the number of students |
| Portal.LoadedStatusMatchesStatistics | frontend/portal.js:77-143 | with distinct student ids, at most one record per student and no status fetched, each loaded student shows exactly the status the counters use for it |
| Portal.DuplicateRecordsDisagree | frontend/portal.js:107-143 | with records "Present" then "Late" for one student the table shows "Late" while the present counter is 1 |
| Portal.SameIdsSameStatistics | frontend/portal.js:141-143 | the statistics depend on the students' ids only |
| Portal.FindStudentSameIds | frontend/portal.js:108 | the lookup depends on the students' ids only |
| Portal.Distinct | frontend/portal.js:401 | `[...new Set(xs)]`: no repeats, the same values as `xs`, in order of first appearance |
| Portal.SectionColumn | frontend/portal.js:401 | the section of every student, in table order |
| Portal.LoadSections | frontend/portal.js:395-409 | every section of the table exactly once, and nothing else |
| Portal.StatusClass | frontend/portal.js:430 | "present", "late" or "absent", agreeing with the counters' classification of the status |
| Portal.InSection | frontend/portal.js:426-427 | only students of the section, drawn from the table, and all of them |
| Portal.InSectionAppend | frontend/portal.js:426-427 | the filter keeps table order: the section's students of a table in two parts are those of the first part followed by those of the second |
| Portal.InSectionSingle | frontend/portal.js:426-427 | one student is kept, once, exactly when it belongs to the section |
| Portal.RowFor | frontend/portal.js:428-438 | the row's number, id, full name and course; the status shown is the student's, or "Absent" when it has none, and the colour class agrees with the text shown |
| Portal.LoadAttendance | frontend/portal.js:411-450 | no section chosen: an empty table; otherwise one row per student of the section in table order, numbered from 1, with full name, course, status class and the status shown as "Absent" when unset |
| Portal.Toggled | frontend/portal.js:505 | "Present" becomes "Absent"; every other status, "Late" included, becomes "Present" |
| Portal.ToggleTwice | frontend/portal.js:505 | toggling twice restores the status exactly when it was "Present" or "Absent" |
| Portal.SaveStudentRequest | frontend/portal.js:176-222 | an empty field (untrimmed) is refused with "Fill all fields"; otherwise the form is sent unchanged, as a POST when no student is being edited and a PUT to the edited id when one is |
| Portal.EditStudentSubmission | frontend/portal.js:320-345 | no selected student, then no token, then a field empty after trimming refuse with their messages, in that order; otherwise the trimmed form is PUT to the selected student |
| Portal.BlankFieldRefusedOnlyByEditDialog | frontend/portal.js:328-341 | a field of white space only passes `saveStudent`'s check but is refused by the edit dialog |
| Portal.ApiBase | frontend/portal.js:8-17 | an already set value wins; otherwise the local server for localhost, 127.0.0.1 or an unreadable location, and `origin + "/api"` for any other host |
| Portal.ApiBaseSettles | frontend/portal.js:8-18 | running the derivation again after it has run changes nothing |
| Portal.PortalPage.constructor | frontend/portal.js:5-6 | an empty table, no student being edited and no dialog selection |
| Portal.PortalPage.LoadStudents | frontend/portal.js:68-92 | a failed response changes nothing; otherwise the table becomes the fetched list with "Absent" defaults and today's records laid over it, and the statistics are those of the fetched list and the records |
| Portal.PortalPage.LoadTodayAttendance | frontend/portal.js:94-121 | a failed response changes nothing; otherwise the table becomes `Overlay` of the old table and the records, and the statistics are computed from them |
| Portal.PortalPage.SetStatus | frontend/portal.js:452-468 | the table becomes `ApplyRecord` of the id and status; the same pair is posted exactly when the id is known |
| Portal.PortalPage.ToggleStatus | frontend/portal.js:501-509 | an unknown id changes nothing; otherwise the first student with the id takes its toggled status and nothing else changes |
| Portal.PortalPage.SaveStudent | frontend/portal.js:176-238 | the request is `SaveStudentRequest` with the current `editingId`, which is always a POST; the table is untouched |
| Portal.PortalPage.OpenEditStudentModal | frontend/portal.js:290-299 | selects the student and fills the dialog with its five fields |
| Portal.PortalPage.CloseEditStudentModal | frontend/portal.js:301-305 | clears the selection |
| Portal.PortalPage.EditStudent | frontend/portal.js:314-318 | an unknown id does nothing; otherwise the dialog selects the id and is filled with the five fields of the first student with that id |
| Portal.PortalPage.HandleEditStudentFormSubmit | frontend/portal.js:320-345 | submits on the dialog's current selection |
| Text.Trim | frontend/portal.js:328-332 | `trim()`: the slice of the text with only white space before and after it, neither starting nor ending with white space, empty exactly when the text is all white space, and the whole text when nothing surrounds it |
| Text.TrimIsSlice | frontend/portal.js:328-332 | what trimming leaves is a slice `s[a..b]` with only white space in `s[..a]` and `s[b..]` |
| Text.Utf16Length | backend/scripts/create_main_admin.js:59 | `length` in UTF-16 code units: between the number of characters and twice it, and 0 only for the empty text |
| Text.Utf16LengthOfBmpText | backend/scripts/create_main_admin.js:59 | text with no character above U+FFFF has as many code units as characters |
| Text.TrimEmptyExactlyWhenBlank | frontend/portal.js:328-341 | trimming leaves nothing exactly when the text is all white space |
| UserManagement.ActionsFor | frontend/user-management.js:70-84 | Delete exactly when the viewer is main, the row is not main and not the viewer's own; Edit exactly when the viewer is main or the row is the viewer's own |
| UserManagement.DeleteIsGuarded | frontend/user-management.js:72-84 | never Delete on the main account or on one's own row; Delete implies Edit; no stored admin, no action |
| UserManagement.ActionsOverListing | frontend/user-management.js:70-84 | a main viewer can edit every row; any other viewer deletes nothing and edits exactly its own rows |
| UserManagement.RoleLabel | frontend/user-management.js:71 | "Administrator" exactly when the flag is 1, "Teacher" otherwise |
| UserManagement.EscapeChar | frontend/user-management.js:131 | the five special characters become an entity `&...;`; every other character is kept |
| UserManagement.EscapeHtml | frontend/user-management.js:129-132 | never shorter than its input; falsy input gives "" |
| UserManagement.EscapedHasNoMarkup | frontend/user-management.js:129-132 | the escaped text holds none of `< > " '` |
| UserManagement.EscapeIdentity | frontend/user-management.js:129-132 | text is unchanged exactly when it holds none of the five characters |
| UserManagement.EscapeRoundTrip | frontend/user-management.js:129-132 | reading the escaped text back as HTML gives the original text |
| UserManagement.AdminFlag | frontend/user-management.js:186 | 1 exactly when the role is "admin", 0 otherwise |
| UserManagement.MakeEditBody | frontend/user-management.js:207-210 | always name, e-mail and flag; the password exactly when one was typed |
| UserManagement.EditSubmission | frontend/user-management.js:174-201 | no selection, then no token, then a name or e-mail empty after trimming refuse with their messages, in that order; otherwise the selected id receives the trimmed name and e-mail and the untrimmed password |
| UserManagement.CreateSubmission | frontend/user-management.js:280-297 | no token, then a missing trimmed name, trimmed e-mail or password refuse; otherwise the four values are posted |
| UserManagement.PasswordNotTrimmed | frontend/user-management.js:182-184 | a password of spaces is sent as typed by both forms |
| UserManagement.PageEnabled | frontend/user-management.js:315-322 | the page works exactly for a stored administrator |
| UserManagement.EditDialog.constructor | frontend/user-management.js:148 | nothing selected |
| UserManagement.EditDialog.OpenEditModal | frontend/user-management.js:150-158 | selects the account; the form holds its name and e-mail, an empty password and the role matching its flag |
| UserManagement.EditDialog.CloseEditModal | frontend/user-management.js:160-164 | clears the selection, after which every submit is refused with "Error: No user selected" |
| UserManagement.EditDialog.HandleEditFormSubmit | frontend/user-management.js:174-201 | submits on the current selection and only ever to the selected id |
| UserManagement.UnchangedEditResendsAccount | frontend/user-management.js:150-210 | opening an account and submitting unchanged sends back its name, e-mail and flag with no password |
| DemoLogin.FindUser | backend/server.js:41 | the index of the first user whose username is the same string, None exactly when there is none |
| DemoLogin.HandleLogin | backend/server.js:31-65 | status is 200, 400 or 401; 400 exactly when a field is falsy; 401 carries the one credentials message; 200 exactly for a success body, which has no password field |
| DemoLogin.LoginOutcome | backend/server.js:41-59 | success exactly when the first user with the username has exactly the password, and the response names that user's id and username; every other failure is the same 401 |
| DemoLogin.Login | backend/server.js:17-65 | over the constant list, exactly teacher1 and teacher2 with the password "teacher123" get in, each under its own id |
| DemoLogin.DemoCredentials | backend/server.js:17-28 | teacher1 and teacher2 log in with "teacher123"; a wrong password and an unknown name get the same answer |
| DemoLogin.NonStringPasswordRejected | backend/server.js:47-49 | a password that is not a string never matches |
| MainAdmin.Message | backend/scripts/create_main_admin.js:47-93 | every failure has a non-empty error text |
| MainAdmin.MessagesDistinct | backend/scripts/create_main_admin.js:47-93 | different failures print different texts |
| MainAdmin.ExitCode | backend/scripts/create_main_admin.js:47-121 | exit code 0 exactly when the admin was created |
| MainAdmin.Validate | backend/scripts/create_main_admin.js:47-69 | the first failing check in the order empty answer, mismatch, a length below 8 UTF-16 code units, no '@' is the one reported |
| MainAdmin.AcceptedAnswers | backend/scripts/create_main_admin.js:47-69 | accepted answers are non-empty, with matching passwords at least 8 code units long (so at least 4 characters) and an '@' in the e-mail |
| MainAdmin.PasswordLengthInCodeUnits | backend/scripts/create_main_admin.js:59-63 | four characters from beyond U+FFFF pass the length rule while four letters do not |
| MainAdmin.EmailTaken | backend/scripts/create_main_admin.js:80-93 | the table scan finds the e-mail exactly when some row holds it |
| MainAdmin.Decide | backend/scripts/create_main_admin.js:47-101 | created exactly when validation passes and the e-mail is free, with the next id; otherwise the validation failure, or the duplicate e-mail |
| MainAdmin.MainCount | backend/scripts/create_main_admin.js:100-101 | never more main rows than rows |
| MainAdmin.AdminTable.constructor | backend/scripts/create_main_admin.js:72-80 | the table as found, with ids below the next id and distinct e-mails |
| MainAdmin.AdminTable.CreateMainAdmin | backend/scripts/create_main_admin.js:80-122 | a rejection writes nothing; an acceptance appends exactly one row with the next id, the name, e-mail, hashed password and both flags, keeps earlier rows and e-mails distinct, adds one main row and advances the next id by one |
| MainAdmin.SecondMainAdminAccepted | backend/scripts/create_main_admin.js:79-101 | a table that already has a main administrator accepts a second one |
| Environment.LoadConfig | config/environment.js:9-44 | every setting is its variable when set and non-empty and its default otherwise; `nodeEnv` alone decides both mode flags |
| Environment.OrDefault | config/environment.js:13 | the variable when it is set and non-empty, the default otherwise |
| Environment.ConfigDefaults | config/environment.js:9-44 | port, development/production flags (never both), secret and expiry defaults, and the registration flag as the module derives them |
| Environment.MissingVars | config/environment.js:48-49 | exactly the required variables that are unset or empty, and none when all are set |
| Environment.Join | config/environment.js:52 | no parts give "", one part itself, and more parts start with the first part and the separator |
| Environment.Validate | config/environment.js:47-54 | throws exactly in production with a variable missing, with a message naming the missing variables |
| Environment.ValidateWithRequiredVars | config/environment.js:47-54 | for any configuration: throws exactly in production with JWT_SECRET unset or empty, naming JWT_SECRET alone |
| Environment.ValidateThrowsOnlyForMissingSecretInProduction | config/environment.js:47-54 | against the configuration of the same environment: throws exactly when NODE_ENV is "production" and JWT_SECRET is unset or empty, naming JWT_SECRET |

## Left out

- Page rendering: the DOM, event listeners, modal visibility, the sidebar and messages. Only
  the data each function decides is modelled; the attendance table is its list of rows.
- `fetch`, `localStorage`, `alert`, `confirm` and `setTimeout`. A response appears as an
  `Option` (None for a response that is not ok). A stored token or admin is a parameter. The
  request a function would send is its result.
- `saveAttendanceToBackend`: `SetStatus` returns the record it would post; the server's
  answer is not modelled.
- `renderStudents`, `handleStudentAction`, `submitEditStudentForm`, `clearForm`,
  `submitEditForm`'s response handling, `loadUsers`' fetch and `handleUserAction`'s delete
  request: these are I/O and rendering around the decisions modelled above.
- Portal.PortalPage.SaveStudent: the reload of the table after a successful save is left to
  the caller (`LoadStudents`).
- `formatDateTime` in both pages: it depends on `Date` parsing and locale formatting.
- Portal.PercentageIsRounded: it states rounding on exact rationals (halves up), not the
  floating-point evaluation of `Math.round((count / total) * 100)`.
- Portal.Statistics: the figures are numbers; the text "N%" written into the page is
  not modelled.
- `Number(...)` coercion of flags and ids: they are integers already.
- Portal.PortalPage.LoadStudents and Portal.PortalPage.LoadTodayAttendance: each is one
  uninterrupted step. In the page they wait for responses (`await` at portal.js:71, 75, 84,
  98 and 103), and `loadStudents` is called without waiting at 233, 277, 368, 565 and 577. A
  status click or a second load can run in between, and its change is then overwritten.
  Their ensures hold only when nothing runs in between; interleaving is not modelled.
- Exceptions caught by `try`/`catch` in the pages and the 500 "Server error" branch of the
  login handler: the modelled code does not throw.
- sqlite3, bcryptjs and readline in the provisioning script. The table is a sequence, the
  hash is a function parameter, and the answers are a value. Database errors (connection,
  query, insert, hashing) are not modelled. The database's `lastID` is the `nextId` counter.
- Express static serving, CORS, `app.listen`, and the health and root routes of the demo
  server.
- dotenv loading and `parseInt` of `DB_CONNECTION_LIMIT`: the limit is kept as its text.
- `login.js`, `alerts.js`, `logger.js`, `generate-favicon.js`, `test_login.js`, and the
  other scripts under `backend/scripts`. They are not part of this model.
- The backend with signed tokens, student ownership checks and the attendance upsert is not
  part of this model.
- Text.Trim: it covers the ECMAScript white-space and line-terminator characters. Strings are
  sequences of Unicode characters; the one length the source compares with a bound (the
  password's) is measured in UTF-16 code units by `Text.Utf16Length`.
- UserManagement.EscapeHtml: `String(s)` of a value that is not a string is not modelled;
  names and e-mails are strings.
