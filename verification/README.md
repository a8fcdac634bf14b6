# Quorum meeting tracker — a Dafny model of its record store

Quorum is a small Flask application for running the meetings of an
organisation. It keeps a member list, a registry of role names, and a set of
meetings. Each meeting has an agenda, roll-call attendance, motions and
statements. The meeting page shows whether the quorum is met. The meeting
report lists the motions and statements that belong to no agenda item.

Under the HTTP routes sits a single-writer record store. Every route is one
read-modify-write step against that store. This project models the store as
an immutable Dafny value (`Records.Store`) with one sequence per table, kept
in rowid order. Each route becomes a pure transition function. A step that the
application would abort (with a 404, or with an integrity or type error inside
the request) returns `Err` and leaves the store as it was. Row ids follow
SQLite's rowid rule: one more than the largest id in the table, or 1 when the
table is empty (`Tables.NextKey`).

Modules, in dependency order:

- `Outcomes`: `Option`, `Result` and the failure kinds `NotFound`,
  `MissingValue(column)` and `BadInput(field)`.
- `Tables`: generic table operations, with lemmas about filters, maps and
  key uniqueness. These are `Filter`, `MapRows`, `RemoveKey`, `Find` and
  `NextKey`.
- `Text`: Python's `str.split('\n')`, `str.strip()` with Python's
  whitespace set, and the agenda-text splitter of `add_meeting`.
- `Records`: the seven tables, the store and its invariant `Valid`. The
  invariant requires unique ids in every table, unique role names, and at
  most one attendance row per (meeting, member) pair.
- `RollCall`: the attendance upsert of `take_attendance`.
- `Quorum`: the attendance map, the present count and the quorum test of
  `meeting_details` and `generate_report`.
- `Lifecycle`: the following routes.
  - `add_meeting`, `add_agenda_item` and `take_attendance`.
  - `add_motion` and `add_statement`.
  - `adjourn_meeting`.
- `Cascade`: `delete_meeting` with its cascade, `delete_motion` and
  `delete_statement`.
- `Registry`: `add_member`, `delete_member`, `add_role` and `delete_role`.
- `Reports`: the statement orderings of the live page and the report, and
  the report's general motions and statements.

Where SQLAlchemy's persistence rules decide the outcome, the model follows
them:

- **Attendance insert with no submitted value.** A member with no submitted
  value and no existing row gets a new row with status `'Absent'`. The ORM
  omits a `None` attribute from the INSERT, so the column default applies
  (app.py:60). An existing row, by contrast, is overwritten with NULL
  (`RollCall.Marked`).
- **Motion status default.** A motion submitted without a status gets
  `'Pending'` for the same reason (app.py:70).
- **Missing date.** A missing `date` field makes `strptime` raise a
  `TypeError`, which the route does not catch. `add_meeting` therefore fails
  with `BadInput("date")`. An unparsable date falls back to "now".
- **Malformed quorum.** A `quorum_required` field that `int()` rejects makes
  the route fail with `BadInput("quorum_required")`.
- **Negative quorum.** `int()` accepts a negative number, so the required
  quorum is an `int`, and such a quorum is always met.
- **Quorum too large.** `int()` accepts any size, but SQLite stores a signed
  64-bit INTEGER. The driver refuses to bind a larger number when the meeting
  is committed, so `add_meeting` fails with `BadInput("quorum_required")`.
- **No meeting check on add.** `add_agenda_item`, `add_motion` and
  `add_statement` do not check that the meeting exists, so rows may name an
  absent meeting.
- **Agenda links cleared on meeting delete.** The agenda item's `motions`
  and `statements` relationships do not cascade. Deleting a meeting
  therefore clears the agenda link of any surviving motion or statement that
  pointed at one of the removed agenda items.
- **Deleting a missing role.** `delete_role` on a missing id changes
  nothing; it does not answer 404.

## Model

| member | source | states |
|---|---|---|
| Tables.NextKey | app.py:20 | a new row's id is larger than every id in the table; it is 1 for an empty table, and otherwise one more than an id present |
| Tables.Find | app.py:128 | the position found holds the requested id and is the first such; nothing is found exactly when no row has that id |
| Tables.RemoveKey | app.py:129 | the rows kept are exactly those with a different id; the id is gone afterwards; a missing id changes nothing |
| Tables.RemoveKeyUnique | app.py:129 | removing a row keeps ids unique and removes exactly one row when the id is present |
| Records.FindRow | app.py:264 | `filter_by(meeting_id, member_id).first()`: the result is the first row of that pair, or nothing exactly when no row has the pair |
| Text.LeadingSpace | app.py:207 | the characters skipped at the front are all whitespace, and the next one is not |
| Text.TrailingSpace | app.py:207 | the characters skipped at the back are all whitespace, and the one before them is not |
| Text.StripShape | app.py:207 | `Text.Strip`, the model of `strip()`, returns a slice of the line with only whitespace cut off at either end, and the result neither starts nor ends with whitespace |
| Text.StripEmptyIffBlank | app.py:207-208 | a stripped line is empty exactly when the line is all whitespace |
| Text.StripIdempotent | app.py:207 | stripping twice is stripping once |
| Text.StripInside | app.py:207 | stripping adds no characters |
| Text.Split | app.py:205 | `split('\n')` always yields at least one piece, even for empty text |
| Text.SplitPiecesSingleLine | app.py:205 | no piece of `split('\n')` contains a newline |
| Text.JoinSplit | app.py:205 | joining the pieces with newlines gives back the text |
| Text.SplitJoin | app.py:205 | splitting lines that hold no newline, after joining them, gives back the same lines |
| Text.SplitConcat | app.py:205 | splitting `a + "\n" + b` splits `a` and `b` separately |
| Text.NonBlankLines | app.py:206-208 | no kept title is empty, and there are at most as many titles as lines |
| Text.NonBlankLinesStripped | app.py:207 | every kept title has no leading or trailing whitespace |
| Text.NonBlankLinesAppend | app.py:206-208 | filtering lines distributes over concatenation, so the order of the lines is kept |
| Text.AgendaTitles | app.py:204 | missing or empty agenda text yields no items; no title is empty |
| Text.AgendaTitlesClean | app.py:205-208 | every agenda title is stripped and holds no newline |
| Text.AgendaTitlesOfText | app.py:204 | the `if agenda_text` guard is redundant: a present but empty text also gives no titles |
| Text.NonBlankLinesMembers | app.py:206-208 | a kept title is the stripped form of some non-blank line, and every non-blank line contributes its stripped form |
| Text.NonBlankLinesCons | app.py:206-208 | the first line contributes its stripped form at the front, unless it is all whitespace |
| Text.AgendaTitlesMembers | app.py:204-209 | the agenda titles of a text are exactly the stripped forms of its non-blank lines |
| Text.AgendaTitlesOfLine | app.py:205-209 | a single line gives one title, its stripped form, unless it is all whitespace, in which case it gives none |
| Text.AgendaTitlesOfJoin | app.py:205-209 | the titles of two texts joined by a newline are the titles of the first followed by the titles of the second |
| Text.AgendaTitlesOfLines | app.py:204-209 | for lines without newlines joined into one text, the titles are those lines' non-blank stripped forms, in input order |
| RollCall.Marked | app.py:60 | a submitted value is stored as given; the status is NULL exactly when an existing row is marked with no value; a new row with no value gets `'Absent'` |
| RollCall.Mark | app.py:264-268 | after marking, the pair has a row; its status is the submitted value if a row existed, or the submitted value with `'Absent'` as default if it was created; a row is added only when none existed |
| RollCall.MarkFrame | app.py:264-268 | marking one (meeting, member) pair changes the lookup of no other pair |
| RollCall.MarkOtherMeeting | app.py:264-268 | marking at one meeting leaves every other meeting's attendance rows unchanged |
| RollCall.MarkValid | app.py:264-268 | marking keeps attendance ids unique and keeps at most one row per pair |
| RollCall.RollCallMarks | app.py:261-268 | after the roll call `RollCall.RollCallRows`, every listed member has a row at the meeting holding that member's submitted value (`'Absent'` when a new row gets none) |
| RollCall.RollCallFrame | app.py:261-268 | the roll call changes no pair of another meeting and no member who is not listed |
| RollCall.RollCallOtherMeeting | app.py:261-268 | the roll call leaves every other meeting's attendance rows unchanged |
| RollCall.RollCallValid | app.py:261-268 | the roll call keeps attendance ids unique and at most one row per pair |
| Quorum.QuorumMet | app.py:229 | a required quorum of zero or less is always met |
| Quorum.QuorumStatus | app.py:223-229 | NotFound exactly when the meeting is missing; otherwise the present count, and a quorum flag that is true exactly when the count reaches that meeting's required quorum |
| Quorum.StatusMapKeys | app.py:227 | the dict comprehension `Quorum.StatusMap` has one entry per member with a row, holding the status of one of that member's rows |
| Quorum.AttendanceMapKeys | app.py:226-227 | the attendance map `Quorum.AttendanceMap` of a meeting has one entry per member with a row at that meeting, holding the status of one of those rows |
| Quorum.AttendanceMapLookup | app.py:226-227 | with one row per pair, the attendance map holds exactly the members with a row at the meeting, each with that row's status |
| Quorum.PresentCountIsRowCount | app.py:226-228 | with one row per pair, the present count `Quorum.PresentCount` equals the number of the meeting's rows whose status is exactly `'Present'`, and never exceeds the meeting's attendance rows |
| Quorum.QuorumMetIff | app.py:226-229 | the quorum is met exactly when the number of the meeting's rows marked exactly `'Present'` reaches the required quorum |
| Quorum.MarkAttendanceMap | app.py:226-227 | marking a member changes the meeting's attendance map at that member only, to the marked status |
| Quorum.MarkPresentKeepsQuorum | app.py:342-345 | marking a member `'Present'` raises the present count by at most one and never lowers it, so a met quorum stays met |
| Quorum.RollCallOtherQuorum | app.py:258-269 | a roll call changes neither the present count nor the quorum of another meeting |
| Lifecycle.NewAgenda | app.py:206-209 | the new agenda items carry exactly the titles, in order; their ids are distinct and lie in the range reserved from the first free id; all belong to the meeting and are not completed |
| Lifecycle.AppendAgenda | app.py:209 | the old agenda items stay in front; the new ones follow with the titles in order, belong to the meeting and take ids no old item has |
| Lifecycle.AppendAgendaUnique | app.py:209 | appending agenda items keeps ids unique and gives every new item an unused id |
| Lifecycle.AppendAgendaOwn | app.py:209 | the meeting's agenda titles become its old titles followed by the new ones |
| Lifecycle.AppendAgendaOther | app.py:209 | no other meeting's agenda changes |
| Lifecycle.AddMeeting | app.py:177-201 | the meeting is created exactly when a date field is present, the quorum field is blank or an integer that fits SQLite's 64-bit INTEGER, and title and type are given; a missing date fails first, then a bad quorum; on success exactly one meeting is appended after the old ones |
| Lifecycle.AddMeetingCreates | app.py:33-38 | the new meeting has an unused id, the submitted title, type and location, the parsed date or "now", the submitted quorum or 0, status `'Ongoing'` and no end time |
| Lifecycle.AddMeetingAgenda | app.py:203-210 | the new meeting's agenda is the agenda titles of the submitted text, in order; other meetings' agendas and all other tables are unchanged |
| Lifecycle.AddMeetingValid | app.py:193-210 | adding a meeting keeps the store's invariant |
| Lifecycle.AddAgendaItem | app.py:251-254 | a missing or empty title changes nothing; otherwise exactly one item with that title and an unused id is appended for the meeting, and no other table changes |
| Lifecycle.AddAgendaItemAgenda | app.py:251-254 | a non-empty title is added at the end of that meeting's agenda, and no other meeting's agenda changes |
| Lifecycle.AddAgendaItemValid | app.py:251-254 | adding an agenda item keeps the store's invariant |
| Lifecycle.TakeAttendance | app.py:258-259 | NotFound exactly when the meeting is missing; otherwise only the attendance table changes |
| Lifecycle.TakeAttendanceSpec | app.py:258-269 | after the roll call, the store's invariant holds, every member has a row at the meeting holding the submitted value, and other meetings' attendance is unchanged |
| Lifecycle.AddMotion | app.py:272-292 | fails exactly when the text is missing; otherwise exactly one motion with an unused id, the submitted fields and status `'Pending'` when none is given, is appended, and nothing else changes |
| Lifecycle.AddStatement | app.py:295-310 | fails exactly when the content is missing; otherwise exactly one statement with an unused id, the submitted fields and timestamp "now" is appended, and nothing else changes |
| Lifecycle.AddMotionStatementValid | app.py:282-309 | adding a motion or a statement keeps the store's invariant |
| Lifecycle.Adjourn | app.py:313-318 | NotFound exactly when the meeting is missing; otherwise that meeting alone becomes `'Finished'` with the given end time and nothing else changes |
| Lifecycle.AdjournTwice | app.py:316-317 | adjourning again overwrites the end time: two adjournments equal the last one alone |
| Lifecycle.AdjournValid | app.py:313-318 | adjourning keeps the store's invariant |
| Cascade.UnlinkMotion | app.py:53 | a motion keeps every field but its agenda link; the link no longer points at a removed item, and is only ever cleared, never changed; a motion without such a link is unchanged |
| Cascade.UnlinkStatement | app.py:54 | the same for a statement |
| Cascade.DeleteMeeting | app.py:214-218 | NotFound exactly when the meeting is missing; otherwise the meeting is gone and members and roles are untouched |
| Cascade.DeleteMeetingRemovesChildren | app.py:41-44 | no agenda item, attendance row, motion or statement of the deleted meeting remains, and no survivor links to one of its agenda items |
| Cascade.DeleteMeetingKeepsOthers | app.py:41-54 | every other meeting, with its agenda and attendance, is kept as it was; its motions and statements stay in order, with links to the removed agenda items cleared |
| Cascade.DeleteMeetingLocalLinks | app.py:41-54 | when another meeting's motions and statements do not link to the deleted meeting's agenda, they are kept exactly |
| Cascade.DeleteMeetingValid | app.py:214-218 | deleting a meeting keeps the store's invariant and removes exactly one meeting |
| Cascade.DeleteMotion | app.py:322-328 | NotFound exactly when the motion is missing; otherwise exactly the motions with other ids remain, and no other table changes |
| Cascade.DeleteStatement | app.py:330-336 | NotFound exactly when the statement is missing; otherwise exactly the statements with other ids remain, and no other table changes |
| Cascade.DeleteMotionStatementValid | app.py:322-336 | deleting a motion or a statement keeps the invariant and removes exactly one row |
| Registry.AddMember | app.py:115-123 | fails exactly when a name is missing, naming the first missing column; otherwise exactly one member with an unused id and the submitted fields is appended |
| Registry.AddMemberValid | app.py:115-123 | adding a member keeps the store's invariant |
| Registry.DeleteMember | app.py:126-130 | NotFound exactly when the member is missing; otherwise exactly the other members remain and no other table changes |
| Registry.DeleteMemberKeepsQuorum | app.py:126-130 | the invariant holds and one member goes, but the member's attendance rows stay, so every meeting's present count and quorum are unchanged |
| Registry.AddRole | app.py:361-365 | a missing, empty or already used name changes nothing; a new name is appended once with an unused id, and after the call the name is registered |
| Registry.AddRoleValid | app.py:361-365 | adding a role keeps role names unique and the store's invariant |
| Registry.AddRoleIdempotent | app.py:363 | submitting the same role name twice has the effect of submitting it once |
| Registry.DeleteRole | app.py:368-374 | the id is gone afterwards; a missing id changes nothing; exactly the roles with other ids remain |
| Registry.DeleteRoleValid | app.py:368-374 | deleting a role keeps the store's invariant and removes exactly one role when it exists |
| Reports.SortByTime | app.py:351 | `ORDER BY timestamp`: the result is in time order (ascending or descending) and is a permutation of the input |
| Reports.OrderedUnique | app.py:232 | with distinct timestamps, two time-ordered permutations of the same statements are equal |
| Reports.NewestFirstIsReverse | app.py:232 | with distinct timestamps, the newest-first order is exactly the oldest-first order reversed |
| Reports.LiveStatements | app.py:232 | the live page lists the meeting's statements newest first, each exactly as often as it is stored (a permutation of the meeting's rows) |
| Reports.GeneralMotions | app.py:350 | the general motions are exactly the meeting's motions without an agenda link, and there are no more of them than motions |
| Reports.GeneralMotionsSplit | app.py:350 | the general motions are exactly the meeting's motions without an agenda link, in table order; together with the linked ones they account for all of the meeting's motions |
| Reports.LinkedNotGeneral | app.py:350 | a motion linked to an agenda item is never a general motion |
| Reports.GeneralStatements | app.py:351 | the report lists the meeting's statements without an agenda link oldest first, as a permutation of those rows |
| Reports.MeetingReport | app.py:338-355 | NotFound exactly when the meeting is missing; otherwise the report shows that meeting, its present count, a quorum flag that is true exactly when that count reaches its quorum, its agenda in table order, its unlinked motions in table order, and a permutation of its unlinked statements, oldest first |
| Reports.MeetingReportFigures | app.py:342-345 | with one attendance row per pair, the report's present count is the number of the meeting's rows marked exactly `'Present'`, and the quorum flag compares that number with the meeting's quorum |

## Left out

- Flask routing, templates, redirects and the HTTP side of `get_or_404`. A missing row is the `NotFound` failure.
- Sessions, commits and SQLite itself. Each route is one atomic transition on an immutable store.
- The clock and date parsing are not modelled. "Now" is a parameter, and the outcome of `strptime` is given as the form value `DateField` (missing, parsed, or unparsable).
- The `int()` parse of `quorum_required` is not modelled. Its outcome is given as the form value `QuorumField` (blank, a number, or malformed).
- Converting the id fields of the motion and statement forms from text to integers is not modelled; those ids arrive already converted or absent.
- The settings page, the logo upload and the context-processor defaults (app.py:81-99, app.py:133-170) are configuration and file I/O.
- The listing pages `home`, `members` and `meetings` (app.py:103-113, app.py:172-175) only read the store, and the model does not include them.
- Column length limits (`String(50)` and similar) are not enforced. SQLite does not enforce them either.
- Concurrency between requests is left out; each request is one step.
- Row ids are unbounded: a table whose largest id is already 2^63 - 1, where SQLite would pick another rowid or fail, is not modelled.
- Reports.SortByTime: SQL does not fix the order of statements with equal timestamps. The model keeps table order, and the orderings are proved equal only when timestamps are distinct.
- The form fields `status_<id>` of the roll call are modelled as a map keyed by member id (`RollCall.RollCallRows`).
- `meeting_details` (app.py:231, app.py:235) lists all of a meeting's motions and agenda items. These are the plain selections `Records.MotionsOf` and `Records.AgendaOf`, and they have no separate member.
- The `is_completed` flag of agenda items is stored, but no route changes it.
- The desktop launcher (a server thread and a GUI window) is not part of this model.
