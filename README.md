# ULAS student check-in engine, modelled in Dafny

ULAS (Universal Lecture Attendance System) lets a student at FUTO check into a
lecture. A course representative opens a session for one school, department and
level and hands out a 4-digit code. The student types the code, their surname,
other names and 11-digit matric number. The portal then accepts or refuses the
check-in. An accepted check-in becomes a new row of that session's attendance
ledger, and the student's device is entered in a device registry shared by all
sessions.

This project models that decision and the state it changes, as found in `app.py`:

- `text.dfy` (module `Text`): ASCII models of the Python string operations the
  portal relies on: `str.lower`, `str.strip`, `str.isdigit`, `str(int)` (with its
  inverse, `int(s)`) and `str.replace(' ', '_')`.
- `session.dfy` (module `Session`): `generate_token`, the session key
  `school_department_level`, the open-session test, the ledger file name
  `attendance_<key>.json` and the archive path of `save_csv_to_lava`.
- `submission.dfy` (module `Submission`): the ledger row, the form and the six
  outcomes. It holds `device_registered`, `is_duplicate` and `Decide`, the ordered
  validation of the student block. It also holds the ledger invariant that accepted
  check-ins keep, and lemmas that relate several check-ins.
- `store.dfy` (module `Store`): the class `AttendanceRepository`. Its fields are
  the open sessions, the ledger files by path and the device registry.
  `Check` runs the checks of the student block step by step and is proved to
  agree with `Decide`. `Submit` calls `Check` and then performs the writes.
  An accepted check-in changes only its own session's ledger and the registry. A refused one changes nothing.

The clock, the random draw, the device identifier and the timestamp text are
parameters. `now` and the expiry are integers (seconds). The ledger and registry
files are fields of the class, and a ledger file that does not exist reads as
the empty ledger.

Two places where the code does less than one would expect, and what the model
does about them:

- One would expect no two records of a ledger to share a full name, ignoring
  case. The code strips surrounding whitespace from the candidate name only. It
  never strips the stored names, and it stores `full_name` unstripped. So a name
  stored with a leading or trailing space is never matched again, and two records
  can end up with equal names. `PaddedNameAcceptedTwice` gives such a case. What
  the code keeps is `LaterNamesUnmatched`: no record's stripped, lower-cased name
  equals an earlier record's lower-cased name. `TrimmedNamesDistinct` proves that
  this implies distinct names whenever the stored names carry no surrounding
  whitespace.
- Each write fetches the file's current version (`sha`) just before it, not when
  the checks read the file, and sends that version with the new content. A write
  that conflicts with a change in that short window is refused, and the code
  ignores the refusal. A change made between the checks' read and the write is
  overwritten. Nothing re-validates or retries. The model applies both writes of
  an accepted check-in as one step that always succeeds.

## Model

| member | source | states |
|---|---|---|
| Session.GenerateToken | app.py:136-137 | the code issued for a draw in [1000, 9999] is four decimal digits with no leading zero, and reads back as that draw |
| Session.TokensAreExactlyTheDraws | app.py:136-137 | every four-digit code with no leading zero is issued by exactly one draw in [1000, 9999], so the issued codes are exactly those strings |
| Session.SessionKeyInjective | app.py:187 | sessions whose school and department names contain no underscore have different keys unless school, department and level all agree |
| Session.SessionLedgersDistinct | app.py:187-208 | such sessions also have different `attendance_<key>.json` ledger files unless school, department and level all agree |
| Session.LedgerPathInjective | app.py:208 | different session keys name different `attendance_<key>.json` files, and no ledger file is `active_attendance.json` or `device_registry.json` |
| Session.ArchivePath | app.py:151-154 | the archive path is `attendances/`, then the school, then the department folder (the department name with every space turned into an underscore), then the file name: course code, `_`, that folder name, `_`, the stamp, `.csv` |
| Session.ArchivePathInjective | app.py:151-154 | where school and department hold no slash, and department and course code no underscore, the archive path determines school, department, course code and stamp: uploads that differ in any of these never share a path. The stamp only goes down to the minute, so two uploads of one course in the same minute do share a path, and the later replaces the earlier |
| Text.Underscored | app.py:153 | `replace(' ', '_')` keeps the length, leaves no space, and changes only spaces, into underscores |
| Text.Strip | app.py:162 | `strip()` returns a contiguous slice of the input that leaves no whitespace at either end, and everything cut off on either side is whitespace; a string that already has none comes back unchanged |
| Submission.DeviceRegisteredAfterAccept | app.py:158-159 | a device is unregistered before its accepted check-in; afterwards exactly it and the previously registered devices count as registered, and it is refused in every session |
| Submission.IsDuplicateExactly | app.py:161-168 | `is_duplicate` is false on an empty ledger and otherwise true exactly when some stored name, lower-cased, equals the stripped, lower-cased candidate, or some stored matric equals the candidate's |
| Submission.Decide | app.py:195-221 | a wrong code or a clock at or past expiry is refused first; then bad input; then a registered device; then a duplicate. A check-in is accepted exactly when it passes all four. The accepted record has S/N one past the ledger length, name `surname + " " + other_names`, the given matric, and clashes with no stored matric or name |
| Submission.CodeCheckRevealsNothing | app.py:195 | with a wrong or expired code, the outcome is the same whatever the names, matric, device, registry and ledger |
| Submission.ExpiryIsExclusive | app.py:195 | a check-in at the expiry instant itself is refused as an invalid or expired code |
| Submission.ShortOrLetteredMatricRejected | app.py:203 | with a valid code, matric "1234567890" (ten digits) and "1234567890a" (a letter) are both refused as invalid input |
| Submission.AcceptPreservesLedgerInvariant | app.py:209-215 | appending an accepted record keeps S/N running 1..n, matric numbers distinct and well-formed, and no later name matching an earlier one |
| Submission.AppendKeepsInvariant | app.py:209-211 | appending to a ledger that keeps the invariant a record numbered one past the last, with an eleven-digit matric and no clash of matric or stripped name with any stored record, keeps the invariant |
| Submission.TrimmedNamesDistinct | app.py:162-164 | where stored names have no surrounding whitespace, the invariant the name test keeps makes all names distinct ignoring case |
| Submission.PaddedStoredNameNeverMatches | app.py:162-164 | a stored name with whitespace at either end never equals, lower-cased, any stripped and lower-cased candidate name |
| Submission.PaddedNameAcceptedTwice | app.py:162-164 | a check-in with a valid code, valid input, a new device and a new matric, whose full name has surrounding whitespace and equals a stored name that no other stored name matches, is accepted, and the ledger then holds that name twice |
| Submission.ResubmittedMatricIsDuplicate | app.py:166 | after a check-in is accepted, any later valid check-in in that session with the same matric, from an unregistered device, is refused as a duplicate |
| Submission.FirstCheckInAccepted | app.py:209-215 | code "4821" at t = 10 before expiry 300, "Jane" "Doe", matric "20231234567", new device, empty ledger: accepted as record S/N 1, "Jane Doe" |
| Submission.SameMatricLaterIsDuplicate | app.py:210-211 | in that session, "John Roe" with the same matric on another device at t = 20 is refused as a duplicate |
| Submission.LateCheckInExpired | app.py:195 | in that session, the right code at t = 310 is refused as invalid or expired |
| Store.AcceptKeepsRepositoryInvariant | app.py:209-215 | writing back an accepted check-in (its session's ledger with the record appended, and the device mapped to the matric) keeps every ledger's invariant and leaves only eleven-digit matric numbers in the registry |
| Store.AttendanceRepository.Check | app.py:186-211 | the student block's checks read the repository and change nothing: a closed session gives "no active attendance", and otherwise the outcome is `Decide` on the session's entry, the stored registry and the session's ledger, with a missing ledger file read as empty |
| Store.AttendanceRepository.Submit | app.py:186-221 | a closed session gives "no active attendance". Otherwise the outcome is `Decide` on the stored registry and ledger, with a missing ledger file read as empty (first S/N 1). Acceptance appends the record to that session's ledger only and maps the device to the matric. Any refusal changes nothing. Registry entries are never removed or changed, and the repository invariant is kept |

## Left out

- The Streamlit user interface: page layout, select boxes, text inputs, buttons and messages. The outcome datatype stands for the message shown. The UI's rerun behaviour is also left out. Reading app.py:192-204: the name and matric fields are drawn only on the run where the "Submit Code" button is true, so on that run they are still empty and the block reports "Invalid input!". Editing a field reruns the script with the button false, which skips the whole block. As the text stands, the acceptance branch appears unreachable from the portal's own interface. The model takes the form as already filled in.
- The generation of the device identifier in `st.session_state`: the device identifier is an input.
- The course-representative and advisor login portals: they only look rows up in local CSV files.
- GitHub I/O (`gh_get_file`, `gh_put_file`), base64 and JSON encoding: ledgers and the registry are in-memory values. The code reads any failed fetch as a missing file (app.py:114-118, 144-146): a rate-limit or server error on the registry read makes every device look new, and the next acceptance writes a one-entry registry over the stored one; the same on the ledger read replaces a full ledger with a single record numbered 1. The model's reads always return the stored value, so the registry-only-grows and ledger-invariant results of `Submit` assume every read succeeds. Failed writes and the window between the ledger write and the registry write are not modelled either. The code ignores write failures and reports success anyway.
- Concurrent submitters and the version check of each write: a write carries the version fetched just before it, a conflicting write is refused and the refusal is ignored, and nothing retries. The model is sequential, so none of these interleavings arise.
- Time zones and `strftime` formatting: `now` and the expiry are integers, and the recorded time is an opaque string.
- `random.randint`: the draw is a parameter in [1000, 9999].
- pandas DataFrames are sequences of records. The CSV export `df.to_csv` in `save_csv_to_lava` and its upload are not modelled; only its path is.
- The `SCHOOL_STRUCTURE` catalogue is not modelled: it only supplies the school, department and level that form the key.
- Text.Strip: models Python's `strip`, `lower` and `isdigit` over ASCII only, and the functions are total, so on non-ASCII input the model's answer differs from the code's. Non-ASCII whitespace such as U+00A0 is kept by `Strip`. `Lower` leaves 'É' unchanged, so "ÉMILE DOE" against a stored "émile doe" is a duplicate in the code but not in the model. An 11-character matric containing '٣' or '²' passes Python's `isdigit` but gets `InvalidInput` from `Decide`.
