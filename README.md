# AttendAI attendance engine, modelled in Dafny

AttendAI records classroom attendance. It matches the faces found in group
photographs against a roster of enrolled students and writes the result into
a per-subject, per-date sheet. Its logic lives in the callbacks of `main.py`.
This project models that logic, apart from the user interface, and proves
properties of it.

The model has five parts.

- **Enrollment** (`AttendanceApp.AttendanceSystem.Enroll`). The five form
  fields are stripped. The operation is rejected if any field is blank, then
  if the Scholar No is already enrolled, then if no face is detected in the
  reference image. A rejection writes nothing. Otherwise one student row and
  one face row are appended; the face row holds the first detected encoding.
- **Subject creation** (`AttendanceApp.AttendanceSystem.CreateSubject`). The
  three fields are stripped. Students are filtered by exact text equality on
  Branch and Semester. The operation is rejected for a blank field, then for
  an empty roster, then for an existing (Subject, Branch, Semester) triple.
  On success the subject row is appended and a sheet named
  `Subject-Branch-Semester.csv` is written. The name keeps the case the
  fields were typed in, and the sheet holds only the roster's Scholar Nos.
- **Selection** (module `Selection`). Each subject is shown as
  `Subject(Branch-Semester)` and read back with the regular expression
  `(\w+)\((\w+)-(\d+)\)`, anchored at the start only. All three groups are
  lower-cased, and the sheet file name is built from the lower-cased groups.
  So, for a Subject and Branch of word characters and a Semester of digits,
  the name selection builds equals the name creation wrote only when Subject
  and Branch contain no upper-case letter (`SelectionMatchesCreationName`).
  The sheets are keyed by exact file name, as on a case-sensitive file
  system; on a case-insensitive one the two names open the same file.
  Sheet names also do not identify subjects. `("a-b", "c", "1")` and
  `("a", "b-c", "1")` share one file, so creating the second subject
  overwrites the first one's sheet (`SheetFileNameCollision`).
- **Matcher** (module `Matcher`). The face rows are restricted to the
  sheet's Scholar Nos. Every roster member starts at 0. The matcher then
  loops over the photos, over the faces detected in each photo, and over the
  known encodings. An accepted comparison sets that student to 1. Nothing
  resets a 1 to 0, and a face that matches no roster member adds no key.
- **Ledger merge** (module `Ledger`). The presence map becomes a column
  labelled with the day's date (`YYYY-MM-DD`). A column with the same label
  is replaced where it stands; otherwise the column is appended. Rows and
  other columns are left alone.

The four stores are fields of the class `AttendanceSystem`: students,
subjects, face rows, and the sheets keyed by file name. They are held in
memory. Face detection (`Detect`: photo to the encodings found in it) and
face comparison (`Compare`: known encoding, unknown encoding and tolerance to
a verdict) are passed in as function parameters, and the model never looks
inside an encoding. The tolerance is the constant `Matcher.Tolerance` (0.5).
The current date is passed in as a `Date`.

Marking attendance has no exception handler. A malformed selection raises a
`ValueError` (main.py:245) and a missing sheet file makes `read_csv` fail
(main.py:248); both escape the callback uncaught, before any file is
written. The model returns `Fail(MalformedSelection)` and
`Fail(SheetNotFound)` for them instead, with the stores unchanged.
Enrollment's own errors are caught by its handler and shown as a message,
again with nothing written.

## Model

| member | source | states |
|---|---|---|
| `Text.TrimStartSpec` | main.py:408-412 | stripping the front removes exactly the leading whitespace |
| `Text.TrimEndSpec` | main.py:408-412 | stripping the back removes exactly the trailing whitespace |
| `Text.StripSpec` | main.py:115-119 | `strip()` keeps the slice between the first and last non-space character, with only whitespace before and after it; the result is empty (a blank field) exactly when every character is whitespace |
| `Text.LowerDigits` | main.py:241 | lower-casing the Semester group leaves it unchanged |
| `Records.InClass` | main.py:124-126 | a student is in the filtered roster exactly when it is in the store with equal Branch and Semester text |
| `Records.InClassAppend` | main.py:124-127 | the filter distributes over concatenation, so it keeps store order and decides each row alone |
| `Records.InClassUnique` | main.py:124-126 | a store with unique Scholar Nos gives a roster with unique Scholar Nos |
| `Selection.SpinnerValues` | main.py:175-178 | one option per subject row |
| `Selection.MatchGroups` | main.py:236 | a returned triple is a match of the pattern at the start of the text: word, word and digit groups, with the literal brackets and dash |
| `Selection.MatchGroupsComplete` | main.py:236 | whenever the pattern matches with some groups, those exact groups are returned, so the match is unique |
| `Selection.ParseSelectionSpec` | main.py:236-245 | the parse succeeds if and only if the pattern matches, and then yields the lower-cased groups; otherwise it is the malformed-selection error |
| `Selection.SelectionRoundTrip` | main.py:236-243 | for word/word/digits fields, parsing the display text gives the lower-cased triple and the lower-cased file name `sub-br-sem.csv` |
| `Selection.SpinnerRoundTrip` | main.py:175-178 | every option shown for a well-formed subject row resolves to that row's lower-cased triple |
| `Selection.SelectionMatchesCreationName` | main.py:145 | for word/word/digits fields, the selection's file name equals the name written at creation (compared as exact strings) if and only if Subject and Branch are already lower-case |
| `Selection.SheetFileNameCollision` | main.py:145 | two different subjects can have the same sheet file name |
| `Matcher.RosterEncodingsSpec` | main.py:251-256 | the known encodings hold exactly the roster members that have a face row, each with the encoding of its last face row |
| `Matcher.CollectKnown` | main.py:251-256 | the loop over face rows builds the roster's known encodings, with keys inside the roster |
| `Matcher.MarkFace` | main.py:266-270 | for one detected face, the students it is accepted against become 1 and every other entry keeps its value, so no 1 becomes 0 |
| `Matcher.MatchPresence` | main.py:258-270 | the nested photo/face/known-encoding loops compute the presence map of all faces detected in the photos |
| `Matcher.RecognizedInPhotos` | main.py:261-270 | recognition among the detected encodings means acceptance for some face of some photo |
| `Matcher.Attendance` | main.py:249-270 | a marking run's presence map has exactly the roster's Scholar Nos as keys |
| `Matcher.AttendanceSpec` | main.py:252-270 | a roster member ends at 1 if and only if it has a face row and some face in some photo is accepted against that row's encoding; members without a face row stay 0 |
| `Matcher.NoFacesNoPresence` | main.py:259-270 | with no photos, or no face detected in any photo, every roster member is 0 and no other key exists |
| `Matcher.PresenceMonotonic` | main.py:262-270 | adding photos never removes a key and never turns a 1 into a 0 |
| `Matcher.RecognizedConcat` | main.py:262-270 | a known encoding is accepted against some face of two batches exactly when it is accepted in one of them |
| `Matcher.UnmatchedPhotosChangeNothing` | main.py:262-270 | photos that contribute no new match (every student they show was already recognised in the earlier photos) leave the presence map unchanged |
| `Ledger.DateLabel` | main.py:273 | the date label has ten characters, digits with dashes at positions 4 and 7 |
| `Ledger.DateLabelInjective` | main.py:273-274 | two dates have the same label if and only if they are the same date, and no label equals the `Scholar No` header |
| `Ledger.NewSheet` | main.py:146 | a new sheet holds the given Scholar Nos and no date column |
| `Ledger.MergeAttendance` | main.py:274 | the loop gives row k the presence bit of its Scholar No under the label, keeps the rows, and equals the merge specification |
| `Ledger.MergedKeepsOthers` | main.py:274-275 | the merge keeps the rows, every other column and the column order; it adds only the label, and the sheet keeps its shape |
| `Ledger.MergeOverwrites` | main.py:274 | merging twice under one label leaves only the second presence map: the later run replaces the column |
| `AttendanceApp.AppendKeepsUnique` | main.py:420-425 | appending a student whose Scholar No is not enrolled keeps Scholar Nos unique |
| `AttendanceApp.MarkSheet` | main.py:247-275 | one run on a loaded sheet writes the run's presence map under the day's label, keeps the sheet's shape and rows, and keeps every other column |
| `AttendanceApp.AttendanceSystem.constructor` | main.py:47-61 | the stores start with no rows |
| `AttendanceApp.AttendanceSystem.Enroll` | main.py:406-476 | blank field, then duplicate Scholar No, then no detected face are rejected with no write; success appends one student row and one face row with the first encoding; the store invariant is kept |
| `AttendanceApp.AttendanceSystem.CreateSubject` | main.py:114-147 | blank field, then empty roster, then duplicate triple are rejected with no write; success appends one subject and writes a sheet of the filtered Scholar Nos in store order under the raw-case file name |
| `AttendanceApp.AttendanceSystem.MarkAttendance` | main.py:232-275 | a malformed selection and a missing lower-cased sheet are rejected with no write; otherwise only that sheet changes, by the merge of the run's presence map under the day's label |
| `AttendanceApp.ScenarioAttendance` | main.py:249-270 | with S1 and S2 on the roster and a photo showing a stranger and S1, the presence map is S1 to 1 and S2 to 0 |
| `AttendanceApp.EndToEndScenario` | main.py:249-275 | in that scenario a fresh sheet gets one date column reading 1, 0 |

## Left out

- The Kivy interface is not modelled: widgets, popups, the spinner, file choosers and the callback chaining. The model therefore drops the "Select a subject first" check, the photo-count prompt (which insists on at least one photo; the model accepts any list) and "No image selected".
- Routing in `mark_attendance` is not modelled: refusing when the student store is empty, and going straight to subject creation when the subject store is empty. Subject creation fails with `NoStudentsInClass` on an empty student store anyway.
- Subject creation filters the student table read when "Mark Attendance" was pressed. The model filters the current student store. The two differ only if enrollment ran while the form was open.
- `face_recognition` is opaque. `load_image_file`, `face_encodings` and `compare_faces` are the `Detect` and `Compare` parameters. The 128-float vectors and the distance computation are never inspected.
- An unreadable image file is not modelled. `Detect` is total, so the error popup raised for it in enrollment, and the uncaught error in marking, are absent.
- File I/O is not modelled: CSV reading and writing and the file setup. Each store is an in-memory value. Because of that, a failed face-store write after a successful student-store write (a partial enrollment) cannot happen in the model.
- Encodings are not serialised: the `tolist()` text form and its `eval` reading are left out. The model stores and reads back the same value.
- The clock is an input: `datetime.now()` becomes the `today` parameter. `DateLabel` always pads the year to four digits, while `strftime('%Y')` for years before 1000 depends on the platform.
- Column types are not modelled. pandas may read Scholar No, Branch and Semester back as numbers; the model keeps every field as the exact text entered. The coercion affects, in the source:
  - the Scholar No duplicate check in enrollment (`in .values`, main.py:421), which compares the entered text against numbers;
  - the display text (a Semester of `03` is shown as `3`, main.py:176);
  - the Branch and Semester filter of subject creation (main.py:125), where `astype(str)` of a numeric column drops leading zeros;
  - the duplicate-subject check (main.py:134-136), in the same way;
  - the restriction of face rows to the roster (main.py:255): when faces.csv holds one non-numeric Scholar No its column reads as text while an all-numeric sheet reads as integers, so no face row matches and nobody can be marked present.
- File names are compared case-sensitively: `sheets` is keyed by the exact name string. On a case-insensitive file system `os-cs-3.csv` and `OS-CS-3.csv` are one file, so selection would find a sheet created with upper-case fields, and two subjects differing only in case would share one sheet; the model does not capture this.
- Only ASCII is handled for `\w`, `\d` and `lower()`. Python also accepts non-ASCII letters and digits there. `strip()` uses Python's full whitespace set.
- `release_detention_list` is not modelled because it only shows a placeholder message.
- `Selection.SpinnerValues`: its contract states only the number of options. What each option means is stated by `Selection.SpinnerRoundTrip`.
