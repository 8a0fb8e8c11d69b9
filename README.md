# Face-recognition attendance system: verified model of the core

This project models the decision and state-update core of a small
face-recognition attendance application, `streamlit_app.py`. An
`AttendanceSystem` object holds an sqlite database with two tables: `staff`,
whose rows carry a face encoding, and `attendance`, whose rows are
"Present" events. It also caches a gallery of known faces: two parallel
lists of encodings and names. Staff are enrolled from a photo. The
gallery is rebuilt from the staff table. Each face in a camera frame is
matched against the gallery, and every recognised face has its attendance
recorded.

The project has three modules:

- `Matcher` (`matcher.dfy`) holds the identity decision found in the
  capture loop of `main`. The closest gallery entry is numpy's `argmin`,
  with ties going to the earliest index. The face gets that entry's name if
  the entry's match flag is set, and "Unknown" otherwise. The library
  supplies the distances and flags, so they are inputs here.
- `StaffTables` (`tables.dfy`) holds the two tables as sequences of rows
  in insertion order, plus the pure queries run against them:
  - the gallery projection, which keeps the staff rows that have a
    non-empty encoding;
  - lookup by name, which returns the first row with that name;
  - the report join.
- `AttendanceApp` (`attendance_system.dfy`) holds the class
  `AttendanceSystem` and the capture loop. The class has the tables, the
  connection flag, the AUTOINCREMENT counter and the cached gallery as
  fields. For the capture loop, `TakeAttendance` handles one frame and
  `RecordFace` handles one face.

The class invariant `Valid()` says:

- staff ids are positive, strictly increasing and never above the counter;
- the cached gallery equals the projection of the staff table, or is
  empty when there is no connection.

The constructor establishes `Valid()`, and every operation preserves it.
Behaviours of the code that the model keeps:

- A face is recorded each time it is recognised; nothing is deduplicated.
- The only test a stored encoding must pass to enter the gallery is that
  its blob is non-empty (line 79); the model admits every non-empty blob
  (see "## Left out" for the blobs `np.frombuffer` rejects).
- `record_attendance` resolves the name against the staff table, not
  against the gallery.
- `record_attendance` without a connection does nothing and shows no
  message; the model's `NoConnection` outcome for it has no counterpart
  message in the code.

## Model

| member | source | states |
|---|---|---|
| Matcher.ArgMin | streamlit_app.py:175 | the index chosen is the first position of the minimum distance: no distance is smaller, and every earlier distance is strictly larger |
| Matcher.Identify | streamlit_app.py:169-177 | an empty gallery gives "Unknown" without reading any flag; otherwise the result is "Unknown" or one of the gallery names |
| Matcher.FirstMinUnique | streamlit_app.py:175 | the tie-break is deterministic: a sequence has at most one first minimum |
| Matcher.IdentifyDecidesAtFirstClosest | streamlit_app.py:173-177 | the face gets the name at the first closest entry if that entry is flagged, and "Unknown" if it is not |
| Matcher.ClosestWinsOverFirstMatching | streamlit_app.py:175-177 | closest wins, not first matching: if an unflagged entry is strictly closer than the closest flagged one, the face is "Unknown" |
| Matcher.OnlyClosestFlagMatters | streamlit_app.py:176 | two flag vectors that agree at the closest entry give the same decision |
| Matcher.ToleranceDecision | streamlit_app.py:170-177 | with flags taken from a distance tolerance, all distances above the tolerance give "Unknown"; if any distance is within the tolerance, the face gets the name of a first closest entry |
| Matcher.ExactDescriptorRecognised | streamlit_app.py:170-177 | a query at distance 0 from entry i is recognised as the first entry at distance 0, which is entry i when no earlier entry is at distance 0 |
| StaffTables.Enrolled | streamlit_app.py:78-84 | the gallery never has more entries than the staff table has rows |
| StaffTables.EnrolledAppend | streamlit_app.py:78-84 | appending a staff row grows the gallery rows by that row exactly when its encoding is non-empty |
| StaffTables.ProjectionsAt | streamlit_app.py:81-82 | the names and encodings lists hold each gallery row's name and encoding at that row's own position, so the two lists stay aligned |
| StaffTables.ProjectionsAppend | streamlit_app.py:81-82 | appending a row appends its name to the names list and its encoding to the encodings list |
| StaffTables.GalleryNamesAfterAppend | streamlit_app.py:55-61 | after a staff row is appended, the rebuilt names list is the old one plus the new name if the row has an encoding, and is unchanged otherwise |
| StaffTables.GalleryEncodingsAfterAppend | streamlit_app.py:55-61 | the same for the encodings list |
| StaffTables.EnrolledIsOrderedFilter | streamlit_app.py:75-86 | the gallery is exactly the rows with a non-empty encoding, in row order: its k-th entry is the row at the k-th such position, those positions increase, and a row is included if and only if its encoding is non-empty |
| StaffTables.EnrolledCount | streamlit_app.py:75-86 | the gallery size equals the number of staff rows with a non-empty encoding |
| StaffTables.EnrolledRowsCarryEncoding | streamlit_app.py:79-82 | every gallery row is a staff row with a non-empty encoding |
| StaffTables.FindByName | streamlit_app.py:97-98 | lookup by name returns the first row with that name in insertion order, or nothing exactly when no row has the name |
| StaffTables.GalleryNameResolves | streamlit_app.py:97-99 | every name in the gallery resolves to a staff row |
| StaffTables.JoinOneExact | streamlit_app.py:127-129 | the report lines for one attendance row are exactly its pairings with staff rows of the same id |
| StaffTables.ReportIsJoin | streamlit_app.py:127-131 | the report is the inner join: every line combines an attendance row with a staff row of the same id, and every such pair appears |
| AttendanceApp.NextIdFresh | streamlit_app.py:24 | AUTOINCREMENT's next id keeps the ids increasing and differs from every existing id |
| AttendanceApp.EventFor | streamlit_app.py:97-105 | recording a name appends at most one row, and one exactly when some staff row has the name |
| AttendanceApp.EventsAppend | streamlit_app.py:186-187 | one more face appends its own attempt after those of the earlier faces |
| AttendanceApp.EveryRecognitionRecorded | streamlit_app.py:169-187 | when every recognised label is a gallery name, a frame adds one attendance row per recognised face |
| AttendanceApp.EventsComeFromRecognisedFaces | streamlit_app.py:97-101 | every row a frame adds is "Present" and carries the timestamp of a recognised face and the id of a staff row with that face's label |
| AttendanceApp.AttendanceSystem.constructor | streamlit_app.py:11-16 | the system opens with the current tables; the gallery is loaded only when connected and is empty otherwise; the invariant holds |
| AttendanceApp.AttendanceSystem.LoadKnownFaces | streamlit_app.py:69-89 | the loop returns aligned encodings and names lists equal to the gallery projection of the staff table, and two empty lists without a connection |
| AttendanceApp.AttendanceSystem.AddStaff | streamlit_app.py:45-67 | without a connection, or with no face detected, the outcome says so and the table, counter and gallery are unchanged; otherwise exactly one row is appended with a fresh id (the next counter value), the given fields and the first encoding, and the new name and encoding end the reloaded gallery when that encoding is non-empty; the invariant is kept |
| AttendanceApp.AttendanceSystem.Enrol | streamlit_app.py:55-61 | the insert plus reload: one row with the next id is appended, and the gallery grows by that row's name and encoding exactly when the encoding is non-empty |
| AttendanceApp.AttendanceSystem.RecordAttendance | streamlit_app.py:91-107 | when connected and some staff row has the name, exactly one ("first row's id", timestamp, "Present") row is appended; otherwise the attendance table is unchanged, and the outcome tells which case occurred; no other field changes |
| AttendanceApp.AttendanceSystem.GetStaffInfo | streamlit_app.py:109-122 | returns a profile exactly when connected and some row has the name, and then it is the profile of the first such row |
| AttendanceApp.AttendanceSystem.GenerateReport | streamlit_app.py:124-134 | without a connection the report is empty; every line comes from a matching attendance/staff pair; when connected, every matching pair is present |
| AttendanceApp.RecognisedNameResolves | streamlit_app.py:169-187 | a label given by the capture loop is "Unknown" or resolves to a staff row, so a recognised face never hits the not-found branch |
| AttendanceApp.FrameLabels | streamlit_app.py:169-177 | one label per face |
| AttendanceApp.FrameLabelsAt | streamlit_app.py:169-177 | each face's label is the matcher's decision for that face against the cached gallery |
| AttendanceApp.RecordFace | streamlit_app.py:170-187 | one face is identified against the cached gallery, and the attendance table grows by that name's event exactly when the face is recognised and connected |
| AttendanceApp.TakeAttendance | streamlit_app.py:169-193 | labels every face with the matcher's decision, and appends to the attendance table exactly the events of the recognised faces, in face order; the invariant is kept |
| AttendanceApp.FrameRecordsEachRecognisedFace | streamlit_app.py:169-187 | when connected, a frame adds exactly as many rows as it recognises faces; without a connection it recognises none |
| AttendanceApp.NothingRecognisedWithEmptyGallery | streamlit_app.py:171-174 | with an empty gallery no face of a frame is recognised |

## Left out

- The Streamlit user interface: page layout, menus, form validation (`main`, lines 136-165 and 195-206) and every success, warning or error message. Messages are reduced to the `Outcome` an operation returns.
- The sqlite connection and table creation (`connect_db`, lines 18-43). The constructor takes the connection's success as a flag and the tables' current contents as parameters.
- sqlite exceptions: the `except` branches of lines 64-65, 106-107 and 120-121. The model treats every statement as succeeding.
- Exceptions while reading or decoding the uploaded image (lines 49-51). The detector's encodings are a parameter of `AddStaff`, and the image's file name is the `imagePath` parameter.
- The face library: it finds faces, computes encodings, and computes distances and match flags with its tolerance (lines 50-51, 166-173). Distances and flags are inputs, and `Matcher.FlaggedByTolerance` states with `<=` how flags relate to a tolerance.
- The byte layout of encodings: `tobytes`/`np.frombuffer` are taken as the identity on opaque byte blobs (lines 57, 80). A NULL column and an empty blob are both the empty sequence.
- LoadKnownFaces: does not model the `ValueError` that `np.frombuffer` raises (line 80) on a non-empty blob whose length is not a multiple of 8. Nothing in `load_known_faces` catches it, so in the code the constructor fails (line 14); the model instead admits that blob into the gallery.
- AddStaff: does not model the case where the reload after a committed insert raises (lines 58-61, caught at 64-65), which in the code leaves the new row in the table and the old gallery cached; the model always reloads successfully, so it never has a stale gallery.
- Distances are modelled as `real`, not float64, so NaN is not modelled: with a NaN distance `np.argmin` returns the index of the first NaN, which `Matcher.ArgMin` does not capture.
- The clock and its formatting (lines 94-95). The timestamp string is a parameter of `RecordAttendance` and, one per face, of `TakeAttendance`.
- OpenCV image decoding, drawing the boxes and labels, and showing the frame and the looked-up profile (lines 163-164, 180-184, 188-195).
- The attendance table's own key column, which nothing reads.
- Staff ids: the constructor assumes the existing staff ids are positive, increase in row order and do not exceed the AUTOINCREMENT counter. This holds because only `add_staff` inserts staff rows and the `id` column is `AUTOINCREMENT` (line 24).
- Name uniqueness: the schema does not enforce it, and `fetchone()` without `ORDER BY` promises no particular row. Every lookup by name is modelled as returning the first row in insertion order.
- GenerateReport: the order of the joined lines is not modelled (SQL promises none). The contract states set-like soundness and completeness, not the order or the multiplicity of the lines.
- A staff member actually named "Unknown" is never recorded by the capture loop, because that label means "not recognised". The model keeps this behaviour of the code.
