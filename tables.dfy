/**
 The two database tables as in-memory sequences of rows, in insertion
 order, and the pure queries the attendance system runs against them:
 the gallery projection (staff rows that carry a face encoding), the
 lookup of a staff row by name, and the attendance report join.
 */
module StaffTables {

  datatype Option<T> = None | Some(value: T)

  newtype byte = x: int | 0 <= x < 256

  /**
   A face-encoding column value. The bytes are opaque here; a NULL column
   and an empty blob are both the empty sequence, since the system treats
   them alike.
   */
  type Blob = seq<byte>

  /** A row of the staff table. */
  datatype StaffRow = StaffRow(id: int, name: string, age: int, position: string, imagePath: string, faceEncoding: Blob)

  /** A row of the attendance table (its own key column is not modelled). */
  datatype AttendanceRow = AttendanceRow(staffId: int, dateTime: string, status: string)

  /** The columns the staff lookup returns. */
  datatype StaffInfo = StaffInfo(name: string, age: int, position: string, imagePath: string)

  /** One line of the attendance report. */
  datatype ReportRow = ReportRow(name: string, dateTime: string, status: string)

  /** A staff row enters the gallery only when its encoding blob is non-empty. */
  predicate HasEncoding(r: StaffRow) {
    |r.faceEncoding| > 0
  }

  /** The staff rows that make up the gallery, in row order. */
  function Enrolled(rows: seq<StaffRow>): (e: seq<StaffRow>)
    ensures |e| <= |rows|
  {
    if rows == [] then []
    else
      var last := rows[|rows| - 1];
      Enrolled(rows[..|rows| - 1]) + if HasEncoding(last) then [last] else []
  }

  /** The names column of a list of rows. */
  function NamesOf(rows: seq<StaffRow>): (names: seq<string>)
    ensures |names| == |rows|
  {
    if rows == [] then [] else NamesOf(rows[..|rows| - 1]) + [rows[|rows| - 1].name]
  }

  /** The encodings column of a list of rows. */
  function EncodingsOf(rows: seq<StaffRow>): (encodings: seq<Blob>)
    ensures |encodings| == |rows|
  {
    if rows == [] then [] else EncodingsOf(rows[..|rows| - 1]) + [rows[|rows| - 1].faceEncoding]
  }

  /** The positions of the rows that carry an encoding, in increasing order. */
  function EnrolledIndices(rows: seq<StaffRow>): seq<nat>
  {
    if rows == [] then []
    else
      EnrolledIndices(rows[..|rows| - 1]) + if HasEncoding(rows[|rows| - 1]) then [|rows| - 1] else []
  }

  /** The positions of the rows that carry an encoding, as a set. */
  function EncodedPositions(rows: seq<StaffRow>): set<nat>
  {
    set j: nat | j < |rows| && HasEncoding(rows[j])
  }

  /** The gallery grows by one row exactly when the appended row carries an encoding. */
  lemma {:induction false} EnrolledAppend(rows: seq<StaffRow>, r: StaffRow)
    ensures Enrolled(rows + [r]) == Enrolled(rows) + if HasEncoding(r) then [r] else []
  {
    assert (rows + [r])[..|rows|] == rows;
  }

  /** The projections hold each row's name and encoding at the row's own position. */
  lemma {:induction false} ProjectionsAt(rows: seq<StaffRow>)
    ensures forall k :: 0 <= k < |rows| ==> NamesOf(rows)[k] == rows[k].name
    ensures forall k :: 0 <= k < |rows| ==> EncodingsOf(rows)[k] == rows[k].faceEncoding
  {
    if rows != [] {
      ProjectionsAt(rows[..|rows| - 1]);
    }
  }

  /** Appending a row appends its name and its encoding to the projections. */
  lemma ProjectionsAppend(rows: seq<StaffRow>, r: StaffRow)
    ensures NamesOf(rows + [r]) == NamesOf(rows) + [r.name]
    ensures EncodingsOf(rows + [r]) == EncodingsOf(rows) + [r.faceEncoding]
  {
    assert (rows + [r])[..|rows|] == rows;
  }

  /** Appending a staff row appends its name to the gallery exactly when the row carries an encoding. */
  lemma GalleryNamesAfterAppend(rows: seq<StaffRow>, r: StaffRow)
    ensures NamesOf(Enrolled(rows + [r])) == NamesOf(Enrolled(rows)) + if HasEncoding(r) then [r.name] else []
  {
    EnrolledAppend(rows, r);
    if HasEncoding(r) {
      ProjectionsAppend(Enrolled(rows), r);
    } else {
      assert Enrolled(rows + [r]) == Enrolled(rows);
    }
  }

  /** Appending a staff row appends its encoding to the gallery exactly when the row carries one. */
  lemma GalleryEncodingsAfterAppend(rows: seq<StaffRow>, r: StaffRow)
    ensures EncodingsOf(Enrolled(rows + [r])) == EncodingsOf(Enrolled(rows)) + if HasEncoding(r) then [r.faceEncoding] else []
  {
    EnrolledAppend(rows, r);
    if HasEncoding(r) {
      ProjectionsAppend(Enrolled(rows), r);
    } else {
      assert Enrolled(rows + [r]) == Enrolled(rows);
    }
  }

  /**
   The gallery is exactly the rows that carry an encoding, kept in row
   order: its k-th entry is the row at the k-th such position, these
   positions increase, and a row's position is among them if and only if
   the row carries an encoding. Rows without one are skipped.
   */
  lemma {:induction false} EnrolledIsOrderedFilter(rows: seq<StaffRow>)
    ensures |EnrolledIndices(rows)| == |Enrolled(rows)|
    ensures forall k :: 0 <= k < |Enrolled(rows)| ==>
              EnrolledIndices(rows)[k] < |rows| && Enrolled(rows)[k] == rows[EnrolledIndices(rows)[k]]
    ensures forall k1, k2 :: 0 <= k1 < k2 < |EnrolledIndices(rows)| ==>
              EnrolledIndices(rows)[k1] < EnrolledIndices(rows)[k2]
    ensures forall j :: 0 <= j < |rows| ==> (j in EnrolledIndices(rows) <==> HasEncoding(rows[j]))
  {
    if rows != [] {
      var n := |rows| - 1;
      var init := rows[..n];
      EnrolledIsOrderedFilter(init);
      var idx := EnrolledIndices(init);
      assert forall k :: 0 <= k < |idx| ==> idx[k] < n;
      assert forall j :: 0 <= j < n ==> rows[j] == init[j];
    }
  }

  /** The gallery holds as many entries as there are staff rows with an encoding. */
  lemma {:induction false} EnrolledCount(rows: seq<StaffRow>)
    ensures |Enrolled(rows)| == |EncodedPositions(rows)|
  {
    if rows != [] {
      var n := |rows| - 1;
      var init := rows[..n];
      EnrolledCount(init);
      var extra: set<nat> := if HasEncoding(rows[n]) then {n} else {};
      assert EncodedPositions(rows) == EncodedPositions(init) + extra;
      assert n !in EncodedPositions(init);
    }
  }

  /** The first row of the table, in insertion order, with the given name. */
  function FindByName(rows: seq<StaffRow>, name: string): (found: Option<nat>)
    ensures found.Some? ==> found.value < |rows| && rows[found.value].name == name
    ensures found.Some? ==> forall j :: 0 <= j < found.value ==> rows[j].name != name
    ensures found.None? ==> forall j :: 0 <= j < |rows| ==> rows[j].name != name
  {
    if rows == [] then None
    else if rows[0].name == name then Some(0)
    else
      match FindByName(rows[1..], name)
      case None => None
      case Some(i) => Some(i + 1)
  }

  /** Every gallery entry is a staff row that carries an encoding. */
  lemma {:induction false} EnrolledRowsCarryEncoding(rows: seq<StaffRow>)
    ensures forall r :: r in Enrolled(rows) ==> r in rows && HasEncoding(r)
  {
    if rows != [] {
      EnrolledRowsCarryEncoding(rows[..|rows| - 1]);
    }
  }

  /** Every name in the gallery resolves to a staff row. */
  lemma GalleryNameResolves(rows: seq<StaffRow>, name: string)
    requires name in NamesOf(Enrolled(rows))
    ensures FindByName(rows, name).Some?
  {
    var e := Enrolled(rows);
    ProjectionsAt(e);
    var k :| 0 <= k < |e| && NamesOf(e)[k] == name;
    EnrolledRowsCarryEncoding(rows);
    assert e[k] in rows;
  }

  /** The staff columns a lookup by name presents. */
  function InfoOf(r: StaffRow): StaffInfo {
    StaffInfo(r.name, r.age, r.position, r.imagePath)
  }

  /** The report line that joins an attendance row to a staff row. */
  function JoinRow(s: StaffRow, a: AttendanceRow): ReportRow {
    ReportRow(s.name, a.dateTime, a.status)
  }

  /** The report lines of one attendance row: one per staff row with its staff id. */
  function JoinOne(staff: seq<StaffRow>, a: AttendanceRow): seq<ReportRow>
  {
    if staff == [] then []
    else
      var s := staff[|staff| - 1];
      JoinOne(staff[..|staff| - 1], a) + if s.id == a.staffId then [JoinRow(s, a)] else []
  }

  /** The inner join of the attendance table with the staff table on the staff id. */
  function Report(staff: seq<StaffRow>, attendance: seq<AttendanceRow>): seq<ReportRow>
  {
    if attendance == [] then []
    else
      Report(staff, attendance[..|attendance| - 1]) + JoinOne(staff, attendance[|attendance| - 1])
  }

  /** A line of JoinOne pairs the attendance row with a staff row of that id, and every such pair appears. */
  lemma {:induction false} JoinOneExact(staff: seq<StaffRow>, a: AttendanceRow)
    ensures forall line :: line in JoinOne(staff, a) ==>
              exists j :: 0 <= j < |staff| && staff[j].id == a.staffId && line == JoinRow(staff[j], a)
    ensures forall j :: 0 <= j < |staff| && staff[j].id == a.staffId ==> JoinRow(staff[j], a) in JoinOne(staff, a)
  {
    if staff != [] {
      var n := |staff| - 1;
      var init := staff[..n];
      JoinOneExact(init, a);
      assert forall j :: 0 <= j < n ==> staff[j] == init[j];
    }
  }

  /**
   The report is the join: every line comes from an attendance row and a
   staff row with the same staff id, and every such pair gives a line.
   */
  lemma {:induction false} ReportIsJoin(staff: seq<StaffRow>, attendance: seq<AttendanceRow>)
    ensures forall line :: line in Report(staff, attendance) ==>
              exists i, j :: 0 <= i < |attendance| && 0 <= j < |staff| &&
                staff[j].id == attendance[i].staffId && line == JoinRow(staff[j], attendance[i])
    ensures forall i, j :: 0 <= i < |attendance| && 0 <= j < |staff| && staff[j].id == attendance[i].staffId ==>
              JoinRow(staff[j], attendance[i]) in Report(staff, attendance)
  {
    if attendance != [] {
      var n := |attendance| - 1;
      var init := attendance[..n];
      ReportIsJoin(staff, init);
      JoinOneExact(staff, attendance[n]);
      assert forall i :: 0 <= i < n ==> attendance[i] == init[i];
    }
  }
}
