/**
 The attendance system object: the database tables it writes, whether the
 database connection was established, and the in-memory gallery
 (parallel lists of encodings and names) it caches for matching. The
 face library, image decoding, the clock and the user interface are
 outside: their results are parameters.
 */
module AttendanceApp {
  import opened StaffTables
  import opened Matcher

  /** The status written on every attendance row. */
  const Present: string := "Present"

  /**
   How an operation ended. Each value but one matches the message the
   application shows; NoConnection from RecordAttendance has no message,
   since recording without a connection silently does nothing.
   */
  datatype Outcome = Done | NoConnection | NoFaceDetected | StaffNotFound

  /** The face library's readings for one face of a frame, against the whole gallery. */
  datatype FaceReading = FaceReading(distances: seq<real>, matches: seq<bool>)

  /**
   Staff ids as AUTOINCREMENT hands them out: positive, increasing in row
   order, and never above the table's sequence counter.
   */
  ghost predicate StaffIdsWellFormed(staff: seq<StaffRow>, staffSeq: nat) {
    && (forall i :: 0 <= i < |staff| ==> 0 < staff[i].id <= staffSeq)
    && (forall i, j :: 0 <= i < j < |staff| ==> staff[i].id < staff[j].id)
  }

  /** Appending a row with the next id keeps the ids well formed, and that id is fresh. */
  lemma NextIdFresh(staff: seq<StaffRow>, staffSeq: nat, row: StaffRow)
    requires StaffIdsWellFormed(staff, staffSeq) && row.id == staffSeq + 1
    ensures StaffIdsWellFormed(staff + [row], staffSeq + 1)
    ensures forall i :: 0 <= i < |staff| ==> staff[i].id != row.id
  {
  }

  /** The attendance row that recording a name appends, if the name resolves. */
  function EventFor(staff: seq<StaffRow>, name: string, dateTime: string): (events: seq<AttendanceRow>)
    ensures |events| <= 1
    ensures events != [] <==> FindByName(staff, name).Some?
  {
    match FindByName(staff, name)
    case None => []
    case Some(i) => [AttendanceRow(staff[i].id, dateTime, Present)]
  }

  /** The attendance rows one frame yields: one attempt per face not labelled "Unknown". */
  function Events(staff: seq<StaffRow>, labels: seq<string>, timestamps: seq<string>): seq<AttendanceRow>
    requires |labels| == |timestamps|
  {
    if labels == [] then []
    else
      var n := |labels| - 1;
      Events(staff, labels[..n], timestamps[..n]) + if labels[n] != Unknown then EventFor(staff, labels[n], timestamps[n]) else []
  }

  /** One more face adds its own attempt after those of the earlier faces. */
  lemma EventsAppend(staff: seq<StaffRow>, labels: seq<string>, timestamps: seq<string>, name: string, time: string)
    requires |labels| == |timestamps|
    ensures Events(staff, labels + [name], timestamps + [time]) ==
              Events(staff, labels, timestamps) + if name != Unknown then EventFor(staff, name, time) else []
  {
    assert (labels + [name])[..|labels|] == labels;
    assert (timestamps + [time])[..|timestamps|] == timestamps;
  }

  /** How many faces of a frame were recognised. */
  function CountRecognised(labels: seq<string>): nat
  {
    if labels == [] then 0
    else CountRecognised(labels[..|labels| - 1]) + if labels[|labels| - 1] != Unknown then 1 else 0
  }

  /**
   When every recognised label is a gallery name, every recognised face
   yields exactly one attendance row.
   */
  lemma {:induction false} EveryRecognitionRecorded(staff: seq<StaffRow>, labels: seq<string>, timestamps: seq<string>)
    requires |labels| == |timestamps|
    requires forall i :: 0 <= i < |labels| ==> labels[i] == Unknown || labels[i] in NamesOf(Enrolled(staff))
    ensures |Events(staff, labels, timestamps)| == CountRecognised(labels)
  {
    if labels != [] {
      var n := |labels| - 1;
      assert forall i :: 0 <= i < n ==> labels[..n][i] == labels[i];
      EveryRecognitionRecorded(staff, labels[..n], timestamps[..n]);
      if labels[n] != Unknown {
        GalleryNameResolves(staff, labels[n]);
      }
    }
  }

  /**
   Every attendance row a frame yields is "Present", carries the timestamp
   of a recognised face and the id of a staff row with that face's label.
   */
  lemma {:induction false} EventsComeFromRecognisedFaces(staff: seq<StaffRow>, labels: seq<string>, timestamps: seq<string>)
    requires |labels| == |timestamps|
    ensures forall e :: e in Events(staff, labels, timestamps) ==>
              e.status == Present &&
              (exists i, j :: 0 <= i < |labels| && 0 <= j < |staff| && labels[i] != Unknown &&
                 e.dateTime == timestamps[i] && staff[j].name == labels[i] && e.staffId == staff[j].id)
  {
    if labels != [] {
      var n := |labels| - 1;
      EventsComeFromRecognisedFaces(staff, labels[..n], timestamps[..n]);
      assert forall i :: 0 <= i < n ==> labels[..n][i] == labels[i] && timestamps[..n][i] == timestamps[i];
    }
  }


  /** The gallery's encodings as a reload builds them: none without a connection. */
  function GalleryEncodings(connected: bool, staff: seq<StaffRow>): seq<Blob> {
    if connected then EncodingsOf(Enrolled(staff)) else []
  }

  /** The gallery's names as a reload builds them: none without a connection. */
  function GalleryNames(connected: bool, staff: seq<StaffRow>): seq<string> {
    if connected then NamesOf(Enrolled(staff)) else []
  }

  class AttendanceSystem {
    /** Whether connecting to the database succeeded. */
    var connected: bool
    var staff: seq<StaffRow>
    /** The staff table's AUTOINCREMENT counter: the largest id ever handed out. */
    var staffSeq: nat
    var attendance: seq<AttendanceRow>
    var knownFaceEncodings: seq<Blob>
    var knownFaceNames: seq<string>

    /**
     The ids are well formed and the cached gallery is the projection of
     the staff table (empty when there is no connection).
     */
    ghost predicate Valid()
      reads this
    {
      && StaffIdsWellFormed(staff, staffSeq)
      && knownFaceEncodings == GalleryEncodings(connected, staff)
      && knownFaceNames == GalleryNames(connected, staff)
    }

    /**
     Opens the system on the database's current contents; connected tells
     whether the connection succeeded. The gallery is loaded only then.
     */
    constructor (connected: bool, staff: seq<StaffRow>, staffSeq: nat, attendance: seq<AttendanceRow>)
      requires StaffIdsWellFormed(staff, staffSeq)
      ensures Valid()
      ensures this.connected == connected && this.staff == staff && this.staffSeq == staffSeq
      ensures this.attendance == attendance
      ensures !connected ==> knownFaceEncodings == [] && knownFaceNames == []
    {
      this.connected := connected;
      this.staff := staff;
      this.staffSeq := staffSeq;
      this.attendance := attendance;
      knownFaceEncodings := [];
      knownFaceNames := [];
      new;
      if connected {
        knownFaceEncodings, knownFaceNames := LoadKnownFaces();
      }
    }

    /**
     Rebuilds the gallery from the staff table: the two lists stay aligned
     and hold the name and encoding of every row that has an encoding, in
     row order; rows without one are skipped. Without a connection both
     lists are empty.
     */
    method LoadKnownFaces() returns (encodings: seq<Blob>, names: seq<string>)
      ensures |encodings| == |names|
      ensures encodings == GalleryEncodings(connected, staff) && names == GalleryNames(connected, staff)
    {
      if !connected {
        return [], [];
      }
      var staffData := staff;
      encodings, names := [], [];
      for i := 0 to |staffData|
        invariant encodings == EncodingsOf(Enrolled(staffData[..i]))
        invariant names == NamesOf(Enrolled(staffData[..i]))
      {
        var row := staffData[i];
        assert staffData[..i + 1] == staffData[..i] + [row];
        EnrolledAppend(staffData[..i], row);
        if |row.faceEncoding| > 0 {
          ProjectionsAppend(Enrolled(staffData[..i]), row);
          encodings := encodings + [row.faceEncoding];
          names := names + [row.name];
        } else {
          // a warning names the row, and it is skipped
          assert Enrolled(staffData[..i + 1]) == Enrolled(staffData[..i]);
        }
      }
      assert staffData[..|staffData|] == staffData;
    }

    /**
     Enrols a staff member from the encodings the face library found in the
     uploaded image. With no connection, or no face found, nothing changes.
     Otherwise one staff row is appended with a fresh id and the first
     encoding, and the gallery is reloaded, so the new name ends the
     gallery when that encoding is non-empty.
     */
    method AddStaff(name: string, age: int, position: string, imagePath: string, detected: seq<Blob>)
      returns (outcome: Outcome)
      requires Valid()
      modifies this`staff, this`staffSeq, this`knownFaceEncodings, this`knownFaceNames
      ensures Valid()
      ensures outcome == if !connected then NoConnection else if |detected| == 0 then NoFaceDetected else Done
      ensures outcome != Done ==>
                staff == old(staff) && staffSeq == old(staffSeq) &&
                knownFaceEncodings == old(knownFaceEncodings) && knownFaceNames == old(knownFaceNames)
      ensures outcome == Done ==>
                staffSeq == old(staffSeq) + 1 &&
                staff == old(staff) + [StaffRow(staffSeq, name, age, position, imagePath, detected[0])]
      ensures outcome == Done ==> forall i :: 0 <= i < |old(staff)| ==> old(staff)[i].id != staffSeq
      ensures outcome == Done ==>
                knownFaceNames == old(knownFaceNames) + (if |detected[0]| > 0 then [name] else []) &&
                knownFaceEncodings == old(knownFaceEncodings) + (if |detected[0]| > 0 then [detected[0]] else [])
    {
      if !connected {
        outcome := NoConnection;
      } else if |detected| == 0 {
        outcome := NoFaceDetected;
      } else {
        Enrol(StaffRow(staffSeq + 1, name, age, position, imagePath, detected[0]));
        outcome := Done;
      }
    }

    /** Inserts a row with the next id and reloads the gallery. */
    method Enrol(row: StaffRow)
      requires Valid() && connected && row.id == staffSeq + 1
      modifies this`staff, this`staffSeq, this`knownFaceEncodings, this`knownFaceNames
      ensures Valid()
      ensures staff == old(staff) + [row] && staffSeq == old(staffSeq) + 1
      ensures forall i :: 0 <= i < |old(staff)| ==> old(staff)[i].id != row.id
      ensures knownFaceNames == old(knownFaceNames) + if HasEncoding(row) then [row.name] else []
      ensures knownFaceEncodings == old(knownFaceEncodings) + if HasEncoding(row) then [row.faceEncoding] else []
    {
      NextIdFresh(staff, staffSeq, row);
      GalleryNamesAfterAppend(staff, row);
      GalleryEncodingsAfterAppend(staff, row);
      staff := staff + [row];
      staffSeq := staffSeq + 1;
      knownFaceEncodings, knownFaceNames := LoadKnownFaces();
    }


    /**
     Records that the named staff member is present at dateTime. The name
     resolves to the first staff row carrying it; then exactly one
     "Present" row with that row's id is appended. If no row has the name,
     or there is no connection, the attendance table is unchanged. Nothing
     else ever changes.
     */
    method RecordAttendance(name: string, dateTime: string) returns (outcome: Outcome)
      requires Valid()
      modifies this`attendance
      ensures Valid()
      ensures outcome == if !connected then NoConnection else if FindByName(staff, name).None? then StaffNotFound else Done
      ensures attendance == old(attendance) + if connected then EventFor(staff, name, dateTime) else []
    {
      if !connected {
        return NoConnection;
      }
      var found := FindByName(staff, name);
      match found {
        case None =>
          outcome := StaffNotFound;
        case Some(i) =>
          attendance := attendance + [AttendanceRow(staff[i].id, dateTime, Present)];
          outcome := Done;
      }
    }

    /**
     The profile of the first staff row with the given name, if there is
     one and the database is connected.
     */
    function GetStaffInfo(name: string): (info: Option<StaffInfo>)
      reads this
      ensures info.Some? <==> connected && exists i :: 0 <= i < |staff| && staff[i].name == name
      ensures info.Some? ==>
                exists i :: 0 <= i < |staff| && staff[i].name == name && info.value == InfoOf(staff[i]) &&
                  forall j :: 0 <= j < i ==> staff[j].name != name
    {
      if !connected then None
      else
        match FindByName(staff, name)
        case None => None
        case Some(i) => Some(InfoOf(staff[i]))
    }

    /** The attendance report: the join of the two tables, or nothing without a connection. */
    function GenerateReport(): (report: seq<ReportRow>)
      reads this
      ensures !connected ==> report == []
      ensures forall line :: line in report ==>
                exists i, j :: 0 <= i < |attendance| && 0 <= j < |staff| &&
                  staff[j].id == attendance[i].staffId && line == JoinRow(staff[j], attendance[i])
      ensures connected ==>
                forall i, j :: 0 <= i < |attendance| && 0 <= j < |staff| && staff[j].id == attendance[i].staffId ==>
                  JoinRow(staff[j], attendance[i]) in report
    {
      ReportIsJoin(staff, attendance);
      if connected then Report(staff, attendance) else []
    }
  }

  /** A name the capture loop gives a face is "Unknown" or resolves to a staff row. */
  lemma RecognisedNameResolves(system: AttendanceSystem, reading: FaceReading)
    requires system.Valid()
    requires Aligned(system.knownFaceNames, reading.distances, reading.matches)
    ensures Identify(system.knownFaceNames, reading.distances, reading.matches) == Unknown ||
            (system.connected &&
             FindByName(system.staff, Identify(system.knownFaceNames, reading.distances, reading.matches)).Some?)
  {
    var given := Identify(system.knownFaceNames, reading.distances, reading.matches);
    if given != Unknown {
      GalleryNameResolves(system.staff, given);
    }
  }

  /** The labels of a frame's faces, each identified against the same gallery names. */
  function FrameLabels(names: seq<string>, faces: seq<FaceReading>): (labels: seq<string>)
    requires forall i :: 0 <= i < |faces| ==> Aligned(names, faces[i].distances, faces[i].matches)
    ensures |labels| == |faces|
  {
    if faces == [] then []
    else
      var n := |faces| - 1;
      FrameLabels(names, faces[..n]) + [Identify(names, faces[n].distances, faces[n].matches)]
  }

  /** The label of every face is the matcher's decision for that face. */
  lemma {:induction false} FrameLabelsAt(names: seq<string>, faces: seq<FaceReading>)
    requires forall i :: 0 <= i < |faces| ==> Aligned(names, faces[i].distances, faces[i].matches)
    ensures forall i :: 0 <= i < |faces| ==>
              FrameLabels(names, faces)[i] == Identify(names, faces[i].distances, faces[i].matches)
  {
    if faces != [] {
      var n := |faces| - 1;
      FrameLabelsAt(names, faces[..n]);
    }
  }

  /** Sequence concatenation is associative. */
  lemma AppendAssoc<T>(a: seq<T>, b: seq<T>, c: seq<T>)
    ensures (a + b) + c == a + (b + c)
  {
  }

  /**
   One face of a frame: identified against the cached gallery and, unless
   it is "Unknown", recorded as present at the given time.
   */
  method RecordFace(system: AttendanceSystem, reading: FaceReading, time: string) returns (name: string)
    requires system.Valid()
    requires Aligned(system.knownFaceNames, reading.distances, reading.matches)
    modifies system`attendance
    ensures system.Valid()
    ensures name == Identify(system.knownFaceNames, reading.distances, reading.matches)
    ensures system.attendance == old(system.attendance) +
              if system.connected && name != Unknown then EventFor(system.staff, name, time) else []
  {
    name := Identify(system.knownFaceNames, reading.distances, reading.matches);
    if name != Unknown {
      var _ := system.RecordAttendance(name, time);
      // the staff profile is then looked up for display only
    }
  }

  /**
   One camera frame: every detected face is identified against the
   cached gallery, and every face not labelled "Unknown" has its
   attendance recorded with the timestamp taken for it. Returns the
   labels drawn on the faces.
   */
  method TakeAttendance(system: AttendanceSystem, faces: seq<FaceReading>, timestamps: seq<string>)
    returns (labels: seq<string>)
    requires system.Valid()
    requires |timestamps| == |faces|
    requires forall i :: 0 <= i < |faces| ==>
               Aligned(system.knownFaceNames, faces[i].distances, faces[i].matches)
    modifies system`attendance
    ensures system.Valid()
    ensures |labels| == |faces|
    ensures forall i :: 0 <= i < |faces| ==>
              labels[i] == Identify(system.knownFaceNames, faces[i].distances, faces[i].matches)
    ensures system.attendance == old(system.attendance) +
              if system.connected then Events(system.staff, labels, timestamps) else []
  {
    labels := [];
    var names := system.knownFaceNames;
    ghost var before := system.attendance;
    ghost var staff := system.staff;
    ghost var recorded: seq<AttendanceRow> := [];
    for i := 0 to |faces|
      invariant system.Valid() && system.knownFaceNames == names && system.staff == staff
      invariant labels == FrameLabels(names, faces[..i])
      invariant recorded == Events(staff, labels, timestamps[..i])
      invariant system.attendance == before + if system.connected then recorded else []
    {
      assert faces[..i + 1][..i] == faces[..i];
      assert timestamps[..i + 1] == timestamps[..i] + [timestamps[i]];
      var name := RecordFace(system, faces[i], timestamps[i]);
      ghost var added := if name != Unknown then EventFor(staff, name, timestamps[i]) else [];
      EventsAppend(staff, labels, timestamps[..i], name, timestamps[i]);
      if system.connected {
        AppendAssoc(before, recorded, added);
      }
      recorded := recorded + added;
      labels := labels + [name];
    }

    assert faces[..|faces|] == faces;
    assert timestamps[..|faces|] == timestamps;
    FrameLabelsAt(names, faces);
  }

  /**
   Every face a frame recognises is recorded exactly once: the frame adds
   one attendance row per label that is not "Unknown", each for a staff
   row of that name with that face's timestamp.
   */
  lemma FrameRecordsEachRecognisedFace(system: AttendanceSystem, faces: seq<FaceReading>, timestamps: seq<string>, labels: seq<string>)
    requires system.Valid()
    requires |timestamps| == |faces| && |labels| == |faces|
    requires forall i :: 0 <= i < |faces| ==>
               Aligned(system.knownFaceNames, faces[i].distances, faces[i].matches) &&
               labels[i] == Identify(system.knownFaceNames, faces[i].distances, faces[i].matches)
    ensures system.connected ==> |Events(system.staff, labels, timestamps)| == CountRecognised(labels)
    ensures !system.connected ==> CountRecognised(labels) == 0
  {
    if system.connected {
      EveryRecognitionRecorded(system.staff, labels, timestamps);
    } else {
      NothingRecognisedWithEmptyGallery(labels, faces, system.knownFaceNames);
    }
  }

  /** With an empty gallery no face is recognised. */
  lemma {:induction false} NothingRecognisedWithEmptyGallery(labels: seq<string>, faces: seq<FaceReading>, names: seq<string>)
    requires names == [] && |labels| == |faces|
    requires forall i :: 0 <= i < |faces| ==>
               Aligned(names, faces[i].distances, faces[i].matches) &&
               labels[i] == Identify(names, faces[i].distances, faces[i].matches)
    ensures CountRecognised(labels) == 0
  {
    if labels != [] {
      var n := |labels| - 1;
      NothingRecognisedWithEmptyGallery(labels[..n], faces[..n], names);
    }
  }
}
