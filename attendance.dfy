/** The application's stores and its three workflows: enrolling a student,
    creating a subject, and marking attendance for a subject from class
    photos. */
module AttendanceApp {
  import opened Wrappers
  import opened Text
  import opened Records
  import opened Selection
  import opened Matcher
  import opened Ledger

  /** No two subject rows share (Subject, Branch, Semester). */
  predicate UniqueSubjects(subjects: seq<Subject>)
  {
    forall i, j :: 0 <= i < j < |subjects| ==> subjects[i] != subjects[j]
  }

  /** Some form field is empty after strip(): `not all([...])`. */
  predicate AnyBlank(fields: seq<string>)
  {
    exists k :: 0 <= k < |fields| && IsBlank(fields[k])
  }

  /** The subject a creation form describes, each field stripped. */
  function FormSubject(subjectText: string, branchText: string, semesterText: string): (g: Subject)
  {
    Subject(Strip(subjectText), Strip(branchText), Strip(semesterText))
  }

  /** The student an enrollment form describes, each field stripped. */
  function FormStudent(name: string, scholarNo: string, branch: string, semester: string, email: string): (student: Student)
  {
    Student(Strip(name), Strip(scholarNo), Strip(branch), Strip(semester), Strip(email))
  }

  /** Appending a student whose Scholar No is not enrolled keeps Scholar
      Nos unique. */
  lemma AppendKeepsUnique(students: seq<Student>, student: Student)
    requires UniqueScholarNos(students) && !IsEnrolled(students, student.scholarNo)
    ensures UniqueScholarNos(students + [student])
  {
    var all := students + [student];
    forall i, j | 0 <= i < j < |all| ensures all[i].scholarNo != all[j].scholarNo {
      assert all[i] == students[i];
      if j < |students| { assert all[j] == students[j]; }
    }
  }

  /** One marking run on a loaded sheet: its Scholar Nos scope the known
      encodings, the matcher computes the presence map from the photos, and
      the map becomes the day's column, replacing a column of the same day. */
  method MarkSheet(sheet: Sheet, faces: seq<FaceRow>, photos: seq<Photo>, today: Date, detect: Detect, compare: Compare)
    returns (merged: Sheet)
    requires sheet.WellFormed() && ValidDate(today)
    ensures merged == Merged(sheet, DateLabel(today), Attendance(faces, sheet.ids, photos, detect, compare))
    ensures merged.WellFormed() && merged.ids == sheet.ids
    ensures forall l :: l in sheet.columns && l != DateLabel(today) ==>
      l in merged.columns && merged.columns[l] == sheet.columns[l]
  {
    var known := CollectKnown(faces, sheet.ids);
    var attendance := MatchPresence(sheet.ids, known, photos, detect, compare, Tolerance);
    assert attendance == Attendance(faces, sheet.ids, photos, detect, compare);
    var heading := DateLabel(today);
    DateLabelInjective(today, today);
    MergedKeepsOthers(sheet, heading, attendance);
    merged := MergeAttendance(sheet, heading, attendance);
  }

  /** The student store, the subject store, the face store and the
      attendance sheets (by file name), held in memory. */
  class AttendanceSystem {
    var students: seq<Student>
    var subjects: seq<Subject>
    var faces: seq<FaceRow>
    var sheets: map<string, Sheet>

    /** Scholar Nos are unique; the face store has one row per student, in
        the same order (enrollment appends both together); subject triples
        are unique; every sheet has a sheet's shape. */
    ghost predicate Valid()
      reads this
    {
      && UniqueScholarNos(students)
      && |faces| == |students|
      && (forall k :: 0 <= k < |faces| ==> faces[k].scholarNo == students[k].scholarNo)
      && UniqueSubjects(subjects)
      && (forall file :: file in sheets ==> sheets[file].WellFormed())
    }

    /** The stores as first set up: each with its header and no rows. */
    constructor ()
      ensures Valid()
      ensures students == [] && subjects == [] && faces == [] && sheets == map[]
    {
      students, subjects, faces, sheets := [], [], [], map[];
    }

    /** Enrolls a student from the form fields and a reference image. A blank
        field is rejected first, then a Scholar No already enrolled, then an
        image in which no face is detected; none of these writes anything.
        Otherwise one student row and one face row, holding the first
        detected encoding, are appended. */
    method Enroll(name: string, scholarNo: string, branch: string, semester: string, email: string,
                  image: Photo, detect: Detect)
      returns (r: Outcome<Error>)
      requires Valid()
      modifies this
      ensures Valid()
      ensures subjects == old(subjects) && sheets == old(sheets)
      ensures AnyBlank([name, scholarNo, branch, semester, email]) ==>
        r == Fail(EmptyField) && students == old(students) && faces == old(faces)
      ensures !AnyBlank([name, scholarNo, branch, semester, email]) && IsEnrolled(old(students), Strip(scholarNo)) ==>
        r == Fail(DuplicateScholarNo) && students == old(students) && faces == old(faces)
      ensures !AnyBlank([name, scholarNo, branch, semester, email]) && !IsEnrolled(old(students), Strip(scholarNo)) &&
              detect(image) == [] ==>
        r == Fail(NoFaceDetected) && students == old(students) && faces == old(faces)
      ensures !AnyBlank([name, scholarNo, branch, semester, email]) && !IsEnrolled(old(students), Strip(scholarNo)) &&
              detect(image) != [] ==>
        r == Pass &&
        students == old(students) + [FormStudent(name, scholarNo, branch, semester, email)] &&
        faces == old(faces) + [FaceRow(Strip(scholarNo), detect(image)[0])]
    {
      if AnyBlank([name, scholarNo, branch, semester, email]) {
        return Fail(EmptyField);
      }
      var id := Strip(scholarNo);
      if IsEnrolled(students, id) {
        return Fail(DuplicateScholarNo);
      }
      var encodings := detect(image);
      if encodings == [] {
        return Fail(NoFaceDetected);
      }
      var student := FormStudent(name, scholarNo, branch, semester, email);
      AppendKeepsUnique(students, student);
      students := students + [student];
      faces := faces + [FaceRow(id, encodings[0])];
      r := Pass;
    }

    /** Creates a subject from the form fields. A blank field is rejected
        first, then a Branch and Semester no student has, then a triple
        already registered; none of these writes anything. Otherwise the
        subject row is appended and the sheet file named after the fields
        (in their own case) is written holding only the Scholar No column
        of the matching students, in store order. */
    method CreateSubject(subjectText: string, branchText: string, semesterText: string) returns (r: Outcome<Error>)
      requires Valid()
      modifies this
      ensures Valid()
      ensures students == old(students) && faces == old(faces)
      ensures AnyBlank([subjectText, branchText, semesterText]) ==>
        r == Fail(EmptyField) && subjects == old(subjects) && sheets == old(sheets)
      ensures !AnyBlank([subjectText, branchText, semesterText]) &&
              InClass(students, Strip(branchText), Strip(semesterText)) == [] ==>
        r == Fail(NoStudentsInClass) && subjects == old(subjects) && sheets == old(sheets)
      ensures !AnyBlank([subjectText, branchText, semesterText]) &&
              InClass(students, Strip(branchText), Strip(semesterText)) != [] &&
              FormSubject(subjectText, branchText, semesterText) in old(subjects) ==>
        r == Fail(DuplicateSubject) && subjects == old(subjects) && sheets == old(sheets)
      ensures !AnyBlank([subjectText, branchText, semesterText]) &&
              InClass(students, Strip(branchText), Strip(semesterText)) != [] &&
              FormSubject(subjectText, branchText, semesterText) !in old(subjects) ==>
        var g := FormSubject(subjectText, branchText, semesterText);
        r == Pass && subjects == old(subjects) + [g] &&
        sheets == old(sheets)[SheetFileName(g) := NewSheet(ScholarNos(InClass(students, g.branch, g.semester)))]
    {
      if AnyBlank([subjectText, branchText, semesterText]) {
        return Fail(EmptyField);
      }
      var g := FormSubject(subjectText, branchText, semesterText);
      var roster := InClass(students, g.branch, g.semester);
      if roster == [] {
        return Fail(NoStudentsInClass);
      }
      if g in subjects {
        return Fail(DuplicateSubject);
      }
      subjects := subjects + [g];
      sheets := sheets[SheetFileName(g) := NewSheet(ScholarNos(roster))];
      r := Pass;
    }

    /** Marks attendance for the subject chosen by its display text, from
        the class photos, under the given day. A selection that does not
        match the pattern is rejected, and so is one whose (lower-cased)
        sheet file does not exist; neither writes anything. Otherwise the
        sheet's Scholar Nos scope the known encodings, the matcher computes
        the presence map, and the map is written as the day's column. */
    method MarkAttendance(selection: string, photos: seq<Photo>, today: Date, detect: Detect, compare: Compare)
      returns (r: Outcome<Error>)
      requires Valid() && ValidDate(today)
      modifies this
      ensures Valid()
      ensures students == old(students) && subjects == old(subjects) && faces == old(faces)
      ensures SelectionFileName(selection).None? ==> r == Fail(MalformedSelection) && sheets == old(sheets)
      ensures SelectionFileName(selection).Some? && SelectionFileName(selection).value !in old(sheets) ==>
        r == Fail(SheetNotFound) && sheets == old(sheets)
      ensures SelectionFileName(selection).Some? && SelectionFileName(selection).value in old(sheets) ==>
        var file := SelectionFileName(selection).value;
        var sheet := old(sheets)[file];
        r == Pass &&
        sheets == old(sheets)[file := Merged(sheet, DateLabel(today), Attendance(faces, sheet.ids, photos, detect, compare))]
    {
      var parsed := SelectionFileName(selection);
      if parsed.None? {
        return Fail(MalformedSelection);
      }
      var file := parsed.value;
      if file !in sheets {
        return Fail(SheetNotFound);
      }
      var merged := MarkSheet(sheets[file], faces, photos, today, detect, compare);
      sheets := sheets[file := merged];
      r := Pass;
    }
  }

  /** The scenario's class photo shows a stranger and S1. */
  function ScenarioDetect(): (detect: Detect)
  {
    p => if p == "class.jpg" then [[9.0], [1.0]] else []
  }

  /** The scenario's comparison accepts identical encodings only. */
  function ScenarioCompare(): (compare: Compare)
  {
    (k, u, t) => k == u
  }

  /** In the scenario S1 is recognised in the class photo and S2 is not. */
  lemma ScenarioAttendance()
    ensures Attendance([FaceRow("S1", [1.0]), FaceRow("S2", [2.0])], ["S1", "S2"], ["class.jpg"],
                       ScenarioDetect(), ScenarioCompare()) == map["S1" := 1, "S2" := 0]
  {
    ScenarioKnown();
    ScenarioSeen();
  }

  /** In the scenario both students have a face row. */
  lemma ScenarioKnown()
    ensures RosterEncodings([FaceRow("S1", [1.0]), FaceRow("S2", [2.0])], ["S1", "S2"]) == map["S1" := [1.0], "S2" := [2.0]]
  {
    var faces := [FaceRow("S1", [1.0]), FaceRow("S2", [2.0])];
    var roster := ["S1", "S2"];
    assert faces[..1] == [FaceRow("S1", [1.0])] && faces[..1][..0] == [];
    assert RosterEncodings(faces[..1][..0], roster) == map[];
    assert RosterEncodings(faces[..1], roster) == map["S1" := [1.0]];
  }

  /** In the scenario the class photo yields the stranger's and S1's
      encodings; S1's is accepted and S2's is not. */
  lemma ScenarioSeen()
    ensures Detected(["class.jpg"], ScenarioDetect()) == [[9.0], [1.0]]
    ensures Recognized([1.0], [[9.0], [1.0]], ScenarioCompare(), Tolerance)
    ensures !Recognized([2.0], [[9.0], [1.0]], ScenarioCompare(), Tolerance)
  {
    var seen: seq<Encoding> := [[9.0], [1.0]];
    assert ["class.jpg"][..0] == [];
    assert ScenarioCompare()([1.0], seen[1], Tolerance);
    assert [2.0] != [9.0] && [2.0] != [1.0];
  }

  /** The classroom scenario: S1 and S2 share a class and the class photo
      shows a stranger and S1. The run marks S1 present and S2 absent, and
      the day's column of the fresh sheet reads 1, 0. */
  lemma EndToEndScenario()
    ensures var attendance := Attendance([FaceRow("S1", [1.0]), FaceRow("S2", [2.0])], ["S1", "S2"], ["class.jpg"],
                                         ScenarioDetect(), ScenarioCompare());
            var sheet := Merged(NewSheet(["S1", "S2"]), DateLabel(Date(2024, 1, 15)), attendance);
            sheet.ids == ["S1", "S2"] &&
            sheet.dates == [DateLabel(Date(2024, 1, 15))] &&
            sheet.columns[DateLabel(Date(2024, 1, 15))] == [1, 0]
  {
    ScenarioAttendance();
  }
}
