/** The rows of the three flat stores (students, subjects, faces) and the
    pure queries the application runs over them. */
module Records {

  /** A Scholar No, read and compared as text. */
  type ScholarNo = string

  /** A face-encoding vector (128 floating-point numbers); the model never
      looks inside one. */
  type Encoding = seq<real>

  /** A photograph, named by the path of its image file. */
  type Photo = string

  /** A row of the student store: Student Name, Scholar No, Branch,
      Semester, Email ID. */
  datatype Student = Student(name: string, scholarNo: ScholarNo, branch: string, semester: string, email: string)

  /** A row of the subject store: Subject, Branch, Semester. */
  datatype Subject = Subject(code: string, branch: string, semester: string)

  /** A row of the face store: Scholar No, Face Encoding. */
  datatype FaceRow = FaceRow(scholarNo: ScholarNo, encoding: Encoding)

  /** The errors the engine reports to the operator. */
  datatype Error =
    | EmptyField          // a form field is blank after strip()
    | DuplicateScholarNo  // the Scholar No is already enrolled
    | NoFaceDetected      // the reference image holds no face
    | NoStudentsInClass   // no student has the requested Branch and Semester
    | DuplicateSubject    // the (Subject, Branch, Semester) triple exists
    | MalformedSelection  // the selected text does not match word(word-digits)
    | SheetNotFound       // no attendance sheet under the derived file name

  /** The Scholar No column of a list of students, in row order. */
  function ScholarNos(students: seq<Student>): (ids: seq<ScholarNo>)
    ensures |ids| == |students|
  {
    seq(|students|, k requires 0 <= k < |students| => students[k].scholarNo)
  }

  /** Whether a Scholar No already appears in the student store. */
  predicate IsEnrolled(students: seq<Student>, scholarNo: ScholarNo)
  {
    exists k :: 0 <= k < |students| && students[k].scholarNo == scholarNo
  }

  /** No two students share a Scholar No. */
  predicate UniqueScholarNos(students: seq<Student>)
  {
    forall i, j :: 0 <= i < j < |students| ==> students[i].scholarNo != students[j].scholarNo
  }

  /** The students whose Branch and Semester equal the given text exactly,
      in store order. */
  function InClass(students: seq<Student>, branch: string, semester: string): (r: seq<Student>)
    ensures forall x :: x in r <==> x in students && x.branch == branch && x.semester == semester
    ensures |r| <= |students|
  {
    if students == [] then []
    else
      var head := if students[0].branch == branch && students[0].semester == semester then [students[0]] else [];
      head + InClass(students[1..], branch, semester)
  }

  /** The filter distributes over concatenation: it keeps the store order
      and decides each row on its own. */
  lemma {:induction false} InClassAppend(a: seq<Student>, b: seq<Student>, branch: string, semester: string)
    ensures InClass(a + b, branch, semester) == InClass(a, branch, semester) + InClass(b, branch, semester)
  {
    if a == [] {
      assert a + b == b;
    } else {
      var head := if a[0].branch == branch && a[0].semester == semester then [a[0]] else [];
      assert (a + b)[0] == a[0];
      assert (a + b)[1..] == a[1..] + b;
      calc {
        InClass(a + b, branch, semester);
        head + InClass(a[1..] + b, branch, semester);
        { InClassAppend(a[1..], b, branch, semester); }
        head + (InClass(a[1..], branch, semester) + InClass(b, branch, semester));
        (head + InClass(a[1..], branch, semester)) + InClass(b, branch, semester);
        InClass(a, branch, semester) + InClass(b, branch, semester);
      }
    }
  }

  /** Filtering a store with unique Scholar Nos gives a roster with unique
      Scholar Nos. */
  lemma {:induction false} InClassUnique(students: seq<Student>, branch: string, semester: string)
    requires UniqueScholarNos(students)
    ensures UniqueScholarNos(InClass(students, branch, semester))
  {
    if students != [] {
      var tail := students[1..];
      assert UniqueScholarNos(tail) by {
        forall i, j | 0 <= i < j < |tail| ensures tail[i].scholarNo != tail[j].scholarNo {
          assert tail[i] == students[i + 1] && tail[j] == students[j + 1];
        }
      }
      InClassUnique(tail, branch, semester);
      var rest := InClass(tail, branch, semester);
      forall x | x in rest ensures x.scholarNo != students[0].scholarNo {
        var j :| 0 <= j < |tail| && tail[j] == x;
        assert students[j + 1] == x;
      }
    }
  }
}
