/** The attendance matcher: restrict the stored face encodings to a
    subject's roster, then mark present every student whose encoding some
    face detected in some photo is accepted against. */
module Matcher {
  import opened Records

  /** A presence bit as stored in an attendance sheet. */
  type Bit = x: int | 0 <= x <= 1

  /** The face-detection primitive: the encodings of the faces found in a
      photo, in the detector's order. */
  type Detect = Photo -> seq<Encoding>

  /** The comparison primitive: whether an unknown encoding is accepted as
      the person of a known encoding, within a distance tolerance. */
  type Compare = (Encoding, Encoding, real) -> bool

  /** The tolerance attendance marking passes to the comparison. */
  const Tolerance: real := 0.5

  /** Whether a row of the face store names a given Scholar No. */
  predicate HasFaceRow(faces: seq<FaceRow>, s: ScholarNo)
  {
    exists k :: 0 <= k < |faces| && faces[k].scholarNo == s
  }

  /** The known encodings of a roster: for each face row, in store order,
      whose Scholar No is on the roster, its encoding is recorded under that
      Scholar No (a later row replaces an earlier one). */
  function RosterEncodings(faces: seq<FaceRow>, roster: seq<ScholarNo>): (known: map<ScholarNo, Encoding>)
  {
    if faces == [] then map[]
    else
      var known := RosterEncodings(faces[..|faces| - 1], roster);
      var row := faces[|faces| - 1];
      if row.scholarNo in roster then known[row.scholarNo := row.encoding] else known
  }

  /** The known encodings hold exactly the roster members that have a face
      row, each with the encoding of its last face row. */
  lemma {:induction false} RosterEncodingsSpec(faces: seq<FaceRow>, roster: seq<ScholarNo>)
    ensures forall s :: s in RosterEncodings(faces, roster) <==> s in roster && HasFaceRow(faces, s)
    ensures forall s :: s in RosterEncodings(faces, roster) ==>
      exists k :: 0 <= k < |faces| && faces[k] == FaceRow(s, RosterEncodings(faces, roster)[s]) &&
        forall k' :: k < k' < |faces| ==> faces[k'].scholarNo != s
  {
    if faces != [] {
      var n := |faces| - 1;
      var init := faces[..n];
      RosterEncodingsSpec(init, roster);
      var known := RosterEncodings(faces, roster);
      forall s ensures s in known <==> s in roster && HasFaceRow(faces, s) {
        if HasFaceRow(faces, s) && s != faces[n].scholarNo {
          var k :| 0 <= k < |faces| && faces[k].scholarNo == s;
          assert init[k] == faces[k];
        }
        if HasFaceRow(init, s) {
          var k :| 0 <= k < |init| && init[k].scholarNo == s;
          assert faces[k] == init[k];
        }
      }
      forall s | s in known
        ensures exists k :: (0 <= k < |faces| && faces[k] == FaceRow(s, known[s]) &&
                             forall k' :: k < k' < |faces| ==> faces[k'].scholarNo != s)
      {
        if s == faces[n].scholarNo {
          assert faces[n] == FaceRow(s, known[s]);
        } else {
          var k :| 0 <= k < |init| && init[k] == FaceRow(s, RosterEncodings(init, roster)[s]) &&
            forall k' :: k < k' < |init| ==> init[k'].scholarNo != s;
          assert faces[k] == init[k];
          assert forall k' :: k < k' < |faces| ==> faces[k'].scholarNo != s by {
            forall k' | k < k' < |faces| ensures faces[k'].scholarNo != s {
              if k' < n { assert faces[k'] == init[k']; }
            }
          }
        }
      }
    }
  }

  /** Collects the roster's known encodings by one pass over the face store. */
  method CollectKnown(faces: seq<FaceRow>, roster: seq<ScholarNo>) returns (known: map<ScholarNo, Encoding>)
    ensures known == RosterEncodings(faces, roster)
    ensures known.Keys <= set s | s in roster
  {
    known := map[];
    var k := 0;
    while k < |faces|
      invariant 0 <= k <= |faces|
      invariant known == RosterEncodings(faces[..k], roster)
    {
      assert faces[..k + 1][..k] == faces[..k];
      var row := faces[k];
      if row.scholarNo in roster {
        known := known[row.scholarNo := row.encoding];
      }
      k := k + 1;
    }
    assert faces[..k] == faces;
    RosterEncodingsSpec(faces, roster);
  }

  /** Every encoding detected across the photos, photo after photo. */
  function Detected(photos: seq<Photo>, detect: Detect): (seen: seq<Encoding>)
  {
    if photos == [] then [] else Detected(photos[..|photos| - 1], detect) + detect(photos[|photos| - 1])
  }

  /** Detection over a concatenation of photo lists is the concatenation of
      the detections. */
  lemma {:induction false} DetectedAppend(p: seq<Photo>, q: seq<Photo>, detect: Detect)
    ensures Detected(p + q, detect) == Detected(p, detect) + Detected(q, detect)
  {
    if q == [] {
      assert p + q == p;
    } else {
      var n := |q| - 1;
      assert (p + q)[..|p + q| - 1] == p + q[..n];
      DetectedAppend(p, q[..n], detect);
    }
  }

  /** An encoding among the detected ones is one some photo produced. */
  lemma {:induction false} DetectedIndex(photos: seq<Photo>, detect: Detect, n: nat)
    requires n < |Detected(photos, detect)|
    ensures exists i, j :: 0 <= i < |photos| && 0 <= j < |detect(photos[i])| && detect(photos[i])[j] == Detected(photos, detect)[n]
  {
    var m := |photos| - 1;
    var init := Detected(photos[..m], detect);
    if n < |init| {
      DetectedIndex(photos[..m], detect, n);
      var i, j :| 0 <= i < m && 0 <= j < |detect(photos[..m][i])| && detect(photos[..m][i])[j] == init[n];
      assert photos[..m][i] == photos[i];
    } else {
      assert detect(photos[m])[n - |init|] == Detected(photos, detect)[n];
    }
  }

  /** Every face a photo produced is among the detected encodings. */
  lemma {:induction false} DetectedContains(photos: seq<Photo>, detect: Detect, i: nat, j: nat)
    requires i < |photos| && j < |detect(photos[i])|
    ensures detect(photos[i])[j] in Detected(photos, detect)
  {
    var m := |photos| - 1;
    if i < m {
      DetectedContains(photos[..m], detect, i, j);
      assert photos[..m][i] == photos[i];
    }
  }

  /** Whether some encoding in seen is accepted against a known encoding. */
  predicate Recognized(known: Encoding, seen: seq<Encoding>, compare: Compare, tolerance: real)
  {
    exists n :: 0 <= n < |seen| && compare(known, seen[n], tolerance)
  }

  /** The presence map after comparing the unknown encodings seen with the
      known ones: every roster member starts at 0, and a known Scholar No is
      set to 1 once one of the encodings is accepted against its own. */
  function PresenceOf(roster: seq<ScholarNo>, known: map<ScholarNo, Encoding>, seen: seq<Encoding>,
                      compare: Compare, tolerance: real): (attendance: map<ScholarNo, Bit>)
  {
    map s | s in (set r | r in roster) + known.Keys &&
            (s in roster || (s in known && Recognized(known[s], seen, compare, tolerance))) ::
      if s in known && Recognized(known[s], seen, compare, tolerance) then 1 else 0
  }

  /** The innermost loop, for one detected face: every known
      (Scholar No, encoding) pair the face is accepted against is set to 1;
      every other entry keeps its value, so no 1 is ever reset to 0. */
  method MarkFace(attendance: map<ScholarNo, Bit>, known: map<ScholarNo, Encoding>, unknown: Encoding,
                  compare: Compare, tolerance: real)
    returns (marked: map<ScholarNo, Bit>)
    ensures forall s :: s in marked <==> s in attendance || (s in known && compare(known[s], unknown, tolerance))
    ensures forall s :: s in marked ==>
      marked[s] == if s in known && compare(known[s], unknown, tolerance) then 1 else attendance[s]
  {
    marked := attendance;
    var pending := known.Keys;
    while pending != {}
      invariant pending <= known.Keys
      invariant forall s :: s in marked <==>
        s in attendance || (s in known && s !in pending && compare(known[s], unknown, tolerance))
      invariant forall s :: s in marked ==>
        marked[s] == if s in known && s !in pending && compare(known[s], unknown, tolerance) then 1 else attendance[s]
      decreases pending
    {
      var s :| s in pending;
      if compare(known[s], unknown, tolerance) {
        marked := marked[s := 1];
      }
      pending := pending - {s};
    }
  }

  /** Marking one more face turns the presence map for the faces seen so
      far into the presence map for those faces and the new one. */
  lemma PresenceStep(roster: seq<ScholarNo>, known: map<ScholarNo, Encoding>, seen: seq<Encoding>, unknown: Encoding,
                     compare: Compare, tolerance: real, marked: map<ScholarNo, Bit>)
    requires forall s :: s in marked <==>
      s in PresenceOf(roster, known, seen, compare, tolerance) || (s in known && compare(known[s], unknown, tolerance))
    requires forall s :: s in marked ==>
      marked[s] == if s in known && compare(known[s], unknown, tolerance) then 1 else PresenceOf(roster, known, seen, compare, tolerance)[s]
    ensures marked == PresenceOf(roster, known, seen + [unknown], compare, tolerance)
  {
    RecognizedSnoc(seen, unknown, compare, tolerance);
  }

  /** The attendance loop: every photo in order, every face detected in it,
      every known (Scholar No, encoding) pair; an accepted comparison sets
      that student to 1, and nothing sets a student back to 0. */
  method MatchPresence(roster: seq<ScholarNo>, known: map<ScholarNo, Encoding>, photos: seq<Photo>,
                       detect: Detect, compare: Compare, tolerance: real)
    returns (attendance: map<ScholarNo, Bit>)
    ensures attendance == PresenceOf(roster, known, Detected(photos, detect), compare, tolerance)
  {
    attendance := map s | s in roster :: 0;
    var i := 0;
    while i < |photos|
      invariant 0 <= i <= |photos|
      invariant attendance == PresenceOf(roster, known, Detected(photos[..i], detect), compare, tolerance)
    {
      assert photos[..i + 1][..i] == photos[..i];
      ghost var before := Detected(photos[..i], detect);
      var unknowns := detect(photos[i]);
      var j := 0;
      assert before + unknowns[..j] == before;
      while j < |unknowns|
        invariant 0 <= j <= |unknowns|
        invariant attendance == PresenceOf(roster, known, before + unknowns[..j], compare, tolerance)
      {
        ghost var seen := before + unknowns[..j];
        attendance := MarkFace(attendance, known, unknowns[j], compare, tolerance);
        PresenceStep(roster, known, seen, unknowns[j], compare, tolerance, attendance);
        assert before + unknowns[..j + 1] == seen + [unknowns[j]];
        j := j + 1;
      }
      assert unknowns[..j] == unknowns;
      i := i + 1;
    }
    assert photos[..i] == photos;
  }

  /** One more unknown encoding is recognised exactly when it, or one seen
      before, is accepted. */
  lemma RecognizedSnoc(seen: seq<Encoding>, unknown: Encoding, compare: Compare, tolerance: real)
    ensures forall known :: Recognized(known, seen + [unknown], compare, tolerance) <==>
      Recognized(known, seen, compare, tolerance) || compare(known, unknown, tolerance)
  {
    var all := seen + [unknown];
    forall known ensures Recognized(known, all, compare, tolerance) <==>
      Recognized(known, seen, compare, tolerance) || compare(known, unknown, tolerance)
    {
      if Recognized(known, seen, compare, tolerance) {
        var n :| 0 <= n < |seen| && compare(known, seen[n], tolerance);
        assert all[n] == seen[n];
      }
      if compare(known, unknown, tolerance) {
        assert all[|seen|] == unknown;
      }
      if Recognized(known, all, compare, tolerance) {
        var n :| 0 <= n < |all| && compare(known, all[n], tolerance);
        if n < |seen| { assert all[n] == seen[n]; }
      }
    }
  }

  /** Whether some face detected in some photo is accepted against a known
      encoding. */
  predicate SeenInPhotos(known: Encoding, photos: seq<Photo>, detect: Detect, compare: Compare, tolerance: real)
  {
    exists i, j :: 0 <= i < |photos| && 0 <= j < |detect(photos[i])| && compare(known, detect(photos[i])[j], tolerance)
  }

  /** Recognition over the detected encodings is recognition in some face of
      some photo. */
  lemma RecognizedInPhotos(known: Encoding, photos: seq<Photo>, detect: Detect, compare: Compare, tolerance: real)
    ensures Recognized(known, Detected(photos, detect), compare, tolerance) <==>
      SeenInPhotos(known, photos, detect, compare, tolerance)
  {
    var all := Detected(photos, detect);
    if Recognized(known, all, compare, tolerance) {
      var n :| 0 <= n < |all| && compare(known, all[n], tolerance);
      DetectedIndex(photos, detect, n);
    }
    if SeenInPhotos(known, photos, detect, compare, tolerance) {
      var i, j :| 0 <= i < |photos| && 0 <= j < |detect(photos[i])| && compare(known, detect(photos[i])[j], tolerance);
      DetectedContains(photos, detect, i, j);
      var n :| 0 <= n < |all| && all[n] == detect(photos[i])[j];
    }
  }

  /** The presence map of one marking run: the roster's known encodings
      compared with every face detected in the photos, at the fixed
      tolerance. */
  function Attendance(faces: seq<FaceRow>, roster: seq<ScholarNo>, photos: seq<Photo>,
                      detect: Detect, compare: Compare): (attendance: map<ScholarNo, Bit>)
    ensures attendance.Keys == set s | s in roster
  {
    RosterEncodingsSpec(faces, roster);
    PresenceOf(roster, RosterEncodings(faces, roster), Detected(photos, detect), compare, Tolerance)
  }

  /** A marking run's presence map has exactly the roster's Scholar Nos as
      keys, faces that match no roster member add none, and a student is
      present exactly when they have a face row whose encoding some face in
      some photo is accepted against; students without a face row stay 0. */
  lemma AttendanceSpec(faces: seq<FaceRow>, roster: seq<ScholarNo>, photos: seq<Photo>, detect: Detect, compare: Compare)
    ensures forall s :: s in roster ==> (s in RosterEncodings(faces, roster) <==> HasFaceRow(faces, s))
    ensures forall s :: s in roster ==>
      (Attendance(faces, roster, photos, detect, compare)[s] == 1 <==>
        s in RosterEncodings(faces, roster) &&
        SeenInPhotos(RosterEncodings(faces, roster)[s], photos, detect, compare, Tolerance))
  {
    var known := RosterEncodings(faces, roster);
    RosterEncodingsSpec(faces, roster);
    forall s | s in known ensures Recognized(known[s], Detected(photos, detect), compare, Tolerance) <==>
      SeenInPhotos(known[s], photos, detect, compare, Tolerance)
    {
      RecognizedInPhotos(known[s], photos, detect, compare, Tolerance);
    }
  }

  /** With no photos, or only photos in which no face is detected, every
      roster member stays 0 and no other key appears. */
  lemma NoFacesNoPresence(roster: seq<ScholarNo>, known: map<ScholarNo, Encoding>, photos: seq<Photo>,
                          detect: Detect, compare: Compare, tolerance: real)
    requires forall i :: 0 <= i < |photos| ==> detect(photos[i]) == []
    ensures PresenceOf(roster, known, Detected(photos, detect), compare, tolerance) == map s | s in roster :: 0
  {
    forall s | s in known ensures !Recognized(known[s], Detected(photos, detect), compare, tolerance) {
      RecognizedInPhotos(known[s], photos, detect, compare, tolerance);
    }
  }

  /** Presence is monotonic in the photos: adding photos never removes a key
      and never turns a 1 into a 0. */
  lemma PresenceMonotonic(roster: seq<ScholarNo>, known: map<ScholarNo, Encoding>, p: seq<Photo>, q: seq<Photo>,
                          detect: Detect, compare: Compare, tolerance: real)
    ensures forall s :: s in PresenceOf(roster, known, Detected(p, detect), compare, tolerance) ==>
      s in PresenceOf(roster, known, Detected(p + q, detect), compare, tolerance) &&
      PresenceOf(roster, known, Detected(p, detect), compare, tolerance)[s] <=
      PresenceOf(roster, known, Detected(p + q, detect), compare, tolerance)[s]
  {
    DetectedAppend(p, q, detect);
    var a, b := Detected(p, detect), Detected(q, detect);
    forall s | s in known && Recognized(known[s], a, compare, tolerance)
      ensures Recognized(known[s], a + b, compare, tolerance)
    {
      var n :| 0 <= n < |a| && compare(known[s], a[n], tolerance);
      assert (a + b)[n] == a[n];
    }
  }

  /** An encoding is recognised among two batches of faces exactly when it
      is recognised in one of them. */
  lemma RecognizedConcat(known: Encoding, a: seq<Encoding>, b: seq<Encoding>, compare: Compare, tolerance: real)
    ensures Recognized(known, a + b, compare, tolerance) <==>
      Recognized(known, a, compare, tolerance) || Recognized(known, b, compare, tolerance)
  {
    if Recognized(known, a + b, compare, tolerance) {
      var n :| 0 <= n < |a + b| && compare(known, (a + b)[n], tolerance);
      if n < |a| {
        assert (a + b)[n] == a[n];
      } else {
        assert (a + b)[n] == b[n - |a|];
      }
    }
    if Recognized(known, a, compare, tolerance) {
      var n :| 0 <= n < |a| && compare(known, a[n], tolerance);
      assert (a + b)[n] == a[n];
    }
    if Recognized(known, b, compare, tolerance) {
      var n :| 0 <= n < |b| && compare(known, b[n], tolerance);
      assert (a + b)[|a| + n] == b[n];
    }
  }

  /** Photos that contribute no new match (every student a face in them is
      accepted against was already recognised in the earlier photos) leave
      the presence map exactly as it was. */
  lemma UnmatchedPhotosChangeNothing(roster: seq<ScholarNo>, known: map<ScholarNo, Encoding>, p: seq<Photo>, q: seq<Photo>,
                                     detect: Detect, compare: Compare, tolerance: real)
    requires forall s :: s in known && SeenInPhotos(known[s], q, detect, compare, tolerance) ==>
      Recognized(known[s], Detected(p, detect), compare, tolerance)
    ensures PresenceOf(roster, known, Detected(p + q, detect), compare, tolerance) ==
            PresenceOf(roster, known, Detected(p, detect), compare, tolerance)
  {
    DetectedAppend(p, q, detect);
    var a, b := Detected(p, detect), Detected(q, detect);
    forall s | s in known
      ensures Recognized(known[s], a + b, compare, tolerance) <==> Recognized(known[s], a, compare, tolerance)
    {
      RecognizedInPhotos(known[s], q, detect, compare, tolerance);
      RecognizedConcat(known[s], a, b, compare, tolerance);
    }
  }
}
