/**
  The face-recognition service of the attendance module. The face library (image
  loading, detection, embeddings, compare_faces and face_distance) is not modelled:
  its answers are inputs, as the result of loading and detecting, and as the two
  comparison oracles `isMatch` and `distance` between a known and a detected encoding.
 */
module FaceRecognition {
  import opened Wrappers
  import opened Dict

  type StudentId = nat

  /** A 128-dimensional face embedding; the model never looks inside one. */
  type Encoding = seq<real>

  /** What the library gives back for an image: the encodings of the faces it found, in
      detection order, or an exception (unreadable file, decoding failure, ...). */
  datatype LibraryResult = Encodings(faces: seq<Encoding>) | LibraryError

  /** A student as the registry builder sees one: id and stored photo name ("" for none). */
  datatype Student = Student(id: StudentId, photo: string)

  /** `encode_student_face`: the first face's encoding, None when there is none or the library failed. */
  function EncodeStudentFace(loaded: LibraryResult): (r: Option<Encoding>)
    ensures r.Some? <==> loaded.Encodings? && loaded.faces != []
    ensures r.Some? ==> r.value == loaded.faces[0]
  {
    match loaded
    case LibraryError => None
    case Encodings(faces) => if |faces| == 0 then None else Some(faces[0])
  }

  /** A student who gets into the registry: a photo, whose file exists, in which the library finds a face. */
  predicate Usable(s: Student, pathExists: string -> bool, load: string -> LibraryResult) {
    s.photo != "" && pathExists(s.photo) && EncodeStudentFace(load(s.photo)).Some?
  }

  /** The registry the roster yields: each usable student's first face, in roster order. */
  function Registry(roster: seq<Student>, pathExists: string -> bool, load: string -> LibraryResult): Dict<StudentId, Encoding> {
    if roster == [] then []
    else
      var rest := Registry(roster[..|roster| - 1], pathExists, load);
      var s := roster[|roster| - 1];
      if Usable(s, pathExists, load) then rest + [(s.id, EncodeStudentFace(load(s.photo)).value)] else rest
  }

  /** The ids of a roster, in roster order. */
  function RosterIds(roster: seq<Student>): (ids: seq<StudentId>)
    ensures |ids| == |roster|
    ensures forall i :: 0 <= i < |roster| ==> ids[i] == roster[i].id
  {
    if roster == [] then [] else [roster[0].id] + RosterIds(roster[1..])
  }

  /** Student ids in a roster are distinct (rows of one table). */
  predicate DistinctIds(roster: seq<Student>) {
    forall i, j :: 0 <= i < j < |roster| ==> roster[i].id != roster[j].id
  }

  /**
    `get_known_encodings`: the registry of the roster's usable students, each with the
    first face found in their photo, in roster order; everyone else is silently skipped.
   */
  method GetKnownEncodings(roster: seq<Student>, pathExists: string -> bool, load: string -> LibraryResult)
    returns (known: Dict<StudentId, Encoding>)
    requires DistinctIds(roster)
    ensures known == Registry(roster, pathExists, load)
    ensures DistinctKeys(known)
    ensures forall id :: HasKey(known, id) ==> id in RosterIds(roster)
    ensures forall i :: 0 <= i < |roster| ==>
              Get(known, roster[i].id) == if Usable(roster[i], pathExists, load)
                                          then EncodeStudentFace(load(roster[i].photo)) else None
  {
    known := [];
    for i := 0 to |roster|
      invariant Registered(roster, pathExists, load, i, known)
    {
      var student := roster[i];
      RegisterStep(roster, pathExists, load, i, known);
      if student.photo == "" {
        continue;
      }
      if !pathExists(student.photo) {
        continue;
      }
      var encoding := EncodeStudentFace(load(student.photo));
      if encoding.Some? {
        known := Put(known, student.id, encoding.value);
      }
    }
    assert roster[..|roster|] == roster;
    assert RosterIds(roster)[..|roster|] == RosterIds(roster);
  }

  /** The loop state of `GetKnownEncodings` after the first `i` students. */
  ghost predicate Registered(roster: seq<Student>, pathExists: string -> bool, load: string -> LibraryResult,
                             i: nat, known: Dict<StudentId, Encoding>)
  {
    && i <= |roster|
    && known == Registry(roster[..i], pathExists, load)
    && DistinctKeys(known)
    && (forall id :: HasKey(known, id) ==> id in RosterIds(roster)[..i])
    && (forall j :: 0 <= j < i ==>
          Get(known, roster[j].id) == if Usable(roster[j], pathExists, load)
                                      then EncodeStudentFace(load(roster[j].photo)) else None)
    && (forall j :: i <= j < |roster| ==> !HasKey(known, roster[j].id))
  }

  /** One student more: a usable one is appended with the first face of their photo, anyone else is skipped. */
  lemma RegisterStep(roster: seq<Student>, pathExists: string -> bool, load: string -> LibraryResult,
                     i: nat, known: Dict<StudentId, Encoding>)
    requires DistinctIds(roster) && i < |roster|
    requires Registered(roster, pathExists, load, i, known)
    ensures Registered(roster, pathExists, load, i + 1,
                       if Usable(roster[i], pathExists, load)
                       then Put(known, roster[i].id, EncodeStudentFace(load(roster[i].photo)).value) else known)
  {
    var student := roster[i];
    var ids := RosterIds(roster);
    assert roster[..i + 1][..i] == roster[..i];
    assert roster[..i + 1][i] == student;
    assert ids[..i + 1] == ids[..i] + [student.id];
    assert !HasKey(known, student.id);
    if Usable(student, pathExists, load) {
      var encoding := EncodeStudentFace(load(student.photo)).value;
      PutFresh(known, student.id, encoding);
      RegisterUsable(roster, pathExists, load, i, known, encoding);
    } else {
      assert known == Registry(roster[..i + 1], pathExists, load);
      forall j | 0 <= j < i + 1
        ensures Get(known, roster[j].id) == if Usable(roster[j], pathExists, load)
                                            then EncodeStudentFace(load(roster[j].photo)) else None
      {
      }
    }
  }

  lemma RegisterUsable(roster: seq<Student>, pathExists: string -> bool, load: string -> LibraryResult,
                       i: nat, known: Dict<StudentId, Encoding>, encoding: Encoding)
    requires DistinctIds(roster) && i < |roster|
    requires Registered(roster, pathExists, load, i, known)
    requires Usable(roster[i], pathExists, load) && encoding == EncodeStudentFace(load(roster[i].photo)).value
    requires roster[..i + 1][..i] == roster[..i] && roster[..i + 1][i] == roster[i]
    requires RosterIds(roster)[..i + 1] == RosterIds(roster)[..i] + [roster[i].id]
    requires !HasKey(known, roster[i].id)
    ensures Registered(roster, pathExists, load, i + 1, known + [(roster[i].id, encoding)])
  {
    var id := roster[i].id;
    AppendGet(known, id, encoding);
    RegistrySnoc(roster, pathExists, load, i);
    UsableKeys(known, id, encoding, RosterIds(roster)[..i]);
    UsableGets(roster, pathExists, load, i, known, encoding);
    UsableLater(roster, i, known, encoding);
  }

  /** The registry of one student more. */
  lemma RegistrySnoc(roster: seq<Student>, pathExists: string -> bool, load: string -> LibraryResult, i: nat)
    requires i < |roster|
    ensures Registry(roster[..i + 1], pathExists, load)
         == Registry(roster[..i], pathExists, load)
            + (if Usable(roster[i], pathExists, load)
               then [(roster[i].id, EncodeStudentFace(load(roster[i].photo)).value)] else [])
  {
    assert roster[..i + 1][..i] == roster[..i];
  }

  lemma UsableKeys(known: Dict<StudentId, Encoding>, id: StudentId, encoding: Encoding, earlier: seq<StudentId>)
    requires DistinctKeys(known) && !HasKey(known, id)
    requires forall k :: HasKey(known, k) ==> k in earlier
    ensures forall k :: HasKey(known + [(id, encoding)], k) ==> k in earlier + [id]
  {
    AppendGet(known, id, encoding);
    forall k | HasKey(known + [(id, encoding)], k) ensures k in earlier + [id] {
      if k != id {
        assert Get(known + [(id, encoding)], k) == Get(known, k);
      }
    }
  }

  lemma UsableGets(roster: seq<Student>, pathExists: string -> bool, load: string -> LibraryResult,
                   i: nat, known: Dict<StudentId, Encoding>, encoding: Encoding)
    requires DistinctIds(roster) && i < |roster|
    requires DistinctKeys(known) && !HasKey(known, roster[i].id)
    requires forall j :: 0 <= j < i ==>
               Get(known, roster[j].id) == if Usable(roster[j], pathExists, load)
                                           then EncodeStudentFace(load(roster[j].photo)) else None
    requires Usable(roster[i], pathExists, load) && encoding == EncodeStudentFace(load(roster[i].photo)).value
    ensures forall j :: 0 <= j < i + 1 ==>
              Get(known + [(roster[i].id, encoding)], roster[j].id) == if Usable(roster[j], pathExists, load)
                                                                       then EncodeStudentFace(load(roster[j].photo)) else None
  {
    var id := roster[i].id;
    AppendGet(known, id, encoding);
    forall j | 0 <= j < i ensures Get(known + [(id, encoding)], roster[j].id) == Get(known, roster[j].id) {
      assert roster[j].id != id;
    }
  }

  lemma UsableLater(roster: seq<Student>, i: nat, known: Dict<StudentId, Encoding>, encoding: Encoding)
    requires DistinctIds(roster) && i < |roster|
    requires DistinctKeys(known) && !HasKey(known, roster[i].id)
    requires forall j :: i <= j < |roster| ==> !HasKey(known, roster[j].id)
    ensures forall j :: i + 1 <= j < |roster| ==> !HasKey(known + [(roster[i].id, encoding)], roster[j].id)
  {
    var id := roster[i].id;
    AppendGet(known, id, encoding);
    forall j | i + 1 <= j < |roster| ensures !HasKey(known + [(id, encoding)], roster[j].id) {
      assert roster[j].id != id;
      assert Get(known + [(id, encoding)], roster[j].id) == Get(known, roster[j].id);
    }
  }

  /** The first position of a smallest value (`np.argmin`). */
  function ArgMin(s: seq<real>): (m: nat)
    requires s != []
    ensures m < |s|
    ensures forall j :: 0 <= j < |s| ==> s[m] <= s[j]
    ensures forall j :: 0 <= j < m ==> s[j] > s[m]
  {
    if |s| == 1 then 0
    else
      var m := ArgMin(s[..|s| - 1]);
      assert forall j :: 0 <= j < |s| - 1 ==> s[..|s| - 1][j] == s[j];
      if s[|s| - 1] < s[m] then |s| - 1 else m
  }

  /**
    The registry position a detected face is assigned to: none unless some known face
    matches, and then the first position of the smallest distance over all known faces.
   */
  function BestMatch(known: Dict<StudentId, Encoding>, face: Encoding,
                     distance: (Encoding, Encoding) -> real, isMatch: (Encoding, Encoding) -> bool): (b: Option<nat>)
    ensures b.None? <==> forall j :: 0 <= j < |known| ==> !isMatch(known[j].1, face)
    ensures b.Some? ==> b.value < |known|
    ensures b.Some? ==> forall j :: 0 <= j < |known| ==> distance(known[b.value].1, face) <= distance(known[j].1, face)
    ensures b.Some? ==> forall j :: 0 <= j < b.value ==> distance(known[j].1, face) > distance(known[b.value].1, face)
  {
    // `compare_faces` and `face_distance`: one verdict and one distance per known face, in registry order
    var matches := seq(|known|, j requires 0 <= j < |known| => isMatch(known[j].1, face));
    var distances := seq(|known|, j requires 0 <= j < |known| => distance(known[j].1, face));
    assert forall j :: 0 <= j < |known| ==> matches[j] == isMatch(known[j].1, face);
    assert forall j :: 0 <= j < |known| ==> distances[j] == distance(known[j].1, face);
    if true in matches then
      assert known != [];
      Some(ArgMin(distances))
    else
      None
  }

  /** The ids assigned to the faces, in face order, before deduplication (the `recognized_ids` list). */
  function Assignments(faces: seq<Encoding>, known: Dict<StudentId, Encoding>,
                       distance: (Encoding, Encoding) -> real, isMatch: (Encoding, Encoding) -> bool): seq<StudentId>
  {
    if faces == [] then []
    else
      var rest := Assignments(faces[..|faces| - 1], known, distance, isMatch);
      match BestMatch(known, faces[|faces| - 1], distance, isMatch)
      case None => rest
      case Some(b) => rest + [known[b].0]
  }

  /** The confidence the service reports for a face matched at distance `d`, before rounding to one decimal. */
  function Confidence(d: real): real {
    (1.0 - d) * 100.0
  }

  datatype RecognitionError = NoFacesDetected | RecognitionFailed

  /** The service's answer; `recognizedIds` is the deduplicated `list(set(...))`, whose order is unspecified. */
  datatype Recognition = Recognition(
    recognizedIds: set<StudentId>,
    unrecognized: nat,
    totalFaces: nat,
    confidence: Dict<StudentId, real>,
    error: Option<RecognitionError>)

  /**
    `recognize_faces_in_image`: every detected face is either assigned to its best match
    or counted as unrecognized; the recognized ids are the deduplicated assignments, all
    of them registry keys, and they are exactly the keys of the confidence map, whose
    value for an id comes from the last face assigned to it. Without faces, and on a
    library failure, the answer is empty with total 0.
   */
  method RecognizeFacesInImage(detection: LibraryResult, known: Dict<StudentId, Encoding>,
                               distance: (Encoding, Encoding) -> real, isMatch: (Encoding, Encoding) -> bool)
    returns (r: Recognition)
    ensures detection.LibraryError? ==> r == Recognition({}, 0, 0, [], Some(RecognitionFailed))
    ensures detection.Encodings? && detection.faces == [] ==> r == Recognition({}, 0, 0, [], Some(NoFacesDetected))
    ensures detection.Encodings? && detection.faces != [] ==>
              var faces := detection.faces;
              var picks := Assignments(faces, known, distance, isMatch);
              && r.error.None?
              && r.totalFaces == |faces|
              && |picks| + r.unrecognized == r.totalFaces
              && r.recognizedIds == (set id | id in picks)
              && (forall id :: id in r.recognizedIds ==> HasKey(known, id))
              && DistinctKeys(r.confidence)
              && (forall id :: HasKey(r.confidence, id) <==> id in r.recognizedIds)
              && (forall id :: id in r.recognizedIds ==>
                    exists i :: 0 <= i < |faces| && LastAssignedTo(faces, known, distance, isMatch, i, id)
                                && Get(r.confidence, id) == Some(FaceConfidence(faces[i], known, distance, isMatch)))
  {
    if detection.LibraryError? {
      return Recognition({}, 0, 0, [], Some(RecognitionFailed));
    }
    var faces := detection.faces;
    if faces == [] {
      return Recognition({}, 0, 0, [], Some(NoFacesDetected));
    }
    var recognized, confidenceMap, unrecognized := ScanFaces(faces, known, distance, isMatch);
    var ids := set id | id in recognized;
    r := Recognition(ids, unrecognized, |faces|, confidenceMap, None);
  }

  /**
    The matching loop of `recognize_faces_in_image`: each face is assigned to its best
    match or counted as unrecognized; the confidence map has one entry per assigned id,
    valued by the last face assigned to it.
   */
  method ScanFaces(faces: seq<Encoding>, known: Dict<StudentId, Encoding>,
                   distance: (Encoding, Encoding) -> real, isMatch: (Encoding, Encoding) -> bool)
    returns (recognized: seq<StudentId>, confidenceMap: Dict<StudentId, real>, unrecognized: nat)
    ensures recognized == Assignments(faces, known, distance, isMatch)
    ensures |recognized| + unrecognized == |faces|
    ensures forall id :: id in recognized ==> HasKey(known, id)
    ensures DistinctKeys(confidenceMap)
    ensures forall id :: HasKey(confidenceMap, id) <==> id in recognized
    ensures forall id :: id in recognized ==>
              exists j :: 0 <= j < |faces| && LastAssignedTo(faces, known, distance, isMatch, j, id)
                          && Get(confidenceMap, id) == Some(FaceConfidence(faces[j], known, distance, isMatch))
  {
    recognized := [];
    confidenceMap := [];
    unrecognized := 0;
    for i := 0 to |faces|
      invariant Scanned(faces, known, distance, isMatch, i, recognized, confidenceMap, unrecognized)
    {
      var face := faces[i];
      var best := BestMatch(known, face, distance, isMatch);
      if best.Some? {
        var bestId := known[best.value].0;
        MatchedStep(faces, known, distance, isMatch, i, recognized, confidenceMap, unrecognized);
        recognized := recognized + [bestId];
        confidenceMap := Put(confidenceMap, bestId, Confidence(distance(known[best.value].1, face)));
      } else {
        UnmatchedStep(faces, known, distance, isMatch, i, recognized, confidenceMap, unrecognized);
        unrecognized := unrecognized + 1;
      }
    }
    ScannedAll(faces, known, distance, isMatch, recognized, confidenceMap, unrecognized);
  }

  /** The loop state after the first `i` faces have been looked at. */
  ghost predicate Scanned(faces: seq<Encoding>, known: Dict<StudentId, Encoding>,
                          distance: (Encoding, Encoding) -> real, isMatch: (Encoding, Encoding) -> bool,
                          i: nat, recognized: seq<StudentId>, confidenceMap: Dict<StudentId, real>, unrecognized: nat)
  {
    && i <= |faces|
    && recognized == Assignments(faces[..i], known, distance, isMatch)
    && |recognized| + unrecognized == i
    && (forall id :: id in recognized ==> HasKey(known, id))
    && DistinctKeys(confidenceMap)
    && (forall id :: HasKey(confidenceMap, id) <==> id in recognized)
    && ConfidenceFromLast(faces[..i], known, distance, isMatch, recognized, confidenceMap)
  }

  /** Every recognized id carries the confidence of the last face of `faces` assigned to it. */
  ghost predicate ConfidenceFromLast(faces: seq<Encoding>, known: Dict<StudentId, Encoding>,
                                     distance: (Encoding, Encoding) -> real, isMatch: (Encoding, Encoding) -> bool,
                                     recognized: seq<StudentId>, confidenceMap: Dict<StudentId, real>)
  {
    forall id :: id in recognized ==>
      exists j :: 0 <= j < |faces| && LastAssignedTo(faces, known, distance, isMatch, j, id)
                  && Get(confidenceMap, id) == Some(FaceConfidence(faces[j], known, distance, isMatch))
  }

  /** The loop state after the last face, stated over all the faces. */
  lemma ScannedAll(faces: seq<Encoding>, known: Dict<StudentId, Encoding>,
                   distance: (Encoding, Encoding) -> real, isMatch: (Encoding, Encoding) -> bool,
                   recognized: seq<StudentId>, confidenceMap: Dict<StudentId, real>, unrecognized: nat)
    requires Scanned(faces, known, distance, isMatch, |faces|, recognized, confidenceMap, unrecognized)
    ensures recognized == Assignments(faces, known, distance, isMatch)
    ensures |recognized| + unrecognized == |faces|
    ensures forall id :: id in recognized ==> HasKey(known, id)
    ensures DistinctKeys(confidenceMap)
    ensures forall id :: HasKey(confidenceMap, id) <==> id in recognized
    ensures forall id :: id in recognized ==>
              exists j :: 0 <= j < |faces| && LastAssignedTo(faces, known, distance, isMatch, j, id)
                          && Get(confidenceMap, id) == Some(FaceConfidence(faces[j], known, distance, isMatch))
  {
    assert faces[..|faces|] == faces;
  }

  lemma {:induction false} MatchedStep(faces: seq<Encoding>, known: Dict<StudentId, Encoding>,
                     distance: (Encoding, Encoding) -> real, isMatch: (Encoding, Encoding) -> bool,
                     i: nat, recognized: seq<StudentId>, confidenceMap: Dict<StudentId, real>, unrecognized: nat)
    requires i < |faces|
    requires Scanned(faces, known, distance, isMatch, i, recognized, confidenceMap, unrecognized)
    requires BestMatch(known, faces[i], distance, isMatch).Some?
    ensures var b := BestMatch(known, faces[i], distance, isMatch).value;
            var id := known[b].0;
            Scanned(faces, known, distance, isMatch, i + 1, recognized + [id],
                    Put(confidenceMap, id, Confidence(distance(known[b].1, faces[i]))), unrecognized)
  {
    var b := BestMatch(known, faces[i], distance, isMatch).value;
    var bestId := known[b].0;
    AssignmentsStep(faces, known, distance, isMatch, i);
    assert HasKey(known, bestId) by { assert known[b].0 == bestId; }
    assert forall id :: id in recognized + [bestId] ==> HasKey(known, id);
    ConfidenceKeysStep(confidenceMap, recognized, bestId, Confidence(distance(known[b].1, faces[i])));
    MatchedConfidence(faces, known, distance, isMatch, i, recognized, confidenceMap);
  }

  /** Looking at one more face appends its assignment, if it has one. */
  lemma AssignmentsStep(faces: seq<Encoding>, known: Dict<StudentId, Encoding>,
                        distance: (Encoding, Encoding) -> real, isMatch: (Encoding, Encoding) -> bool, i: nat)
    requires i < |faces|
    ensures Assignments(faces[..i + 1], known, distance, isMatch)
            == match BestMatch(known, faces[i], distance, isMatch)
               case None => Assignments(faces[..i], known, distance, isMatch)
               case Some(b) => Assignments(faces[..i], known, distance, isMatch) + [known[b].0]
  {
    assert faces[..i + 1][..i] == faces[..i];
    assert faces[..i + 1][i] == faces[i];
  }

  /** Writing the confidence of `id` keeps the keys of the map equal to the recognized ids. */
  lemma ConfidenceKeysStep(confidenceMap: Dict<StudentId, real>, recognized: seq<StudentId>, id: StudentId, c: real)
    requires DistinctKeys(confidenceMap)
    requires forall x :: HasKey(confidenceMap, x) <==> x in recognized
    ensures DistinctKeys(Put(confidenceMap, id, c))
    ensures forall x :: HasKey(Put(confidenceMap, id, c), x) <==> x in recognized + [id]
  {
    forall x ensures HasKey(Put(confidenceMap, id, c), x) <==> x in recognized + [id] {
      assert Get(Put(confidenceMap, id, c), x) == if x == id then Some(c) else Get(confidenceMap, x);
    }
  }

  /** After a matched face the confidence of every recognized id still comes from the last face assigned to it. */
  lemma MatchedConfidence(faces: seq<Encoding>, known: Dict<StudentId, Encoding>,
                          distance: (Encoding, Encoding) -> real, isMatch: (Encoding, Encoding) -> bool,
                          i: nat, recognized: seq<StudentId>, confidenceMap: Dict<StudentId, real>)
    requires i < |faces|
    requires BestMatch(known, faces[i], distance, isMatch).Some?
    requires DistinctKeys(confidenceMap)
    requires ConfidenceFromLast(faces[..i], known, distance, isMatch, recognized, confidenceMap)
    ensures var b := BestMatch(known, faces[i], distance, isMatch).value;
            ConfidenceFromLast(faces[..i + 1], known, distance, isMatch, recognized + [known[b].0],
                               Put(confidenceMap, known[b].0, Confidence(distance(known[b].1, faces[i]))))
  {
    var b := BestMatch(known, faces[i], distance, isMatch).value;
    var bestId := known[b].0;
    var conf := Put(confidenceMap, bestId, Confidence(distance(known[b].1, faces[i])));
    var rec := recognized + [bestId];
    LastAssignedStep(faces, known, distance, isMatch, i);
    assert AssignedTo(faces[i], known, distance, isMatch, bestId);
    forall id | id in rec
      ensures exists j :: 0 <= j < i + 1 && LastAssignedTo(faces[..i + 1], known, distance, isMatch, j, id)
                          && Get(conf, id) == Some(FaceConfidence(faces[j], known, distance, isMatch))
    {
      if id == bestId {
        assert LastAssignedTo(faces[..i + 1], known, distance, isMatch, i, id);
        assert Get(conf, id) == Some(FaceConfidence(faces[i], known, distance, isMatch));
      } else {
        assert id in recognized;
        var j :| 0 <= j < i && LastAssignedTo(faces[..i], known, distance, isMatch, j, id)
                 && Get(confidenceMap, id) == Some(FaceConfidence(faces[j], known, distance, isMatch));
        assert !AssignedTo(faces[i], known, distance, isMatch, id);
        assert LastAssignedTo(faces[..i + 1], known, distance, isMatch, j, id);
      }
    }
  }

  lemma {:induction false} UnmatchedStep(faces: seq<Encoding>, known: Dict<StudentId, Encoding>,
                       distance: (Encoding, Encoding) -> real, isMatch: (Encoding, Encoding) -> bool,
                       i: nat, recognized: seq<StudentId>, confidenceMap: Dict<StudentId, real>, unrecognized: nat)
    requires i < |faces|
    requires Scanned(faces, known, distance, isMatch, i, recognized, confidenceMap, unrecognized)
    requires BestMatch(known, faces[i], distance, isMatch).None?
    ensures Scanned(faces, known, distance, isMatch, i + 1, recognized, confidenceMap, unrecognized + 1)
  {
    AssignmentsStep(faces, known, distance, isMatch, i);
    assert faces[..i + 1][..i] == faces[..i];
    LastAssignedStep(faces, known, distance, isMatch, i);
    forall id | id in recognized
      ensures exists j :: 0 <= j < i + 1 && LastAssignedTo(faces[..i + 1], known, distance, isMatch, j, id)
                          && Get(confidenceMap, id) == Some(FaceConfidence(faces[j], known, distance, isMatch))
    {
      var j :| 0 <= j < i && LastAssignedTo(faces[..i], known, distance, isMatch, j, id)
               && Get(confidenceMap, id) == Some(FaceConfidence(faces[j], known, distance, isMatch));
      assert !AssignedTo(faces[i], known, distance, isMatch, id);
      assert LastAssignedTo(faces[..i + 1], known, distance, isMatch, j, id);
    }
  }

  /** The confidence of a face at the distance of its best match (0 for a face matched to nobody). */
  function FaceConfidence(face: Encoding, known: Dict<StudentId, Encoding>,
                          distance: (Encoding, Encoding) -> real, isMatch: (Encoding, Encoding) -> bool): real
  {
    match BestMatch(known, face, distance, isMatch)
    case None => 0.0
    case Some(b) => Confidence(distance(known[b].1, face))
  }

  /** Face `i` is assigned to `id` and no later face of `faces` is. */
  predicate LastAssignedTo(faces: seq<Encoding>, known: Dict<StudentId, Encoding>,
                           distance: (Encoding, Encoding) -> real, isMatch: (Encoding, Encoding) -> bool,
                           i: nat, id: StudentId)
  {
    && i < |faces|
    && AssignedTo(faces[i], known, distance, isMatch, id)
    && forall j :: i < j < |faces| ==> !AssignedTo(faces[j], known, distance, isMatch, id)
  }

  predicate AssignedTo(face: Encoding, known: Dict<StudentId, Encoding>,
                       distance: (Encoding, Encoding) -> real, isMatch: (Encoding, Encoding) -> bool, id: StudentId)
  {
    var b := BestMatch(known, face, distance, isMatch);
    b.Some? && known[b.value].0 == id
  }

  lemma LastAssignedStep(faces: seq<Encoding>, known: Dict<StudentId, Encoding>,
                         distance: (Encoding, Encoding) -> real, isMatch: (Encoding, Encoding) -> bool, i: nat)
    requires i < |faces|
    ensures forall j, id :: 0 <= j < i && !AssignedTo(faces[i], known, distance, isMatch, id) ==>
              (LastAssignedTo(faces[..i + 1], known, distance, isMatch, j, id) <==> LastAssignedTo(faces[..i], known, distance, isMatch, j, id))
    ensures forall id :: AssignedTo(faces[i], known, distance, isMatch, id) ==> LastAssignedTo(faces[..i + 1], known, distance, isMatch, i, id)
  {
    assert forall j :: 0 <= j <= i ==> faces[..i + 1][j] == faces[j];
    assert forall j :: 0 <= j < i ==> faces[..i][j] == faces[j];
  }

  /** With an empty registry no face is recognized: every detected face counts as unrecognized. */
  lemma {:induction false} EmptyRegistryRecognizesNobody(faces: seq<Encoding>,
                                                         distance: (Encoding, Encoding) -> real, isMatch: (Encoding, Encoding) -> bool)
    ensures Assignments(faces, [], distance, isMatch) == []
  {
    if faces != [] {
      EmptyRegistryRecognizesNobody(faces[..|faces| - 1], distance, isMatch);
    }
  }

  /** Each face contributes at most one assignment, and every assigned id is a registry key. */
  lemma {:induction false} AssignmentsFromRegistry(faces: seq<Encoding>, known: Dict<StudentId, Encoding>,
                                                   distance: (Encoding, Encoding) -> real, isMatch: (Encoding, Encoding) -> bool)
    ensures |Assignments(faces, known, distance, isMatch)| <= |faces|
    ensures forall id :: id in Assignments(faces, known, distance, isMatch) ==> HasKey(known, id)
  {
    if faces != [] {
      AssignmentsFromRegistry(faces[..|faces| - 1], known, distance, isMatch);
      var b := BestMatch(known, faces[|faces| - 1], distance, isMatch);
      if b.Some? {
        assert HasKey(known, known[b.value].0);
      }
    }
  }

  /**
    When the library's verdict is "distance within the tolerance", as `compare_faces` computes
    it, the closest known face over all of them is itself a match and the closest match.
   */
  lemma ThresholdMatchPicksClosestMatch(known: Dict<StudentId, Encoding>, face: Encoding,
                                        distance: (Encoding, Encoding) -> real, isMatch: (Encoding, Encoding) -> bool,
                                        tolerance: real)
    requires forall k, f :: isMatch(k, f) <==> distance(k, f) <= tolerance
    ensures var b := BestMatch(known, face, distance, isMatch);
            b.Some? ==> isMatch(known[b.value].1, face)
                        && forall j :: 0 <= j < |known| && isMatch(known[j].1, face) ==>
                             distance(known[b.value].1, face) <= distance(known[j].1, face)
  {
    var b := BestMatch(known, face, distance, isMatch);
    if b.Some? {
      var j :| 0 <= j < |known| && isMatch(known[j].1, face);
      assert distance(known[b.value].1, face) <= distance(known[j].1, face);
    }
  }
}
