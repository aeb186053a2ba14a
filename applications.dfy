/** The application controller: submitting an application behind the
    duplicate guard, recording an interview outcome (with the placement
    side effect of "Selected"), and deleting an application. */
module Applications {
  import opened Wrappers
  import opened Records

  /** Why a submission was refused. */
  datatype ApplicationError = AlreadyExists

  /** The status that marks the linked student as placed. */
  const SelectedStatus: string := "Selected"

  /** The placement status a selection writes. */
  const PlacedStatus: string := "Placed"

  /** Submit an application for a (student, company) pair. A pair that
      already has an application is refused and nothing changes; otherwise
      one row with a fresh id and the initial status is inserted. */
  method CreateApplication(db: Database, studentId: nat, companyId: nat)
    returns (result: Result<nat, ApplicationError>)
    requires db.Valid()
    modifies db`applications, db`nextApplicationId
    ensures db.Valid()
    ensures HasApplication(db.applications, studentId, companyId)
    ensures HasApplication(old(db.applications), studentId, companyId) ==>
      && result == Failure(AlreadyExists)
      && db.applications == old(db.applications)
      && db.nextApplicationId == old(db.nextApplicationId)
    ensures !HasApplication(old(db.applications), studentId, companyId) ==>
      && result == Success(old(db.nextApplicationId))
      && old(db.nextApplicationId) !in old(db.applications)
      && db.applications == old(db.applications)[old(db.nextApplicationId) :=
           Application(studentId, companyId, InitialApplicationStatus, None, None)]
      && db.nextApplicationId == old(db.nextApplicationId) + 1
  {
    if HasApplication(db.applications, studentId, companyId) {
      return Failure(AlreadyExists);
    }
    var id := db.nextApplicationId;
    db.applications := db.applications[id := Application(studentId, companyId, InitialApplicationStatus, None, None)];
    db.nextApplicationId := id + 1;
    assert db.applications[id].studentId == studentId && db.applications[id].companyId == companyId;
    result := Success(id);
  }

  /** Record an interview outcome. The application with `id`, if any, gets
      the new status, feedback and score and no other application changes.
      When the new status is exactly "Selected" and the application exists,
      its student (if that row exists) becomes "Placed"; no other student
      changes, and no status ever un-places a student. */
  method UpdateApplicationStatus(db: Database, id: nat, status: string,
                                 feedback: Option<string>, score: Option<int>)
    requires db.Valid()
    modifies db`applications, db`students
    ensures db.Valid()
    ensures id in old(db.applications) ==>
      db.applications == old(db.applications)[id :=
        old(db.applications)[id].(status := status, feedback := feedback, score := score)]
    ensures id !in old(db.applications) ==> db.applications == old(db.applications)
    ensures
      var linked := if id in old(db.applications) then Some(old(db.applications)[id].studentId) else None;
      if status == SelectedStatus && linked.Some? && linked.value in old(db.students) then
        db.students == old(db.students)[linked.value :=
          old(db.students)[linked.value].(placementStatus := PlacedStatus)]
      else
        db.students == old(db.students)
    ensures db.students.Keys == old(db.students).Keys
    ensures forall sid :: sid in old(db.students) && old(db.students)[sid].placementStatus == PlacedStatus ==>
      db.students[sid].placementStatus == PlacedStatus
  {
    if id in db.applications {
      db.applications := db.applications[id := db.applications[id].(status := status, feedback := feedback, score := score)];
    }
    if status == SelectedStatus {
      if id in db.applications {
        var sid := db.applications[id].studentId;
        if sid in db.students {
          db.students := db.students[sid := db.students[sid].(placementStatus := PlacedStatus)];
        }
      }
    }
  }

  /** Delete the application with `id`; every other application is kept. */
  method DeleteApplication(db: Database, id: nat)
    requires db.Valid()
    modifies db`applications
    ensures db.Valid()
    ensures db.applications == old(db.applications) - {id}
  {
    db.applications := db.applications - {id};
  }

  /** A client run of the handlers: a second submission for the same pair is
      refused and leaves one application for it; selecting it places the
      student, and a later rejection leaves the student placed. */
  method SelectionIsOneWay(db: Database, studentId: nat, companyId: nat)
    requires db.Valid()
    requires studentId in db.students
    requires !HasApplication(db.applications, studentId, companyId)
    modifies db`applications, db`nextApplicationId, db`students
    ensures db.Valid()
    ensures studentId in db.students && db.students[studentId].placementStatus == PlacedStatus
  {
    var first := CreateApplication(db, studentId, companyId);
    var id := first.value;
    var second := CreateApplication(db, studentId, companyId);
    assert second == Failure(AlreadyExists);
    UpdateApplicationStatus(db, id, SelectedStatus, None, Some(9));
    assert db.students[studentId].placementStatus == PlacedStatus;
    UpdateApplicationStatus(db, id, "Rejected", Some("withdrawn"), None);
  }
}
