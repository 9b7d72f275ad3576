/**
 * The classroom manager: `createClassroom`, `updateClassroom`,
 * `getClassroom` and `deleteClassroom`, which keep `School.classrooms` in step
 * with `Classroom.school` through `$push` / `$pull`.
 */
module ClassroomManager {
  import opened Wrappers
  import opened Store
  import opened Invariants
  import opened Capability

  const SchoolNotFound := "School not found"
  const NotAdminOfSchool := "Forbidden, you are not the admin of this school"
  const ClassroomExists := "A classroom in the same school with this name already exists"
  const IdRequired := "Id must be provided"
  const NoFields := "No fields provided to update"
  const ClassroomNotFound := "Classroom not found"
  const NotAdminOfCurrentSchool := "Forbidden, you are not the admin of the school that currently contains this classroom"
  const ClassroomExistsInNewSchool := "A classroom in the new school with this name already exists"
  const HasStudents := "Classroom has students, cannot be deleted, delete students first"
  const DeleteIdRequired := "id must be provided"
  const ClassroomDeleted := "Classroom successfully deleted"

  /** The record `createClassroom` and `updateClassroom` validate. */
  function ClassroomFields(name: string, school: Option<Id>): Fields {
    WithRef(WithText(map[], "name", name), "school", school)
  }

  /** The record `getClassroom` and `deleteClassroom` validate. */
  function IdFields(id: Option<Id>): Fields {
    WithRef(map[], "id", id)
  }

  /**
   * `createClassroom`: validation (400), unknown school (404), caller not its
   * admin (403), name already used in that school (409); the new classroom's id
   * is appended to the school's list.
   */
  function CreateClassroom(s: ValidDb, v: Validators, caller: Id, schoolId: Option<Id>, name: string): (r: Reply)
    ensures v.createClassroom(ClassroomFields(name, schoolId)).Some? ==>
              r == Rejected(s, v.createClassroom(ClassroomFields(name, schoolId)).value)
    ensures v.createClassroom(ClassroomFields(name, schoolId)).None? ==>
              && ((schoolId.None? || schoolId.value !in s.schools) ==> r == Fail(s, 404, SchoolNotFound))
              && ((schoolId.Some? && schoolId.value in s.schools && s.schools[schoolId.value].admin != caller) ==>
                    r == Fail(s, 403, NotAdminOfSchool))
              && ((schoolId.Some? && Administers(s, caller, schoolId.value) && ClassroomNameTaken(s, name, schoolId)) ==>
                    r == Fail(s, 409, ClassroomExists))
    ensures r.outcome.Ok? <==>
              && v.createClassroom(ClassroomFields(name, schoolId)).None?
              && schoolId.Some? && Administers(s, caller, schoolId.value)
              && !ClassroomNameTaken(s, name, schoolId) && name != ""
    ensures r.outcome.Ok? ==>
              var sid := schoolId.value;
              var c := Classroom(name, sid, []);
              && r.outcome == Ok(ClassroomDoc(s.nextId, c))
              && r.store == AddClassroom(s, c)
    ensures !r.outcome.Ok? ==> r.store == s
  {
    var errors := v.createClassroom(ClassroomFields(name, schoolId));
    if errors.Some? then Rejected(s, errors.value)
    else if schoolId.None? || schoolId.value !in s.schools then Fail(s, 404, SchoolNotFound)
    else if s.schools[schoolId.value].admin != caller then Fail(s, 403, NotAdminOfSchool)
    else if ClassroomByName(s, name, schoolId).Some? then Fail(s, 409, ClassroomExists)
    else if name == "" then Reply(Fault, s)
    else
      var c := Classroom(name, schoolId.value, []);
      Reply(Ok(ClassroomDoc(s.nextId, c)),
            s.(classrooms := s.classrooms[s.nextId := c],
               schools := PushClassroom(s.schools, schoolId, s.nextId),
               nextId := s.nextId + 1))
  }

  /** The classroom after `updateClassroom`'s `$set`: the supplied fields replace the stored ones. */
  function Renamed(c: Classroom, name: string, schoolId: Option<Id>): Classroom {
    Classroom(if name != "" then name else c.name, if schoolId.Some? then schoolId.value else c.school, c.students)
  }

  /** Every guard of `updateClassroom` before the name-conflict check passes. */
  ghost predicate UpdateAllowed(s: ValidDb, v: Validators, caller: Id, id: Option<Id>, name: string, schoolId: Option<Id>) {
    && id.Some? && (name != "" || schoolId.Some?)
    && v.updateClassroom(ClassroomFields(name, schoolId)).None?
    && id.value in s.classrooms
    && (schoolId.None? || schoolId.value in s.schools)
    && Administers(s, caller, s.classrooms[id.value].school)
  }

  /** The classroom `findOne({ name, school })` finds with the name the update would give classroom `q`, when it is not `q`. */
  function Conflict(s: ValidDb, q: Id, name: string, schoolId: Option<Id>): (r: Option<Id>)
    requires q in s.classrooms
    ensures r.Some? ==>
              && r.value != q && r.value in s.classrooms && schoolId.Some?
              && s.classrooms[r.value].school == schoolId.value
              && s.classrooms[r.value].name == Renamed(s.classrooms[q], name, schoolId).name
    ensures r.None? && ClassroomNameTaken(s, Renamed(s.classrooms[q], name, schoolId).name, schoolId) ==>
              ClassroomByName(s, Renamed(s.classrooms[q], name, schoolId).name, schoolId) == Some(q)
  {
    var clash := ClassroomByName(s, Renamed(s.classrooms[q], name, schoolId).name, schoolId);
    if clash.Some? && clash.value != q then clash else None
  }

  /**
   * `updateClassroom` as written. Guards: missing id (400), nothing to update
   * (400), validation (400), unknown classroom (404), supplied school unknown
   * (404), caller not admin of the current school (403), another classroom with
   * the resulting name in the supplied school (409). The classroom is then
   * updated, and whenever the supplied school is not the current one, which
   * includes no school being supplied, its id is pushed onto the supplied
   * school's list and pulled from the current school's list.
   */
  function UpdateClassroom(s: ValidDb, v: Validators, caller: Id, id: Option<Id>, name: string, schoolId: Option<Id>): (r: Reply)
    ensures id.None? ==> r == Fail(s, 400, IdRequired)
    ensures id.Some? && name == "" && schoolId.None? ==> r == Fail(s, 400, NoFields)
    ensures id.Some? && (name != "" || schoolId.Some?) ==>
              && (v.updateClassroom(ClassroomFields(name, schoolId)).Some? ==>
                    r == Rejected(s, v.updateClassroom(ClassroomFields(name, schoolId)).value))
              && (v.updateClassroom(ClassroomFields(name, schoolId)).None? && id.value !in s.classrooms ==>
                    r == Fail(s, 404, ClassroomNotFound))
              && ((v.updateClassroom(ClassroomFields(name, schoolId)).None? && id.value in s.classrooms &&
                   schoolId.Some? && schoolId.value !in s.schools) ==> r == Fail(s, 404, SchoolNotFound))
              && ((v.updateClassroom(ClassroomFields(name, schoolId)).None? && id.value in s.classrooms &&
                   (schoolId.None? || schoolId.value in s.schools) &&
                   s.classrooms[id.value].school in s.schools &&
                   s.schools[s.classrooms[id.value].school].admin != caller) ==> r == Fail(s, 403, NotAdminOfCurrentSchool))
    ensures r.outcome.Ok? ==>
              && id.Some? && id.value in s.classrooms
              && var q := id.value;
                 var before := s.classrooms[q];
                 var after := Renamed(before, name, schoolId);
                 && Administers(s, caller, before.school)
                 && (schoolId.Some? ==> schoolId.value in s.schools)
                 && r.outcome == Ok(ClassroomDoc(q, after))
                 && (schoolId == Some(before.school) ==>
                       r.store == s.(classrooms := s.classrooms[q := after]))
                 && (schoolId != Some(before.school) ==>
                       r.store == s.(classrooms := s.classrooms[q := after],
                                     schools := PullClassroom(PushClassroom(s.schools, schoolId, q), before.school, q)))
    ensures !r.outcome.Ok? ==> r.store == s
    ensures UpdateAllowed(s, v, caller, id, name, schoolId) ==>
              && (Conflict(s, id.value, name, schoolId).Some? ==> r == Fail(s, 409, ClassroomExistsInNewSchool))
              && (r.outcome.Ok? <==> Conflict(s, id.value, name, schoolId).None?)
    ensures r.outcome.Ok? ==> UpdateAllowed(s, v, caller, id, name, schoolId)
  {
    if id.None? then Fail(s, 400, IdRequired)
    else if name == "" && schoolId.None? then Fail(s, 400, NoFields)
    else
      var errors := v.updateClassroom(ClassroomFields(name, schoolId));
      if errors.Some? then Rejected(s, errors.value)
      else if id.value !in s.classrooms then Fail(s, 404, ClassroomNotFound)
      else if schoolId.Some? && schoolId.value !in s.schools then Fail(s, 404, SchoolNotFound)
      else
        var q := id.value;
        var before := s.classrooms[q];
        // the populated school is null when it is gone: reading its admin throws
        if before.school !in s.schools then Reply(Fault, s)
        else if s.schools[before.school].admin != caller then Fail(s, 403, NotAdminOfCurrentSchool)
        else
          // the conflict check compares `schoolId` with the populated school document's
          // string form, which is never an id, so it always runs
          var after := Renamed(before, name, schoolId);
          if Conflict(s, q, name, schoolId).Some? then Fail(s, 409, ClassroomExistsInNewSchool)
          else if schoolId == Some(before.school) then
            Reply(Ok(ClassroomDoc(q, after)), s.(classrooms := s.classrooms[q := after]))
          else
            Reply(Ok(ClassroomDoc(q, after)),
                  s.(classrooms := s.classrooms[q := after],
                     schools := PullClassroom(PushClassroom(s.schools, schoolId, q), before.school, q)))
  }

  /**
   * `getClassroom`: validation (400); no id yields an empty success; unknown
   * classroom (404); caller not admin of its school (403). The store never changes.
   */
  function GetClassroom(s: ValidDb, v: Validators, caller: Id, id: Option<Id>): (r: Reply)
    ensures r.store == s
    ensures v.getClassroom(IdFields(id)).Some? ==> r.outcome == Err(400, Invalid(v.getClassroom(IdFields(id)).value))
    ensures v.getClassroom(IdFields(id)).None? ==>
              && (id.None? ==> r.outcome == Ok(NoClassroom))
              && (id.Some? && id.value !in s.classrooms ==> r.outcome == Err(404, Says(ClassroomNotFound)))
              && ((id.Some? && id.value in s.classrooms && s.classrooms[id.value].school in s.schools &&
                   s.schools[s.classrooms[id.value].school].admin in s.users &&
                   s.schools[s.classrooms[id.value].school].admin != caller) ==>
                    r.outcome == Err(403, Says(NotAdminOfSchool)))
    ensures v.getClassroom(IdFields(id)).None? && id.Some? && id.value in s.classrooms ==>
              && (r.outcome.Ok? <==> Administers(s, caller, s.classrooms[id.value].school) && caller in s.users)
              && (r.outcome.Fault? <==>
                    s.classrooms[id.value].school !in s.schools || s.schools[s.classrooms[id.value].school].admin !in s.users)
    ensures r.outcome.Ok? && id.Some? ==>
              && id.value in s.classrooms
              && r.outcome == Ok(ClassroomDoc(id.value, s.classrooms[id.value]))
              && Administers(s, caller, s.classrooms[id.value].school)
    ensures r.outcome.Fault? ==>
              && id.Some? && id.value in s.classrooms
              && (s.classrooms[id.value].school !in s.schools ||
                  s.schools[s.classrooms[id.value].school].admin !in s.users)
  {
    var errors := v.getClassroom(IdFields(id));
    if errors.Some? then Rejected(s, errors.value)
    else if id.None? then Reply(Ok(NoClassroom), s)
    else if id.value !in s.classrooms then Fail(s, 404, ClassroomNotFound)
    else
      var c := s.classrooms[id.value];
      // populated school or populated admin null: dereferencing it throws
      if c.school !in s.schools || s.schools[c.school].admin !in s.users then Reply(Fault, s)
      else if s.schools[c.school].admin != caller then Fail(s, 403, NotAdminOfSchool)
      else Reply(Ok(ClassroomDoc(id.value, c)), s)
  }

  /**
   * `deleteClassroom` as written: validation (400), missing id (400), unknown
   * classroom (404), students still listed (409); then the classroom is removed
   * and pulled from its school's list. The caller is never consulted.
   */
  function DeleteClassroom(s: ValidDb, v: Validators, caller: Id, id: Option<Id>): (r: Reply)
    ensures v.deleteClassroom(IdFields(id)).Some? ==> r == Rejected(s, v.deleteClassroom(IdFields(id)).value)
    ensures v.deleteClassroom(IdFields(id)).None? ==>
              && (id.None? ==> r == Fail(s, 400, DeleteIdRequired))
              && (id.Some? && id.value !in s.classrooms ==> r == Fail(s, 404, ClassroomNotFound))
              && ((id.Some? && id.value in s.classrooms && |s.classrooms[id.value].students| > 0) ==>
                    r == Fail(s, 409, HasStudents))
              && ((id.Some? && id.value in s.classrooms && s.classrooms[id.value].students == []) ==>
                    r.outcome.Ok?)
    ensures r.outcome.Ok? ==>
              && id.Some? && id.value in s.classrooms && s.classrooms[id.value].students == []
              && r.outcome == Ok(Done(ClassroomDeleted))
              && r.store == s.(classrooms := s.classrooms - {id.value},
                               schools := PullClassroom(s.schools, s.classrooms[id.value].school, id.value))
    ensures !r.outcome.Ok? ==> r.store == s
  {
    var errors := v.deleteClassroom(IdFields(id));
    if errors.Some? then Rejected(s, errors.value)
    else if id.None? then Fail(s, 400, DeleteIdRequired)
    else if id.value !in s.classrooms then Fail(s, 404, ClassroomNotFound)
    else
      var c := s.classrooms[id.value];
      if |c.students| > 0 then Fail(s, 409, HasStudents)
      else Reply(Ok(Done(ClassroomDeleted)),
                 s.(classrooms := s.classrooms - {id.value}, schools := PullClassroom(s.schools, c.school, id.value)))
  }

  // ---------------------------------------------------------------------------
  // Store transitions that keep the invariant, one component at a time
  // ---------------------------------------------------------------------------

  /** The store after `createClassroom` stores `c` under the next id and pushes it onto its school. */
  function AddClassroom(s: ValidDb, c: Classroom): ValidDb
    requires c.school in s.schools
  {
    s.(classrooms := s.classrooms[s.nextId := c],
       schools := s.schools[c.school := s.schools[c.school].(classrooms := s.schools[c.school].classrooms + [s.nextId])],
       nextId := s.nextId + 1)
  }

  lemma AddClassroomLinked(s: ValidDb, c: Classroom)
    requires Linked(s) && c.school in s.schools && c.students == []
    ensures Linked(AddClassroom(s, c))
  {
    assert s.nextId !in s.classrooms;
  }

  lemma AddClassroomUnique(s: ValidDb, c: Classroom)
    requires Unique(s) && c.school in s.schools
    requires forall k :: k in s.classrooms && s.classrooms[k].school == c.school ==> s.classrooms[k].name != c.name
    ensures Unique(AddClassroom(s, c))
  {
    assert s.nextId !in s.classrooms;
    var s' := AddClassroom(s, c);
    assert forall k :: k in s'.schools ==> s'.schools[k].name == s.schools[k].name;
  }

  lemma AddClassroomRest(s: ValidDb, c: Classroom)
    requires AdminsExist(s) && KeysPresent(s) && c.school in s.schools && c.name != ""
    ensures AdminsExist(AddClassroom(s, c)) && KeysPresent(AddClassroom(s, c))
  {
  }

  lemma CreateClassroomPreservesInv(s: ValidDb, v: Validators, caller: Id, schoolId: Option<Id>, name: string)
    requires Inv(s)
    ensures Inv(CreateClassroom(s, v, caller, schoolId, name).store)
  {
    var r := CreateClassroom(s, v, caller, schoolId, name);
    if r.outcome.Ok? {
      var c := Classroom(name, schoolId.value, []);
      assert r.store == AddClassroom(s, c);
      AddClassroomLinked(s, c);
      AddClassroomUnique(s, c);
      AddClassroomRest(s, c);
    }
  }

  /** When `findOne({ name, school })` finds nothing but `q` itself, no other classroom of `school` has `name`. */
  lemma NoClashMeansFree(s: ValidDb, q: Id, name: string, school: Id)
    requires ClassroomNamesUnique(s) && q in s.classrooms && name != ""
    requires var c := ClassroomByName(s, name, Some(school)); c.None? || c.value == q
    ensures forall k :: k in s.classrooms && k != q && s.classrooms[k].school == school ==> s.classrooms[k].name != name
  {
    forall k | k in s.classrooms && k != q && s.classrooms[k].school == school
      ensures s.classrooms[k].name != name
    {
      if s.classrooms[k].name == name {
        assert ClassroomNameTaken(s, name, Some(school));
      }
    }
  }

  /** A rename that keeps the school and the students list. */
  lemma RenameInPlaceInv(s: ValidDb, q: Id, after: Classroom)
    requires Inv(s) && q in s.classrooms && after.name != ""
    requires after.school == s.classrooms[q].school && after.students == s.classrooms[q].students
    requires forall k :: k in s.classrooms && k != q && s.classrooms[k].school == after.school ==>
               s.classrooms[k].name != after.name
    ensures Inv(s.(classrooms := s.classrooms[q := after]))
  {
    var s' := s.(classrooms := s.classrooms[q := after]);
    RenameInPlaceLinked(s, q, after);
    RenameInPlaceUnique(s, q, after);
    AdminsExistFrame(s, s');
    RenameKeys(s, q, after);
  }

  lemma RenameInPlaceLinked(s: ValidDb, q: Id, after: Classroom)
    requires Linked(s) && q in s.classrooms
    requires after.school == s.classrooms[q].school && after.students == s.classrooms[q].students
    ensures Linked(s.(classrooms := s.classrooms[q := after]))
  {
  }

  lemma RenameInPlaceUnique(s: ValidDb, q: Id, after: Classroom)
    requires Unique(s) && q in s.classrooms
    requires forall k :: k in s.classrooms && k != q && s.classrooms[k].school == after.school ==>
               s.classrooms[k].name != after.name
    ensures Unique(s.(classrooms := s.classrooms[q := after]))
  {
  }

  lemma RenameKeys(s: ValidDb, q: Id, after: Classroom)
    requires KeysPresent(s) && q in s.classrooms && after.name != ""
    ensures KeysPresent(s.(classrooms := s.classrooms[q := after]))
  {
  }

  /** The store after moving classroom `q` to `after.school`: a push onto that school and a pull from the old one. */
  function Move(s: ValidDb, q: Id, after: Classroom): ValidDb
    requires q in s.classrooms
  {
    s.(classrooms := s.classrooms[q := after],
       schools := PullClassroom(PushClassroom(s.schools, Some(after.school), q), s.classrooms[q].school, q))
  }

  lemma MoveSchoolListsSound(s: ValidDb, q: Id, after: Classroom)
    requires SchoolListsSound(s) && q in s.classrooms
    requires after.school in s.schools && after.school != s.classrooms[q].school
    ensures SchoolListsSound(Move(s, q, after))
  {
    var s' := Move(s, q, after);
    var from := s.classrooms[q].school;
    forall sid, k | sid in s'.schools && k in s'.schools[sid].classrooms
      ensures k in s'.classrooms && s'.classrooms[k].school == sid
    {
      if sid == after.school {
        assert s'.schools[sid].classrooms == s.schools[sid].classrooms + [q];
      } else if sid == from {
        assert s'.schools[sid].classrooms == Pull(s.schools[sid].classrooms, q);
      } else {
        assert s'.schools[sid] == s.schools[sid];
      }
    }
  }

  lemma MoveClassroomsListed(s: ValidDb, q: Id, after: Classroom)
    requires ClassroomsListed(s) && q in s.classrooms
    requires after.school in s.schools && after.school != s.classrooms[q].school
    ensures ClassroomsListed(Move(s, q, after))
  {
    var s' := Move(s, q, after);
    var from := s.classrooms[q].school;
    forall k | k in s'.classrooms
      ensures s'.classrooms[k].school in s'.schools && k in s'.schools[s'.classrooms[k].school].classrooms
    {
      if k != q {
        var sid := s.classrooms[k].school;
        if sid == after.school {
          assert s'.schools[sid].classrooms == s.schools[sid].classrooms + [q];
        } else if sid == from {
          assert s'.schools[sid].classrooms == Pull(s.schools[sid].classrooms, q);
        } else {
          assert s'.schools[sid] == s.schools[sid];
        }
      } else {
        assert s'.schools[after.school].classrooms == s.schools[after.school].classrooms + [q];
      }
    }
  }

  lemma MoveStudentsLinked(s: ValidDb, q: Id, after: Classroom)
    requires ClassroomListsSound(s) && StudentsListed(s) && q in s.classrooms
    requires after.students == s.classrooms[q].students
    ensures ClassroomListsSound(Move(s, q, after)) && StudentsListed(Move(s, q, after))
  {
  }

  lemma MoveUnique(s: ValidDb, q: Id, after: Classroom)
    requires Unique(s) && q in s.classrooms
    requires forall k :: k in s.classrooms && k != q && s.classrooms[k].school == after.school ==>
               s.classrooms[k].name != after.name
    ensures Unique(Move(s, q, after))
  {
    var s' := Move(s, q, after);
    assert forall k :: k in s'.schools ==> s'.schools[k].name == s.schools[k].name;
  }

  lemma MoveRest(s: ValidDb, q: Id, after: Classroom)
    requires AdminsExist(s) && KeysPresent(s) && q in s.classrooms && after.name != ""
    ensures AdminsExist(Move(s, q, after)) && KeysPresent(Move(s, q, after))
  {
    var s' := Move(s, q, after);
    assert forall k :: k in s'.schools ==> s'.schools[k].admin == s.schools[k].admin;
  }

  lemma MoveInv(s: ValidDb, q: Id, after: Classroom)
    requires Inv(s) && q in s.classrooms && after.name != ""
    requires after.school in s.schools && after.school != s.classrooms[q].school
    requires after.students == s.classrooms[q].students
    requires forall k :: k in s.classrooms && k != q && s.classrooms[k].school == after.school ==>
               s.classrooms[k].name != after.name
    ensures Inv(Move(s, q, after))
  {
    MoveSchoolListsSound(s, q, after);
    MoveClassroomsListed(s, q, after);
    MoveStudentsLinked(s, q, after);
    MoveUnique(s, q, after);
    MoveRest(s, q, after);
  }

  /** With a school supplied, `updateClassroom` keeps the invariant. */
  lemma UpdateClassroomWithSchoolPreservesInv(s: ValidDb, v: Validators, caller: Id, id: Option<Id>,
                                               name: string, schoolId: Option<Id>)
    requires Inv(s) && schoolId.Some?
    ensures Inv(UpdateClassroom(s, v, caller, id, name, schoolId).store)
  {
    var r := UpdateClassroom(s, v, caller, id, name, schoolId);
    if r.outcome.Ok? {
      var q := id.value;
      var before := s.classrooms[q];
      var after := Renamed(before, name, schoolId);
      NoClashMeansFree(s, q, after.name, schoolId.value);
      if schoolId == Some(before.school) {
        RenameInPlaceInv(s, q, after);
      } else {
        assert r.store == Move(s, q, after);
        MoveInv(s, q, after);
      }
    }
  }

  /** The store after `deleteClassroom` removes `q` and pulls it from its school. */
  function Remove(s: ValidDb, q: Id): ValidDb
    requires q in s.classrooms
  {
    s.(classrooms := s.classrooms - {q}, schools := PullClassroom(s.schools, s.classrooms[q].school, q))
  }

  lemma RemoveSchoolListsSound(s: ValidDb, q: Id)
    requires SchoolListsSound(s) && q in s.classrooms
    ensures SchoolListsSound(Remove(s, q))
  {
    var s' := Remove(s, q);
    forall sid, k | sid in s'.schools && k in s'.schools[sid].classrooms
      ensures k in s'.classrooms && s'.classrooms[k].school == sid
    {
      if sid == s.classrooms[q].school {
        assert s'.schools[sid].classrooms == Pull(s.schools[sid].classrooms, q);
      } else {
        assert s'.schools[sid] == s.schools[sid];
      }
    }
  }

  lemma RemoveClassroomsListed(s: ValidDb, q: Id)
    requires ClassroomsListed(s) && q in s.classrooms
    ensures ClassroomsListed(Remove(s, q))
  {
    var s' := Remove(s, q);
    forall k | k in s'.classrooms
      ensures s'.classrooms[k].school in s'.schools && k in s'.schools[s'.classrooms[k].school].classrooms
    {
      var sid := s.classrooms[k].school;
      if sid == s.classrooms[q].school {
        assert s'.schools[sid].classrooms == Pull(s.schools[sid].classrooms, q);
      } else {
        assert s'.schools[sid] == s.schools[sid];
      }
    }
  }

  /** An empty students list means no student points at the classroom, so removing it strands no one. */
  lemma RemoveStudentsLinked(s: ValidDb, q: Id)
    requires ClassroomListsSound(s) && StudentsListed(s) && q in s.classrooms && s.classrooms[q].students == []
    ensures ClassroomListsSound(Remove(s, q)) && StudentsListed(Remove(s, q))
  {
    forall k | k in s.students
      ensures s.students[k].classroom != q
    {
      assert k in s.classrooms[s.students[k].classroom].students;
    }
  }

  lemma RemoveRest(s: ValidDb, q: Id)
    requires Unique(s) && AdminsExist(s) && KeysPresent(s) && q in s.classrooms
    ensures Unique(Remove(s, q)) && AdminsExist(Remove(s, q)) && KeysPresent(Remove(s, q))
  {
    var s' := Remove(s, q);
    assert forall k :: k in s'.schools ==> s'.schools[k].name == s.schools[k].name && s'.schools[k].admin == s.schools[k].admin;
  }

  lemma RemoveInv(s: ValidDb, q: Id)
    requires Inv(s) && q in s.classrooms && s.classrooms[q].students == []
    ensures Inv(Remove(s, q))
  {
    RemoveSchoolListsSound(s, q);
    RemoveClassroomsListed(s, q);
    RemoveStudentsLinked(s, q);
    RemoveRest(s, q);
  }

  lemma DeleteClassroomPreservesInv(s: ValidDb, v: Validators, caller: Id, id: Option<Id>)
    requires Inv(s)
    ensures Inv(DeleteClassroom(s, v, caller, id).store)
  {
    var r := DeleteClassroom(s, v, caller, id);
    if r.outcome.Ok? {
      RemoveInv(s, id.value);
    }
  }

  /** Deleting a classroom that was just created restores the store, the id counter aside. */
  lemma CreateThenDeleteClassroom(s: ValidDb, v: Validators, caller: Id, schoolId: Option<Id>, name: string)
    requires SchoolListsSound(s)
    requires CreateClassroom(s, v, caller, schoolId, name).outcome.Ok?
    requires v.deleteClassroom(IdFields(Some(s.nextId))).None?
    ensures DeleteClassroom(CreateClassroom(s, v, caller, schoolId, name).store, v, caller, Some(s.nextId))
            == Reply(Ok(Done(ClassroomDeleted)), s.(nextId := s.nextId + 1))
  {
    var s1 := CreateClassroom(s, v, caller, schoolId, name).store;
    var sid := schoolId.value;
    assert s.nextId !in s.classrooms;
    assert s.nextId !in s.schools[sid].classrooms;
    PullAppended(s.schools[sid].classrooms, s.nextId);
    assert s1.classrooms - {s.nextId} == s.classrooms;
    assert PullClassroom(s1.schools, sid, s.nextId) == s.schools;
  }

  /** The admin who has just created a classroom can read it back under the new id. */
  lemma CreateThenGetClassroom(s: ValidDb, v: Validators, caller: Id, schoolId: Option<Id>, name: string)
    requires AdminsExist(s)
    requires CreateClassroom(s, v, caller, schoolId, name).outcome.Ok?
    requires v.getClassroom(IdFields(Some(s.nextId))).None?
    ensures GetClassroom(CreateClassroom(s, v, caller, schoolId, name).store, v, caller, Some(s.nextId)).outcome
            == Ok(ClassroomDoc(s.nextId, Classroom(name, schoolId.value, [])))
  {
  }

  // ---------------------------------------------------------------------------
  // Defects of the code as written
  // ---------------------------------------------------------------------------

  /**
   * A rename without a school still takes the move branch: the classroom keeps
   * its school, but the pull takes it off that school's list.
   */
  lemma RenameWithoutSchoolDetaches(s: ValidDb, v: Validators, caller: Id, q: Id, name: string)
    requires UpdateClassroom(s, v, caller, Some(q), name, None).outcome.Ok?
    ensures var s' := UpdateClassroom(s, v, caller, Some(q), name, None).store;
            var sid := s.classrooms[q].school;
            && q in s'.classrooms && s'.classrooms[q].school == sid
            && sid in s'.schools && q !in s'.schools[sid].classrooms
            && !ClassroomsListed(s')
  {
  }

  /** A store holding one school (id 1, admin 0) with one classroom (id 2, "A"). */
  function OneClassroom(): ValidDb {
    Db(map[0 := User("admin", "admin@x.io", "$2b$10$hash", "admin")],
       map[1 := School("School One", "123 main street", "12345678", 0, [2])],
       map[2 := Classroom("A", 1, [])],
       map[],
       3)
  }

  lemma OneClassroomInv()
    ensures Inv(OneClassroom())
  {
    var s := OneClassroom();
    assert s.schools.Keys == {1} && s.classrooms.Keys == {2} && s.users.Keys == {0} && s.students.Keys == {};
  }

  /** Renaming classroom 2 to "B" by its school's admin succeeds and breaks the invariant. */
  lemma RenameBreaksInvExample()
    ensures Inv(OneClassroom())
    ensures UpdateClassroom(OneClassroom(), AcceptingValidators(), 0, Some(2), "B", None).outcome.Ok?
    ensures !Inv(UpdateClassroom(OneClassroom(), AcceptingValidators(), 0, Some(2), "B", None).store)
  {
    OneClassroomInv();
    var r := UpdateClassroom(OneClassroom(), AcceptingValidators(), 0, Some(2), "B", None);
    assert r.outcome.Ok?;
    RenameWithoutSchoolDetaches(OneClassroom(), AcceptingValidators(), 0, 2, "B");
  }

  /** `deleteClassroom` gives every caller the same answer and the same store. */
  lemma DeleteClassroomIgnoresCaller(s: ValidDb, v: Validators, a: Id, b: Id, id: Option<Id>)
    ensures DeleteClassroom(s, v, a, id) == DeleteClassroom(s, v, b, id)
  {
  }

  /** A caller who administers nothing deletes classroom 2 of school 1. */
  lemma StrangerDeletesClassroomExample()
    ensures !Administers(OneClassroom(), 7, 1)
    ensures DeleteClassroom(OneClassroom(), AcceptingValidators(), 7, Some(2)).outcome == Ok(Done(ClassroomDeleted))
  {
  }

  // ---------------------------------------------------------------------------
  // Corrected operations
  // ---------------------------------------------------------------------------

  /**
   * `updateClassroom` with the move condition corrected: the target school is
   * the supplied one, else the current one; the conflict check and the
   * push/pull use that target, and the lists move only when it differs.
   */
  function UpdateClassroomFixed(s: ValidDb, v: Validators, caller: Id, id: Option<Id>, name: string, schoolId: Option<Id>): (r: Reply)
    ensures r.outcome.Ok? ==>
              && id.Some? && id.value in s.classrooms
              && var before := s.classrooms[id.value];
                 && Administers(s, caller, before.school)
                 && r.outcome == Ok(ClassroomDoc(id.value, Renamed(before, name, schoolId)))
    ensures !r.outcome.Ok? ==> r.store == s
    ensures UpdateAllowed(s, v, caller, id, name, schoolId) ==>
              var target := Some(Renamed(s.classrooms[id.value], name, schoolId).school);
              && (Conflict(s, id.value, name, target).Some? ==> r == Fail(s, 409, ClassroomExistsInNewSchool))
              && (r.outcome.Ok? <==> Conflict(s, id.value, name, target).None?)
    ensures r.outcome.Ok? ==> UpdateAllowed(s, v, caller, id, name, schoolId)
  {
    if id.None? then Fail(s, 400, IdRequired)
    else if name == "" && schoolId.None? then Fail(s, 400, NoFields)
    else
      var errors := v.updateClassroom(ClassroomFields(name, schoolId));
      if errors.Some? then Rejected(s, errors.value)
      else if id.value !in s.classrooms then Fail(s, 404, ClassroomNotFound)
      else if schoolId.Some? && schoolId.value !in s.schools then Fail(s, 404, SchoolNotFound)
      else
        var q := id.value;
        var before := s.classrooms[q];
        if before.school !in s.schools then Reply(Fault, s)
        else if s.schools[before.school].admin != caller then Fail(s, 403, NotAdminOfCurrentSchool)
        else
          var after := Renamed(before, name, schoolId);
          if Conflict(s, q, name, Some(after.school)).Some? then Fail(s, 409, ClassroomExistsInNewSchool)
          else if after.school == before.school then
            Reply(Ok(ClassroomDoc(q, after)), s.(classrooms := s.classrooms[q := after]))
          else
            Reply(Ok(ClassroomDoc(q, after)), Move(s, q, after))
  }

  /** The corrected update differs from the code as written only when no school is supplied. */
  lemma UpdateClassroomFixedAgrees(s: ValidDb, v: Validators, caller: Id, id: Option<Id>, name: string, schoolId: Option<Id>)
    requires schoolId.Some?
    ensures UpdateClassroomFixed(s, v, caller, id, name, schoolId) == UpdateClassroom(s, v, caller, id, name, schoolId)
  {
  }

  lemma UpdateClassroomFixedPreservesInv(s: ValidDb, v: Validators, caller: Id, id: Option<Id>,
                                         name: string, schoolId: Option<Id>)
    requires Inv(s)
    ensures Inv(UpdateClassroomFixed(s, v, caller, id, name, schoolId).store)
  {
    var r := UpdateClassroomFixed(s, v, caller, id, name, schoolId);
    if r.outcome.Ok? {
      var q := id.value;
      var before := s.classrooms[q];
      var after := Renamed(before, name, schoolId);
      NoClashMeansFree(s, q, after.name, after.school);
      if after.school == before.school {
        RenameInPlaceInv(s, q, after);
      } else {
        MoveInv(s, q, after);
      }
    }
  }

  /** `deleteClassroom` with the ownership check the other capabilities make (403 before the 409). */
  function DeleteClassroomFixed(s: ValidDb, v: Validators, caller: Id, id: Option<Id>): (r: Reply)
    ensures r.outcome.Ok? ==>
              && id.Some? && id.value in s.classrooms
              && Administers(s, caller, s.classrooms[id.value].school)
              && r.store == DeleteClassroom(s, v, caller, id).store
    ensures !r.outcome.Ok? ==> r.store == s
    ensures v.deleteClassroom(IdFields(id)).None? && id.Some? && id.value in s.classrooms ==>
              && (!Administers(s, caller, s.classrooms[id.value].school) ==> r == Fail(s, 403, NotAdminOfSchool))
              && (r.outcome.Ok? <==> Administers(s, caller, s.classrooms[id.value].school) && s.classrooms[id.value].students == [])
  {
    var errors := v.deleteClassroom(IdFields(id));
    if errors.Some? then Rejected(s, errors.value)
    else if id.None? then Fail(s, 400, DeleteIdRequired)
    else if id.value !in s.classrooms then Fail(s, 404, ClassroomNotFound)
    else
      var c := s.classrooms[id.value];
      if c.school !in s.schools || s.schools[c.school].admin != caller then Fail(s, 403, NotAdminOfSchool)
      else DeleteClassroom(s, v, caller, id)
  }

  lemma DeleteClassroomFixedPreservesInv(s: ValidDb, v: Validators, caller: Id, id: Option<Id>)
    requires Inv(s)
    ensures Inv(DeleteClassroomFixed(s, v, caller, id).store)
  {
    DeleteClassroomPreservesInv(s, v, caller, id);
  }

  /** Under the correction the stranger of `StrangerDeletesClassroomExample` is refused and nothing is removed. */
  lemma FixedRefusesStrangerExample()
    ensures DeleteClassroomFixed(OneClassroom(), AcceptingValidators(), 7, Some(2)) == Fail(OneClassroom(), 403, NotAdminOfSchool)
  {
  }
}
