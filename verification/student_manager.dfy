/**
 * The student manager: `createStudent`, `updateStudent`, `getStudent` and
 * `deleteStudent`, which keep `Classroom.students` in step with
 * `Student.classroom` through `$push` / `$pull`. Every capability authorises
 * through the student's classroom: the caller must be the admin of that
 * classroom's school.
 */
module StudentManager {
  import opened Wrappers
  import opened Store
  import opened Invariants
  import opened Capability

  const EmailExists := "A student with this email already exists"
  const ClassroomNotFound := "Classroom not found"
  const NotAdminOfClassroomSchool := "Forbidden, you are not the admin of the school associated with this classroom"
  const IdRequired := "Id must be provided"
  const StudentNotFound := "Student not found"
  const NotAdminOfStudentSchool := "Forbidden, you are not the admin of the school associated with this student"
  const IdOrNameRequired := "Either 'id' or 'name' must be provided"
  const IdOrEmailRequired := "Either 'id' or 'email' must be provided"
  const StudentDeleted := "Student successfully deleted"

  /** JavaScript truthiness of an optional number: present and not zero. */
  predicate Truthy(age: Option<int>) {
    age.Some? && age.value != 0
  }

  /** The record `createStudent` validates and stores. */
  function StudentFields(name: string, email: string, age: Option<int>, classroom: Option<Id>): Fields {
    WithRef(WithText(WithNumber(WithText(map[], "name", name), "age", age), "email", email), "classroom", classroom)
  }

  /** The record `updateStudent` validates: the id and the truthy fields only. */
  function UpdateFields(id: Option<Id>, name: string, email: string, age: Option<int>, classroom: Option<Id>): Fields {
    WithRef(WithNumber(WithText(WithText(WithRef(map[], "id", id), "name", name), "email", email),
                       "age", if Truthy(age) then age else None),
            "classroom", classroom)
  }

  /** The record `getStudent` validates. */
  function LookupFields(id: Option<Id>, email: string): Fields {
    WithText(WithRef(map[], "id", id), "email", email)
  }

  /** Reading the school of classroom `cid` throws: the classroom or its school is gone. */
  ghost predicate Orphaned(s: ValidDb, cid: Id) {
    cid !in s.classrooms || s.classrooms[cid].school !in s.schools
  }

  /** The store after `createStudent`: `st` under the next id, pushed onto its classroom. */
  function AddStudent(s: ValidDb, st: Student): ValidDb
    requires st.classroom in s.classrooms
  {
    s.(students := s.students[s.nextId := st],
       classrooms := s.classrooms[st.classroom := s.classrooms[st.classroom].(students := s.classrooms[st.classroom].students + [s.nextId])],
       nextId := s.nextId + 1)
  }

  /**
   * `createStudent`: validation (400), email already used (409, before the
   * classroom is looked up), unknown classroom (404), caller not admin of the
   * classroom's school (403); `create` throws when a required field is absent.
   */
  function CreateStudent(s: ValidDb, v: Validators, caller: Id, classroomId: Option<Id>,
                         name: string, email: string, age: Option<int>): (r: Reply)
    ensures v.createStudent(StudentFields(name, email, age, classroomId)).Some? ==>
              r == Rejected(s, v.createStudent(StudentFields(name, email, age, classroomId)).value)
    ensures v.createStudent(StudentFields(name, email, age, classroomId)).None? ==>
              && (StudentEmailTaken(s, email) ==> r == Fail(s, 409, EmailExists))
              && (!StudentEmailTaken(s, email) && (classroomId.None? || classroomId.value !in s.classrooms) ==>
                    r == Fail(s, 404, ClassroomNotFound))
              && ((!StudentEmailTaken(s, email) && classroomId.Some? && classroomId.value in s.classrooms &&
                   !Orphaned(s, classroomId.value) && !Manages(s, caller, classroomId.value)) ==>
                    r == Fail(s, 403, NotAdminOfClassroomSchool))
    ensures r.outcome.Fault? ==>
              classroomId.Some? && (Orphaned(s, classroomId.value) || name == "" || email == "" || age.None?)
    ensures r.outcome.Ok? <==>
              && v.createStudent(StudentFields(name, email, age, classroomId)).None?
              && !StudentEmailTaken(s, email)
              && classroomId.Some? && Manages(s, caller, classroomId.value)
              && name != "" && email != "" && age.Some?
    ensures r.outcome.Ok? ==>
              var st := Student(name, email, age.value, classroomId.value);
              && st.classroom in s.classrooms
              && r.outcome == Ok(StudentDoc(s.nextId, st))
              && r.store == AddStudent(s, st)
    ensures !r.outcome.Ok? ==> r.store == s
  {
    var errors := v.createStudent(StudentFields(name, email, age, classroomId));
    if errors.Some? then Rejected(s, errors.value)
    else if StudentByEmail(s, email).Some? then Fail(s, 409, EmailExists)
    else if classroomId.None? || classroomId.value !in s.classrooms then Fail(s, 404, ClassroomNotFound)
    else
      var c := s.classrooms[classroomId.value];
      // the school lookup yields null when the school is gone: reading its admin throws
      if c.school !in s.schools then Reply(Fault, s)
      else if s.schools[c.school].admin != caller then Fail(s, 403, NotAdminOfClassroomSchool)
      // the model's required fields
      else if name == "" || email == "" || age.None? then Reply(Fault, s)
      else
        var st := Student(name, email, age.value, classroomId.value);
        Reply(Ok(StudentDoc(s.nextId, st)), AddStudent(s, st))
  }

  /** The student after `updateStudent`'s update: each truthy field replaces the stored one. */
  function Edited(st: Student, name: string, email: string, age: Option<int>, classroomId: Option<Id>): Student {
    Student(
      if name != "" then name else st.name,
      if email != "" then email else st.email,
      if Truthy(age) then age.value else st.age,
      if classroomId.Some? then classroomId.value else st.classroom)
  }

  /** The store after moving student `k` to `classroomId`: a push onto it (absent or unknown: nothing) and a pull from the old one. */
  function Relist(s: ValidDb, k: Id, after: Student, classroomId: Option<Id>): ValidDb
    requires k in s.students
  {
    s.(students := s.students[k := after],
       classrooms := PullStudent(PushStudent(s.classrooms, classroomId, k), s.students[k].classroom, k))
  }

  /**
   * `updateStudent` as written. Guards: missing id (400), validation (400),
   * unknown student (404), a changed email already used (409), caller not admin
   * of the current classroom's school (403). The truthy fields are written, and
   * whenever the supplied classroom is not the current one, which includes no
   * classroom being supplied, the student is pushed onto the supplied classroom
   * and pulled from the current one. The supplied classroom is never looked up.
   */
  function UpdateStudent(s: ValidDb, v: Validators, caller: Id, id: Option<Id>,
                         name: string, email: string, age: Option<int>, classroomId: Option<Id>): (r: Reply)
    ensures id.None? ==> r == Fail(s, 400, IdRequired)
    ensures id.Some? ==>
              && (v.updateStudent(UpdateFields(id, name, email, age, classroomId)).Some? ==>
                    r == Rejected(s, v.updateStudent(UpdateFields(id, name, email, age, classroomId)).value))
              && (v.updateStudent(UpdateFields(id, name, email, age, classroomId)).None? && id.value !in s.students ==>
                    r == Fail(s, 404, StudentNotFound))
              && ((v.updateStudent(UpdateFields(id, name, email, age, classroomId)).None? && id.value in s.students &&
                   email != s.students[id.value].email && StudentEmailTaken(s, email)) ==>
                    r == Fail(s, 409, EmailExists))
    ensures r.outcome.Fault? ==> id.Some? && id.value in s.students && Orphaned(s, s.students[id.value].classroom)
    ensures (&& id.Some? && v.updateStudent(UpdateFields(id, name, email, age, classroomId)).None?
             && id.value in s.students
             && !(email != s.students[id.value].email && StudentEmailTaken(s, email))) ==>
              var cid := s.students[id.value].classroom;
              && (!Orphaned(s, cid) && !Manages(s, caller, cid) ==> r == Fail(s, 403, NotAdminOfStudentSchool))
              && (r.outcome.Ok? <==> Manages(s, caller, cid))
    ensures r.outcome.Ok? ==>
              && id.Some? && id.value in s.students
              && var k := id.value;
                 var st := s.students[k];
                 var after := Edited(st, name, email, age, classroomId);
                 && Manages(s, caller, st.classroom)
                 && (email != "" && email != st.email ==> !StudentEmailTaken(s, email))
                 && r.outcome == Ok(StudentDoc(k, after))
                 && (classroomId == Some(st.classroom) ==> r.store == s.(students := s.students[k := after]))
                 && (classroomId != Some(st.classroom) ==> r.store == Relist(s, k, after, classroomId))
    ensures !r.outcome.Ok? ==> r.store == s
  {
    if id.None? then Fail(s, 400, IdRequired)
    else
      var errors := v.updateStudent(UpdateFields(id, name, email, age, classroomId));
      if errors.Some? then Rejected(s, errors.value)
      else if id.value !in s.students then Fail(s, 404, StudentNotFound)
      else
        var k := id.value;
        var st := s.students[k];
        if email != "" && email != st.email && StudentByEmail(s, email).Some? then Fail(s, 409, EmailExists)
        // the classroom or school lookup yields null: dereferencing it throws
        else if st.classroom !in s.classrooms || s.classrooms[st.classroom].school !in s.schools then Reply(Fault, s)
        else if s.schools[s.classrooms[st.classroom].school].admin != caller then Fail(s, 403, NotAdminOfStudentSchool)
        else
          var after := Edited(st, name, email, age, classroomId);
          if classroomId == Some(st.classroom) then Reply(Ok(StudentDoc(k, after)), s.(students := s.students[k := after]))
          else Reply(Ok(StudentDoc(k, after)), Relist(s, k, after, classroomId))
  }

  /** The student `getStudent` and `deleteStudent` act on: by id when one is given, else by email. */
  function Target(s: ValidDb, id: Option<Id>, email: string, ignoreCase: bool): (r: Option<Id>)
    ensures r.Some? ==> r.value in s.students
    ensures id.Some? ==> (r.Some? <==> id.value in s.students) && (r.Some? ==> r.value == id.value)
    ensures id.None? && !ignoreCase ==> (r.None? <==> !StudentEmailTaken(s, email)) && (r.Some? ==> s.students[r.value].email == email)
    ensures id.None? && ignoreCase ==> (r.None? <==> !StudentEmailMatches(s, email)) && (r.Some? ==> SameIgnoringCase(s.students[r.value].email, email))
  {
    if id.Some? then (if id.value in s.students then id else None)
    else if ignoreCase then StudentByEmailIgnoringCase(s, email)
    else StudentByEmail(s, email)
  }

  /**
   * `getStudent`: validation (400); by id, else by email ignoring case, else
   * 400; not found (404); caller not admin of the student's school (403). The
   * store never changes.
   */
  function GetStudent(s: ValidDb, v: Validators, caller: Id, id: Option<Id>, email: string): (r: Reply)
    ensures r.store == s
    ensures v.getStudent(LookupFields(id, email)).Some? ==>
              r.outcome == Err(400, Invalid(v.getStudent(LookupFields(id, email)).value))
    ensures v.getStudent(LookupFields(id, email)).None? ==>
              && (id.None? && email == "" ==> r.outcome == Err(400, Says(IdOrNameRequired)))
              && (id.Some? && id.value !in s.students ==> r.outcome == Err(404, Says(StudentNotFound)))
              && (id.None? && email != "" && !StudentEmailMatches(s, email) ==> r.outcome == Err(404, Says(StudentNotFound)))
    ensures r.outcome.Ok? ==>
              && r.outcome.payload.StudentDoc?
              && var k := r.outcome.payload.studentId;
                 && k in s.students && r.outcome.payload.student == s.students[k]
                 && (id.Some? ==> k == id.value)
                 && (id.None? ==> SameIgnoringCase(s.students[k].email, email))
                 && Manages(s, caller, s.students[k].classroom)
    ensures r.outcome.Fault? ==>
              exists k :: k in s.students && Orphaned(s, s.students[k].classroom)
    ensures (&& v.getStudent(LookupFields(id, email)).None? && (id.Some? || email != "")
             && Target(s, id, email, true).Some? && !Orphaned(s, s.students[Target(s, id, email, true).value].classroom)) ==>
              && (r.outcome.Ok? <==> Manages(s, caller, s.students[Target(s, id, email, true).value].classroom))
              && (!Manages(s, caller, s.students[Target(s, id, email, true).value].classroom) ==>
                    r.outcome == Err(403, Says(NotAdminOfStudentSchool)))
  {
    var errors := v.getStudent(LookupFields(id, email));
    if errors.Some? then Rejected(s, errors.value)
    else if id.None? && email == "" then Fail(s, 400, IdOrNameRequired)
    else match Target(s, id, email, true)
      case None => Fail(s, 404, StudentNotFound)
      case Some(k) =>
        var st := s.students[k];
        if st.classroom !in s.classrooms || s.classrooms[st.classroom].school !in s.schools then Reply(Fault, s)
        else if s.schools[s.classrooms[st.classroom].school].admin != caller then Fail(s, 403, NotAdminOfStudentSchool)
        else Reply(Ok(StudentDoc(k, st)), s)
  }

  /** The store after `deleteStudent`: the student removed and pulled from its classroom. */
  function RemoveStudent(s: ValidDb, k: Id): ValidDb
    requires k in s.students
  {
    s.(students := s.students - {k}, classrooms := PullStudent(s.classrooms, s.students[k].classroom, k))
  }

  /**
   * `deleteStudent`: by id, else by exact email, else 400; not found (404);
   * caller not admin of the student's school (403); then the student is removed
   * and pulled from its classroom.
   */
  function DeleteStudent(s: ValidDb, caller: Id, id: Option<Id>, email: string): (r: Reply)
    ensures id.None? && email == "" ==> r == Fail(s, 400, IdOrEmailRequired)
    ensures id.Some? && id.value !in s.students ==> r == Fail(s, 404, StudentNotFound)
    ensures id.None? && email != "" && !StudentEmailTaken(s, email) ==> r == Fail(s, 404, StudentNotFound)
    ensures r.outcome.Fault? ==> exists k :: k in s.students && Orphaned(s, s.students[k].classroom)
    ensures r.outcome.Ok? ==>
              exists k ::
                && k in s.students
                && (id.Some? ==> k == id.value)
                && (id.None? ==> s.students[k].email == email)
                && Manages(s, caller, s.students[k].classroom)
                && r == Reply(Ok(Done(StudentDeleted)), RemoveStudent(s, k))
    ensures !r.outcome.Ok? ==> r.store == s
    ensures (&& (id.Some? || email != "") && Target(s, id, email, false).Some?
             && !Orphaned(s, s.students[Target(s, id, email, false).value].classroom)) ==>
              && (r.outcome.Ok? <==> Manages(s, caller, s.students[Target(s, id, email, false).value].classroom))
              && (!Manages(s, caller, s.students[Target(s, id, email, false).value].classroom) ==>
                    r == Fail(s, 403, NotAdminOfStudentSchool))
  {
    if id.None? && email == "" then Fail(s, 400, IdOrEmailRequired)
    else match Target(s, id, email, false)
      case None => Fail(s, 404, StudentNotFound)
      case Some(k) =>
        var st := s.students[k];
        if st.classroom !in s.classrooms || s.classrooms[st.classroom].school !in s.schools then Reply(Fault, s)
        else if s.schools[s.classrooms[st.classroom].school].admin != caller then Fail(s, 403, NotAdminOfStudentSchool)
        else Reply(Ok(Done(StudentDeleted)), RemoveStudent(s, k))
  }

  // ---------------------------------------------------------------------------
  // Store transitions that keep the invariant
  // ---------------------------------------------------------------------------

  /** A write that touches students and the classrooms' `students` lists only. */
  ghost predicate ClassroomsKept(s: ValidDb, s': ValidDb) {
    && s'.users == s.users && s'.schools == s.schools
    && s'.classrooms.Keys == s.classrooms.Keys
    && forall c :: c in s.classrooms ==>
         s'.classrooms[c].name == s.classrooms[c].name && s'.classrooms[c].school == s.classrooms[c].school
  }

  /** What such a write cannot disturb: the school side of the references and every non-student rule. */
  lemma ClassroomsKeptFrame(s: ValidDb, s': ValidDb)
    requires Inv(s) && ClassroomsKept(s, s')
    ensures SchoolListsSound(s') && ClassroomsListed(s')
    ensures SchoolNamesUnique(s') && UserEmailsUnique(s') && ClassroomNamesUnique(s') && AdminsExist(s')
    ensures forall c :: c in s'.classrooms ==> s'.classrooms[c].name != ""
  {
  }

  /** The student-side rules; with `ClassroomsKeptFrame` they make up `Inv`. */
  ghost predicate StudentSide(s: ValidDb) {
    && ClassroomListsSound(s) && StudentsListed(s) && StudentEmailsUnique(s)
    && forall k :: k in s.students ==> s.students[k].email != ""
  }

  lemma Reassemble(s: ValidDb, s': ValidDb)
    requires Inv(s) && ClassroomsKept(s, s') && StudentSide(s')
    ensures Inv(s')
  {
    ClassroomsKeptFrame(s, s');
  }

  /** No student other than `k` has `email`. */
  ghost predicate EmailFree(s: ValidDb, k: Id, email: string) {
    forall j :: j in s.students && j != k ==> s.students[j].email != email
  }

  lemma AddStudentSide(s: ValidDb, st: Student)
    requires StudentSide(s) && st.classroom in s.classrooms && st.email != "" && EmailFree(s, s.nextId, st.email)
    ensures StudentSide(AddStudent(s, st))
  {
    var s' := AddStudent(s, st);
    var n := s.nextId;
    assert n !in s.students;
    forall cid, j | cid in s'.classrooms && j in s'.classrooms[cid].students
      ensures j in s'.students && s'.students[j].classroom == cid
    {
      if cid == st.classroom {
        assert s'.classrooms[cid].students == s.classrooms[cid].students + [n];
      }
    }
    forall j | j in s'.students
      ensures s'.students[j].classroom in s'.classrooms && j in s'.classrooms[s'.students[j].classroom].students
    {
      if j != n && s.students[j].classroom == st.classroom {
        assert s'.classrooms[st.classroom].students == s.classrooms[st.classroom].students + [n];
      }
    }
  }

  lemma CreateStudentPreservesInv(s: ValidDb, v: Validators, caller: Id, classroomId: Option<Id>,
                                  name: string, email: string, age: Option<int>)
    requires Inv(s)
    ensures Inv(CreateStudent(s, v, caller, classroomId, name, email, age).store)
  {
    var r := CreateStudent(s, v, caller, classroomId, name, email, age);
    if r.outcome.Ok? {
      var st := Student(name, email, age.value, classroomId.value);
      AddStudentSide(s, st);
      Reassemble(s, r.store);
    }
  }

  lemma EditInPlaceSide(s: ValidDb, k: Id, after: Student)
    requires StudentSide(s) && k in s.students && after.classroom == s.students[k].classroom
    requires after.email != "" && EmailFree(s, k, after.email)
    ensures StudentSide(s.(students := s.students[k := after]))
  {
  }

  lemma RelistSide(s: ValidDb, k: Id, after: Student)
    requires StudentSide(s) && k in s.students && after.classroom in s.classrooms
    requires after.classroom != s.students[k].classroom
    requires after.email != "" && EmailFree(s, k, after.email)
    ensures StudentSide(Relist(s, k, after, Some(after.classroom)))
  {
    var s' := Relist(s, k, after, Some(after.classroom));
    var from := s.students[k].classroom;
    var t := after.classroom;
    forall cid, j | cid in s'.classrooms && j in s'.classrooms[cid].students
      ensures j in s'.students && s'.students[j].classroom == cid
    {
      if cid == t {
        assert s'.classrooms[cid].students == s.classrooms[cid].students + [k];
      } else if cid == from {
        assert s'.classrooms[cid].students == Pull(s.classrooms[cid].students, k);
      } else {
        assert s'.classrooms[cid] == s.classrooms[cid];
      }
    }
    forall j | j in s'.students
      ensures s'.students[j].classroom in s'.classrooms && j in s'.classrooms[s'.students[j].classroom].students
    {
      var c := s'.students[j].classroom;
      if c == t {
        assert s'.classrooms[c].students == s.classrooms[c].students + [k];
      } else if c == from {
        assert s'.classrooms[c].students == Pull(s.classrooms[c].students, k);
      } else {
        assert s'.classrooms[c] == s.classrooms[c];
      }
    }
  }

  lemma RelistKept(s: ValidDb, k: Id, after: Student, classroomId: Option<Id>)
    requires k in s.students
    ensures ClassroomsKept(s, Relist(s, k, after, classroomId))
  {
  }

  /** The edited email is the stored one or one no student has, so it is free. */
  lemma EditedEmailFree(s: ValidDb, k: Id, name: string, email: string, age: Option<int>, classroomId: Option<Id>)
    requires StudentEmailsUnique(s) && k in s.students
    requires email != "" && email != s.students[k].email ==> !StudentEmailTaken(s, email)
    ensures EmailFree(s, k, Edited(s.students[k], name, email, age, classroomId).email)
  {
  }

  /** With a stored classroom supplied, `updateStudent` keeps the invariant. */
  lemma UpdateStudentKnownClassroomPreservesInv(s: ValidDb, v: Validators, caller: Id, id: Option<Id>,
                                                name: string, email: string, age: Option<int>, classroomId: Option<Id>)
    requires Inv(s) && classroomId.Some? && classroomId.value in s.classrooms
    ensures Inv(UpdateStudent(s, v, caller, id, name, email, age, classroomId).store)
  {
    var r := UpdateStudent(s, v, caller, id, name, email, age, classroomId);
    if r.outcome.Ok? {
      var k := id.value;
      var after := Edited(s.students[k], name, email, age, classroomId);
      EditedEmailFree(s, k, name, email, age, classroomId);
      if classroomId == Some(s.students[k].classroom) {
        EditInPlaceSide(s, k, after);
      } else {
        RelistSide(s, k, after);
        RelistKept(s, k, after, classroomId);
      }
      Reassemble(s, r.store);
    }
  }

  lemma RemoveStudentLists(s: ValidDb, k: Id)
    requires ClassroomListsSound(s) && k in s.students
    ensures ClassroomListsSound(RemoveStudent(s, k))
  {
    var s' := RemoveStudent(s, k);
    var from := s.students[k].classroom;
    forall cid, j | cid in s'.classrooms && j in s'.classrooms[cid].students
      ensures j in s'.students && s'.students[j].classroom == cid
    {
      assert cid in s.classrooms;
      if cid == from {
        assert s'.classrooms[cid].students == Pull(s.classrooms[cid].students, k);
        assert j in s.classrooms[cid].students && j != k;
      } else {
        assert s'.classrooms[cid] == s.classrooms[cid];
        assert j in s.classrooms[cid].students;
        assert s.students[j].classroom == cid != s.students[k].classroom;
      }
      assert j in s.students && j != k;
      assert s'.students[j] == s.students[j];
    }
  }

  lemma RemoveStudentListed(s: ValidDb, k: Id)
    requires StudentsListed(s) && k in s.students
    ensures StudentsListed(RemoveStudent(s, k))
  {
    var s' := RemoveStudent(s, k);
    var from := s.students[k].classroom;
    forall j | j in s'.students
      ensures j in s'.classrooms[s'.students[j].classroom].students
    {
      var c := s'.students[j].classroom;
      if c == from {
        assert s'.classrooms[c].students == Pull(s.classrooms[c].students, k);
      } else {
        assert s'.classrooms[c] == s.classrooms[c];
      }
    }
  }

  lemma RemoveStudentSide(s: ValidDb, k: Id)
    requires StudentSide(s) && k in s.students
    ensures StudentSide(RemoveStudent(s, k)) && ClassroomsKept(s, RemoveStudent(s, k))
  {
    RemoveStudentLists(s, k);
    RemoveStudentListed(s, k);
  }

  lemma DeleteStudentPreservesInv(s: ValidDb, caller: Id, id: Option<Id>, email: string)
    requires Inv(s)
    ensures Inv(DeleteStudent(s, caller, id, email).store)
  {
    var r := DeleteStudent(s, caller, id, email);
    if r.outcome.Ok? {
      var k := Target(s, id, email, false).value;
      RemoveStudentSide(s, k);
      Reassemble(s, r.store);
    }
  }

  /** Deleting a student who was just created restores the store, the id counter aside. */
  lemma CreateThenDeleteStudent(s: ValidDb, v: Validators, caller: Id, classroomId: Option<Id>,
                                name: string, email: string, age: Option<int>)
    requires ClassroomListsSound(s)
    requires CreateStudent(s, v, caller, classroomId, name, email, age).outcome.Ok?
    ensures DeleteStudent(CreateStudent(s, v, caller, classroomId, name, email, age).store, caller, Some(s.nextId), "")
            == Reply(Ok(Done(StudentDeleted)), s.(nextId := s.nextId + 1))
  {
    var s1 := CreateStudent(s, v, caller, classroomId, name, email, age).store;
    var cid := classroomId.value;
    assert s.nextId !in s.students;
    assert s.nextId !in s.classrooms[cid].students;
    PullAppended(s.classrooms[cid].students, s.nextId);
    assert s1.students - {s.nextId} == s.students;
    assert PullStudent(s1.classrooms, cid, s.nextId) == s.classrooms;
  }

  /** With every student's classroom and school stored, reading, updating or deleting a student never throws. */
  lemma StudentCapabilitiesNeverFault(s: ValidDb, v: Validators, caller: Id, id: Option<Id>,
                                      name: string, email: string, age: Option<int>, classroomId: Option<Id>)
    requires StudentsListed(s) && ClassroomsListed(s)
    ensures !GetStudent(s, v, caller, id, email).outcome.Fault?
    ensures !UpdateStudent(s, v, caller, id, name, email, age, classroomId).outcome.Fault?
    ensures !DeleteStudent(s, caller, id, email).outcome.Fault?
  {
  }

  // ---------------------------------------------------------------------------
  // Defects of the code as written
  // ---------------------------------------------------------------------------

  /**
   * An update without a classroom still takes the move branch: the push has no
   * target, the pull takes the student off its classroom's list, and the
   * student keeps pointing at that classroom.
   */
  lemma UpdateWithoutClassroomDetaches(s: ValidDb, v: Validators, caller: Id, k: Id,
                                       name: string, email: string, age: Option<int>)
    requires UpdateStudent(s, v, caller, Some(k), name, email, age, None).outcome.Ok?
    ensures var s' := UpdateStudent(s, v, caller, Some(k), name, email, age, None).store;
            var c := s.students[k].classroom;
            && k in s'.students && s'.students[k].classroom == c
            && c in s'.classrooms && k !in s'.classrooms[c].students
            && !StudentsListed(s')
  {
  }

  /** An update to a classroom that does not exist succeeds and leaves the student pointing at nothing. */
  lemma UpdateToUnknownClassroomStrands(s: ValidDb, v: Validators, caller: Id, k: Id,
                                        name: string, email: string, age: Option<int>, t: Id)
    requires t !in s.classrooms
    requires UpdateStudent(s, v, caller, Some(k), name, email, age, Some(t)).outcome.Ok?
    ensures var s' := UpdateStudent(s, v, caller, Some(k), name, email, age, Some(t)).store;
            && k in s'.students && s'.students[k].classroom == t && t !in s'.classrooms
            && !StudentsListed(s')
  {
  }

  /**
   * Two schools (2, admin 0; 3, admin 1), one classroom each (4 in school 2,
   * 5 in school 3) and one student (6) in classroom 4.
   */
  function TwoSchools(): ValidDb {
    Db(map[0 := User("admin0", "a0@x.io", "$2b$10$hash0", "admin"), 1 := User("admin1", "a1@x.io", "$2b$10$hash1", "admin")],
       map[2 := School("School Two", "2 main street", "22222222", 0, [4]),
           3 := School("School Three", "3 main street", "33333333", 1, [5])],
       map[4 := Classroom("A", 2, [6]), 5 := Classroom("B", 3, [])],
       map[6 := Student("Ann", "ann@x.io", 10, 4)],
       7)
  }

  lemma TwoSchoolsLinked()
    ensures Linked(TwoSchools())
  {
    var s := TwoSchools();
    assert s.schools.Keys == {2, 3} && s.classrooms.Keys == {4, 5} && s.students.Keys == {6};
  }

  lemma TwoSchoolsUnique()
    ensures Unique(TwoSchools()) && AdminsExist(TwoSchools()) && KeysPresent(TwoSchools())
  {
    var s := TwoSchools();
    assert s.users.Keys == {0, 1} && s.schools.Keys == {2, 3} && s.classrooms.Keys == {4, 5} && s.students.Keys == {6};
  }

  lemma TwoSchoolsInv()
    ensures Inv(TwoSchools())
  {
    TwoSchoolsLinked();
    TwoSchoolsUnique();
  }

  /** Renaming student 6 without a classroom: the admin's call succeeds and breaks the invariant. */
  lemma RenameStudentBreaksInvExample()
    ensures Inv(TwoSchools())
    ensures UpdateStudent(TwoSchools(), AcceptingValidators(), 0, Some(6), "Bea", "", None, None).outcome.Ok?
    ensures !Inv(UpdateStudent(TwoSchools(), AcceptingValidators(), 0, Some(6), "Bea", "", None, None).store)
  {
    TwoSchoolsInv();
    UpdateWithoutClassroomDetaches(TwoSchools(), AcceptingValidators(), 0, 6, "Bea", "", None);
  }

  /** Moving student 6 to classroom 9, which does not exist: the call succeeds and breaks the invariant. */
  lemma MoveToUnknownClassroomExample()
    ensures UpdateStudent(TwoSchools(), AcceptingValidators(), 0, Some(6), "", "", None, Some(9)).outcome.Ok?
    ensures !Inv(UpdateStudent(TwoSchools(), AcceptingValidators(), 0, Some(6), "", "", None, Some(9)).store)
  {
    UpdateToUnknownClassroomStrands(TwoSchools(), AcceptingValidators(), 0, 6, "", "", None, 9);
  }

  /** The admin of school 2 moves student 6 into classroom 5 of school 3, which they do not administer. */
  lemma MoveIntoForeignSchoolExample()
    ensures !Manages(TwoSchools(), 0, 5)
    ensures var r := UpdateStudent(TwoSchools(), AcceptingValidators(), 0, Some(6), "", "", None, Some(5));
            && r.outcome.Ok?
            && r.store.students[6].classroom == 5
            && 6 in r.store.classrooms[5].students
  {
  }

  // ---------------------------------------------------------------------------
  // Corrected update
  // ---------------------------------------------------------------------------

  /**
   * `updateStudent` with the move corrected: the lists change only when a
   * classroom is supplied and differs from the current one, and that classroom
   * must exist (404) and belong to a school the caller administers (403).
   */
  function UpdateStudentFixed(s: ValidDb, v: Validators, caller: Id, id: Option<Id>,
                              name: string, email: string, age: Option<int>, classroomId: Option<Id>): (r: Reply)
    ensures r.outcome.Ok? ==>
              && id.Some? && id.value in s.students
              && var st := s.students[id.value];
                 var after := Edited(st, name, email, age, classroomId);
                 && Manages(s, caller, st.classroom)
                 && Manages(s, caller, after.classroom)
                 && r.outcome == Ok(StudentDoc(id.value, after))
                 && (email != "" && email != st.email ==> !StudentEmailTaken(s, email))
    ensures classroomId.Some? && classroomId.value !in s.classrooms ==> !r.outcome.Ok?
    ensures !r.outcome.Ok? ==> r.store == s
    ensures (&& id.Some? && v.updateStudent(UpdateFields(id, name, email, age, classroomId)).None?
             && id.value in s.students
             && !(email != s.students[id.value].email && StudentEmailTaken(s, email))
             && Manages(s, caller, s.students[id.value].classroom)) ==>
              var st := s.students[id.value];
              var after := Edited(st, name, email, age, classroomId);
              var stays := classroomId.None? || classroomId.value == st.classroom;
              && (stays ==> r == Reply(Ok(StudentDoc(id.value, after)), s.(students := s.students[id.value := after])))
              && (!stays && classroomId.value !in s.classrooms ==> r == Fail(s, 404, ClassroomNotFound))
              && (!stays && classroomId.value in s.classrooms && !Manages(s, caller, classroomId.value) ==>
                    r == Fail(s, 403, NotAdminOfClassroomSchool))
              && (!stays && Manages(s, caller, classroomId.value) ==>
                    r == Reply(Ok(StudentDoc(id.value, after)), Relist(s, id.value, after, classroomId)))
  {
    if id.None? then Fail(s, 400, IdRequired)
    else
      var errors := v.updateStudent(UpdateFields(id, name, email, age, classroomId));
      if errors.Some? then Rejected(s, errors.value)
      else if id.value !in s.students then Fail(s, 404, StudentNotFound)
      else
        var k := id.value;
        var st := s.students[k];
        if email != "" && email != st.email && StudentByEmail(s, email).Some? then Fail(s, 409, EmailExists)
        else if st.classroom !in s.classrooms || s.classrooms[st.classroom].school !in s.schools then Reply(Fault, s)
        else if s.schools[s.classrooms[st.classroom].school].admin != caller then Fail(s, 403, NotAdminOfStudentSchool)
        else if classroomId.None? || classroomId.value == st.classroom then
          var after := Edited(st, name, email, age, classroomId);
          Reply(Ok(StudentDoc(k, after)), s.(students := s.students[k := after]))
        else if classroomId.value !in s.classrooms then Fail(s, 404, ClassroomNotFound)
        else if s.classrooms[classroomId.value].school !in s.schools ||
                s.schools[s.classrooms[classroomId.value].school].admin != caller then
          Fail(s, 403, NotAdminOfClassroomSchool)
        else
          var after := Edited(st, name, email, age, classroomId);
          Reply(Ok(StudentDoc(k, after)), Relist(s, k, after, classroomId))
  }

  /** The correction changes nothing for a move into a classroom the caller manages. */
  lemma UpdateStudentFixedAgrees(s: ValidDb, v: Validators, caller: Id, id: Option<Id>,
                                 name: string, email: string, age: Option<int>, classroomId: Option<Id>)
    requires classroomId.Some? && Manages(s, caller, classroomId.value)
    ensures UpdateStudentFixed(s, v, caller, id, name, email, age, classroomId)
            == UpdateStudent(s, v, caller, id, name, email, age, classroomId)
  {
  }

  lemma UpdateStudentFixedPreservesInv(s: ValidDb, v: Validators, caller: Id, id: Option<Id>,
                                       name: string, email: string, age: Option<int>, classroomId: Option<Id>)
    requires Inv(s)
    ensures Inv(UpdateStudentFixed(s, v, caller, id, name, email, age, classroomId).store)
  {
    var r := UpdateStudentFixed(s, v, caller, id, name, email, age, classroomId);
    if r.outcome.Ok? {
      var k := id.value;
      var after := Edited(s.students[k], name, email, age, classroomId);
      EditedEmailFree(s, k, name, email, age, classroomId);
      if classroomId.None? || classroomId.value == s.students[k].classroom {
        EditInPlaceSide(s, k, after);
      } else {
        RelistSide(s, k, after);
        RelistKept(s, k, after, classroomId);
      }
      Reassemble(s, r.store);
    }
  }

  /** Under the correction the foreign move of `MoveIntoForeignSchoolExample` is refused. */
  lemma FixedRefusesForeignMoveExample()
    ensures UpdateStudentFixed(TwoSchools(), AcceptingValidators(), 0, Some(6), "", "", None, Some(5))
            == Fail(TwoSchools(), 403, NotAdminOfClassroomSchool)
  {
  }
}
