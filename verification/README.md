# School management core, modelled in Dafny

This project models the entity capabilities of a school-management backend and
the two authentication middlewares that guard them:

- the school manager: `createSchool`, `updateSchool`, `getSchool`, `deleteSchool`;
- the classroom manager: `createClassroom`, `updateClassroom`, `getClassroom`, `deleteClassroom`;
- the student manager: `createStudent`, `updateStudent`, `getStudent`, `deleteStudent`;
- the user manager: `signup` and `login`;
- the `__token` and `__isSuperAdmin` middlewares.

Each capability is a pure function from a store, the caller's id (the `_id` of
the principal that `__token` attached) and the request fields to a `Reply`: an
outcome (`Ok` payload, `Err(code, reason)`, or `Fault` for an exception thrown
out of the capability) paired with the store after the capability's writes. The
store (`Store.Db`) holds users, schools, classrooms and students in maps keyed by
id. It also holds the two back-reference lists (`School.classrooms` and
`Classroom.students`) and the forward references (`Classroom.school` and
`Student.classroom`). `Invariants.Inv` states what the paired writes are meant to
keep:

- the two-way references hold: an id is in a parent's list exactly when the
  child points at that parent;
- school names, user emails and student emails are unique;
- classroom names are unique within a school;
- every school admin is a stored user;
- classroom names and student emails, the required keys the managers look records up by, are never empty.

Modelling decisions:

- Ids are natural numbers issued by a counter (`nextId`). Every stored key is
  below the counter (`Store.ValidDb`), so a fresh id is one no record holds.
- `findOne` returns the matching record with the lowest id (`Store.FindFirst`).
- An absent or falsy string input is `""` and an absent id is `None`. An absent
  age is `None`, and an age is truthy when it is present and not zero.
- A filter or update on an absent key matches no record.
- Case-insensitive lookups compare with ASCII case folding (`Store.SameIgnoringCase`).
- `Fault` stands for every thrown error:
  - dereferencing a `null` lookup result;
  - the Mongoose `required` or `enum` checks on `create`;
  - the unique index refusing `updateSchool`'s new name.

  Every such throw comes before the capability's first write, so a `Fault` leaves
  the store as it was.
- Validators are a bundle of uninterpreted functions, one per rule set
  (`Capability.Validators`).
- Password hashing, hash comparison, token signing and token verification are
  function parameters.

The known defects are modelled as the code is written. Corrected versions
(`…Fixed`) sit next to them with the intended property proved; see "Findings".

## Model

| member | source | states |
|---|---|---|
| UserManager.Signup | managers/entities/user/User.manager.js:59-82 | A validation failure is a 400 and an email already registered is a 409. Signup succeeds exactly when the record is valid, the email is free and the hashed user is storable. On success exactly one user is added, under a fresh id, with `hash(password)` in place of the plaintext; every failure leaves the store unchanged. |
| UserManager.Login | managers/entities/user/User.manager.js:118-137 | The store never changes, and a validation failure is a 400. After validation every failure, including an unknown email, is the same 401 "Incorrect username or password". A success returns `sign(k, email)` for a stored user `k` with that email whose hash matches the password. |
| UserManager.SignupPreservesInv | managers/entities/user/User.manager.js:67-76 | Signup keeps the invariant, in particular unique user emails. |
| UserManager.LoginSucceedsIff | managers/entities/user/User.manager.js:121-131 | With unique emails, login succeeds exactly when the record is valid and some stored user with that email has a matching hash. |
| UserManager.SignupThenLogin | managers/entities/user/User.manager.js:59-137 | A user who has just signed up logs in with the same password and receives the token for the fresh id, provided `compare` accepts a password against its own hash. |
| SchoolManager.CreateSchool | managers/entities/school/School.manager.js:63-83 | A validation failure is a 400. A taken name is a 409, decided before the admin lookup, so a taken name with an unknown admin is still a 409. A free name with an unknown admin email is a 404. On success exactly one school is added, with no classrooms and the id of the user with `adminEmail` as admin; nothing else changes. |
| SchoolManager.UpdateSchool | managers/entities/school/School.manager.js:138-174 | The guards run in order: missing id 400, unknown admin email 404 (before validation), nothing to update 400, validation 400, unknown school 404, caller not admin 403. Once every guard passes, a new name that another school holds throws, and the update succeeds exactly when no other school holds it. On success only the truthy supplied fields of that school change, with the admin replaced by the new admin's id. |
| SchoolManager.GetSchool | managers/entities/school/School.manager.js:207-238 | The store never changes, and the id takes precedence over the name, which is matched ignoring case. Neither key gives a 400 and a missing school gives a 404. For the school found, by id or by name, a caller who is not its (stored) admin gets a 403. The call succeeds exactly when the caller is that school's admin and a stored user, and then returns that stored school. When the school found has an admin who is not stored, the call throws, and a throw happens only when some school's admin is not stored. |
| SchoolManager.DeleteSchool | managers/entities/school/School.manager.js:302-330 | The lookup is by id, else by exact name. Neither key gives a 400 and a missing school gives a 404. For the school found, either way, a caller who is not its admin gets a 403, and so does a school that still lists classrooms. The call succeeds exactly when the caller is the admin and the list is empty, and then exactly that school is removed; otherwise nothing changes. |
| SchoolManager.CreateSchoolPreservesInv | managers/entities/school/School.manager.js:70-77 | `createSchool` keeps the invariant: the name stays unique and the admin is stored. |
| SchoolManager.UpdateSchoolPreservesInv | managers/entities/school/School.manager.js:144-168 | `updateSchool` keeps the invariant; the classrooms list is untouched and a clashing name never reaches the store. |
| SchoolManager.DeleteSchoolPreservesInv | managers/entities/school/School.manager.js:306-321 | `deleteSchool` keeps the invariant: no classroom points at a school whose list is empty. |
| SchoolManager.DeleteSchoolTwice | managers/entities/school/School.manager.js:308-309 | Deleting by id a second time gives a 404 and changes nothing. |
| SchoolManager.CreateThenDeleteSchool | managers/entities/school/School.manager.js:302-313 | The admin of a school that was just created can delete it, which restores the store apart from the id counter. |
| SchoolManager.GetSchoolNeverFaults | managers/entities/school/School.manager.js:219-231 | When every admin is stored, `getSchool` never throws. |
| ClassroomManager.CreateClassroom | managers/entities/classroom/Classroom.manager.js:50-83 | The guards run in order: validation 400, unknown school 404, caller not its admin 403, name already used in that school 409. Creation succeeds exactly when all pass and the name is present. On success exactly one classroom is added with `school = schoolId`, and its id is appended to that school's list. |
| ClassroomManager.UpdateClassroom | managers/entities/classroom/Classroom.manager.js:128-184 | The guards run in order: missing id 400, nothing to update 400, validation 400, unknown classroom 404, unknown supplied school 404, caller not admin of the current school 403. Once these pass, a classroom other than this one that `findOne` finds with the resulting name in the supplied school gives a 409, and the update succeeds exactly when there is none. On success the classroom gets the truthy fields; whenever the supplied school is not the current one, absent included, the id is pushed onto the supplied school and pulled from the current one. |
| ClassroomManager.GetClassroom | managers/entities/classroom/Classroom.manager.js:211-244 | The store never changes. A validation failure is a 400 and no id is an empty success. An unknown classroom is a 404 and a caller who is not admin of its school gets a 403. For a stored classroom the call succeeds exactly when the caller is its school's admin and a stored user, and it returns the stored classroom. For a stored classroom, a throw happens exactly when its school or that school's admin is gone. |
| ClassroomManager.DeleteClassroom | managers/entities/classroom/Classroom.manager.js:307-333 | The guards run in order: validation 400, missing id 400, unknown classroom 404. A classroom that lists students is never deleted (409). Any caller deletes a stored classroom whose students list is empty. On success the classroom is removed and its id pulled from its school's list. |
| ClassroomManager.CreateClassroomPreservesInv | managers/entities/classroom/Classroom.manager.js:68-76 | `createClassroom` keeps the invariant, including distinct classroom names within each school. |
| ClassroomManager.UpdateClassroomWithSchoolPreservesInv | managers/entities/classroom/Classroom.manager.js:157-178 | When a school is supplied, `updateClassroom` keeps the invariant: the push and pull move the id between the lists, and the 409 keeps names distinct. |
| ClassroomManager.DeleteClassroomPreservesInv | managers/entities/classroom/Classroom.manager.js:313-323 | `deleteClassroom` keeps the invariant: an empty students list means no student points at the removed classroom. |
| ClassroomManager.CreateThenGetClassroom | managers/entities/classroom/Classroom.manager.js:211-244 | When every admin is stored, the admin who has just created a classroom reads it back under the new id: the stored name, the school and an empty students list. |
| ClassroomManager.CreateThenDeleteClassroom | managers/entities/classroom/Classroom.manager.js:315-323 | Deleting a classroom that was just created restores the store apart from the id counter; the pull undoes the push. |
| ClassroomManager.RenameWithoutSchoolDetaches | managers/entities/classroom/Classroom.manager.js:166-178 | A successful update without a school keeps the classroom's school but takes it off that school's list, so the reference invariant fails. |
| ClassroomManager.RenameBreaksInvExample | managers/entities/classroom/Classroom.manager.js:166-178 | Concrete case: in a store that satisfies the invariant, the admin renames classroom 2 to "B" without a school; the call succeeds and the invariant fails. |
| ClassroomManager.DeleteClassroomIgnoresCaller | managers/entities/classroom/Classroom.manager.js:307-333 | `deleteClassroom` gives every caller the same outcome and the same store. |
| ClassroomManager.StrangerDeletesClassroomExample | managers/entities/classroom/Classroom.manager.js:313-326 | Concrete case: a caller who administers no school deletes classroom 2. |
| ClassroomManager.UpdateClassroomFixed | managers/entities/classroom/Classroom.manager.js:128-184 | In the corrected update, a success requires the caller to administer the current school and returns the renamed classroom; every failure leaves the store unchanged. |
| ClassroomManager.UpdateClassroomFixedAgrees | managers/entities/classroom/Classroom.manager.js:157-178 | When a school is supplied, the corrected update is the update as written. |
| ClassroomManager.UpdateClassroomFixedPreservesInv | managers/entities/classroom/Classroom.manager.js:157-178 | The corrected update keeps the invariant for every input, with or without a school. |
| ClassroomManager.DeleteClassroomFixed | managers/entities/classroom/Classroom.manager.js:307-333 | In the corrected delete, a caller who does not administer the classroom's school gets a 403. For a stored classroom that passes validation, the call succeeds exactly when the caller administers its school and its students list is empty, and it then makes the same write as the code as written. Every failure leaves the store unchanged. |
| ClassroomManager.DeleteClassroomFixedPreservesInv | managers/entities/classroom/Classroom.manager.js:313-323 | The corrected delete keeps the invariant. |
| ClassroomManager.FixedRefusesStrangerExample | managers/entities/classroom/Classroom.manager.js:313-326 | Under the correction, the stranger of the concrete case gets a 403 and the store is unchanged. |
| StudentManager.CreateStudent | managers/entities/student/Student.manager.js:13-48 | The guards run in order: validation 400, email already used 409 (before the classroom lookup), unknown classroom 404, caller not admin of the classroom's school 403. A throw means a missing school or a missing required field. Creation succeeds exactly when all checks pass. On success exactly one student is added and its id is appended to that classroom's list. |
| StudentManager.UpdateStudent | managers/entities/student/Student.manager.js:50-102 | The guards run in order: missing id 400, validation 400, unknown student 404, a changed email that another student holds 409. Once these pass, a caller who is not admin of the current classroom's school gets a 403, and the update succeeds exactly when the caller is that admin. A throw means that classroom or its school is gone. On success only the truthy fields change. Whenever the supplied classroom is not the current one, absent included, the id is pushed onto the supplied classroom (nothing if it is absent or unknown) and pulled from the current one. |
| StudentManager.GetStudent | managers/entities/student/Student.manager.js:104-138 | The store never changes. The lookup is by id when one is given, else by email ignoring case; neither gives a 400 and a miss gives a 404. For a student whose classroom and school are stored, the call succeeds exactly when the caller administers that school, and any other caller gets a 403. A success returns that stored student. |
| StudentManager.DeleteStudent | managers/entities/student/Student.manager.js:164-212 | The lookup is by id, else by exact email; neither gives a 400 and a miss gives a 404. For a found student with stored classroom and school, the call succeeds exactly when the caller administers that school, and any other caller gets a 403. A success removes that student and pulls its id from its classroom; every failure leaves the store unchanged. |
| StudentManager.CreateStudentPreservesInv | managers/entities/student/Student.manager.js:22-41 | `createStudent` keeps the invariant: the email stays unique and the new id is listed by its classroom. |
| StudentManager.UpdateStudentKnownClassroomPreservesInv | managers/entities/student/Student.manager.js:71-96 | When a stored classroom is supplied, `updateStudent` keeps the invariant, including email uniqueness. |
| StudentManager.DeleteStudentPreservesInv | managers/entities/student/Student.manager.js:168-203 | `deleteStudent`, by id or by email, keeps the invariant. |
| StudentManager.CreateThenDeleteStudent | managers/entities/student/Student.manager.js:164-185 | Deleting by id a student who was just created restores the store apart from the id counter. |
| StudentManager.StudentCapabilitiesNeverFault | managers/entities/student/Student.manager.js:128-131 | When every student's classroom and every classroom's school are stored, get, update and delete never throw. |
| StudentManager.UpdateWithoutClassroomDetaches | managers/entities/student/Student.manager.js:85-96 | A successful update without a classroom leaves the student pointing at its classroom but off that classroom's list, so the reference invariant fails. |
| StudentManager.UpdateToUnknownClassroomStrands | managers/entities/student/Student.manager.js:84-90 | A successful update to a classroom that does not exist leaves the student pointing at nothing, so the reference invariant fails. |
| StudentManager.RenameStudentBreaksInvExample | managers/entities/student/Student.manager.js:85-96 | Concrete case: in a store that satisfies the invariant, the admin renames student 6 without a classroom; the call succeeds and the invariant fails. |
| StudentManager.MoveToUnknownClassroomExample | managers/entities/student/Student.manager.js:84-90 | Concrete case: moving student 6 to classroom 9, which does not exist, succeeds and breaks the invariant. |
| StudentManager.MoveIntoForeignSchoolExample | managers/entities/student/Student.manager.js:76-96 | Concrete case: the admin of one school moves a student into a classroom of a school they do not administer. |
| StudentManager.UpdateStudentFixed | managers/entities/student/Student.manager.js:50-102 | In the corrected update, a success requires the caller to administer both the current classroom's school and the final classroom's school. Once the guards of the update as written pass, an edit with no classroom, or with the current one, succeeds and changes only the student's fields, leaving the lists alone. A move to an unknown classroom is a 404 and a move into a classroom of a school the caller does not administer is a 403. A move into a classroom the caller manages succeeds with the push and pull. Every failure leaves the store unchanged. |
| StudentManager.UpdateStudentFixedAgrees | managers/entities/student/Student.manager.js:84-96 | For a move into a classroom whose school the caller administers, the corrected update is the update as written. |
| StudentManager.UpdateStudentFixedPreservesInv | managers/entities/student/Student.manager.js:84-96 | The corrected update keeps the invariant for every input. |
| StudentManager.FixedRefusesForeignMoveExample | managers/entities/student/Student.manager.js:76-96 | Under the correction, the foreign move of the concrete case is a 403 and changes nothing. |
| TokenMiddleware.Authenticate | mws/__token.mw.js:1-28 | Every path ends in either the 401 "unauthorized" envelope or an advance. Each of these gives the 401: a missing token, a throwing verifier, a missing id or email, and a pair that names no stored user. An advance attaches exactly the stored user with the token's id and email. Every token that decodes to a stored (id, email) pair advances. |
| TokenMiddleware.LoginTokenAuthenticates | mws/__token.mw.js:9-21 | For a verifier that decodes what the signer signed, the token returned by `login` authenticates the user who logged in. |
| SuperAdminMiddleware.RequireSuperAdmin | mws/__isSuperAdmin.mw.js:1-8 | The middleware advances exactly when the attached user's type is "superadmin", and then with the context unchanged; otherwise it dispatches the fixed 403. |
| SuperAdminMiddleware.SuperAdminStack | mws/__isSuperAdmin.mw.js:3-6 | With `__token` before it, an unauthenticated call gets the 401 and never reaches the check. An authenticated call advances exactly when the stored user is a super admin and gets the 403 otherwise. |

## Left out

- The request pipeline, the capability dispatcher, the response dispatcher and the validation engine are not part of this model. Validators are uninterpreted.
- The `getAll*` listing endpoints are not modelled: each is a plain fetch with a catch-all 500.
- `populate` projections are not modelled: a payload carries the stored record.
- Timestamps are not modelled. String setters are not modelled either.
- Parallel reads (`Promise.all`) are modelled as sequential reads.
- The paired writes of one capability are modelled as one atomic step. A failure between them, and interleaving with other calls, are not modelled.
- A request field that is `undefined`, `null` or `""` is one value (`""` or `None`). The managers' own branches test only truthiness, so for them the three agree. The validators, however, receive the raw object, in which a missing key, `null` and `""` differ. The model hands every validator a record with the key left out in all three cases, so a validator that tells them apart is not modelled.
- A filter or update on an absent key (`findOne({ email: undefined })`, `findByIdAndUpdate(undefined, …)`) is taken to match no record. Mongoose may drop such a key and match any record, and the assumption decides these outcomes:
  - `updateClassroom`'s conflict lookup `findOne({ name, school: schoolId })` with no school. Under the drop-key reading it finds a same-named classroom in any school, so a plain rename could get a 409 where the model answers Ok; the model's lookup finds nothing.
  - `createSchool` with no `adminEmail`. Its validator sees only the name, address and mobile number, so `User.findOne({ email: adminEmail })` runs on the absent key. The model answers 404; under the drop-key reading an arbitrary user is found and becomes the new school's admin.
  - `createStudent` with no `email`, when the validator does not require one. `Student.findOne({ email })` runs on the absent key. The model goes on to the classroom lookup; under the drop-key reading the call is a 409 whenever any student exists.
  - The push onto an absent parent in the two updates, which may reach an arbitrary record under the drop-key reading.

  None of these changes the detachment defects: whenever a move without a school (or classroom) succeeds, the pull takes the id off the current parent's list.
- Case-insensitive lookups are built from the input as a regular expression. The model compares whole strings with ASCII case folding only: regex metacharacters in the input and non-ASCII case folding are not modelled.
- A malformed id (one Mongoose cannot cast) throws in the source. In the model every id is well formed, so such an input behaves like an unknown id.
- A student's `age` is an integer. The source takes a JavaScript number, which can also be fractional or `NaN`. `NaN` is falsy, so `updateStudent` would skip it, and `create` would refuse it on the cast to `Number`. Fractional and `NaN` ages are not modelled; a truthy age in the model is a present, non-zero integer.
- bcrypt's own failures, such as hashing an absent password, are not modelled; `hash` is a total function.
- The unique indexes are modelled only where the code can run into them: the school-name index on `updateSchool`. Everywhere else the code checks first.
- `console.log` output is not modelled.
- ClassroomManager.UpdateClassroomWithSchoolPreservesInv: covers only calls that supply a school, because without one the invariant fails (see Findings).
- StudentManager.UpdateStudentKnownClassroomPreservesInv: covers only calls that supply a stored classroom, because without one, or with an unknown one, the invariant fails (see Findings).
- TokenMiddleware.Authenticate: a token id that the lookup cannot cast throws and is caught as a 401 in the source. The model has no such id, so it shows up as an id that is not stored, with the same 401.

## Findings

| source | as written | input that shows it | evidently intended | confidence | as-written member | corrected member |
|---|---|---|---|---|---|---|
| managers/entities/classroom/Classroom.manager.js:166 | the move condition is also true when no `schoolId` is supplied, so a plain rename pulls the classroom off its school's list | admin 0 renames classroom 2 (school 1) to "B" without a school | push and pull only when a different school is supplied; the 409 check against the current school otherwise | not executed | ClassroomManager.RenameBreaksInvExample | ClassroomManager.UpdateClassroomFixedPreservesInv |
| managers/entities/student/Student.manager.js:85 | the move condition is also true when no `classroomId` is supplied, so a plain edit pulls the student off its classroom's list | admin 0 renames student 6 (classroom 4) to "Bea" without a classroom | push and pull only when a different classroom is supplied | not executed | StudentManager.RenameStudentBreaksInvExample | StudentManager.UpdateStudentFixedPreservesInv |
| managers/entities/student/Student.manager.js:84-90 | the target classroom is never looked up, so the student can be moved to an id that names no classroom | admin 0 moves student 6 to classroom 9 | 404 when the target classroom does not exist | not executed | StudentManager.MoveToUnknownClassroomExample | StudentManager.UpdateStudentFixed |
| managers/entities/student/Student.manager.js:76-96 | ownership is checked only for the current classroom, so an admin can move a student into another school's classroom | admin 0 of school 2 moves student 6 into classroom 5 of school 3 | 403 unless the caller administers the target classroom's school | not executed | StudentManager.MoveIntoForeignSchoolExample | StudentManager.UpdateStudentFixed |
| managers/entities/classroom/Classroom.manager.js:307-333 | `deleteClassroom` never compares the caller with the school's admin | caller 7, who administers nothing, deletes classroom 2 | 403 unless the caller administers the classroom's school, as in every other capability | not executed | ClassroomManager.StrangerDeletesClassroomExample | ClassroomManager.DeleteClassroomFixed |
