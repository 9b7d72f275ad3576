/**
 * The four persistent collections the entity managers read and write (users,
 * schools, classrooms, students), shaped after the Mongoose models, together
 * with the two lookups the managers use: `findById` (a map access) and
 * `findOne` (the lowest matching id, `FindFirst`), and the `$push` / `$pull`
 * updates on the two back-reference lists.
 */
module Store {
  import opened Wrappers

  /** A document id. Ids are issued by the store's counter, so a new one is never in use. */
  type Id = nat

  /** A user account; `password` holds the stored hash, never the plaintext. */
  datatype User = User(name: string, email: string, password: string, userType: string)

  /** A school; `classrooms` is the back-reference list that `$push` / `$pull` maintain. */
  datatype School = School(name: string, address: string, mobileNumber: string, admin: Id, classrooms: seq<Id>)

  /** A classroom; `school` is its forward reference, `students` its back-reference list. */
  datatype Classroom = Classroom(name: string, school: Id, students: seq<Id>)

  /** A student; `classroom` is its forward reference. */
  datatype Student = Student(name: string, email: string, age: int, classroom: Id)

  datatype Db = Db(
    users: map<Id, User>,
    schools: map<Id, School>,
    classrooms: map<Id, Classroom>,
    students: map<Id, Student>,
    nextId: Id)
  {
    /** Every stored id was issued before `nextId`, so `nextId` is fresh. */
    predicate IdsIssued() {
      && (forall k :: k in users ==> k < nextId)
      && (forall k :: k in schools ==> k < nextId)
      && (forall k :: k in classrooms ==> k < nextId)
      && (forall k :: k in students ==> k < nextId)
    }
  }

  /** A database state: fresh-id generation is modelled by the counter `nextId`. */
  type ValidDb = db: Db | db.IdsIssued() witness Db(map[], map[], map[], map[], 0)

  /**
   * The lowest id in [from, bound) whose document satisfies `p`. This is how
   * `findOne` chooses among several matches (natural order = issue order).
   */
  function FindFirst<T>(m: map<Id, T>, p: T -> bool, from: nat, bound: nat): (r: Option<Id>)
    ensures r.Some? ==> from <= r.value < bound && r.value in m && p(m[r.value])
    ensures r.Some? ==> forall k :: from <= k < r.value && k in m ==> !p(m[k])
    ensures r.None? ==> forall k :: from <= k < bound && k in m ==> !p(m[k])
    decreases bound - from
  {
    if from >= bound then None
    else if from in m && p(m[from]) then Some(from)
    else FindFirst(m, p, from + 1, bound)
  }

  // ---------------------------------------------------------------------------
  // Existence of a match. An absent (empty) key in a filter matches no document.
  // ---------------------------------------------------------------------------

  ghost predicate EmailRegistered(s: ValidDb, email: string) {
    email != "" && exists k :: k in s.users && s.users[k].email == email
  }

  ghost predicate SchoolNameTaken(s: ValidDb, name: string) {
    name != "" && exists k :: k in s.schools && s.schools[k].name == name
  }

  ghost predicate SchoolNameMatches(s: ValidDb, name: string) {
    name != "" && exists k :: k in s.schools && SameIgnoringCase(s.schools[k].name, name)
  }

  ghost predicate ClassroomNameTaken(s: ValidDb, name: string, school: Option<Id>) {
    && name != ""
    && school.Some?
    && exists k :: k in s.classrooms && s.classrooms[k].name == name && s.classrooms[k].school == school.value
  }

  ghost predicate StudentEmailTaken(s: ValidDb, email: string) {
    email != "" && exists k :: k in s.students && s.students[k].email == email
  }

  ghost predicate StudentEmailMatches(s: ValidDb, email: string) {
    email != "" && exists k :: k in s.students && SameIgnoringCase(s.students[k].email, email)
  }

  // ---------------------------------------------------------------------------
  // `findOne` lookups
  // ---------------------------------------------------------------------------

  /** `User.findOne({ email })`. */
  function UserByEmail(s: ValidDb, email: string): (r: Option<Id>)
    ensures r.Some? ==> r.value in s.users && s.users[r.value].email == email
    ensures r.None? <==> !EmailRegistered(s, email)
  {
    if email == "" then None else FindFirst(s.users, (u: User) => u.email == email, 0, s.nextId)
  }

  /** `School.findOne({ name })`. */
  function SchoolByName(s: ValidDb, name: string): (r: Option<Id>)
    ensures r.Some? ==> r.value in s.schools && s.schools[r.value].name == name
    ensures r.None? <==> !SchoolNameTaken(s, name)
  {
    if name == "" then None else FindFirst(s.schools, (sc: School) => sc.name == name, 0, s.nextId)
  }

  /** `School.findOne` on an anchored case-insensitive pattern built from `name`. */
  function SchoolByNameIgnoringCase(s: ValidDb, name: string): (r: Option<Id>)
    ensures r.Some? ==> r.value in s.schools && SameIgnoringCase(s.schools[r.value].name, name)
    ensures r.None? <==> !SchoolNameMatches(s, name)
  {
    if name == "" then None else FindFirst(s.schools, (sc: School) => SameIgnoringCase(sc.name, name), 0, s.nextId)
  }

  /** `Classroom.findOne({ name, school })`. */
  function ClassroomByName(s: ValidDb, name: string, school: Option<Id>): (r: Option<Id>)
    ensures r.Some? ==>
              && school.Some? && r.value in s.classrooms
              && s.classrooms[r.value].name == name && s.classrooms[r.value].school == school.value
    ensures r.None? <==> !ClassroomNameTaken(s, name, school)
  {
    if name == "" || school.None? then None
    else FindFirst(s.classrooms, (c: Classroom) => c.name == name && c.school == school.value, 0, s.nextId)
  }

  /** `Student.findOne({ email })`. */
  function StudentByEmail(s: ValidDb, email: string): (r: Option<Id>)
    ensures r.Some? ==> r.value in s.students && s.students[r.value].email == email
    ensures r.None? <==> !StudentEmailTaken(s, email)
  {
    if email == "" then None else FindFirst(s.students, (st: Student) => st.email == email, 0, s.nextId)
  }

  /** `Student.findOne` on an anchored case-insensitive pattern built from `email`. */
  function StudentByEmailIgnoringCase(s: ValidDb, email: string): (r: Option<Id>)
    ensures r.Some? ==> r.value in s.students && SameIgnoringCase(s.students[r.value].email, email)
    ensures r.None? <==> !StudentEmailMatches(s, email)
  {
    if email == "" then None
    else FindFirst(s.students, (st: Student) => SameIgnoringCase(st.email, email), 0, s.nextId)
  }

  // ---------------------------------------------------------------------------
  // Case-insensitive comparison (ASCII letters)
  // ---------------------------------------------------------------------------

  function Lower(c: char): char {
    if 'A' <= c <= 'Z' then (c as int + 32) as char else c
  }

  predicate SameIgnoringCase(a: string, b: string) {
    |a| == |b| && forall i :: 0 <= i < |a| ==> Lower(a[i]) == Lower(b[i])
  }

  // ---------------------------------------------------------------------------
  // `$push` and `$pull` on the back-reference lists
  // ---------------------------------------------------------------------------

  /** `$pull`: every occurrence of `x` is removed, everything else keeps its order. */
  function Pull(xs: seq<Id>, x: Id): (r: seq<Id>)
    ensures forall y :: y in r <==> y in xs && y != x
    ensures x !in xs ==> r == xs
    decreases |xs|
  {
    if xs == [] then []
    else if xs[0] == x then Pull(xs[1..], x)
    else [xs[0]] + Pull(xs[1..], x)
  }

  /** Pulling an id that was just pushed onto a list that did not hold it restores the list. */
  lemma {:induction false} PullAppended(xs: seq<Id>, x: Id)
    requires x !in xs
    ensures Pull(xs + [x], x) == xs
    decreases |xs|
  {
    if xs == [] {
      assert [] + [x] == [x];
    } else {
      assert (xs + [x])[1..] == xs[1..] + [x];
      PullAppended(xs[1..], x);
    }
  }

  /** `School.findByIdAndUpdate(target, { $push: { classrooms: k } })`; an absent or unknown id updates nothing. */
  function PushClassroom(schools: map<Id, School>, target: Option<Id>, k: Id): (r: map<Id, School>)
    ensures r.Keys == schools.Keys
  {
    if target.Some? && target.value in schools then
      schools[target.value := schools[target.value].(classrooms := schools[target.value].classrooms + [k])]
    else schools
  }

  /** `School.findByIdAndUpdate(target, { $pull: { classrooms: k } })`. */
  function PullClassroom(schools: map<Id, School>, target: Id, k: Id): (r: map<Id, School>)
    ensures r.Keys == schools.Keys
  {
    if target in schools then
      schools[target := schools[target].(classrooms := Pull(schools[target].classrooms, k))]
    else schools
  }

  /** `Classroom.findByIdAndUpdate(target, { $push: { students: k } })`; an absent or unknown id updates nothing. */
  function PushStudent(classrooms: map<Id, Classroom>, target: Option<Id>, k: Id): (r: map<Id, Classroom>)
    ensures r.Keys == classrooms.Keys
  {
    if target.Some? && target.value in classrooms then
      classrooms[target.value := classrooms[target.value].(students := classrooms[target.value].students + [k])]
    else classrooms
  }

  /** `Classroom.findByIdAndUpdate(target, { $pull: { students: k } })`. */
  function PullStudent(classrooms: map<Id, Classroom>, target: Id, k: Id): (r: map<Id, Classroom>)
    ensures r.Keys == classrooms.Keys
  {
    if target in classrooms then
      classrooms[target := classrooms[target].(students := Pull(classrooms[target].students, k))]
    else classrooms
  }
}
