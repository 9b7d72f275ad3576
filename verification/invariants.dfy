/**
 * The consistency the paired writes of the managers are meant to keep: the
 * two-way references between schools and classrooms and between classrooms
 * and students, the uniqueness rules (school name, user email and student
 * email from the unique indexes; classroom name within a school from the
 * code's own checks), and that every school's admin is a stored user.
 */
module Invariants {
  import opened Store

  /** Every id in a school's `classrooms` list names a classroom that points back at that school. */
  ghost predicate SchoolListsSound(s: ValidDb) {
    forall sid, k :: sid in s.schools && k in s.schools[sid].classrooms ==>
      k in s.classrooms && s.classrooms[k].school == sid
  }

  /** Every classroom points at a stored school whose `classrooms` list holds it. */
  ghost predicate ClassroomsListed(s: ValidDb) {
    forall k :: k in s.classrooms ==>
      s.classrooms[k].school in s.schools && k in s.schools[s.classrooms[k].school].classrooms
  }

  /** Every id in a classroom's `students` list names a student that points back at that classroom. */
  ghost predicate ClassroomListsSound(s: ValidDb) {
    forall cid, k :: cid in s.classrooms && k in s.classrooms[cid].students ==>
      k in s.students && s.students[k].classroom == cid
  }

  /** Every student points at a stored classroom whose `students` list holds it. */
  ghost predicate StudentsListed(s: ValidDb) {
    forall k :: k in s.students ==>
      s.students[k].classroom in s.classrooms && k in s.classrooms[s.students[k].classroom].students
  }

  /** The two-way referential invariant, for both parent/child pairs. */
  ghost predicate Linked(s: ValidDb) {
    SchoolListsSound(s) && ClassroomsListed(s) && ClassroomListsSound(s) && StudentsListed(s)
  }

  ghost predicate SchoolNamesUnique(s: ValidDb) {
    forall a, b :: a in s.schools && b in s.schools && s.schools[a].name == s.schools[b].name ==> a == b
  }

  ghost predicate UserEmailsUnique(s: ValidDb) {
    forall a, b :: a in s.users && b in s.users && s.users[a].email == s.users[b].email ==> a == b
  }

  ghost predicate StudentEmailsUnique(s: ValidDb) {
    forall a, b :: a in s.students && b in s.students && s.students[a].email == s.students[b].email ==> a == b
  }

  /** No two classrooms of one school share a name. */
  ghost predicate ClassroomNamesUnique(s: ValidDb) {
    forall a, b ::
      && a in s.classrooms && b in s.classrooms
      && s.classrooms[a].school == s.classrooms[b].school
      && s.classrooms[a].name == s.classrooms[b].name
      ==> a == b
  }

  ghost predicate Unique(s: ValidDb) {
    SchoolNamesUnique(s) && UserEmailsUnique(s) && StudentEmailsUnique(s) && ClassroomNamesUnique(s)
  }

  /** Every school's admin is a stored user. */
  ghost predicate AdminsExist(s: ValidDb) {
    forall sid :: sid in s.schools ==> s.schools[sid].admin in s.users
  }

  /** Classroom names and student emails, the keys records are looked up by, are never empty: a Mongoose `required` string rejects `""`. */
  ghost predicate KeysPresent(s: ValidDb) {
    && (forall k :: k in s.classrooms ==> s.classrooms[k].name != "")
    && (forall k :: k in s.students ==> s.students[k].email != "")
  }

  ghost predicate Inv(s: ValidDb) {
    Linked(s) && Unique(s) && AdminsExist(s) && KeysPresent(s)
  }

  /** A write that leaves classrooms and students alone keeps their keys present. */
  lemma KeysPresentFrame(s: ValidDb, s': ValidDb)
    requires KeysPresent(s) && s'.classrooms == s.classrooms && s'.students == s.students
    ensures KeysPresent(s')
  {
  }

  /** A write that leaves users and schools alone keeps every admin stored. */
  lemma AdminsExistFrame(s: ValidDb, s': ValidDb)
    requires AdminsExist(s) && s'.schools == s.schools && s'.users == s.users
    ensures AdminsExist(s')
  {
  }
}
