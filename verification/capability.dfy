/**
 * What every entity capability shares: the record handed to a validator,
 * the validator bundle (one uninterpreted rule-set check per entity and
 * operation), and the result of a call, a success payload or `{code, error}`,
 * together with the store after the call's writes.
 */
module Capability {
  import opened Wrappers
  import opened Store

  /** A field value of a record handed to a validator; a missing field is a missing key. */
  datatype Value = Text(text: string) | Number(number: int) | Ref(ref: Id)

  type Fields = map<string, Value>

  /** Field name to message, as the validation engine reports it. */
  type Errors = map<string, string>

  /** A text field is present when it is non-empty (JavaScript truthiness of a string). */
  function WithText(f: Fields, key: string, v: string): Fields {
    if v == "" then f else f[key := Text(v)]
  }

  function WithRef(f: Fields, key: string, v: Option<Id>): Fields {
    if v.Some? then f[key := Ref(v.value)] else f
  }

  function WithNumber(f: Fields, key: string, v: Option<int>): Fields {
    if v.Some? then f[key := Number(v.value)] else f
  }

  /** One rule-set check per (entity, operation); `Some(errors)` rejects the record. */
  datatype Validators = Validators(
    createUser: Fields -> Option<Errors>,
    login: Fields -> Option<Errors>,
    createSchool: Fields -> Option<Errors>,
    updateSchool: Fields -> Option<Errors>,
    getSchool: Fields -> Option<Errors>,
    createClassroom: Fields -> Option<Errors>,
    updateClassroom: Fields -> Option<Errors>,
    getClassroom: Fields -> Option<Errors>,
    deleteClassroom: Fields -> Option<Errors>,
    createStudent: Fields -> Option<Errors>,
    updateStudent: Fields -> Option<Errors>,
    getStudent: Fields -> Option<Errors>)

  /** The school `id` is stored and `caller` is its admin. */
  ghost predicate Administers(s: ValidDb, caller: Id, id: Id) {
    id in s.schools && s.schools[id].admin == caller
  }

  /** The classroom `cid` is stored and `caller` administers its school. */
  ghost predicate Manages(s: ValidDb, caller: Id, cid: Id) {
    cid in s.classrooms && Administers(s, caller, s.classrooms[cid].school)
  }

  /** The `error` of a failure: a fixed message, or the validator's errors. */
  datatype Reason = Says(message: string) | Invalid(errors: Errors)

  datatype Payload =
    | CreatedUser(userId: Id, user: User)
    | LoginToken(token: string)
    | SchoolDoc(schoolId: Id, school: School)
    | ClassroomDoc(classroomId: Id, classroom: Classroom)
    | NoClassroom
    | StudentDoc(studentId: Id, student: Student)
    | Done(message: string)

  /**
   * `Ok` is a success payload, `Err` a returned `{code, error}`, `Fault` an
   * exception thrown out of the capability (a null dereference, a Mongoose
   * validation or duplicate-key error), which the dispatch boundary turns into
   * a 500.
   */
  datatype Outcome = Ok(payload: Payload) | Err(code: int, reason: Reason) | Fault

  /** The outcome of a call and the store after its writes. */
  datatype Reply = Reply(outcome: Outcome, store: ValidDb)

  function Fail(s: ValidDb, code: int, message: string): Reply {
    Reply(Err(code, Says(message)), s)
  }

  function Rejected(s: ValidDb, errors: Errors): Reply {
    Reply(Err(400, Invalid(errors)), s)
  }

  function AcceptAll(f: Fields): Option<Errors> { None }

  /** Validators that accept every record, for concrete scenarios. */
  function AcceptingValidators(): Validators {
    Validators(AcceptAll, AcceptAll, AcceptAll, AcceptAll, AcceptAll, AcceptAll,
               AcceptAll, AcceptAll, AcceptAll, AcceptAll, AcceptAll, AcceptAll)
  }
}
