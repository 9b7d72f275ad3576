/**
 * The school manager: `createSchool`, `updateSchool`, `getSchool` and
 * `deleteSchool`. `caller` is the id of the authenticated principal that the
 * token middleware attached (`__token._id`).
 */
module SchoolManager {
  import opened Wrappers
  import opened Store
  import opened Invariants
  import opened Capability

  const SchoolExists := "A school with this name already exists"
  const AdminNotFound := "Admin with provided email not found"
  const IdRequired := "Id must be provided"
  const NoFields := "No fields provided to update"
  const SchoolNotFound := "School not found"
  const NotSchoolAdmin := "Forbidden, you are not the school admin"
  const IdOrNameRequired := "Either 'id' or 'name' must be provided"
  const HasClassrooms := "Forbidden, school has classrooms, please delete classrooms first"
  const SchoolDeleted := "School successfully deleted"

  /** The record `createSchool` validates. */
  function SchoolFields(name: string, address: string, mobileNumber: string): Fields {
    WithText(WithText(WithText(map[], "name", name), "address", address), "mobileNumber", mobileNumber)
  }

  /** The record `getSchool` validates. */
  function LookupFields(id: Option<Id>, name: string): Fields {
    WithText(WithRef(map[], "id", id), "name", name)
  }

  /**
   * `createSchool`: validation (400), then the name's uniqueness (409), which is
   * consulted before the admin lookup (404); the school starts with no classrooms.
   */
  function CreateSchool(s: ValidDb, v: Validators, adminEmail: string,
                        name: string, address: string, mobileNumber: string): (r: Reply)
    ensures v.createSchool(SchoolFields(name, address, mobileNumber)).Some? ==>
              r == Rejected(s, v.createSchool(SchoolFields(name, address, mobileNumber)).value)
    ensures v.createSchool(SchoolFields(name, address, mobileNumber)).None? && SchoolNameTaken(s, name) ==>
              r == Fail(s, 409, SchoolExists)
    ensures && v.createSchool(SchoolFields(name, address, mobileNumber)).None?
            && !SchoolNameTaken(s, name) && !EmailRegistered(s, adminEmail) ==>
              r == Fail(s, 404, AdminNotFound)
    ensures r.outcome.Ok? <==>
              && v.createSchool(SchoolFields(name, address, mobileNumber)).None?
              && !SchoolNameTaken(s, name) && EmailRegistered(s, adminEmail)
              && name != "" && address != "" && mobileNumber != ""
    ensures r.outcome.Ok? ==>
              && r.outcome.payload.SchoolDoc?
              && r.outcome.payload.schoolId == s.nextId
              && var sc := r.outcome.payload.school;
                 && sc == School(name, address, mobileNumber, sc.admin, [])
                 && sc.admin in s.users && s.users[sc.admin].email == adminEmail
                 && r.store == s.(schools := s.schools[s.nextId := sc], nextId := s.nextId + 1)
    ensures !r.outcome.Ok? ==> r.store == s
  {
    var errors := v.createSchool(SchoolFields(name, address, mobileNumber));
    if errors.Some? then Rejected(s, errors.value)
    else if SchoolByName(s, name).Some? then Fail(s, 409, SchoolExists)
    else match UserByEmail(s, adminEmail)
      case None => Fail(s, 404, AdminNotFound)
      case Some(admin) =>
        if name == "" || address == "" || mobileNumber == "" then Reply(Fault, s)
        else
          var sc := School(name, address, mobileNumber, admin, []);
          Reply(Ok(SchoolDoc(s.nextId, sc)), s.(schools := s.schools[s.nextId := sc], nextId := s.nextId + 1))
  }

  /** The supplied fields replace the stored ones; the classrooms list is untouched. */
  function Patch(sc: School, name: string, address: string, mobileNumber: string, admin: Option<Id>): School {
    School(
      if name != "" then name else sc.name,
      if address != "" then address else sc.address,
      if mobileNumber != "" then mobileNumber else sc.mobileNumber,
      if admin.Some? then admin.value else sc.admin,
      sc.classrooms)
  }

  /** A school other than `id` already has `name` (the unique index would refuse the update). */
  ghost predicate NameHeldByOther(s: ValidDb, id: Id, name: string) {
    name != "" && exists k :: k in s.schools && k != id && s.schools[k].name == name
  }

  /** Whether the unique index on school names refuses renaming school `id` to `name`. */
  function NameClash(s: ValidDb, id: Id, name: string): (r: bool)
    ensures r <==> NameHeldByOther(s, id, name)
  {
    var others := s.schools - {id};
    assert forall k :: k in s.schools && k != id ==> k in others && k < s.nextId;
    name != "" && FindFirst(others, (sc: School) => sc.name == name, 0, s.nextId).Some?
  }

  /** Every guard of `updateSchool` passes: what remains is the unique index on the name. */
  ghost predicate UpdateAllowed(s: ValidDb, v: Validators, caller: Id, id: Option<Id>,
                                name: string, address: string, mobileNumber: string, admin: string) {
    && id.Some?
    && (admin == "" || EmailRegistered(s, admin))
    && !(name == "" && address == "" && mobileNumber == "" && admin == "")
    && v.updateSchool(SchoolFields(name, address, mobileNumber)).None?
    && Administers(s, caller, id.value)
  }

  /**
   * `updateSchool`: missing id (400); unknown new admin (404), before the
   * validation result is consulted; nothing to update (400); validation (400);
   * unknown school (404); caller not its admin (403). Only the supplied fields
   * change. A name held by another school violates the unique index (a fault).
   */
  function UpdateSchool(s: ValidDb, v: Validators, caller: Id, id: Option<Id>,
                        name: string, address: string, mobileNumber: string, admin: string): (r: Reply)
    ensures id.None? ==> r == Fail(s, 400, IdRequired)
    ensures id.Some? && admin != "" && !EmailRegistered(s, admin) ==> r == Fail(s, 404, AdminNotFound)
    ensures id.Some? && name == "" && address == "" && mobileNumber == "" && admin == "" ==>
              r == Fail(s, 400, NoFields)
    ensures && id.Some? && (admin == "" || EmailRegistered(s, admin))
            && !(name == "" && address == "" && mobileNumber == "" && admin == "")
            && v.updateSchool(SchoolFields(name, address, mobileNumber)).Some? ==>
              r == Rejected(s, v.updateSchool(SchoolFields(name, address, mobileNumber)).value)
    ensures && id.Some? && (admin == "" || EmailRegistered(s, admin))
            && !(name == "" && address == "" && mobileNumber == "" && admin == "")
            && v.updateSchool(SchoolFields(name, address, mobileNumber)).None? ==>
              && (id.value !in s.schools ==> r == Fail(s, 404, SchoolNotFound))
              && (id.value in s.schools && s.schools[id.value].admin != caller ==> r == Fail(s, 403, NotSchoolAdmin))
    ensures r.outcome.Ok? ==>
              && id.Some? && id.value in s.schools && s.schools[id.value].admin == caller
              && !NameHeldByOther(s, id.value, name)
              && r.outcome.payload.SchoolDoc? && r.outcome.payload.schoolId == id.value
              && var before := s.schools[id.value];
                 var after := r.outcome.payload.school;
                 && after.name == (if name != "" then name else before.name)
                 && after.address == (if address != "" then address else before.address)
                 && after.mobileNumber == (if mobileNumber != "" then mobileNumber else before.mobileNumber)
                 && (admin == "" ==> after.admin == before.admin)
                 && (admin != "" ==> after.admin in s.users && s.users[after.admin].email == admin)
                 && after.classrooms == before.classrooms
                 && r.store == s.(schools := s.schools[id.value := after])
    ensures !r.outcome.Ok? ==> r.store == s
    ensures UpdateAllowed(s, v, caller, id, name, address, mobileNumber, admin) ==>
              && (NameHeldByOther(s, id.value, name) ==> r.outcome.Fault?)
              && (r.outcome.Ok? <==> !NameHeldByOther(s, id.value, name))
  {
    if id.None? then Fail(s, 400, IdRequired)
    else
      var errors := v.updateSchool(SchoolFields(name, address, mobileNumber));
      var newAdmin := UserByEmail(s, admin);
      if admin != "" && newAdmin.None? then Fail(s, 404, AdminNotFound)
      else if name == "" && address == "" && mobileNumber == "" && admin == "" then Fail(s, 400, NoFields)
      else if errors.Some? then Rejected(s, errors.value)
      else if id.value !in s.schools then Fail(s, 404, SchoolNotFound)
      else if s.schools[id.value].admin != caller then Fail(s, 403, NotSchoolAdmin)
      else if NameClash(s, id.value, name) then Reply(Fault, s)
      else
        var after := Patch(s.schools[id.value], name, address, mobileNumber, if admin != "" then newAdmin else None);
        Reply(Ok(SchoolDoc(id.value, after)), s.(schools := s.schools[id.value := after]))
  }

  /** The school `getSchool` and `deleteSchool` act on: by id when one is given, else by name. */
  function Found(s: ValidDb, id: Option<Id>, name: string, ignoreCase: bool): (r: Option<Id>)
    ensures r.Some? ==> r.value in s.schools
    ensures id.Some? ==> (r.Some? <==> id.value in s.schools) && (r.Some? ==> r.value == id.value)
    ensures id.None? && !ignoreCase ==> (r.None? <==> !SchoolNameTaken(s, name)) && (r.Some? ==> s.schools[r.value].name == name)
    ensures id.None? && ignoreCase ==> (r.None? <==> !SchoolNameMatches(s, name)) && (r.Some? ==> SameIgnoringCase(s.schools[r.value].name, name))
  {
    if id.Some? then (if id.value in s.schools then id else None)
    else if ignoreCase then SchoolByNameIgnoringCase(s, name)
    else SchoolByName(s, name)
  }

  /**
   * `getSchool`: validation (400); the id, when given, takes precedence over a
   * case-insensitive name; neither (400); no match (404); caller not the
   * school's admin (403). The store never changes.
   */
  function GetSchool(s: ValidDb, v: Validators, caller: Id, id: Option<Id>, name: string): (r: Reply)
    ensures r.store == s
    ensures v.getSchool(LookupFields(id, name)).Some? ==>
              r.outcome == Err(400, Invalid(v.getSchool(LookupFields(id, name)).value))
    ensures v.getSchool(LookupFields(id, name)).None? ==>
              && (id.Some? && id.value !in s.schools ==> r.outcome == Err(404, Says(SchoolNotFound)))
              && (id.None? && name == "" ==> r.outcome == Err(400, Says(IdOrNameRequired)))
              && (id.None? && name != "" && !SchoolNameMatches(s, name) ==> r.outcome == Err(404, Says(SchoolNotFound)))
    ensures v.getSchool(LookupFields(id, name)).None? && Found(s, id, name, true).Some? ==>
              var k := Found(s, id, name, true).value;
              && (s.schools[k].admin !in s.users ==> r.outcome.Fault?)
              && (s.schools[k].admin in s.users && s.schools[k].admin != caller ==>
                    r.outcome == Err(403, Says(NotSchoolAdmin)))
              && (r.outcome.Ok? <==> Administers(s, caller, k) && caller in s.users)
              && (r.outcome.Ok? ==> r.outcome == Ok(SchoolDoc(k, s.schools[k])))
    ensures r.outcome.Ok? ==>
              && v.getSchool(LookupFields(id, name)).None?
              && r.outcome.payload.SchoolDoc?
              && var k := r.outcome.payload.schoolId;
                 && k in s.schools && r.outcome.payload.school == s.schools[k]
                 && s.schools[k].admin == caller
                 && (id.Some? ==> k == id.value)
                 && (id.None? ==> SameIgnoringCase(s.schools[k].name, name))
    ensures r.outcome.Fault? ==> exists k :: k in s.schools && s.schools[k].admin !in s.users
  {
    var errors := v.getSchool(LookupFields(id, name));
    if errors.Some? then Rejected(s, errors.value)
    else
      var found := Found(s, id, name, true);
      if id.None? && name == "" then Fail(s, 400, IdOrNameRequired)
      else if found.None? then Fail(s, 404, SchoolNotFound)
      else
        var sc := s.schools[found.value];
        // the populated admin is null when the user is gone: dereferencing it throws
        if sc.admin !in s.users then Reply(Fault, s)
        else if sc.admin != caller then Fail(s, 403, NotSchoolAdmin)
        else Reply(Ok(SchoolDoc(found.value, sc)), s)
  }

  /**
   * `deleteSchool`: by id, else by name; neither (400); no match (404); caller
   * not its admin (403); classrooms still listed (403).
   */
  function DeleteSchool(s: ValidDb, caller: Id, id: Option<Id>, name: string): (r: Reply)
    ensures id.None? && name == "" ==> r == Fail(s, 400, IdOrNameRequired)
    ensures id.Some? && id.value !in s.schools ==> r == Fail(s, 404, SchoolNotFound)
    ensures id.None? && name != "" && !SchoolNameTaken(s, name) ==> r == Fail(s, 404, SchoolNotFound)
    ensures Found(s, id, name, false).Some? ==>
              var k := Found(s, id, name, false).value;
              && (s.schools[k].admin != caller ==> r == Fail(s, 403, NotSchoolAdmin))
              && (s.schools[k].admin == caller && |s.schools[k].classrooms| > 0 ==> r == Fail(s, 403, HasClassrooms))
              && (r.outcome.Ok? <==> Administers(s, caller, k) && s.schools[k].classrooms == [])
    ensures r.outcome.Ok? ==>
              && r.outcome == Ok(Done(SchoolDeleted))
              && exists k ::
                   && k in s.schools && s.schools[k].admin == caller && s.schools[k].classrooms == []
                   && (id.Some? ==> k == id.value)
                   && (id.None? ==> s.schools[k].name == name)
                   && r.store == s.(schools := s.schools - {k})
    ensures !r.outcome.Ok? ==> r.store == s
  {
    var found := Found(s, id, name, false);
    if id.None? && name == "" then Fail(s, 400, IdOrNameRequired)
    else if found.None? then Fail(s, 404, SchoolNotFound)
    else
      var sc := s.schools[found.value];
      if sc.admin != caller then Fail(s, 403, NotSchoolAdmin)
      else if |sc.classrooms| > 0 then Fail(s, 403, HasClassrooms)
      else Reply(Ok(Done(SchoolDeleted)), s.(schools := s.schools - {found.value}))
  }

  // ---------------------------------------------------------------------------
  // Properties
  // ---------------------------------------------------------------------------

  lemma AddSchoolLinked(s: ValidDb, sc: School)
    requires Linked(s) && sc.classrooms == []
    ensures Linked(s.(schools := s.schools[s.nextId := sc], nextId := s.nextId + 1))
  {
    assert s.nextId !in s.schools;
  }

  lemma AddSchoolUnique(s: ValidDb, sc: School)
    requires Unique(s)
    requires forall k :: k in s.schools ==> s.schools[k].name != sc.name
    ensures Unique(s.(schools := s.schools[s.nextId := sc], nextId := s.nextId + 1))
  {
    assert s.nextId !in s.schools;
  }

  lemma AddSchoolAdmins(s: ValidDb, sc: School)
    requires AdminsExist(s) && sc.admin in s.users
    ensures AdminsExist(s.(schools := s.schools[s.nextId := sc], nextId := s.nextId + 1))
  {
  }

  lemma CreateSchoolPreservesInv(s: ValidDb, v: Validators, adminEmail: string,
                                 name: string, address: string, mobileNumber: string)
    requires Inv(s)
    ensures Inv(CreateSchool(s, v, adminEmail, name, address, mobileNumber).store)
  {
    var r := CreateSchool(s, v, adminEmail, name, address, mobileNumber);
    if r.outcome.Ok? {
      var sc := r.outcome.payload.school;
      AddSchoolLinked(s, sc);
      AddSchoolUnique(s, sc);
      AddSchoolAdmins(s, sc);
      KeysPresentFrame(s, r.store);
    }
  }

  /** Rewriting a school's own fields keeps the references when its classrooms list stays. */
  lemma ReplaceSchoolLinked(s: ValidDb, q: Id, after: School)
    requires Linked(s) && q in s.schools && after.classrooms == s.schools[q].classrooms
    ensures Linked(s.(schools := s.schools[q := after]))
  {
  }

  /** Rewriting a school's own fields keeps uniqueness when no other school has its new name. */
  lemma ReplaceSchoolUnique(s: ValidDb, q: Id, after: School)
    requires Unique(s) && q in s.schools
    requires forall k :: k in s.schools && k != q ==> s.schools[k].name != after.name
    ensures Unique(s.(schools := s.schools[q := after]))
  {
  }

  lemma ReplaceSchoolAdmins(s: ValidDb, q: Id, after: School)
    requires AdminsExist(s) && q in s.schools && after.admin in s.users
    ensures AdminsExist(s.(schools := s.schools[q := after]))
  {
  }

  lemma ReplaceSchool(s: ValidDb, q: Id, after: School)
    requires Inv(s) && q in s.schools
    requires after.classrooms == s.schools[q].classrooms && after.admin in s.users
    requires forall k :: k in s.schools && k != q ==> s.schools[k].name != after.name
    ensures Inv(s.(schools := s.schools[q := after]))
  {
    ReplaceSchoolLinked(s, q, after);
    ReplaceSchoolUnique(s, q, after);
    ReplaceSchoolAdmins(s, q, after);
    KeysPresentFrame(s, s.(schools := s.schools[q := after]));
  }

  lemma UpdateSchoolPreservesInv(s: ValidDb, v: Validators, caller: Id, id: Option<Id>,
                                 name: string, address: string, mobileNumber: string, admin: string)
    requires Inv(s)
    ensures Inv(UpdateSchool(s, v, caller, id, name, address, mobileNumber, admin).store)
  {
    var r := UpdateSchool(s, v, caller, id, name, address, mobileNumber, admin);
    if r.outcome.Ok? {
      var after := r.outcome.payload.school;
      forall k | k in s.schools && k != id.value
        ensures s.schools[k].name != after.name
      {
        if name == "" {
          assert after.name == s.schools[id.value].name;
        }
      }
      ReplaceSchool(s, id.value, after);
    }
  }

  /** Removing a school whose classrooms list is empty keeps the invariant: no classroom points at it. */
  lemma RemoveEmptySchool(s: ValidDb, k: Id)
    requires Linked(s) && k in s.schools && s.schools[k].classrooms == []
    ensures Linked(s.(schools := s.schools - {k}))
  {
    forall c | c in s.classrooms
      ensures s.classrooms[c].school != k
    {
      assert c in s.schools[s.classrooms[c].school].classrooms;
    }
  }

  lemma RemoveSchoolUnique(s: ValidDb, k: Id)
    requires Unique(s) && AdminsExist(s)
    ensures Unique(s.(schools := s.schools - {k})) && AdminsExist(s.(schools := s.schools - {k}))
  {
  }

  lemma DeleteSchoolPreservesInv(s: ValidDb, caller: Id, id: Option<Id>, name: string)
    requires Inv(s)
    ensures Inv(DeleteSchool(s, caller, id, name).store)
  {
    var r := DeleteSchool(s, caller, id, name);
    if r.outcome.Ok? {
      var k := if id.Some? then id.value else SchoolByName(s, name).value;
      RemoveEmptySchool(s, k);
      RemoveSchoolUnique(s, k);
      KeysPresentFrame(s, r.store);
    }
  }

  /** Deleting by id a second time finds nothing: 404 and no change. */
  lemma DeleteSchoolTwice(s: ValidDb, caller: Id, id: Id)
    requires DeleteSchool(s, caller, Some(id), "").outcome.Ok?
    ensures var s' := DeleteSchool(s, caller, Some(id), "").store;
            DeleteSchool(s', caller, Some(id), "") == Fail(s', 404, SchoolNotFound)
  {
  }

  /** The admin of a school that was just created can delete it again, which restores the store (the id counter aside). */
  lemma CreateThenDeleteSchool(s: ValidDb, v: Validators, adminEmail: string,
                               name: string, address: string, mobileNumber: string)
    requires CreateSchool(s, v, adminEmail, name, address, mobileNumber).outcome.Ok?
    ensures var r := CreateSchool(s, v, adminEmail, name, address, mobileNumber);
            var admin := r.outcome.payload.school.admin;
            DeleteSchool(r.store, admin, Some(s.nextId), "") == Reply(Ok(Done(SchoolDeleted)), s.(nextId := s.nextId + 1))
  {
    var r := CreateSchool(s, v, adminEmail, name, address, mobileNumber);
    assert r.store.schools - {s.nextId} == s.schools;
  }

  /** With every admin stored, reading a school never throws. */
  lemma GetSchoolNeverFaults(s: ValidDb, v: Validators, caller: Id, id: Option<Id>, name: string)
    requires AdminsExist(s)
    ensures !GetSchool(s, v, caller, id, name).outcome.Fault?
  {
  }
}
