/**
 * The user manager: `signup` and `login`. Password hashing (`hash`), hash
 * comparison (`compare`) and token signing (`sign`) are foreign libraries and
 * appear here as uninterpreted function parameters.
 */
module UserManager {
  import opened Wrappers
  import opened Store
  import opened Invariants
  import opened Capability

  const EmailInUse := "Email already in use"
  const BadCredentials := "Incorrect username or password"

  /** The record `signup` hands to its validator. */
  function SignupFields(name: string, email: string, password: string, userType: string): Fields {
    WithText(WithText(WithText(WithText(map[], "name", name), "email", email), "password", password), "userType", userType)
  }

  /** The record `login` hands to its validator. */
  function LoginFields(email: string, password: string): Fields {
    WithText(WithText(map[], "email", email), "password", password)
  }

  /**
   * What the User model accepts on create: the required strings, the userType
   * enumeration, and the 6-character minimum, which applies to the stored hash.
   */
  predicate Storable(u: User) {
    && u.name != "" && u.email != "" && |u.password| >= 6
    && (u.userType == "admin" || u.userType == "superadmin")
  }

  /**
   * `signup`: validation (400), then email uniqueness (409), then the user is
   * stored with the hash of the password.
   */
  function Signup(s: ValidDb, v: Validators, hash: string -> string,
                  name: string, email: string, password: string, userType: string): (r: Reply)
    ensures v.createUser(SignupFields(name, email, password, userType)).Some? ==>
              r == Rejected(s, v.createUser(SignupFields(name, email, password, userType)).value)
    ensures v.createUser(SignupFields(name, email, password, userType)).None? && EmailRegistered(s, email) ==>
              r == Fail(s, 409, EmailInUse)
    ensures r.outcome.Ok? <==>
              && v.createUser(SignupFields(name, email, password, userType)).None?
              && !EmailRegistered(s, email)
              && Storable(User(name, email, hash(password), userType))
    ensures r.outcome.Ok? ==>
              var u := User(name, email, hash(password), userType);
              && r.outcome == Ok(CreatedUser(s.nextId, u))
              && r.store == s.(users := s.users[s.nextId := u], nextId := s.nextId + 1)
    ensures !r.outcome.Ok? ==> r.store == s
  {
    var errors := v.createUser(SignupFields(name, email, password, userType));
    if errors.Some? then Rejected(s, errors.value)
    else if UserByEmail(s, email).Some? then Fail(s, 409, EmailInUse)
    else
      var u := User(name, email, hash(password), userType);
      if !Storable(u) then Reply(Fault, s)
      else Reply(Ok(CreatedUser(s.nextId, u)), s.(users := s.users[s.nextId := u], nextId := s.nextId + 1))
  }

  /**
   * `login`: validation (400), then the user with that email and a matching
   * password; an unknown email and a wrong password get the same 401.
   */
  function Login(s: ValidDb, v: Validators, compare: (string, string) -> bool, sign: (Id, string) -> string,
                 email: string, password: string): (r: Reply)
    ensures r.store == s
    ensures v.login(LoginFields(email, password)).Some? ==>
              r.outcome == Err(400, Invalid(v.login(LoginFields(email, password)).value))
    ensures v.login(LoginFields(email, password)).None? && !r.outcome.Ok? ==>
              r.outcome == Err(401, Says(BadCredentials))
    ensures v.login(LoginFields(email, password)).None? && !EmailRegistered(s, email) ==>
              r.outcome == Err(401, Says(BadCredentials))
    ensures r.outcome.Ok? ==>
              && email != ""
              && exists k :: && k in s.users && s.users[k].email == email
                          && compare(password, s.users[k].password)
                          && r.outcome == Ok(LoginToken(sign(k, email)))
  {
    var errors := v.login(LoginFields(email, password));
    if errors.Some? then Rejected(s, errors.value)
    else match UserByEmail(s, email)
      case None => Fail(s, 401, BadCredentials)
      case Some(k) =>
        if !compare(password, s.users[k].password) then Fail(s, 401, BadCredentials)
        else Reply(Ok(LoginToken(sign(k, s.users[k].email))), s)
  }

  lemma SignupPreservesInv(s: ValidDb, v: Validators, hash: string -> string,
                           name: string, email: string, password: string, userType: string)
    requires Inv(s)
    ensures Inv(Signup(s, v, hash, name, email, password, userType).store)
  {
  }

  /** With unique emails, login succeeds exactly for a stored email whose hash matches the password. */
  lemma LoginSucceedsIff(s: ValidDb, v: Validators, compare: (string, string) -> bool, sign: (Id, string) -> string,
                         email: string, password: string)
    requires UserEmailsUnique(s)
    ensures Login(s, v, compare, sign, email, password).outcome.Ok? <==>
              && v.login(LoginFields(email, password)).None?
              && email != ""
              && exists k :: k in s.users && s.users[k].email == email && compare(password, s.users[k].password)
  {
    if v.login(LoginFields(email, password)).None? && email != "" {
      if k :| k in s.users && s.users[k].email == email && compare(password, s.users[k].password) {
        var j := UserByEmail(s, email);
        assert j.Some?;
        assert j.value == k;
      }
    }
  }

  /** A user who has just signed up can log in with the same password, when `compare` accepts a password against its own hash. */
  lemma SignupThenLogin(s: ValidDb, v: Validators, hash: string -> string, compare: (string, string) -> bool,
                        sign: (Id, string) -> string, name: string, email: string, password: string, userType: string)
    requires forall p :: compare(p, hash(p))
    requires v.login(LoginFields(email, password)).None?
    requires Signup(s, v, hash, name, email, password, userType).outcome.Ok?
    ensures Login(Signup(s, v, hash, name, email, password, userType).store, v, compare, sign, email, password).outcome
            == Ok(LoginToken(sign(s.nextId, email)))
  {
    var s' := Signup(s, v, hash, name, email, password, userType).store;
    var j := UserByEmail(s', email);
    assert s'.users[s.nextId].email == email;
    assert j.Some?;
    assert j.value == s.nextId;
  }
}
