/**
 * The account service: registration, login, lookups and profile updates over the
 * users collection. Passwords are kept only as digests of an abstract password hash;
 * every user handed back by a lookup is the document's JSON form, without the password.
 */
module UserServiceModel {
  import opened Results
  import opened Text
  import opened UserModel
  import Messages

  /** The length of a bcrypt digest. */
  const DigestLength := 60

  /** The fields of a registration request; a JSON field may be absent. */
  datatype RegisterData = RegisterData(
    firstName: Option<string>,
    lastName: Option<string>,
    email: Option<string>,
    password: Option<string>)

  datatype LoginData = LoginData(email: Option<string>, password: Option<string>)

  /** A partial `RegisterData`: the fields a caller supplies, by name. */
  type UpdateData = map<string, string>

  /** A thrown error: its message and, for errors raised by the database, their code. */
  datatype ServiceError = Error(message: string, code: Option<int>)

  /**
   * What the model assumes of `bcrypt.hash`: distinct passwords give distinct digests, and a
   * digest is at least as long as bcrypt's 60 characters. `bcrypt.compare(p, h)` is then
   * `hash(p) == h`.
   */
  ghost predicate IsPasswordHash(hash: string -> string)
  {
    && (forall p, q :: hash(p) == hash(q) ==> p == q)
    && (forall p :: |hash(p)| >= DigestLength)
  }

  /** A function the assumption admits: a fixed 60-character prefix followed by the password. */
  lemma PasswordHashExists()
    ensures IsPasswordHash(p => seq(DigestLength, _ => '$') + p)
  {
    var prefix: string := seq(DigestLength, _ => '$');
    var hash := (p: string) => prefix + p;
    forall p, q | hash(p) == hash(q) ensures p == q {
      assert p == hash(p)[DigestLength..] && q == hash(q)[DigestLength..];
    }
  }

  /** The update field `k` is present and truthy. */
  predicate Supplied(data: UpdateData, k: string) { k in data && data[k] != "" }

  const IllegalCompareArguments := "Illegal arguments: string, undefined"

  /** The message of a failed cast of `id` to an ObjectId. */
  function CastErrorMessage(id: Id): string
  {
    "Cast to ObjectId failed for value \"" + id + "\" (type string) at path \"_id\" for model \"User\""
  }

  function SaveFailure(e: SaveError): ServiceError
  {
    Error(SaveErrorMessage(e), if e.DuplicateKey? then Some(DuplicateKeyCode) else None)
  }

  // ---------------------------------------------------------------------------
  // register

  /** The service's own checks, in its order; the first that fails names the error. */
  function RegisterError(data: RegisterData): Option<string>
  {
    if !Present(data.firstName) || !Present(data.lastName) || !Present(data.email) || !Present(data.password) then
      Some(Messages.AllFieldsRequired)
    else if !IsEmail(data.email.value) then Some(Messages.EmailFormatInvalid)
    else if |data.password.value| < PasswordMinLength then Some(Messages.PasswordTooShort)
    else if |Trim(data.firstName.value)| < NameMinLength then Some(Messages.FirstNameTooShort)
    else if |Trim(data.lastName.value)| < NameMinLength then Some(Messages.LastNameTooShort)
    else None
  }

  /** The document `register` builds: trimmed names, normalised e-mail, hashed password. */
  function NewUser(data: RegisterData, hash: string -> string, now: Timestamp): Doc
    requires data.firstName.Some? && data.lastName.Some? && data.email.Some? && data.password.Some?
  {
    Stamped(Doc(Some(Trim(data.firstName.value)), Some(Trim(data.lastName.value)),
                Some(NormalizeEmail(data.email.value)), Some(hash(data.password.value)),
                None, None, None), now)
  }

  /**
   * `UserService.register` as a function of the collection: the saved user (with its id) or
   * the error thrown, and the collection afterwards. `newId` is the ObjectId the driver assigns.
   */
  function RegisterOutcome(users: map<Id, Doc>, hash: string -> string, data: RegisterData, newId: Id, now: Timestamp)
    : (Result<(Id, Doc), ServiceError>, map<Id, Doc>)
  {
    match RegisterError(data)
    case Some(msg) => (Failure(Error(msg, None)), users)
    case None =>
      if EmailTaken(users, NormalizeEmail(data.email.value), None) then
        (Failure(Error(Messages.DuplicateEmail, None)), users)
      else
        var doc := NewUser(data, hash, now);
        match Save(users, newId, doc)
        case Success(m) => (Success((newId, Cast(doc))), m)
        case Failure(e) => (Failure(SaveFailure(e)), users)
  }

  /** The service accepts a request exactly when every field is given and meets its constraint. */
  lemma RegisterErrorNoneIff(data: RegisterData)
    ensures RegisterError(data) == None <==>
      && Present(data.firstName) && Present(data.lastName) && Present(data.email) && Present(data.password)
      && IsEmail(data.email.value) && |data.password.value| >= PasswordMinLength
      && |Trim(data.firstName.value)| >= NameMinLength && |Trim(data.lastName.value)| >= NameMinLength
  {
  }

  /** A request the checks refuse, or whose e-mail is taken, throws and leaves the collection unchanged. */
  lemma RegisterRefusal(users: map<Id, Doc>, hash: string -> string, data: RegisterData, newId: Id, now: Timestamp)
    ensures RegisterError(data).Some? ==>
      RegisterOutcome(users, hash, data, newId, now) == (Failure(Error(RegisterError(data).value, None)), users)
    ensures RegisterError(data).None? && EmailTaken(users, NormalizeEmail(data.email.value), None) ==>
      RegisterOutcome(users, hash, data, newId, now) == (Failure(Error(Messages.DuplicateEmail, None)), users)
    ensures RegisterOutcome(users, hash, data, newId, now).0.Failure? ==>
      RegisterOutcome(users, hash, data, newId, now).1 == users
  {
    match RegisterError(data)
    case Some(_) =>
    case None =>
      if !EmailTaken(users, NormalizeEmail(data.email.value), None) {
        match Save(users, newId, NewUser(data, hash, now))
        case Success(_) =>
        case Failure(_) =>
      }
  }

  /** The setters change nothing on the document `register` builds. */
  lemma NewUserIsCast(data: RegisterData, hash: string -> string, now: Timestamp)
    requires data.firstName.Some? && data.lastName.Some? && data.email.Some? && data.password.Some?
    ensures IsCast(NewUser(data, hash, now))
  {
    TrimIdempotent(data.firstName.value);
    TrimIdempotent(data.lastName.value);
    NormalizeEmailIdempotent(data.email.value);
  }

  /**
   * A successful registration adds exactly one document under the new id: the trimmed names,
   * the normalised e-mail, the digest of the password (never the password), both timestamps.
   */
  lemma RegisterStoresHashedUser(users: map<Id, Doc>, hash: string -> string, data: RegisterData, newId: Id, now: Timestamp)
    requires RegisterOutcome(users, hash, data, newId, now).0.Success?
    ensures var (r, m) := RegisterOutcome(users, hash, data, newId, now);
      && data.firstName.Some? && data.lastName.Some? && data.email.Some? && data.password.Some?
      && r.value == (newId, m[newId])
      && m == users[newId := m[newId]]
      && m[newId] == Doc(Some(Trim(data.firstName.value)), Some(Trim(data.lastName.value)),
                         Some(NormalizeEmail(data.email.value)), Some(hash(data.password.value)),
                         None, Some(now), Some(now))
  {
    assert RegisterError(data).None? && !EmailTaken(users, NormalizeEmail(data.email.value), None);
    var doc := NewUser(data, hash, now);
    NewUserIsCast(data, hash, now);
    SaveResult(users, newId, doc);
    var m := Save(users, newId, doc).value;
    assert RegisterOutcome(users, hash, data, newId, now) == (Success((newId, doc)), m);
    assert m == users[newId := doc];
  }

  /** Registration keeps the collection's invariant. */
  lemma RegisterKeepsTableValid(users: map<Id, Doc>, hash: string -> string, data: RegisterData, newId: Id, now: Timestamp)
    requires ValidTable(users) && IsCanonicalId(newId)
    ensures ValidTable(RegisterOutcome(users, hash, data, newId, now).1)
  {
    if RegisterError(data).None? && !EmailTaken(users, NormalizeEmail(data.email.value), None) {
      var doc := NewUser(data, hash, now);
      if Save(users, newId, doc).Success? {
        SaveKeepsTableValid(users, newId, doc);
      }
    }
  }

  /**
   * Once the service's checks pass and the e-mail is free, the write fails only on a name longer
   * than 50 characters; the unique index never refuses it, because the e-mail was checked first.
   */
  lemma RegisterWriteFailsOnlyOnLongNames(users: map<Id, Doc>, hash: string -> string, data: RegisterData, newId: Id, now: Timestamp)
    requires IsPasswordHash(hash)
    requires RegisterError(data).None? && !EmailTaken(users, NormalizeEmail(data.email.value), None)
    ensures var r := RegisterOutcome(users, hash, data, newId, now).0;
      r.Success? <==> |Trim(data.firstName.value)| <= NameMaxLength && |Trim(data.lastName.value)| <= NameMaxLength
    ensures RegisterOutcome(users, hash, data, newId, now).0.Failure? ==>
      RegisterOutcome(users, hash, data, newId, now).0.error.code.None?
  {
    var doc := NewUser(data, hash, now);
    NewUserIsCast(data, hash, now);
    RegisterErrorNoneIff(data);
    NormalizedEmailOfEmail(data.email.value);
    ValidIff(doc);
    SaveResult(users, newId, doc);
    match Save(users, newId, doc)
    case Success(_) =>
    case Failure(e) =>
      assert e.Invalid?;
  }

  // ---------------------------------------------------------------------------
  // login, getUserById, getUserByEmail

  /** `UserService.login`: the user, without the password, whose e-mail and password match. */
  function Login(users: map<Id, Doc>, hash: string -> string, data: LoginData): Result<PublicUser, ServiceError>
    requires EmailsUnique(users)
  {
    if !Present(data.email) || !Present(data.password) then Failure(Error(Messages.CredentialsRequired, None))
    else
      match FindByEmail(users, NormalizeEmail(data.email.value))
      case None => Failure(Error(Messages.InvalidCredentials, None))
      case Some(id) =>
        if users[id].password.None? then Failure(Error(IllegalCompareArguments, None))
        else if hash(data.password.value) != users[id].password.value then Failure(Error(Messages.InvalidCredentials, None))
        else Success(ToJSON(id, users[id]))
  }

  /** An unknown e-mail and a wrong password throw the very same error. */
  lemma LoginFailuresIndistinguishable(users: map<Id, Doc>, hash: string -> string, data: LoginData)
    requires EmailsUnique(users) && Present(data.email) && Present(data.password)
    ensures !EmailTaken(users, NormalizeEmail(data.email.value), None) ==>
      Login(users, hash, data) == Failure(Error(Messages.InvalidCredentials, None))
    ensures forall id | id in users && users[id].email == Some(NormalizeEmail(data.email.value)) ::
      users[id].password.Some? && users[id].password != Some(hash(data.password.value)) ==>
        Login(users, hash, data) == Failure(Error(Messages.InvalidCredentials, None))
  {
  }

  /** A successful login returns the matching document's JSON form. */
  lemma LoginFindsTheUser(users: map<Id, Doc>, hash: string -> string, data: LoginData)
    requires EmailsUnique(users)
    requires Login(users, hash, data).Success?
    ensures Present(data.email) && Present(data.password)
    ensures exists id | id in users ::
      && users[id].email == Some(NormalizeEmail(data.email.value))
      && users[id].password == Some(hash(data.password.value))
      && Login(users, hash, data).value == ToJSON(id, users[id])
  {
    var id := FindByEmail(users, NormalizeEmail(data.email.value)).value;
    assert users[id].password == Some(hash(data.password.value));
  }

  /**
   * After a successful registration, logging in with any spelling of the e-mail that normalises
   * to the same address succeeds with exactly the registered password and with no other.
   */
  lemma RegisterThenLogin(users: map<Id, Doc>, hash: string -> string, data: RegisterData, newId: Id, now: Timestamp,
                          email: string, password: string)
    requires ValidTable(users) && IsCanonicalId(newId) && IsPasswordHash(hash)
    requires RegisterOutcome(users, hash, data, newId, now).0.Success?
    requires email != "" && password != ""
    requires NormalizeEmail(email) == NormalizeEmail(data.email.value)
    ensures var m := RegisterOutcome(users, hash, data, newId, now).1;
      && EmailsUnique(m)
      && (Login(m, hash, LoginData(Some(email), Some(password))).Success? <==> password == data.password.value)
      && (password == data.password.value ==>
            Login(m, hash, LoginData(Some(email), Some(password))) == Success(ToJSON(newId, m[newId])))
  {
    RegisterKeepsTableValid(users, hash, data, newId, now);
    RegisterStoresHashedUser(users, hash, data, newId, now);
    var m := RegisterOutcome(users, hash, data, newId, now).1;
    var found := FindByEmail(m, NormalizeEmail(email));
    assert m[newId].email == Some(NormalizeEmail(email));
    assert found == Some(newId);
  }

  /**
   * `UserService.getUserById`: an id that is not an ObjectId throws; a well-formed one, in any
   * case, finds the document stored under the ObjectId it names, or nothing.
   */
  function GetUserById(users: map<Id, Doc>, id: Id): (r: Result<Option<PublicUser>, ServiceError>)
    ensures r.Failure? <==> !IsObjectId(id)
    ensures r.Failure? ==> r.error == Error(Messages.UserNotFound, None)
    ensures IsObjectId(id) ==> r.Success? && (r.value.Some? <==> CastId(id) in users)
    ensures IsObjectId(id) && CastId(id) in users ==> r == Success(Some(ToJSON(CastId(id), users[CastId(id)])))
  {
    if !IsObjectId(id) then Failure(Error(Messages.UserNotFound, None))
    else
      var key := CastId(id);
      if key in users then Success(Some(ToJSON(key, users[key])))
      else Success(None)
  }

  /** `UserService.getUserByEmail`: the user holding the normalised e-mail, if any. */
  function GetUserByEmail(users: map<Id, Doc>, email: string): (r: Option<PublicUser>)
    requires EmailsUnique(users)
    ensures r.None? <==> !EmailTaken(users, NormalizeEmail(email), None)
    ensures r.Some? ==> exists id | id in users :: users[id].email == Some(NormalizeEmail(email)) && r.value == ToJSON(id, users[id])
  {
    match FindByEmail(users, NormalizeEmail(email))
    case None => None
    case Some(id) => Some(ToJSON(id, users[id]))
  }

  /** What the lookups return does not depend on any stored password. */
  lemma LookupsIgnorePasswords(users: map<Id, Doc>, id: Id, p: Option<string>, email: string)
    requires EmailsUnique(users) && id in users
    ensures var other := users[id := users[id].(password := p)];
      && EmailsUnique(other)
      && (forall x :: GetUserById(other, x) == GetUserById(users, x))
      && GetUserByEmail(other, email) == GetUserByEmail(users, email)
  {
    var other := users[id := users[id].(password := p)];
    assert forall k | k in users :: k in other && other[k].email == users[k].email;
    assert other.Keys == users.Keys;
    forall x ensures GetUserById(other, x) == GetUserById(users, x) {
      if IsObjectId(x) && CastId(x) == id {
        ToJSONIgnoresPassword(id, users[id], p);
      }
    }
    var e := NormalizeEmail(email);
    if EmailTaken(users, e, None) {
      var a := FindByEmail(users, e).value;
      var b := FindByEmail(other, e).value;
      assert a == b;
      ToJSONIgnoresPassword(a, users[a], p);
    }
  }

  // ---------------------------------------------------------------------------
  // updateUser

  /** The update after the service rewrites it: password hashed, e-mail normalised, names trimmed. */
  function PrepareUpdate(data: UpdateData, hash: string -> string): UpdateData
  {
    var d1 := if Supplied(data, "password") then data["password" := hash(data["password"])] else data;
    var d2 := if Supplied(d1, "email") then d1["email" := NormalizeEmail(d1["email"])] else d1;
    var d3 := if Supplied(d2, "firstName") then d2["firstName" := Trim(d2["firstName"])] else d2;
    if Supplied(d3, "lastName") then d3["lastName" := Trim(d3["lastName"])] else d3
  }

  /**
   * The rewrite keeps the update's keys and only rewrites the four schema paths: names trimmed,
   * e-mail normalised, a non-empty password replaced by its digest; every other key is kept as sent.
   */
  lemma PrepareUpdateValues(data: UpdateData, hash: string -> string)
    ensures var u := PrepareUpdate(data, hash);
      && u.Keys == data.Keys
      && ("firstName" in data ==> u["firstName"] == Trim(data["firstName"]))
      && ("lastName" in data ==> u["lastName"] == Trim(data["lastName"]))
      && ("email" in data ==> u["email"] == NormalizeEmail(data["email"]))
      && ("password" in data ==> u["password"] == if data["password"] == "" then "" else hash(data["password"]))
      && (forall k | k in data && k !in UserModel.SchemaPaths :: u[k] == data[k])
  {
    assert Trim("") == "" && NormalizeEmail("") == "" by {
      assert Lower("") == "";
      assert TrimStart("") == "" && TrimEnd("") == "";
    }
  }

  /** The validators `runValidators` runs: those of the schema paths present in the update, after the setters. */
  function UpdateErrors(u: UpdateData): seq<FieldError>
  {
    Errors([
      if "firstName" in u then FirstNameError(Some(Trim(u["firstName"]))) else None,
      if "lastName" in u then LastNameError(Some(Trim(u["lastName"]))) else None,
      if "email" in u then EmailError(Some(NormalizeEmail(u["email"]))) else None,
      if "password" in u then PasswordError(Some(u["password"])) else None])
  }

  /** The stored document with the update's schema paths overwritten and `updatedAt` refreshed. */
  function ApplyUpdate(d: Doc, u: UpdateData, now: Timestamp): Doc
  {
    Cast(d.(
      firstName := if "firstName" in u then Some(u["firstName"]) else d.firstName,
      lastName := if "lastName" in u then Some(u["lastName"]) else d.lastName,
      email := if "email" in u then Some(u["email"]) else d.email,
      password := if "password" in u then Some(u["password"]) else d.password,
      updatedAt := Some(now)))
  }

  /**
   * `UserService.updateUser` as a function of the collection. A malformed id fails its cast
   * (in the e-mail check when an e-mail is supplied, in the update otherwise: the same error);
   * a well-formed one is cast to the ObjectId it names, both for `$ne` and for the update.
   */
  function UpdateOutcome(users: map<Id, Doc>, hash: string -> string, id: Id, data: UpdateData, now: Timestamp)
    : (Result<Option<PublicUser>, ServiceError>, map<Id, Doc>)
  {
    if !IsObjectId(id) then (Failure(Error(CastErrorMessage(id), None)), users)
    else if Supplied(data, "email") && EmailTaken(users, NormalizeEmail(data["email"]), Some(CastId(id))) then
      (Failure(Error(Messages.DuplicateEmail, None)), users)
    else FindByIdAndUpdate(users, CastId(id), PrepareUpdate(data, hash), now)
  }

  /**
   * Mongoose `findByIdAndUpdate(id, u, { new: true, runValidators: true })` with the password
   * left out of the answer, on an id that casts: the update validators run first, a missing
   * document answers nothing, and the unique index refuses an e-mail held by another document.
   */
  function FindByIdAndUpdate(users: map<Id, Doc>, id: Id, u: UpdateData, now: Timestamp)
    : (Result<Option<PublicUser>, ServiceError>, map<Id, Doc>)
  {
    var errs := UpdateErrors(u);
    if errs != [] then (Failure(Error("Validation failed: " + Describe(errs), None)), users)
    else if id !in users then (Success(None), users)
    else
      var d := ApplyUpdate(users[id], u, now);
      if d.email.Some? && EmailTaken(users, d.email.value, Some(id)) then
        (Failure(Error(SaveErrorMessage(DuplicateKey(d.email.value)), None)), users)
      else
        (Success(Some(ToJSON(id, d))), users[id := d])
  }

  /** Every outcome other than an updated user leaves the collection unchanged. */
  lemma UpdateFailureWritesNothing(users: map<Id, Doc>, hash: string -> string, id: Id, data: UpdateData, now: Timestamp)
    ensures var (r, m) := UpdateOutcome(users, hash, id, data, now);
      !(r.Success? && r.value.Some?) ==> m == users
  {
  }

  /**
   * Another user's e-mail is refused with the duplicate-e-mail error, and nothing is written;
   * another user is one stored under a different ObjectId, whatever the case of `id`.
   */
  lemma UpdateRefusesOthersEmail(users: map<Id, Doc>, hash: string -> string, id: Id, other: Id, data: UpdateData, now: Timestamp)
    requires IsObjectId(id) && Supplied(data, "email")
    requires other in users && other != CastId(id) && users[other].email == Some(NormalizeEmail(data["email"]))
    ensures UpdateOutcome(users, hash, id, data, now) == (Failure(Error(Messages.DuplicateEmail, None)), users)
  {
  }

  /** A well-formed id that names no stored ObjectId yields no user once the update passes its checks. */
  lemma UpdateUnknownId(users: map<Id, Doc>, hash: string -> string, id: Id, data: UpdateData, now: Timestamp)
    requires IsObjectId(id) && CastId(id) !in users
    requires !(Supplied(data, "email") && EmailTaken(users, NormalizeEmail(data["email"]), Some(CastId(id))))
    requires UpdateErrors(PrepareUpdate(data, hash)) == []
    ensures UpdateOutcome(users, hash, id, data, now) == (Success(None), users)
  {
  }

  /** The update a stored document receives, field by field: only supplied fields change. */
  ghost predicate UpdatedFrom(d: Doc, old_: Doc, hash: string -> string, data: UpdateData, now: Timestamp)
  {
    && d.firstName == (if "firstName" in data then Some(Trim(data["firstName"])) else old_.firstName)
    && d.lastName == (if "lastName" in data then Some(Trim(data["lastName"])) else old_.lastName)
    && d.email == (if "email" in data then Some(NormalizeEmail(data["email"])) else old_.email)
    && d.password == (if "password" in data then Some(hash(data["password"])) else old_.password)
    && d.username == old_.username
    && d.createdAt == old_.createdAt
    && d.updatedAt == Some(now)
  }

  /** Validators on the update pass exactly when each supplied field, rewritten, meets its constraint. */
  lemma UpdateErrorsNoneIff(u: UpdateData)
    ensures UpdateErrors(u) == [] <==>
      && ("firstName" in u ==> NameOk(Some(Trim(u["firstName"]))))
      && ("lastName" in u ==> NameOk(Some(Trim(u["lastName"]))))
      && ("email" in u ==> IsEmail(NormalizeEmail(u["email"])))
      && ("password" in u ==> |u["password"]| >= PasswordMinLength)
  {
    var checks := [
      if "firstName" in u then FirstNameError(Some(Trim(u["firstName"]))) else None,
      if "lastName" in u then LastNameError(Some(Trim(u["lastName"]))) else None,
      if "email" in u then EmailError(Some(NormalizeEmail(u["email"]))) else None,
      if "password" in u then PasswordError(Some(u["password"])) else None];
    assert checks[0] == (if "firstName" in u then FirstNameError(Some(Trim(u["firstName"]))) else None);
    assert checks[1] == (if "lastName" in u then LastNameError(Some(Trim(u["lastName"]))) else None);
    assert checks[2] == (if "email" in u then EmailError(Some(NormalizeEmail(u["email"]))) else None);
    assert checks[3] == (if "password" in u then PasswordError(Some(u["password"])) else None);
  }

  /** The branch of `updateUser` that writes: every check passed, and what is written. */
  lemma UpdateWritten(users: map<Id, Doc>, hash: string -> string, id: Id, data: UpdateData, now: Timestamp)
    requires UpdateOutcome(users, hash, id, data, now).0.Success?
    requires UpdateOutcome(users, hash, id, data, now).0.value.Some?
    ensures IsObjectId(id) && CastId(id) in users
    ensures !(Supplied(data, "email") && EmailTaken(users, NormalizeEmail(data["email"]), Some(CastId(id))))
    ensures UpdateErrors(PrepareUpdate(data, hash)) == []
    ensures var key := CastId(id);
      var d := ApplyUpdate(users[key], PrepareUpdate(data, hash), now);
      && !(d.email.Some? && EmailTaken(users, d.email.value, Some(key)))
      && UpdateOutcome(users, hash, id, data, now) == (Success(Some(ToJSON(key, d))), users[key := d])
  {
  }

  /** Applying an update the validators accept to a stored document gives a stored document. */
  lemma ApplyUpdateKeepsStored(d: Doc, u: UpdateData, now: Timestamp)
    requires IsStored(d) && UpdateErrors(u) == []
    ensures IsStored(ApplyUpdate(d, u, now))
  {
    UpdateErrorsNoneIff(u);
    ValidIff(d);
    var pre := d.(
      firstName := if "firstName" in u then Some(u["firstName"]) else d.firstName,
      lastName := if "lastName" in u then Some(u["lastName"]) else d.lastName,
      email := if "email" in u then Some(u["email"]) else d.email,
      password := if "password" in u then Some(u["password"]) else d.password,
      updatedAt := Some(now));
    CastIdempotent(pre);
    var r := Cast(pre);
    assert r == ApplyUpdate(d, u, now);
    assert r.firstName == if "firstName" in u then Some(Trim(u["firstName"])) else d.firstName;
    assert r.lastName == if "lastName" in u then Some(Trim(u["lastName"])) else d.lastName;
    assert r.email == if "email" in u then Some(NormalizeEmail(u["email"])) else d.email;
    ValidIff(r);
  }

  /**
   * A successful update rewrites only the supplied fields of the one document stored under the
   * ObjectId `id` names: names trimmed, e-mail normalised, password hashed; `updatedAt` becomes `now`.
   */
  lemma UpdateChangesOnlySupplied(users: map<Id, Doc>, hash: string -> string, id: Id, data: UpdateData, now: Timestamp)
    requires ValidTable(users) && IsPasswordHash(hash)
    requires UpdateOutcome(users, hash, id, data, now).0.Success?
    requires UpdateOutcome(users, hash, id, data, now).0.value.Some?
    ensures IsObjectId(id) && CastId(id) in users
    ensures var (r, m) := UpdateOutcome(users, hash, id, data, now);
      var key := CastId(id);
      && key in m
      && m == users[key := m[key]]
      && UpdatedFrom(m[key], users[key], hash, data, now)
      && r.value.value == ToJSON(key, m[key])
  {
    UpdateWritten(users, hash, id, data, now);
    var u := PrepareUpdate(data, hash);
    PrepareUpdateValues(data, hash);
    UpdateErrorsNoneIff(u);
    var old_ := users[CastId(id)];
    var d := ApplyUpdate(old_, u, now);
    assert IsCast(old_);
    if "firstName" in data {
      TrimIdempotent(data["firstName"]);
    }
    if "lastName" in data {
      TrimIdempotent(data["lastName"]);
    }
    if "email" in data {
      NormalizeEmailIdempotent(data["email"]);
    }
    if "password" in data {
      assert data["password"] != "";
    }
    assert UpdatedFrom(d, old_, hash, data, now);
  }

  /** An update keeps the collection's invariant. */
  lemma UpdateKeepsTableValid(users: map<Id, Doc>, hash: string -> string, id: Id, data: UpdateData, now: Timestamp)
    requires ValidTable(users) && IsPasswordHash(hash)
    ensures ValidTable(UpdateOutcome(users, hash, id, data, now).1)
  {
    var r := UpdateOutcome(users, hash, id, data, now).0;
    if r.Success? && r.value.Some? {
      UpdateWritten(users, hash, id, data, now);
      var key := CastId(id);
      var u := PrepareUpdate(data, hash);
      var d := ApplyUpdate(users[key], u, now);
      ApplyUpdateKeepsStored(users[key], u, now);
      PutKeepsEmailsUnique(users, key, d);
    } else {
      UpdateFailureWritesNothing(users, hash, id, data, now);
    }
  }

  /**
   * With a well-formed id, in any case, that names a stored user, an update succeeds exactly when
   * the supplied e-mail is free and the validators pass: the unique index itself never refuses it.
   */
  lemma UpdateSucceedsIff(users: map<Id, Doc>, hash: string -> string, id: Id, data: UpdateData, now: Timestamp)
    requires ValidTable(users) && IsObjectId(id) && CastId(id) in users
    ensures var r := UpdateOutcome(users, hash, id, data, now).0;
      r.Success? <==>
        && !(Supplied(data, "email") && EmailTaken(users, NormalizeEmail(data["email"]), Some(CastId(id))))
        && UpdateErrors(PrepareUpdate(data, hash)) == []
  {
    var key := CastId(id);
    var u := PrepareUpdate(data, hash);
    if !(Supplied(data, "email") && EmailTaken(users, NormalizeEmail(data["email"]), Some(key))) && UpdateErrors(u) == [] {
      var d := ApplyUpdate(users[key], u, now);
      UpdateErrorsNoneIff(u);
      if "email" in data {
        NormalizeEmailIdempotent(data["email"]);
        assert u["email"] == NormalizeEmail(data["email"]);
      } else {
        assert d.email == users[key].email;
        assert IsCast(users[key]);
      }
    }
  }

  /**
   * Setting one's own e-mail again, in any spelling that normalises to it and with the id in any
   * case, succeeds and changes only `updatedAt`.
   */
  lemma UpdateOwnEmail(users: map<Id, Doc>, hash: string -> string, id: Id, email: string, now: Timestamp)
    requires ValidTable(users) && IsObjectId(id) && CastId(id) in users
    requires users[CastId(id)].email == Some(NormalizeEmail(email))
    ensures var (r, m) := UpdateOutcome(users, hash, id, map["email" := email], now);
      var key := CastId(id);
      r.Success? && m == users[key := users[key].(updatedAt := Some(now))]
  {
    var key := CastId(id);
    var data := map["email" := email];
    var u := PrepareUpdate(data, hash);
    ValidIff(users[key]);
    NormalizeEmailIdempotent(email);
    assert email != "" by { assert NormalizeEmail("") == ""; }
    assert u == map["email" := NormalizeEmail(email)];
    UpdateErrorsNoneIff(u);
    assert !EmailTaken(users, NormalizeEmail(email), Some(key));
    UpdateSucceedsIff(users, hash, id, data, now);
  }

  // ---------------------------------------------------------------------------
  // The service over a mutable collection.

  class UserService {
    /** The users collection, by id. */
    var users: map<Id, Doc>
    /** `bcrypt.hash` with its fixed cost factor. */
    const hash: string -> string

    ghost predicate Valid()
      reads this
    {
      IsPasswordHash(hash) && ValidTable(users)
    }

    constructor (hash: string -> string)
      requires IsPasswordHash(hash)
      ensures Valid() && this.hash == hash && users == map[]
    {
      this.hash := hash;
      users := map[];
    }

    /** `UserService.register`. `newId` is the fresh ObjectId the driver assigns to the new document. */
    method Register(data: RegisterData, newId: Id, now: Timestamp) returns (r: Result<(Id, Doc), ServiceError>)
      requires Valid() && IsCanonicalId(newId) && newId !in users
      modifies this
      ensures Valid()
      ensures (r, users) == RegisterOutcome(old(users), hash, data, newId, now)
    {
      RegisterKeepsTableValid(users, hash, data, newId, now);
      var error := RegisterError(data);
      if error.Some? {
        return Failure(Error(error.value, None));
      }
      if EmailTaken(users, NormalizeEmail(data.email.value), None) {
        return Failure(Error(Messages.DuplicateEmail, None));
      }
      var user := NewUser(data, hash, now);
      var saved := Save(users, newId, user);
      if saved.Failure? {
        return Failure(SaveFailure(saved.error));
      }
      users := saved.value;
      r := Success((newId, Cast(user)));
    }

    /** `UserService.updateUser`, rewriting its argument field by field before the write. */
    method UpdateUser(id: Id, updateData: UpdateData, now: Timestamp) returns (r: Result<Option<PublicUser>, ServiceError>)
      requires Valid()
      modifies this
      ensures Valid()
      ensures (r, users) == UpdateOutcome(old(users), hash, id, updateData, now)
    {
      UpdateKeepsTableValid(users, hash, id, updateData, now);
      var data := updateData;
      if Supplied(data, "password") {
        data := data["password" := hash(data["password"])];
      }
      if Supplied(data, "email") {
        if !IsObjectId(id) {
          return Failure(Error(CastErrorMessage(id), None));
        }
        var email := NormalizeEmail(data["email"]);
        if EmailTaken(users, email, Some(CastId(id))) {
          return Failure(Error(Messages.DuplicateEmail, None));
        }
        data := data["email" := email];
      }
      if Supplied(data, "firstName") {
        data := data["firstName" := Trim(data["firstName"])];
      }
      if Supplied(data, "lastName") {
        data := data["lastName" := Trim(data["lastName"])];
      }
      if !IsObjectId(id) {
        return Failure(Error(CastErrorMessage(id), None));
      }
      assert data == PrepareUpdate(updateData, hash);
      r := FindAndUpdate(CastId(id), data, now);
    }

    /** The document update itself; the class invariant is restored by the caller. */
    method FindAndUpdate(id: Id, data: UpdateData, now: Timestamp) returns (r: Result<Option<PublicUser>, ServiceError>)
      modifies this
      ensures (r, users) == FindByIdAndUpdate(old(users), id, data, now)
    {
      var errors := UpdateErrors(data);
      if errors != [] {
        return Failure(Error("Validation failed: " + Describe(errors), None));
      }
      if id !in users {
        return Success(None);
      }
      var updated := ApplyUpdate(users[id], data, now);
      if updated.email.Some? && EmailTaken(users, updated.email.value, Some(id)) {
        return Failure(Error(SaveErrorMessage(DuplicateKey(updated.email.value)), None));
      }
      users := users[id := updated];
      r := Success(Some(ToJSON(id, updated)));
    }
  }
}
