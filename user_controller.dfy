/**
 * The HTTP handlers of the user routes: `register`, `login`, `getProfile` and
 * `updateProfile`. Each reads the request, runs its guards in a fixed order,
 * calls the service, and maps what the service returns or throws to a status
 * code and a JSON body. The request and the response are values; the service's
 * collection is either passed in (read-only handlers) or a `UserService` object
 * the handler updates.
 */
module UserController {
  import opened Results
  import opened Text
  import opened UserModel
  import opened UserServiceModel
  import Messages

  /** What `generateToken` signs: the user's id and e-mail. */
  datatype Claims = Claims(id: Id, email: Option<string>)

  /** The `user` object of the 201 reply to `register`. */
  datatype NewUserView = NewUserView(id: Id, firstName: Option<string>, lastName: Option<string>,
                                     email: Option<string>, createdAt: Option<Timestamp>)

  /** The `user` object of the 200 reply to `login`. */
  datatype SessionView = SessionView(id: Id, firstName: Option<string>, lastName: Option<string>,
                                     email: Option<string>, fullName: string, createdAt: Option<Timestamp>)

  /** The `user` object of the 200 reply to `getProfile`. */
  datatype ProfileView = ProfileView(id: Id, firstName: Option<string>, lastName: Option<string>,
                                     email: Option<string>, fullName: string,
                                     createdAt: Option<Timestamp>, updatedAt: Option<Timestamp>)

  /** The `user` object of the 200 reply to `updateProfile`. */
  datatype UpdatedView = UpdatedView(id: Id, firstName: Option<string>, lastName: Option<string>,
                                     email: Option<string>, fullName: string, updatedAt: Option<Timestamp>)

  /** The JSON bodies the handlers send. None of them has a password field. */
  datatype Body =
    | Message(message: string)
    | MissingFields(message: string, requiredFields: seq<string>)
    | Registered(message: string, token: Claims, user: NewUserView)
    | LoggedIn(message: string, token: Claims, session: SessionView)
    | Profile(profile: ProfileView)
    | ProfileUpdated(message: string, updated: UpdatedView)

  datatype Response = Response(status: int, body: Body)

  const RequiredFields: seq<string> := ["firstName", "lastName", "email", "password"]

  /** The only fields `updateProfile` forwards to the service, in the order it visits them. */
  const AllowedFields: seq<string> := ["firstName", "lastName", "email"]

  /** A template literal's rendering of an optional string: a missing value prints as `undefined`. */
  function Show(v: Option<string>): string
  {
    if v.Some? then v.value else "undefined"
  }

  /** `` `${firstName} ${lastName}` ``. */
  function FullName(firstName: Option<string>, lastName: Option<string>): string
  {
    Show(firstName) + " " + Show(lastName)
  }

  /** `error.message || 'Error interno del servidor'`. */
  function ErrorText(e: ServiceError): string
  {
    if e.message != "" then e.message else Messages.InternalError
  }

  // ---------------------------------------------------------------------------
  // register

  /** The controller's own checks, in its order; `None` when the request goes to the service. */
  function RegisterGuard(data: RegisterData): Option<Response>
  {
    if !Present(data.firstName) || !Present(data.lastName) || !Present(data.email) || !Present(data.password) then
      Some(Response(400, MissingFields(Messages.AllFieldsRequired, RequiredFields)))
    else if |Trim(data.firstName.value)| < NameMinLength then Some(Response(400, Message(Messages.FirstNameTooShort)))
    else if |Trim(data.lastName.value)| < NameMinLength then Some(Response(400, Message(Messages.LastNameTooShort)))
    else if |data.password.value| < PasswordMinLength then Some(Response(400, Message(Messages.PasswordTooShort)))
    else if !IsEmail(data.email.value) then Some(Response(400, Message(Messages.EmailFormatInvalid)))
    else None
  }

  /** The reply to what `UserService.register` returned or threw. */
  function RegisterReply(r: Result<(Id, Doc), ServiceError>): Response
  {
    match r
    case Success((id, user)) =>
      Response(201, Registered(Messages.Registered, Claims(id, user.email),
                               NewUserView(id, user.firstName, user.lastName, user.email, user.createdAt)))
    case Failure(e) =>
      if e.code == Some(DuplicateKeyCode) then Response(400, Message(Messages.DuplicateEmail))
      else Response(400, Message(ErrorText(e)))
  }

  /** `register` as a function of the collection: the response and the collection afterwards. */
  function RegisterResponse(users: map<Id, Doc>, hash: string -> string, data: RegisterData, newId: Id, now: Timestamp)
    : (Response, map<Id, Doc>)
  {
    match RegisterGuard(data)
    case Some(refusal) => (refusal, users)
    case None =>
      var (r, m) := RegisterOutcome(users, hash, data, newId, now);
      (RegisterReply(r), m)
  }

  /** A request missing any of the four fields gets the list of required fields, and the service is not called. */
  lemma RegisterMissingFields(users: map<Id, Doc>, hash: string -> string, data: RegisterData, newId: Id, now: Timestamp)
    requires !Present(data.firstName) || !Present(data.lastName) || !Present(data.email) || !Present(data.password)
    ensures RegisterResponse(users, hash, data, newId, now) ==
      (Response(400, MissingFields(Messages.AllFieldsRequired, ["firstName", "lastName", "email", "password"])), users)
  {
  }

  /**
   * The controller and the service run the same checks in different orders: a request passes
   * the controller's guards exactly when it passes the service's, and a refused request gets a 400
   * with no write.
   */
  lemma RegisterGuardAgreesWithService(users: map<Id, Doc>, hash: string -> string, data: RegisterData, newId: Id, now: Timestamp)
    ensures RegisterGuard(data).None? <==> RegisterError(data).None?
    ensures RegisterGuard(data).Some? ==>
      var (res, m) := RegisterResponse(users, hash, data, newId, now);
      res.status == 400 && m == users
  {
  }

  /** On a short first name and a malformed e-mail, the controller and the service report different errors. */
  lemma RegisterOrdersDiffer()
    ensures var data := RegisterData(Some("A"), Some("Lopez"), Some("ana"), Some("1234"));
      && RegisterGuard(data) == Some(Response(400, Message(Messages.FirstNameTooShort)))
      && RegisterError(data) == Some(Messages.EmailFormatInvalid)
  {
    var data := RegisterData(Some("A"), Some("Lopez"), Some("ana"), Some("1234"));
    assert Trim("A") == "A" by { TrimOfNoSpace("A"); }
    assert !IsEmail("ana") by {
      forall k | 0 <= k < 3 ensures "ana"[k] != '@' {}
    }
  }

  /**
   * A new user is answered 201 with a token for its id and e-mail and a projection of the
   * saved document: trimmed names, normalised e-mail, creation time. It is added to the collection.
   */
  lemma RegisterCreated(users: map<Id, Doc>, hash: string -> string, data: RegisterData, newId: Id, now: Timestamp)
    requires RegisterResponse(users, hash, data, newId, now).0.status == 201
    ensures data.firstName.Some? && data.lastName.Some? && data.email.Some? && data.password.Some?
    ensures var (res, m) := RegisterResponse(users, hash, data, newId, now);
      var email := Some(NormalizeEmail(data.email.value));
      && res.body == Registered(Messages.Registered, Claims(newId, email),
                                NewUserView(newId, Some(Trim(data.firstName.value)), Some(Trim(data.lastName.value)),
                                            email, Some(now)))
      && newId in m && m == users[newId := m[newId]]
      && m[newId].password == Some(hash(data.password.value))
  {
    assert RegisterGuard(data).None?;
    var (r, m) := RegisterOutcome(users, hash, data, newId, now);
    assert r.Success?;
    RegisterStoresHashedUser(users, hash, data, newId, now);
  }

  /**
   * Every refusal is a 400 that writes nothing. Once the guards pass, the service refuses a
   * request only because its e-mail is taken (the duplicate-e-mail message) or because a trimmed
   * name is longer than 50 characters (the schema's message, which is then different).
   */
  lemma RegisterRefused(users: map<Id, Doc>, hash: string -> string, data: RegisterData, newId: Id, now: Timestamp)
    requires IsPasswordHash(hash)
    ensures var (res, m) := RegisterResponse(users, hash, data, newId, now);
      res.status != 201 ==> res.status == 400 && (res.body.Message? || res.body.MissingFields?)
    ensures var (res, m) := RegisterResponse(users, hash, data, newId, now);
      res.status != 201 ==> m == users
    ensures RegisterGuard(data).None? ==>
      var (res, m) := RegisterResponse(users, hash, data, newId, now);
      && (EmailTaken(users, NormalizeEmail(data.email.value), None) ==>
            res == Response(400, Message(Messages.DuplicateEmail)))
      && (!EmailTaken(users, NormalizeEmail(data.email.value), None) ==>
            (res.status == 201 <==>
               |Trim(data.firstName.value)| <= NameMaxLength && |Trim(data.lastName.value)| <= NameMaxLength))
  {
    RegisterRefusal(users, hash, data, newId, now);
    match RegisterGuard(data)
    case Some(_) =>
    case None =>
      assert RegisterError(data).None?;
      if !EmailTaken(users, NormalizeEmail(data.email.value), None) {
        RegisterWriteFailsOnlyOnLongNames(users, hash, data, newId, now);
      }
  }

  // ---------------------------------------------------------------------------
  // login

  /** `login`: 400 before the service for a missing or malformed credential, one 401 for every service failure. */
  function LoginResponse(users: map<Id, Doc>, hash: string -> string, data: LoginData): Response
    requires EmailsUnique(users)
  {
    if !Present(data.email) || !Present(data.password) then Response(400, Message(Messages.CredentialsRequired))
    else if !IsEmail(data.email.value) then Response(400, Message(Messages.EmailFormatInvalid))
    else
      match Login(users, hash, data)
      case Failure(_) => Response(401, Message(Messages.LoginFailed))
      case Success(u) =>
        Response(200, LoggedIn(Messages.LoggedIn, Claims(u.id, u.email),
                               SessionView(u.id, u.firstName, u.lastName, u.email, FullName(u.firstName, u.lastName), u.createdAt)))
  }

  /**
   * The status tells only which stage refused: 400 for the controller's checks, 401 for the
   * service, 200 when the service accepts; every 401 carries the same message.
   */
  lemma LoginStatus(users: map<Id, Doc>, hash: string -> string, data: LoginData)
    requires EmailsUnique(users)
    ensures var res := LoginResponse(users, hash, data);
      && (res.status == 400 <==> !Present(data.email) || !Present(data.password) || !IsEmail(data.email.value))
      && (res.status == 401 <==> res.status != 400 && Login(users, hash, data).Failure?)
      && (res.status == 401 ==> res == Response(401, Message(Messages.LoginFailed)))
      && (res.status == 200 <==> res.status != 400 && Login(users, hash, data).Success?)
  {
  }

  /** An unknown e-mail and a wrong password get the very same response. */
  lemma LoginUnknownEqualsWrongPassword(users: map<Id, Doc>, hash: string -> string, unknown: LoginData, wrong: LoginData)
    requires EmailsUnique(users)
    requires Present(unknown.email) && Present(unknown.password) && IsEmail(unknown.email.value)
    requires !EmailTaken(users, NormalizeEmail(unknown.email.value), None)
    requires Present(wrong.email) && Present(wrong.password) && IsEmail(wrong.email.value)
    requires exists id | id in users :: users[id].email == Some(NormalizeEmail(wrong.email.value))
                                    && users[id].password.Some? && users[id].password != Some(hash(wrong.password.value))
    ensures LoginResponse(users, hash, unknown) == LoginResponse(users, hash, wrong)
    ensures LoginResponse(users, hash, wrong).status == 401
  {
    LoginFailuresIndistinguishable(users, hash, unknown);
    LoginFailuresIndistinguishable(users, hash, wrong);
  }

  /** A 200 answers with the stored user whose e-mail and password digest match, with its full name. */
  lemma LoginAccepted(users: map<Id, Doc>, hash: string -> string, data: LoginData)
    requires ValidTable(users)
    requires LoginResponse(users, hash, data).status == 200
    ensures Present(data.email) && Present(data.password)
    ensures exists id | id in users ::
      && users[id].email == Some(NormalizeEmail(data.email.value))
      && users[id].password == Some(hash(data.password.value))
      && users[id].firstName.Some? && users[id].lastName.Some?
      && var d := users[id];
         LoginResponse(users, hash, data).body ==
           LoggedIn(Messages.LoggedIn, Claims(id, d.email),
                    SessionView(id, d.firstName, d.lastName, d.email,
                                d.firstName.value + " " + d.lastName.value, d.createdAt))
  {
    LoginFindsTheUser(users, hash, data);
    var id :| id in users
      && users[id].email == Some(NormalizeEmail(data.email.value))
      && users[id].password == Some(hash(data.password.value))
      && Login(users, hash, data).value == ToJSON(id, users[id]);
    assert IsStored(users[id]);
    ValidIff(users[id]);
  }

  // ---------------------------------------------------------------------------
  // getProfile

  /** `getProfile`: 400 without an id, 500 when the service throws, 404 for no user, else the profile. */
  function GetProfileResponse(users: map<Id, Doc>, id: string): Response
  {
    if id == "" then Response(400, Message(Messages.UserIdRequired))
    else
      match GetUserById(users, id)
      case Failure(_) => Response(500, Message(Messages.InternalError))
      case Success(None) => Response(404, Message(Messages.UserNotFound))
      case Success(Some(u)) =>
        Response(200, Profile(ProfileView(u.id, u.firstName, u.lastName, u.email, FullName(u.firstName, u.lastName),
                                          u.createdAt, u.updatedAt)))
  }

  /**
   * The four outcomes of `getProfile`. A non-empty id that is not an ObjectId makes the service
   * throw, and the handler answers 500, not 404. A well-formed id, in any case, shows the user
   * stored under the ObjectId it names, with its full name.
   */
  lemma GetProfileOutcomes(users: map<Id, Doc>, id: string)
    requires ValidTable(users)
    ensures var res := GetProfileResponse(users, id);
      && (res.status == 400 <==> id == "")
      && (res.status == 500 <==> id != "" && !IsObjectId(id))
      && (res.status == 404 <==> IsObjectId(id) && CastId(id) !in users)
      && (res.status == 200 <==> IsObjectId(id) && CastId(id) in users)
      && (IsObjectId(id) && CastId(id) in users ==>
            var key := CastId(id);
            var d := users[key];
            && d.firstName.Some? && d.lastName.Some?
            && res.body == Profile(ProfileView(key, d.firstName, d.lastName, d.email,
                                               d.firstName.value + " " + d.lastName.value, d.createdAt, d.updatedAt)))
  {
    assert IsObjectId(id) ==> id != "";
    if IsObjectId(id) && CastId(id) in users {
      var key := CastId(id);
      assert IsStored(users[key]);
      ValidIff(users[key]);
    }
  }

  // ---------------------------------------------------------------------------
  // updateProfile

  /** The allowed fields of the body that are not blank, trimmed. */
  function ProfileFields(body: map<string, string>): map<string, string>
  {
    map f | f in AllowedFields && f in body && Trim(body[f]) != "" :: Trim(body[f])
  }

  /** The `for` loop over the allowed fields that fills `filteredData`. */
  method FilterProfileFields(body: map<string, string>) returns (filtered: map<string, string>)
    ensures forall f :: f in filtered <==> f in AllowedFields && f in body && Trim(body[f]) != ""
    ensures forall f | f in filtered :: filtered[f] == Trim(body[f])
    ensures filtered == ProfileFields(body)
  {
    filtered := map[];
    for i := 0 to |AllowedFields|
      invariant forall f :: f in filtered <==> f in AllowedFields[..i] && f in body && Trim(body[f]) != ""
      invariant forall f | f in filtered :: filtered[f] == Trim(body[f])
    {
      var field := AllowedFields[i];
      if field in body && body[field] != "" && Trim(body[field]) != "" {
        filtered := filtered[field := Trim(body[field])];
      }
      assert AllowedFields[..i + 1] == AllowedFields[..i] + [field];
    }
    assert AllowedFields[..|AllowedFields|] == AllowedFields;
  }

  /** The reply to what `UserService.updateUser` returned or threw. */
  function UpdateReply(r: Result<Option<PublicUser>, ServiceError>): Response
  {
    match r
    case Failure(e) => Response(400, Message(ErrorText(e)))
    case Success(None) => Response(404, Message(Messages.UserNotFound))
    case Success(Some(u)) =>
      Response(200, ProfileUpdated(Messages.ProfileUpdated,
                                   UpdatedView(u.id, u.firstName, u.lastName, u.email,
                                               FullName(u.firstName, u.lastName), u.updatedAt)))
  }

  /** `updateProfile` as a function of the collection: the response and the collection afterwards. */
  function UpdateProfileResponse(users: map<Id, Doc>, hash: string -> string, id: string, body: map<string, string>, now: Timestamp)
    : (Response, map<Id, Doc>)
  {
    if id == "" then (Response(400, Message(Messages.UserIdRequired)), users)
    else
      var filtered := ProfileFields(body);
      if filtered == map[] then (Response(400, Message(Messages.NoValidUpdate)), users)
      else
        var (r, m) := UpdateOutcome(users, hash, id, filtered, now);
        (UpdateReply(r), m)
  }

  /** With nothing to update the handler answers 400 and the service is not called. */
  lemma UpdateProfileNothingToUpdate(users: map<Id, Doc>, hash: string -> string, id: string, body: map<string, string>, now: Timestamp)
    requires id != ""
    requires forall f | f in AllowedFields && f in body :: Trim(body[f]) == ""
    ensures UpdateProfileResponse(users, hash, id, body, now) == (Response(400, Message(Messages.NoValidUpdate)), users)
  {
    assert ProfileFields(body) == map[];
  }

  /**
   * An id with no user behind it (malformed, or naming no stored ObjectId) is never answered 200,
   * and nothing is written; past the filter and the validators it is answered 404.
   */
  lemma UpdateProfileUnknownUser(users: map<Id, Doc>, hash: string -> string, id: string, body: map<string, string>, now: Timestamp)
    requires IsObjectId(id) ==> CastId(id) !in users
    ensures var (res, m) := UpdateProfileResponse(users, hash, id, body, now);
      res.status != 200 && m == users
    ensures IsObjectId(id) && ProfileFields(body) != map[] && UpdateErrors(PrepareUpdate(ProfileFields(body), hash)) == [] &&
            !("email" in ProfileFields(body) && EmailTaken(users, NormalizeEmail(ProfileFields(body)["email"]), Some(CastId(id)))) ==>
      UpdateProfileResponse(users, hash, id, body, now) == (Response(404, Message(Messages.UserNotFound)), users)
  {
    if id != "" && ProfileFields(body) != map[] {
      var filtered := ProfileFields(body);
      UpdateFailureWritesNothing(users, hash, id, filtered, now);
      assert Supplied(filtered, "email") <==> "email" in filtered;
    }
  }

  /** A non-blank allowed field of the body. */
  predicate Given(body: map<string, string>, f: string) { f in body && Trim(body[f]) != "" }

  /** The stored user after a profile edit: given fields stored trimmed, the rest (password included) kept. */
  ghost predicate EditedFrom(d: Doc, old_: Doc, body: map<string, string>, now: Timestamp)
  {
    && d.firstName == (if Given(body, "firstName") then Some(Trim(body["firstName"])) else old_.firstName)
    && d.lastName == (if Given(body, "lastName") then Some(Trim(body["lastName"])) else old_.lastName)
    && d.email == (if Given(body, "email") then Some(NormalizeEmail(body["email"])) else old_.email)
    && d.password == old_.password && d.username == old_.username && d.createdAt == old_.createdAt
    && d.updatedAt == Some(now)
  }

  /** The body fields that survive the filter, with their trimmed values. */
  lemma ProfileFieldsValues(body: map<string, string>)
    ensures var filtered := ProfileFields(body);
      && filtered.Keys <= {"firstName", "lastName", "email"}
      && (forall f :: f in filtered <==> f in AllowedFields && Given(body, f))
      && (forall f | f in filtered :: filtered[f] == Trim(body[f]))
  {
  }

  /**
   * A 200 rewrites only the user stored under the ObjectId `id` names: each non-blank allowed field
   * is stored trimmed (the e-mail also lower-cased), every other field of that user, its password
   * included, is kept.
   */
  lemma UpdateProfileStoresTrimmed(users: map<Id, Doc>, hash: string -> string, id: string, body: map<string, string>, now: Timestamp)
    requires ValidTable(users) && IsPasswordHash(hash)
    requires UpdateProfileResponse(users, hash, id, body, now).0.status == 200
    ensures IsObjectId(id) && CastId(id) in users
    ensures var m := UpdateProfileResponse(users, hash, id, body, now).1;
      var key := CastId(id);
      key in m && m == users[key := m[key]] && EditedFrom(m[key], users[key], body, now)
  {
    var filtered := ProfileFields(body);
    ProfileFieldsValues(body);
    assert id != "" && filtered != map[];
    var (r, m) := UpdateOutcome(users, hash, id, filtered, now);
    assert UpdateProfileResponse(users, hash, id, body, now) == (UpdateReply(r), m);
    assert r.Success? && r.value.Some?;
    UpdateChangesOnlySupplied(users, hash, id, filtered, now);
    FilteredEdit(m[CastId(id)], users[CastId(id)], hash, body, now);
  }

  /** A document updated from the filtered body is edited from the body itself. */
  lemma FilteredEdit(d: Doc, old_: Doc, hash: string -> string, body: map<string, string>, now: Timestamp)
    requires UpdatedFrom(d, old_, hash, ProfileFields(body), now)
    ensures EditedFrom(d, old_, body, now)
  {
    var filtered := ProfileFields(body);
    ProfileFieldsValues(body);
    if Given(body, "firstName") {
      assert "firstName" in filtered;
      TrimIdempotent(body["firstName"]);
    } else {
      assert "firstName" !in filtered;
    }
    if Given(body, "lastName") {
      assert "lastName" in filtered;
      TrimIdempotent(body["lastName"]);
    } else {
      assert "lastName" !in filtered;
    }
    if Given(body, "email") {
      assert "email" in filtered;
      NormalizeTrimmed(body["email"]);
    } else {
      assert "email" !in filtered;
    }
    assert "password" !in filtered;
  }

  /** Whatever the request, `updateProfile` leaves every stored password as it was. */
  lemma UpdateProfileKeepsPasswords(users: map<Id, Doc>, hash: string -> string, id: string, body: map<string, string>, now: Timestamp)
    requires ValidTable(users) && IsPasswordHash(hash)
    ensures var (res, m) := UpdateProfileResponse(users, hash, id, body, now);
      m.Keys == users.Keys && forall k | k in users :: m[k].password == users[k].password
  {
    var (res, m) := UpdateProfileResponse(users, hash, id, body, now);
    if res.status == 200 {
      UpdateProfileStoresTrimmed(users, hash, id, body, now);
      var key := CastId(id);
      assert m == users[key := m[key]];
      assert m[key].password == users[key].password;
    } else if id != "" && ProfileFields(body) != map[] {
      UpdateFailureWritesNothing(users, hash, id, ProfileFields(body), now);
    }
  }

  // ---------------------------------------------------------------------------
  // The handlers that write through the service object.

  /** `register`, writing through `svc`. `newId` is the ObjectId the driver assigns. */
  method Register(svc: UserService, data: RegisterData, newId: Id, now: Timestamp) returns (res: Response)
    requires svc.Valid() && IsCanonicalId(newId) && newId !in svc.users
    modifies svc
    ensures svc.Valid()
    ensures (res, svc.users) == RegisterResponse(old(svc.users), svc.hash, data, newId, now)
  {
    var refusal := RegisterGuard(data);
    if refusal.Some? {
      return refusal.value;
    }
    var r := svc.Register(data, newId, now);
    res := RegisterReply(r);
  }

  /** `updateProfile`, writing through `svc`. */
  method UpdateProfile(svc: UserService, id: string, body: map<string, string>, now: Timestamp) returns (res: Response)
    requires svc.Valid()
    modifies svc
    ensures svc.Valid()
    ensures (res, svc.users) == UpdateProfileResponse(old(svc.users), svc.hash, id, body, now)
  {
    if id == "" {
      return Response(400, Message(Messages.UserIdRequired));
    }
    var filtered := FilterProfileFields(body);
    if filtered == map[] {
      return Response(400, Message(Messages.NoValidUpdate));
    }
    var r := svc.UpdateUser(id, filtered, now);
    res := UpdateReply(r);
  }
}
