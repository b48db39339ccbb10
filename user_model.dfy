/**
 * The stored user document and the constraints of its schema: required fields,
 * trimmed names of 2 to 50 characters, a lower-cased and trimmed e-mail that
 * matches the e-mail pattern and is unique across the collection, a password of
 * at least 4 characters, automatic timestamps, and a JSON form without the password.
 */
module UserModel {
  import opened Results
  import opened Text
  import Messages

  /** A document identifier (a MongoDB ObjectId in its 24-hex-digit text form). */
  type Id = string

  type Timestamp = nat

  const NameMinLength := 2
  const NameMaxLength := 50
  const PasswordMinLength := 4
  const ModelName := "User"
  /** The database the application connects to. */
  const Database := "catApp"
  /** The error code MongoDB reports when a write breaks a unique index. */
  const DuplicateKeyCode := 11000

  /** The paths the schema declares besides the timestamps; an update sets no other path. */
  const SchemaPaths: set<string> := {"firstName", "lastName", "email", "password"}

  /**
   * A document of the users collection. An absent field is `None`. `username` is
   * not part of the schema: only documents written before the schema had e-mails carry it.
   */
  datatype Doc = Doc(
    firstName: Option<string>,
    lastName: Option<string>,
    email: Option<string>,
    password: Option<string>,
    username: Option<string>,
    createdAt: Option<Timestamp>,
    updatedAt: Option<Timestamp>)

  /** A failed validator: the field's path and the schema's message for it. */
  datatype FieldError = FieldError(path: string, message: string)

  /** `required` on a string field: present and not empty. */
  predicate Present(v: Option<string>) { v.Some? && v.value != "" }

  predicate IsHexDigit(c: char) { '0' <= c <= '9' || 'a' <= c <= 'f' || 'A' <= c <= 'F' }

  /** The strings that cast to an ObjectId: 24 hex digits, in either case. */
  predicate IsObjectId(id: Id) { |id| == 24 && forall i | 0 <= i < |id| :: IsHexDigit(id[i]) }

  predicate IsLowerHexDigit(c: char) { '0' <= c <= '9' || 'a' <= c <= 'f' }

  /** An ObjectId as the collection stores and prints it (`toHexString`): 24 lower-case hex digits. */
  predicate IsCanonicalId(id: Id) { |id| == 24 && forall i | 0 <= i < |id| :: IsLowerHexDigit(id[i]) }

  /**
   * The cast of a request id to the ObjectId it names, in canonical form. The cast ignores the
   * case of the hex digits, so every spelling of a stored id finds that document.
   */
  function CastId(id: Id): (key: Id)
    requires IsObjectId(id)
    ensures IsCanonicalId(key) && IsObjectId(key)
    ensures forall i | 0 <= i < |id| :: key[i] == id[i] || ('A' <= id[i] <= 'F' && key[i] as int == id[i] as int + 32)
    ensures IsCanonicalId(id) ==> key == id
  {
    Lower(id)
  }

  // ---------------------------------------------------------------------------
  // Validators, in schema order; each field reports its first failing validator.

  function NameError(path: string, v: Option<string>, required: string, tooShort: string, tooLong: string): Option<FieldError>
  {
    if !Present(v) then Some(FieldError(path, required))
    else if |v.value| < NameMinLength then Some(FieldError(path, tooShort))
    else if |v.value| > NameMaxLength then Some(FieldError(path, tooLong))
    else None
  }

  function FirstNameError(v: Option<string>): Option<FieldError>
  {
    NameError("firstName", v, Messages.FirstNameRequired, Messages.FirstNameTooShort, Messages.FirstNameTooLong)
  }

  function LastNameError(v: Option<string>): Option<FieldError>
  {
    NameError("lastName", v, Messages.LastNameRequired, Messages.LastNameTooShort, Messages.LastNameTooLong)
  }

  function EmailError(v: Option<string>): Option<FieldError>
  {
    if !Present(v) then Some(FieldError("email", Messages.EmailRequired))
    else if !IsEmail(v.value) then Some(FieldError("email", Messages.EmailInvalid))
    else None
  }

  function PasswordError(v: Option<string>): Option<FieldError>
  {
    if !Present(v) then Some(FieldError("password", Messages.PasswordRequired))
    else if |v.value| < PasswordMinLength then Some(FieldError("password", Messages.PasswordTooShort))
    else None
  }

  /** The errors among the validators' verdicts, in order. */
  function Errors(checks: seq<Option<FieldError>>): (errs: seq<FieldError>)
    ensures errs == [] <==> forall i | 0 <= i < |checks| :: checks[i].None?
    ensures forall i | 0 <= i < |checks| && checks[i].Some? :: checks[i].value in errs
    ensures forall e | e in errs :: Some(e) in checks
  {
    if checks == [] then []
    else
      var rest := Errors(checks[1..]);
      assert forall i | 1 <= i < |checks| :: checks[i] == checks[1..][i - 1];
      if checks[0].Some? then [checks[0].value] + rest else rest
  }

  /** The errors `validate()` reports for a document, one per failing field. */
  function ValidationErrors(d: Doc): seq<FieldError>
  {
    Errors([FirstNameError(d.firstName), LastNameError(d.lastName), EmailError(d.email), PasswordError(d.password)])
  }

  predicate IsValid(d: Doc) { ValidationErrors(d) == [] }

  /** A name the schema accepts: present, 2 to 50 characters. */
  predicate NameOk(v: Option<string>) { v.Some? && NameMinLength <= |v.value| <= NameMaxLength }

  /** The schema's constraints, stated field by field. */
  lemma ValidIff(d: Doc)
    ensures IsValid(d) <==>
      && NameOk(d.firstName) && NameOk(d.lastName)
      && d.email.Some? && IsEmail(d.email.value)
      && d.password.Some? && |d.password.value| >= PasswordMinLength
  {
    var checks := [FirstNameError(d.firstName), LastNameError(d.lastName), EmailError(d.email), PasswordError(d.password)];
    assert checks[0] == FirstNameError(d.firstName) && checks[1] == LastNameError(d.lastName);
    assert checks[2] == EmailError(d.email) && checks[3] == PasswordError(d.password);
  }

  /** A document without names gets a `required` error on each of the two fields. */
  lemma MissingNamesReported(d: Doc)
    requires d.firstName.None? && d.lastName.None?
    ensures FieldError("firstName", Messages.FirstNameRequired) in ValidationErrors(d)
    ensures FieldError("lastName", Messages.LastNameRequired) in ValidationErrors(d)
  {
    var checks := [FirstNameError(d.firstName), LastNameError(d.lastName), EmailError(d.email), PasswordError(d.password)];
    assert checks[0].Some? && checks[1].Some?;
  }

  /** A non-empty e-mail that does not match the pattern fails on the `email` path with the schema's message. */
  lemma MalformedEmailReported(d: Doc)
    requires Present(d.email) && !IsEmail(d.email.value)
    ensures FieldError("email", Messages.EmailInvalid) in ValidationErrors(d)
  {
    var checks := [FirstNameError(d.firstName), LastNameError(d.lastName), EmailError(d.email), PasswordError(d.password)];
    assert checks[2] == Some(FieldError("email", Messages.EmailInvalid));
  }

  /** The message of a validation error: `path: message` entries joined by commas. */
  function Describe(errs: seq<FieldError>): string
  {
    if errs == [] then ""
    else if |errs| == 1 then errs[0].path + ": " + errs[0].message
    else errs[0].path + ": " + errs[0].message + ", " + Describe(errs[1..])
  }

  // ---------------------------------------------------------------------------
  // Setters: `trim` on the names, `lowercase` and `trim` on the e-mail.

  function TrimField(v: Option<string>): Option<string>
  {
    if v.Some? then Some(Trim(v.value)) else None
  }

  function NormalizeField(v: Option<string>): Option<string>
  {
    if v.Some? then Some(NormalizeEmail(v.value)) else None
  }

  /** The document as stored after the schema's setters have run on its fields. */
  function Cast(d: Doc): Doc
  {
    d.(firstName := TrimField(d.firstName), lastName := TrimField(d.lastName), email := NormalizeField(d.email))
  }

  /** A document the setters leave unchanged. */
  predicate IsCast(d: Doc) { Cast(d) == d }

  /** Running the setters a second time changes nothing. */
  lemma CastIdempotent(d: Doc)
    ensures IsCast(Cast(d))
  {
    if d.firstName.Some? { TrimIdempotent(d.firstName.value); }
    if d.lastName.Some? { TrimIdempotent(d.lastName.value); }
    if d.email.Some? { NormalizeEmailIdempotent(d.email.value); }
  }

  /** What the collection may hold: documents with their setters applied that pass validation. */
  predicate IsStored(d: Doc) { IsCast(d) && IsValid(d) }

  // ---------------------------------------------------------------------------
  // The collection and its unique index on `email`.

  /** No two documents share an e-mail. */
  predicate EmailsUnique(m: map<Id, Doc>)
  {
    forall a, b | a in m && b in m && a != b && m[a].email.Some? :: m[a].email != m[b].email
  }

  /** Some document other than `except` holds the e-mail `e`. */
  predicate EmailTaken(m: map<Id, Doc>, e: string, except: Option<Id>)
  {
    exists id | id in m && Some(id) != except :: m[id].email == Some(e)
  }

  /** The invariant of the users collection. */
  predicate ValidTable(m: map<Id, Doc>)
  {
    EmailsUnique(m) && forall id | id in m :: IsCanonicalId(id) && IsStored(m[id])
  }

  /** `findOne({ email })`: the document holding the e-mail `e`, if any. */
  function FindByEmail(m: map<Id, Doc>, e: string): (r: Option<Id>)
    requires EmailsUnique(m)
    ensures r.Some? ==> r.value in m && m[r.value].email == Some(e)
    ensures r.None? <==> !EmailTaken(m, e, None)
  {
    if exists id | id in m :: m[id].email == Some(e) then
      var id :| id in m && m[id].email == Some(e);
      Some(id)
    else
      None
  }

  /** Why a write was refused: a failed validator, or the unique index on `email`. */
  datatype SaveError = Invalid(errors: seq<FieldError>) | DuplicateKey(email: string)

  function SaveErrorMessage(e: SaveError): string
  {
    match e
    case Invalid(errs) => ModelName + " validation failed: " + Describe(errs)
    case DuplicateKey(email) => "E11000 duplicate key error collection: " + Database + ".users index: email_1 dup key: { email: \"" + email + "\" }"
  }

  /** `doc.save()`: run the setters and the validators, then write under the unique index. */
  function Save(m: map<Id, Doc>, id: Id, d: Doc): Result<map<Id, Doc>, SaveError>
  {
    var c := Cast(d);
    var errs := ValidationErrors(c);
    if errs != [] then Failure(Invalid(errs))
    else
      ValidIff(c);
      if EmailTaken(m, c.email.value, Some(id)) then Failure(DuplicateKey(c.email.value))
    else Success(m[id := c])
  }

  /** A write succeeds exactly when the document passes validation and no other document holds its e-mail. */
  lemma SaveResult(m: map<Id, Doc>, id: Id, d: Doc)
    ensures var r := Save(m, id, d);
      && (r.Success? <==> IsValid(Cast(d)) && Cast(d).email.Some? && !EmailTaken(m, Cast(d).email.value, Some(id)))
      && (r.Success? ==> r.value == m[id := Cast(d)])
  {
    ValidIff(Cast(d));
  }

  /** Writing a document whose e-mail no other document holds keeps the e-mails unique. */
  lemma PutKeepsEmailsUnique(m: map<Id, Doc>, id: Id, c: Doc)
    requires EmailsUnique(m)
    requires c.email.Some? ==> !EmailTaken(m, c.email.value, Some(id))
    ensures EmailsUnique(m[id := c])
  {
    var m' := m[id := c];
    forall a, b | a in m' && b in m' && a != b && m'[a].email.Some?
      ensures m'[a].email != m'[b].email
    {
      if a == id {
        assert m'[b] == m[b];
      } else if b == id {
        assert m'[a] == m[a];
      } else {
        assert m'[a] == m[a] && m'[b] == m[b];
      }
    }
  }

  /** A successful write keeps the collection's invariant. */
  lemma SaveKeepsTableValid(m: map<Id, Doc>, id: Id, d: Doc)
    requires ValidTable(m) && IsCanonicalId(id)
    requires Save(m, id, d).Success?
    ensures ValidTable(Save(m, id, d).value)
  {
    var c := Cast(d);
    SaveResult(m, id, d);
    CastIdempotent(d);
    PutKeepsEmailsUnique(m, id, c);
  }

  /** A second document with a stored document's e-mail is refused. */
  lemma SaveRefusesDuplicate(m: map<Id, Doc>, id: Id, other: Id, d: Doc)
    requires other in m && other != id && m[other].email.Some?
    requires Cast(d).email == m[other].email
    ensures Save(m, id, d).Failure?
  {
    SaveResult(m, id, d);
  }

  // ---------------------------------------------------------------------------
  // The JSON form.

  /** A user as returned to callers: every field of the document except the password. */
  datatype PublicUser = PublicUser(
    id: Id,
    firstName: Option<string>,
    lastName: Option<string>,
    email: Option<string>,
    username: Option<string>,
    createdAt: Option<Timestamp>,
    updatedAt: Option<Timestamp>)

  /** `toJSON` with the transform that deletes `password`. */
  function ToJSON(id: Id, d: Doc): PublicUser
  {
    PublicUser(id, d.firstName, d.lastName, d.email, d.username, d.createdAt, d.updatedAt)
  }

  /** The JSON form does not depend on the password in any way. */
  lemma ToJSONIgnoresPassword(id: Id, d: Doc, p: Option<string>)
    ensures ToJSON(id, d) == ToJSON(id, d.(password := p))
  {
  }

  /** The JSON form determines every other field: two documents with the same JSON differ at most in the password. */
  lemma ToJSONKeepsOtherFields(id1: Id, d1: Doc, id2: Id, d2: Doc)
    ensures ToJSON(id1, d1) == ToJSON(id2, d2) <==> id1 == id2 && d1.(password := None) == d2.(password := None)
  {
  }

  /** A new document as `timestamps: true` writes it: both timestamps set to the creation time. */
  function Stamped(d: Doc, now: Timestamp): (r: Doc)
    ensures r.createdAt == Some(now) && r.updatedAt == Some(now)
    ensures r.(createdAt := d.createdAt, updatedAt := d.updatedAt) == d
  {
    d.(createdAt := Some(now), updatedAt := Some(now))
  }
}
