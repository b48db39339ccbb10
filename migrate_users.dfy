/**
 * The one-off migration of legacy users: documents written before the schema had
 * an e-mail carry a `username` instead. Each of them gets a capitalised first
 * name, the last name "User", the synthetic e-mail `<username lower-cased>@fakeemail.com`,
 * and loses its username; every document is saved on its own, and the first
 * failed save ends the whole run.
 */
module MigrateUsers {
  import opened Results
  import opened Text
  import opened UserModel

  const FakeEmailDomain := "fakeemail.com"
  const LegacyLastName := "User"

  /** How a run ends: nothing selected, every selected user handled, or stopped by a failed save. */
  datatype MigrationOutcome = NothingToMigrate | Completed | Aborted(id: Id, error: SaveError)

  /** `order` lists every stored id exactly once: the order in which the collection is scanned. */
  predicate Listing(users: map<Id, Doc>, order: seq<Id>)
  {
    && (forall i | 0 <= i < |order| :: order[i] in users)
    && (forall id | id in users :: id in order)
    && (forall i, j | 0 <= i < j < |order| :: order[i] != order[j])
  }

  /**
   * `find({ email: { $exists: false } })` over a scan of the collection: every stored document
   * without an e-mail, once, with its id.
   */
  function Legacy(users: map<Id, Doc>, order: seq<Id>): (r: seq<(Id, Doc)>)
    requires Listing(users, order)
    ensures forall j | 0 <= j < |r| :: r[j].0 in users && users[r[j].0] == r[j].1 && r[j].1.email.None?
    ensures forall id | id in users && users[id].email.None? :: (id, users[id]) in r
    ensures DistinctIds(r)
  {
    SelectDistinct(users, order);
    Select(users, order)
  }

  /** The documents without an e-mail among those `order` names, in that order. */
  function Select(users: map<Id, Doc>, order: seq<Id>): (r: seq<(Id, Doc)>)
    requires forall i | 0 <= i < |order| :: order[i] in users
    ensures forall j | 0 <= j < |r| :: r[j].0 in users && users[r[j].0] == r[j].1 && r[j].1.email.None?
    ensures forall i | 0 <= i < |order| :: users[order[i]].email.None? ==> (order[i], users[order[i]]) in r
    ensures forall j | 0 <= j < |r| :: r[j].0 in order
  {
    if order == [] then []
    else
      var rest := Select(users, order[1..]);
      assert forall i | 1 <= i < |order| :: order[i] == order[1..][i - 1];
      var id := order[0];
      if users[id].email.None? then [(id, users[id])] + rest else rest
  }

  /** The ids a list of loaded documents refers to. */
  function Ids(todo: seq<(Id, Doc)>): set<Id>
  {
    set j | 0 <= j < |todo| :: todo[j].0
  }

  /** Each document of the list under its own id. */
  predicate DistinctIds(todo: seq<(Id, Doc)>)
  {
    forall j, k | 0 <= j < k < |todo| :: todo[j].0 != todo[k].0
  }

  /** `` `${username.toLowerCase()}@fakeemail.com` ``. */
  function FakeEmail(username: string): string
  {
    Lower(username) + "@" + FakeEmailDomain
  }

  /**
   * The user as `save` writes it: the assignments of the loop body, and `updatedAt`, which the
   * schema's timestamps set on every save.
   */
  function Migrated(user: Doc, now: Timestamp): Doc
    requires user.username.Some?
  {
    var username := user.username.value;
    user.(firstName := Some(Capitalize(username)), lastName := Some(LegacyLastName),
          email := Some(FakeEmail(username)), username := None, updatedAt := Some(now))
  }

  /** The loop from the given document on: skip a user without a username, stop at the first failed save. */
  function Run(m: map<Id, Doc>, todo: seq<(Id, Doc)>, now: Timestamp): (MigrationOutcome, map<Id, Doc>)
    decreases |todo|
  {
    if todo == [] then (Completed, m)
    else
      var (id, user) := todo[0];
      if !Present(user.username) then Run(m, todo[1..], now)
      else
        match Save(m, id, Migrated(user, now))
        case Failure(e) => (Aborted(id, e), m)
        case Success(next) => Run(next, todo[1..], now)
  }

  /** The whole migration: what it reports and the collection it leaves. */
  function Migration(users: map<Id, Doc>, order: seq<Id>, now: Timestamp): (MigrationOutcome, map<Id, Doc>)
    requires Listing(users, order)
  {
    var oldUsers := Legacy(users, order);
    if oldUsers == [] then (NothingToMigrate, users) else Run(users, oldUsers, now)
  }

  /** `migrateUsers`, lines 13 to 39: the query, the early return, and the loop that saves user after user. */
  method MigrateUsers(users: map<Id, Doc>, order: seq<Id>, now: Timestamp) returns (outcome: MigrationOutcome, after: map<Id, Doc>)
    requires Listing(users, order)
    ensures (outcome, after) == Migration(users, order, now)
  {
    var oldUsers := Legacy(users, order);
    if |oldUsers| == 0 {
      return NothingToMigrate, users;
    }
    after := users;
    for i := 0 to |oldUsers|
      invariant Run(users, oldUsers, now) == Run(after, oldUsers[i..], now)
    {
      assert oldUsers[i..][1..] == oldUsers[i + 1..];
      var (id, user) := oldUsers[i];
      if !Present(user.username) {
        continue;
      }
      var saved := Save(after, id, Migrated(user, now));
      if saved.Failure? {
        return Aborted(id, saved.error), after;
      }
      after := saved.value;
    }
    outcome := Completed;
  }

  // ---------------------------------------------------------------------------
  // What a run does to the collection.

  /** The collection after writing, in order, every listed user that has a username, as the setters store it. */
  function Applied(m: map<Id, Doc>, todo: seq<(Id, Doc)>, now: Timestamp): map<Id, Doc>
    decreases |todo|
  {
    if todo == [] then m
    else
      var (id, user) := todo[0];
      Applied(if Present(user.username) then m[id := Cast(Migrated(user, now))] else m, todo[1..], now)
  }

  /** Nothing is selected exactly when every stored document has an e-mail; then nothing changes. */
  lemma NothingToMigrateIff(users: map<Id, Doc>, order: seq<Id>, now: Timestamp)
    requires Listing(users, order)
    ensures Migration(users, order, now).0 == NothingToMigrate <==>
      forall id | id in users :: users[id].email.Some?
    ensures Migration(users, order, now).0 == NothingToMigrate ==> Migration(users, order, now).1 == users
  {
    var oldUsers := Legacy(users, order);
    if oldUsers != [] {
      assert oldUsers[0].1.email.None?;
      assert oldUsers[0].0 in users;
      RunNeverNothing(users, oldUsers, now);
    } else {
      forall id | id in users ensures users[id].email.Some? {
        assert (id, users[id]) !in oldUsers;
      }
    }
  }

  /** Whatever it meets, the loop ends `Completed` or `Aborted`: the early return is the only `NothingToMigrate`. */
  lemma {:induction false} RunNeverNothing(m: map<Id, Doc>, todo: seq<(Id, Doc)>, now: Timestamp)
    ensures Run(m, todo, now).0 != NothingToMigrate
    decreases |todo|
  {
    if todo != [] {
      var (id, user) := todo[0];
      if !Present(user.username) {
        RunNeverNothing(m, todo[1..], now);
      } else {
        match Save(m, id, Migrated(user, now))
        case Failure(_) =>
        case Success(next) => RunNeverNothing(next, todo[1..], now);
      }
    }
  }

  /** A run that completes has written every listed user with a username, and nothing else. */
  lemma {:induction false} RunCompleted(m: map<Id, Doc>, todo: seq<(Id, Doc)>, now: Timestamp)
    requires Run(m, todo, now).0 == Completed
    ensures Run(m, todo, now).1 == Applied(m, todo, now)
    decreases |todo|
  {
    if todo != [] {
      var (id, user) := todo[0];
      if !Present(user.username) {
        RunCompleted(m, todo[1..], now);
      } else {
        var saved := Save(m, id, Migrated(user, now));
        SaveResult(m, id, Migrated(user, now));
        assert saved.Success?;
        RunCompleted(saved.value, todo[1..], now);
      }
    }
  }

  /**
   * A run stopped at a user has written exactly the users with a username before it; that
   * user's save failed with the reported error, and no later user was written.
   */
  lemma {:induction false} RunAborted(m: map<Id, Doc>, todo: seq<(Id, Doc)>, now: Timestamp) returns (k: nat)
    requires Run(m, todo, now).0.Aborted?
    ensures k < |todo| && todo[k].1.username.Some?
    ensures var (outcome, after) := Run(m, todo, now);
      && todo[k].0 == outcome.id
      && after == Applied(m, todo[..k], now)
      && Save(after, todo[k].0, Migrated(todo[k].1, now)) == Failure(outcome.error)
    decreases |todo|
  {
    var id, user := todo[0].0, todo[0].1;
    var rest := todo[1..];
    if Present(user.username) && Save(m, id, Migrated(user, now)).Failure? {
      k := 0;
      assert todo[..0] == [];
    } else {
      var next := if Present(user.username) then Save(m, id, Migrated(user, now)).value else m;
      assert Run(m, todo, now) == Run(next, rest, now);
      var j := RunAborted(next, rest, now);
      k := j + 1;
      assert todo[k] == rest[j];
      AppliedStep(m, todo, now, k);
      if Present(user.username) {
        SaveResult(m, id, Migrated(user, now));
        assert next == m[id := Cast(Migrated(user, now))];
      }
    }
  }

  /** Writing a prefix of the list is writing its first user, then the rest of the prefix. */
  lemma AppliedStep(m: map<Id, Doc>, todo: seq<(Id, Doc)>, now: Timestamp, k: nat)
    requires 0 < k <= |todo|
    ensures var (id, user) := todo[0];
      Applied(m, todo[..k], now) ==
        Applied(if Present(user.username) then m[id := Cast(Migrated(user, now))] else m, todo[1..][..k - 1], now)
  {
    assert todo[..k][0] == todo[0];
    assert todo[..k][1..] == todo[1..][..k - 1];
  }

  /** Writing the listed users touches no document outside the list. */
  lemma {:induction false} AppliedOutside(m: map<Id, Doc>, todo: seq<(Id, Doc)>, now: Timestamp, id: Id)
    requires id !in Ids(todo)
    ensures id in Applied(m, todo, now) <==> id in m
    ensures id in m ==> Applied(m, todo, now)[id] == m[id]
    decreases |todo|
  {
    if todo != [] {
      var (first, user) := todo[0];
      assert first in Ids(todo);
      assert Ids(todo[1..]) <= Ids(todo) by {
        forall j | 0 <= j < |todo[1..]| ensures todo[1..][j].0 in Ids(todo) { assert todo[1..][j] == todo[j + 1]; }
      }
      var next := if Present(user.username) then m[first := Cast(Migrated(user, now))] else m;
      AppliedOutside(next, todo[1..], now, id);
    }
  }

  /** With distinct ids, each listed user ends up migrated if it has a username and untouched otherwise. */
  lemma {:induction false} AppliedInside(m: map<Id, Doc>, todo: seq<(Id, Doc)>, now: Timestamp, k: nat)
    requires DistinctIds(todo) && k < |todo| && todo[k].0 in m
    ensures todo[k].0 in Applied(m, todo, now)
    ensures Applied(m, todo, now)[todo[k].0] ==
      if Present(todo[k].1.username) then Cast(Migrated(todo[k].1, now)) else m[todo[k].0]
    decreases |todo|
  {
    var (first, user) := todo[0];
    var next := if Present(user.username) then m[first := Cast(Migrated(user, now))] else m;
    var rest := todo[1..];
    assert DistinctIds(rest) by {
      forall j, l | 0 <= j < l < |rest| ensures rest[j].0 != rest[l].0 { assert rest[j] == todo[j + 1] && rest[l] == todo[l + 1]; }
    }
    if k == 0 {
      assert first !in Ids(rest) by {
        forall j | 0 <= j < |rest| ensures rest[j].0 != first { assert rest[j] == todo[j + 1]; }
      }
      AppliedOutside(next, rest, now, first);
    } else {
      assert rest[k - 1] == todo[k];
      assert todo[k].0 != first;
      AppliedInside(next, rest, now, k - 1);
    }
  }

  /**
   * What a completed migration leaves: every selected user that has a username is migrated,
   * every other document, the selected users without a username included, is unchanged.
   */
  lemma MigrationCompleted(users: map<Id, Doc>, order: seq<Id>, now: Timestamp, id: Id)
    requires Listing(users, order)
    requires Migration(users, order, now).0 == Completed && id in users
    ensures var after := Migration(users, order, now).1;
      && id in after
      && after[id] == if users[id].email.None? && Present(users[id].username)
                      then Cast(Migrated(users[id], now)) else users[id]
  {
    var oldUsers := Legacy(users, order);
    RunCompleted(users, oldUsers, now);
    if users[id].email.None? {
      assert (id, users[id]) in oldUsers;
      var k :| 0 <= k < |oldUsers| && oldUsers[k] == (id, users[id]);
      AppliedInside(users, oldUsers, now, k);
    } else {
      assert id !in Ids(oldUsers);
      AppliedOutside(users, oldUsers, now, id);
    }
  }

  /** Writing the listed users keeps the collection's ids when every listed id is already there. */
  lemma {:induction false} AppliedKeys(m: map<Id, Doc>, todo: seq<(Id, Doc)>, now: Timestamp)
    requires forall j | 0 <= j < |todo| :: todo[j].0 in m
    ensures Applied(m, todo, now).Keys == m.Keys
    decreases |todo|
  {
    if todo != [] {
      var (id, user) := todo[0];
      var next := if Present(user.username) then m[id := Cast(Migrated(user, now))] else m;
      assert forall j | 0 <= j < |todo[1..]| :: todo[1..][j] == todo[j + 1];
      AppliedKeys(next, todo[1..], now);
    }
  }

  /**
   * What an aborted migration leaves: the selected users before the one whose save failed are
   * migrated (or untouched when they have no username), that user and every later one are
   * untouched, and so is every document that was not selected.
   */
  lemma MigrationAborted(users: map<Id, Doc>, order: seq<Id>, now: Timestamp) returns (k: nat)
    requires Listing(users, order)
    requires Migration(users, order, now).0.Aborted?
    ensures var (outcome, after) := Migration(users, order, now);
      var oldUsers := Legacy(users, order);
      && k < |oldUsers| && oldUsers[k].0 == outcome.id && oldUsers[k].1.username.Some?
      && Save(after, outcome.id, Migrated(oldUsers[k].1, now)) == Failure(outcome.error)
      && after.Keys == users.Keys
      && (forall j | 0 <= j < k :: after[oldUsers[j].0] ==
            if Present(oldUsers[j].1.username) then Cast(Migrated(oldUsers[j].1, now)) else users[oldUsers[j].0])
      && (forall j | k <= j < |oldUsers| :: after[oldUsers[j].0] == users[oldUsers[j].0])
      && (forall id | id in users && users[id].email.Some? :: after[id] == users[id])
  {
    var oldUsers := Legacy(users, order);
    k := RunAborted(users, oldUsers, now);
    var after := Migration(users, order, now).1;
    var done := oldUsers[..k];
    assert after == Applied(users, done, now);
    assert DistinctIds(done);
    AppliedKeys(users, done, now);
    forall j | 0 <= j < k
      ensures after[oldUsers[j].0] ==
        if Present(oldUsers[j].1.username) then Cast(Migrated(oldUsers[j].1, now)) else users[oldUsers[j].0]
    {
      assert done[j] == oldUsers[j];
      AppliedInside(users, done, now, j);
    }
    forall j | k <= j < |oldUsers| ensures after[oldUsers[j].0] == users[oldUsers[j].0] {
      assert oldUsers[j].0 !in Ids(done);
      AppliedOutside(users, done, now, oldUsers[j].0);
    }
    forall id | id in users && users[id].email.Some? ensures after[id] == users[id] {
      assert id !in Ids(done);
      AppliedOutside(users, done, now, id);
    }
  }

  /** The documents a query returns come one per id when the scan names each id once. */
  lemma {:induction false} SelectDistinct(users: map<Id, Doc>, order: seq<Id>)
    requires forall i | 0 <= i < |order| :: order[i] in users
    requires forall i, j | 0 <= i < j < |order| :: order[i] != order[j]
    ensures DistinctIds(Select(users, order))
  {
    if order != [] {
      var tail := order[1..];
      assert forall i | 0 <= i < |tail| :: tail[i] == order[i + 1];
      SelectDistinct(users, tail);
      var rest := Select(users, tail);
      assert forall j | 0 <= j < |rest| :: rest[j].0 != order[0] by {
        forall j | 0 <= j < |rest| ensures rest[j].0 != order[0] {
          var i :| 0 <= i < |tail| && tail[i] == rest[j].0;
          assert tail[i] == order[i + 1];
        }
      }
    }
  }

  // ---------------------------------------------------------------------------
  // The loop as written reads `username` through the document, where the schema has no such path.

  /** The selected users as the loop sees them: without a schema path, `username` reads `undefined`. */
  function SchemaView(todo: seq<(Id, Doc)>): seq<(Id, Doc)>
  {
    seq(|todo|, j requires 0 <= j < |todo| => (todo[j].0, todo[j].1.(username := None)))
  }

  /** The migration as written: the same query and loop, each user's username read through the document. */
  function MigrationAsWritten(users: map<Id, Doc>, order: seq<Id>, now: Timestamp): (MigrationOutcome, map<Id, Doc>)
    requires Listing(users, order)
  {
    var oldUsers := Legacy(users, order);
    if oldUsers == [] then (NothingToMigrate, users) else Run(users, SchemaView(oldUsers), now)
  }

  /** A loop that meets no username skips every user: it completes and writes nothing. */
  lemma {:induction false} RunSkipsAll(m: map<Id, Doc>, todo: seq<(Id, Doc)>, now: Timestamp)
    requires forall j | 0 <= j < |todo| :: todo[j].1.username.None?
    ensures Run(m, todo, now) == (Completed, m)
    decreases |todo|
  {
    if todo != [] {
      assert forall j | 0 <= j < |todo[1..]| :: todo[1..][j] == todo[j + 1];
      RunSkipsAll(m, todo[1..], now);
    }
  }

  /**
   * As written, the migration never changes the collection: with legacy users it reports
   * completion, without them that there was nothing to migrate.
   */
  lemma MigrationAsWrittenChangesNothing(users: map<Id, Doc>, order: seq<Id>, now: Timestamp)
    requires Listing(users, order)
    ensures MigrationAsWritten(users, order, now).1 == users
    ensures MigrationAsWritten(users, order, now).0 ==
      if forall id | id in users :: users[id].email.Some? then NothingToMigrate else Completed
  {
    var oldUsers := Legacy(users, order);
    RunSkipsAll(users, SchemaView(oldUsers), now);
    NothingToMigrateIff(users, order, now);
  }

  /**
   * A legacy user with a username is rewritten by a completed migration that reads the stored
   * username, and left as it was by the migration as written.
   */
  lemma MigrationAsWrittenMissesUser(users: map<Id, Doc>, order: seq<Id>, now: Timestamp, id: Id)
    requires Listing(users, order) && Migration(users, order, now).0 == Completed
    requires id in users && users[id].email.None? && Present(users[id].username)
    ensures id in Migration(users, order, now).1 && Migration(users, order, now).1[id].email.Some?
    ensures id in MigrationAsWritten(users, order, now).1 && MigrationAsWritten(users, order, now).1[id].email.None?
  {
    MigrationCompleted(users, order, now, id);
    MigrationAsWrittenChangesNothing(users, order, now);
  }

  // ---------------------------------------------------------------------------
  // The migrated document.

  /**
   * A migrated user is stored with its setters applied: the capitalised username trimmed as first
   * name, "User" as last name, the synthetic e-mail normalised (which only strips the username's
   * leading whitespace) and no username; everything else is kept. A username without whitespace
   * is stored exactly as the loop body writes it.
   */
  lemma MigratedStored(user: Doc, now: Timestamp)
    requires user.username.Some?
    ensures var u := user.username.value;
      var d := Cast(Migrated(user, now));
      && d.firstName == Some(Trim(Capitalize(u)))
      && d.lastName == Some("User")
      && d.email == Some(Lower(TrimStart(u)) + "@fakeemail.com")
      && d.username == None
      && d.password == user.password && d.createdAt == user.createdAt && d.updatedAt == Some(now)
    ensures var u := user.username.value;
      var d := Cast(Migrated(user, now));
      NoSpace(u) ==> d.firstName == Some(Capitalize(u)) && d.email == Some(FakeEmail(u))
  {
    var u := user.username.value;
    TrimOfNoSpace(LegacyLastName);
    NormalizedFakeEmail(u);
    if NoSpace(u) {
      CapitalizeKeepsClass(u);
      TrimOfNoSpace(Capitalize(u));
      assert TrimStart(u) == u;
      assert FakeEmail(u) == Lower(u) + "@fakeemail.com";
    }
  }

  /**
   * The synthetic e-mail, as the setters store it, matches the e-mail pattern exactly when the
   * username, past its leading whitespace, is a non-empty run without whitespace or `@`.
   */
  lemma FakeEmailShape(u: string)
    ensures IsEmail(NormalizeEmail(FakeEmail(u))) <==> TrimStart(u) != [] && EmailChars(TrimStart(u))
  {
    var domain := FakeEmailDomain;
    NormalizedFakeEmail(u);
    var x := Lower(TrimStart(u));
    assert NormalizeEmail(FakeEmail(u)) == x + "@" + domain;
    FakeEmailDomainShape();
    EmailWithDomain(x, domain);
    LowerKeepsClass(TrimStart(u));
  }

  /** `fakeemail.com` is a domain the e-mail pattern accepts. */
  lemma FakeEmailDomainShape()
    ensures IsEmailDomain(FakeEmailDomain)
  {
    var domain := FakeEmailDomain;
    assert domain[9] == '.';
    forall i | 0 <= i < |domain| ensures IsEmailChar(domain[i]) {}
  }

  /** The part of the synthetic e-mail after the username: unchanged by lower-casing, no whitespace at its ends. */
  lemma FakeEmailTail()
    ensures var tail := "@" + FakeEmailDomain;
      Lower(tail) == tail && !IsSpace(tail[0]) && !IsSpace(tail[|tail| - 1])
  {
    var tail := "@" + FakeEmailDomain;
    assert tail == "@fakeemail.com";
    forall i | 0 <= i < |tail| ensures LowerChar(tail[i]) == tail[i] {}
  }

  /** Normalising the synthetic e-mail only strips the username's leading whitespace. */
  lemma NormalizedFakeEmail(u: string)
    ensures NormalizeEmail(FakeEmail(u)) == Lower(TrimStart(u)) + "@fakeemail.com"
  {
    var tail := "@" + FakeEmailDomain;
    FakeEmailTail();
    calc {
      NormalizeEmail(FakeEmail(u));
      { assert FakeEmail(u) == Lower(u) + tail; }
      Trim(Lower(Lower(u) + tail));
      { LowerAppend(Lower(u), tail); LowerIdempotent(u); }
      Trim(Lower(u) + tail);
      { TrimAppend(Lower(u), tail); }
      TrimStart(Lower(u)) + tail;
      { LowerTrimStart(u); }
      Lower(TrimStart(u)) + tail;
    }
  }

  /**
   * The save of a legacy user succeeds exactly when its stored first name is 2 to 50 characters
   * long, its username past the leading whitespace is non-empty with no whitespace or `@`, the
   * stored password passes its validator, and no other document holds the stored e-mail. For a
   * username without whitespace: 2 to 50 characters with no `@`.
   */
  lemma MigratedSaveSucceeds(m: map<Id, Doc>, id: Id, user: Doc, now: Timestamp)
    requires user.username.Some?
    ensures var u := user.username.value;
      Save(m, id, Migrated(user, now)).Success? <==>
        && NameMinLength <= |Trim(Capitalize(u))| <= NameMaxLength
        && TrimStart(u) != [] && EmailChars(TrimStart(u))
        && PasswordError(user.password).None?
        && !EmailTaken(m, Lower(TrimStart(u)) + "@fakeemail.com", Some(id))
    ensures var u := user.username.value;
      NoSpace(u) ==>
        (Save(m, id, Migrated(user, now)).Success? <==>
          && NameMinLength <= |u| <= NameMaxLength && EmailChars(u)
          && PasswordError(user.password).None?
          && !EmailTaken(m, FakeEmail(u), Some(id)))
  {
    var u := user.username.value;
    var d := Cast(Migrated(user, now));
    MigratedStored(user, now);
    NormalizedFakeEmail(u);
    FakeEmailShape(u);
    assert NameOk(d.lastName);
    assert d.password.Some? && |d.password.value| >= PasswordMinLength <==> PasswordError(user.password).None?;
    ValidIff(d);
    SaveResult(m, id, Migrated(user, now));
    if NoSpace(u) {
      CapitalizeKeepsClass(u);
      if u != [] { assert TrimStart(u) == u; }
    }
  }
}
