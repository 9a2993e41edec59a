/** The users table: accounts unique by case-folded email, and preference patches. */
module Users {
  import opened Text
  import opened Todos

  datatype User = User(
    id: UserId, email: string, passwordHash: string, createdAt: int,
    locale: Option<string>, timezone: Option<string>)

  type Table = map<UserId, User>

  datatype CreateError = Conflict

  /** What the database and the password library compute: `LOWER`, and whether a
      password verifies against a hash. */
  datatype Env = Env(lower: string -> string, verifies: (string, string) -> bool)

  predicate SameEmail(env: Env, a: string, b: string) {
    env.lower(a) == env.lower(b)
  }

  /** The rows of `WHERE LOWER(email) = LOWER($1)`, the parameter trimmed. */
  predicate Matches(env: Env, users: Table, id: UserId, email: string) {
    id in users && SameEmail(env, users[id].email, Trim(email))
  }

  /** The INSERT violates the primary key or the unique index on LOWER(email). */
  predicate Violates(env: Env, users: Table, id: UserId, email: string) {
    id in users || exists other | other in users :: Matches(env, users, other, email)
  }

  /** One statement. A password is hashed before its INSERT, on another thread, so
      creates may overlap; only the INSERT touches the table. */
  datatype Op =
    | Insert(id: UserId, email: string, hash: string, now: int)
    | Patch(id: UserId, locale: Option<string>, timezone: Option<string>)

  /** A skipped field keeps its value, the empty string clears it. */
  function Patched(kept: Option<string>, patch: Option<string>): Option<string> {
    match patch
    case None => kept
    case Some(s) => if s == "" then None else Some(s)
  }

  function PatchUser(u: User, locale: Option<string>, timezone: Option<string>): User {
    u.(locale := Patched(u.locale, locale), timezone := Patched(u.timezone, timezone))
  }

  function Inserted(env: Env, users: Table, op: Op): Result<User, CreateError>
    requires op.Insert?
  {
    if Violates(env, users, op.id, op.email) then Err(Conflict)
    else Ok(User(op.id, Trim(op.email), op.hash, op.now, None, None))
  }

  function Step(env: Env, users: Table, op: Op): Table {
    match op
    case Insert(id, _, _, _) =>
      var r := Inserted(env, users, op);
      if r.Ok? then users[id := r.value] else users
    case Patch(id, locale, timezone) =>
      if id in users then users[id := PatchUser(users[id], locale, timezone)] else users
  }

  class UserRepository {
    const env: Env
    var users: Table

    constructor (env: Env)
      ensures this.env == env && users == map[]
    {
      this.env := env;
      users := map[];
    }

    method Create(id: UserId, email: string, hash: string, now: int) returns (r: Result<User, CreateError>)
      modifies this
      ensures users == Step(env, old(users), Insert(id, email, hash, now))
      ensures r == Inserted(env, old(users), Insert(id, email, hash, now))
      ensures r.Ok? <==>
                && id !in old(users)
                && forall other | other in old(users) :: env.lower(old(users)[other].email) != env.lower(Trim(email))
      ensures r.Ok? ==>
                && r.value == User(id, Trim(email), hash, now, None, None)
                && users == old(users)[id := r.value]
      ensures r.Err? ==> users == old(users)
    {
      var user := User(id, Trim(email), hash, now, None, None);
      if id in users || exists other | other in users :: SameEmail(env, users[other].email, user.email) {
        return Err(Conflict);
      }
      users := users[id := user];
      r := Ok(user);
    }

    /** `LIMIT 1` returns some matching row. */
    method FindByEmail(email: string) returns (r: Option<User>)
      ensures IsFound(env, users, email, r)
      ensures r.Some? ==>
                && env.lower(r.value.email) == env.lower(Trim(email))
                && exists id | id in users :: users[id] == r.value
      ensures r.None? ==> forall id | id in users :: env.lower(users[id].email) != env.lower(Trim(email))
    {
      var rest := users.Keys;
      while rest != {}
        invariant rest <= users.Keys
        invariant forall id | id in users && id !in rest :: !Matches(env, users, id, email)
        decreases |rest|
      {
        var id :| id in rest;
        rest := rest - {id};
        if SameEmail(env, users[id].email, Trim(email)) {
          return Some(users[id]);
        }
      }
      r := None;
    }

    /** A dummy hash is verified when nobody matches; the answer is none either way. */
    method Verify(email: string, password: string, dummyHash: string) returns (r: Option<User>)
      ensures IsVerified(env, users, email, password, r)
      ensures r.Some? ==>
                && env.lower(r.value.email) == env.lower(Trim(email)) && env.verifies(password, r.value.passwordHash)
                && exists id | id in users :: users[id] == r.value
      ensures r.None? && (exists id | id in users :: env.lower(users[id].email) == env.lower(Trim(email))) ==>
                exists id | id in users ::
                  && env.lower(users[id].email) == env.lower(Trim(email))
                  && !env.verifies(password, users[id].passwordHash)
    {
      var found := FindByEmail(email);
      var hash := if found.Some? then found.value.passwordHash else dummyHash;
      var ok := env.verifies(password, hash);
      r := if ok then found else None;
    }

    method UpdatePreferences(id: UserId, locale: Option<string>, timezone: Option<string>)
      modifies this
      ensures users == Step(env, old(users), Patch(id, locale, timezone))
      ensures id !in old(users) ==> users == old(users)
      ensures id in old(users) ==>
                var was := old(users)[id];
                && id in users && users == old(users)[id := users[id]]
                && users[id] == was.(locale := users[id].locale, timezone := users[id].timezone)
                && (locale == None ==> users[id].locale == was.locale)
                && (locale == Some("") ==> users[id].locale == None)
                && (locale.Some? && locale.value != "" ==> users[id].locale == locale)
                && (timezone == None ==> users[id].timezone == was.timezone)
                && (timezone == Some("") ==> users[id].timezone == None)
                && (timezone.Some? && timezone.value != "" ==> users[id].timezone == timezone)
    {
      var setLocale, setTimezone := locale.Some?, timezone.Some?;
      var localeValue := if setLocale && locale.value != "" then locale else None;
      var timezoneValue := if setTimezone && timezone.value != "" then timezone else None;
      if id in users {
        var user := users[id];
        users := users[id := user.(
          locale := if setLocale then localeValue else user.locale,
          timezone := if setTimezone then timezoneValue else user.timezone)];
      }
    }
  }

  ghost predicate IsFound(env: Env, users: Table, email: string, r: Option<User>) {
    if r.Some? then exists id :: Matches(env, users, id, email) && users[id] == r.value
    else forall id | id in users :: !Matches(env, users, id, email)
  }

  /** A possible answer of `verify`. */
  ghost predicate IsVerified(env: Env, users: Table, email: string, password: string, r: Option<User>) {
    exists found :: IsFound(env, users, email, found)
      && r == if found.Some? && env.verifies(password, found.value.passwordHash) then found else None
  }

  // ---- Runs -------------------------------------------------------------------------

  function RunFrom(env: Env, users: Table, ops: seq<Op>): Table {
    if ops == [] then users
    else Step(env, RunFrom(env, users, ops[..|ops| - 1]), ops[|ops| - 1])
  }

  /** The table after a run of the application. */
  function Run(env: Env, ops: seq<Op>): Table {
    RunFrom(env, map[], ops)
  }

  /** At most one account matches any email, whatever its case and surrounding space. */
  ghost predicate Unique(env: Env, users: Table) {
    && (forall id | id in users :: users[id].id == id)
    && (forall a, b, email | Matches(env, users, a, email) && Matches(env, users, b, email) :: a == b)
  }

  lemma {:induction false} StepKeepsUnique(env: Env, users: Table, op: Op)
    requires Unique(env, users)
    ensures Unique(env, Step(env, users, op))
  {
    var after := Step(env, users, op);
    forall a, b, email | Matches(env, after, a, email) && Matches(env, after, b, email)
      ensures a == b
    {
      if op.Insert? && Inserted(env, users, op).Ok? {
        assert forall other | other in users :: !Matches(env, users, other, op.email);
        if a != b && a != op.id && b != op.id {
          assert Matches(env, users, a, email) && Matches(env, users, b, email);
        }
      } else {
        assert Matches(env, users, a, email) && Matches(env, users, b, email);
      }
    }
  }

  /** In every reachable state accounts are unique, so `LIMIT 1` has no choice. */
  lemma {:induction false} AlwaysUnique(env: Env, ops: seq<Op>)
    ensures Unique(env, Run(env, ops))
  {
    if ops == [] {
    } else {
      AlwaysUnique(env, ops[..|ops| - 1]);
      StepKeepsUnique(env, Run(env, ops[..|ops| - 1]), ops[|ops| - 1]);
    }
  }

  lemma {:induction false} LookupIsDeterministic(
    env: Env, ops: seq<Op>, email: string, a: Option<User>, b: Option<User>)
    requires IsFound(env, Run(env, ops), email, a) && IsFound(env, Run(env, ops), email, b)
    ensures a == b
  {
    AlwaysUnique(env, ops);
  }

  /** Exactly when a signup goes through, in every reachable state: its identifier is
      fresh and no account has its email up to case and surrounding space. The account
      then has the given hash and time and no preferences, and no other one changes. */
  lemma {:induction false} CreateSucceedsIff(env: Env, ops: seq<Op>, id: UserId, email: string, hash: string, now: int)
    ensures var users, after := Run(env, ops), Run(env, ops + [Insert(id, email, hash, now)]);
            var user := User(id, Trim(email), hash, now, None, None);
            && (id !in users && IsFound(env, users, email, None) ==> after == users[id := user])
            && (id in users || !IsFound(env, users, email, None) ==> after == users)
            && (IsFound(env, users, email, None)
                <==> forall other | other in users :: env.lower(users[other].email) != env.lower(Trim(email)))
  {
    var users, op := Run(env, ops), Insert(id, email, hash, now);
    assert (ops + [op])[..|ops|] == ops;
    assert Run(env, ops + [op]) == Step(env, users, op);
    forall other | other in users
      ensures Matches(env, users, other, email) <==> env.lower(users[other].email) == env.lower(Trim(email))
    {
    }
  }

  /** What an account keeps for good: its email and its password hash. */
  lemma {:induction false} AccountsStay(env: Env, before: seq<Op>, later: seq<Op>, id: UserId)
    requires id in Run(env, before)
    ensures var u, v := Run(env, before)[id], Run(env, before + later);
            id in v && v[id].email == u.email && v[id].passwordHash == u.passwordHash && v[id].createdAt == u.createdAt
  {
    if later == [] {
      assert before + later == before;
    } else {
      var n := |later| - 1;
      AccountsStay(env, before, later[..n], id);
      assert (before + later)[..|before + later| - 1] == before + later[..n];
    }
  }

  /** After a successful create, and after whatever follows, `verify` answers that
      account for every email equal up to case and surrounding space, if the password
      verifies, and nobody otherwise; and nobody else can take the address. */
  lemma {:induction false} VerifyFindsTheAccount(
    env: Env, before: seq<Op>, op: Op, later: seq<Op>, email: string, password: string, r: Option<User>)
    requires op.Insert? && Inserted(env, Run(env, before), op).Ok?
    requires SameEmail(env, Trim(email), Trim(op.email))
    requires IsVerified(env, Run(env, before + [op] + later), email, password, r)
    ensures var users := Run(env, before + [op] + later);
            && op.id in users
            && r == (if env.verifies(password, op.hash) then Some(users[op.id]) else None)
            && users[op.id].email == Trim(op.email)
            && forall other, hash, now :: Inserted(env, users, Insert(other, email, hash, now)) == Err(Conflict)
  {
    var ops := before + [op] + later;
    assert (before + [op])[..|before|] == before;
    AccountsStay(env, before + [op], later, op.id);
    AlwaysUnique(env, ops);
    var users := Run(env, ops);
    assert Matches(env, users, op.id, email);
  }

  /** White space around an email never matters. */
  lemma SurroundingSpaceIsIgnored(env: Env, users: Table, id: UserId, before: string, email: string, after: string)
    requires Blank(before) && Blank(after)
    ensures Matches(env, users, id, before + email + after) <==> Matches(env, users, id, email)
  {
    TrimSurrounded(before, email, after);
  }

  // ---- Preferences ---------------------------------------------------------------------

  datatype Prefs = Prefs(locale: Option<string>, timezone: Option<string>)

  function PatchAll(u: User, patches: seq<Prefs>): User {
    if patches == [] then u
    else
      var last := patches[|patches| - 1];
      PatchUser(PatchAll(u, patches[..|patches| - 1]), last.locale, last.timezone)
  }

  /** The last field that is not skipped. */
  function LastSet(fields: seq<Option<string>>): Option<string> {
    if fields == [] then None
    else if fields[|fields| - 1].Some? then fields[|fields| - 1]
    else LastSet(fields[..|fields| - 1])
  }

  lemma {:induction false} LastSetIsLast(fields: seq<Option<string>>)
    ensures LastSet(fields).None? <==> forall k | 0 <= k < |fields| :: fields[k].None?
    ensures LastSet(fields).Some? ==> exists k | 0 <= k < |fields| ::
              fields[k] == LastSet(fields) && forall j | k < j < |fields| :: fields[j].None?
  {
    if fields == [] {
    } else {
      var n := |fields| - 1;
      if fields[n].None? {
        LastSetIsLast(fields[..n]);
        assert fields == fields[..n] + [fields[n]];
        if LastSet(fields).Some? {
          var k :| 0 <= k < n && fields[..n][k] == LastSet(fields) && forall j | k < j < n :: fields[..n][j].None?;
          assert fields[k] == LastSet(fields);
          assert forall j | k < j < |fields| :: fields[j].None? by {
            assert forall j | k < j < n :: fields[j] == fields[..n][j];
          }
        }
      } else {
        assert fields[n] == LastSet(fields);
      }
    }
  }

  function Locales(patches: seq<Prefs>): (r: seq<Option<string>>)
    ensures |r| == |patches|
  {
    seq(|patches|, k requires 0 <= k < |patches| => patches[k].locale)
  }

  function Timezones(patches: seq<Prefs>): (r: seq<Option<string>>)
    ensures |r| == |patches|
  {
    seq(|patches|, k requires 0 <= k < |patches| => patches[k].timezone)
  }

  /** Any sequence of updates equals one update with, for each field, the last value
      that was not skipped. */
  lemma {:induction false} PatchesCollapse(u: User, patches: seq<Prefs>)
    ensures PatchAll(u, patches) == PatchUser(u, LastSet(Locales(patches)), LastSet(Timezones(patches)))
  {
    if patches == [] {
    } else {
      var n := |patches| - 1;
      PatchesCollapse(u, patches[..n]);
      assert Locales(patches)[..n] == Locales(patches[..n]);
      assert Timezones(patches)[..n] == Timezones(patches[..n]);
    }
  }

  function PatchOps(id: UserId, patches: seq<Prefs>): seq<Op> {
    if patches == [] then []
    else
      var last := patches[|patches| - 1];
      PatchOps(id, patches[..|patches| - 1]) + [Patch(id, last.locale, last.timezone)]
  }

  lemma {:induction false} PatchTwice(
    env: Env, users: Table, id: UserId, l1: Option<string>, t1: Option<string>, l2: Option<string>, t2: Option<string>)
    ensures Step(env, Step(env, users, Patch(id, l1, t1)), Patch(id, l2, t2))
            == Step(env, users, Patch(id, if l2.Some? then l2 else l1, if t2.Some? then t2 else t1))
  {
  }

  lemma {:induction false} LastSetSnoc(fields: seq<Option<string>>, field: Option<string>)
    ensures LastSet(fields + [field]) == if field.Some? then field else LastSet(fields)
  {
    assert (fields + [field])[..|fields|] == fields;
  }

  lemma {:induction false} NoPatch(env: Env, users: Table, id: UserId)
    ensures Step(env, users, Patch(id, None, None)) == users
    ensures LastSet(Locales([])) == None && LastSet(Timezones([])) == None
  {
  }

  /** The same on the table, where every other account stays as it was. */
  lemma {:induction false} TablePatchesCollapse(env: Env, users: Table, id: UserId, patches: seq<Prefs>)
    ensures RunFrom(env, users, PatchOps(id, patches))
            == Step(env, users, Patch(id, LastSet(Locales(patches)), LastSet(Timezones(patches))))
  {
    hide LastSet, Step;
    if patches == [] {
      NoPatch(env, users, id);
    } else {
      var init, last := patches[..|patches| - 1], patches[|patches| - 1];
      TablePatchesCollapse(env, users, id, init);
      var ops := PatchOps(id, patches);
      assert ops[..|ops| - 1] == PatchOps(id, init);
      assert Locales(patches) == Locales(init) + [last.locale];
      assert Timezones(patches) == Timezones(init) + [last.timezone];
      LastSetSnoc(Locales(init), last.locale);
      LastSetSnoc(Timezones(init), last.timezone);
      PatchTwice(env, users, id, LastSet(Locales(init)), LastSet(Timezones(init)), last.locale, last.timezone);
    }
  }
}
