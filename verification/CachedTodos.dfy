/** The todo list behind a read-through cache, with handlers that run one at a time:
    list reads through the cache, every successful write deletes the user's entry. */
module CachedTodos {
  import opened Text
  import opened Todos

  /** A stored text with its expiry; `payload` is None when it does not decode. */
  datatype Entry = Entry(payload: Option<seq<Todo>>, expiresAt: real)

  type Store = map<string, Entry>

  const TODOS_TTL: real := 60.0

  function TodosCacheKey(user: UserId): string {
    "todos:user:" + user.uuid
  }

  lemma KeysAreDistinct(a: UserId, b: UserId)
    ensures TodosCacheKey(a) == TodosCacheKey(b) <==> a == b
  {
    assert TodosCacheKey(a)[11..] == a.uuid && TodosCacheKey(b)[11..] == b.uuid;
  }

  // ---- The cache --------------------------------------------------------------------

  /** GET and decode; a failed GET, a missing or expired entry and undecodable text are misses. */
  function Got(store: Store, key: string, now: real, getFails: bool): Option<seq<Todo>> {
    if getFails || key !in store || store[key].expiresAt < now then None else store[key].payload
  }

  /** SET with EX in whole seconds, which must be positive. */
  function Stored(store: Store, key: string, value: seq<Todo>, ttl: real, now: real, setFails: bool): Store {
    if setFails || ttl.Floor <= 0 then store
    else store[key := Entry(Some(value), now + ttl.Floor as real)]
  }

  function Dropped(store: Store, key: string, delFails: bool): Store {
    if delFails then store else store - {key}
  }

  class Cache {
    /** Whether there is a connection pool. */
    const enabled: bool
    const defaultTtl: real
    var store: Store

    constructor (enabled: bool, defaultTtl: real)
      ensures this.enabled == enabled && this.defaultTtl == defaultTtl && store == map[]
    {
      this.enabled := enabled;
      this.defaultTtl := defaultTtl;
      store := map[];
    }

    method Get(key: string, now: real, getFails: bool) returns (r: Option<seq<Todo>>)
      ensures r == if enabled then Got(store, key, now, getFails) else None
      ensures r.Some? <==>
                && enabled && !getFails && key in store
                && now <= store[key].expiresAt && store[key].payload.Some?
      ensures r.Some? ==> r == store[key].payload
    {
      if !enabled || getFails {
        return None;
      }
      if key in store && now <= store[key].expiresAt {
        r := store[key].payload;
      } else {
        r := None;
      }
    }

    method Put(key: string, value: seq<Todo>, ttl: Option<real>, now: real, setFails: bool)
      modifies this
      ensures store == if enabled then Stored(old(store), key, value, ttl.GetOr(defaultTtl), now, setFails)
                       else old(store)
      ensures var seconds := (if ttl.Some? then ttl.value else defaultTtl).Floor;
              if enabled && !setFails && seconds > 0
              then store == old(store)[key := Entry(Some(value), now + seconds as real)]
              else store == old(store)
    {
      if !enabled {
        return;
      }
      var seconds := ttl.GetOr(defaultTtl).Floor;
      if !setFails && seconds > 0 {
        store := store[key := Entry(Some(value), now + seconds as real)];
      }
    }

    method Invalidate(key: string, delFails: bool)
      modifies this
      ensures store == if enabled then Dropped(old(store), key, delFails) else old(store)
      ensures key in store ==> !enabled || delFails
      ensures forall other | other != key :: other in store <==> other in old(store)
      ensures forall other | other in store :: store[other] == old(store)[other]
    {
      if enabled && !delFails {
        store := store - {key};
      }
    }

    /** The cached value if there is one. Only if there is none is the list computed, by
        asking the database, and stored before it is returned. */
    method GetOrCompute(
      key: string, ttl: Option<real>, todos: TodoRepository, user: UserId, dbFails: bool,
      now: real, getFails: bool, setFails: bool)
      returns (r: Result<seq<Todo>, StorageError>)
      requires WellKeyed(todos.rows)
      modifies this
      ensures var hit := if enabled then Got(old(store), key, now, getFails) else None;
              if hit.Some? then r == Ok(hit.value) && store == old(store)
              else
                && (if dbFails then r == Err(Database) else r.Ok? && IsListing(todos.rows, user, r.value))
                && store == if enabled && r.Ok?
                            then Stored(old(store), key, r.value, ttl.GetOr(defaultTtl), now, setFails)
                            else old(store)
    {
      var hit := Get(key, now, getFails);
      if hit.Some? {
        return Ok(hit.value);
      }
      if dbFails {
        return Err(Database);
      }
      var rows := todos.ListForUser(user);
      Put(key, rows, ttl, now, setFails);
      r := Ok(rows);
    }
  }

  // ---- The service as a function of its state ------------------------------------------

  datatype Service = Service(cached: bool, table: Table, store: Store)

  /** One handler run, with everything the outside world decides: the order in which
      the database returns ties, the time, and which calls to the cache fail. */
  datatype Call =
    | List(user: UserId, fetched: Result<seq<Todo>, StorageError>, now: real, getFails: bool, setFails: bool)
    | Change(user: UserId, write: Write, at: int, delFails: bool)
    | Disturb(key: string, left: Option<Entry>)   // eviction, or an entry made undecodable

  datatype Response =
    | Listed(rows: Result<seq<Todo>, StorageError>)
    | Written(result: Result<Option<Todo>, StorageError>)
    | Nothing

  datatype Reply = Reply(service: Service, response: Response)

  function ListTodos(s: Service, c: Call): Reply
    requires c.List?
  {
    var key := TodosCacheKey(c.user);
    var hit := if s.cached then Got(s.store, key, c.now, c.getFails) else None;
    if hit.Some? then Reply(s, Listed(Ok(hit.value)))
    else
      var store' :=
        if s.cached && c.fetched.Ok? then Stored(s.store, key, c.fetched.value, TODOS_TTL, c.now, c.setFails)
        else s.store;
      Reply(s.(store := store'), Listed(c.fetched))
  }

  /** Commit first, then invalidate; a failed statement returns before the invalidation. */
  function ChangeTodos(s: Service, c: Call): Reply
    requires c.Change?
  {
    var o := Apply(s.table, c.user, c.write, c.at);
    var store' :=
      if s.cached && o.result.Ok? then Dropped(s.store, TodosCacheKey(c.user), c.delFails) else s.store;
    Reply(s.(table := o.table, store := store'), Written(o.result))
  }

  function Serve(s: Service, c: Call): Reply {
    match c
    case List(_, _, _, _, _) => ListTodos(s, c)
    case Change(_, _, _, _) => ChangeTodos(s, c)
    case Disturb(key, left) =>
      Reply(s.(store := if left.None? || left.value.payload.Some? then s.store - {key}
                        else s.store[key := left.value]), Nothing)
  }

  /** The user's entry is gone if `dropped`; everything else in the store is as it was. */
  ghost predicate DropsEntry(before: Store, after: Store, user: UserId, dropped: bool) {
    after == if dropped then before - {"todos:user:" + user.uuid} else before
  }

  class AppState {
    const cache: Cache
    const todos: TodoRepository

    ghost predicate Valid()
      reads this, cache, todos
    {
      WellKeyed(todos.rows)
    }

    ghost function State(): Service
      reads this, cache, todos
    {
      Service(cache.enabled, todos.rows, cache.store)
    }

    constructor (cache: Cache, todos: TodoRepository)
      requires WellKeyed(todos.rows)
      ensures this.cache == cache && this.todos == todos && Valid()
    {
      this.cache := cache;
      this.todos := todos;
    }

    method ListTodosCached(user: UserId, now: real, dbFails: bool, getFails: bool, setFails: bool)
      returns (r: Result<seq<Todo>, StorageError>, ghost c: Call)
      requires Valid()
      modifies cache
      ensures Valid()
      ensures c.List? && c == List(user, c.fetched, now, getFails, setFails) && Honest(old(State()), c)
      ensures r.Err? <==> dbFails && !(cache.enabled && Got(old(cache.store), TodosCacheKey(user), now, getFails).Some?)
      ensures Serve(old(State()), c) == Reply(State(), Listed(r))
      ensures todos.rows == old(todos.rows)
      ensures var key := "todos:user:" + user.uuid;
              var hit := cache.enabled && !getFails && key in old(cache.store)
                         && now <= old(cache.store)[key].expiresAt && old(cache.store)[key].payload.Some?;
              && (hit ==> r == Ok(old(cache.store)[key].payload.value) && cache.store == old(cache.store))
              && (!hit && !dbFails ==> r.Ok? && IsListing(todos.rows, user, r.value))
              && (!hit && dbFails ==> r == Err(Database) && cache.store == old(cache.store))
              && (cache.enabled && !hit && !dbFails && !setFails ==>
                    cache.store == old(cache.store)[key := Entry(Some(r.value), now + 60.0)])
              && (!cache.enabled || setFails ==> cache.store == old(cache.store))
    {
      if !cache.enabled {
        if dbFails {
          r := Err(Database);
        } else {
          var rows := todos.ListForUser(user);
          r := Ok(rows);
        }
      } else {
        r := cache.GetOrCompute(TodosCacheKey(user), Some(60.0), todos, user, dbFails, now, getFails, setFails);
      }
      // After a hit nothing was fetched, and any honest answer of the database fits.
      c := List(user, if r.Ok? && !IsListing(todos.rows, user, r.value) then Err(Database) else r,
                now, getFails, setFails);
    }

    method InvalidateTodosCache(user: UserId, delFails: bool)
      modifies cache
      ensures cache.store == if cache.enabled
                             then Dropped(old(cache.store), TodosCacheKey(user), delFails)
                             else old(cache.store)
      ensures DropsEntry(old(cache.store), cache.store, user, cache.enabled && !delFails)
    {
      if !cache.enabled {
        return;
      }
      cache.Invalidate(TodosCacheKey(user), delFails);
    }

    /** POST /todos: the raw title is validated, the trimmed one is stored. */
    method HandleCreate(user: UserId, id: TodoId, title: string, at: int, delFails: bool)
      returns (r: Option<Result<Option<Todo>, StorageError>>)
      requires Valid()
      modifies cache, todos
      ensures Valid()
      ensures r.None? <==> !(1 <= |title| <= 280)
      ensures r.None? ==> State() == old(State())
      ensures r.Some? ==>
                Serve(old(State()), Change(user, Create(id, title), at, delFails)) == Reply(State(), Written(r.value))
      ensures DropsEntry(old(cache.store), cache.store, user,
                         r.Some? && r.value.Ok? && cache.enabled && !delFails)
      ensures r.Some? ==> (r.value.Ok? <==> id !in old(todos.rows) && 1 <= |Trim(title)| <= 280)
      ensures todos.rows == if r.Some? && r.value.Ok?
                            then old(todos.rows)[id := Todo(id, user, Trim(title), false, at, at)]
                            else old(todos.rows)
    {
      if !TitleFits(title) {
        return None;
      }
      ApplyKeepsKeys(todos.rows, user, Create(id, title), at);
      var result := todos.Create(user, id, title, at);
      if result.Ok? {
        InvalidateTodosCache(user, delFails);
      }
      r := Some(result);
    }

    method HandleToggle(user: UserId, id: TodoId, at: int, delFails: bool)
      returns (r: Result<Option<Todo>, StorageError>)
      requires Valid()
      modifies cache, todos
      ensures Valid()
      ensures Serve(old(State()), Change(user, Toggle(id), at, delFails)) == Reply(State(), Written(r))
      ensures DropsEntry(old(cache.store), cache.store, user, r.Ok? && cache.enabled && !delFails)
      ensures r.Ok? <==> id in old(todos.rows) && old(todos.rows)[id].owner == user
      ensures r.Ok? ==>
                && id in todos.rows && r.value == Some(todos.rows[id])
                && todos.rows == old(todos.rows)[id := todos.rows[id]]
                && todos.rows[id].completed != old(todos.rows)[id].completed && todos.rows[id].updatedAt == at
                && todos.rows[id].title == old(todos.rows)[id].title
                && todos.rows[id].createdAt == old(todos.rows)[id].createdAt && todos.rows[id].owner == user
      ensures r.Err? ==> r.error == NotFound && todos.rows == old(todos.rows)
    {
      ApplyKeepsKeys(todos.rows, user, Toggle(id), at);
      r := todos.Toggle(user, id, at);
      if r.Ok? {
        InvalidateTodosCache(user, delFails);
      }
    }

    method HandleDelete(user: UserId, id: TodoId, at: int, delFails: bool)
      returns (r: Result<Option<Todo>, StorageError>)
      requires Valid()
      modifies cache, todos
      ensures Valid()
      ensures Serve(old(State()), Change(user, Delete(id), at, delFails)) == Reply(State(), Written(r))
      ensures DropsEntry(old(cache.store), cache.store, user, r.Ok? && cache.enabled && !delFails)
      ensures r.Ok? <==> id in old(todos.rows) && old(todos.rows)[id].owner == user
      ensures todos.rows == if r.Ok? then old(todos.rows) - {id} else old(todos.rows)
    {
      ApplyKeepsKeys(todos.rows, user, Delete(id), at);
      r := todos.Delete(user, id);
      if r.Ok? {
        InvalidateTodosCache(user, delFails);
      }
    }
  }

  // ---- Serial runs ------------------------------------------------------------------------

  /** What the database hands to a list call is a listing of the table at that moment. */
  ghost predicate Honest(s: Service, c: Call) {
    c.List? && c.fetched.Ok? ==> IsListing(s.table, c.user, c.fetched.value)
  }

  function Run(s: Service, calls: seq<Call>): Service {
    if calls == [] then s
    else Serve(Run(s, calls[..|calls| - 1]), calls[|calls| - 1]).service
  }

  function ResponseAt(s: Service, calls: seq<Call>, k: nat): Response
    requires k < |calls|
  {
    Serve(Run(s, calls[..k]), calls[k]).response
  }

  /** Every database answer of the run is honest and every DEL reaches the cache. */
  ghost predicate HonestRun(s: Service, calls: seq<Call>) {
    forall k | 0 <= k < |calls| ::
      Honest(Run(s, calls[..k]), calls[k]) && !(calls[k].Change? && calls[k].delFails)
  }

  /** Every decodable entry of a user, expired or not, is a current listing. */
  ghost predicate Coherent(s: Service) {
    forall user | TodosCacheKey(user) in s.store ::
      var e := s.store[TodosCacheKey(user)];
      e.payload.Some? ==> IsListing(s.table, user, e.payload.value)
  }

  lemma {:induction false} ServeKeepsCoherence(s: Service, c: Call)
    requires Coherent(s) && Honest(s, c) && !(c.Change? && c.delFails)
    requires !s.cached ==> s.store == map[]
    ensures Coherent(Serve(s, c).service)
    ensures c.List? && Serve(s, c).response.rows.Ok? ==>
              IsListing(s.table, c.user, Serve(s, c).response.rows.value)
  {
    hide IsListing, Apply;
    var s' := Serve(s, c).service;
    if !c.Disturb? {
      forall user | TodosCacheKey(user) in s'.store && s'.store[TodosCacheKey(user)].payload.Some?
        ensures IsListing(s'.table, user, s'.store[TodosCacheKey(user)].payload.value)
      {
        KeysAreDistinct(user, c.user);
        if c.Change? {
          var o := Apply(s.table, c.user, c.write, c.at);
          if user != c.user {
            ListingSurvivesOthers(s.table, c.user, c.write, c.at, user, s.store[TodosCacheKey(user)].payload.value);
          } else {
            FailedWriteChangesNothing(s.table, c.user, c.write, c.at);
          }
        }
      }
    }
  }

  lemma FailedWriteChangesNothing(t: Table, user: UserId, w: Write, now: int)
    ensures Apply(t, user, w, now).result.Err? ==> Apply(t, user, w, now).table == t
  {
  }

  lemma {:induction false} SerialRunInvariant(s: Service, calls: seq<Call>)
    requires Coherent(s) && s.cached && HonestRun(s, calls)
    ensures Coherent(Run(s, calls)) && Run(s, calls).cached
    ensures var plain := Run(Service(false, s.table, map[]), calls);
            !plain.cached && plain.table == Run(s, calls).table
  {
    if calls == [] {
    } else {
      var n := |calls| - 1;
      forall k | 0 <= k < n
        ensures Honest(Run(s, calls[..n][..k]), calls[..n][k])
      {
        assert calls[..n][..k] == calls[..k];
      }
      assert HonestRun(s, calls[..n]);
      SerialRunInvariant(s, calls[..n]);
      ServeKeepsCoherence(Run(s, calls[..n]), calls[n]);
    }
  }

  /** Serial refinement. Whatever expires, is evicted, fails to decode, and whichever
      GETs and SETs fail, the service with a cache answers like the one without: each
      write has the same effect and result, and each list that succeeds is a result
      of `list_for_user` on the table at that moment. */
  lemma {:induction false} SerialRefinement(table: Table, calls: seq<Call>, k: nat)
    requires k < |calls| && HonestRun(Service(true, table, map[]), calls)
    ensures var s := Service(true, table, map[]);
            var plain := Run(Service(false, table, map[]), calls[..k]);
            var c, r := calls[k], ResponseAt(s, calls, k);
            && (c.Change? ==> r == Serve(plain, c).response)
            && (c.List? ==>
                  && r.Listed?
                  && (r.rows.Ok? ==> IsListing(plain.table, c.user, r.rows.value))
                  && (r.rows.Err? ==> r == Serve(plain, c).response))
  {
    hide IsListing, Apply;
    var s := Service(true, table, map[]);
    forall m | 0 <= m < k ensures Honest(Run(s, calls[..k][..m]), calls[..k][m]) {
      assert calls[..k][..m] == calls[..m];
    }
    assert HonestRun(s, calls[..k]);
    SerialRunInvariant(s, calls[..k]);
    ServeKeepsCoherence(Run(s, calls[..k]), calls[k]);
  }

  // ---- Users do not see each other -----------------------------------------------------------

  /** The part of the state that belongs to a user. */
  ghost predicate SameFor(user: UserId, a: Service, b: Service) {
    var key := TodosCacheKey(user);
    && a.cached == b.cached
    && (forall row :: IsRowOf(a.table, user, row) <==> IsRowOf(b.table, user, row))
    && (key in a.store <==> key in b.store)
    && (key in a.store ==> a.store[key] == b.store[key])
  }

  predicate Concerns(c: Call, user: UserId) {
    if c.Disturb? then c.key == TodosCacheKey(user) else c.user == user
  }

  /** The calls that concern a user, in order. */
  function Project(calls: seq<Call>, user: UserId): seq<Call> {
    if calls == [] then []
    else
      var c := calls[|calls| - 1];
      Project(calls[..|calls| - 1], user) + if Concerns(c, user) then [c] else []
  }

  /** Identifiers are fresh: no two users create a row with the same one. */
  ghost predicate FreshIds(calls: seq<Call>) {
    forall i, j | 0 <= i < |calls| && 0 <= j < |calls| && Creates(calls[i]) && Creates(calls[j]) ::
      calls[i].write.id == calls[j].write.id ==> calls[i].user == calls[j].user
  }

  predicate Creates(c: Call) {
    c.Change? && c.write.Create?
  }

  /** Every row was created in the run, under its identifier and by its owner. */
  ghost predicate RowsFromRun(t: Table, calls: seq<Call>) {
    forall id | id in t ::
      && t[id].id == id
      && exists k | 0 <= k < |calls| :: Creates(calls[k]) && calls[k].write.id == id && calls[k].user == t[id].owner
  }

  lemma {:induction false} RunRows(s: Service, calls: seq<Call>)
    requires s.table == map[]
    ensures RowsFromRun(Run(s, calls).table, calls)
  {
    hide Serve;
    if calls == [] {
    } else {
      var n := |calls| - 1;
      RunRows(s, calls[..n]);
      RowsStep(Run(s, calls[..n]), calls[..n], calls[n]);
      assert calls == calls[..n] + [calls[n]];
    }
  }

  lemma {:induction false} RowsStep(s: Service, calls: seq<Call>, c: Call)
    requires RowsFromRun(s.table, calls)
    ensures RowsFromRun(Serve(s, c).service.table, calls + [c])
  {
    var after := Serve(s, c).service.table;
    forall id | id in after
      ensures after[id].id == id
      ensures exists k | 0 <= k < |calls + [c]| ::
                Creates((calls + [c])[k]) && (calls + [c])[k].write.id == id
                && (calls + [c])[k].user == after[id].owner
    {
      RowStep(s, c, id);
      if id in s.table {
        var k :| 0 <= k < |calls| && Creates(calls[k]) && calls[k].write.id == id && calls[k].user == s.table[id].owner;
        assert (calls + [c])[k] == calls[k];
      } else {
        assert (calls + [c])[|calls|] == c;
      }
    }
  }

  /** A row keeps its identifier and its owner; a new one comes from a create. */
  lemma {:induction false} RowStep(s: Service, c: Call, id: TodoId)
    requires id in Serve(s, c).service.table
    ensures var row := Serve(s, c).service.table[id];
            if id in s.table then (s.table[id].id == id ==> row.id == id) && row.owner == s.table[id].owner
            else Creates(c) && c.write.id == id && row.id == id && row.owner == c.user
  {
  }

  /** The list call j fetched these rows for the user, for an entry that lasts until `until`. */
  predicate Fetched(calls: seq<Call>, j: nat, user: UserId, rows: seq<Todo>, until: real)
    requires j < |calls|
  {
    && calls[j].List? && calls[j].user == user && calls[j].fetched == Ok(rows)
    && until == calls[j].now + 60.0
  }

  /** Every decodable entry was fetched by a list call and lasts sixty seconds from it. */
  lemma {:induction false} EntriesWereFetched(s: Service, calls: seq<Call>, user: UserId)
    requires s.store == map[]
    ensures var store, key := Run(s, calls).store, "todos:user:" + user.uuid;
            key in store && store[key].payload.Some? ==>
              exists j | 0 <= j < |calls| :: Fetched(calls, j, user, store[key].payload.value, store[key].expiresAt)
  {
    hide Apply;
    if calls == [] {
    } else {
      var n := |calls| - 1;
      var before, key, c := Run(s, calls[..n]), "todos:user:" + user.uuid, calls[n];
      EntriesWereFetched(s, calls[..n], user);
      var store := Run(s, calls).store;
      if key in store && store[key].payload.Some? {
        if c.List? && (key !in before.store || store[key] != before.store[key]) {
          KeysAreDistinct(c.user, user);
          assert Fetched(calls, n, user, store[key].payload.value, store[key].expiresAt);
        } else {
          var j :| 0 <= j < n && Fetched(calls[..n], j, user, store[key].payload.value, store[key].expiresAt);
          assert Fetched(calls, j, user, store[key].payload.value, store[key].expiresAt);
        }
      }
    }
  }

  /** No hit is older than a minute: rows that a list call answers without asking the
      database were fetched for the same user by a call at most sixty seconds earlier. */
  lemma {:induction false} HitsAreRecent(s: Service, calls: seq<Call>, k: nat)
    requires s.store == map[] && k < |calls| && calls[k].List?
    requires ResponseAt(s, calls, k) != Listed(calls[k].fetched)
    ensures var rows := ResponseAt(s, calls, k).rows;
            && rows.Ok?
            && exists j | 0 <= j < k ::
                 && calls[j].List? && Fetched(calls, j, calls[k].user, rows.value, calls[j].now + 60.0)
                 && calls[k].now <= calls[j].now + 60.0
  {
    hide Run;
    EntriesWereFetched(s, calls[..k], calls[k].user);
    var e := Run(s, calls[..k]).store["todos:user:" + calls[k].user.uuid];
    var j :| 0 <= j < k && Fetched(calls[..k], j, calls[k].user, e.payload.value, e.expiresAt);
    assert Fetched(calls, j, calls[k].user, e.payload.value, calls[j].now + 60.0);
  }

  /** A call of another user changes nothing that belongs to this one. */
  lemma {:induction false} OthersChangeNothing(s: Service, c: Call, user: UserId)
    requires !Concerns(c, user)
    ensures SameFor(user, Serve(s, c).service, s)
  {
    if c.Change? {
      forall row ensures IsRowOf(Serve(s, c).service.table, user, row) <==> IsRowOf(s.table, user, row) {
        WritesStayWithTheirUser(s.table, c.user, c.write, c.at, user, row);
      }
    }
    if !c.Disturb? {
      KeysAreDistinct(c.user, user);
    }
  }

  /** The user's own call depends on nothing else. */
  lemma {:induction false} OwnCallSeesOwnPart(a: Service, b: Service, c: Call, user: UserId)
    requires SameFor(user, a, b) && Concerns(c, user)
    requires WellKeyed(a.table) && WellKeyed(b.table)
    requires Creates(c) ==> (c.write.id in a.table <==> c.write.id in b.table)
    ensures Serve(a, c).response == Serve(b, c).response
    ensures SameFor(user, Serve(a, c).service, Serve(b, c).service)
  {
    if c.Change? {
      OwnWrite(a.table, b.table, user, c.write, c.at);
    }
  }

  lemma {:induction false} OwnWrite(a: Table, b: Table, user: UserId, w: Write, now: int)
    requires WellKeyed(a) && WellKeyed(b)
    requires forall row :: IsRowOf(a, user, row) <==> IsRowOf(b, user, row)
    requires w.Create? ==> (w.id in a <==> w.id in b)
    ensures Apply(a, user, w, now).result == Apply(b, user, w, now).result
    ensures forall row :: IsRowOf(Apply(a, user, w, now).table, user, row)
                          <==> IsRowOf(Apply(b, user, w, now).table, user, row)
  {
    if w.id in a {
      assert IsRowOf(a, user, a[w.id]) <==> IsRowOf(b, user, a[w.id]);
    }
    if w.id in b {
      assert IsRowOf(a, user, b[w.id]) <==> IsRowOf(b, user, b[w.id]);
    }
    assert !w.Create? ==> (Owns(a, user, w.id) <==> Owns(b, user, w.id));
    assert Owns(a, user, w.id) && Owns(b, user, w.id) ==> a[w.id] == b[w.id];
    var a', b' := Apply(a, user, w, now).table, Apply(b, user, w, now).table;
    forall row ensures IsRowOf(a', user, row) <==> IsRowOf(b', user, row) {
      if row.id != w.id {
        assert IsRowOf(a', user, row) <==> IsRowOf(a, user, row);
        assert IsRowOf(b', user, row) <==> IsRowOf(b, user, row);
      }
    }
  }

  lemma {:induction false} OwnPartIsTheSame(cached: bool, calls: seq<Call>, user: UserId)
    requires FreshIds(calls)
    ensures var s := Service(cached, map[], map[]);
            SameFor(user, Run(s, calls), Run(s, Project(calls, user)))
    decreases |calls|
  {
    hide SameFor, Serve, Concerns, FreshIds;
    var s := Service(cached, map[], map[]);
    if calls == [] {
      NothingDiffers(user, s);
    } else {
      var n := |calls| - 1;
      var c, own := calls[n], Project(calls[..n], user);
      FreshSubset(calls, calls[..n]);
      OwnPartIsTheSame(cached, calls[..n], user);
      if Concerns(c, user) {
        assert calls[..n] + [c] == calls;
        OwnStep(cached, calls[..n], user, c);
        assert (own + [c])[..|own|] == own;
      } else {
        OthersChangeNothing(Run(s, calls[..n]), c, user);
        SameIsTransitive(user, Run(s, calls), Run(s, calls[..n]), Run(s, own));
        assert Project(calls, user) == own;
      }
    }
  }

  lemma {:induction false} NothingDiffers(user: UserId, s: Service)
    ensures SameFor(user, s, s)
  {
  }

  lemma {:induction false} SameIsTransitive(user: UserId, a: Service, b: Service, c: Service)
    requires SameFor(user, a, b) && SameFor(user, b, c)
    ensures SameFor(user, a, c)
  {
  }

  /** Non-interference: what a user is served, and what the user's part of the table
      and of the cache hold, is what the user's own calls alone would give. */
  lemma {:induction false} UsersAreIndependent(cached: bool, calls: seq<Call>, user: UserId)
    requires FreshIds(calls)
    ensures var s := Service(cached, map[], map[]);
            SameFor(user, Run(s, calls), Run(s, Project(calls, user)))
    ensures var s := Service(cached, map[], map[]);
            forall c | Concerns(c, user) && FreshIds(calls + [c]) ::
              Serve(Run(s, calls), c).response == Serve(Run(s, Project(calls, user)), c).response
  {
    hide *;
    OwnPartIsTheSame(cached, calls, user);
    var s := Service(cached, map[], map[]);
    forall c | Concerns(c, user) && FreshIds(calls + [c])
      ensures Serve(Run(s, calls), c).response == Serve(Run(s, Project(calls, user)), c).response
    {
      OwnStep(cached, calls, user, c);
    }
  }

  lemma {:induction false} OwnStep(cached: bool, calls: seq<Call>, user: UserId, c: Call)
    requires Concerns(c, user) && FreshIds(calls + [c])
    requires var s := Service(cached, map[], map[]);
             SameFor(user, Run(s, calls), Run(s, Project(calls, user)))
    ensures var s := Service(cached, map[], map[]);
            var a, b := Serve(Run(s, calls), c), Serve(Run(s, Project(calls, user)), c);
            a.response == b.response && SameFor(user, a.service, b.service)
  {
    var s := Service(cached, map[], map[]);
    var own := Project(calls, user);
    RunRows(s, calls);
    RunRows(s, own);
    if Creates(c) {
      ProjectFresh(calls, user, c);
      OwnIdIsOwn(Run(s, calls).table, calls, c);
      OwnIdIsOwn(Run(s, own).table, own, c);
      SameIds(Run(s, calls).table, Run(s, own).table, user, c.write.id);
    }
    OwnCallSeesOwnPart(Run(s, calls), Run(s, own), c, user);
  }

  lemma {:induction false} SameIds(a: Table, b: Table, user: UserId, id: TodoId)
    requires forall row :: IsRowOf(a, user, row) <==> IsRowOf(b, user, row)
    requires id in a ==> IsRowOf(a, user, a[id]) && a[id].id == id
    requires id in b ==> IsRowOf(b, user, b[id]) && b[id].id == id
    ensures id in a <==> id in b
  {
    if id in a {
      assert IsRowOf(b, user, a[id]);
    }
    if id in b {
      assert IsRowOf(a, user, b[id]);
    }
  }

  /** A fresh identifier that is taken was taken by the same user. */
  lemma {:induction false} OwnIdIsOwn(t: Table, calls: seq<Call>, c: Call)
    requires RowsFromRun(t, calls) && Creates(c) && FreshIds(calls + [c])
    ensures c.write.id in t ==> IsRowOf(t, c.user, t[c.write.id])
  {
    if c.write.id in t {
      var k :| 0 <= k < |calls| && Creates(calls[k]) && calls[k].write.id == c.write.id
        && calls[k].user == t[c.write.id].owner;
      assert (calls + [c])[k] == calls[k] && (calls + [c])[|calls|] == c;
    }
  }

  lemma {:induction false} ProjectIn(calls: seq<Call>, user: UserId, c: Call)
    requires c in Project(calls, user)
    ensures c in calls
  {
    var n := |calls| - 1;
    if c in Project(calls[..n], user) {
      ProjectIn(calls[..n], user, c);
      assert calls == calls[..n] + [calls[n]];
    } else {
      assert c == calls[n];
    }
  }

  lemma {:induction false} ProjectFresh(calls: seq<Call>, user: UserId, c: Call)
    requires FreshIds(calls + [c])
    ensures FreshIds(Project(calls, user) + [c])
  {
    hide Project, FreshIds;
    var own := Project(calls, user);
    forall x | x in own + [c] ensures x in calls + [c] {
      if x in own {
        ProjectIn(calls, user, x);
      }
    }
    FreshSubset(calls + [c], own + [c]);
  }

  lemma {:induction false} FreshSubset(calls: seq<Call>, some: seq<Call>)
    requires FreshIds(calls) && forall k | 0 <= k < |some| :: some[k] in calls
    ensures FreshIds(some)
  {
  }
}
