/** The same cache with handlers that interleave: readers go GET, fetch, SET; writers
    commit, then DEL. Any call to the cache may fail, entries expire or disappear,
    and a handler may be cancelled between any two of its steps. */
module CacheProtocol {
  import opened Text
  import opened Todos
  import opened CachedTodos

  /** A cache entry, with when its list was fetched and when it was stored. Steps
      count the actions of the run; they and the instants are bookkeeping only. */
  datatype Filled = Filled(entry: Entry, fetchedStep: nat, fetchedAt: real, setStep: nat, setAt: real)

  type Cache = map<string, Filled>

  /** The store itself, without the bookkeeping. */
  function StoreOf(cache: Cache): Store {
    map key | key in cache :: cache[key].entry
  }

  datatype Reader =
    | Reading(user: UserId)
    | Missed(user: UserId)
    | Fetched(user: UserId, rows: seq<Todo>, step: nat, at: real)

  /** What became of the DEL that follows a commit. */
  datatype Invalidation = Pending | Lost | Deleted(step: nat)

  datatype Commit = Commit(user: UserId, step: nat, del: Invalidation)

  datatype State = State(
    step: nat, clock: real, table: Table,
    cache: Cache,
    readers: map<nat, Reader>,
    writers: map<nat, nat>,       // a writer between commit and DEL, and its commit
    commits: seq<Commit>)

  datatype Action =
    | Tick(dt: real)
    | BeginRead(r: nat, user: UserId)
    | Miss(r: nat)                       // nothing usable, or the GET failed
    | Fetch(r: nat, rows: seq<Todo>)     // the SELECT
    | Set(r: nat)                        // SET EX 60 and answer
    | LeaveReader(r: nat)                // hit, database error, failed SET, or cancelled
    | Write(w: nat, user: UserId, write: Todos.Write, at: int)
    | Del(w: nat)
    | LoseDel(w: nat)                    // the DEL failed, or the handler was cancelled
    | Evict(key: string)
    | Damage(key: string)                // an entry that no longer decodes

  function Damaged(e: Filled): Filled {
    e.(entry := e.entry.(payload := None))
  }

  const EMPTY: State := State(0, 0.0, map[], map[], map[], map[], [])

  /** What an action does when it is possible. */
  ghost function Effect(s: State, a: Action): State {
    match a
    case Tick(dt) => if dt >= 0.0 then s.(clock := s.clock + dt) else s
    case BeginRead(r, user) => if r in s.readers then s else s.(readers := s.readers[r := Reading(user)])
    case Miss(r) =>
      if r in s.readers && s.readers[r].Reading? then s.(readers := s.readers[r := Missed(s.readers[r].user)])
      else s
    case Fetch(r, rows) =>
      if r in s.readers && s.readers[r].Missed? && IsListing(s.table, s.readers[r].user, rows) then
        s.(readers := s.readers[r := Fetched(s.readers[r].user, rows, s.step, s.clock)])
      else s
    case Set(r) =>
      if r in s.readers && s.readers[r].Fetched? then
        var f := s.readers[r];
        var key := TodosCacheKey(f.user);
        var store := Stored(StoreOf(s.cache), key, f.rows, TODOS_TTL, s.clock, false);
        s.(readers := s.readers - {r},
           cache := s.cache[key := Filled(store[key], f.step, f.at, s.step, s.clock)])
      else s
    case LeaveReader(r) => s.(readers := s.readers - {r})
    case Write(w, user, write, at) =>
      var o := Apply(s.table, user, write, at);
      if w !in s.writers && o.result.Ok? then
        s.(table := o.table, writers := s.writers[w := |s.commits|],
           commits := s.commits + [Commit(user, s.step, Pending)])
      else s
    case Del(w) =>
      if w in s.writers && s.writers[w] < |s.commits| then
        var c := s.commits[s.writers[w]];
        s.(writers := s.writers - {w}, cache := s.cache - {TodosCacheKey(c.user)},
           commits := s.commits[s.writers[w] := c.(del := Deleted(s.step))])
      else s
    case LoseDel(w) =>
      if w in s.writers && s.writers[w] < |s.commits| then
        s.(writers := s.writers - {w},
           commits := s.commits[s.writers[w] := s.commits[s.writers[w]].(del := Lost)])
      else s
    case Evict(key) => s.(cache := s.cache - {key})
    case Damage(key) => if key in s.cache then s.(cache := s.cache[key := Damaged(s.cache[key])]) else s
  }

  /** One step of an interleaving; an action that is not possible changes nothing. */
  ghost function Next(s: State, a: Action): State {
    Effect(s, a).(step := s.step + 1)
  }

  ghost function After(run: seq<Action>): State {
    if run == [] then EMPTY else Next(After(run[..|run| - 1]), run[|run| - 1])
  }

  /** A reader's GET would return `rows` from the cache in state `s`. */
  ghost predicate Hits(s: State, user: UserId, rows: seq<Todo>) {
    Got(StoreOf(s.cache), TodosCacheKey(user), s.clock, false) == Some(rows)
  }

  // ---- The invariant ---------------------------------------------------------------

  /** `rows` were what the database listed for `user` when step `k` of the run began, and
      they still are unless the user has committed since. */
  ghost predicate Traced(run: seq<Action>, user: UserId, rows: seq<Todo>, k: nat, at: real) {
    && k < |run|
    && IsListing(After(run[..k]).table, user, rows)
    && After(run[..k]).clock == at
    && at <= After(run).clock
    && ((forall c | c in After(run).commits && c.user == user :: c.step < k)
        ==> IsListing(After(run).table, user, rows))
  }

  ghost predicate ReadersTraced(run: seq<Action>) {
    var s := After(run);
    forall r | r in s.readers && s.readers[r].Fetched? ::
      var f := s.readers[r];
      Traced(run, f.user, f.rows, f.step, f.at)
  }

  /** A commit newer than an entry has not deleted it. */
  ghost predicate Survives(e: Filled, c: Commit) {
    c.del.Deleted? ==> c.del.step < e.setStep
  }

  ghost predicate EntriesTraced(run: seq<Action>) {
    var s := After(run);
    forall user | TodosCacheKey(user) in s.cache ::
      var e := s.cache[TodosCacheKey(user)];
      && e.entry.expiresAt == e.setAt + TODOS_TTL && e.fetchedAt <= e.setAt <= s.clock
      && e.fetchedStep < e.setStep < |run|
      && (e.entry.payload.Some? ==> Traced(run, user, e.entry.payload.value, e.fetchedStep, e.fetchedAt))
      && forall c | c in s.commits && c.user == user && c.step >= e.fetchedStep :: Survives(e, c)
  }

  /** Each writer has a pending commit of its own. */
  ghost predicate WritersPend(writers: map<nat, nat>, commits: seq<Commit>) {
    && (forall w | w in writers :: writers[w] < |commits| && commits[writers[w]].del.Pending?)
    && (forall v, w | v in writers && w in writers && v != w :: writers[v] != writers[w])
  }

  /** Each pending commit has a writer. */
  ghost predicate PendingHaveWriters(writers: map<nat, nat>, commits: seq<Commit>) {
    forall k | 0 <= k < |commits| && commits[k].del.Pending? :: exists w | w in writers :: writers[w] == k
  }

  /** Commits and deletes lie in the past, each delete after its commit. */
  ghost predicate StepsPast(commits: seq<Commit>, now: nat) {
    forall k | 0 <= k < |commits| ::
      && commits[k].step < now
      && (commits[k].del.Deleted? ==> commits[k].step < commits[k].del.step < now)
  }

  ghost predicate WritersTraced(s: State) {
    && WritersPend(s.writers, s.commits)
    && PendingHaveWriters(s.writers, s.commits)
    && StepsPast(s.commits, s.step)
  }

  lemma {:induction false} StepsCount(run: seq<Action>)
    ensures After(run).step == |run|
  {
    if run == [] {
    } else {
      StepsCount(run[..|run| - 1]);
    }
  }

  lemma {:induction false} OpeningKeepsWriters(
    writers: map<nat, nat>, commits: seq<Commit>, now: nat, w: nat, user: UserId)
    requires WritersPend(writers, commits) && PendingHaveWriters(writers, commits) && StepsPast(commits, now)
    requires w !in writers
    ensures var writers', commits' := writers[w := |commits|], commits + [Commit(user, now, Pending)];
            WritersPend(writers', commits') && PendingHaveWriters(writers', commits') && StepsPast(commits', now + 1)
  {
    var writers', commits' := writers[w := |commits|], commits + [Commit(user, now, Pending)];
    forall k | 0 <= k < |commits'| && commits'[k].del.Pending?
      ensures exists v | v in writers' :: writers'[v] == k
    {
      if k < |commits| {
        var v :| v in writers && writers[v] == k;
        assert writers'[v] == k;
      } else {
        assert writers'[w] == k;
      }
    }
  }

  lemma {:induction false} ClosingKeepsWriters(
    writers: map<nat, nat>, commits: seq<Commit>, now: nat, w: nat, del: Invalidation)
    requires WritersPend(writers, commits) && PendingHaveWriters(writers, commits) && StepsPast(commits, now)
    requires w in writers && (del == Lost || del == Deleted(now))
    ensures var commits' := commits[writers[w] := commits[writers[w]].(del := del)];
            && WritersPend(writers - {w}, commits') && PendingHaveWriters(writers - {w}, commits')
            && StepsPast(commits', now + 1)
  {
    var i := writers[w];
    var commits' := commits[i := commits[i].(del := del)];
    assert WritersPend(writers - {w}, commits') by {
      assert forall v | v in writers - {w} :: writers[v] != i && commits'[writers[v]] == commits[writers[v]];
    }
    assert PendingHaveWriters(writers - {w}, commits') by {
      forall k | 0 <= k < |commits'| && commits'[k].del.Pending?
        ensures exists v | v in writers - {w} :: writers[v] == k
      {
        assert k != i && commits[k].del.Pending?;
        var v :| v in writers && writers[v] == k;
        assert v in writers - {w};
      }
    }
  }

  lemma {:induction false} WritersStep(s: State, a: Action)
    requires WritersTraced(s)
    ensures WritersTraced(Next(s, a))
  {
    hide WritersPend, PendingHaveWriters, StepsPast, Apply;
    TimePasses(s.commits, s.step);
    WritersInRange(s.writers, s.commits);
    match a
    case Write(w, user, _, _) =>
      if w !in s.writers {
        OpeningKeepsWriters(s.writers, s.commits, s.step, w, user);
      }
    case Del(w) =>
      if w in s.writers {
        ClosingKeepsWriters(s.writers, s.commits, s.step, w, Deleted(s.step));
      }
    case LoseDel(w) =>
      if w in s.writers {
        ClosingKeepsWriters(s.writers, s.commits, s.step, w, Lost);
      }
    case _ =>
  }

  lemma {:induction false} TimePasses(commits: seq<Commit>, now: nat)
    requires StepsPast(commits, now)
    ensures StepsPast(commits, now + 1)
  {
  }

  lemma {:induction false} WritersInRange(writers: map<nat, nat>, commits: seq<Commit>)
    requires WritersPend(writers, commits)
    ensures forall w | w in writers :: writers[w] < |commits|
  {
  }

  lemma {:induction false} WritersAlwaysTraced(run: seq<Action>)
    ensures WritersTraced(After(run))
  {
    if run == [] {
    } else {
      WritersAlwaysTraced(run[..|run| - 1]);
      WritersStep(After(run[..|run| - 1]), run[|run| - 1]);
    }
  }

  /** The clock never runs backwards, and the table moves only by commits. */
  lemma {:induction false} TableMovesByCommits(s: State, a: Action, user: UserId, rows: seq<Todo>)
    requires IsListing(s.table, user, rows)
    ensures s.clock <= Next(s, a).clock
    ensures IsListing(Next(s, a).table, user, rows)
            || Next(s, a).commits == s.commits + [Commit(user, s.step, Pending)]
  {
    if a.Write? && a.user != user {
      ListingSurvivesOthers(s.table, a.user, a.write, a.at, user, rows);
    }
  }

  /** No action forgets that a user has committed. */
  lemma {:induction false} CommitsStay(s: State, a: Action, c: Commit)
    requires c in s.commits
    ensures exists c' | c' in Next(s, a).commits :: c'.user == c.user && c'.step == c.step
  {
    var k :| 0 <= k < |s.commits| && s.commits[k] == c;
    assert Next(s, a).commits[k].user == c.user && Next(s, a).commits[k].step == c.step;
  }

  lemma {:induction false} NewCommitIsIn(commits: seq<Commit>, c: Commit)
    ensures c in commits + [c]
  {
    assert (commits + [c])[|commits|] == c;
  }

  lemma {:induction false} TracedStep(run: seq<Action>, a: Action, user: UserId, rows: seq<Todo>, k: nat, at: real)
    requires Traced(run, user, rows, k, at)
    ensures Traced(run + [a], user, rows, k, at)
  {
    var s, s' := After(run), After(run + [a]);
    assert (run + [a])[..|run|] == run;
    assert s' == Next(s, a);
    assert (run + [a])[..k] == run[..k];
    StepsCount(run);
    assert s.clock <= s'.clock;
    if forall c | c in s'.commits && c.user == user :: c.step < k {
      forall c | c in s.commits && c.user == user ensures c.step < k {
        CommitsStay(s, a, c);
      }
      TableMovesByCommits(s, a, user, rows);
      NewCommitIsIn(s.commits, Commit(user, s.step, Pending));
    }
  }

  lemma {:induction false} TracedNow(run: seq<Action>, a: Action, user: UserId, rows: seq<Todo>)
    requires IsListing(After(run).table, user, rows) && a.Fetch?
    ensures Traced(run + [a], user, rows, |run|, After(run).clock)
  {
    assert (run + [a])[..|run|] == run;
  }

  lemma {:induction false} ReadersStep(run: seq<Action>, a: Action)
    requires ReadersTraced(run)
    ensures ReadersTraced(run + [a])
  {
    hide Traced, IsListing, After;
    var s, s' := After(run), After(run + [a]);
    AfterSnoc(run, a);
    StepsCount(run);
    forall r | r in s'.readers && s'.readers[r].Fetched?
      ensures var f := s'.readers[r]; Traced(run + [a], f.user, f.rows, f.step, f.at)
    {
      var f := s'.readers[r];
      if r in s.readers && s.readers[r] == f {
        TracedStep(run, a, f.user, f.rows, f.step, f.at);
      } else {
        TracedNow(run, a, f.user, f.rows);
      }
    }
  }

  lemma {:induction false} EntriesStep(run: seq<Action>, a: Action)
    requires ReadersTraced(run) && EntriesTraced(run) && WritersTraced(After(run))
    ensures EntriesTraced(run + [a])
  {
    hide IsListing, After;
    var s, s' := After(run), After(run + [a]);
    AfterSnoc(run, a);
    StepsCount(run);
    forall user | TodosCacheKey(user) in s'.cache
      ensures var e := s'.cache[TodosCacheKey(user)];
              && e.entry.expiresAt == e.setAt + TODOS_TTL && e.fetchedAt <= e.setAt <= s'.clock
              && e.fetchedStep < e.setStep < |run + [a]|
              && (e.entry.payload.Some? ==> Traced(run + [a], user, e.entry.payload.value, e.fetchedStep, e.fetchedAt))
              && forall c | c in s'.commits && c.user == user && c.step >= e.fetchedStep :: Survives(e, c)
    {
      hide Traced;
      var key := TodosCacheKey(user);
      var e := s'.cache[key];
      if a.Set? && a.r in s.readers && s.readers[a.r].Fetched? && TodosCacheKey(s.readers[a.r].user) == key {
        var f := s.readers[a.r];
        KeysAreDistinct(f.user, user);
        FetchedBefore(run, f);
        TracedStep(run, a, user, f.rows, f.step, f.at);
      } else {
        OldEntrySurvives(run, a, user);
      }
    }
  }

  lemma {:induction false} FetchedBefore(run: seq<Action>, f: Reader)
    requires f.Fetched? && Traced(run, f.user, f.rows, f.step, f.at)
    ensures f.step < |run| && f.at <= After(run).clock
  {
  }

  lemma {:induction false} OldEntrySurvives(run: seq<Action>, a: Action, user: UserId)
    requires EntriesTraced(run) && WritersTraced(After(run))
    requires var s, key := After(run), TodosCacheKey(user);
             && key in Next(s, a).cache && key in s.cache
             && (Next(s, a).cache[key] == s.cache[key] || Next(s, a).cache[key] == Damaged(s.cache[key]))
    ensures var s' := After(run + [a]);
            var e := s'.cache[TodosCacheKey(user)];
            && e.entry.expiresAt == e.setAt + TODOS_TTL && e.fetchedAt <= e.setAt <= s'.clock
            && e.fetchedStep < e.setStep < |run + [a]|
            && (e.entry.payload.Some? ==> Traced(run + [a], user, e.entry.payload.value, e.fetchedStep, e.fetchedAt))
            && forall c | c in s'.commits && c.user == user && c.step >= e.fetchedStep :: Survives(e, c)
  {
    hide Traced, IsListing, After;
    var s, s', key := After(run), After(run + [a]), TodosCacheKey(user);
    AfterSnoc(run, a);
    var e := s'.cache[key];
    if e.entry.payload.Some? {
      TracedStep(run, a, user, e.entry.payload.value, e.fetchedStep, e.fetchedAt);
    }
    forall c | c in s'.commits && c.user == user && c.step >= e.fetchedStep ensures Survives(e, c) {
      var k :| 0 <= k < |s'.commits| && s'.commits[k] == c;
      if k < |s.commits| {
        assert s.commits[k] in s.commits;
      }
      CommitSpares(s, a, user, k);
    }
  }

  /** A commit that an entry has survived, or that is new, spares it in a step that keeps it. */
  lemma {:induction false} CommitSpares(s: State, a: Action, user: UserId, k: nat)
    requires WritersTraced(s) && k < |Next(s, a).commits| && Next(s, a).commits[k].user == user
    requires var key := TodosCacheKey(user);
             && key in Next(s, a).cache && key in s.cache
             && (Next(s, a).cache[key] == s.cache[key] || Next(s, a).cache[key] == Damaged(s.cache[key]))
    requires var e := s.cache[TodosCacheKey(user)];
             k < |s.commits| && s.commits[k].user == user && s.commits[k].step >= e.fetchedStep ==>
               Survives(e, s.commits[k])
    ensures var e := s.cache[TodosCacheKey(user)];
            Next(s, a).commits[k].step >= e.fetchedStep ==>
              Survives(Next(s, a).cache[TodosCacheKey(user)], Next(s, a).commits[k])
  {
    hide IsListing, Apply;
  }

  lemma {:induction false} AlwaysTraced(run: seq<Action>)
    ensures ReadersTraced(run) && EntriesTraced(run) && WritersTraced(After(run))
  {
    WritersAlwaysTraced(run);
    if run == [] {
    } else {
      var n := |run| - 1;
      AlwaysTraced(run[..n]);
      assert run == run[..n] + [run[n]];
      ReadersStep(run[..n], run[n]);
      EntriesStep(run[..n], run[n]);
    }
  }

  // ---- Staleness ---------------------------------------------------------------------

  /** A writer of the user that committed after the entry's list was fetched has yet to
      send its DEL. */
  ghost predicate WriterPending(s: State, user: UserId, e: Filled) {
    exists w | w in s.writers && s.writers[w] < |s.commits| ::
      s.commits[s.writers[w]].user == user && e.fetchedStep <= s.commits[s.writers[w]].step
  }

  /** A DEL of the user failed or never ran, after the entry's list was fetched. */
  ghost predicate DelLost(s: State, user: UserId, e: Filled) {
    exists c | c in s.commits :: c.user == user && c.del.Lost? && e.fetchedStep <= c.step
  }

  /** The entry was fetched before a commit and stored after that commit's DEL. */
  ghost predicate SetAfterDel(s: State, user: UserId, e: Filled) {
    exists c | c in s.commits ::
      c.user == user && c.del.Deleted? && e.fetchedStep <= c.step < c.del.step < e.setStep
  }

  /** The only causes of staleness. In every reachable state, if a GET would return
      rows that are not the user's current list, then a writer that committed since the
      fetch has yet to delete the entry, or a DEL was lost, or a reader stored after a DEL what it had fetched
      before the commit. */
  lemma {:induction false} OnlyCausesOfStaleness(run: seq<Action>, user: UserId, rows: seq<Todo>)
    requires Hits(After(run), user, rows) && !IsListing(After(run).table, user, rows)
    ensures var s := After(run);
            var e := s.cache[TodosCacheKey(user)];
            WriterPending(s, user, e) || DelLost(s, user, e) || SetAfterDel(s, user, e)
  {
    AlwaysTraced(run);
    var s := After(run);
    var e := s.cache[TodosCacheKey(user)];
    assert Traced(run, user, rows, e.fetchedStep, e.fetchedAt);
    var c :| c in s.commits && c.user == user && c.step >= e.fetchedStep;
    assert Survives(e, c);
    var k :| 0 <= k < |s.commits| && s.commits[k] == c;
    if c.del.Pending? {
      var w :| w in s.writers && s.writers[w] == k;
    }
  }

  /** Bounded staleness. Whatever is lost, rows returned from the cache were the
      database's answer at an instant of the run, and were stored at most sixty seconds
      ago: the answer is no older than that plus the filling reader's time from fetch to
      SET. */
  lemma {:induction false} BoundedStaleness(run: seq<Action>, user: UserId, rows: seq<Todo>) returns (k: nat)
    requires Hits(After(run), user, rows)
    ensures k < |run| && IsListing(After(run[..k]).table, user, rows)
    ensures var s := After(run);
            var e := s.cache[TodosCacheKey(user)];
            && e.fetchedAt == After(run[..k]).clock && e.fetchedAt <= e.setAt
            && s.clock - 60.0 <= e.setAt <= s.clock
            && After(run[..k]).clock >= s.clock - 60.0 - (e.setAt - e.fetchedAt)
  {
    AlwaysTraced(run);
    k := After(run).cache[TodosCacheKey(user)].fetchedStep;
  }

  ghost predicate Holds(run: seq<Action>, r: nat, f: Reader) {
    r in After(run).readers && After(run).readers[r] == f
  }

  /** A reader has its rows from before the action, or the action is its fetch. */
  lemma {:induction false} FetchOrKeep(s: State, a: Action, r: nat)
    requires r in Next(s, a).readers && Next(s, a).readers[r].Fetched?
    ensures var f := Next(s, a).readers[r];
            && r in s.readers
            && (s.readers[r] == f ||
                (s.readers[r] == Missed(f.user) && f.step == s.step && IsListing(s.table, f.user, f.rows)))
  {
    hide IsListing, Apply;
  }

  /** The answer of a reader that missed is what the database listed during that read:
      at a step when this reader had missed, and it has held the rows ever since. */
  lemma {:induction false} MissAnswersFromTheDatabase(run: seq<Action>, r: nat, f: Reader)
    requires Holds(run, r, f) && f.Fetched?
    ensures f.step < |run| && IsListing(After(run[..f.step]).table, f.user, f.rows)
    ensures Holds(run[..f.step], r, Missed(f.user))
    ensures forall m | f.step < m <= |run| :: Holds(run[..m], r, f)
  {
    hide After, Next, IsListing;
    if run == [] {
      NothingDone();
      assert false;
    } else {
      var n := |run| - 1;
      var init := run[..n];
      AfterSnoc(init, run[n]);
      assert run == init + [run[n]] && run[..n + 1] == run;
      FetchOrKeep(After(init), run[n], r);
      StepsCount(init);
      if Holds(init, r, f) {
        MissAnswersFromTheDatabase(init, r, f);
        forall m | 0 <= m <= n ensures init[..m] == run[..m] {
        }
      }
    }
  }

  lemma {:induction false} RaceReads(user: UserId)
    ensures var s1 := EMPTY.(step := 1, readers := map[0 := Reading(user)]);
            var s2 := EMPTY.(step := 2, readers := map[0 := Missed(user)]);
            var s3 := EMPTY.(step := 3, readers := map[0 := Fetched(user, [], 2, 0.0)]);
            && Next(EMPTY, BeginRead(0, user)) == s1
            && Next(s1, Miss(0)) == s2
            && Next(s2, Fetch(0, [])) == s3
  {
    assert map[0 := Reading(user)][0 := Missed(user)] == map[0 := Missed(user)];
    assert map[0 := Missed(user)][0 := Fetched(user, [], 2, 0.0)] == map[0 := Fetched(user, [], 2, 0.0)];
    assert IsListing(map[], user, []);
  }

  lemma {:induction false} RaceWrites(user: UserId, id: TodoId, title: string)
    requires TitleFits(Trim(title))
    ensures var fetched := map[0 := Fetched(user, [], 2, 0.0)];
            var table := map[id := Todo(id, user, Trim(title), false, 0, 0)];
            var s3 := EMPTY.(step := 3, readers := fetched);
            var s4 := State(4, 0.0, table, map[], fetched, map[1 := 0], [Commit(user, 3, Pending)]);
            && Next(s3, Write(1, user, Create(id, title), 0)) == s4
            && Next(s4, Del(1)) == s4.(step := 5, writers := map[], commits := [Commit(user, 3, Deleted(4))])
  {
  }

  lemma {:induction false} RaceStores(user: UserId, s: State)
    requires s.readers == map[0 := Fetched(user, [], 2, 0.0)] && s.clock == 0.0
    ensures Hits(Next(s, Set(0)), user, [])
    ensures Next(s, Set(0)).table == s.table
    ensures Next(s, Set(0)).writers == s.writers && Next(s, Set(0)).commits == s.commits
  {
  }

  /** The race that keeps the cache from being coherent: a reader fetches, a writer
      commits and deletes, the reader stores. No writer is left and no DEL was lost,
      yet the next GET returns a list without the new row. */
  lemma {:induction false} StaleAfterRace(user: UserId, id: TodoId, title: string)
    requires TitleFits(Trim(title))
    ensures var run := [BeginRead(0, user), Miss(0), Fetch(0, []),
                        Write(1, user, Create(id, title), 0), Del(1), Set(0)];
            && Hits(After(run), user, [])
            && !IsListing(After(run).table, user, [])
            && After(run).writers == map[] && After(run).commits == [Commit(user, 3, Deleted(4))]
  {
    hide *;
    var a, b, c := [BeginRead(0, user)], [BeginRead(0, user), Miss(0)], [BeginRead(0, user), Miss(0), Fetch(0, [])];
    var d := c + [Write(1, user, Create(id, title), 0)];
    var e := d + [Del(1)];
    var f := e + [Set(0)];
    NothingDone();
    RaceReads(user);
    RaceWrites(user, id, title);
    AfterSnoc([], BeginRead(0, user));
    assert [] + a == a;
    AfterSnoc(a, Miss(0));
    assert a + [Miss(0)] == b;
    AfterSnoc(b, Fetch(0, []));
    assert b + [Fetch(0, [])] == c;
    AfterSnoc(c, Write(1, user, Create(id, title), 0));
    AfterSnoc(d, Del(1));
    AfterSnoc(e, Set(0));
    RaceStores(user, After(e));
    RowNotListed(After(e).table, user, Todo(id, user, Trim(title), false, 0, 0));
    assert f == [BeginRead(0, user), Miss(0), Fetch(0, []), Write(1, user, Create(id, title), 0), Del(1), Set(0)];
  }

  lemma {:induction false} FillingStores(user: UserId)
    ensures var s3 := EMPTY.(step := 3, readers := map[0 := Fetched(user, [], 2, 0.0)]);
            var e := Filled(Entry(Some([]), 60.0), 2, 0.0, 3, 0.0);
            Next(s3, Set(0)) == EMPTY.(step := 4, cache := map[TodosCacheKey(user) := e])
  {
    assert map[0 := Fetched(user, [], 2, 0.0)] - {0} == map[];
    assert (60.0 as real).Floor == 60;
  }

  lemma {:induction false} FillingOutlivesWrite(user: UserId, id: TodoId, title: string)
    requires TitleFits(Trim(title))
    ensures var cache := map[TodosCacheKey(user) := Filled(Entry(Some([]), 60.0), 2, 0.0, 3, 0.0)];
            var table := map[id := Todo(id, user, Trim(title), false, 0, 0)];
            var s4 := EMPTY.(step := 4, cache := cache);
            var s5 := State(5, 0.0, table, cache, map[], map[1 := 0], [Commit(user, 4, Pending)]);
            var s6 := State(6, 0.0, table, cache, map[], map[], [Commit(user, 4, Lost)]);
            && Next(s4, Write(1, user, Create(id, title), 0)) == s5
            && Next(s5, LoseDel(1)) == s6
            && Hits(s5, user, []) && Hits(s6, user, [])
  {
    assert map[1 := 0] - {1} == map[];
  }

  /** The other two causes occur as well: a hit is stale as soon as a writer has
      committed, and stays so when the DEL is lost. */
  lemma {:induction false} StaleUntilDeleted(user: UserId, id: TodoId, title: string)
    requires TitleFits(Trim(title))
    ensures var run := [BeginRead(0, user), Miss(0), Fetch(0, []), Set(0), Write(1, user, Create(id, title), 0)];
            && Hits(After(run), user, []) && !IsListing(After(run).table, user, [])
            && After(run).commits == [Commit(user, 4, Pending)]
            && Hits(After(run + [LoseDel(1)]), user, []) && !IsListing(After(run + [LoseDel(1)]).table, user, [])
            && After(run + [LoseDel(1)]).commits == [Commit(user, 4, Lost)]
  {
    hide *;
    var a, b, c := [BeginRead(0, user)], [BeginRead(0, user), Miss(0)], [BeginRead(0, user), Miss(0), Fetch(0, [])];
    var d := c + [Set(0)];
    var e := d + [Write(1, user, Create(id, title), 0)];
    NothingDone();
    RaceReads(user);
    FillingStores(user);
    FillingOutlivesWrite(user, id, title);
    AfterSnoc([], BeginRead(0, user));
    assert [] + a == a;
    AfterSnoc(a, Miss(0));
    assert a + [Miss(0)] == b;
    AfterSnoc(b, Fetch(0, []));
    assert b + [Fetch(0, [])] == c;
    AfterSnoc(c, Set(0));
    AfterSnoc(d, Write(1, user, Create(id, title), 0));
    AfterSnoc(e, LoseDel(1));
    RowNotListed(After(e).table, user, Todo(id, user, Trim(title), false, 0, 0));
    assert e == [BeginRead(0, user), Miss(0), Fetch(0, []), Set(0), Write(1, user, Create(id, title), 0)];
  }

  lemma {:induction false} RowNotListed(t: Table, user: UserId, row: Todo)
    requires row.owner == user && row.id in t && t[row.id] == row
    ensures !IsListing(t, user, [])
  {
    assert IsRowOf(t, user, row);
  }

  lemma {:induction false} NothingDone()
    ensures After([]) == EMPTY
  {
  }

  lemma {:induction false} AfterSnoc(run: seq<Action>, a: Action)
    ensures After(run + [a]) == Next(After(run), a)
  {
    assert (run + [a])[..|run|] == run;
  }
}
