/** Exactly when the rows in the cache are stale, for any number of commits since they
    were fetched. */
module Staleness {
  import opened Text
  import opened Todos
  import opened CachedTodos
  import opened CacheProtocol

  /** In state `s` the action commits a write of the user. */
  ghost predicate Commits(s: State, a: Action, user: UserId) {
    a.Write? && a.user == user && Next(s, a).commits != s.commits
  }

  ghost predicate CommitsAt(run: seq<Action>, user: UserId, m: nat)
    requires m < |run|
  {
    Commits(After(run[..m]), run[m], user)
  }

  lemma {:induction false} PrefixStep(run: seq<Action>, m: nat)
    requires m < |run|
    ensures After(run[..m + 1]) == Next(After(run[..m]), run[m])
  {
    assert run[..m + 1][..m] == run[..m];
  }

  lemma {:induction false} ActionKeepsList(s: State, a: Action, user: UserId, rows: seq<Todo>)
    requires !Commits(s, a, user)
    ensures IsListing(s.table, user, rows) <==> IsListing(Next(s, a).table, user, rows)
  {
    hide IsListing, Apply;
    if a.Write? && a.user != user {
      ListingSurvivesOthers(s.table, a.user, a.write, a.at, user, rows);
    }
  }

  lemma {:induction false} CommitOutdatesList(s: State, a: Action, user: UserId, rows: seq<Todo>)
    requires WellKeyed(s.table) && IsListing(s.table, user, rows)
    requires Commits(s, a, user) && !a.write.Update?
    ensures !IsListing(Next(s, a).table, user, rows)
  {
    WriteOutdatesListings(s.table, user, a.write, a.at, rows);
  }

  /** Between two of the user's commits the user's list does not move. */
  lemma {:induction false} ListKept(run: seq<Action>, user: UserId, rows: seq<Todo>, i: nat, j: nat)
    requires i <= j <= |run| && forall m | i <= m < j :: !CommitsAt(run, user, m)
    ensures IsListing(After(run[..i]).table, user, rows) <==> IsListing(After(run[..j]).table, user, rows)
    decreases j
  {
    hide IsListing, After, Commits, Next;
    if i == j {
    } else {
      ListKept(run, user, rows, i, j - 1);
      PrefixStep(run, j - 1);
      assert !CommitsAt(run, user, j - 1);
      ActionKeepsList(After(run[..j - 1]), run[j - 1], user, rows);
    }
  }

  lemma {:induction false} KeysAlwaysFit(run: seq<Action>)
    ensures WellKeyed(After(run).table)
  {
    if run == [] {
    } else {
      KeysAlwaysFit(run[..|run| - 1]);
      var a := run[|run| - 1];
      if a.Write? {
        ApplyKeepsKeys(After(run[..|run| - 1]).table, a.user, a.write, a.at);
      }
    }
  }

  lemma {:induction false} CommitIsWrite(s: State, a: Action, user: UserId)
    requires Commits(s, a, user)
    ensures a.Write?
  {
  }

  /** The user's row of that id, if there is one. */
  function RowOf(t: Table, user: UserId, id: TodoId): Option<Todo> {
    if Owns(t, user, id) then Some(t[id]) else None
  }

  /** A listing of one table lists another exactly when the user's rows are the same. */
  lemma {:induction false} ListsBothIffSameRows(t: Table, u: Table, user: UserId, rows: seq<Todo>)
    requires WellKeyed(t) && WellKeyed(u) && IsListing(t, user, rows)
    ensures IsListing(u, user, rows) <==> forall id :: RowOf(t, user, id) == RowOf(u, user, id)
  {
    assert forall row :: IsRowOf(t, user, row) <==> RowOf(t, user, row.id) == Some(row);
    assert forall row :: IsRowOf(u, user, row) <==> RowOf(u, user, row.id) == Some(row);
    if IsListing(u, user, rows) {
      forall id ensures RowOf(t, user, id) == RowOf(u, user, id) {
        if Owns(t, user, id) {
          assert IsRowOf(t, user, t[id]) && t[id] in rows;
        }
        if Owns(u, user, id) {
          assert IsRowOf(u, user, u[id]) && u[id] in rows;
        }
      }
    }
  }

  /** Step m of the run commits a write of the user on that todo. */
  ghost predicate TouchesAt(run: seq<Action>, user: UserId, id: TodoId, m: nat)
    requires m < |run|
  {
    CommitsAt(run, user, m) && run[m].write.id == id
  }

  ghost predicate TouchedSince(run: seq<Action>, user: UserId, id: TodoId, k: nat) {
    exists m | k <= m < |run| :: TouchesAt(run, user, id, m)
  }

  /** A row of the user changes only when the user commits a write on it. */
  lemma {:induction false} ActionKeepsRow(s: State, a: Action, user: UserId, id: TodoId)
    requires !(Commits(s, a, user) && a.write.id == id)
    ensures RowOf(Next(s, a).table, user, id) == RowOf(s.table, user, id)
  {
  }

  /** A row that a commit leaves to the user carries the time of that commit. */
  lemma {:induction false} CommitStampsRow(s: State, a: Action, user: UserId, id: TodoId)
    requires Commits(s, a, user) && a.write.id == id && Owns(Next(s, a).table, user, id)
    ensures Next(s, a).table[id].updatedAt == a.at
  {
  }

  lemma {:induction false} TouchesInPrefix(run: seq<Action>, user: UserId, id: TodoId, j: nat, m: nat)
    requires m < j <= |run|
    ensures TouchesAt(run[..j], user, id, m) <==> TouchesAt(run, user, id, m)
  {
    assert run[..j][..m] == run[..m];
  }

  lemma {:induction false} UntouchedRowKept(run: seq<Action>, user: UserId, id: TodoId, k: nat)
    requires k <= |run| && !TouchedSince(run, user, id, k)
    ensures RowOf(After(run[..k]).table, user, id) == RowOf(After(run).table, user, id)
    decreases |run|
  {
    hide After, Next, Commits, RowOf;
    if k == |run| {
      assert run[..k] == run;
    } else {
      var n := |run| - 1;
      var init := run[..n];
      forall m | k <= m < n ensures !TouchesAt(init, user, id, m) {
        TouchesInPrefix(run, user, id, n, m);
      }
      UntouchedRowKept(init, user, id, k);
      assert init[..k] == run[..k] && run[..n + 1] == run;
      PrefixStep(run, n);
      assert !TouchesAt(run, user, id, n);
      ActionKeepsRow(After(init), run[n], user, id);
    }
  }

  /** Every row was written by a commit of its owner, the last one on that todo. */
  lemma {:induction false} RowWasWritten(run: seq<Action>, user: UserId, id: TodoId) returns (m: nat)
    requires Owns(After(run).table, user, id)
    ensures m < |run| && TouchesAt(run, user, id, m) && After(run).table[id].updatedAt == run[m].at
    ensures forall p | m < p < |run| :: !TouchesAt(run, user, id, p)
    decreases |run|
  {
    hide Next, Commits, After;
    if run == [] {
      NothingDone();
      assert false;
    } else {
      var n := |run| - 1;
      var init := run[..n];
      assert run[..n + 1] == run;
      PrefixStep(run, n);
      if TouchesAt(run, user, id, n) {
        CommitStampsRow(After(init), run[n], user, id);
        m := n;
      } else {
        ActionKeepsRow(After(init), run[n], user, id);
        m := RowWasWritten(init, user, id);
        forall p | m <= p < n ensures TouchesAt(init, user, id, p) <==> TouchesAt(run, user, id, p) {
          TouchesInPrefix(run, user, id, n, p);
        }
      }
    }
  }

  /** Exactly when a hit is current, in every run: each todo that the user's commits
      touched since the fetch is again what it was at the fetch. */
  lemma {:induction false} CurrentIffTouchedRowsRestored(run: seq<Action>, user: UserId, rows: seq<Todo>)
    requires Hits(After(run), user, rows)
    ensures var k := After(run).cache[TodosCacheKey(user)].fetchedStep;
            && k < |run|
            && (IsListing(After(run).table, user, rows)
                <==> forall id | TouchedSince(run, user, id, k) ::
                       RowOf(After(run[..k]).table, user, id) == RowOf(After(run).table, user, id))
  {
    hide After, TouchedSince, RowOf, IsListing;
    AlwaysTraced(run);
    var k := After(run).cache[TodosCacheKey(user)].fetchedStep;
    assert Traced(run, user, rows, k, After(run).cache[TodosCacheKey(user)].fetchedAt);
    KeysAlwaysFit(run);
    KeysAlwaysFit(run[..k]);
    ListsBothIffSameRows(After(run[..k]).table, After(run).table, user, rows);
    forall id | !TouchedSince(run, user, id, k)
      ensures RowOf(After(run[..k]).table, user, id) == RowOf(After(run).table, user, id)
    {
      UntouchedRowKept(run, user, id, k);
    }
  }

  /** No commit on a todo since step k carries the time of an earlier one on it. */
  ghost predicate FreshTimes(run: seq<Action>, user: UserId, k: nat) {
    forall id, m, n | 0 <= m < k <= n < |run| && TouchesAt(run, user, id, m) && TouchesAt(run, user, id, n) ::
      run[m].at != run[n].at
  }

  /** The user's commits come in the order of their times. */
  ghost predicate AscendingTimes(run: seq<Action>, user: UserId) {
    forall m, n | 0 <= m < n < |run| && CommitsAt(run, user, m) && CommitsAt(run, user, n) :: run[m].at < run[n].at
  }

  lemma {:induction false} AscendingTimesAreFresh(run: seq<Action>, user: UserId, k: nat)
    requires AscendingTimes(run, user)
    ensures FreshTimes(run, user, k)
  {
  }

  /** A touched todo is what it was at the fetch exactly if it was no row of the user's
      then and is none now: otherwise the time of its last write gives it away. */
  lemma {:induction false} TouchedRowDiffers(run: seq<Action>, user: UserId, id: TodoId, k: nat)
    requires k <= |run| && TouchedSince(run, user, id, k) && FreshTimes(run, user, k)
    ensures RowOf(After(run[..k]).table, user, id) == RowOf(After(run).table, user, id)
            <==> !Owns(After(run[..k]).table, user, id) && !Owns(After(run).table, user, id)
  {
    hide After;
    if Owns(After(run[..k]).table, user, id) && Owns(After(run).table, user, id) {
      var m := RowWasWritten(run[..k], user, id);
      TouchesInPrefix(run, user, id, k, m);
      var n := RowWasWritten(run, user, id);
      assert n >= k;
      assert run[m].at != run[n].at;
    }
  }

  /** Exactly when a hit is current, for any number of commits: every todo that the user
      touched since the fetch was the user's neither at the fetch nor is now. In
      particular no second toggle makes up for a first. */
  lemma {:induction false} CurrentIffTouchedRowsComeAndGone(run: seq<Action>, user: UserId, rows: seq<Todo>)
    requires Hits(After(run), user, rows)
    requires FreshTimes(run, user, After(run).cache[TodosCacheKey(user)].fetchedStep)
    ensures var k := After(run).cache[TodosCacheKey(user)].fetchedStep;
            && k < |run|
            && (IsListing(After(run).table, user, rows)
                <==> forall id | TouchedSince(run, user, id, k) ::
                       !Owns(After(run[..k]).table, user, id) && !Owns(After(run).table, user, id))
  {
    hide After, TouchedSince, RowOf, IsListing, FreshTimes;
    CurrentIffTouchedRowsRestored(run, user, rows);
    var k := After(run).cache[TodosCacheKey(user)].fetchedStep;
    forall id | TouchedSince(run, user, id, k)
      ensures RowOf(After(run[..k]).table, user, id) == RowOf(After(run).table, user, id)
              <==> !Owns(After(run[..k]).table, user, id) && !Owns(After(run).table, user, id)
    {
      TouchedRowDiffers(run, user, id, k);
    }
  }

  /** The user has deleted nothing since step k. */
  ghost predicate NoDeletesSince(run: seq<Action>, user: UserId, k: nat) {
    forall m | k <= m < |run| && CommitsAt(run, user, m) :: !run[m].write.Delete?
  }

  lemma {:induction false} CommitLeavesRow(s: State, a: Action, user: UserId)
    requires Commits(s, a, user) && !a.write.Delete?
    ensures Owns(Next(s, a).table, user, a.write.id)
  {
  }

  /** A todo that was touched and not deleted is still the user's. */
  lemma {:induction false} TouchedRowStays(run: seq<Action>, user: UserId, id: TodoId, k: nat)
    requires TouchedSince(run, user, id, k) && NoDeletesSince(run, user, k)
    ensures Owns(After(run).table, user, id)
    decreases |run|
  {
    hide After, Next, Commits;
    var m :| k <= m < |run| && TouchesAt(run, user, id, m);
    var n := |run| - 1;
    var init := run[..n];
    assert run[..n + 1] == run;
    PrefixStep(run, n);
    if TouchesAt(run, user, id, n) {
      CommitLeavesRow(After(init), run[n], user);
    } else {
      ActionKeepsRow(After(init), run[n], user, id);
      forall p | k <= p < n ensures CommitsAt(init, user, p) <==> CommitsAt(run, user, p) {
        assert init[..p] == run[..p];
      }
      assert TouchesAt(init, user, id, m);
      TouchedRowStays(init, user, id, k);
    }
  }

  /** For times that ascend, as the database's clock gives them, and any number of
      commits without a delete: a hit is current exactly when there was none. */
  lemma {:induction false} CurrentIffNothingCommitted(run: seq<Action>, user: UserId, rows: seq<Todo>)
    requires Hits(After(run), user, rows) && AscendingTimes(run, user)
    requires NoDeletesSince(run, user, After(run).cache[TodosCacheKey(user)].fetchedStep)
    ensures var k := After(run).cache[TodosCacheKey(user)].fetchedStep;
            IsListing(After(run).table, user, rows) <==> forall m | k <= m < |run| :: !CommitsAt(run, user, m)
  {
    hide After, IsListing, FreshTimes, AscendingTimes, NoDeletesSince, Commits;
    var k := After(run).cache[TodosCacheKey(user)].fetchedStep;
    AscendingTimesAreFresh(run, user, k);
    CurrentIffTouchedRowsComeAndGone(run, user, rows);
    if m :| k <= m < |run| && CommitsAt(run, user, m) {
      CommitIsWrite(After(run[..m]), run[m], user);
      var id := run[m].write.id;
      assert TouchesAt(run, user, id, m) && TouchedSince(run, user, id, k);
      TouchedRowStays(run, user, id, k);
    }
  }

  /** A single commit of the kind the handlers issue always shows, whatever its time:
      as long as the user has committed at most once since the fetch, the rows are
      current if and only if the user has not committed since. */
  lemma {:induction false} StaleIffCommitted(run: seq<Action>, user: UserId, rows: seq<Todo>)
    requires Hits(After(run), user, rows)
    requires forall m | 0 <= m < |run| && run[m].Write? :: !run[m].write.Update?
    requires var k := After(run).cache[TodosCacheKey(user)].fetchedStep;
             forall m, n | k <= m < |run| && k <= n < |run| ::
               CommitsAt(run, user, m) && CommitsAt(run, user, n) ==> m == n
    ensures var k := After(run).cache[TodosCacheKey(user)].fetchedStep;
            IsListing(After(run).table, user, rows) <==> forall m | k <= m < |run| :: !CommitsAt(run, user, m)
  {
    hide IsListing, After, Commits, Next;
    AlwaysTraced(run);
    var k := After(run).cache[TodosCacheKey(user)].fetchedStep;
    assert Traced(run, user, rows, k, After(run).cache[TodosCacheKey(user)].fetchedAt);
    assert run[..|run|] == run;
    if m :| k <= m < |run| && CommitsAt(run, user, m) {
      ListKept(run, user, rows, k, m);
      PrefixStep(run, m);
      KeysAlwaysFit(run[..m]);
      assert run[m].Write? by {
        CommitIsWrite(After(run[..m]), run[m], user);
      }
      CommitOutdatesList(After(run[..m]), run[m], user, rows);
      ListKept(run, user, rows, m + 1, |run|);
    } else {
      ListKept(run, user, rows, k, |run|);
    }
  }
}
