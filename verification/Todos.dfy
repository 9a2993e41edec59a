/** The todos table and the page a browser keeps of it. */
module Todos {
  import opened Text
  import opened Orders

  /** A UUID is identified with its canonical text. */
  datatype UserId = UserId(uuid: string)

  datatype TodoId = TodoId(uuid: string)

  datatype Todo = Todo(
    id: TodoId, owner: UserId, title: string, completed: bool, createdAt: int, updatedAt: int)

  type Table = map<TodoId, Todo>

  datatype StorageError = NotFound | Database

  /** What a statement leaves in the table and gives back. */
  datatype Outcome = Outcome(table: Table, result: Result<Option<Todo>, StorageError>)

  /** The writes of the repository; times come from the database's NOW(). */
  datatype Write =
    | Create(id: TodoId, title: string)
    | Update(id: TodoId, newTitle: Option<string>, done: Option<bool>)
    | Toggle(id: TodoId)
    | Delete(id: TodoId)

  ghost predicate WellKeyed(t: Table) {
    forall id | id in t :: t[id].id == id
  }

  /** The CHECK constraint on the title column. */
  predicate TitleFits(title: string) {
    1 <= |title| <= 280
  }

  /** The row that `WHERE id = $1 AND owner_id = $2` finds. */
  predicate Owns(t: Table, user: UserId, id: TodoId) {
    id in t && t[id].owner == user
  }

  /** `SET title = COALESCE($3, title), completed = COALESCE($4, completed)`, with the trigger's time. */
  function Updated(row: Todo, newTitle: Option<string>, done: Option<bool>, now: int): Todo {
    var title := if newTitle.Some? then Trim(newTitle.value) else row.title;
    row.(title := title, completed := done.GetOr(row.completed), updatedAt := now)
  }

  function Apply(t: Table, user: UserId, w: Write, now: int): Outcome {
    match w
    case Create(id, title) =>
      var row := Todo(id, user, Trim(title), false, now, now);
      if id in t || !TitleFits(row.title) then Outcome(t, Err(Database))
      else Outcome(t[id := row], Ok(Some(row)))
    case Update(id, newTitle, done) =>
      if !Owns(t, user, id) then Outcome(t, Err(NotFound))
      else
        var row := Updated(t[id], newTitle, done, now);
        if !TitleFits(row.title) then Outcome(t, Err(Database))
        else Outcome(t[id := row], Ok(Some(row)))
    case Toggle(id) =>
      if !Owns(t, user, id) then Outcome(t, Err(NotFound))
      else
        var row := t[id].(completed := !t[id].completed, updatedAt := now);
        Outcome(t[id := row], Ok(Some(row)))
    case Delete(id) =>
      if !Owns(t, user, id) then Outcome(t, Err(NotFound))
      else Outcome(t - {id}, Ok(None))
  }

  // ---- Listings -----------------------------------------------------------------

  /** `ORDER BY completed ASC, created_at DESC` lets a stand before b. */
  predicate MayPrecede(a: Todo, b: Todo) {
    (!a.completed && b.completed) || (a.completed == b.completed && a.createdAt >= b.createdAt)
  }

  ghost predicate InOrder(rows: seq<Todo>) {
    forall i, j | 0 <= i < j < |rows| :: MayPrecede(rows[i], rows[j])
  }

  ghost predicate DistinctIds(rows: seq<Todo>) {
    forall i, j | 0 <= i < j < |rows| :: rows[i].id != rows[j].id
  }

  predicate IsRowOf(t: Table, user: UserId, row: Todo) {
    Owns(t, user, row.id) && t[row.id] == row
  }

  /** The rows shown are the user's rows, each once, in any order. */
  ghost predicate Shows(t: Table, user: UserId, rows: seq<Todo>) {
    && DistinctIds(rows)
    && forall row :: row in rows <==> IsRowOf(t, user, row)
  }

  /** A possible result of `list_for_user`: rows with equal keys may come in any order. */
  ghost predicate IsListing(t: Table, user: UserId, rows: seq<Todo>) {
    Shows(t, user, rows) && InOrder(rows)
  }

  predicate StrictlyPrecedes(a: Todo, b: Todo) {
    MayPrecede(a, b) && !MayPrecede(b, a)
  }

  lemma ListingIsStrict(t: Table, user: UserId, rows: seq<Todo>)
    requires IsListing(t, user, rows)
    requires forall x, y | Owns(t, user, x) && Owns(t, user, y) && x != y :: t[x].createdAt != t[y].createdAt
    ensures Sorted(StrictlyPrecedes, rows)
  {
    forall i, j | 0 <= i < j < |rows| ensures StrictlyPrecedes(rows[i], rows[j]) {
      assert IsRowOf(t, user, rows[i]) && IsRowOf(t, user, rows[j]);
      assert t[rows[i].id].createdAt != t[rows[j].id].createdAt;
    }
  }

  /** When no two rows of the user were created at the same time there is one listing. */
  lemma ListingIsUnique(t: Table, user: UserId, a: seq<Todo>, b: seq<Todo>)
    requires WellKeyed(t) && IsListing(t, user, a) && IsListing(t, user, b)
    requires forall x, y | Owns(t, user, x) && Owns(t, user, y) && x != y :: t[x].createdAt != t[y].createdAt
    ensures a == b
  {
    ListingIsStrict(t, user, a);
    ListingIsStrict(t, user, b);
    SortedIsUnique(StrictlyPrecedes, a, b);
  }

  /** What a write of one user does to the rows of another: nothing. */
  lemma WritesStayWithTheirUser(t: Table, user: UserId, w: Write, now: int, other: UserId, row: Todo)
    requires other != user
    ensures IsRowOf(t, other, row) <==> IsRowOf(Apply(t, user, w, now).table, other, row)
  {
  }

  lemma ListingSurvivesOthers(t: Table, user: UserId, w: Write, now: int, other: UserId, rows: seq<Todo>)
    requires other != user
    ensures IsListing(t, other, rows) <==> IsListing(Apply(t, user, w, now).table, other, rows)
  {
    forall row ensures IsRowOf(t, other, row) <==> IsRowOf(Apply(t, user, w, now).table, other, row) {
      WritesStayWithTheirUser(t, user, w, now, other, row);
    }
  }

  lemma ApplyKeepsKeys(t: Table, user: UserId, w: Write, now: int)
    requires WellKeyed(t)
    ensures WellKeyed(Apply(t, user, w, now).table)
  {
  }

  /** Creating, toggling or deleting a row always makes the old listings wrong. */
  lemma WriteOutdatesListings(t: Table, user: UserId, w: Write, now: int, rows: seq<Todo>)
    requires WellKeyed(t) && IsListing(t, user, rows)
    requires !w.Update? && Apply(t, user, w, now).result.Ok?
    ensures !IsListing(Apply(t, user, w, now).table, user, rows)
  {
    var t' := Apply(t, user, w, now).table;
    if w.Delete? {
      assert IsRowOf(t, user, t[w.id]) && !IsRowOf(t', user, t[w.id]);
    } else {
      assert !IsRowOf(t, user, t'[w.id]) && IsRowOf(t', user, t'[w.id]);
    }
  }

  // ---- Titles and repeated writes --------------------------------------------------

  lemma TrimOfTrimmed(s: string)
    ensures Trim(Trim(s)) == Trim(s) && |Trim(s)| <= |s|
  {
    var before, after := TrimSplits(s);
    TrimSurrounded(before, Trim(s), after);
  }

  /** The handler validates the raw title, the constraint sees the trimmed one: a
      validated title is stored exactly when it is not blank. */
  lemma ValidatedTitleFitsIffNotBlank(title: string)
    requires TitleFits(title)
    ensures TitleFits(Trim(title)) <==> !Blank(title)
  {
    TrimBlank(title);
    TrimOfTrimmed(title);
  }

  /** Every stored title is trimmed and within the constraint. */
  ghost predicate TitlesStored(t: Table) {
    forall id | id in t :: TitleFits(t[id].title) && Trim(t[id].title) == t[id].title
  }

  /** No write stores any other title, and a create succeeds exactly for a fresh
      identifier and a title that is not blank and at most 280 long when trimmed. */
  lemma WritesKeepTitles(t: Table, user: UserId, w: Write, now: int)
    requires TitlesStored(t)
    ensures TitlesStored(Apply(t, user, w, now).table)
    ensures w.Create? ==>
              (Apply(t, user, w, now).result.Ok? <==> w.id !in t && !Blank(w.title) && |Trim(w.title)| <= 280)
  {
    if w.Create? {
      TrimOfTrimmed(w.title);
      TrimBlank(w.title);
    }
    if w.Update? && w.newTitle.Some? {
      TrimOfTrimmed(w.newTitle.value);
    }
  }

  // ---- The repository -------------------------------------------------------------

  /** Puts a row at a place the order allows. */
  method InsertInOrder(rows: seq<Todo>, row: Todo) returns (out: seq<Todo>)
    requires InOrder(rows)
    ensures InOrder(out)
    ensures exists k | 0 <= k <= |rows| :: out == rows[..k] + [row] + rows[k..]
  {
    var k := 0;
    while k < |rows| && MayPrecede(rows[k], row)
      invariant 0 <= k <= |rows|
      invariant forall i | 0 <= i < k :: MayPrecede(rows[i], row)
    {
      k := k + 1;
    }
    out := rows[..k] + [row] + rows[k..];
  }

  class TodoRepository {
    var rows: Table

    constructor ()
      ensures rows == map[]
    {
      rows := map[];
    }

    /** The SELECT: the user's rows in the order asked for, ties in no particular order. */
    method ListForUser(user: UserId) returns (out: seq<Todo>)
      requires WellKeyed(rows)
      ensures IsListing(rows, user, out)
      ensures forall row :: row in out <==> row.id in rows && rows[row.id] == row && row.owner == user
      ensures forall i, j | 0 <= i < j < |out| ::
                && out[i].id != out[j].id
                && (out[i].completed ==> out[j].completed)
                && (out[i].completed == out[j].completed ==> out[i].createdAt >= out[j].createdAt)
    {
      out := [];
      var todo := rows.Keys;
      while todo != {}
        invariant todo <= rows.Keys
        invariant DistinctIds(out) && InOrder(out)
        invariant forall row :: row in out <==> IsRowOf(rows, user, row) && row.id !in todo
        decreases |todo|
      {
        var id :| id in todo;
        todo := todo - {id};
        if rows[id].owner == user {
          ghost var before := out;
          out := InsertInOrder(out, rows[id]);
          ghost var k :| 0 <= k <= |before| && out == before[..k] + [rows[id]] + before[k..];
          InsertedRows(before, rows[id], k);
        }
      }
    }

    method Get(user: UserId, id: TodoId) returns (r: Result<Todo, StorageError>)
      requires WellKeyed(rows)
      ensures r.Ok? <==> id in rows && rows[id].owner == user
      ensures r.Ok? ==> r.value == rows[id] && r.value.id == id
      ensures r.Err? ==> r.error == NotFound
    {
      if id in rows && rows[id].owner == user {
        r := Ok(rows[id]);
      } else {
        r := Err(NotFound);
      }
    }

    method Create(user: UserId, id: TodoId, title: string, now: int) returns (r: Result<Option<Todo>, StorageError>)
      modifies this
      ensures Outcome(rows, r) == Apply(old(rows), user, Write.Create(id, title), now)
      ensures r.Ok? <==> id !in old(rows) && 1 <= |Trim(title)| <= 280
      ensures r.Ok? ==>
                && id in rows && r.value == Some(rows[id]) && rows == old(rows)[id := rows[id]]
                && rows[id].id == id && rows[id].owner == user && rows[id].title == Trim(title)
                && !rows[id].completed && rows[id].createdAt == now && rows[id].updatedAt == now
      ensures r.Err? ==> r.error == Database && rows == old(rows)
    {
      var row := Todo(id, user, Trim(title), false, now, now);
      if id in rows || !TitleFits(row.title) {
        return Err(Database);
      }
      rows := rows[id := row];
      r := Ok(Some(row));
    }

    method Update(user: UserId, id: TodoId, newTitle: Option<string>, done: Option<bool>, now: int)
      returns (r: Result<Option<Todo>, StorageError>)
      modifies this
      ensures Outcome(rows, r) == Apply(old(rows), user, Write.Update(id, newTitle, done), now)
      ensures r == Err(NotFound) <==> !(id in old(rows) && old(rows)[id].owner == user)
      ensures r.Ok? <==>
                && id in old(rows) && old(rows)[id].owner == user
                && 1 <= |if newTitle.Some? then Trim(newTitle.value) else old(rows)[id].title| <= 280
      ensures r.Ok? ==>
                && id in rows && r.value == Some(rows[id]) && rows == old(rows)[id := rows[id]]
                && rows[id].id == old(rows)[id].id && rows[id].owner == user
                && rows[id].createdAt == old(rows)[id].createdAt && rows[id].updatedAt == now
                && (newTitle.None? ==> rows[id].title == old(rows)[id].title)
                && (newTitle.Some? ==> rows[id].title == Trim(newTitle.value))
                && (done.None? ==> rows[id].completed == old(rows)[id].completed)
                && (done.Some? ==> rows[id].completed == done.value)
      ensures r.Err? ==> rows == old(rows)
    {
      if !Owns(rows, user, id) {
        return Err(NotFound);
      }
      var row := rows[id].(updatedAt := now);
      if newTitle.Some? {
        row := row.(title := Trim(newTitle.value));
      }
      if done.Some? {
        row := row.(completed := done.value);
      }
      if !TitleFits(row.title) {
        return Err(Database);
      }
      rows := rows[id := row];
      r := Ok(Some(row));
    }

    method Toggle(user: UserId, id: TodoId, now: int) returns (r: Result<Option<Todo>, StorageError>)
      modifies this
      ensures Outcome(rows, r) == Apply(old(rows), user, Write.Toggle(id), now)
      ensures r.Ok? <==> id in old(rows) && old(rows)[id].owner == user
      ensures r.Ok? ==>
                && id in rows && r.value == Some(rows[id]) && rows == old(rows)[id := rows[id]]
                && rows[id].completed != old(rows)[id].completed && rows[id].updatedAt == now
                && rows[id].id == old(rows)[id].id && rows[id].owner == user
                && rows[id].title == old(rows)[id].title && rows[id].createdAt == old(rows)[id].createdAt
      ensures r.Err? ==> r.error == NotFound && rows == old(rows)
    {
      if !Owns(rows, user, id) {
        return Err(NotFound);
      }
      rows := rows[id := rows[id].(completed := !rows[id].completed, updatedAt := now)];
      r := Ok(Some(rows[id]));
    }

    method Delete(user: UserId, id: TodoId) returns (r: Result<Option<Todo>, StorageError>)
      modifies this
      ensures forall now :: Outcome(rows, r) == Apply(old(rows), user, Write.Delete(id), now)
      ensures r.Ok? <==> id in old(rows) && old(rows)[id].owner == user
      ensures r.Ok? ==> r.value == None && id !in rows && rows == old(rows) - {id}
      ensures r.Err? ==> r.error == NotFound && rows == old(rows)
    {
      if !Owns(rows, user, id) {
        return Err(NotFound);
      }
      rows := rows - {id};
      r := Ok(None);
    }
  }

  lemma InsertedRows(before: seq<Todo>, row: Todo, k: nat)
    requires k <= |before| && DistinctIds(before)
    requires forall r | r in before :: r.id != row.id
    ensures var out := before[..k] + [row] + before[k..];
            DistinctIds(out) && forall r :: r in out <==> r in before || r == row
  {
    var p, q := before[..k], before[k..];
    assert before == p + q;
    InsertedDistinct(p, row, q);
  }

  lemma InsertedDistinct(p: seq<Todo>, row: Todo, q: seq<Todo>)
    requires DistinctIds(p + q) && forall r | r in p + q :: r.id != row.id
    ensures DistinctIds(p + [row] + q)
  {
    var before, out := p + q, p + [row] + q;
    forall i, j | 0 <= i < j < |out| ensures out[i].id != out[j].id {
      var i', j' := if i < |p| then i else i - 1, if j < |p| then j else j - 1;
      if i == |p| {
        assert out[j] == before[j'] && before[j'] in before;
      } else if j == |p| {
        assert out[i] == before[i'] && before[i'] in before;
      } else {
        assert out[i] == before[i'] && out[j] == before[j'];
      }
    }
  }

  /** Two toggles of a todo give it back but for its time of change, and touch no other. */
  method ToggleBack(repo: TodoRepository, user: UserId, id: TodoId, first: int, second: int)
    requires id in repo.rows && repo.rows[id].owner == user
    modifies repo
    ensures repo.rows == old(repo.rows)[id := old(repo.rows)[id].(updatedAt := second)]
  {
    var once := repo.Toggle(user, id, first);
    var twice := repo.Toggle(user, id, second);
  }

  // ---- The page --------------------------------------------------------------------

  function Replaced(page: seq<Todo>, row: Todo): seq<Todo> {
    seq(|page|, k requires 0 <= k < |page| => if page[k].id == row.id then row else page[k])
  }

  function Removed(page: seq<Todo>, id: TodoId): seq<Todo> {
    if page == [] then []
    else (if page[0].id == id then [] else [page[0]]) + Removed(page[1..], id)
  }

  /** What the browser does with the fragment that a successful write returns:
      prepend a new row, swap a changed one in place, drop a deleted one. */
  function Swap(page: seq<Todo>, w: Write, row: Option<Todo>): seq<Todo> {
    if row.None? then Removed(page, w.id)
    else if w.Create? then [row.value] + page
    else Replaced(page, row.value)
  }

  datatype Tab = Tab(table: Table, page: seq<Todo>)

  datatype Click = Click(write: Write, now: int)

  function Press(tab: Tab, user: UserId, c: Click): Tab {
    var o := Apply(tab.table, user, c.write, c.now);
    Tab(o.table, if o.result.Ok? then Swap(tab.page, c.write, o.result.value) else tab.page)
  }

  function PressAll(tab: Tab, user: UserId, clicks: seq<Click>): Tab {
    if clicks == [] then tab
    else Press(PressAll(tab, user, clicks[..|clicks| - 1]), user, clicks[|clicks| - 1])
  }

  /** What one click changes on the page: a new row comes first, a changed row stays in
      its place, a deleted row leaves the others in theirs, and a refused click changes
      nothing. */
  lemma {:induction false} ClickInFull(tab: Tab, user: UserId, c: Click)
    requires WellKeyed(tab.table) && DistinctIds(tab.page)
    ensures var o, page, page' := Apply(tab.table, user, c.write, c.now), tab.page, Press(tab, user, c).page;
            && (o.result.Err? ==> page' == page)
            && (o.result.Ok? && c.write.Create? ==> page' == [o.table[c.write.id]] + page)
            && (o.result.Ok? && (c.write.Toggle? || c.write.Update?) ==>
                  && |page'| == |page|
                  && forall k | 0 <= k < |page| ::
                       page'[k] == if page[k].id == c.write.id then o.table[c.write.id] else page[k])
            && (o.result.Ok? && c.write.Delete? ==>
                  forall k | 0 <= k < |page| && page[k].id == c.write.id :: page' == page[..k] + page[k + 1..])
  {
    if c.write.Delete? {
      forall k | 0 <= k < |tab.page| && tab.page[k].id == c.write.id
        ensures Removed(tab.page, c.write.id) == tab.page[..k] + tab.page[k + 1..]
      {
        RemovedAt(tab.page, c.write.id, k);
      }
    }
  }

  lemma {:induction false} RemovedAt(page: seq<Todo>, id: TodoId, k: nat)
    requires DistinctIds(page) && k < |page| && page[k].id == id
    ensures Removed(page, id) == page[..k] + page[k + 1..]
  {
    var rest := page[1..];
    if k == 0 {
      NothingRemoved(rest, id);
      assert page[..0] + page[1..] == rest;
    } else {
      RemovedAt(rest, id, k - 1);
      assert page[..k] == [page[0]] + rest[..k - 1] && page[k + 1..] == rest[k..];
    }
  }

  lemma {:induction false} NothingRemoved(page: seq<Todo>, id: TodoId)
    requires forall k | 0 <= k < |page| :: page[k].id != id
    ensures Removed(page, id) == page
  {
    if page == [] {
    } else {
      NothingRemoved(page[1..], id);
    }
  }

  lemma {:induction false} RemovedRows(page: seq<Todo>, id: TodoId)
    requires DistinctIds(page)
    ensures DistinctIds(Removed(page, id))
    ensures forall row :: row in Removed(page, id) <==> row in page && row.id != id
  {
    if page == [] {
    } else {
      RemovedRows(page[1..], id);
      assert page == [page[0]] + page[1..];
    }
  }

  lemma {:induction false} RemovedOrder(page: seq<Todo>, id: TodoId)
    requires InOrder(page) && DistinctIds(page)
    ensures InOrder(Removed(page, id))
  {
    if page == [] {
    } else {
      var rest := Removed(page[1..], id);
      RemovedOrder(page[1..], id);
      RemovedRows(page[1..], id);
      assert page == [page[0]] + page[1..];
      forall j | 0 <= j < |rest| ensures MayPrecede(page[0], rest[j]) {
        assert rest[j] in page[1..];
      }
    }
  }

  lemma ReplacedRows(page: seq<Todo>, row: Todo)
    requires DistinctIds(page) && exists k | 0 <= k < |page| :: page[k].id == row.id
    ensures DistinctIds(Replaced(page, row))
    ensures forall r :: r in Replaced(page, row) <==> r == row || (r in page && r.id != row.id)
  {
    var out := Replaced(page, row);
    forall r ensures r in out <==> r == row || (r in page && r.id != row.id) {
      if r == row {
        var k :| 0 <= k < |page| && page[k].id == row.id;
        assert out[k] == row;
      } else if r in page && r.id != row.id {
        var k :| 0 <= k < |page| && page[k] == r;
        assert out[k] == r;
      }
    }
  }

  /** One click keeps the page a permutation of the user's rows with equal contents. */
  lemma PressKeepsRows(tab: Tab, user: UserId, c: Click)
    requires WellKeyed(tab.table) && Shows(tab.table, user, tab.page)
    ensures WellKeyed(Press(tab, user, c).table)
    ensures Shows(Press(tab, user, c).table, user, Press(tab, user, c).page)
  {
    hide Shows, Removed, Replaced;
    ApplyKeepsKeys(tab.table, user, c.write, c.now);
    var o := Apply(tab.table, user, c.write, c.now);
    if o.result.Ok? {
      match c.write
      case Delete(id) => RemoveKeepsRows(tab.table, user, tab.page, id);
      case Create(id, _) => PrependKeepsRows(tab.table, user, tab.page, o.result.value.value);
      case _ => ReplaceKeepsRows(tab.table, user, tab.page, o.result.value.value);
    }
  }

  lemma RemoveKeepsRows(t: Table, user: UserId, page: seq<Todo>, id: TodoId)
    requires Shows(t, user, page)
    ensures Shows(t - {id}, user, Removed(page, id))
  {
    RemovedRows(page, id);
  }

  lemma PrependKeepsRows(t: Table, user: UserId, page: seq<Todo>, row: Todo)
    requires Shows(t, user, page) && row.id !in t && row.owner == user
    ensures Shows(t[row.id := row], user, [row] + page)
  {
    var page' := [row] + page;
    forall i, j | 0 <= i < j < |page'| ensures page'[i].id != page'[j].id {
      assert page'[j] in page;
    }
  }

  lemma ReplaceKeepsRows(t: Table, user: UserId, page: seq<Todo>, row: Todo)
    requires WellKeyed(t) && Shows(t, user, page) && Owns(t, user, row.id) && row.owner == user
    ensures Shows(t[row.id := row], user, Replaced(page, row))
  {
    assert IsRowOf(t, user, t[row.id]);
    ReplacedRows(page, row);
  }

  /** Whatever is clicked, in any order, the page holds exactly the rows a reload
      would show. */
  lemma {:induction false} PageIsPermutationOfReload(tab: Tab, user: UserId, clicks: seq<Click>)
    requires WellKeyed(tab.table) && Shows(tab.table, user, tab.page)
    ensures var now := PressAll(tab, user, clicks);
            WellKeyed(now.table) && Shows(now.table, user, now.page)
  {
    if clicks == [] {
    } else {
      PageIsPermutationOfReload(tab, user, clicks[..|clicks| - 1]);
      PressKeepsRows(PressAll(tab, user, clicks[..|clicks| - 1]), user, clicks[|clicks| - 1]);
    }
  }

  /** The clock never runs behind the rows of the user. */
  ghost predicate Latest(t: Table, user: UserId, now: int) {
    forall id | Owns(t, user, id) :: t[id].createdAt <= now
  }

  ghost predicate TimesAscend(clicks: seq<Click>) {
    forall i, j | 0 <= i <= j < |clicks| :: clicks[i].now <= clicks[j].now
  }

  /** As long as rows are only created and deleted, and each new row is the latest,
      the page is a result of `list_for_user` itself. */
  lemma {:induction false} PageEqualsReload(tab: Tab, user: UserId, clicks: seq<Click>)
    requires WellKeyed(tab.table) && IsListing(tab.table, user, tab.page)
    requires forall k | 0 <= k < |clicks| :: clicks[k].write.Create? || clicks[k].write.Delete?
    requires TimesAscend(clicks) && (clicks != [] ==> Latest(tab.table, user, clicks[0].now))
    ensures var now := PressAll(tab, user, clicks);
            && IsListing(now.table, user, now.page)
            && (clicks != [] ==> Latest(now.table, user, clicks[|clicks| - 1].now))
  {
    PageIsPermutationOfReload(tab, user, clicks);
    if clicks == [] {
    } else {
      var n := |clicks| - 1;
      PageIsPermutationOfReload(tab, user, clicks[..n]);
      PageEqualsReload(tab, user, clicks[..n]);
      PressKeepsOrder(PressAll(tab, user, clicks[..n]), user, clicks[n]);
    }
  }

  lemma PressKeepsOrder(tab: Tab, user: UserId, c: Click)
    requires WellKeyed(tab.table) && IsListing(tab.table, user, tab.page)
    requires (c.write.Create? || c.write.Delete?) && Latest(tab.table, user, c.now)
    ensures InOrder(Press(tab, user, c).page) && Latest(Press(tab, user, c).table, user, c.now)
  {
    if c.write.Delete? {
      RemovedOrder(tab.page, c.write.id);
    } else {
      forall row | row in tab.page ensures row.createdAt <= c.now {
        assert Owns(tab.table, user, row.id);
      }
    }
  }
}
