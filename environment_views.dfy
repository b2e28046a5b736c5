/** The environment handlers: list (paginated, in id order), create, get, and the PUT and
    PATCH updates, which change only the description. */
module EnvironmentViews {
  import opened Http
  import opened EnvironmentModel
  import opened Pagination
  import VariableModel
  import Store

  const ListPath := "/environments/"
  const EnvironmentNotFound := HttpError(404, "Environment not found", map[])
  const DuplicateName := HttpError(400, "Environment with this name already exists", map[])

  /** Bounds the query parameters of the listing declare (`ge=1`, `ge=1, le=100`). */
  const MaxPageSize: nat := 100

  predicate SortedById(s: seq<Environment>)
  {
    forall i, j :: 0 <= i < j < |s| ==> s[i].id <= s[j].id
  }

  function InsertById(e: Environment, s: seq<Environment>): (r: seq<Environment>)
    ensures |r| == |s| + 1
    ensures multiset(r) == multiset(s) + multiset{e}
  {
    if s == [] then [e]
    else if e.id <= s[0].id then [e] + s
    else
      assert s == [s[0]] + s[1..];
      [s[0]] + InsertById(e, s[1..])
  }

  lemma {:induction false} InsertByIdKeepsFloor(e: Environment, s: seq<Environment>, floor: int)
    requires floor <= e.id && forall k :: 0 <= k < |s| ==> floor <= s[k].id
    ensures forall j :: 0 <= j < |InsertById(e, s)| ==> floor <= InsertById(e, s)[j].id
  {
    if s != [] && e.id > s[0].id {
      InsertByIdKeepsFloor(e, s[1..], floor);
    }
  }

  lemma {:induction false} InsertByIdKeepsSorted(e: Environment, s: seq<Environment>)
    requires SortedById(s)
    ensures SortedById(InsertById(e, s))
  {
    if s != [] && e.id > s[0].id {
      InsertByIdKeepsSorted(e, s[1..]);
      InsertByIdKeepsFloor(e, s[1..], s[0].id);
    }
  }

  /** `order_by(Environment.id)`: the rows rearranged by ascending id. */
  function OrderById(envs: seq<Environment>): (r: seq<Environment>)
    ensures |r| == |envs|
    ensures multiset(r) == multiset(envs)
  {
    if envs == [] then []
    else
      assert envs == [envs[0]] + envs[1..];
      InsertById(envs[0], OrderById(envs[1..]))
  }

  lemma {:induction false} OrderByIdSorts(envs: seq<Environment>)
    ensures SortedById(OrderById(envs))
  {
    if envs != [] {
      OrderByIdSorts(envs[1..]);
      InsertByIdKeepsSorted(envs[0], OrderById(envs[1..]));
    }
  }

  /** Ordering a table that is already in id order leaves it as it is. */
  lemma {:induction false} OrderByIdKeepsSortedRows(envs: seq<Environment>)
    requires SortedById(envs)
    ensures OrderById(envs) == envs
  {
    if envs != [] {
      assert SortedById(envs[1..]);
      OrderByIdKeepsSortedRows(envs[1..]);
      assert envs == [envs[0]] + envs[1..];
    }
  }

  /** `list_environments`: page `page` of the table in ascending id order, with the total
      count and the links to the neighbouring pages. */
  function ListEnvironments(envs: seq<Environment>, page: int, pageSize: int): (r: Page<Environment>)
    requires page >= 1 && 1 <= pageSize <= MaxPageSize
    ensures r.count == |envs|
    ensures Offset(page, pageSize) >= 0
    ensures |r.results| == if |envs| <= Offset(page, pageSize) then 0
                           else if |envs| - Offset(page, pageSize) < pageSize then |envs| - Offset(page, pageSize)
                           else pageSize
    ensures forall i :: 0 <= i < |r.results| ==>
              Offset(page, pageSize) + i < |envs| && r.results[i] == OrderById(envs)[Offset(page, pageSize) + i]
    ensures r.next.Some? <==> page * pageSize < |envs|
    ensures r.next.Some? ==> r.next.value == PageLink(ListPath, page + 1, pageSize)
    ensures r.previous.Some? <==> page > 1
    ensures r.previous.Some? ==> r.previous.value == PageLink(ListPath, page - 1, pageSize)
  {
    MulMonotone(0, page - 1, pageSize);
    Paginate(ListPath, OrderById(envs), page, pageSize)
  }

  /** A page lists its environments in ascending id order. */
  lemma ListingIsInIdOrder(envs: seq<Environment>, page: int, pageSize: int)
    requires page >= 1 && 1 <= pageSize <= MaxPageSize
    ensures SortedById(ListEnvironments(envs, page, pageSize).results)
  {
    var ordered := OrderById(envs);
    OrderByIdSorts(envs);
    var off := Offset(page, pageSize);
    var results := ListEnvironments(envs, page, pageSize).results;
    if results != [] {
      assert off + |results| <= |ordered| == |envs|;
      assert results == ordered[off..off + |results|];
      SliceKeepsSorted(ordered, off, off + |results|);
    }
  }

  lemma SliceKeepsSorted(s: seq<Environment>, lo: int, hi: int)
    requires SortedById(s) && 0 <= lo <= hi <= |s|
    ensures SortedById(s[lo..hi])
  {
    forall i, j | 0 <= i < j < hi - lo ensures s[lo..hi][i].id <= s[lo..hi][j].id {
      assert s[lo..hi][i] == s[lo + i] && s[lo..hi][j] == s[lo + j];
    }
  }

  /** A page holds environments of the table only. */
  lemma ListingHoldsStoredRows(envs: seq<Environment>, page: int, pageSize: int)
    requires page >= 1 && 1 <= pageSize <= MaxPageSize
    ensures forall e :: e in ListEnvironments(envs, page, pageSize).results ==> e in envs
  {
    var ordered := OrderById(envs);
    var off := Offset(page, pageSize);
    var results := ListEnvironments(envs, page, pageSize).results;
    forall e | e in results ensures e in envs {
      var k :| 0 <= k < |results| && results[k] == e;
      assert ordered[off + k] in multiset(ordered);
    }
  }

  /** The store keeps rows in ascending id order, so a page is a slice of the table as stored. */
  lemma ListingIsSliceOfStoredTable(envs: seq<Environment>, page: int, pageSize: int)
    requires page >= 1 && 1 <= pageSize <= MaxPageSize
    requires IdsAscending(envs)
    ensures var r := ListEnvironments(envs, page, pageSize);
            forall i :: 0 <= i < |r.results| ==> r.results[i] == envs[Offset(page, pageSize) + i]
  {
    OrderByIdKeepsSortedRows(envs);
  }

  /** `get_environment`: the environment with that name, or 404. */
  function GetEnvironment(envs: seq<Environment>, name: string): (r: Result<Environment>)
    ensures r.Ok? <==> NameTaken(envs, name)
    ensures r.Ok? ==> r.value in envs && r.value.name == name
    ensures r.Err? ==> r.error == EnvironmentNotFound
    ensures NamesUnique(envs) ==> forall i :: 0 <= i < |envs| && envs[i].name == name ==> r == Ok(envs[i])
  {
    IndexOfNameFindsTheRow(envs, name);
    match IndexOfName(envs, name)
    case None => Err(EnvironmentNotFound)
    case Some(i) => Ok(envs[i])
  }

  /** `create_environment`: 400 and no change when the name is taken; otherwise one new row
      with the next id, the given name and description, and `updated_at` equal to
      `created_at`. */
  method CreateEnvironment(db: Store.Database, name: string, description: Field<Option<string>>,
                           createdClock: Timestamp, updatedClock: Timestamp) returns (r: Result<Environment>)
    requires db.Valid()
    modifies db
    ensures db.Valid()
    ensures NameTaken(old(db.environments), name) ==> r == Err(DuplicateName) && unchanged(db)
    ensures !NameTaken(old(db.environments), name) ==>
              && r.Ok?
              && r.value.id == old(db.nextEnvironmentId)
              && r.value.name == name
              && r.value.description == description.Or(None)
              && r.value.createdAt == createdClock
              && r.value.updatedAt == r.value.createdAt
              && db.environments == old(db.environments) + [r.value]
              && db.nextEnvironmentId == old(db.nextEnvironmentId) + 1
              && db.variables == old(db.variables) && db.nextVariableId == old(db.nextVariableId)
              && db.users == old(db.users) && db.nextUserId == old(db.nextUserId)
  {
    IndexOfNameFindsTheRow(db.environments, name);
    var existing := IndexOfName(db.environments, name);
    if existing.Some? {
      return Err(DuplicateName);
    }
    var env := NewEnvironment(db.nextEnvironmentId, name, description, createdClock, updatedClock);
    env := env.(updatedAt := env.createdAt);
    AppendKeepsEnvironmentsValid(db.environments, db.nextEnvironmentId, env);
    VariableModel.ReferencesResolveWiden(db.variables, Ids(db.environments), Ids(db.environments + [env]));
    db.environments := db.environments + [env];
    db.nextEnvironmentId := db.nextEnvironmentId + 1;
    r := Ok(env);
  }

  /** A successful create is visible to a later get of the same name. */
  lemma {:induction false} CreatedEnvironmentIsRetrieved(envs: seq<Environment>, e: Environment)
    requires NamesUnique(envs) && !NameTaken(envs, e.name)
    ensures GetEnvironment(envs + [e], e.name) == Ok(e)
  {
    var s := envs + [e];
    assert NamesUnique(s) by {
      forall i, j | 0 <= i < j < |s| ensures s[i].name != s[j].name {
        if j == |envs| {
          assert s[i] == envs[i];
        }
      }
    }
    assert s[|envs|].name == e.name;
  }

  /** An environment after an update: `description` replaced when the body supplies it,
      even with null; `updated_at` refreshed; id, name and `created_at` as they were. */
  function Revised(e: Environment, description: Field<Option<string>>, now: Timestamp): (r: Environment)
    ensures r.id == e.id && r.name == e.name && r.createdAt == e.createdAt
    ensures r.updatedAt == now
    ensures description.Omitted? ==> r.description == e.description
    ensures description.Given? ==> r.description == description.value
  {
    e.(description := description.Or(e.description), updatedAt := now)
  }

  /** The outcome both update handlers promise: 404 and no change when no environment has
      that name; otherwise only that row is revised, and it is returned. */
  predicate EnvironmentUpdated(before: seq<Environment>, after: seq<Environment>, name: string,
                               description: Field<Option<string>>, now: Timestamp, r: Result<Environment>)
  {
    match IndexOfName(before, name)
    case None => r == Err(EnvironmentNotFound) && after == before
    case Some(i) => r == Ok(Revised(before[i], description, now)) && after == before[i := r.value]
  }

  /** The update outcome is a function of its inputs, so two handlers that both promise it
      behave identically. */
  lemma UpdateOutcomeIsDetermined(before: seq<Environment>, name: string, description: Field<Option<string>>,
                                  now: Timestamp, after1: seq<Environment>, r1: Result<Environment>,
                                  after2: seq<Environment>, r2: Result<Environment>)
    requires EnvironmentUpdated(before, after1, name, description, now, r1)
    requires EnvironmentUpdated(before, after2, name, description, now, r2)
    ensures after1 == after2 && r1 == r2
  {
  }

  /** After an update, a get of the same name returns the revised row, and every other row is
      unchanged. */
  lemma UpdatedEnvironmentIsRetrieved(before: seq<Environment>, after: seq<Environment>, name: string,
                                      description: Field<Option<string>>, now: Timestamp, r: Result<Environment>)
    requires NamesUnique(before)
    requires EnvironmentUpdated(before, after, name, description, now, r)
    ensures GetEnvironment(after, name) == r
    ensures |after| == |before|
    ensures forall k :: 0 <= k < |before| && before[k].name != name ==> after[k] == before[k]
  {
    IndexOfNameFindsTheRow(before, name);
    if r.Ok? {
      var i := IndexOfName(before, name).value;
      assert forall k :: 0 <= k < |after| ==> after[k].name == before[k].name;
      assert NamesUnique(after);
      assert after[i].name == name;
    }
  }

  /** `update_environment` (PUT): only the description changes, and only when supplied. */
  method UpdateEnvironment(db: Store.Database, envName: string, description: Field<Option<string>>, now: Timestamp)
    returns (r: Result<Environment>)
    requires db.Valid()
    modifies db
    ensures db.Valid()
    ensures EnvironmentUpdated(old(db.environments), db.environments, envName, description, now, r)
    ensures db.nextEnvironmentId == old(db.nextEnvironmentId)
    ensures db.variables == old(db.variables) && db.nextVariableId == old(db.nextVariableId)
    ensures db.users == old(db.users) && db.nextUserId == old(db.nextUserId)
  {
    var found := IndexOfName(db.environments, envName);
    if found.None? {
      return Err(EnvironmentNotFound);
    }
    var i := found.value;
    var environment := db.environments[i];
    if description.Given? {
      environment := environment.(description := description.value);
    }
    environment := environment.(updatedAt := now);
    ReplaceKeepsEnvironmentsValid(db.environments, db.nextEnvironmentId, i, environment);
    db.environments := db.environments[i := environment];
    r := Ok(environment);
  }

  /** `patch_environment` (PATCH): the source repeats the PUT handler's steps line for line. */
  method PatchEnvironment(db: Store.Database, envName: string, description: Field<Option<string>>, now: Timestamp)
    returns (r: Result<Environment>)
    requires db.Valid()
    modifies db
    ensures db.Valid()
    ensures EnvironmentUpdated(old(db.environments), db.environments, envName, description, now, r)
    ensures db.nextEnvironmentId == old(db.nextEnvironmentId)
    ensures db.variables == old(db.variables) && db.nextVariableId == old(db.nextVariableId)
    ensures db.users == old(db.users) && db.nextUserId == old(db.nextUserId)
  {
    r := UpdateEnvironment(db, envName, description, now);
  }
}
