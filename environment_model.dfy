/** The `environments` table: one row per named configuration namespace. */
module EnvironmentModel {
  import opened Http
  import Query

  /** A stored row. `name` is required; `description` is nullable. */
  datatype Environment = Environment(
    id: nat,
    name: string,
    description: Option<string>,
    createdAt: Timestamp,
    updatedAt: Timestamp)

  /** The attributes the class declares. There is no `variables` collection among them. */
  const DeclaredAttributes: set<string> := {"id", "name", "description", "created_at", "updated_at"}

  /** A row as the class constructor builds it, given the id the store assigns on insert:
      `description` defaults to null, and `created_at` and `updated_at` each take their own
      reading of the clock (the default factory runs once per column). */
  function NewEnvironment(id: nat, name: string, description: Field<Option<string>>,
                          createdClock: Timestamp, updatedClock: Timestamp): (e: Environment)
    ensures e.id == id && e.name == name
    ensures description.Omitted? ==> e.description == None
    ensures description.Given? ==> e.description == description.value
    ensures e.createdAt == createdClock && e.updatedAt == updatedClock
  {
    Environment(id, name, description.Or(None), createdClock, updatedClock)
  }

  /** `select(Environment).where(Environment.name == name).first()`, as an index. */
  function IndexOfName(envs: seq<Environment>, name: string): (r: Option<nat>)
    ensures r.Some? <==> NameTaken(envs, name)
    ensures r.Some? ==> r.value < |envs| && envs[r.value].name == name
                        && forall j :: 0 <= j < r.value ==> envs[j].name != name
  {
    Query.FirstWhere(envs, (e: Environment) => e.name == name)
  }

  predicate NameTaken(envs: seq<Environment>, name: string)
  {
    exists i :: 0 <= i < |envs| && envs[i].name == name
  }

  /** The `unique=True` declaration on `name`. */
  predicate NamesUnique(envs: seq<Environment>)
  {
    forall i, j :: 0 <= i < j < |envs| ==> envs[i].name != envs[j].name
  }

  /** Rows are kept in insertion order, and the auto-increment key grows with each insert. */
  predicate IdsAscending(envs: seq<Environment>)
  {
    forall i, j :: 0 <= i < j < |envs| ==> envs[i].id < envs[j].id
  }

  function Ids(envs: seq<Environment>): set<nat>
  {
    set e | e in envs :: e.id
  }

  /** The table's invariant: unique names, ascending positive ids below the next key. */
  predicate EnvironmentsValid(envs: seq<Environment>, nextId: nat)
  {
    && nextId >= 1
    && NamesUnique(envs)
    && IdsAscending(envs)
    && forall i :: 0 <= i < |envs| ==> 1 <= envs[i].id < nextId
  }

  /** The name lookup finds a row exactly when the name is taken, and with unique names it
      finds the only row carrying that name. */
  lemma IndexOfNameFindsTheRow(envs: seq<Environment>, name: string)
    ensures IndexOfName(envs, name).Some? <==> NameTaken(envs, name)
    ensures NamesUnique(envs) ==> forall i :: 0 <= i < |envs| && envs[i].name == name ==> IndexOfName(envs, name) == Some(i)
  {
    var r := IndexOfName(envs, name);
    if r.None? {
      assert forall j :: 0 <= j < |envs| ==> envs[j].name != name;
    }
  }

  /** Appending a row with a fresh name and the next key keeps the table valid. */
  lemma AppendKeepsEnvironmentsValid(envs: seq<Environment>, nextId: nat, e: Environment)
    requires EnvironmentsValid(envs, nextId)
    requires !NameTaken(envs, e.name) && e.id == nextId && nextId >= 1
    ensures EnvironmentsValid(envs + [e], nextId + 1)
    ensures Ids(envs + [e]) == Ids(envs) + {e.id}
  {
    var s := envs + [e];
    forall i, j | 0 <= i < j < |s| ensures s[i].name != s[j].name {
      if j == |envs| {
        assert s[i] == envs[i];
      }
    }
  }

  /** Replacing one row by another with the same id and name keeps the table valid. */
  lemma ReplaceKeepsEnvironmentsValid(envs: seq<Environment>, nextId: nat, i: nat, e: Environment)
    requires EnvironmentsValid(envs, nextId) && i < |envs|
    requires e.id == envs[i].id && e.name == envs[i].name
    ensures EnvironmentsValid(envs[i := e], nextId)
    ensures Ids(envs[i := e]) == Ids(envs)
  {
    var s := envs[i := e];
    assert forall k :: 0 <= k < |s| ==> s[k].id == envs[k].id && s[k].name == envs[k].name;
    forall x | x in Ids(s) ensures x in Ids(envs) {
      var k :| 0 <= k < |s| && s[k].id == x;
      assert envs[k] in envs;
    }
    forall x | x in Ids(envs) ensures x in Ids(s) {
      var k :| 0 <= k < |envs| && envs[k].id == x;
      assert s[k] in s;
    }
  }
}
