/** The `variable` table: key/value pairs, each owned by one environment. */
module VariableModel {
  import opened Http
  import Query

  /** A stored row. `name` and `value` are required; `environment_id` is a nullable
      foreign key to `environments.id` declared with ON DELETE CASCADE. */
  datatype Variable = Variable(
    id: nat,
    name: string,
    value: string,
    description: Option<string>,
    isSensitive: bool,
    createdAt: Timestamp,
    updatedAt: Timestamp,
    environmentId: Option<nat>)

  /** A Variable as the request body carries it: everything but the key the store assigns.
      `name` and `value` must be present; every other member may be left out. */
  datatype VariableRequest = VariableRequest(
    name: string,
    value: string,
    description: Field<Option<string>>,
    isSensitive: Field<bool>,
    createdAt: Field<Timestamp>,
    updatedAt: Field<Timestamp>,
    environmentId: Field<Option<nat>>)

  /** The relationship `environment` names `variables` as its back-population on Environment. */
  const BackPopulates := "variables"

  /** The row the class builds from a request body, given the id the store assigns: members
      left out take their declared defaults, `description` null, `is_sensitive` false,
      `environment_id` null, and the timestamps one clock reading each. */
  function NewVariable(id: nat, req: VariableRequest, createdClock: Timestamp, updatedClock: Timestamp): (v: Variable)
    ensures v.id == id && v.name == req.name && v.value == req.value
    ensures req.description.Omitted? ==> v.description == None
    ensures req.isSensitive.Omitted? ==> !v.isSensitive
    ensures req.environmentId.Omitted? ==> v.environmentId == None
    ensures req.createdAt.Omitted? ==> v.createdAt == createdClock
    ensures req.updatedAt.Omitted? ==> v.updatedAt == updatedClock
    ensures req.description.Given? ==> v.description == req.description.value
    ensures req.isSensitive.Given? ==> v.isSensitive == req.isSensitive.value
    ensures req.environmentId.Given? ==> v.environmentId == req.environmentId.value
    ensures req.createdAt.Given? ==> v.createdAt == req.createdAt.value
    ensures req.updatedAt.Given? ==> v.updatedAt == req.updatedAt.value
  {
    Variable(id, req.name, req.value, req.description.Or(None), req.isSensitive.Or(false),
             req.createdAt.Or(createdClock), req.updatedAt.Or(updatedClock), req.environmentId.Or(None))
  }

  /** `unique=True` on `name` exactly as declared: no two rows share a name, whichever
      environments own them. */
  predicate DeclaredNamesUnique(vars: seq<Variable>)
  {
    forall i, j :: 0 <= i < j < |vars| ==> vars[i].name != vars[j].name
  }

  /** The uniqueness the doc-string describes and the handler enforces: no two rows share a
      name within one environment. */
  predicate NamesUniquePerEnvironment(vars: seq<Variable>)
  {
    forall i, j :: 0 <= i < j < |vars| ==>
      vars[i].name != vars[j].name || vars[i].environmentId != vars[j].environmentId
  }

  /** The foreign key: a non-null `environment_id` names an existing environment. */
  predicate ReferencesResolve(vars: seq<Variable>, envIds: set<nat>)
  {
    forall i :: 0 <= i < |vars| && vars[i].environmentId.Some? ==> vars[i].environmentId.value in envIds
  }

  predicate IdsAscending(vars: seq<Variable>)
  {
    forall i, j :: 0 <= i < j < |vars| ==> vars[i].id < vars[j].id
  }

  /** The table's invariant, with per-environment name uniqueness. */
  predicate VariablesValid(vars: seq<Variable>, nextId: nat, envIds: set<nat>)
  {
    && nextId >= 1
    && NamesUniquePerEnvironment(vars)
    && ReferencesResolve(vars, envIds)
    && IdsAscending(vars)
    && forall i :: 0 <= i < |vars| ==> 1 <= vars[i].id < nextId
  }

  /** `select(Variable).where(Variable.name == name, Variable.environment_id == envId).first()`. */
  function IndexOfNameIn(vars: seq<Variable>, name: string, envId: nat): (r: Option<nat>)
    ensures r.Some? <==> exists i :: 0 <= i < |vars| && vars[i].name == name && vars[i].environmentId == Some(envId)
    ensures r.Some? ==> r.value < |vars| && vars[r.value].name == name && vars[r.value].environmentId == Some(envId)
  {
    Query.FirstWhere(vars, (v: Variable) => v.name == name && v.environmentId == Some(envId))
  }

  /** The variables owned by one environment, in storage order, each once per stored row. */
  function VariablesOf(vars: seq<Variable>, envId: nat): (owned: seq<Variable>)
    ensures forall v :: v in owned ==> v in vars && v.environmentId == Some(envId)
    ensures forall v :: v in vars && v.environmentId == Some(envId) ==> v in owned
    ensures forall v :: v in vars ==>
              multiset(owned)[v] == if v.environmentId == Some(envId) then multiset(vars)[v] else 0
  {
    Query.AllWhere(vars, (v: Variable) => v.environmentId == Some(envId))
  }

  /** What ON DELETE CASCADE leaves of the table once environment `envId` is deleted. */
  function CascadeDelete(vars: seq<Variable>, envId: nat): (rest: seq<Variable>)
    ensures forall v :: v in rest ==> v in vars && v.environmentId != Some(envId)
    ensures forall v :: v in vars && v.environmentId != Some(envId) ==> v in rest
    ensures forall v :: v in vars ==>
              multiset(rest)[v] == if v.environmentId != Some(envId) then multiset(vars)[v] else 0
  {
    Query.AllWhere(vars, (v: Variable) => v.environmentId != Some(envId))
  }

  /** Both tables keep storage order: the rows of a later stretch of the table come after
      those of an earlier one. */
  lemma VariablesOfKeepsStorageOrder(a: seq<Variable>, b: seq<Variable>, envId: nat)
    ensures VariablesOf(a + b, envId) == VariablesOf(a, envId) + VariablesOf(b, envId)
    ensures CascadeDelete(a + b, envId) == CascadeDelete(a, envId) + CascadeDelete(b, envId)
  {
    Query.AllWhereKeepsStorageOrder(a, b, (v: Variable) => v.environmentId == Some(envId));
    Query.AllWhereKeepsStorageOrder(a, b, (v: Variable) => v.environmentId != Some(envId));
  }

  /** Deleting an environment removes exactly its variables: none of the remaining rows
      refers to it, so the foreign key still holds once its id is gone. */
  lemma CascadeLeavesNoDanglingReference(vars: seq<Variable>, envIds: set<nat>, envId: nat)
    requires ReferencesResolve(vars, envIds)
    ensures ReferencesResolve(CascadeDelete(vars, envId), envIds - {envId})
  {
    var rest := CascadeDelete(vars, envId);
    forall i | 0 <= i < |rest| && rest[i].environmentId.Some?
      ensures rest[i].environmentId.value in envIds - {envId}
    {
      assert rest[i] in rest;
      var k :| 0 <= k < |vars| && vars[k] == rest[i];
    }
  }

  /** Appending a row whose (name, environment) pair is free, with a resolvable owner and
      the next key, keeps the table valid. */
  lemma AppendKeepsVariablesValid(vars: seq<Variable>, nextId: nat, envIds: set<nat>, v: Variable)
    requires VariablesValid(vars, nextId, envIds)
    requires v.environmentId.Some? && v.environmentId.value in envIds
    requires IndexOfNameIn(vars, v.name, v.environmentId.value).None?
    requires v.id == nextId && nextId >= 1
    ensures VariablesValid(vars + [v], nextId + 1, envIds)
  {
    var s := vars + [v];
    forall i, j | 0 <= i < j < |s|
      ensures s[i].name != s[j].name || s[i].environmentId != s[j].environmentId
    {
      if j == |vars| {
        assert s[i] == vars[i];
      }
    }
  }

  lemma ReferencesResolveWiden(vars: seq<Variable>, small: set<nat>, large: set<nat>)
    requires ReferencesResolve(vars, small) && small <= large
    ensures ReferencesResolve(vars, large)
  {
  }
}
