/** The variable handlers, both scoped to an environment named in the path: create, which
    resolves the environment first, and list. */
module VariableViews {
  import opened Http
  import opened EnvironmentModel
  import opened VariableModel
  import EnvironmentViews
  import Store

  /** The 400 raised when the environment already has a variable of that name. */
  function DuplicateVariable(name: string): HttpError
  {
    HttpError(400, "Variable '" + name + "' already exists in this environment.", map[])
  }

  /** `create_variable_for_environment`. An unknown environment gives 404 before anything
      else is looked at; a name the environment already holds gives 400; otherwise the body
      is stored under the next key with `environment_id` set to the resolved environment,
      whatever the body carried there. Failures leave the store unchanged. */
  method CreateVariable(db: Store.Database, envName: string, req: VariableRequest,
                        createdClock: Timestamp, updatedClock: Timestamp) returns (r: Result<Variable>)
    requires db.Valid()
    modifies db
    ensures db.Valid()
    ensures IndexOfName(old(db.environments), envName).None? ==>
              r == Err(EnvironmentViews.EnvironmentNotFound) && unchanged(db)
    ensures IndexOfName(old(db.environments), envName).Some? ==>
              var env := old(db.environments)[IndexOfName(old(db.environments), envName).value];
              && env.name == envName
              && (IndexOfNameIn(old(db.variables), req.name, env.id).Some? ==>
                    r == Err(DuplicateVariable(req.name)) && unchanged(db))
              && (IndexOfNameIn(old(db.variables), req.name, env.id).None? ==>
                    && r == Ok(NewVariable(old(db.nextVariableId), req, createdClock, updatedClock)
                                 .(environmentId := Some(env.id)))
                    && r.value.environmentId == Some(env.id)
                    && db.variables == old(db.variables) + [r.value]
                    && db.nextVariableId == old(db.nextVariableId) + 1
                    && db.environments == old(db.environments)
                    && db.nextEnvironmentId == old(db.nextEnvironmentId)
                    && db.users == old(db.users) && db.nextUserId == old(db.nextUserId))
  {
    var variable := NewVariable(db.nextVariableId, req, createdClock, updatedClock);
    var found := IndexOfName(db.environments, envName);
    if found.None? {
      return Err(EnvironmentViews.EnvironmentNotFound);
    }
    var environment := db.environments[found.value];
    var existing := IndexOfNameIn(db.variables, variable.name, environment.id);
    if existing.Some? {
      return Err(DuplicateVariable(variable.name));
    }
    variable := variable.(environmentId := Some(environment.id));
    assert environment in db.environments;
    AppendKeepsVariablesValid(db.variables, db.nextVariableId, Ids(db.environments), variable);
    db.variables := db.variables + [variable];
    db.nextVariableId := db.nextVariableId + 1;
    r := Ok(variable);
  }

  /** The handler's duplicate check looks only inside the resolved environment: a name held
      in another environment does not stop the create, and the table stays unique per
      environment. */
  lemma {:induction false} SameNameInAnotherEnvironmentIsAccepted(vars: seq<Variable>, name: string,
                                                                  envId: nat, otherId: nat, v: Variable)
    requires NamesUniquePerEnvironment(vars)
    requires forall i :: 0 <= i < |vars| && vars[i].name == name ==> vars[i].environmentId == Some(otherId)
    requires envId != otherId
    requires v.name == name && v.environmentId == Some(envId)
    ensures IndexOfNameIn(vars, name, envId).None?
    ensures NamesUniquePerEnvironment(vars + [v])
  {
    var s := vars + [v];
    forall i, j | 0 <= i < j < |s|
      ensures s[i].name != s[j].name || s[i].environmentId != s[j].environmentId
    {
      if j == |vars| {
        assert s[i] == vars[i];
      }
    }
  }

  /** `list_variables_for_environment` as the handler means it: 404 for an unknown
      environment, otherwise exactly the variables whose `environment_id` is its id. */
  function ListVariables(envs: seq<Environment>, vars: seq<Variable>, envName: string): (r: Result<seq<Variable>>)
    ensures r.Err? <==> !NameTaken(envs, envName)
    ensures r.Err? ==> r.error == EnvironmentViews.EnvironmentNotFound
    ensures r.Ok? ==> exists i :: (0 <= i < |envs| && envs[i].name == envName
                     && (forall v :: v in r.value ==> v in vars && v.environmentId == Some(envs[i].id))
                     && (forall v :: v in vars && v.environmentId == Some(envs[i].id) ==> v in r.value)
                     && (forall v :: v in vars && v.environmentId == Some(envs[i].id) ==>
                           multiset(r.value)[v] == multiset(vars)[v]))
  {
    IndexOfNameFindsTheRow(envs, envName);
    match IndexOfName(envs, envName)
    case None => Err(EnvironmentViews.EnvironmentNotFound)
    case Some(i) => Ok(VariablesOf(vars, envs[i].id))
  }

  /** A variable created in an environment is listed for that environment, after every
      variable listed before, which all stay. */
  lemma CreatedVariableIsListed(envs: seq<Environment>, vars: seq<Variable>, envName: string, v: Variable)
    requires IndexOfName(envs, envName).Some?
    requires v.environmentId == Some(envs[IndexOfName(envs, envName).value].id)
    ensures ListVariables(envs, vars + [v], envName).Ok?
    ensures ListVariables(envs, vars + [v], envName).value == ListVariables(envs, vars, envName).value + [v]
  {
    var envId := envs[IndexOfName(envs, envName).value].id;
    assert ListVariables(envs, vars, envName) == Ok(VariablesOf(vars, envId));
    assert ListVariables(envs, vars + [v], envName) == Ok(VariablesOf(vars + [v], envId));
    VariablesOfKeepsStorageOrder(vars, [v], envId);
    assert [v][1..] == [];
    assert VariablesOf([v], envId) == [v];
  }

  // ---- As written: two places where the schema and the handlers disagree ----

  /** The insert as the declared schema would take it: `unique=True` on `name` is a
      table-wide constraint, so a commit of a name held anywhere in the table fails with
      an integrity error that this handler does not catch. */
  function CommitUnderDeclaredConstraint(vars: seq<Variable>, v: Variable): (r: Result<seq<Variable>>)
    ensures r.Ok? <==> forall i :: 0 <= i < |vars| ==> vars[i].name != v.name
    ensures r.Ok? ==> r.value == vars + [v]
    ensures r.Err? ==> r.error == InternalServerError
  {
    if exists i :: 0 <= i < |vars| && vars[i].name == v.name then Err(InternalServerError) else Ok(vars + [v])
  }

  /** "PORT" in prod and then "PORT" in stage: the handler's check lets the second create
      through, but the table-wide constraint as declared rejects its commit. */
  lemma SecondEnvironmentCollidesWithDeclaredConstraint()
    ensures var port := Variable(1, "PORT", "8080", None, false, 0, 0, Some(1));
            var again := Variable(2, "PORT", "9090", None, false, 0, 0, Some(2));
            && IndexOfNameIn([port], "PORT", 2).None?
            && NamesUniquePerEnvironment([port, again])
            && !DeclaredNamesUnique([port, again])
            && CommitUnderDeclaredConstraint([port], again) == Err(InternalServerError)
  {
    var port := Variable(1, "PORT", "8080", None, false, 0, 0, Some(1));
    var again := Variable(2, "PORT", "9090", None, false, 0, 0, Some(2));
    assert [port][1..] == [];
    assert [port][0].name == again.name;
    assert [port, again][0].name == [port, again][1].name;
  }

  /** The relationship on Variable names a back-population that Environment does not declare. */
  lemma BackPopulationIsUndeclared()
    ensures BackPopulates !in DeclaredAttributes
  {
  }

  /** Whether the ORM mappers can be configured, given the attributes Environment declares.
      SQLAlchemy configures every mapper before the first ORM statement of the process runs,
      and a relationship whose `back_populates` names no attribute of its target stops that
      configuration with an error. */
  predicate MappersConfigure(declared: set<string>)
  {
    BackPopulates in declared
  }

  /** The listing as written, for an Environment declaring the attributes `declared`. Its
      first statement, `select(Environment)`, configures the mappers; when that fails the
      error is not caught and the framework answers 500, before the 404 check is reached.
      Once configuration succeeds, `environment.variables` is the back-populated collection,
      which holds the rows whose `environment_id` is the environment's id. */
  function ListVariablesAsWritten(declared: set<string>, envs: seq<Environment>, vars: seq<Variable>,
                                  envName: string): (r: Result<seq<Variable>>)
    ensures !MappersConfigure(declared) ==> r == Err(InternalServerError)
    ensures MappersConfigure(declared) ==> r == ListVariables(envs, vars, envName)
  {
    if !MappersConfigure(declared) then Err(InternalServerError)
    else ListVariables(envs, vars, envName)
  }

  /** With Environment as declared, the listing as written answers 500 for every request,
      for a known environment and an unknown one alike; declaring the back-populated
      collection gives the intended listing. */
  lemma ListingAsWrittenAlwaysFails(envs: seq<Environment>, vars: seq<Variable>, envName: string)
    ensures ListVariablesAsWritten(DeclaredAttributes, envs, vars, envName) == Err(InternalServerError)
    ensures NameTaken(envs, envName) ==> ListVariables(envs, vars, envName).Ok?
    ensures ListVariablesAsWritten(DeclaredAttributes + {BackPopulates}, envs, vars, envName)
            == ListVariables(envs, vars, envName)
  {
    BackPopulationIsUndeclared();
  }
}
