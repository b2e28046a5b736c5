/** Client-side runs against a fresh store that follow from the handlers' contracts alone. */
module Scenarios {
  import opened Http
  import opened EnvironmentModel
  import opened VariableModel
  import EnvironmentViews
  import VariableViews
  import Store

  function Port(value: string): VariableRequest
  {
    VariableRequest("PORT", value, Omitted, Omitted, Omitted, Omitted, Omitted)
  }

  /** A fresh store holding the environment "prod" (id 1) and no variables. */
  method WithProd(now: Timestamp) returns (db: Store.Database)
    ensures fresh(db) && db.Valid()
    ensures db.variables == []
    ensures |db.environments| == 1 && db.environments[0].name == "prod" && db.environments[0].id == 1
    ensures db.nextEnvironmentId == 2
  {
    db := new Store.Database();
    assert !NameTaken(db.environments, "prod");
    var prod := EnvironmentViews.CreateEnvironment(db, "prod", Omitted, now, now);
  }

  /** A fresh store holding the environments "prod" (id 1) and "stage" (id 2) and no variables. */
  method ProdAndStage(now: Timestamp) returns (db: Store.Database)
    ensures fresh(db) && db.Valid()
    ensures db.variables == []
    ensures IndexOfName(db.environments, "prod") == Some(0) && db.environments[0].id == 1
    ensures IndexOfName(db.environments, "stage") == Some(1) && db.environments[1].id == 2
    ensures IndexOfName(db.environments, "qa") == None
  {
    db := WithProd(now);
    assert !NameTaken(db.environments, "stage") by {
      assert db.environments[0].name != "stage";
    }
    var stage := EnvironmentViews.CreateEnvironment(db, "stage", Omitted, now, now);
    var envs := db.environments;
    assert envs[0].name == "prod" && envs[1].name == "stage" && envs[0].id == 1 && envs[1].id == 2;
    assert NameTaken(envs, "prod") && NameTaken(envs, "stage");
    IndexOfNameFindsTheRow(envs, "prod");
    IndexOfNameFindsTheRow(envs, "stage");
    IndexOfNameFindsTheRow(envs, "qa");
  }

  /** "PORT" can be created in "prod" and in "stage"; a second "PORT" in "prod" is a 400,
      and a variable for an environment that does not exist is a 404. */
  method PortInTwoEnvironments(now: Timestamp)
    returns (inProd: Result<Variable>, inStage: Result<Variable>, again: Result<Variable>, nowhere: Result<Variable>)
    ensures inProd.Ok? && inProd.value.environmentId == Some(1)
    ensures inStage.Ok? && inStage.value.environmentId == Some(2)
    ensures inProd.value.name == inStage.value.name == "PORT"
    ensures again == Err(VariableViews.DuplicateVariable("PORT"))
    ensures nowhere == Err(EnvironmentViews.EnvironmentNotFound)
  {
    var db := ProdAndStage(now);
    assert IndexOfNameIn(db.variables, "PORT", 1).None?;
    inProd := VariableViews.CreateVariable(db, "prod", Port("8080"), now, now);
    assert db.variables == [inProd.value] && db.variables[0].environmentId == Some(1);
    assert IndexOfNameIn(db.variables, "PORT", 2).None?;
    inStage := VariableViews.CreateVariable(db, "stage", Port("8081"), now, now);
    assert db.variables[0].name == "PORT" && db.variables[0].environmentId == Some(1);
    assert IndexOfNameIn(db.variables, "PORT", 1).Some?;
    again := VariableViews.CreateVariable(db, "prod", Port("9090"), now, now);
    nowhere := VariableViews.CreateVariable(db, "qa", Port("1"), now, now);
  }
}
