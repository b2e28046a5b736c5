/** The relational store behind the handlers: the three tables as in-memory sequences of
    rows in insertion order, with the next value of each auto-increment key. Each handler
    runs as one atomic step against it. */
module Store {
  import opened EnvironmentModel
  import opened VariableModel
  import opened UserModel

  class Database {
    var environments: seq<Environment>
    var variables: seq<Variable>
    var users: seq<User>
    var nextEnvironmentId: nat
    var nextVariableId: nat
    var nextUserId: nat

    /** Every table's invariant, including the foreign key from variables to environments. */
    ghost predicate Valid()
      reads this
    {
      && EnvironmentsValid(environments, nextEnvironmentId)
      && VariablesValid(variables, nextVariableId, Ids(environments))
      && UsersValid(users, nextUserId)
    }

    /** The freshly created schema: three empty tables whose keys start at 1. */
    constructor ()
      ensures Valid()
      ensures environments == [] && variables == [] && users == []
      ensures nextEnvironmentId == 1 && nextVariableId == 1 && nextUserId == 1
    {
      environments, variables, users := [], [], [];
      nextEnvironmentId, nextVariableId, nextUserId := 1, 1, 1;
    }
  }
}
