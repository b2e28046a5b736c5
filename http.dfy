/** Values shared by every handler: optional values, request-body fields a client may
    leave out, the HTTP errors a handler raises, and readings of the service clock. */
module Http {

  /** Python's `Optional[...]`: a nullable column or a missing query result. */
  datatype Option<+T> = None | Some(value: T)

  /** A member of a JSON request body that the client may leave out (pydantic's "unset"). */
  datatype Field<+T> = Omitted | Given(value: T)
  {
    /** The supplied value, or the declared default when the member was left out. */
    function Or(default: T): T
    {
      if Given? then value else default
    }
  }

  type Headers = map<string, string>

  /** An `HTTPException`: status code, detail message and extra response headers. */
  datatype HttpError = HttpError(status: nat, detail: string, headers: Headers)

  /** What a handler produces: its response value, or the HTTP error it raises. */
  datatype Result<+T> = Ok(value: T) | Err(error: HttpError)

  /** A reading of `datetime.utcnow()`; the clock itself is outside the model. */
  type Timestamp = nat

  /** The challenge header sent with every 401 of the service. */
  const BearerChallenge: Headers := map["WWW-Authenticate" := "Bearer"]

  /** The framework's answer to an exception a handler does not catch. */
  const InternalServerError := HttpError(500, "Internal Server Error", map[])
}

/** The two query shapes the handlers run against a table: `select(...).where(p).first()`
    and `select(...).where(p).all()`, both in storage order. */
module Query {
  import opened Http

  /** Index of the first row satisfying `p`, or None when no row does. */
  function FirstWhere<T>(rows: seq<T>, p: T -> bool): (r: Option<nat>)
    ensures r.Some? ==> r.value < |rows| && p(rows[r.value])
    ensures r.Some? ==> forall j :: 0 <= j < r.value ==> !p(rows[j])
    ensures r.None? ==> forall j :: 0 <= j < |rows| ==> !p(rows[j])
  {
    if rows == [] then None
    else if p(rows[0]) then Some(0)
    else match FirstWhere(rows[1..], p)
      case None => None
      case Some(k) => Some(k + 1)
  }

  /** Every row satisfying `p`, in storage order: each such row as often as the table holds
      it, and no other row. */
  function AllWhere<T>(rows: seq<T>, p: T -> bool): (r: seq<T>)
    ensures |r| <= |rows|
    ensures forall x :: x in r ==> x in rows && p(x)
    ensures forall x :: x in rows && p(x) ==> x in r
    ensures forall i :: 0 <= i < |r| ==> p(r[i])
    ensures forall x :: x in rows ==> multiset(r)[x] == if p(x) then multiset(rows)[x] else 0
  {
    if rows == [] then []
    else
      assert rows == [rows[0]] + rows[1..];
      (if p(rows[0]) then [rows[0]] else []) + AllWhere(rows[1..], p)
  }

  lemma SeqAssociative<T>(x: seq<T>, y: seq<T>, z: seq<T>)
    ensures x + (y + z) == (x + y) + z
  {
  }

  /** The filter keeps storage order: filtering two stretches of a table one after the other
      gives the filtered stretches in the same order. */
  lemma {:induction false} AllWhereKeepsStorageOrder<T>(a: seq<T>, b: seq<T>, p: T -> bool)
    ensures AllWhere(a + b, p) == AllWhere(a, p) + AllWhere(b, p)
  {
    if a != [] {
      var head := if p(a[0]) then [a[0]] else [];
      assert (a + b)[0] == a[0] && (a + b)[1..] == a[1..] + b;
      AllWhereKeepsStorageOrder(a[1..], b, p);
      var rest, other := AllWhere(a[1..], p), AllWhere(b, p);
      assert AllWhere(a + b, p) == head + (rest + other);
      assert AllWhere(a, p) == head + rest;
      SeqAssociative(head, rest, other);
    } else {
      assert a + b == b;
    }
  }
}
