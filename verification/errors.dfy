/** The error taxonomy of the REST layer and the status code each error carries. */
module Errors {
  import opened Results

  /** The `RestError` subclasses: each carries a message and a fixed HTTP status code. */
  datatype RestError =
    | ServerError(errorMsg: string)
    | NotFoundError(errorMsg: string)
    | SchemaConfigError(errorMsg: string, schemaName: string)
    | MissingParameterError(errorMsg: string, parameterKey: string)

  /** Anything a handler can catch: one of the REST errors, a rejection coming from the
      document or counter store, or a `TypeError` thrown by the handler's own code. Only the
      first is a `RestError`. */
  datatype Failure = Rest(error: RestError) | StoreFailure | TypeError

  /** The `errorCode` field each error class initialises. */
  function ErrorCode(e: RestError): (code: int)
    ensures code == 500 <==> e.ServerError?
    ensures code == 404 <==> e.NotFoundError?
    ensures code == 400 <==> (e.SchemaConfigError? || e.MissingParameterError?)
  {
    match e
    case ServerError(_) => 500
    case NotFoundError(_) => 404
    case SchemaConfigError(_, _) => 400
    case MissingParameterError(_, _) => 400
  }

  /** What a route handler's `catch` block does with an error: a `RestError` becomes a
      response with its code and message; anything else goes on to the next handler. */
  datatype ErrorResponse = Status(code: int, msg: string) | PassToNext

  function Respond(f: Failure): (r: ErrorResponse)
    ensures r.Status? <==> f.Rest?
    ensures f.Rest? ==> r == Status(ErrorCode(f.error), f.error.errorMsg)
    ensures r.Status? ==> r.code in {400, 404, 500}
  {
    match f
    case Rest(e) => Status(ErrorCode(e), e.errorMsg)
    case _ => PassToNext
  }

  /** The error a lookup of an unconfigured resource throws. */
  function SchemaNotConfigured(resourceName: string): (e: RestError)
    ensures e.SchemaConfigError? && e.schemaName == resourceName
    ensures ErrorCode(e) == 400
  {
    SchemaConfigError("Schema of resource: " + resourceName + " is not configured", resourceName)
  }

  /** The error a create throws when a required field is absent from the input. */
  function MissingParameter(key: string, resourceName: string): (e: RestError)
    ensures e.MissingParameterError? && e.parameterKey == key
    ensures ErrorCode(e) == 400
  {
    MissingParameterError(key + " is required to create the " + resourceName, key)
  }

  /** The error get, update and delete throw when no document has the requested id. */
  function NotFound(resourceName: string, id: string): (e: RestError)
    ensures e.NotFoundError?
    ensures ErrorCode(e) == 404
  {
    NotFoundError(resourceName + "/" + id + " is not found")
  }
}
