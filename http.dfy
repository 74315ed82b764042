/**
 * The responses the Flask handlers produce: a body and a status code.
 * `V` is the type of values the handlers pass through from a service they
 * call (a JWT claim value, a round-trip time, an evaluation result).
 */
module Http {

  /** One member of a JSON object built by `jsonify`. */
  datatype Field<V> =
    | Str(text: string)
    | Val(value: V)
    | Obj(members: map<string, V>)

  datatype Body<V> =
    | Text(text: string)                   // a plain string returned by the view
    | Json(fields: map<string, Field<V>>)  // `jsonify(...)`
    | ServerErrorPage                      // the framework's page for an exception the view let escape

  datatype Response<V> = Response(body: Body<V>, status: nat)

  /** `jsonify({"error": message}), status` */
  function JsonError<V>(message: string, status: nat): Response<V> {
    Response(Json(map["error" := Str(message)]), status)
  }

  /** What Flask answers when a view raises. */
  function InternalServerError<V>(): Response<V> {
    Response(ServerErrorPage, 500)
  }

  /** `health()`, the same in both Flask apps. */
  function Health<V>(): Response<V> {
    Response(Text("OK"), 200)
  }
}
