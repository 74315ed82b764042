/**
 * The input checks of the homework 7 Flask app: the greeting route `/`, the
 * reachability route `/ping`, the calculator route `/calculate` and
 * `/health`. Each handler decides on a rejection before it touches a
 * service; the services are oracles:
 * - `parses` stands for `ipaddress.ip_address` (true when it does not raise ValueError),
 * - `probe` for `ping3.ping(ip, timeout=1)` followed by `round(result * 1000, 2)`,
 * - `evaluate` for `asteval.Interpreter()(expression)`.
 */
module InputValidation {
  import opened Wrappers
  import opened Text
  import opened Http

  const DefaultName := "World"
  const InvalidName := "Invalid name: only alphanumeric characters allowed."
  const MissingIp := "Missing IP address"
  const InvalidIp := "Invalid IP address"
  const MissingExpression := "Missing expression."
  const InvalidExpression := "Invalid expression."

  /** What the reachability probe did. */
  datatype ProbeOutcome<V> =
    | Timeout                 // `ping` returned None
    | Delay(millis: V)        // the round-trip time, already scaled and rounded
    | ProbeError(text: string) // `ping` raised; `str(e)`

  /** What the expression evaluator did. */
  datatype EvalOutcome<V> =
    | Value(result: V)        // the evaluation result
    | Rejected                // raised ValueError or SyntaxError
    | Raised                  // raised anything else; not caught

  /** `hello()` with `name` the `name` query parameter, if any. */
  function Hello<V>(name: Option<string>): (r: Response<V>)
    // no parameter: the default greeting
    ensures name.None? ==> r == Response(Text("Hello, World!"), 200)
    // a supplied name is accepted exactly when it is non-empty and alphanumeric
    ensures name.Some? ==> (r.status == 200 <==> IsAlnum(name.value))
    ensures name.Some? && IsAlnum(name.value) ==> r.body == Text("Hello, " + name.value + "!")
    // every rejection is the same 400 error
    ensures r.status != 200 ==> r == JsonError(InvalidName, 400)
  {
    assert "Hello, " + DefaultName + "!" == "Hello, World!";
    var n := name.GetOr(DefaultName);
    if !IsAlnum(n) then JsonError(InvalidName, 400)
    else Response(Text("Hello, " + n + "!"), 200)
  }

  /** The characters a greeting may contain besides letters and digits. */
  predicate GreetingChar(c: char) {
    IsAsciiAlnum(c) || c == ' ' || c == ',' || c == '!'
  }

  /** The reflected greeting never contains markup: only letters, digits, space, comma and `!`. */
  lemma HelloReflectsNoMarkup<V>(name: Option<string>)
    ensures var r: Response<V> := Hello(name);
      r.status == 200 ==> r.body.Text? && forall i :: 0 <= i < |r.body.text| ==> GreetingChar(r.body.text[i])
  {
    var r: Response<V> := Hello(name);
    if r.status == 200 {
      var n := name.GetOr(DefaultName);
      var t := "Hello, " + n + "!";
      assert r.body.text == t;
      forall i | 0 <= i < |t| ensures GreetingChar(t[i]) {
        if i < 7 {
          assert t[i] == "Hello, "[i];
        } else if i < 7 + |n| {
          assert t[i] == n[i - 7];
        } else {
          assert t[i] == '!';
        }
      }
    }
  }

  /** `is_valid_ip(ip)` */
  function IsValidIp(ip: string, parses: string -> bool): bool {
    parses(ip)
  }

  function ProbeResponse<V>(ip: string, outcome: ProbeOutcome<V>): Response<V> {
    match outcome
    case Timeout => Response(Json(map["status" := Str("No response")]), 408)
    case Delay(millis) => Response(Json(map["ip" := Str(ip), "response_time_ms" := Val(millis)]), 200)
    case ProbeError(text) => JsonError(text, 500)
  }

  /** `ping_host()` with `ip` the `ip` query parameter, if any. */
  function PingHost<V>(ip: Option<string>, parses: string -> bool, probe: string -> ProbeOutcome<V>): (r: Response<V>)
    // a missing or empty address is refused first
    ensures (ip.None? || ip.value == "") ==> r == JsonError(MissingIp, 400)
    // an address that does not parse is refused next
    ensures ip.Some? && ip.value != "" && !parses(ip.value) ==> r == JsonError(InvalidIp, 400)
    // only a parsed address reaches the probe, and its answer decides the response
    ensures ip.Some? && ip.value != "" && parses(ip.value) ==> r == ProbeResponse(ip.value, probe(ip.value))
    // a 400 is always one of the two refusals
    ensures r.status == 400 ==> r == JsonError(MissingIp, 400) || r == JsonError(InvalidIp, 400)
  {
    if ip.None? || ip.value == "" then JsonError(MissingIp, 400)
    else if !parses(ip.value) then JsonError(InvalidIp, 400)
    else ProbeResponse(ip.value, probe(ip.value))
  }

  /** A refused address is refused before the probe: the response is the same whatever the probe does. */
  lemma PingRefusalIgnoresProbe<V>(ip: Option<string>, parses: string -> bool,
                                   p1: string -> ProbeOutcome<V>, p2: string -> ProbeOutcome<V>)
    requires ip.None? || ip.value == "" || !parses(ip.value)
    ensures PingHost(ip, parses, p1) == PingHost(ip, parses, p2)
    ensures PingHost(ip, parses, p1).status == 400
  {
  }

  /** `is_valid_ip` accepts exactly the non-empty addresses that `ping_host` does not refuse as invalid. */
  lemma IsValidIpAgreesWithPing<V>(ip: string, parses: string -> bool, probe: string -> ProbeOutcome<V>)
    requires ip != ""
    ensures IsValidIp(ip, parses) <==> PingHost(Some(ip), parses, probe) != JsonError(InvalidIp, 400)
  {
    if parses(ip) {
      var r := PingHost(Some(ip), parses, probe);
      assert r.status != 400 || r.body != JsonError<V>(InvalidIp, 400).body;
    }
  }

  /** `calculate()` with `expression` the `expr` query parameter, if any. */
  function Calculate<V>(expression: Option<string>, evaluate: string -> EvalOutcome<V>): (r: Response<V>)
    // a missing or empty expression is refused before the evaluator runs
    ensures (expression.None? || expression.value == "") ==> r == JsonError(MissingExpression, 400)
    // success exactly when the evaluator produces a value, which is passed back as "result"
    ensures r.status == 200 <==> expression.Some? && expression.value != "" && evaluate(expression.value).Value?
    ensures r.status == 200 ==> r.body == Json(map["result" := Val(evaluate(expression.value).result)])
    // a rejected expression gets the second 400; an uncaught exception becomes the server error page
    ensures expression.Some? && expression.value != "" && evaluate(expression.value).Rejected? ==>
      r == JsonError(InvalidExpression, 400)
    ensures r.status == 500 <==> expression.Some? && expression.value != "" && evaluate(expression.value).Raised?
    ensures r.status == 500 ==> r == InternalServerError()
    // nothing else can come back
    ensures r.status in {200, 400, 500}
  {
    if expression.None? || expression.value == "" then JsonError(MissingExpression, 400)
    else
      match evaluate(expression.value)
      case Value(v) => Response(Json(map["result" := Val(v)]), 200)
      case Rejected => JsonError(InvalidExpression, 400)
      case Raised => InternalServerError()
  }
}
