/** RequestApi.post: a JSON POST through the Amplify API client. The client itself is
    not part of this model; it is a parameter, a function from the call it is given to
    the outcome of that call (the value the promise resolves to, or the value it is
    rejected with). */
module RequestApi {
  import opened Values
  import opened Errors

  /** The one header post sends. */
  const JsonContentType := "application/json"

  /** What post hands to API.post: the API name, the path, the headers and the body. */
  datatype ApiCall = ApiCall(apiName: Value, path: string, contentType: string, body: Value)

  /** How the client call ends: resolved with a result, or rejected with err. */
  datatype TransportOutcome = Delivered(result: Value) | Failed(err: Value)

  /** How post ends: it returns the result, or throws a RequestError, or throws a
      TypeError raised while reading a property of null or undefined. */
  datatype PostResult = Returned(value: Value) | Threw(error: ErrorObject) | ThrewTypeError

  /** The call built from { endpoint, body, apiName }: the path is "/" followed by the
      endpoint as a template literal prints it; the API name and the body are passed
      through as they are. */
  function CallFor(params: Value): (call: ApiCall)
    ensures call.contentType == JsonContentType
    ensures |call.path| >= 1 && call.path[0] == '/'
    ensures call.path[1..] == ToJsString(Get(params, "endpoint"))
    ensures call.apiName == Get(params, "apiName") && call.body == Get(params, "body")
  {
    ApiCall(Get(params, "apiName"), "/" + ToJsString(Get(params, "endpoint")), JsonContentType, Get(params, "body"))
  }

  /** The catch block of post, for a rejection value err that is not null or
      undefined. With a truthy err.response it takes the HTTP status and
      response.data.message (reading message of a null or undefined data throws);
      otherwise the code is 0 and the message is err.message, or err itself when that
      is falsy. */
  function Rejected(err: Value): (r: PostResult)
    requires !IsNullish(err)
    ensures !r.Returned?
    ensures r.ThrewTypeError? <==>
      Truthy(Get(err, "response")) && IsNullish(Get(Get(err, "response"), "data"))
    ensures r.Threw? ==>
      && r.error.RequestError?
      && r.error.cause == err
      && r.error.httpCode == (if Truthy(Get(err, "response")) then Get(Get(err, "response"), "status") else Int(0))
      && r.error.message == ErrorMessage(
           if Truthy(Get(err, "response")) then Get(Get(Get(err, "response"), "data"), "message")
           else if Truthy(Get(err, "message")) then Get(err, "message") else err)
  {
    var response := Get(err, "response");
    if Truthy(response) then
      var data := Get(response, "data");
      if IsNullish(data) then ThrewTypeError
      else Threw(NewRequestError(Get(data, "message"), Get(response, "status"), err))
    else
      var m := Get(err, "message");
      Threw(NewRequestError(if Truthy(m) then m else err, Int(0), err))
  }

  /** RequestApi.post. Destructuring null or undefined parameters throws a TypeError;
      a resolved call returns its result unchanged; a rejected call is rethrown as a
      RequestError that keeps the rejection value as its cause, with the HTTP status
      and response.data.message for an HTTP failure, and otherwise code 0 and
      err.message, or the printed rejection value when that is falsy. */
  function Post(params: Value, send: ApiCall -> TransportOutcome): (r: PostResult)
    ensures IsNullish(params) ==> r == ThrewTypeError
    ensures !IsNullish(params) && send(CallFor(params)).Delivered? ==>
      r == Returned(send(CallFor(params)).result)
    ensures !IsNullish(params) && send(CallFor(params)).Failed? ==>
      var err := send(CallFor(params)).err;
      && (r.ThrewTypeError? <==>
            IsNullish(err) || (Truthy(Get(err, "response")) && IsNullish(Get(Get(err, "response"), "data"))))
      && (r.Threw? ==>
            && r.error.RequestError?
            && r.error.cause == err
            && r.error.httpCode == (if Truthy(Get(err, "response")) then Get(Get(err, "response"), "status") else Int(0))
            && r.error.message == ErrorMessage(
                 if Truthy(Get(err, "response")) then Get(Get(Get(err, "response"), "data"), "message")
                 else if Truthy(Get(err, "message")) then Get(err, "message") else err))
    ensures r.Returned? ==> !IsNullish(params) && send(CallFor(params)) == Delivered(r.value)
  {
    if IsNullish(params) then ThrewTypeError
    else
      match send(CallFor(params))
      case Delivered(result) => Returned(result)
      case Failed(err) => if IsNullish(err) then ThrewTypeError else Rejected(err)
  }

  /** A thrown RequestError can always be printed: its cause is the rejection value,
      which is not null or undefined, and the first line of the printout is the
      Error.prototype.toString line "RequestError: message" when the message has no
      line break. */
  lemma PostErrorPrints(params: Value, send: ApiCall -> TransportOutcome)
    requires Post(params, send).Threw?
    ensures ToString(Post(params, send).error).Normal?
    ensures var e := Post(params, send).error;
      var s := ToString(e).value;
      var b := BaseString(e);
      '\n' !in e.message ==> |b| < |s| && s[..|b|] == b && s[|b|] == '\n' && '\n' !in b
    ensures var e := Post(params, send).error;
      e.message != "" ==> BaseString(e) == "RequestError: " + e.message
  {
    var e := Post(params, send).error;
    assert e.RequestError? && !IsNullish(e.cause);
    PrintedRequestError(e);
  }

  lemma PrintedRequestError(e: ErrorObject)
    requires e.RequestError? && !IsNullish(e.cause)
    ensures ToString(e).Normal?
    ensures var s := ToString(e).value;
      var b := BaseString(e);
      '\n' !in e.message ==> |b| < |s| && s[..|b|] == b && s[|b|] == '\n' && '\n' !in b
    ensures e.message != "" ==> BaseString(e) == "RequestError: " + e.message
  {
    ToStringStartsWithBase(e);
  }

  /** A 404 answer { status: 404, data: { message: "Not found" } } is rethrown as
      RequestError("Not found", 404, err). */
  lemma PostNotFoundExample(params: Value, send: ApiCall -> TransportOutcome, err: Value)
    requires !IsNullish(params)
    requires err == Obj([("response", Obj([("status", Int(404)), ("data", Obj([("message", Str("Not found"))]))]))])
    requires send(CallFor(params)) == Failed(err)
    ensures Post(params, send) == Threw(RequestError("Not found", Int(404), err))
  {
    var response := Obj([("status", Int(404)), ("data", Obj([("message", Str("Not found"))]))]);
    assert Get(err, "response") == response;
    assert Get(response, "status") == Int(404);
    assert "status"[0] != "data"[0];
    assert Get(response, "data") == Obj([("message", Str("Not found"))]);
  }

  /** A failure without a response, such as a network error { message: "Network Error" },
      is rethrown with code 0 and that message. */
  lemma PostNetworkErrorExample(params: Value, send: ApiCall -> TransportOutcome, err: Value)
    requires !IsNullish(params)
    requires err == Obj([("message", Str("Network Error"))])
    requires send(CallFor(params)) == Failed(err)
    ensures Post(params, send) == Threw(RequestError("Network Error", Int(0), err))
  {
    assert "message"[0] != "response"[0];
    assert Get(err, "response") == Undefined;
    assert Get(err, "message") == Str("Network Error");
  }

  /** A rejection with a plain non-empty string s is rethrown with s as the message. */
  lemma PostStringRejection(params: Value, send: ApiCall -> TransportOutcome, s: string)
    requires !IsNullish(params) && s != []
    requires send(CallFor(params)) == Failed(Str(s))
    ensures Post(params, send) == Threw(RequestError(s, Int(0), Str(s)))
  {
    assert Get(Str(s), "response") == Undefined && Get(Str(s), "message") == Undefined;
  }
}
