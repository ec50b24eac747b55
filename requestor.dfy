/** The request helper of src/maven_artifact/requestor.py. `request` first
    builds the header dictionary (an if/elif chain choosing at most one
    Authorization header) and then performs the HTTP call, turning its
    outcome into `onSuccess(response)`, the response, `onFail(url, ex)` or a
    re-raised exception. The HTTP call itself is the `send` parameter. */
module Requestor {
  import opened Wrappers
  import opened Exceptions
  import opened Strings
  import opened Bytes
  import opened Base64
  import opened Utils

  const DEFAULT_USER_AGENT := "Maven Artifact Downloader/1.0"
  const USER_AGENT := "User-Agent"
  const AUTHORIZATION := "Authorization"

  /** `base64.b64encode(s.encode()).decode()` */
  function Base64Text(s: string): string
  {
    AsciiText(Encode(Utf8Encode(s)))
  }

  /** What an HTTP call gives back, after `raise_for_status()`: a response,
      or the exception it raised. */
  datatype Transport<R> = Delivered(response: R) | Failed(cause: Error)

  /** What `request` returns when it does not raise: the bare response (no
      `onSuccess`) or the value a handler returned. */
  datatype Reply<R, T> = RawResponse(response: R) | Handled(value: T)

  datatype Requestor = Requestor(
    username: Option<string>,
    password: Option<string>,
    token: Option<string>,
    userAgent: string)
  {
    /** The password as the argument `Utils.is_base64` receives. */
    function PasswordValue(): Value
    {
      if password.Some? then StrValue(password.value) else OtherValue
    }

    predicate HasUserAndPassword()
    {
      Truthy(username) && Truthy(password)
    }

    /** The header dictionary of `request`: always the User-Agent, and an
        Authorization header chosen by precedence: user and password, else a
        password that is already base64, else a token. */
    function Headers(): (h: map<string, string>)
      ensures USER_AGENT in h && h[USER_AGENT] == userAgent
      ensures h.Keys <= {USER_AGENT, AUTHORIZATION}
      ensures AUTHORIZATION in h <==> HasUserAndPassword() || IsBase64(PasswordValue()) || Truthy(token)
      ensures HasUserAndPassword() ==>
        h[AUTHORIZATION] == "Basic " + Base64Text(username.value + ":" + password.value)
      ensures !HasUserAndPassword() && IsBase64(PasswordValue()) ==>
        h[AUTHORIZATION] == "Basic " + password.value
      ensures !HasUserAndPassword() && !IsBase64(PasswordValue()) && Truthy(token) ==>
        h[AUTHORIZATION] == "Bearer " + Base64Text(token.value)
    {
      var headers := map[USER_AGENT := userAgent];
      if HasUserAndPassword() then
        headers[AUTHORIZATION := "Basic " + Base64Text(username.value + ":" + password.value)]
      else if IsBase64(PasswordValue()) then
        headers[AUTHORIZATION := "Basic " + password.value]
      else if Truthy(token) then
        headers[AUTHORIZATION := "Bearer " + Base64Text(token.value)]
      else
        headers
    }

    /** `request(url, onFail, onSuccess)`: the call is made with exactly
        the headers above, and its outcome decides the result. */
    function Request<R, T>(url: string, send: (string, map<string, string>) -> Transport<R>,
                           onFail: Option<(string, Error) -> Result<T, Error>>,
                           onSuccess: Option<R -> Result<T, Error>>): (r: Result<Reply<R, T>, Error>)
      ensures var sent := send(url, Headers());
        && (sent.Delivered? && onSuccess.None? ==> r == Success(RawResponse(sent.response)))
        && (sent.Delivered? && onSuccess.Some? && onSuccess.value(sent.response).Success? ==>
              r == Success(Handled(onSuccess.value(sent.response).value)))
        && (sent.Delivered? && onSuccess.Some? && onSuccess.value(sent.response).Failure? ==>
              r == OnException(url, onSuccess.value(sent.response).error, onFail))
        && (sent.Failed? && onFail.None? ==> r == Failure(sent.cause))
        && (sent.Failed? && onFail.Some? && onFail.value(url, sent.cause).Success? ==>
              r == Success(Handled(onFail.value(url, sent.cause).value)))
        && (sent.Failed? && onFail.Some? && onFail.value(url, sent.cause).Failure? ==>
              r == Failure(onFail.value(url, sent.cause).error))
        && (r.Success? && r.value.RawResponse? ==> onSuccess.None? && sent == Delivered(r.value.response))
        && (r.Failure? && onFail.None? ==>
              sent == Failed(r.error) || (onSuccess.Some? && onSuccess.value(sent.response) == Failure(r.error)))
    {
      Dispatch(url, send(url, Headers()), onFail, onSuccess)
    }
  }

  /** `Requestor()` */
  function Default(): Requestor
  {
    Requestor(None, None, None, DEFAULT_USER_AGENT)
  }

  /** The `except` branch: `onFail(url, ex)` when given, else re-raise. */
  function OnException<R, T>(url: string, ex: Error,
                             onFail: Option<(string, Error) -> Result<T, Error>>): (r: Result<Reply<R, T>, Error>)
    ensures onFail.None? ==> r == Failure(ex)
    ensures onFail.Some? ==>
      r == match onFail.value(url, ex) case Success(v) => Success(Handled(v)) case Failure(e) => Failure(e)
  {
    match onFail
    case None => Failure(ex)
    case Some(handler) =>
      match handler(url, ex)
      case Success(v) => Success(Handled(v))
      case Failure(e) => Failure(e)
  }

  /** The `try` block of `request`: an exception from the call or from
      `onSuccess` goes to the `except` branch. */
  function Dispatch<R, T>(url: string, outcome: Transport<R>,
                          onFail: Option<(string, Error) -> Result<T, Error>>,
                          onSuccess: Option<R -> Result<T, Error>>): (r: Result<Reply<R, T>, Error>)
    ensures r.Success? && r.value.RawResponse? ==> onSuccess.None? && outcome == Delivered(r.value.response)
    ensures outcome.Delivered? && onSuccess.None? ==> r == Success(RawResponse(outcome.response))
    ensures outcome.Delivered? && onSuccess.Some? && onSuccess.value(outcome.response).Success? ==>
      r == Success(Handled(onSuccess.value(outcome.response).value))
    ensures outcome.Failed? ==> r == OnException(url, outcome.cause, onFail)
    ensures outcome.Delivered? && onSuccess.Some? && onSuccess.value(outcome.response).Failure? ==>
      r == OnException(url, onSuccess.value(outcome.response).error, onFail)
  {
    match outcome
    case Failed(ex) => OnException(url, ex, onFail)
    case Delivered(response) =>
      match onSuccess
      case None => Success(RawResponse(response))
      case Some(handle) =>
        match handle(response)
        case Success(v) => Success(Handled(v))
        case Failure(ex) => OnException(url, ex, onFail)
  }

  /** Whatever header is chosen, its credential is valid base64. */
  lemma AuthorizationIsBase64(q: Requestor)
    requires AUTHORIZATION in q.Headers()
    ensures var v := q.Headers()[AUTHORIZATION];
      || (StartsWith(v, "Basic ") && IsBase64(StrValue(v[6..])))
      || (StartsWith(v, "Bearer ") && IsBase64(StrValue(v[7..])))
  {
    var v := q.Headers()[AUTHORIZATION];
    if q.HasUserAndPassword() {
      var cred := Base64Text(q.username.value + ":" + q.password.value);
      EncodedIsBase64(Utf8Encode(q.username.value + ":" + q.password.value));
      assert v == "Basic " + cred && v[6..] == cred;
    } else if IsBase64(q.PasswordValue()) {
      assert v == "Basic " + q.password.value && v[6..] == q.password.value;
    } else {
      var cred := Base64Text(q.token.value);
      EncodedIsBase64(Utf8Encode(q.token.value));
      assert v == "Bearer " + cred && v[7..] == cred;
    }
  }

  /** An empty password is not truthy but is valid base64, so it yields
      the header `Basic ` (with nothing after it) whatever the username,
      ahead of any token. */
  lemma EmptyPasswordWins(q: Requestor)
    requires q.password == Some("")
    ensures q.Headers()[AUTHORIZATION] == "Basic "
  {
    EmptyIsBase64();
  }

  /** With no credentials at all there is no Authorization header. */
  lemma DefaultSendsNoAuthorization()
    ensures Default().username.None? && Default().password.None? && Default().token.None?
    ensures Default().Headers() == map[USER_AGENT := DEFAULT_USER_AGENT]
  {
  }
}
