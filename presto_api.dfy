/**
 The request side of the client's HTTP exchange with the coordinator, and the
 decision it takes on a response's status code.

 A statement is submitted by POSTing its text to `<base>/v1/statement`; every
 later page of results is fetched by GETting the `nextUri` the previous page
 named. Both requests carry one fixed user header. A response is decoded only
 on status 200; 503 stops the client (the code has no retry for it yet), and any
 other status becomes an error that carries the code.

 The network, the streaming of the body and the JSON decoder are outside the
 model: the exchange arrives as a value, and the decoder is a parameter.
 */
module PrestoApi {
  import opened Http
  import Headers
  import Utf8

  /** `StatusCode::as_u16` ranges over all 16-bit values. */
  newtype u16 = x: int | 0 <= x < 0x1_0000

  datatype Option<T> = None | Some(value: T)

  /** The three ways the status match can go. */
  datatype StatusOutcome = ReadBody | Unimplemented | StatusError(code: u16)

  /** The match on `status.as_u16()` in `parse_response`. */
  function ClassifyStatus(code: u16): (o: StatusOutcome)
    ensures o == ReadBody <==> code == 200
    ensures o == Unimplemented <==> code == 503
    ensures o.StatusError? <==> code != 200 && code != 503
    ensures o.StatusError? ==> o.code == code
  {
    match code
    case 200 => ReadBody
    case 503 => Unimplemented
    case _ => StatusError(code)
  }

  /** The error code read back from a status error is the status it came from,
      so distinct failing statuses give distinct outcomes. */
  lemma StatusErrorKeepsCode(c1: u16, c2: u16)
    requires ClassifyStatus(c1).StatusError?
    ensures ClassifyStatus(c1) == ClassifyStatus(c2) <==> c1 == c2
  {
  }

  /** What can go wrong in `get_results`: a status other than 200 and 503, a body
      the decoder rejects, or the exchange itself failing. */
  datatype Error = StatusCode(code: u16) | DecodeError | TransportError

  /** A response as `parse_response` sees it: the status and the whole body. */
  datatype Response = Response(status: u16, body: seq<bv8>)

  /** The result of `parse_response`: a decoded page, an error, or a panic (the
      `unimplemented!()` for 503, or the `unwrap()` of the body's debug print
      when a 200 body is not UTF-8). */
  datatype Outcome<V> = Value(value: V) | Failure(error: Error) | Panic

  /** `parse_response`: the body is looked at only when the status is 200; it is
      first printed as UTF-8, which panics on any other bytes, then decoded. */
  function ParseResponse<V>(r: Response, decode: seq<bv8> -> Option<V>): (o: Outcome<V>)
    ensures o.Panic? <==> r.status == 503 || (r.status == 200 && !Utf8.Valid(r.body))
    ensures o.Value? <==> r.status == 200 && Utf8.Valid(r.body) && decode(r.body).Some?
    ensures o.Value? ==> o.value == decode(r.body).value
    ensures o == Failure(DecodeError) <==> r.status == 200 && Utf8.Valid(r.body) && decode(r.body).None?
    ensures r.status != 200 && r.status != 503 ==> o == Failure(StatusCode(r.status))
  {
    match ClassifyStatus(r.status)
    case ReadBody =>
      if !Utf8.Valid(r.body) then Panic
      else
        (match decode(r.body)
         case Some(v) => Value(v)
         case None => Failure(DecodeError))
    case Unimplemented => Panic
    case StatusError(code) => Failure(StatusCode(code))
  }

  /** A 200 response whose body is plain ASCII is decoded, whatever the decoder
      makes of it. */
  lemma ParseAsciiBody<V>(body: seq<bv8>, decode: seq<bv8> -> Option<V>)
    requires forall i :: 0 <= i < |body| ==> body[i] < 0x80
    ensures ParseResponse(Response(200, body), decode) ==
      (if decode(body).Some? then Value(decode(body).value) else Failure(DecodeError))
  {
    Utf8.AsciiValid(body);
  }

  /** Unless the status is 200, neither the body nor the decoder has any say in
      the outcome. */
  lemma ParseIgnoresBodyUnlessOk<V>(status: u16, b1: seq<bv8>, b2: seq<bv8>,
                                    d1: seq<bv8> -> Option<V>, d2: seq<bv8> -> Option<V>)
    requires status != 200
    ensures ParseResponse(Response(status, b1), d1) == ParseResponse(Response(status, b2), d2)
  {
  }

  /** A status error reported by `parse_response` names the response's status,
      which was neither 200 nor 503. */
  lemma ParseStatusErrorIsStatus<V>(r: Response, decode: seq<bv8> -> Option<V>)
    requires ParseResponse(r, decode).Failure? && ParseResponse(r, decode).error.StatusCode?
    ensures ParseResponse(r, decode).error.code == r.status
    ensures r.status != 200 && r.status != 503
  {
  }

  /** `get_results`: the exchange's own failure is passed on, otherwise the
      response is parsed. `exchange` stands for what `http_client.request` yields. */
  function GetResults<V>(exchange: Option<Response>, decode: seq<bv8> -> Option<V>): (o: Outcome<V>)
    ensures exchange.None? ==> o == Failure(TransportError)
    ensures exchange.Some? ==> o == ParseResponse(exchange.value, decode)
    ensures o == Failure(TransportError) ==> exchange.None?
  {
    match exchange
    case None => Failure(TransportError)
    case Some(r) => ParseResponse(r, decode)
  }

  /** The path statements are submitted to, appended to the base URL. */
  const StatementPath: string := "/v1/statement"

  /** The single header both request builders attach. */
  const UserHeader: Header := ("X-Trino-User", "jagill")

  /** `post_statement_request`. */
  function PostStatementRequest(baseUrl: string, statement: string): (r: Request)
    ensures r.verb == Post
    ensures |r.uri| == |baseUrl| + 13 && r.uri[..|baseUrl|] == baseUrl && r.uri[|baseUrl|..] == "/v1/statement"
    ensures r.headers == [("X-Trino-User", "jagill")]
    ensures r.body == Text(statement)
  {
    NewBuilder()
      .WithMethod(Post)
      .WithUri(baseUrl + StatementPath)
      .WithHeader(UserHeader.0, UserHeader.1)
      .WithBody(Text(statement))
  }

  /** `get_results_request`. */
  function GetResultsRequest(nextUri: string): (r: Request)
    ensures r.verb == Get
    ensures r.uri == nextUri
    ensures r.headers == [("X-Trino-User", "jagill")]
    ensures r.body == Empty
  {
    NewBuilder()
      .WithMethod(Get)
      .WithUri(nextUri)
      .WithHeader(UserHeader.0, UserHeader.1)
      .WithBody(Empty)
  }

  /** The base URL a statement request was built from, if `uri` is one. */
  function StatementBase(uri: string): (b: Option<string>)
    ensures b.Some? ==> b.value + StatementPath == uri
  {
    if |uri| >= |StatementPath| && uri[|uri| - |StatementPath|..] == StatementPath
    then Some(uri[..|uri| - |StatementPath|])
    else None
  }

  /** The statement text a request carries, if it carries one. */
  function StatementOf(r: Request): Option<string>
  {
    match r.body
    case Text(t) => Some(t)
    case Empty => None
  }

  /** A statement request gives back the base URL and the statement it was built from. */
  lemma PostStatementRoundTrip(baseUrl: string, statement: string)
    ensures StatementBase(PostStatementRequest(baseUrl, statement).uri) == Some(baseUrl)
    ensures StatementOf(PostStatementRequest(baseUrl, statement)) == Some(statement)
  {
    var uri := PostStatementRequest(baseUrl, statement).uri;
    assert uri[|uri| - |StatementPath|..] == StatementPath;
    assert uri[..|uri| - |StatementPath|] == baseUrl;
  }

  /** Different inputs give different statement requests. */
  lemma PostStatementInjective(b1: string, s1: string, b2: string, s2: string)
    requires PostStatementRequest(b1, s1) == PostStatementRequest(b2, s2)
    ensures b1 == b2 && s1 == s2
  {
    PostStatementRoundTrip(b1, s1);
    PostStatementRoundTrip(b2, s2);
  }

  /** A results request can never be mistaken for a statement request: the
      method and the body differ, while the headers are the same. */
  lemma RequestsDiffer(baseUrl: string, statement: string, nextUri: string)
    ensures PostStatementRequest(baseUrl, statement).verb != GetResultsRequest(nextUri).verb
    ensures StatementOf(PostStatementRequest(baseUrl, statement)) == Some(statement)
    ensures StatementOf(GetResultsRequest(nextUri)) == None
    ensures PostStatementRequest(baseUrl, statement).headers == GetResultsRequest(nextUri).headers
  {
  }

  /** The fixed header is the one the header encoder writes for the user field
      `"jagill"`, and it is the only header: no other field is sent. */
  lemma UserHeaderIsEncoderUser(baseUrl: string, statement: string, nextUri: string)
    ensures PostStatementRequest(baseUrl, statement).headers == Headers.Pairs([Headers.User("jagill")])
    ensures GetResultsRequest(nextUri).headers == Headers.Pairs([Headers.User("jagill")])
  {
    var p := Headers.Pairs([Headers.User("jagill")]);
    Headers.PairsAt([Headers.User("jagill")], 0);
    assert "X-Trino-" + "User" == "X-Trino-User";
    assert p == [p[0]] && p[0] == (p[0].0, p[0].1);
  }
}
