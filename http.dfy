/**
 The shape of the `http`/`hyper` request builder as the client uses it: a
 method, a URI, an ordered list of header name/value pairs, and a body fixed
 when the request is finished. `Builder.header` appends (it keeps earlier
 headers of the same name), and the builder's validation of URIs and header
 strings is not modelled: every step succeeds.
 */
module Http {

  datatype Method = Get | Post

  /** A character allowed in a header name: `tchar` of section 3.2.6 of RFC 7230. */
  predicate TokenChar(c: char)
  {
    || ('A' <= c <= 'Z') || ('a' <= c <= 'z') || ('0' <= c <= '9')
    || c in "!#$%&'*+-.^_`|~"
  }

  /** A valid header name: a non-empty run of token characters. */
  predicate IsToken(s: string)
  {
    |s| > 0 && forall i :: 0 <= i < |s| ==> TokenChar(s[i])
  }

  /** Two names glued together are still a name. */
  lemma TokenConcat(a: string, b: string)
    requires IsToken(a) && IsToken(b)
    ensures IsToken(a + b)
  {
    forall i | 0 <= i < |a + b| ensures TokenChar((a + b)[i]) {
      if i >= |a| { assert (a + b)[i] == b[i - |a|]; }
    }
  }

  type Header = (string, string)

  datatype Body = Empty | Text(text: string)

  datatype Builder = Builder(verb: Method, uri: string, headers: seq<Header>)
  {
    /** `Builder::method` */
    function WithMethod(m: Method): Builder
    {
      this.(verb := m)
    }

    /** `Builder::uri` */
    function WithUri(u: string): Builder
    {
      this.(uri := u)
    }

    /** `Builder::header`: one more pair at the end, everything else as it was. */
    function WithHeader(name: string, value: string): Builder
    {
      this.(headers := headers + [(name, value)])
    }

    /** `Builder::body`: finishes the request. */
    function WithBody(body: Body): Request
    {
      Request(verb, uri, headers, body)
    }
  }

  datatype Request = Request(verb: Method, uri: string, headers: seq<Header>, body: Body)

  /** `Request::builder()`: method GET, URI "/", no headers. */
  function NewBuilder(): Builder
  {
    Builder(Get, "/", [])
  }
}
