/** Shared vocabulary of the proxy: the parts of an HTTP request the handlers
    look at, the outcome of a call to the IPFS backend, the decoded form of a
    streamed JSON response, and the client connection the handlers write to. */
module Http {

  datatype Option<+T> = None | Some(value: T)

  datatype Result<+T> = Ok(value: T) | Err(msg: string)

  newtype byte = b: int | 0 <= b < 256

  const StatusOK := 200
  const StatusBadRequest := 400
  const StatusUnauthorized := 401
  const StatusForbidden := 403
  const StatusNotFound := 404
  const StatusBadGateway := 502

  /** The reply of every handler to a request without basic auth. */
  const NoBasicAuth := "no basic auth"
  /** Stands for the JSON decoder's own error text. */
  const DecodeError := "JSON response unmarshal error"

  /** A parsed URL query (Go's url.Values): every key present maps to the
      values given for it, in order. */
  type Query = map<string, seq<string>>

  /** The request as the handlers see it: the basic-auth user name, if the
      request carries basic auth at all, and its query. */
  datatype Request = Request(user: Option<string>, query: Query)

  /** url.Values.Has */
  predicate Has(q: Query, key: string) {
    key in q
  }

  /** url.Values.Get: the first value for the key, or "" when there is none. */
  function Get(q: Query, key: string): string {
    if key in q && |q[key]| > 0 then q[key][0] else ""
  }

  /** What a POST to the backend gives back: no response at all (the network
      call failed) or a status code and a body. */
  datatype BackendOutcome = NetErr | Status(code: int, body: seq<byte>)

  /** What a JSON decoder produces from a response body: the messages it
      decodes one after another, and whether the next call after them
      reports a malformed object (true) or the end of the input (false). */
  datatype Decoded<M> = Decoded(msgs: seq<M>, decodeError: bool)

  /** The elements of a sequence, as a set. */
  function Elems<T>(s: seq<T>): set<T> {
    set x | x in s
  }

  /** No element occurs twice. */
  predicate Distinct<T(==)>(s: seq<T>) {
    forall i, j | 0 <= i < j < |s| :: s[i] != s[j]
  }

  /** The value every pin-list entry maps to: {"Type": "recursive"}. */
  const RecursivePin: map<string, string> := map["Type" := "recursive"]

  /** One unit of output written to the client: raw bytes, the text of an
      http.Error reply, or a JSON document written by an encoder. */
  datatype Part =
    | Raw(bytes: seq<byte>)
    | ErrorText(msg: string)
    | PinsJson(pins: seq<string>)
    | KeysJson(keys: map<string, map<string, string>>)

  const WriteFailed := "write to client failed"

  /** The client connection (an http.ResponseWriter): it records every status
      line and every part handed to it; a `failing` connection reports an
      error on every body write. */
  class ResponseSink {
    var headers: seq<int>
    var parts: seq<Part>
    const failing: bool

    constructor (failing: bool)
      ensures headers == [] && parts == [] && this.failing == failing
    {
      headers, parts := [], [];
      this.failing := failing;
    }

    method WriteHeader(code: int)
      modifies this
      ensures headers == old(headers) + [code] && parts == old(parts)
    {
      headers := headers + [code];
    }

    method Write(b: seq<byte>) returns (n: int, err: Option<string>)
      modifies this
      ensures parts == old(parts) + [Raw(b)] && headers == old(headers)
      ensures failing ==> n == 0 && err == Some(WriteFailed)
      ensures !failing ==> n == |b| && err == None
    {
      parts := parts + [Raw(b)];
      if failing {
        n, err := 0, Some(WriteFailed);
      } else {
        n, err := |b|, None;
      }
    }

    /** http.Error: the status line, then the message as the body. */
    method Error(msg: string, code: int)
      modifies this
      ensures headers == old(headers) + [code] && parts == old(parts) + [ErrorText(msg)]
    {
      headers := headers + [code];
      parts := parts + [ErrorText(msg)];
    }

    /** json.NewEncoder(w).Encode: one JSON document as the body; the
        encoder's error is the connection's. */
    method Encode(p: Part) returns (err: Option<string>)
      modifies this
      ensures parts == old(parts) + [p] && headers == old(headers)
      ensures err == if failing then Some(WriteFailed) else None
    {
      parts := parts + [p];
      err := if failing then Some(WriteFailed) else None;
    }
  }
}
