/** ResponseWriterWrapper (proxy/wrapper.go): a decorator around the client
    connection that forwards every status and body chunk and keeps a copy of
    the status code and of the whole body. Forward models the reverse proxy
    that streams the backend's reply into it. */
module Wrapper {
  import opened Http

  /** The chunks run together. */
  function Flatten(chunks: seq<seq<byte>>): seq<byte> {
    if chunks == [] then [] else Flatten(chunks[..|chunks| - 1]) + chunks[|chunks| - 1]
  }

  lemma FlattenAppend(chunks: seq<seq<byte>>, b: seq<byte>)
    ensures Flatten(chunks + [b]) == Flatten(chunks) + b
  {
    assert (chunks + [b])[..|chunks|] == chunks;
  }

  /** The raw parts that hand the given chunks over, in order. */
  function RawParts(chunks: seq<seq<byte>>): seq<Part> {
    if chunks == [] then [] else RawParts(chunks[..|chunks| - 1]) + [Raw(chunks[|chunks| - 1])]
  }

  lemma RawPartsAppend(chunks: seq<seq<byte>>, b: seq<byte>)
    ensures RawParts(chunks + [b]) == RawParts(chunks) + [Raw(b)]
  {
    assert (chunks + [b])[..|chunks|] == chunks;
  }

  class ResponseWriterWrapper {
    /** The wrapped http.ResponseWriter. */
    const inner: ResponseSink
    var StatusCode: int
    var Body: seq<byte>
    /** The body chunks handed to `inner` through this wrapper, and how many
        parts `inner` held when it was wrapped. */
    ghost var Forwarded: seq<seq<byte>>
    ghost const base: nat

    /** Body is the concatenation of everything forwarded, and what `inner`
        received since it was wrapped is exactly those chunks. */
    ghost predicate Valid()
      reads this, inner
    {
      && Body == Flatten(Forwarded)
      && base <= |inner.parts|
      && inner.parts[base..] == RawParts(Forwarded)
    }

    /** NewResponseWriterWrapper */
    constructor (w: ResponseSink)
      ensures Valid()
      ensures inner == w && StatusCode == StatusOK && Body == [] && Forwarded == []
      ensures base == |w.parts|
    {
      inner := w;
      StatusCode := StatusOK;
      Body := [];
      Forwarded := [];
      base := |w.parts|;
    }

    method WriteHeader(statusCode: int)
      requires Valid()
      modifies this, inner
      ensures Valid()
      ensures StatusCode == statusCode && Body == old(Body) && Forwarded == old(Forwarded)
      ensures inner.headers == old(inner.headers) + [statusCode] && inner.parts == old(inner.parts)
    {
      StatusCode := statusCode;
      inner.WriteHeader(statusCode);
    }

    /** The body is extended before the downstream write, whether or not
        that write fails; the result is the downstream's. */
    method Write(b: seq<byte>) returns (n: int, err: Option<string>)
      requires Valid()
      modifies this, inner
      ensures Valid()
      ensures Body == old(Body) + b && Forwarded == old(Forwarded) + [b]
      ensures StatusCode == old(StatusCode)
      ensures inner.parts == old(inner.parts) + [Raw(b)] && inner.headers == old(inner.headers)
      ensures inner.failing ==> n == 0 && err == Some(WriteFailed)
      ensures !inner.failing ==> n == |b| && err == None
    {
      FlattenAppend(Forwarded, b);
      RawPartsAppend(Forwarded, b);
      Body := Body + b;
      Forwarded := Forwarded + [b];
      n, err := inner.Write(b);
      assert inner.parts[base..] == old(inner.parts)[base..] + [Raw(b)];
    }
  }

  /** The status the client sees for a backend outcome: a failed round trip
      is answered by the reverse proxy's error handler with 502. */
  function ForwardedStatus(backend: BackendOutcome): int {
    match backend
    case NetErr => StatusBadGateway
    case Status(code, _) => code
  }

  function ForwardedBody(backend: BackendOutcome): seq<byte> {
    match backend
    case NetErr => []
    case Status(_, body) => body
  }

  /** The text of net/http's ErrAbortHandler. */
  const AbortHandler := "net/http: abort Handler"

  /** Copying the backend's body to the client fails. Under an http.Server
      the reverse proxy then panics with http.ErrAbortHandler, which ends the
      handler that called it. */
  predicate CopyFails(failing: bool, backend: BackendOutcome) {
    failing && ForwardedBody(backend) != []
  }

  /** httputil.ReverseProxy.ServeHTTP into the wrapper: the backend's status,
      then its body (nothing is written for an empty body). `aborted` says
      that the body could not be copied to the client. */
  method Forward(rww: ResponseWriterWrapper, backend: BackendOutcome) returns (aborted: bool)
    requires rww.Valid()
    modifies rww, rww.inner
    ensures rww.Valid()
    ensures rww.StatusCode == ForwardedStatus(backend)
    ensures rww.Body == old(rww.Body) + ForwardedBody(backend)
    ensures rww.inner.headers == old(rww.inner.headers) + [ForwardedStatus(backend)]
    ensures rww.inner.parts == old(rww.inner.parts) +
      (if ForwardedBody(backend) == [] then [] else [Raw(ForwardedBody(backend))])
    ensures aborted == CopyFails(rww.inner.failing, backend)
  {
    aborted := false;
    match backend {
      case NetErr =>
        rww.WriteHeader(StatusBadGateway);
      case Status(code, body) =>
        rww.WriteHeader(code);
        if body != [] {
          var _, copyErr := rww.Write(body);
          aborted := copyErr.Some?;
        }
    }
  }
}
