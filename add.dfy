/** The add handler (proxy/add.go). The request goes to the backend as it
    came; when the backend answers 200, the last message of its reply names
    the uploaded root, and one record is written for it. */
module Add {
  import opened Http
  import opened Strconv
  import opened Store
  import opened Wrapper

  const OnlyWrapAllowed := "only wrap-with-directory argument is allowed"
  const NoResponseMessage := "no response message"
  /** Stands for strconv.ParseInt's own error text. */
  const SizeParseError := "Size parse error"
  const WrappedSuffix := " (wrapped)"

  /** AddResponseMessage: the size arrives as a decimal string. */
  datatype AddResponseMessage = AddResponseMessage(name: string, hash: string, size: string)

  /** WrapWithDirectory(r): off when the key is absent or its first value is
      exactly "false", on otherwise. */
  function WrapWithDirectory(q: Query): (r: bool)
    ensures !r <==> ("wrap-with-directory" !in q ||
                     (q["wrap-with-directory"] != [] && q["wrap-with-directory"][0] == "false"))
  {
    if !Has(q, "wrap-with-directory") then false
    else if Get(q, "wrap-with-directory") == "false" then false
    else true
  }

  /** The query loop: any key but wrap-with-directory is refused. */
  method ValidateQuery(q: Query) returns (err: Option<string>)
    ensures err.None? <==> forall k | k in q :: k == "wrap-with-directory"
    ensures err.Some? ==> err == Some(OnlyWrapAllowed)
  {
    var params := q.Keys;
    while params != {}
      invariant params <= q.Keys
      invariant forall k | k in q && k !in params :: k == "wrap-with-directory"
      decreases params
    {
      var param :| param in params;
      if param == "wrap-with-directory" {
        params := params - {param};
        continue;
      }
      return Some(OnlyWrapAllowed);
    }
    err := None;
  }

  /** The record made from the decoded messages (lines 97-127). */
  function Record(user: User, msgs: seq<AddResponseMessage>, wrap: bool): Result<Content> {
    if msgs == [] then Err(NoResponseMessage)
    else
      var last := msgs[|msgs| - 1];
      var name := if wrap then msgs[0].name + WrappedSuffix else last.name;
      match ParseInt64(last.size)
      case None => Err(SizeParseError)
      case Some(size) => Ok(Content(user, 0, None, last.hash, name, size))
  }

  /** The whole outcome of a 200 reply: a decode error anywhere discards
      the messages before it. */
  function Outcome(user: User, decoded: Decoded<AddResponseMessage>, wrap: bool): Result<Content> {
    if decoded.decodeError then Err(DecodeError) else Record(user, decoded.msgs, wrap)
  }

  /** A reply is refused exactly when it has no message or its last size is
      not a 64-bit decimal. */
  lemma RecordFails(user: User, msgs: seq<AddResponseMessage>, wrap: bool)
    ensures Record(user, msgs, wrap).Err? <==> msgs == [] || ParseInt64(msgs[|msgs| - 1].size).None?
    ensures msgs == [] ==> Record(user, msgs, wrap) == Err(NoResponseMessage)
  {
  }

  /** The recorded size is the backend's size read back: a size the backend
      formatted from a 64-bit value is recorded as that value, and the
      record belongs to the caller, is active, and names the last hash. */
  lemma RecordedSize(user: User, msgs: seq<AddResponseMessage>, wrap: bool, n: int64)
    requires msgs != [] && msgs[|msgs| - 1].size == FormatInt(n)
    ensures Record(user, msgs, wrap).Ok?
    ensures var c := Record(user, msgs, wrap).value;
      c.size == n && c.user == user && c.hash == msgs[|msgs| - 1].hash && c.Active()
  {
    ParseFormatRoundTrip(n);
  }

  /** Hash and size come from the last message alone; so does the name
      unless the upload is wrapped, when it comes from the first message,
      the file inside the directory. */
  lemma RecordSources(user: User, msgs: seq<AddResponseMessage>)
    requires msgs != []
    ensures Record(user, msgs, false) == Record(user, [msgs[|msgs| - 1]], false)
    ensures Record(user, msgs, true).Ok? ==>
      Record(user, msgs, true).value ==
        Record(user, [msgs[|msgs| - 1]], false).value.(name := msgs[0].name + WrappedSuffix)
  {
  }

  /** A successful add makes exactly the uploaded hash active for the caller
      and changes no other caller's holdings. */
  lemma AddListsHash(t: Table, user: User, msgs: seq<AddResponseMessage>, wrap: bool, now: Timestamp)
    requires Record(user, msgs, wrap).Ok?
    ensures var t' := Upsert(t, Record(user, msgs, wrap).value, now);
      && ActiveHashes(t', user) == ActiveHashes(t, user) + {msgs[|msgs| - 1].hash}
      && forall v | v != user :: ActiveHashes(t', v) == ActiveHashes(t, v)
  {
    UpsertEffect(t, Record(user, msgs, wrap).value, now);
  }

  /** handleAdd. `backend` is the backend's reply and `decoded` what the
      JSON decoder reads from it. */
  method HandleAdd(db: DB, r: Request, w: ResponseSink, backend: BackendOutcome,
                   decoded: Decoded<AddResponseMessage>, now: Timestamp)
    returns (err: Option<string>, forwarded: Option<Request>)
    requires db.Valid()
    modifies db, w
    ensures db.Valid()
    ensures r.user.None? ==>
      && err == Some(NoBasicAuth) && forwarded == None && db.rows == old(db.rows)
      && w.headers == old(w.headers) + [StatusUnauthorized] && w.parts == old(w.parts) + [ErrorText(NoBasicAuth)]
    ensures r.user.Some? && !(forall k | k in r.query :: k == "wrap-with-directory") ==>
      && err == Some(OnlyWrapAllowed) && forwarded == None && db.rows == old(db.rows)
      && w.headers == old(w.headers) + [StatusForbidden] && w.parts == old(w.parts) + [ErrorText(OnlyWrapAllowed)]
    ensures r.user.Some? && (forall k | k in r.query :: k == "wrap-with-directory") ==>
      // the request goes out untouched, and the client gets the backend's reply
      && forwarded == Some(r)
      && w.headers == old(w.headers) + [ForwardedStatus(backend)]
      && w.parts == old(w.parts) + (if ForwardedBody(backend) == [] then [] else [Raw(ForwardedBody(backend))])
      // a reply that cannot be copied to the client aborts the handler
      && (CopyFails(w.failing, backend) ==> db.rows == old(db.rows) && err == Some(AbortHandler))
      // a failed upload is not an error of the handler and records nothing
      && (!CopyFails(w.failing, backend) && ForwardedStatus(backend) != StatusOK ==>
           db.rows == old(db.rows) && err == None)
      && (!CopyFails(w.failing, backend) && ForwardedStatus(backend) == StatusOK ==>
           match Outcome(r.user.value, decoded, WrapWithDirectory(r.query))
           case Ok(c) => db.rows == Upsert(old(db.rows), c, now) && err == None
           case Err(m) => db.rows == old(db.rows) && err == Some(m))
  {
    forwarded := None;
    if r.user.None? {
      err := Some(NoBasicAuth);
      w.Error(NoBasicAuth, StatusUnauthorized);
      return;
    }
    var user := r.user.value;

    err := ValidateQuery(r.query);
    if err.Some? {
      w.Error(OnlyWrapAllowed, StatusForbidden);
      return;
    }

    forwarded := Some(r);
    var wrapper := new ResponseWriterWrapper(w);
    var aborted := Forward(wrapper, backend);
    if aborted {
      err := Some(AbortHandler);
      return;
    }

    var code := wrapper.StatusCode;
    if code != StatusOK {
      // logged unless it is a 502, which the proxy's error handler logs
      return;
    }

    var messages: seq<AddResponseMessage> := [];
    for i := 0 to |decoded.msgs|
      invariant messages == decoded.msgs[..i]
    {
      messages := messages + [decoded.msgs[i]];
    }
    assert decoded.msgs[..|decoded.msgs|] == decoded.msgs;
    if decoded.decodeError {
      err := Some(DecodeError);
      return;
    }

    if |messages| == 0 {
      err := Some(NoResponseMessage);
      return;
    }

    var last := messages[|messages| - 1];
    var name := last.name;
    if WrapWithDirectory(r.query) {
      name := messages[0].name + WrappedSuffix;
    }
    var hash := last.hash;

    var size := ParseInt64(last.size);
    if size.None? {
      err := Some(SizeParseError);
      return;
    }

    db.Add(Content(user, 0, None, hash, name, size.value), now);
  }
}
