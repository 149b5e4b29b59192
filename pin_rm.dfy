/** The pin-remove handler (proxy/pin_rm.go). It checks that the caller
    actively holds every requested hash, deactivates the caller's records,
    and forwards to the backend only the hashes that no other user still
    holds. */
module PinRm {
  import opened Http
  import opened Store

  const OnlyArgAllowed := "only arg arguments are allowed"
  const ArgRequired := "argument \"ipfs-path\" is required"

  /** The text of the 404 reply, with the leftover hashes formatted as Go
      formats a []string with %s. */
  function NotPinnedMessage(left: seq<Hash>): string {
    "not pinned or pinned indirectly: [" + Join(left) + "]"
  }

  function Join(xs: seq<string>): string {
    if xs == [] then "" else if |xs| == 1 then xs[0] else xs[0] + " " + Join(xs[1..])
  }

  /** The `arg` values of a query, in order. */
  function ArgValues(q: Query): seq<string> {
    if "arg" in q then q["arg"] else []
  }

  /** The query loop: every `arg` value is collected and any other key is
      refused. Keys are visited in no particular order, as Go ranges over a
      map. */
  method CollectArgs(q: Query) returns (toRemove: seq<string>, ok: bool)
    ensures ok <==> forall k | k in q :: k == "arg"
    ensures ok ==> toRemove == ArgValues(q)
  {
    toRemove := [];
    var params := q.Keys;
    while params != {}
      invariant params <= q.Keys
      invariant forall k | k in q && k !in params :: k == "arg"
      invariant toRemove == if "arg" in q && "arg" !in params then q["arg"] else []
      decreases params
    {
      var param :| param in params;
      if param == "arg" {
        toRemove := toRemove + q[param];
        params := params - {param};
      } else {
        return toRemove, false;
      }
    }
    ok := true;
  }

  /** sliceToSet */
  method SliceToSet(slice: seq<string>) returns (s: set<string>)
    ensures forall x :: x in s <==> x in slice
  {
    s := {};
    for i := 0 to |slice|
      invariant s == Elems(slice[..i])
    {
      assert slice[..i + 1] == slice[..i] + [slice[i]];
      s := s + {slice[i]};
    }
    assert slice[..|slice|] == slice;
  }

  /** setToSlice: every element once, in no particular order. */
  method SetToSlice(s: set<string>) returns (slice: seq<string>)
    ensures Elems(slice) == s
    ensures Distinct(slice) && |slice| == |s|
  {
    slice := [];
    var todo := s;
    while todo != {}
      invariant todo <= s
      invariant Elems(slice) == s - todo
      invariant Distinct(slice) && |slice| == |s - todo|
      decreases todo
    {
      var item :| item in todo;
      assert Elems(slice + [item]) == Elems(slice) + {item};
      assert s - (todo - {item}) == (s - todo) + {item};
      slice := slice + [item];
      todo := todo - {item};
    }
  }

  /** The hashes the pairs give to `user`, and to anyone else. */
  function OwnHashes(user: User, pairs: seq<UserHashPair>): set<Hash> {
    set p | p in pairs && p.user == user :: p.hash
  }

  function OtherHashes(user: User, pairs: seq<UserHashPair>): set<Hash> {
    set p | p in pairs && p.user != user :: p.hash
  }

  /** The ownership loop over the active (user, hash) pairs: a pair of the
      caller confirms the hash (it leaves checkArgs); a pair of another user
      keeps the hash pinned upstream (it leaves backendArgs). */
  method Reconcile(user: User, toRemove: seq<Hash>, userHashes: seq<UserHashPair>)
    returns (checkArgs: set<Hash>, backendArgs: set<Hash>)
    ensures checkArgs == Elems(toRemove) - OwnHashes(user, userHashes)
    ensures backendArgs == Elems(toRemove) - OtherHashes(user, userHashes)
  {
    checkArgs := SliceToSet(toRemove);
    backendArgs := SliceToSet(toRemove);
    for i := 0 to |userHashes|
      invariant checkArgs == Elems(toRemove) - OwnHashes(user, userHashes[..i])
      invariant backendArgs == Elems(toRemove) - OtherHashes(user, userHashes[..i])
    {
      var userHash := userHashes[i];
      assert userHashes[..i + 1] == userHashes[..i] + [userHash];
      if userHash.user != user {
        assert OtherHashes(user, userHashes[..i + 1]) == OtherHashes(user, userHashes[..i]) + {userHash.hash};
        assert OwnHashes(user, userHashes[..i + 1]) == OwnHashes(user, userHashes[..i]);
        backendArgs := backendArgs - {userHash.hash};
        continue;
      }
      assert OwnHashes(user, userHashes[..i + 1]) == OwnHashes(user, userHashes[..i]) + {userHash.hash};
      assert OtherHashes(user, userHashes[..i + 1]) == OtherHashes(user, userHashes[..i]);
      checkArgs := checkArgs - {userHash.hash};
    }
    assert userHashes[..|userHashes|] == userHashes;
  }

  /** The hashes some user other than `user` actively holds. */
  function HeldByOthers(t: Table, user: User): set<Hash> {
    set k | k in t && k.0 != user && t[k].Active() :: k.1
  }

  /** The hashes anyone actively holds. */
  function HeldByAnyone(t: Table): set<Hash> {
    set k | k in t && t[k].Active() :: k.1
  }

  /** What the handler decides once the request is valid. */
  datatype Plan =
    | NotPinned(left: set<Hash>)     // 404, nothing changes
    | LocalOnly                      // deactivate, no backend call
    | Forward(args: set<Hash>)       // deactivate, then unpin `args` upstream

  function Decide(t: Table, user: User, req: set<Hash>): Plan {
    var left := req - ActiveHashes(t, user);
    var toBackend := req - HeldByOthers(t, user);
    if left != {} then NotPinned(left)
    else if toBackend == {} then LocalOnly
    else Forward(toBackend)
  }

  /** The ownership loop run on the store's answer computes the sets the plan
      is made of. */
  lemma ReconcileMatchesTable(t: Table, user: User, req: set<Hash>, pairs: seq<UserHashPair>)
    requires Elems(pairs) == ActivePairs(t, req)
    ensures req - OwnHashes(user, pairs) == req - ActiveHashes(t, user)
    ensures req - OtherHashes(user, pairs) == req - HeldByOthers(t, user)
  {
    forall h | h in req
      ensures h in OwnHashes(user, pairs) <==> h in ActiveHashes(t, user)
      ensures h in OtherHashes(user, pairs) <==> h in HeldByOthers(t, user)
    {
      ActivePairsByUser(t, req, user, h);
      if h in OwnHashes(user, pairs) {
        var p :| p in pairs && p.user == user && p.hash == h;
        assert p in Elems(pairs);
      }
      if h in ActiveHashes(t, user) {
        assert UserHashPair(user, h) in Elems(pairs);
      }
      if h in OtherHashes(user, pairs) {
        var p :| p in pairs && p.user != user && p.hash == h;
        assert p in Elems(pairs);
        assert (p.user, h) in t;
      }
      if h in HeldByOthers(t, user) {
        var k :| k in t && k.0 != user && t[k].Active() && k.1 == h;
        assert UserHashPair(k.0, k.1) in ActivePairs(t, req);
      }
    }
  }

  /** The request fails with 404 exactly when some requested hash is not
      actively held by the caller, and the 404 names exactly those hashes. */
  lemma NotPinnedIff(t: Table, user: User, req: set<Hash>)
    ensures Decide(t, user, req).NotPinned? <==> exists h :: h in req && h !in ActiveHashes(t, user)
    ensures Decide(t, user, req).NotPinned? ==>
      forall h :: h in Decide(t, user, req).left <==> h in req && h !in ActiveHashes(t, user)
  {
    if exists h :: h in req && h !in ActiveHashes(t, user) {
      var h :| h in req && h !in ActiveHashes(t, user);
      assert h in req - ActiveHashes(t, user);
    }
  }

  /** The backend is asked to unpin exactly the requested hashes that nobody
      holds any more once the caller's records are deactivated; every other
      requested hash stays held by someone. */
  lemma ForwardExactlyOrphans(t: Table, user: User, req: set<Hash>, now: Timestamp, h: Hash)
    requires !Decide(t, user, req).NotPinned? && h in req
    ensures var after := Deactivate(t, user, req, now);
      (Decide(t, user, req).Forward? && h in Decide(t, user, req).args) <==> h !in HeldByAnyone(after)
  {
    var after := Deactivate(t, user, req, now);
    if h in HeldByAnyone(after) {
      var k :| k in after && after[k].Active() && k.1 == h;
      assert k.0 != user;
      assert h in HeldByOthers(t, user);
    }
    if h in HeldByOthers(t, user) {
      var k :| k in t && k.0 != user && t[k].Active() && k.1 == h;
      assert after[k] == t[k];
      assert h in HeldByAnyone(after);
    } else {
      assert h in req - HeldByOthers(t, user);
    }
  }

  /** After a successful removal the caller holds none of the requested
      hashes and every other user's holdings are as they were. */
  lemma RemovalEffect(t: Table, user: User, req: set<Hash>, now: Timestamp)
    requires !Decide(t, user, req).NotPinned?
    ensures ActiveHashes(Deactivate(t, user, req, now), user) == ActiveHashes(t, user) - req
    ensures req !! ActiveHashes(Deactivate(t, user, req, now), user)
    ensures forall v | v != user :: ActiveHashes(Deactivate(t, user, req, now), v) == ActiveHashes(t, v)
  {
    DeactivateEffect(t, user, req, now);
  }

  /** What the client is sent once the store has been updated and the
      backend called: the backend's own error body when it answers with a
      status other than 200 (nothing when that body is empty, as io.Copy
      then writes nothing), the requested list otherwise (also when the
      backend cannot be reached). */
  function SuccessOrRelay(toRemove: seq<Hash>, backend: BackendOutcome): seq<Part> {
    if backend.Status? && backend.code != StatusOK then
      (if backend.body == [] then [] else [Raw(backend.body)])
    else [PinsJson(toRemove)]
  }

  /** The error of writing `parts` to the client: the encoder's or io.Copy's
      error when something is written to a failing connection. */
  function SendError(failing: bool, parts: seq<Part>): Option<string> {
    if failing && parts != [] then Some(WriteFailed) else None
  }

  /** The status line written for the relayed error, if any. */
  function RelayedStatus(backend: BackendOutcome): seq<int> {
    if backend.Status? && backend.code != StatusOK then [backend.code] else []
  }

  /** The part of handlePinRm after validation (lines 68-154): reconcile,
      then answer 404, or deactivate and maybe call the backend. */
  method RemovePins(db: DB, user: User, toRemove: seq<Hash>, w: ResponseSink, backend: BackendOutcome, now: Timestamp)
    returns (err: Option<string>, called: Option<seq<Hash>>)
    requires db.Valid() && toRemove != []
    modifies db, w
    ensures db.Valid()
    ensures match Decide(old(db.rows), user, Elems(toRemove))
      case NotPinned(left) =>
        && called == None && db.rows == old(db.rows)
        && w.headers == old(w.headers) + [StatusNotFound]
        && err.Some? && w.parts == old(w.parts) + [ErrorText(err.value)]
        && exists l :: Elems(l) == left && Distinct(l) && err.value == NotPinnedMessage(l)
      case LocalOnly =>
        && called == None
        && db.rows == Deactivate(old(db.rows), user, Elems(toRemove), now)
        && w.headers == old(w.headers) && w.parts == old(w.parts) + [PinsJson(toRemove)]
        && err == SendError(w.failing, [PinsJson(toRemove)])
      case Forward(args) =>
        && called.Some? && Elems(called.value) == args && Distinct(called.value)
        && db.rows == Deactivate(old(db.rows), user, Elems(toRemove), now)
        && w.headers == old(w.headers) + RelayedStatus(backend)
        && w.parts == old(w.parts) + SuccessOrRelay(toRemove, backend)
        && err == SendError(w.failing, SuccessOrRelay(toRemove, backend))
  {
    called := None;
    ghost var t := db.rows;
    ghost var req := Elems(toRemove);
    var userHashes := db.ListActiveContentByHash(toRemove);
    var checkArgs, backendArgs := Reconcile(user, toRemove, userHashes);
    ReconcileMatchesTable(t, user, req, userHashes);
    assert checkArgs == req - ActiveHashes(t, user);
    assert backendArgs == req - HeldByOthers(t, user);

    if |checkArgs| > 0 {
      var left := SetToSlice(checkArgs);
      err := Some(NotPinnedMessage(left));
      w.Error(err.value, StatusNotFound);
      assert Elems(left) == Decide(t, user, req).left;
      return;
    }

    db.RemoveContentByHashForUser(user, toRemove, now);
    err, called := Respond(w, toRemove, backendArgs, backend);
  }

  /** Lines 105-154: answer at once when no hash is left for the backend,
      otherwise call it with exactly those hashes and merge its answer. */
  method Respond(w: ResponseSink, toRemove: seq<Hash>, backendArgs: set<Hash>, backend: BackendOutcome)
    returns (err: Option<string>, called: Option<seq<Hash>>)
    modifies w
    ensures called.Some? <==> backendArgs != {}
    ensures called.Some? ==> Elems(called.value) == backendArgs && Distinct(called.value)
    ensures called.None? ==>
      && w.headers == old(w.headers) && w.parts == old(w.parts) + [PinsJson(toRemove)]
      && err == SendError(w.failing, [PinsJson(toRemove)])
    ensures called.Some? ==>
      && w.headers == old(w.headers) + RelayedStatus(backend)
      && w.parts == old(w.parts) + SuccessOrRelay(toRemove, backend)
      && err == SendError(w.failing, SuccessOrRelay(toRemove, backend))
  {
    called := None;
    if |backendArgs| == 0 {
      err := w.Encode(PinsJson(toRemove));
      return;
    }

    var args := SetToSlice(backendArgs);
    called := Some(args);
    match backend {
      case NetErr =>
        // logged; the local removal stands and the client gets a success
        err := w.Encode(PinsJson(toRemove));
      case Status(code, body) =>
        if code != StatusOK {
          w.WriteHeader(code);
          err := None;
          if body != [] {
            var _, copyErr := w.Write(body);
            err := copyErr;
          }
        } else {
          // the body is discarded; a failure to read it is only logged
          err := w.Encode(PinsJson(toRemove));
        }
    }
  }

  /** handlePinRm. `backend` is what the backend would answer if called;
      `called` is the list of `arg` values it is actually called with. */
  method HandlePinRm(db: DB, r: Request, w: ResponseSink, backend: BackendOutcome, now: Timestamp)
    returns (err: Option<string>, called: Option<seq<Hash>>)
    requires db.Valid()
    modifies db, w
    ensures db.Valid()
    // no basic auth: 401
    ensures r.user.None? ==>
      && err == Some(NoBasicAuth) && called == None && db.rows == old(db.rows)
      && w.headers == old(w.headers) + [StatusUnauthorized] && w.parts == old(w.parts) + [ErrorText(NoBasicAuth)]
    // a key other than arg: 400
    ensures r.user.Some? && (exists k :: k in r.query && k != "arg") ==>
      && err == Some(OnlyArgAllowed) && called == None && db.rows == old(db.rows)
      && w.headers == old(w.headers) + [StatusBadRequest] && w.parts == old(w.parts) + [ErrorText(OnlyArgAllowed)]
    // no arg values: 400
    ensures r.user.Some? && (forall k | k in r.query :: k == "arg") && ArgValues(r.query) == [] ==>
      && err == Some(ArgRequired) && called == None && db.rows == old(db.rows)
      && w.headers == old(w.headers) + [StatusBadRequest] && w.parts == old(w.parts) + [ErrorText(ArgRequired)]
    // a valid request: the store decides which hashes the backend unpins
    ensures r.user.Some? && (forall k | k in r.query :: k == "arg") && ArgValues(r.query) != [] ==>
      var user, toRemove := r.user.value, ArgValues(r.query);
      match Decide(old(db.rows), user, Elems(toRemove))
      case NotPinned(left) =>
        && called == None && db.rows == old(db.rows)
        && w.headers == old(w.headers) + [StatusNotFound]
        && err.Some? && w.parts == old(w.parts) + [ErrorText(err.value)]
        && exists l :: Elems(l) == left && Distinct(l) && err.value == NotPinnedMessage(l)
      case LocalOnly =>
        && called == None
        && db.rows == Deactivate(old(db.rows), user, Elems(toRemove), now)
        && w.headers == old(w.headers) && w.parts == old(w.parts) + [PinsJson(toRemove)]
        && err == SendError(w.failing, [PinsJson(toRemove)])
      case Forward(args) =>
        && called.Some? && Elems(called.value) == args && Distinct(called.value)
        && db.rows == Deactivate(old(db.rows), user, Elems(toRemove), now)
        && w.headers == old(w.headers) + RelayedStatus(backend)
        && w.parts == old(w.parts) + SuccessOrRelay(toRemove, backend)
        && err == SendError(w.failing, SuccessOrRelay(toRemove, backend))
  {
    called := None;
    if r.user.None? {
      err := Some(NoBasicAuth);
      w.Error(NoBasicAuth, StatusUnauthorized);
      return;
    }
    var user := r.user.value;

    var toRemove, ok := CollectArgs(r.query);
    if !ok {
      err := Some(OnlyArgAllowed);
      w.Error(OnlyArgAllowed, StatusBadRequest);
      return;
    }

    if |toRemove| == 0 {
      err := Some(ArgRequired);
      w.Error(ArgRequired, StatusBadRequest);
      return;
    }

    err, called := RemovePins(db, user, toRemove, w, backend, now);
  }

  /** Two users hold pin-hash-1; when one of them removes it the backend is
      not called and the other keeps it. */
  lemma SharedPinStaysUpstream(t: Table, c1: Content, c2: Content)
    requires c1.user == "john" && c2.user == "shawn" && c1.hash == "pin-hash-1" == c2.hash
    requires c1.Active() && c2.Active()
    requires t == map[(c1.user, c1.hash) := c1, (c2.user, c2.hash) := c2]
    ensures Decide(t, "john", {"pin-hash-1"}) == LocalOnly
    ensures "pin-hash-1" in ActiveHashes(Deactivate(t, "john", {"pin-hash-1"}, 7), "shawn")
  {
    assert "pin-hash-1" in ActiveHashes(t, "john") by {
      assert ("john", "pin-hash-1") in t;
    }
    assert "pin-hash-1" in HeldByOthers(t, "john") by {
      assert ("shawn", "pin-hash-1") in t;
    }
    assert ("shawn", "pin-hash-1") in Deactivate(t, "john", {"pin-hash-1"}, 7);
  }
}
