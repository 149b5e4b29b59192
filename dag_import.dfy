/** The DAG-import handler (proxy/dag_import.go). The backend's reply is a
    stream of messages: Root messages name the imported root CIDs, and the
    first Stats message gives one byte count that is recorded for every root
    seen so far. Any error before that message records nothing. */
module DagImport {
  import opened Http
  import opened Strconv
  import opened Store
  import opened Wrapper

  const StatsCannotBeFalse := "stats argument cannot be false"
  const OnlyStatsAllowed := "only stats argument is allowed"
  const NoRootCid := "no root CID in response"
  const DagImportSuffix := " (dag import)"

  /** RootMeta */
  datatype RootMeta = RootMeta(cid: map<string, string>, pinErrorMsg: string)

  /** CarImportStats */
  datatype CarImportStats = CarImportStats(blockCount: int64, blockBytesCount: int64)

  /** DAGImportResponseMessage: either field may be absent. */
  datatype DAGImportResponseMessage = DAGImportResponseMessage(root: Option<RootMeta>, stats: Option<CarImportStats>)

  /** The error returned when the backend's status is not 200. */
  function ProxyError(code: int): string {
    "Proxy error (code " + (if code < 0 then "-" + Itoa(-code) else Itoa(code)) + ")"
  }

  /** Stats(r): the flag is off when the key is absent or its first value is
      exactly "false", and on otherwise (an empty value turns it on). */
  function Stats(q: Query): (r: bool)
    ensures !r <==> "stats" !in q || (q["stats"] != [] && q["stats"][0] == "false")
  {
    if !Has(q, "stats") then false
    else if Get(q, "stats") == "false" then false
    else true
  }

  /** The query loop: only `stats` is allowed, and not with the value false.
      Keys are visited in no particular order, so with both faults present
      either message may come out. */
  method ValidateQuery(q: Query) returns (err: Option<string>)
    ensures err == None || err == Some(StatsCannotBeFalse) || err == Some(OnlyStatsAllowed)
    ensures err.None? <==> (forall k | k in q :: k == "stats") && ("stats" in q ==> Stats(q))
    ensures err.Some? && (forall k | k in q :: k == "stats") ==> err == Some(StatsCannotBeFalse)
    ensures err.Some? && ("stats" in q ==> Stats(q)) ==> err == Some(OnlyStatsAllowed)
  {
    var params := q.Keys;
    while params != {}
      invariant params <= q.Keys
      invariant forall k | k in q && k !in params :: k == "stats"
      invariant "stats" in q && "stats" !in params ==> Stats(q)
      decreases params
    {
      var param :| param in params;
      if param == "stats" {
        if Stats(q) {
          params := params - {param};
          continue;
        }
        return Some(StatsCannotBeFalse);
      } else {
        return Some(OnlyStatsAllowed);
      }
    }
    err := None;
  }

  /** The query sent to the backend: stats=true is added when absent. */
  function ForwardQuery(q: Query): Query {
    if !Stats(q) then q["stats" := ["true"]] else q
  }

  /** A valid query always reaches the backend with statistics turned on,
      and its other entries untouched. */
  lemma ForwardQueryRequestsStats(q: Query)
    requires (forall k | k in q :: k == "stats") && ("stats" in q ==> Stats(q))
    ensures Stats(ForwardQuery(q))
    ensures "stats" !in q ==> ForwardQuery(q) == map["stats" := ["true"]]
    ensures "stats" in q ==> ForwardQuery(q) == q
  {
    if "stats" !in q {
      assert q == map[];
    }
  }

  /** How the message loop ends. */
  datatype Fold =
    | Commit(cids: seq<Hash>, size: int64)   // a Stats message: record every root with this size
    | Abort(msg: string)                      // an error: nothing is recorded
    | Exhausted                               // end of stream with no Stats message: nothing is recorded

  /** The message loop, with the roots collected so far in `cids`. */
  function ImportFold(msgs: seq<DAGImportResponseMessage>, decodeError: bool, cids: seq<Hash>): Fold {
    if msgs == [] then (if decodeError then Abort(DecodeError) else Exhausted)
    else
      var m := msgs[0];
      if m.root.Some? && m.root.value.pinErrorMsg != "" then Abort(m.root.value.pinErrorMsg)
      else if m.root.Some? && "/" !in m.root.value.cid then Abort(NoRootCid)
      else
        var cids' := if m.root.Some? then cids + [m.root.value.cid["/"]] else cids;
        if m.stats.Some? then Commit(cids', m.stats.value.blockBytesCount)
        else ImportFold(msgs[1..], decodeError, cids')
  }

  /** The position of the first Stats message, or |msgs| if there is none. */
  function StatsIndex(msgs: seq<DAGImportResponseMessage>): (k: nat)
    ensures k <= |msgs|
    ensures k < |msgs| ==> msgs[k].stats.Some?
    ensures forall i | 0 <= i < k :: msgs[i].stats.None?
  {
    if msgs == [] then 0
    else if msgs[0].stats.Some? then 0
    else 1 + StatsIndex(msgs[1..])
  }

  /** A Root message, if present, carries a "/" CID and no pin error. */
  predicate RootOk(m: DAGImportResponseMessage) {
    m.root.Some? ==> m.root.value.pinErrorMsg == "" && "/" in m.root.value.cid
  }

  predicate RootsOk(msgs: seq<DAGImportResponseMessage>) {
    forall i | 0 <= i < |msgs| :: RootOk(msgs[i])
  }

  lemma RootsOkCons(msgs: seq<DAGImportResponseMessage>)
    requires msgs != []
    ensures RootsOk(msgs) <==> RootOk(msgs[0]) && RootsOk(msgs[1..])
  {
    if RootOk(msgs[0]) && RootsOk(msgs[1..]) {
      forall i | 0 < i < |msgs| ensures RootOk(msgs[i]) {
        assert msgs[i] == msgs[1..][i - 1];
      }
    }
  }

  /** The root CIDs of the messages, in arrival order. */
  function RootCids(msgs: seq<DAGImportResponseMessage>): seq<Hash>
    requires RootsOk(msgs)
  {
    if msgs == [] then []
    else
      RootsOkCons(msgs);
      (if msgs[0].root.Some? then [msgs[0].root.value.cid["/"]] else []) + RootCids(msgs[1..])
  }

  /** The loop records something exactly when a Stats message arrives and
      every Root message up to and including it is well formed; it then
      records all of their CIDs, in order, with that message's byte count. */
  lemma {:induction false} FoldCommits(msgs: seq<DAGImportResponseMessage>, decodeError: bool, cids: seq<Hash>)
    ensures ImportFold(msgs, decodeError, cids).Commit? <==>
      StatsIndex(msgs) < |msgs| && RootsOk(msgs[..StatsIndex(msgs) + 1])
    ensures ImportFold(msgs, decodeError, cids).Commit? ==>
      var k := StatsIndex(msgs);
      && RootsOk(msgs[..k + 1])
      && ImportFold(msgs, decodeError, cids).cids == cids + RootCids(msgs[..k + 1])
      && ImportFold(msgs, decodeError, cids).size == msgs[k].stats.value.blockBytesCount
  {
    if msgs != [] {
      var m := msgs[0];
      var k := StatsIndex(msgs);
      if k < |msgs| {
        var pre := msgs[..k + 1];
        assert pre[0] == m;
        RootsOkCons(pre);
        if !RootOk(m) {
        } else if m.stats.Some? {
          assert pre == [m];
        } else {
          var cids' := if m.root.Some? then cids + [m.root.value.cid["/"]] else cids;
          FoldCommits(msgs[1..], decodeError, cids');
          assert pre[1..] == msgs[1..][..k];
        }
      } else if RootOk(m) && m.stats.None? {
        var cids' := if m.root.Some? then cids + [m.root.value.cid["/"]] else cids;
        FoldCommits(msgs[1..], decodeError, cids');
      }
    }
  }

  /** Messages after the first Stats message, and a decode error after
      them, are never looked at. */
  lemma {:induction false} FoldStopsAtStats(msgs: seq<DAGImportResponseMessage>, rest: seq<DAGImportResponseMessage>,
                                            e1: bool, e2: bool, cids: seq<Hash>)
    requires StatsIndex(msgs) < |msgs|
    ensures ImportFold(msgs + rest, e2, cids) == ImportFold(msgs, e1, cids)
  {
    var m := msgs[0];
    assert (msgs + rest)[0] == m;
    if m.stats.None? {
      assert (msgs + rest)[1..] == msgs[1..] + rest;
      var cids' := if m.root.Some? && "/" in m.root.value.cid then cids + [m.root.value.cid["/"]] else cids;
      FoldStopsAtStats(msgs[1..], rest, e1, e2, cids');
    }
  }

  /** A Root message with a pin error that comes before any Stats message
      and after only well-formed roots aborts with that error. */
  lemma {:induction false} FoldPinError(msgs: seq<DAGImportResponseMessage>, decodeError: bool, cids: seq<Hash>, i: nat)
    requires i < |msgs| && i <= StatsIndex(msgs) && RootsOk(msgs[..i])
    requires msgs[i].root.Some? && msgs[i].root.value.pinErrorMsg != ""
    ensures ImportFold(msgs, decodeError, cids) == Abort(msgs[i].root.value.pinErrorMsg)
  {
    if i > 0 {
      var m := msgs[0];
      var pre := msgs[..i];
      assert pre[0] == m && pre[1..] == msgs[1..][..i - 1];
      RootsOkCons(pre);
      var cids' := if m.root.Some? then cids + [m.root.value.cid["/"]] else cids;
      FoldPinError(msgs[1..], decodeError, cids', i - 1);
    }
  }

  /** The record written for one imported root. */
  function ImportContent(user: User, cid: Hash, size: int64): Content {
    Content(user, 0, None, cid, cid + DagImportSuffix, size)
  }

  /** The db.Add calls for the collected roots, in order. */
  function UpsertAll(t: Table, user: User, cids: seq<Hash>, size: int64, now: Timestamp): Table {
    if cids == [] then t
    else Upsert(UpsertAll(t, user, cids[..|cids| - 1], size, now), ImportContent(user, cids[|cids| - 1], size), now)
  }

  /** The store after the loop has ended. */
  function Committed(t: Table, user: User, fold: Fold, now: Timestamp): Table {
    match fold
    case Commit(cids, size) => UpsertAll(t, user, cids, size, now)
    case _ => t
  }

  /** What the loop returns. */
  function FoldError(fold: Fold): Option<string> {
    if fold.Abort? then Some(fold.msg) else None
  }

  /** After an import every root is active for the importer, other users'
      holdings are unchanged, and rows that existed keep their created time,
      name and size. */
  lemma {:induction false} UpsertAllEffect(t: Table, user: User, cids: seq<Hash>, size: int64, now: Timestamp)
    ensures ActiveHashes(UpsertAll(t, user, cids, size, now), user) == ActiveHashes(t, user) + Elems(cids)
    ensures forall v | v != user :: ActiveHashes(UpsertAll(t, user, cids, size, now), v) == ActiveHashes(t, v)
    ensures t.Keys <= UpsertAll(t, user, cids, size, now).Keys
    ensures forall k | k in t :: var r := UpsertAll(t, user, cids, size, now)[k];
      r.created == t[k].created && r.name == t[k].name && r.size == t[k].size
  {
    if cids != [] {
      var init := cids[..|cids| - 1];
      var c := ImportContent(user, cids[|cids| - 1], size);
      UpsertAllEffect(t, user, init, size, now);
      UpsertEffect(UpsertAll(t, user, init, size, now), c, now);
      assert Elems(cids) == Elems(init) + {cids[|cids| - 1]} by {
        assert cids == init + [cids[|cids| - 1]];
      }
    }
  }

  /** A root that the importer did not hold before gets a new record named
      "<cid> (dag import)" with the import's byte count. */
  lemma {:induction false} UpsertAllNewRoot(t: Table, user: User, cids: seq<Hash>, size: int64, now: Timestamp, cid: Hash)
    requires cid in cids && (user, cid) !in t
    ensures (user, cid) in UpsertAll(t, user, cids, size, now)
    ensures var r := UpsertAll(t, user, cids, size, now)[(user, cid)];
      r.name == cid + DagImportSuffix && r.size == size && r.created == now && r.Active()
  {
    var init := cids[..|cids| - 1];
    var last := cids[|cids| - 1];
    var t1 := UpsertAll(t, user, init, size, now);
    if cid in init {
      UpsertAllNewRoot(t, user, init, size, now, cid);
    } else {
      assert cid == last by {
        assert cids == init + [last];
      }
      assert (user, cid) !in t1 by {
        if (user, cid) in t1 {
          UpsertAllKeys(t, user, init, size, now);
        }
      }
    }
  }

  lemma {:induction false} UpsertAllKeys(t: Table, user: User, cids: seq<Hash>, size: int64, now: Timestamp)
    ensures UpsertAll(t, user, cids, size, now).Keys == t.Keys + (set c | c in cids :: (user, c))
  {
    if cids != [] {
      var init := cids[..|cids| - 1];
      UpsertAllKeys(t, user, init, size, now);
      assert cids == init + [cids[|cids| - 1]];
      assert (set c | c in cids :: (user, c)) == (set c | c in init :: (user, c)) + {(user, cids[|cids| - 1])};
    }
  }

  /** Importing roots the importer already actively holds changes nothing:
      re-importing a file leaves its record exactly as it was. */
  lemma {:induction false} ReimportUnchanged(t: Table, user: User, cids: seq<Hash>, size: int64, now: Timestamp)
    requires forall c | c in cids :: (user, c) in t && t[(user, c)].Active()
    ensures UpsertAll(t, user, cids, size, now) == t
  {
    if cids != [] {
      var init := cids[..|cids| - 1];
      var last := cids[|cids| - 1];
      assert cids == init + [last];
      ReimportUnchanged(t, user, init, size, now);
      var k := (user, last);
      assert t[k := t[k].(removed := None)] == t;
    }
  }

  /** handleDAGImport. `backend` is the backend's reply and `decoded` what
      the JSON decoder reads from it. */
  method HandleDAGImport(db: DB, r: Request, w: ResponseSink, backend: BackendOutcome,
                         decoded: Decoded<DAGImportResponseMessage>, now: Timestamp)
    returns (err: Option<string>, forwarded: Option<Request>)
    requires db.Valid()
    modifies db, w
    ensures db.Valid()
    ensures r.user.None? ==>
      && err == Some(NoBasicAuth) && forwarded == None && db.rows == old(db.rows)
      && w.headers == old(w.headers) + [StatusUnauthorized] && w.parts == old(w.parts) + [ErrorText(NoBasicAuth)]
    ensures r.user.Some? && !((forall k | k in r.query :: k == "stats") && ("stats" in r.query ==> Stats(r.query))) ==>
      && forwarded == None && db.rows == old(db.rows)
      && err.Some? && (err.value == StatsCannotBeFalse || err.value == OnlyStatsAllowed)
      // with a single fault the message names it
      && ((forall k | k in r.query :: k == "stats") ==> err == Some(StatsCannotBeFalse))
      && (("stats" in r.query ==> Stats(r.query)) ==> err == Some(OnlyStatsAllowed))
      && w.headers == old(w.headers) + [StatusBadRequest] && w.parts == old(w.parts) + [ErrorText(err.value)]
    ensures r.user.Some? && (forall k | k in r.query :: k == "stats") && ("stats" in r.query ==> Stats(r.query)) ==>
      // the request goes out with stats on, and the client gets the backend's reply
      && forwarded == Some(Request(r.user, ForwardQuery(r.query)))
      && w.headers == old(w.headers) + [ForwardedStatus(backend)]
      && w.parts == old(w.parts) + (if ForwardedBody(backend) == [] then [] else [Raw(ForwardedBody(backend))])
      // what is recorded depends only on the backend's status and the messages
      // a reply that cannot be copied to the client aborts the handler
      && (CopyFails(w.failing, backend) ==> db.rows == old(db.rows) && err == Some(AbortHandler))
      && (!CopyFails(w.failing, backend) && ForwardedStatus(backend) != StatusOK ==>
           db.rows == old(db.rows) && err == Some(ProxyError(ForwardedStatus(backend))))
      && (!CopyFails(w.failing, backend) && ForwardedStatus(backend) == StatusOK ==>
           var fold := ImportFold(decoded.msgs, decoded.decodeError, []);
           db.rows == Committed(old(db.rows), r.user.value, fold, now) && err == FoldError(fold))
  {
    forwarded := None;
    if r.user.None? {
      err := Some(NoBasicAuth);
      w.Error(NoBasicAuth, StatusUnauthorized);
      return;
    }
    var user := r.user.value;

    err := ValidateQuery(r.query);
    if err.Some? {
      w.Error(err.value, StatusBadRequest);
      return;
    }

    var query := r.query;
    if !Stats(query) {
      query := query["stats" := ["true"]];
    }
    forwarded := Some(Request(r.user, query));

    var wrapper := new ResponseWriterWrapper(w);
    var aborted := Forward(wrapper, backend);
    if aborted {
      err := Some(AbortHandler);
      return;
    }

    var code := wrapper.StatusCode;
    if code != StatusOK {
      // logged unless it is a 502, which the proxy's error handler logs
      err := Some(ProxyError(code));
      return;
    }

    err := ImportMessages(db, user, decoded, now);
  }

  /** The decode loop of handleDAGImport (lines 106-179). */
  method ImportMessages(db: DB, user: User, decoded: Decoded<DAGImportResponseMessage>, now: Timestamp)
    returns (err: Option<string>)
    requires db.Valid()
    modifies db
    ensures db.Valid()
    ensures var fold := ImportFold(decoded.msgs, decoded.decodeError, []);
      db.rows == Committed(old(db.rows), user, fold, now) && err == FoldError(fold)
  {
    var msgs := decoded.msgs;
    ghost var fold := ImportFold(msgs, decoded.decodeError, []);
    var cids: seq<Hash> := [];
    var i := 0;
    while i < |msgs|
      invariant 0 <= i <= |msgs|
      invariant fold == ImportFold(msgs[i..], decoded.decodeError, cids)
      invariant db.Valid() && db.rows == old(db.rows)
      decreases |msgs| - i
    {
      var msg := msgs[i];
      assert msgs[i..][0] == msg && msgs[i..][1..] == msgs[i + 1..];
      if msg.root.Some? {
        if msg.root.value.pinErrorMsg != "" {
          return Some(msg.root.value.pinErrorMsg);
        }
        if "/" !in msg.root.value.cid {
          return Some(NoRootCid);
        }
        cids := cids + [msg.root.value.cid["/"]];
      }
      if msg.stats.Some? {
        // every root gets the total byte count of the whole import
        var size := msg.stats.value.blockBytesCount;
        for j := 0 to |cids|
          invariant db.Valid() && db.rows == UpsertAll(old(db.rows), user, cids[..j], size, now)
        {
          var hash := cids[j];
          var name := cids[j] + DagImportSuffix;
          db.Add(Content(user, 0, None, hash, name, size), now);
          assert cids[..j + 1][..j] == cids[..j];
        }
        assert cids[..|cids|] == cids;
        return None;
      }
      i := i + 1;
    }
    if decoded.decodeError {
      return Some(DecodeError);
    }
    err := None;
  }
}
