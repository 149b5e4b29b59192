# ipfs-user-mapping-proxy, modelled in Dafny

The proxy sits in front of an IPFS node's HTTP API and authenticates every
request with HTTP basic auth. It keeps a table that maps each user to the
content they uploaded. Uploads (`add`, `dag/import`) go to the node and are
recorded in the table. `pin/ls` is answered from the table alone. `pin/rm`
deactivates the caller's records. It then asks the node to unpin only the
hashes that no other user still holds.

The model has one module per source file:

- `Http` (http.dfy) holds the shared vocabulary:
  - requests, with an optional basic-auth user and a query map;
  - the backend's reply;
  - the decoder's output;
  - `ResponseSink`, a class that stands for the client connection. It records
    every status line and every body part written to it.
- `Strconv` (strconv.dfy) holds decimal formatting and Go's
  `strconv.ParseInt(s, 10, 64)`.
- `Store` (store.dfy) models the content table of db/db.go.
  - The table is a map from (user, hash) to a `Content` row.
  - The class `DB` holds that map and has one method per store operation.
  - The SQL of each operation is stated as a function: `Upsert`,
    `ActivePairs`, `ActiveHashes` and `Deactivate`.
- `Rebind` (rebind.dfy) models the rewriting of `?` placeholders into `$n`.
- `Wrapper` (wrapper.dfy) models `ResponseWriterWrapper`. It also models the
  reverse proxy streaming the backend's reply through it (`Forward`).
- `PinRm`, `PinLs`, `DagImport` and `Add` model the four handlers.
  - Each handler is a method over a `DB`, a `Request` and a `ResponseSink`.
  - The backend's reply and the current time are parameters.
  - Each handler returns the error the Go function returns.
  - `PinRm` also returns the `arg` list it sends to the backend, if it calls
    the backend at all.
  - `DagImport` and `Add` also return the request they forward, if any.
  - `PinLs` never calls the backend and returns only the error.

Map iteration in Go has no fixed order. Each loop over a Go map is therefore
a loop that picks any remaining key, and every contract holds for every
order. Where the order changes the outcome, the contract says so:
- which 400 message `dag/import` gives when its query has two faults;
- the order of the hashes in the 404 message of `pin/rm`.

Some behaviours of the code worth noting:

- `add` with an unknown query key answers 403 Forbidden, not 400.
- `DB.Add` on an existing (user, hash) row only clears `removed`.
  - It keeps the row's name, size and created time.
  - It does not refresh the label and size.
- `add` returns no error when the backend's status is not 200. The function
  returns the still-nil `err`.
- `dag/import` records nothing, and returns no error, when the stream ends
  before a Stats message.

## Model

| member | source | states |
|---|---|---|
| `Strconv.ItoaDecimalValue` | db/db.go:339 | the decimal text of n reads back as n |
| `Strconv.ItoaInjective` | db/db.go:339 | distinct placeholder numbers get distinct texts |
| `Strconv.ParseFormatRoundTrip` | proxy/add.go:113 | `ParseInt64` of a formatted 64-bit value gives that value back |
| `Strconv.ParseRejectsNonDigit` | proxy/add.go:113-120 | a size with a non-digit (a sign only at the front) is refused |
| `Strconv.ParseRejectsBareSign` | proxy/add.go:113-120 | the empty string and a lone `+` or `-` are refused as sizes |
| `Strconv.ParseSignedDigits` | proxy/add.go:113-120 | an optional sign and one or more digits parse to their signed value when it fits in 64 bits, and are refused when it does not |
| `Store.UpsertWellKeyed` | db/db.go:177-182 | an insert keeps every row stored under its own (user, hash) key |
| `Store.DeactivateWellKeyed` | db/db.go:282-290 | the removal update keeps every row under its own key |
| `Store.UpsertEffect` | db/db.go:177-182 | after an add the row is active, the user's active hashes gain exactly that hash, other users' are unchanged, and other rows are untouched |
| `Store.UpsertExisting` | db/db.go:180-181 | on conflict only `removed` is cleared: name, size and created time stay |
| `Store.UpsertNew` | db/db.go:178-179 | a new row carries the given name and size, created now, not removed |
| `Store.UpsertIdempotent` | db/db.go:177-182 | adding the same content twice equals adding it once |
| `Store.DeactivateEffect` | db/db.go:282-290 | only the user's active rows with the given hashes change, to `removed = now` with every other column kept; the user's active hashes lose exactly those; every other row is unchanged |
| `Store.RemoveThenAddRestores` | db/db.go:177-182 | removing an active pin and adding it again restores the original row |
| `Store.ActivePairsByUser` | db/db.go:226-232 | a (user, hash) pair is listed exactly when that user holds the requested hash actively |
| `Store.DB.constructor` | db/db.go:26-29 | a new store is empty and well keyed |
| `Store.DB.Add` | db/db.go:174-195 | the table becomes `Upsert(old table, content, now)` |
| `Store.DB.ListAll` | db/db.go:198-220 | returns every row exactly once |
| `Store.DB.ListActiveContentByHash` | db/db.go:223-248 | returns, without repeats, exactly the active (user, hash) pairs whose hash was asked for |
| `Store.DB.ListActiveContentByUser` | db/db.go:251-276 | returns, without repeats, exactly the user's active hashes |
| `Store.DB.RemoveContentByHashForUser` | db/db.go:279-303 | the table becomes `Deactivate(old table, user, hashes, now)` |
| `Rebind.Rebind` | db/db.go:319-369 | the output is the concatenation, position by position, of the input character or `$n` for the n-th top-level `?` |
| `Rebind.RewrittenPrefix` | db/db.go:332-366 | with no top-level `?` before position n, the first n characters are copied unchanged |
| `Rebind.NoPlaceholderIdentity` | db/db.go:319-369 | a query without top-level `?` is returned unchanged |
| `Rebind.NoQuestionMarkIdentity` | db/db.go:319-369 | a query without `?` is returned unchanged |
| `Rebind.RegionPersists` | db/db.go:352-363 | inside a string literal, quoted identifier or comment the scanner stays there until the closing character |
| `Rebind.MarkInStringLiteralKept` | db/db.go:349-355 | a `?` inside `'...'` is copied, not numbered |
| `Rebind.MarkInQuotedIdentifierKept` | db/db.go:347-359 | a `?` inside `"..."` is copied, not numbered |
| `Rebind.MarkInCommentKept` | db/db.go:343-363 | a `?` after `--` and before the next newline is copied, not numbered |
| `Rebind.NumberingIncreases` | db/db.go:337-341 | placeholders are numbered in strictly increasing order |
| `Rebind.NumberingComplete` | db/db.go:330-341 | every number from 1 to the count of placeholders is used |
| `Wrapper.ResponseWriterWrapper.constructor` | proxy/wrapper.go:14-16 | wraps the writer with status 200 and an empty body |
| `Wrapper.ResponseWriterWrapper.WriteHeader` | proxy/wrapper.go:18-21 | records the status and forwards it unchanged |
| `Wrapper.ResponseWriterWrapper.Write` | proxy/wrapper.go:23-26 | appends the chunk to the copy even if the downstream write fails, forwards it, and returns the downstream's result |
| `Wrapper.Forward` | proxy/dag_import.go:89-90 | after the reverse proxy ran, the wrapper's status is the backend's (502 if unreachable), its body is the backend's body, and the client got exactly those; the proxy aborts exactly when a non-empty body cannot be copied to a failing client |
| `PinRm.CollectArgs` | proxy/pin_rm.go:43-58 | succeeds exactly when every query key is `arg`, and then yields all `arg` values |
| `PinRm.SliceToSet` | proxy/pin_rm.go:162-168 | the set holds exactly the slice's elements |
| `PinRm.SetToSlice` | proxy/pin_rm.go:170-175 | the slice holds each element of the set exactly once |
| `PinRm.Reconcile` | proxy/pin_rm.go:68-87 | checkArgs is the requested hashes the caller does not hold; backendArgs those no other user holds |
| `PinRm.ReconcileMatchesTable` | proxy/pin_rm.go:72-87 | run on the store's answer, the loop yields the table-level sets that `Decide` uses |
| `PinRm.NotPinnedIff` | proxy/pin_rm.go:89-95 | 404 exactly when some requested hash is not actively held by the caller, and it names exactly those |
| `PinRm.ForwardExactlyOrphans` | proxy/pin_rm.go:97-117 | the backend is asked to unpin exactly the requested hashes that nobody holds after the removal |
| `PinRm.RemovalEffect` | proxy/pin_rm.go:97-103 | after a removal the caller holds none of the requested hashes, and others' holdings are unchanged |
| `PinRm.RemovePins` | proxy/pin_rm.go:68-154 | per `Decide`: 404 with the leftover hashes and no change; or deactivate and answer `{"Pins": ...}` locally; or deactivate, call the backend with exactly the orphaned hashes, and relay its error or answer the pins; on the last two paths the error is the encoder's or the copy's, which fails exactly when a non-empty answer meets a failing client |
| `PinRm.Respond` | proxy/pin_rm.go:105-154 | the backend is called exactly when some hash is left for it; a non-200 status and its body (nothing for an empty body) are relayed; otherwise (and when unreachable) the pins list is sent; the error is the encoder's or the copy's, which fails exactly when a non-empty answer meets a failing client |
| `PinRm.HandlePinRm` | proxy/pin_rm.go:31-155 | 401 without auth; 400 for a key other than `arg` or for no `arg`; otherwise as `RemovePins`, including its error |
| `PinRm.SharedPinStaysUpstream` | proxy/pin_rm_test.go:164-199 | when two users hold a hash and one removes it, the backend is not called and the other keeps it |
| `PinLs.BuildKeys` | proxy/pin_ls.go:61-66 | the Keys map has exactly the listed hashes, each mapped to `{"Type": "recursive"}` |
| `PinLs.HandlePinLs` | proxy/pin_ls.go:28-71 | 401 without auth; 400 for any query key; otherwise the caller's listing, with no store change, and the encoder's error, which is a write failure exactly when the client fails |
| `PinLs.ListingExact` | proxy/pin_ls.go:53-66 | a hash is listed exactly when the caller holds it actively |
| `PinLs.ListingEmpty` | proxy/pin_ls.go:53-66 | with no active record the listing is empty |
| `PinLs.ListingAfterUpsert` | proxy/pin_ls.go:53-66 | another user's upload leaves the caller's listing unchanged; the caller's own adds exactly its hash |
| `PinLs.ListingAfterRemove` | proxy/pin_ls.go:53-66 | removing pins takes exactly them out of the listing |
| `DagImport.Stats` | proxy/dag_import.go:182-192 | false exactly when `stats` is absent or its first value is `false` |
| `DagImport.ValidateQuery` | proxy/dag_import.go:58-80 | accepts exactly the queries whose only key is `stats` with a true value; a false `stats` alone gets `stats argument cannot be false`, a foreign key alone `only stats argument is allowed` |
| `DagImport.ForwardQueryRequestsStats` | proxy/dag_import.go:82-87 | a valid query reaches the backend with `stats` on, otherwise unchanged |
| `DagImport.StatsIndex` | proxy/dag_import.go:149 | the position of the first Stats message |
| `DagImport.FoldCommits` | proxy/dag_import.go:106-179 | the import records something exactly when a Stats message comes and all roots up to it are well formed; it then records all their CIDs, in order, with its byte count |
| `DagImport.FoldStopsAtStats` | proxy/dag_import.go:149-176 | messages and decode errors after the first Stats message are never looked at |
| `DagImport.FoldPinError` | proxy/dag_import.go:124-133 | a pin error before the first Stats message aborts the import with that message |
| `DagImport.UpsertAllEffect` | proxy/dag_import.go:153-175 | every imported root becomes active for the importer, others' holdings are unchanged, existing rows keep name, size and created time |
| `DagImport.UpsertAllNewRoot` | proxy/dag_import.go:155-163 | a root new to the importer is recorded as `<cid> (dag import)` with the import's byte count |
| `DagImport.UpsertAllKeys` | proxy/dag_import.go:155-163 | the import adds exactly the (importer, cid) keys |
| `DagImport.ReimportUnchanged` | proxy/dag_import_test.go:139-147 | importing roots the importer already actively holds leaves the table unchanged |
| `DagImport.ImportMessages` | proxy/dag_import.go:106-179 | the store becomes `Committed(old, user, ImportFold(messages))` and the error is the fold's |
| `DagImport.HandleDAGImport` | proxy/dag_import.go:46-180 | 401 without auth; 400 for a bad query, with the message naming the fault when there is only one; otherwise forwards with `stats` on and relays the reply; a body that cannot be copied to the client aborts the handler with `net/http: abort Handler` and records nothing (lines 89-90); otherwise on a non-200 status the error is `Proxy error (code N)` and nothing is recorded, and on 200 the import fold decides |
| `Add.WrapWithDirectory` | proxy/add.go:142-152 | false exactly when `wrap-with-directory` is absent or its first value is `false` |
| `Add.ValidateQuery` | proxy/add.go:46-59 | accepts exactly the queries whose keys are all `wrap-with-directory` |
| `Add.RecordFails` | proxy/add.go:97-120 | a 200 reply is refused exactly when it has no message or the last size is not a 64-bit decimal |
| `Add.RecordedSize` | proxy/add.go:111-127 | the record belongs to the caller, is active, names the last hash, and a size formatted from a 64-bit value is recorded as that value |
| `Add.RecordSources` | proxy/add.go:106-111 | hash and size come from the last message; the name does too unless wrapped, when it is the first message's name plus ` (wrapped)` |
| `Add.AddListsHash` | proxy/add.go:122-127 | a successful add makes exactly the uploaded hash active for the caller and changes no one else's holdings |
| `Add.HandleAdd` | proxy/add.go:34-140 | 401 without auth; 403 for another key; otherwise forwards unchanged and relays the reply; a body that cannot be copied to the client aborts the handler with `net/http: abort Handler` and records nothing (lines 61-62); otherwise on non-200 no error and no record; on 200 exactly one `Upsert`, or the decode, empty-reply or size error with no record |

## Left out

- JSON encoding and decoding are not modelled. Replies are typed parts
  (`PinsJson`, `KeysJson`, `Raw`, `ErrorText`). The decoder's output is a
  parameter: the decoded messages, and whether a decode error followed them.
- The texts of the decoder's and `strconv.ParseInt`'s own errors are
  stand-in constants. The texts the proxy writes itself are exact.
- The paths where the store fails (HTTP 500 and the returned store error)
  are not modelled. The table is in memory and its operations always succeed.
- Header copying is not modelled: the backend headers relayed by `pin/rm`,
  and the `Content-Type` header. URL rewriting to the backend's host is not
  modelled either. The forwarded request is returned as a value.
- Metrics (monkit), logging (zap) and request contexts are not modelled.
- Database opening, migrations and `Wrap`/`WithLog` are not modelled. So is
  everything in main.go.
- `NOW()` is the `now` parameter. Go's `time.Time` is a natural number.
- One handler call uses one clock value. In the source each `db.Add` of a
  DAG import evaluates its own `NOW()`, so roots imported in one request may
  get different created times. In the model they all get the same one.
- Concurrency between handlers is not modelled. Each handler call is
  modelled as running alone on the shared store.
- `Rebind.Rebind`: the model walks characters, not bytes. The two give the
  same text, because every character the scanner tests for is ASCII and no
  byte of a multi-byte UTF-8 sequence is.
- `Wrapper.Forward`: a body is modelled as one write. An empty body is not
  written. The reverse proxy's header copying and flushing are not modelled.
  When the body cannot be copied, Go's reverse proxy panics with
  `http.ErrAbortHandler`. The model has `Forward` report the abort and the
  handler return that error at once.
- `Http.ResponseSink.Write`: a failing client is all-or-nothing. Partial
  writes are not modelled.
