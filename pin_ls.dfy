/** The pin-list handler (proxy/pin_ls.go): served from the ownership table
    alone, it lists the caller's active hashes in the backend's reply shape
    {"Keys": {<hash>: {"Type": "recursive"}, ...}}. */
module PinLs {
  import opened Http
  import opened Store

  const NoArgsAllowed := "no arguments are allowed"

  /** The Keys map the caller is sent for a table. */
  function Listing(t: Table, user: User): map<Hash, map<string, string>> {
    map h | h in ActiveHashes(t, user) :: RecursivePin
  }

  /** The loop filling `keys` from the store's hash list. */
  method BuildKeys(hashes: seq<Hash>) returns (keys: map<Hash, map<string, string>>)
    ensures keys.Keys == Elems(hashes)
    ensures forall h | h in keys :: keys[h] == RecursivePin
  {
    keys := map[];
    for i := 0 to |hashes|
      invariant keys.Keys == Elems(hashes[..i])
      invariant forall h | h in keys :: keys[h] == RecursivePin
    {
      assert hashes[..i + 1] == hashes[..i] + [hashes[i]];
      keys := keys[hashes[i] := RecursivePin];
    }
    assert hashes[..|hashes|] == hashes;
  }

  /** handlePinLs: no backend call is made, and the store is only read. */
  method HandlePinLs(db: DB, r: Request, w: ResponseSink) returns (err: Option<string>)
    modifies w
    ensures r.user.None? ==>
      err == Some(NoBasicAuth)
      && w.headers == old(w.headers) + [StatusUnauthorized] && w.parts == old(w.parts) + [ErrorText(NoBasicAuth)]
    ensures r.user.Some? && r.query != map[] ==>
      err == Some(NoArgsAllowed)
      && w.headers == old(w.headers) + [StatusBadRequest] && w.parts == old(w.parts) + [ErrorText(NoArgsAllowed)]
    ensures r.user.Some? && r.query == map[] ==>
      w.headers == old(w.headers) && w.parts == old(w.parts) + [KeysJson(Listing(db.rows, r.user.value))]
      && err == (if w.failing then Some(WriteFailed) else None)
  {
    if r.user.None? {
      err := Some(NoBasicAuth);
      w.Error(NoBasicAuth, StatusUnauthorized);
      return;
    }
    var user := r.user.value;

    // The Go loop over the query answers 400 on its first key, whichever it is.
    if r.query != map[] {
      err := Some(NoArgsAllowed);
      w.Error(NoArgsAllowed, StatusBadRequest);
      return;
    }

    var hashes := db.ListActiveContentByUser(user);
    var keys := BuildKeys(hashes);
    assert keys == Listing(db.rows, user);
    err := w.Encode(KeysJson(keys));
  }

  /** The listing holds a hash exactly when the caller holds it actively:
      removed rows and other users' rows are never listed. */
  lemma ListingExact(t: Table, user: User, h: Hash)
    ensures h in Listing(t, user) <==> (user, h) in t && t[(user, h)].Active()
  {
    if (user, h) in t && t[(user, h)].Active() {
      assert h in ActiveHashes(t, user);
    }
  }

  /** With no active record of the caller the listing is empty. */
  lemma ListingEmpty(t: Table, user: User)
    requires forall k | k in t && k.0 == user :: !t[k].Active()
    ensures Listing(t, user) == map[]
  {
    assert ActiveHashes(t, user) == {};
  }

  /** Another user's upload never changes the caller's listing, and one's own
      upload adds exactly its hash. */
  lemma ListingAfterUpsert(t: Table, c: Content, now: Timestamp, user: User)
    ensures user != c.user ==> Listing(Upsert(t, c, now), user) == Listing(t, user)
    ensures user == c.user ==> Listing(Upsert(t, c, now), user).Keys == Listing(t, user).Keys + {c.hash}
  {
    UpsertEffect(t, c, now);
  }

  /** Removing pins takes exactly them out of the caller's listing. */
  lemma ListingAfterRemove(t: Table, user: User, hs: set<Hash>, now: Timestamp)
    ensures Listing(Deactivate(t, user, hs, now), user).Keys == Listing(t, user).Keys - hs
  {
    DeactivateEffect(t, user, hs, now);
  }
}
