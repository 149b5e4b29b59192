/** The ownership table of db/db.go: one row per (username, hash), soft
    deleted through a nullable `removed` timestamp. The SQL engine is replaced
    by a map from the primary key to the row; NOW() is the `now` argument. */
module Store {
  import opened Http
  import opened Strconv

  type User = string
  type Hash = string
  type Timestamp = nat

  /** A content record (db.Content). */
  datatype Content = Content(
    user: User,
    created: Timestamp,
    removed: Option<Timestamp>,
    hash: Hash,
    name: string,
    size: int64)
  {
    predicate Active() {
      removed.None?
    }
  }

  /** The user and hash columns of a record (db.UserHashPair). */
  datatype UserHashPair = UserHashPair(user: User, hash: Hash)

  /** The primary key (username, hash). */
  type Key = (User, Hash)

  type Table = map<Key, Content>

  /** Every row sits under its own (user, hash) key, so there is at most one
      record per (user, hash). */
  ghost predicate WellKeyed(t: Table) {
    forall k | k in t :: t[k].user == k.0 && t[k].hash == k.1
  }

  /** INSERT ... ON CONFLICT (username, hash) DO UPDATE SET removed = NULL.
      The created time of the argument is ignored: a new row gets `now`. */
  function Upsert(t: Table, c: Content, now: Timestamp): Table {
    var k := (c.user, c.hash);
    if k in t then t[k := t[k].(removed := None)]
    else t[k := Content(c.user, now, None, c.hash, c.name, c.size)]
  }

  /** The (user, hash) pairs of the active rows whose keys are in `keys` and
      whose hash is in `hs`. */
  function ActivePairsIn(t: Table, keys: set<Key>, hs: set<Hash>): set<UserHashPair> {
    set k | k in keys && k in t && k.1 in hs && t[k].Active() :: UserHashPair(k.0, k.1)
  }

  /** SELECT username, hash FROM content WHERE hash = ANY(hs) AND removed IS NULL */
  function ActivePairs(t: Table, hs: set<Hash>): set<UserHashPair> {
    ActivePairsIn(t, t.Keys, hs)
  }

  function ActiveHashesIn(t: Table, keys: set<Key>, u: User): set<Hash> {
    set k | k in keys && k in t && k.0 == u && t[k].Active() :: k.1
  }

  /** SELECT hash FROM content WHERE username = u AND removed IS NULL */
  function ActiveHashes(t: Table, u: User): set<Hash> {
    ActiveHashesIn(t, t.Keys, u)
  }

  /** UPDATE content SET removed = NOW() WHERE username = u AND hash = ANY(hs)
      AND removed IS NULL */
  function Deactivate(t: Table, u: User, hs: set<Hash>, now: Timestamp): Table {
    map k | k in t :: if k.0 == u && k.1 in hs && t[k].Active() then t[k].(removed := Some(now)) else t[k]
  }

  /** The rows stored under the given keys. */
  function RowsOf(t: Table, keys: set<Key>): set<Content>
    requires keys <= t.Keys
  {
    set k | k in keys :: t[k]
  }

  lemma UpsertWellKeyed(t: Table, c: Content, now: Timestamp)
    requires WellKeyed(t)
    ensures WellKeyed(Upsert(t, c, now))
  {
  }

  lemma DeactivateWellKeyed(t: Table, u: User, hs: set<Hash>, now: Timestamp)
    requires WellKeyed(t)
    ensures WellKeyed(Deactivate(t, u, hs, now))
  {
  }

  /** Adding (u, h) makes h active for u; every other row is left as it was. */
  lemma UpsertEffect(t: Table, c: Content, now: Timestamp)
    ensures Upsert(t, c, now).Keys == t.Keys + {(c.user, c.hash)}
    ensures ActiveHashes(Upsert(t, c, now), c.user) == ActiveHashes(t, c.user) + {c.hash}
    ensures forall v | v != c.user :: ActiveHashes(Upsert(t, c, now), v) == ActiveHashes(t, v)
    ensures forall k | k in t && k != (c.user, c.hash) :: Upsert(t, c, now)[k] == t[k]
  {
    var t' := Upsert(t, c, now);
    assert ActiveHashes(t', c.user) == ActiveHashes(t, c.user) + {c.hash} by {
      forall h ensures h in ActiveHashes(t', c.user) <==> h in ActiveHashes(t, c.user) + {c.hash} {
        if h in ActiveHashes(t, c.user) {
          assert (c.user, h) in t';
        }
        if h == c.hash {
          assert (c.user, h) in t';
        }
      }
    }
    forall v | v != c.user ensures ActiveHashes(t', v) == ActiveHashes(t, v) {
      forall h ensures h in ActiveHashes(t', v) <==> h in ActiveHashes(t, v) {
        if h in ActiveHashes(t, v) {
          assert (v, h) in t';
        }
        if h in ActiveHashes(t', v) {
          assert (v, h) in t;
        }
      }
    }
  }

  /** A row that already exists only has its removal cleared: name, size and
      created time stay the first upload's. */
  lemma UpsertExisting(t: Table, c: Content, now: Timestamp)
    requires (c.user, c.hash) in t
    ensures var r := Upsert(t, c, now)[(c.user, c.hash)];
      var o := t[(c.user, c.hash)];
      r.Active() && r.created == o.created && r.name == o.name && r.size == o.size
  {
  }

  /** A missing row is inserted active, with the given name and size and
      created at `now`. */
  lemma UpsertNew(t: Table, c: Content, now: Timestamp)
    requires (c.user, c.hash) !in t
    ensures var r := Upsert(t, c, now)[(c.user, c.hash)];
      r.Active() && r.user == c.user && r.hash == c.hash && r.created == now
      && r.name == c.name && r.size == c.size
  {
  }

  /** Re-adding is idempotent: a second identical add changes nothing. */
  lemma UpsertIdempotent(t: Table, c: Content, now1: Timestamp, now2: Timestamp)
    ensures Upsert(Upsert(t, c, now1), c, now2) == Upsert(t, c, now1)
  {
    var t1 := Upsert(t, c, now1);
    var k := (c.user, c.hash);
    assert t1[k].removed == None;
    assert t1[k := t1[k].(removed := None)] == t1;
  }

  /** Deactivation stamps the user's active rows for the requested hashes
      with `now`, keeping their other columns, removes exactly those hashes
      from the user's active set and touches no other row. */
  lemma DeactivateEffect(t: Table, u: User, hs: set<Hash>, now: Timestamp)
    ensures Deactivate(t, u, hs, now).Keys == t.Keys
    ensures forall k | k in t && k.0 == u && k.1 in hs && t[k].Active() ::
      Deactivate(t, u, hs, now)[k] == t[k].(removed := Some(now))
    ensures ActiveHashes(Deactivate(t, u, hs, now), u) == ActiveHashes(t, u) - hs
    ensures forall v | v != u :: ActiveHashes(Deactivate(t, u, hs, now), v) == ActiveHashes(t, v)
    ensures forall k | k in t && (k.0 != u || k.1 !in hs || !t[k].Active()) ::
      Deactivate(t, u, hs, now)[k] == t[k]
  {
    var t' := Deactivate(t, u, hs, now);
    forall h ensures h in ActiveHashes(t', u) <==> h in ActiveHashes(t, u) - hs {
      if h in ActiveHashes(t, u) - hs {
        assert (u, h) in t';
      }
      if h in ActiveHashes(t', u) {
        assert (u, h) in t;
      }
    }
    forall v | v != u ensures ActiveHashes(t', v) == ActiveHashes(t, v) {
      forall h ensures h in ActiveHashes(t', v) <==> h in ActiveHashes(t, v) {
        if h in ActiveHashes(t, v) {
          assert (v, h) in t';
        }
        if h in ActiveHashes(t', v) {
          assert (v, h) in t;
        }
      }
    }
  }

  /** Removing an active pin and adding it again restores the table exactly,
      created time included. */
  lemma RemoveThenAddRestores(t: Table, c: Content, now1: Timestamp, now2: Timestamp)
    requires (c.user, c.hash) in t && t[(c.user, c.hash)].Active()
    ensures Upsert(Deactivate(t, c.user, {c.hash}, now1), c, now2) == t
  {
    var k := (c.user, c.hash);
    var t1 := Deactivate(t, c.user, {c.hash}, now1);
    var t2 := Upsert(t1, c, now2);
    assert t2.Keys == t.Keys;
    forall k' | k' in t ensures t2[k'] == t[k'] {
    }
  }

  /** The by-hash query and the by-user query agree: (u, h) is an active pair
      for the hash set exactly when h is requested and active for u. */
  lemma ActivePairsByUser(t: Table, hs: set<Hash>, u: User, h: Hash)
    ensures UserHashPair(u, h) in ActivePairs(t, hs) <==> h in hs && h in ActiveHashes(t, u)
  {
    if h in hs && h in ActiveHashes(t, u) {
      assert (u, h) in t;
    }
  }

  /** The table db.DB works on. */
  class DB {
    var rows: Table

    ghost predicate Valid()
      reads this
    {
      WellKeyed(rows)
    }

    constructor ()
      ensures Valid() && rows == map[]
    {
      rows := map[];
    }

    /** db.Add */
    method Add(content: Content, now: Timestamp)
      requires Valid()
      modifies this
      ensures Valid()
      ensures rows == Upsert(old(rows), content, now)
    {
      UpsertWellKeyed(rows, content, now);
      rows := Upsert(rows, content, now);
    }

    /** db.ListAll: every record, each once, in no particular order. */
    method ListAll() returns (result: seq<Content>)
      requires Valid()
      ensures Elems(result) == rows.Values
      ensures Distinct(result) && |result| == |rows|
    {
      result := [];
      var todo := rows.Keys;
      ghost var done: set<Key> := {};
      while todo != {}
        invariant todo !! done && todo + done == rows.Keys
        invariant Elems(result) == RowsOf(rows, done)
        invariant Distinct(result) && |result| == |done|
        invariant forall i | 0 <= i < |result| :: (result[i].user, result[i].hash) in done
        decreases todo
      {
        var k :| k in todo;
        assert rows[k].user == k.0 && rows[k].hash == k.1;
        assert forall i | 0 <= i < |result| :: result[i] != rows[k];
        assert RowsOf(rows, done + {k}) == RowsOf(rows, done) + {rows[k]};
        result := result + [rows[k]];
        todo, done := todo - {k}, done + {k};
      }
      assert |rows.Keys| == |rows|;
      assert RowsOf(rows, rows.Keys) == rows.Values by {
        forall c | c in rows.Values ensures c in RowsOf(rows, rows.Keys) {
          var k :| k in rows && rows[k] == c;
        }
      }
    }

    /** db.ListActiveContentByHash */
    method ListActiveContentByHash(hashes: seq<Hash>) returns (result: seq<UserHashPair>)
      ensures Elems(result) == ActivePairs(rows, Elems(hashes))
      ensures Distinct(result)
    {
      var hs := Elems(hashes);
      result := [];
      var todo := rows.Keys;
      ghost var done: set<Key> := {};
      while todo != {}
        invariant todo !! done && todo + done == rows.Keys
        invariant Elems(result) == ActivePairsIn(rows, done, hs)
        invariant Distinct(result)
        invariant forall i | 0 <= i < |result| :: (result[i].user, result[i].hash) in done
        decreases todo
      {
        var k :| k in todo;
        if k.1 in hs && rows[k].Active() {
          var p := UserHashPair(k.0, k.1);
          result := result + [p];
        }
        ghost var done' := done + {k};
        assert ActivePairsIn(rows, done', hs) ==
          ActivePairsIn(rows, done, hs) + (if k.1 in hs && rows[k].Active() then {UserHashPair(k.0, k.1)} else {});
        todo, done := todo - {k}, done';
      }
    }

    /** db.ListActiveContentByUser */
    method ListActiveContentByUser(user: User) returns (hashes: seq<Hash>)
      ensures Elems(hashes) == ActiveHashes(rows, user)
      ensures Distinct(hashes)
    {
      hashes := [];
      var todo := rows.Keys;
      ghost var done: set<Key> := {};
      while todo != {}
        invariant todo !! done && todo + done == rows.Keys
        invariant Elems(hashes) == ActiveHashesIn(rows, done, user)
        invariant Distinct(hashes)
        invariant forall i | 0 <= i < |hashes| :: (user, hashes[i]) in done
        decreases todo
      {
        var k :| k in todo;
        if k.0 == user && rows[k].Active() {
          hashes := hashes + [k.1];
        }
        ghost var done' := done + {k};
        assert ActiveHashesIn(rows, done', user) ==
          ActiveHashesIn(rows, done, user) + (if k.0 == user && rows[k].Active() then {k.1} else {});
        todo, done := todo - {k}, done';
      }
    }

    /** db.RemoveContentByHashForUser */
    method RemoveContentByHashForUser(user: User, hashes: seq<Hash>, now: Timestamp)
      requires Valid()
      modifies this
      ensures Valid()
      ensures rows == Deactivate(old(rows), user, Elems(hashes), now)
    {
      DeactivateWellKeyed(rows, user, Elems(hashes), now);
      rows := Deactivate(rows, user, Elems(hashes), now);
    }
  }
}
