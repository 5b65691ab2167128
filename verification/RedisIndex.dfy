/** The agreement between the session keys and the per-user sets, and how listings and sweeps relate to it. */
module RedisIndex {
  import opened Wrappers
  import opened Sessions
  import opened RedisSpec

  /** Every session is stored under its own key, names its user, and has a deadline if it expires. */
  ghost predicate WellKeyed(p: string, db: Db) {
    forall k :: k in db.keys ==>
      && db.keys[k].body.id.Some?
      && k == SessionKey(p, db.keys[k].body.id.value) && Bounded(db.keys[k])
  }

  /** Nothing appears or changes; what goes is gone for readers anyway. */
  ghost predicate Purged(before: map<string, Entry>, after: map<string, Entry>, now: int) {
    && (forall k :: k in after ==> k in before && after[k] == before[k])
    && (forall k :: k in before && k !in after ==> !Live(before[k], now))
  }

  /** Only the sessions of the given identifiers have gone. */
  ghost predicate OnlyThese(p: string, before: map<string, Entry>, after: map<string, Entry>, ids: set<string>) {
    forall k :: k in before && k !in after ==> exists id :: id in ids && k == SessionKey(p, id)
  }

  /** The bodies stored under a list of identifiers. */
  ghost predicate BodiesOf(p: string, keys: map<string, Entry>, ids: seq<string>, sessions: seq<Session>) {
    |sessions| == |ids| && forall i :: 0 <= i < |ids| ==> SessionKey(p, ids[i]) in keys && sessions[i] == keys[SessionKey(p, ids[i])].body
  }

  /** Of the candidates, only those readable at the start; and, unless a GET was lost, all those readable at the end. */
  ghost predicate Between(p: string, keys: map<string, Entry>, candidates: set<string>, ids: seq<string>, start: int, end: int,
                          complete: bool) {
    && (forall id :: id in ids ==> id in candidates && SessionKey(p, id) in keys && Live(keys[SessionKey(p, id)], start))
    && (complete ==> forall id :: id in candidates && SessionKey(p, id) in keys && Live(keys[SessionKey(p, id)], end) ==> id in ids)
  }

  lemma PatienceDrops(c: Clock, e: Entry, pos: nat)
    requires Ticking(c) && Bounded(e) && Alive(e, c(pos)) && Expired(e.body, c(pos + 1) / 1000)
    ensures Patience(c, e, pos + 2) < Patience(c, e, pos)
  {
  }

  ghost function RunOf(c: Clock, up: Line, p: string, db: Db, id: string, pos: nat): (r: GetRun)
    requires Ticking(c) && WellKeyed(p, db)
    ensures r.end > pos
  {
    var k := SessionKey(p, id);
    RunGet(c, up, if k in db.keys then Some(db.keys[k]) else None, pos)
  }

  /** What one run of the recursion tells about its entry. */
  lemma {:induction false} RunReads(c: Clock, up: Line, e: Entry, pos: nat)
    requires Ticking(c) && Bounded(e)
    ensures var r := RunGet(c, up, Some(e), pos);
            && (r.found ==> Live(e, c(pos)) && up(pos) && r.end == pos + 2 && !r.removed)
            && (r.removed ==> !Live(e, c(r.end)))
            && (!r.found && up(pos) ==> !Live(e, c(r.end)))
            && (Expired(e.body, c(pos) / 1000) ==> !r.found)
    decreases Patience(c, e, pos)
  {
    var r := RunGet(c, up, Some(e), pos);
    assert c(pos) <= c(pos + 1) <= c(pos + 2) <= c(r.end + 2) && c(pos) <= c(r.end) && c(pos + 1) <= c(r.end);
    if up(pos) && Alive(e, c(pos)) && Expired(e.body, c(pos + 1) / 1000) {
      RunReads(c, up, e, pos + 2);
    }
  }

  /** What one get tells about its key. */
  lemma GetReads(p: string, c: Clock, up: Line, db: Db, id: string, pos: nat)
    requires Ticking(c) && WellKeyed(p, db)
    ensures var r := RunOf(c, up, p, db, id, pos);
            var (db', got) := GetDb(p, db, id, r);
            var k := SessionKey(p, id);
            && Purged(db.keys, db'.keys, c(r.end)) && db'.sets == db.sets
            && (forall l :: l in db.keys && l != k ==> l in db'.keys)
            && (got.Some? <==> r.found)
            && (got.Some? ==> k in db.keys && got.value == db.keys[k].body && Live(db.keys[k], c(pos)) && up(pos)
                              && r.end == pos + 2 && !r.removed)
            && (got.None? && up(pos) && k in db.keys ==> !Live(db.keys[k], c(r.end)))
  {
    var k := SessionKey(p, id);
    hide SessionKey, RunGet, Ticking;
    if k in db.keys {
      RunReads(c, up, db.keys[k], pos);
    } else {
      AbsentRun(c, up, pos);
    }
  }

  /** One level of the recursion. */
  lemma RunStep(c: Clock, up: Line, p: string, db: Db, id: string, pos: nat)
    requires Ticking(c) && WellKeyed(p, db)
    ensures var r, k := RunOf(c, up, p, db, id, pos), SessionKey(p, id);
            if !up(pos) || k !in db.keys || !Alive(db.keys[k], c(pos)) then r == GetRun(false, false, 1, pos + 1)
            else if !Expired(db.keys[k].body, c(pos + 1) / 1000) then r == GetRun(true, false, 1, pos + 2)
            else
              var d := RunOf(c, up, p, db, id, pos + 2);
              !d.found && r == GetRun(false, d.removed || up(d.end), 1 + d.gets, d.end + 1)
  {
    var k := SessionKey(p, id);
    hide SessionKey;
    assert c(pos + 1) <= c(pos + 2);
    if k in db.keys {
      RunReads(c, up, db.keys[k], pos + 2);
    }
  }

  lemma PlainGet(p: string, db: Db, id: string, r: GetRun)
    ensures !r.removed && !r.found ==> GetDb(p, db, id, r) == (db, None)
    ensures !r.removed && r.found && SessionKey(p, id) in db.keys ==>
              GetDb(p, db, id, r) == (db, Some(db.keys[SessionKey(p, id)].body))
  {
  }

  /** A delete whose own get finds nothing is no more than one more chance to remove the key. */
  lemma NestedDelete(p: string, db: Db, id: string, d: GetRun, del: bool, rem: bool, n: nat, e: nat)
    requires !d.found
    ensures (DeleteDb(p, db, id, d, del, rem), None) == GetDb(p, db, id, GetRun(false, d.removed || del, n, e))
  {
    var k := SessionKey(p, id);
    assert db.keys - {k} - {k} == db.keys - {k};
  }

  lemma BoundedAt(p: string, db: Db, k: string)
    requires WellKeyed(p, db) && k in db.keys
    ensures Bounded(db.keys[k])
  {
  }

  lemma AbsentRun(c: Clock, up: Line, pos: nat)
    requires Ticking(c)
    ensures RunGet(c, up, None, pos) == GetRun(false, false, 1, pos + 1)
  {
  }

  lemma PurgedOn(a: map<string, Entry>, b: map<string, Entry>, c: map<string, Entry>, t: int, u: int)
    requires t <= u && Purged(a, b, t) && Purged(b, c, u)
    ensures Purged(a, c, u)
  {
    forall k | k in a && k !in c ensures !Live(a[k], u) {
      LiveBefore(a[k], t, u);
    }
  }

  /** A listing so far: which members were found, what their bodies are, and what was purged on the way. */
  ghost predicate Listed(p: string, before: map<string, Entry>, after: map<string, Entry>, candidates: set<string>,
                         ids: seq<string>, sessions: seq<Session>, start: int, end: int, complete: bool) {
    Purged(before, after, end) && Distinct(ids) && BodiesOf(p, before, ids, sessions)
    && Between(p, before, candidates, ids, start, end, complete) && OnlyThese(p, before, after, candidates)
  }

  lemma ListStep(p: string, c: Clock, up: Line, before: map<string, Entry>, db: Db, candidates: set<string>,
                 ids: seq<string>, sessions: seq<Session>, start: int, pos: nat, id: string, complete: bool)
    requires Ticking(c) && WellKeyed(p, db) && start <= c(pos)
    requires Listed(p, before, db.keys, candidates, ids, sessions, start, c(pos), complete) && id !in candidates
    ensures var r := RunOf(c, up, p, db, id, pos);
            var (db', got) := GetDb(p, db, id, r);
            var f := got.Some?;
            db'.sets == db.sets
            && Listed(p, before, db'.keys, candidates + {id}, if f then ids + [id] else ids,
                      if f then sessions + [got.value] else sessions, start, c(r.end), complete && up(pos))
  {
    var r := RunOf(c, up, p, db, id, pos);
    var (db', got) := GetDb(p, db, id, r);
    GetReads(p, c, up, db, id, pos);
    Forward(c, pos, r.end);
    hide GetDb, Live, SessionKey, RunOf, Ticking, WellKeyed;
    PurgedOn(before, db.keys, db'.keys, c(pos), c(r.end));
    forall x | x in candidates && SessionKey(p, x) in before && Live(before[SessionKey(p, x)], c(r.end))
      ensures Live(before[SessionKey(p, x)], c(pos)) {
      LiveBefore(before[SessionKey(p, x)], c(pos), c(r.end));
    }
    LiveBeforeKey(before, SessionKey(p, id), start, c(pos));
  }

  lemma LiveBeforeKey(keys: map<string, Entry>, k: string, t: int, u: int)
    requires t <= u
    ensures k in keys && Live(keys[k], u) ==> Live(keys[k], t)
  {
  }

  /** A listing that missed a GET is still one, of which less is known. */
  lemma ListingLater(p: string, before: map<string, Entry>, after: map<string, Entry>, candidates: set<string>,
                     ids: seq<string>, sessions: seq<Session>, start: int, end: int, complete: bool, less: bool)
    requires Listed(p, before, after, candidates, ids, sessions, start, end, complete) && (less ==> complete)
    ensures Listed(p, before, after, candidates, ids, sessions, start, end, less)
  {
  }

  lemma NothingListed(p: string, keys: map<string, Entry>, start: int, now: int, complete: bool)
    ensures Listed(p, keys, keys, {}, [], [], start, now, complete)
  {
  }

  lemma ListingIs(p: string, before: map<string, Entry>, after: map<string, Entry>, candidates: set<string>,
                  ids: seq<string>, sessions: seq<Session>, start: int, end: int, complete: bool)
    requires Listed(p, before, after, candidates, ids, sessions, start, end, complete)
    ensures Purged(before, after, end) && Distinct(ids) && BodiesOf(p, before, ids, sessions)
    ensures Between(p, before, candidates, ids, start, end, complete) && OnlyThese(p, before, after, candidates)
  {
  }

  /** Apart from one user's set, only sessions and index entries of the given identifiers have gone. */
  ghost predicate Shrunk(p: string, before: Db, after: Db, ids: set<string>, own: string) {
    && (forall k :: k in after.keys ==> k in before.keys && after.keys[k] == before.keys[k])
    && OnlyThese(p, before.keys, after.keys, ids)
    && (forall k :: k != own ==> Members(after, k) <= Members(before, k) && Members(before, k) - Members(after, k) <= ids)
  }

  lemma DeleteShrinks(p: string, before: Db, db: Db, ids: set<string>, own: string, id: string, r: GetRun, del: bool, rem: bool)
    requires Shrunk(p, before, db, ids, own) && id in ids
    ensures Shrunk(p, before, DeleteDb(p, db, id, r, del, rem), ids, own)
    ensures del ==> SessionKey(p, id) !in DeleteDb(p, db, id, r, del, rem).keys
    ensures forall k :: k !in db.keys ==> k !in DeleteDb(p, db, id, r, del, rem).keys
  {
    hide SessionKey;
    var db' := DeleteDb(p, db, id, r, del, rem);
    forall k ensures Members(db', k) <= Members(db, k) && Members(db, k) - Members(db', k) <= {id} {
    }
  }

  lemma ListingShrinks(p: string, before: Db, after: Db, members: set<string>, own: string, now: int)
    requires after.sets == before.sets && Purged(before.keys, after.keys, now) && OnlyThese(p, before.keys, after.keys, members)
    ensures Shrunk(p, before, after, members, own)
  {
  }

  /** DEL of the set, once every session that was found has been deleted. */
  lemma SetDeleted(p: string, before: Db, db: Db, members: set<string>, own: string, ids: seq<string>,
                   start: int, end: int, now: int)
    requires Shrunk(p, before, db, members, own) && Between(p, before.keys, members, ids, start, end, true) && end <= now
    requires forall j :: 0 <= j < |ids| ==> SessionKey(p, ids[j]) !in db.keys
    ensures var after := db.(sets := db.sets - {own});
            Shrunk(p, before, after, members, own) && Members(after, own) == {}
            && forall id :: id in members && SessionKey(p, id) in after.keys ==> !Live(after.keys[SessionKey(p, id)], now)
  {
    hide SessionKey, Live;
    forall id | id in members && SessionKey(p, id) in db.keys ensures !Live(db.keys[SessionKey(p, id)], now) {
      LiveBefore(db.keys[SessionKey(p, id)], end, now);
    }
    forall k | k != own ensures Members(db.(sets := db.sets - {own}), k) == Members(db, k) {
    }
  }

  lemma IdOfBody(p: string, db: Db, ids: seq<string>, sessions: seq<Session>, i: nat)
    requires WellKeyed(p, db) && BodiesOf(p, db.keys, ids, sessions) && i < |ids|
    ensures i < |sessions| && sessions[i].id == Some(ids[i])
  {
    hide SessionKey, UserKey;
    KeysDistinct(p, ids[i], sessions[i].id.value);
  }

  lemma Forward(c: Clock, i: nat, j: nat)
    requires Ticking(c) && i <= j
    ensures c(i) <= c(j)
  {
  }

  // ---------------------------------------------------------------- what comes back

  /** Field by field, what a session looks like after it was printed and parsed again. */
  predicate Restored(s: Session, t: Session, jwk: string -> Option<string>) {
    && t.id == s.id && t.userId == s.userId && t.state == s.state
    && t.algorithm == s.algorithm && t.challenge == s.challenge && t.createdAt == s.createdAt
    && t.publicKey == (if s.publicKey.None? then None else jwk(s.publicKey.value))
    && (t.hasExpires <==> s.hasExpires && s.expiresAt != 0)
    && (t.hasExpires ==> t.expiresAt == s.expiresAt)
  }

  /** From the SET on, an entry is live through its expiry and not after its last second; without an expiry, for ever. */
  lemma Lifespan(s: Session, jwk: string -> Option<string>, read: int, at: int, t: int)
    requires read <= at <= t
    ensures !s.hasExpires ==> Live(NewEntry(s, jwk, read, at), t)
    ensures s.hasExpires && s.expiresAt != 0 && t <= s.expiresAt * 1000 ==> Live(NewEntry(s, jwk, read, at), t)
    ensures s.hasExpires && s.expiresAt != 0 && t / 1000 > s.expiresAt ==> !Live(NewEntry(s, jwk, read, at), t)
  {
    var e := NewEntry(s, jwk, read, at);
    if s.hasExpires && s.expiresAt != 0 && t <= s.expiresAt * 1000 {
      assert read / 1000 * 1000 <= read;
      assert 1000 * Ttl(s, read) >= 1000 * (s.expiresAt - read / 1000);
      assert e.deadline.value >= s.expiresAt * 1000;
      assert t / 1000 <= s.expiresAt;
    }
  }

  /**
   A session that was stored and is handed out again comes back field by field; it is
   handed out whenever the GET is carried out before its expiry.
   */
  lemma CreateThenGet(p: string, c: Clock, up: Line, db: Db, s: Session, jwk: string -> Option<string>, set': nat, addOk: bool,
                      pos: nat)
    requires Ticking(c) && WellKeyed(p, db) && s.id.Some? && set' < pos
    ensures var db' := CreateDb(p, db, s, NewEntry(s, jwk, c(set'), c(set' + 1)), true, addOk).0;
            && WellKeyed(p, db')
            && var r := RunOf(c, up, p, db', s.id.value, pos);
               var got := GetDb(p, db', s.id.value, r).1;
               && (got.Some? ==> Restored(s, got.value, jwk))
               && (up(pos) && (!s.hasExpires || (s.expiresAt != 0 && c(pos + 1) <= s.expiresAt * 1000)) ==> got.Some?)
               && (up(pos) && s.hasExpires && s.expiresAt != 0 && c(pos) / 1000 > s.expiresAt ==> got.None?)
  {
    var e := NewEntry(s, jwk, c(set'), c(set' + 1));
    var db' := CreateDb(p, db, s, e, true, addOk).0;
    NewEntryIsBounded(s, jwk, c(set'), c(set' + 1));
    CreatedWellKeyed(p, db, s, e, true, addOk);
    assert db'.keys[SessionKey(p, s.id.value)] == e;
    Forward(c, set', set' + 1);
    Forward(c, set' + 1, pos);
    Forward(c, pos, pos + 1);
    Lifespan(s, jwk, c(set'), c(set' + 1), c(pos));
    Lifespan(s, jwk, c(set'), c(set' + 1), c(pos + 1));
    RestoredBody(s, jwk, c(set'), c(set' + 1));
    RunStep(c, up, p, db', s.id.value, pos);
    hide Ticking, WellKeyed, RunOf, NewEntry, CreateDb, SessionKey, Restored;
  }

  /** Which identifiers a create and a delete add to and take from which sets. */
  lemma CreateSets(p: string, db: Db, s: Session, e: Entry, addOk: bool, u: string, id: string)
    requires s.id.Some?
    ensures var db' := CreateDb(p, db, s, e, true, addOk).0;
            id in Members(db', UserKey(p, u)) <==>
            id in Members(db, UserKey(p, u)) || (addOk && u == UserText(s.userId) && id == s.id.value)
  {
    hide SessionKey, UserKey;
    KeysDistinct(p, u, UserText(s.userId));
  }

  lemma DeleteSets(p: string, db: Db, id: string, r: GetRun, del: bool, rem: bool, u: string, x: string)
    requires r.found ==> SessionKey(p, id) in db.keys
    ensures x in Members(DeleteDb(p, db, id, r, del, rem), UserKey(p, u)) <==>
            && x in Members(db, UserKey(p, u))
            && !(r.found && rem && x == id && u == UserText(db.keys[SessionKey(p, id)].body.userId))
  {
    hide SessionKey, UserKey;
    if r.found {
      KeysDistinct(p, u, UserText(db.keys[SessionKey(p, id)].body.userId));
    }
  }

  /** A delete whose DEL is carried out takes its session and no other. */
  lemma DeleteKeys(p: string, db: Db, id: string, r: GetRun, del: bool, rem: bool, x: string)
    ensures var db' := DeleteDb(p, db, id, r, del, rem);
            && (SessionKey(p, x) in db'.keys <==> SessionKey(p, x) in db.keys && !(x == id && (del || r.removed)))
            && (SessionKey(p, x) in db'.keys ==> db'.keys[SessionKey(p, x)] == db.keys[SessionKey(p, x)])
  {
    hide SessionKey, UserKey;
    KeysDistinct(p, x, id);
  }

  lemma RestoredBody(s: Session, jwk: string -> Option<string>, read: int, at: int)
    ensures Restored(s, NewEntry(s, jwk, read, at).body, jwk)
  {
  }

  // ---------------------------------------------------------------- agreement

  /** Every session that can be read is in the set of its user. */
  ghost predicate Indexed(p: string, db: Db, now: int) {
    forall k :: k in db.keys && Live(db.keys[k], now) && db.keys[k].body.id.Some? ==>
      db.keys[k].body.id.value in Members(db, UserKey(p, UserText(db.keys[k].body.userId)))
  }

  ghost predicate InSet(p: string, db: Db, user: string, id: string) {
    id in Members(db, UserKey(p, user))
  }

  /** An identifier is in the set of one user at most, and a session in a set belongs to that user. */
  ghost predicate Settled(p: string, db: Db) {
    && (forall u, v, id :: InSet(p, db, u, id) && InSet(p, db, v, id) ==> u == v)
    && (forall u, id :: InSet(p, db, u, id) && SessionKey(p, id) in db.keys ==>
          UserText(db.keys[SessionKey(p, id)].body.userId) == u)
  }

  ghost predicate Agreement(p: string, db: Db, now: int) {
    WellKeyed(p, db) && Indexed(p, db, now) && Settled(p, db)
  }

  /** The sessions of a user that can be read at a time. */
  ghost predicate UserLive(p: string, keys: map<string, Entry>, user: string, id: string, t: int) {
    SessionKey(p, id) in keys && Live(keys[SessionKey(p, id)], t) && UserText(keys[SessionKey(p, id)].body.userId) == user
  }

  lemma CreatedWellKeyed(p: string, db: Db, s: Session, e: Entry, setOk: bool, addOk: bool)
    requires WellKeyed(p, db) && e.body.id == s.id && e.body.userId == s.userId && Bounded(e)
    ensures WellKeyed(p, CreateDb(p, db, s, e, setOk, addOk).0)
  {
    hide SessionKey, UserKey;
  }

  lemma NewEntryIsBounded(s: Session, jwk: string -> Option<string>, read: int, at: int)
    ensures var e := NewEntry(s, jwk, read, at); e.body.id == s.id && e.body.userId == s.userId && Bounded(e)
  {
  }

  /** A create keeps each session in the set of its user, unless SADD fails for an identifier that is not there yet. */
  lemma CreateIndexedIff(p: string, db: Db, s: Session, e: Entry, setOk: bool, addOk: bool, now: int)
    requires WellKeyed(p, db) && Indexed(p, db, now) && s.id.Some?
    requires e.body.id == s.id && e.body.userId == s.userId && Live(e, now)
    ensures Indexed(p, CreateDb(p, db, s, e, setOk, addOk).0, now) <==>
            !(setOk && !addOk && !InSet(p, db, UserText(s.userId), s.id.value))
  {
    hide SessionKey, UserKey;
    var db' := CreateDb(p, db, s, e, setOk, addOk).0;
    var k := SessionKey(p, s.id.value);
    if setOk {
      assert db'.keys[k] == e;
      forall u, id | InSet(p, db, u, id) ensures InSet(p, db', u, id) {
        KeysDistinct(p, u, UserText(s.userId));
      }
    }
  }

  /** A completed create keeps the sets settled exactly when no other user's set holds the identifier. */
  lemma CreateSettledIff(p: string, db: Db, s: Session, e: Entry)
    requires WellKeyed(p, db) && Settled(p, db) && s.id.Some?
    requires e.body.id == s.id && e.body.userId == s.userId
    ensures Settled(p, CreateDb(p, db, s, e, true, true).0) <==>
            forall v :: InSet(p, db, v, s.id.value) ==> v == UserText(s.userId)
  {
    hide SessionKey, UserKey;
    var db' := CreateDb(p, db, s, e, true, true).0;
    var u0, id0 := UserText(s.userId), s.id.value;
    forall v, id ensures InSet(p, db', v, id) <==> InSet(p, db, v, id) || (v == u0 && id == id0) {
      KeysDistinct(p, v, u0);
    }
    forall id ensures SessionKey(p, id) == SessionKey(p, id0) <==> id == id0 {
      KeysDistinct(p, id, id0);
    }
    if Settled(p, db') {
      forall v | InSet(p, db, v, id0) ensures v == u0 {
        assert InSet(p, db', v, id0) && InSet(p, db', u0, id0);
      }
    }
  }

  lemma CreateAgrees(p: string, db: Db, s: Session, e: Entry, t: int, now: int)
    requires Agreement(p, db, t) && t <= now && s.id.Some?
    requires e.body.id == s.id && e.body.userId == s.userId && Bounded(e)
    requires forall v :: InSet(p, db, v, s.id.value) ==> v == UserText(s.userId)
    ensures Agreement(p, CreateDb(p, db, s, e, true, true).0, now)
  {
    hide SessionKey, UserKey, Live, Settled, Indexed;
    CreatedWellKeyed(p, db, s, e, true, true);
    CreateSettledIff(p, db, s, e);
    CreateIndexed(p, db, s, e, t, now);
  }

  lemma CreateIndexed(p: string, db: Db, s: Session, e: Entry, t: int, now: int)
    requires WellKeyed(p, db) && Indexed(p, db, t) && t <= now && s.id.Some?
    requires e.body.id == s.id && e.body.userId == s.userId
    ensures Indexed(p, CreateDb(p, db, s, e, true, true).0, now)
  {
    hide SessionKey, UserKey, Live;
    var db' := CreateDb(p, db, s, e, true, true).0;
    forall k | k in db.keys && Live(db.keys[k], now) ensures Live(db.keys[k], t) {
      LiveBefore(db.keys[k], t, now);
    }
    forall u ensures Members(db, UserKey(p, u)) <= Members(db', UserKey(p, u)) {
      KeysDistinct(p, u, UserText(s.userId));
    }
  }

  lemma LaterAgrees(p: string, db: Db, t: int, now: int)
    requires Agreement(p, db, t) && t <= now
    ensures Agreement(p, db, now)
  {
    PurgeAgrees(p, db, db, t, now);
  }

  lemma GetAgrees(p: string, c: Clock, up: Line, db: Db, id: string, pos: nat)
    requires Ticking(c) && Agreement(p, db, c(pos))
    ensures var r := RunOf(c, up, p, db, id, pos); Agreement(p, GetDb(p, db, id, r).0, c(r.end))
  {
    var r := RunOf(c, up, p, db, id, pos);
    GetReads(p, c, up, db, id, pos);
    Forward(c, pos, r.end);
    hide Agreement, Purged, GetDb, RunOf, Ticking;
    PurgeAgrees(p, db, GetDb(p, db, id, r).0, c(pos), c(r.end));
  }

  /** Without that condition: after a second create under another user, the first user's set leads to a foreign session. */
  lemma OwnerChange(p: string, db: Db, s: Session, e: Entry, t: Session, f: Entry)
    requires s.id.Some? && t.id == s.id && UserText(t.userId) != UserText(s.userId) && f.body == t
    ensures var db' := CreateDb(p, CreateDb(p, db, s, e, true, true).0, t, f, true, true).0;
            InSet(p, db', UserText(s.userId), s.id.value) && UserText(db'.keys[SessionKey(p, s.id.value)].body.userId) != UserText(s.userId)
  {
    hide SessionKey, UserKey;
    KeysDistinct(p, UserText(s.userId), UserText(t.userId));
  }

  /** Agreement outlives a delete, unless the index entry goes and the session stays. */
  lemma DeleteAgrees(p: string, db: Db, id: string, r: GetRun, del: bool, rem: bool, now: int)
    requires Agreement(p, db, now) && (r.found && rem ==> del)
    ensures Agreement(p, DeleteDb(p, db, id, r, del, rem), now)
  {
    hide SessionKey, UserKey;
    var db' := DeleteDb(p, db, id, r, del, rem);
    forall k | k in db'.keys && db'.keys[k].body.id.Some?
      ensures var v := UserText(db'.keys[k].body.userId);
              InSet(p, db, v, db'.keys[k].body.id.value) ==> InSet(p, db', v, db'.keys[k].body.id.value) {
      KeysDistinct(p, db'.keys[k].body.id.value, id);
    }
    forall v, x | InSet(p, db', v, x) ensures InSet(p, db, v, x) {
    }
  }

  /** A delete of a readable session keeps it in its set exactly unless its DEL is lost and its SREM is not. */
  lemma DeleteIndexedIff(p: string, db: Db, id: string, r: GetRun, del: bool, rem: bool, now: int)
    requires Agreement(p, db, now) && r.found && !r.removed
    requires SessionKey(p, id) in db.keys && Live(db.keys[SessionKey(p, id)], now)
    ensures Indexed(p, DeleteDb(p, db, id, r, del, rem), now) <==> !(rem && !del)
  {
    if r.found && rem && !del {
      KeysDistinct(p, id, db.keys[SessionKey(p, id)].body.id.value);
      hide SessionKey, UserKey;
      assert SessionKey(p, id) in DeleteDb(p, db, id, r, del, rem).keys;
    } else {
      DeleteAgrees(p, db, id, r, del, rem, now);
    }
  }

  lemma PurgeAgrees(p: string, before: Db, after: Db, t: int, now: int)
    requires Agreement(p, before, t) && t <= now && after.sets == before.sets && Purged(before.keys, after.keys, now)
    ensures Agreement(p, after, now)
  {
    hide SessionKey, UserKey;
    forall v, x ensures InSet(p, after, v, x) <==> InSet(p, before, v, x) {
    }
    forall k | k in after.keys && Live(after.keys[k], now) ensures Live(before.keys[k], t) {
      LiveBefore(after.keys[k], t, now);
    }
    assert forall k :: Members(after, k) == Members(before, k);
  }

  /** Identifiers and sessions of one user: only ones readable at the start and, if complete, all that can be read at the end. */
  ghost predicate ListsUser(p: string, keys: map<string, Entry>, user: string, ids: seq<string>, sessions: seq<Session>,
                            start: int, end: int, complete: bool) {
    && (forall id :: id in ids ==> UserLive(p, keys, user, id, start))
    && (complete ==> forall id :: UserLive(p, keys, user, id, end) ==> id in ids)
    && |sessions| == |ids|
    && (forall i :: 0 <= i < |sessions| ==> UserText(sessions[i].userId) == user && sessions[i].id == Some(ids[i]))
  }

  /** No readable session of the user is left, and every other user's sessions and set are as they were. */
  ghost predicate Swept(p: string, before: Db, after: Db, user: string, now: int) {
    && (forall id :: !UserLive(p, after.keys, user, id, now))
    && (forall k :: k in before.keys && UserText(before.keys[k].body.userId) != user ==>
          k in after.keys && after.keys[k] == before.keys[k])
    && (forall v :: v != user ==> Members(after, UserKey(p, v)) == Members(before, UserKey(p, v)))
  }

  /** A listing finds sessions of that user only, and misses none that stays readable unless a GET was lost. */
  lemma ListingIsUsers(p: string, db: Db, user: string, ids: seq<string>, sessions: seq<Session>, start: int, end: int,
                       complete: bool)
    requires Agreement(p, db, start) && start <= end
    requires BodiesOf(p, db.keys, ids, sessions) && Between(p, db.keys, Members(db, UserKey(p, user)), ids, start, end, complete)
    ensures ListsUser(p, db.keys, user, ids, sessions, start, end, complete)
  {
    hide SessionKey, UserKey, Live;
    forall id | id in ids ensures UserLive(p, db.keys, user, id, start) {
      assert InSet(p, db, user, id);
    }
    forall id | complete && UserLive(p, db.keys, user, id, end) ensures id in ids {
      var e := db.keys[SessionKey(p, id)];
      KeysDistinct(p, id, e.body.id.value);
      LiveBefore(e, start, end);
    }
    forall i | 0 <= i < |sessions| ensures UserText(sessions[i].userId) == user && sessions[i].id == Some(ids[i]) {
      assert ids[i] in ids && InSet(p, db, user, ids[i]);
      KeysDistinct(p, ids[i], sessions[i].id.value);
    }
  }

  /** Deleting by user leaves no readable session of that user, and every other user's sessions and set as they were. */
  lemma SweepIsUsers(p: string, before: Db, after: Db, user: string, start: int, now: int)
    requires Agreement(p, before, start) && start <= now
    requires Shrunk(p, before, after, Members(before, UserKey(p, user)), UserKey(p, user))
    requires Members(after, UserKey(p, user)) == {}
    requires forall id :: id in Members(before, UserKey(p, user)) && SessionKey(p, id) in after.keys ==>
               !Live(after.keys[SessionKey(p, id)], now)
    ensures Swept(p, before, after, user, now)
    ensures Agreement(p, after, now)
  {
    hide SessionKey, UserKey, Live;
    forall id | UserLive(p, before.keys, user, id, now) ensures id in Members(before, UserKey(p, user)) {
      var e := before.keys[SessionKey(p, id)];
      KeysDistinct(p, id, e.body.id.value);
      LiveBefore(e, start, now);
    }
    forall k | k in before.keys && k !in after.keys ensures UserText(before.keys[k].body.userId) == user {
      var id :| id in Members(before, UserKey(p, user)) && k == SessionKey(p, id);
      assert InSet(p, before, user, id);
    }
    forall v | v != user ensures Members(after, UserKey(p, v)) == Members(before, UserKey(p, v)) {
      KeysDistinct(p, v, user);
      forall id | id in Members(before, UserKey(p, v)) ensures id !in Members(before, UserKey(p, user)) {
        assert InSet(p, before, v, id);
        assert InSet(p, before, user, id) ==> v == user;
      }
    }
    forall k | k in after.keys && Live(after.keys[k], now) && UserText(after.keys[k].body.userId) != user
      ensures Live(before.keys[k], start) && UserKey(p, UserText(after.keys[k].body.userId)) != UserKey(p, user) {
      LiveBefore(before.keys[k], start, now);
      KeysDistinct(p, UserText(after.keys[k].body.userId), user);
    }
    forall k | k in after.keys && Live(after.keys[k], now) ensures UserText(after.keys[k].body.userId) != user {
      var id := after.keys[k].body.id.value;
      assert !UserLive(p, after.keys, user, id, now);
    }
    forall v, id | InSet(p, after, v, id) ensures InSet(p, before, v, id) {
    }
  }

  // ---------------------------------------------------------------- agreement along the clock

  ghost predicate OnlyOwnerOf(p: string, db: Db, s: Session) {
    s.id.Some? ==> forall v :: InSet(p, db, v, s.id.value) ==> v == UserText(s.userId)
  }

  lemma CreateKeeps(p: string, c: Clock, db: Db, pos: nat, pos': nat, s: Session, jwk: string -> Option<string>)
    requires Ticking(c) && pos' >= pos && OnlyOwnerOf(p, db, s)
    ensures Agreement(p, db, c(pos)) ==>
              Agreement(p, CreateDb(p, db, s, NewEntry(s, jwk, c(pos), c(pos + 1)), true, true).0, c(pos'))
  {
    hide Agreement;
    if Agreement(p, db, c(pos)) && s.id.None? {
      LaterAgrees(p, db, c(pos), c(pos'));
    } else if Agreement(p, db, c(pos)) {
      hide CreateDb;
      CreateAgrees(p, db, s, NewEntry(s, jwk, c(pos), c(pos + 1)), c(pos), c(pos'));
    }
  }

  lemma GetKeeps(p: string, c: Clock, up: Line, db: Db, pos: nat, id: string)
    requires Ticking(c) && WellKeyed(p, db)
    ensures var r := RunOf(c, up, p, db, id, pos);
            Agreement(p, db, c(pos)) ==> Agreement(p, GetDb(p, db, id, r).0, c(r.end))
  {
    if Agreement(p, db, c(pos)) {
      GetAgrees(p, c, up, db, id, pos);
    }
  }

  lemma DeleteKeeps(p: string, c: Clock, db: Db, pos: nat, pos': nat, id: string, r: GetRun, del: bool, rem: bool)
    requires Ticking(c) && pos' > pos
    ensures Agreement(p, db, c(pos)) && (r.found && rem ==> del) ==> Agreement(p, DeleteDb(p, db, id, r, del, rem), c(pos'))
  {
    hide Agreement, DeleteDb;
    Forward(c, pos, pos');
    if Agreement(p, db, c(pos)) && (r.found && rem ==> del) {
      LaterAgrees(p, db, c(pos), c(pos'));
      DeleteAgrees(p, db, id, r, del, rem, c(pos'));
    }
  }

  lemma ListingKeeps(p: string, c: Clock, before: Db, after: Db, pos: nat, pos': nat, user: string,
                     ids: seq<string>, sessions: seq<Session>, complete: bool)
    requires Ticking(c) && pos' > pos && after.sets == before.sets && Purged(before.keys, after.keys, c(pos'))
    requires BodiesOf(p, before.keys, ids, sessions)
    requires Between(p, before.keys, Members(before, UserKey(p, user)), ids, c(pos), c(pos'), complete)
    ensures Agreement(p, before, c(pos)) ==>
              Agreement(p, after, c(pos')) && ListsUser(p, before.keys, user, ids, sessions, c(pos), c(pos'), complete)
  {
    hide Agreement, Purged, BodiesOf, Between, ListsUser, UserKey;
    if Agreement(p, before, c(pos)) {
      PurgeAgrees(p, before, after, c(pos), c(pos'));
      ListingIsUsers(p, before, user, ids, sessions, c(pos), c(pos'), complete);
    }
  }

  lemma SweepKeeps(p: string, c: Clock, before: Db, after: Db, pos: nat, pos': nat, user: string)
    requires Ticking(c) && pos' > pos
    requires Shrunk(p, before, after, Members(before, UserKey(p, user)), UserKey(p, user))
    requires Members(after, UserKey(p, user)) == {}
    requires forall id :: id in Members(before, UserKey(p, user)) && SessionKey(p, id) in after.keys ==>
               !Live(after.keys[SessionKey(p, id)], c(pos'))
    ensures Agreement(p, before, c(pos)) ==> Agreement(p, after, c(pos')) && Swept(p, before, after, user, c(pos'))
  {
    hide Agreement, Shrunk, Swept, Members, Live, UserKey, SessionKey;
    if Agreement(p, before, c(pos)) {
      SweepIsUsers(p, before, after, user, c(pos), c(pos'));
    }
  }

  lemma LaterKeeps(p: string, c: Clock, db: Db, pos: nat, pos': nat)
    requires Ticking(c) && pos' >= pos
    ensures Agreement(p, db, c(pos)) ==> Agreement(p, db, c(pos'))
  {
    hide Agreement;
    if Agreement(p, db, c(pos)) {
      LaterAgrees(p, db, c(pos), c(pos'));
    }
  }

  // ---------------------------------------------------------------- lost commands

  lemma UpFurther(up: Line, from: nat, mid: nat, to: nat)
    requires from <= mid < to
    ensures AllUp(up, from, to) ==> AllUp(up, from, mid) && up(mid)
  {
  }

  lemma UpWithin(up: Line, from: nat, mid: nat, at: nat, to: nat)
    requires from <= mid <= at < to
    ensures AllUp(up, from, to) ==> AllUp(up, from, mid) && up(at)
  {
  }

  lemma {:induction false} DistinctWithin(ids: seq<string>, members: set<string>)
    requires Distinct(ids) && forall id :: id in ids ==> id in members
    ensures |ids| <= |members|
  {
    if |ids| > 0 {
      var n := |ids| - 1;
      assert ids[n] in ids && forall i :: 0 <= i < n ==> ids[..n][i] == ids[i];
      DistinctWithin(ids[..n], members - {ids[n]});
    }
  }

  /** A listing that is given up has still only purged members that were dead. */
  lemma GaveUp(p: string, before: map<string, Entry>, after: map<string, Entry>, members: set<string>,
               ids: seq<string>, sessions: seq<Session>, start: int, end: int, complete: bool)
    requires Listed(p, before, after, members, ids, sessions, start, end, complete)
    ensures Purged(before, after, end) && OnlyThese(p, before, after, members) && |ids| <= |members|
  {
    DistinctWithin(ids, members);
  }

  lemma FewerStill(p: string, before: map<string, Entry>, after: map<string, Entry>, some: set<string>, members: set<string>)
    requires some <= members && OnlyThese(p, before, after, some)
    ensures OnlyThese(p, before, after, members) && |some| <= |members|
  {
    Subset(some, members);
  }

  lemma {:induction false} Subset(a: set<string>, b: set<string>)
    requires a <= b
    ensures |a| <= |b|
  {
    if a != {} {
      var x :| x in a;
      Subset(a - {x}, b - {x});
    }
  }

  lemma NoBodies(p: string, keys: map<string, Entry>)
    ensures BodiesOf(p, keys, [], [])
  {
  }

  lemma FoundIsMember(p: string, keys: map<string, Entry>, members: set<string>, ids: seq<string>, i: nat, start: int, end: int,
                      complete: bool)
    requires Between(p, keys, members, ids, start, end, complete) && i < |ids|
    ensures ids[i] in members
  {
    assert ids[i] in ids;
  }

  lemma SetGone(p: string, before: Db, db: Db, members: set<string>, own: string)
    requires Shrunk(p, before, db, members, own)
    ensures Shrunk(p, before, db.(sets := db.sets - {own}), members, own)
    ensures Members(db.(sets := db.sets - {own}), own) == {}
  {
    forall k | k != own ensures Members(db.(sets := db.sets - {own}), k) == Members(db, k) {
    }
  }
}
