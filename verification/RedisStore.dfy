/** The commands that each Redis store operation issues, proved against the functions of RedisSpec. */
module RedisStores {
  import opened Wrappers
  import opened Sessions
  import opened RedisSpec
  import opened RedisIndex

  class RedisStore {
    const prefix: string
    const clock: Clock
    const up: Line
    const jwk: string -> Option<string>
    var db: Db
    var pos: nat

    ghost predicate Valid()
      reads this
    {
      Ticking(clock) && WellKeyed(prefix, db)
    }

    ghost function Now(): int
      reads this
    {
      clock(pos)
    }

    /** Sessions and sets agree. */
    ghost predicate Agrees()
      reads this
    {
      Agreement(prefix, db, Now())
    }

    /** No other user's set holds the identifier: the caller never moves a session to another user. */
    ghost predicate OnlyOwner(s: Session)
      reads this
    {
      OnlyOwnerOf(prefix, db, s)
    }

    constructor (prefix: string, clock: Clock, up: Line, jwk: string -> Option<string>)
      requires Ticking(clock)
      ensures Valid() && Agrees() && db == Db(map[], map[]) && this.prefix == prefix && this.clock == clock && this.up == up && this.jwk == jwk
    {
      this.prefix, this.clock, this.up, this.jwk := prefix, clock, up, jwk;
      db, pos := Db(map[], map[]), 0;
    }

    method ReadClock() returns (t: int)
      modifies this`pos
      ensures t == clock(old(pos)) && pos == old(pos) + 1
    {
      t := clock(pos);
      pos := pos + 1;
    }

    /** The measure of the recursion for one key. */
    ghost function PatienceFor(id: string): nat
      requires Ticking(clock)
      reads this
    {
      var k := SessionKey(prefix, id);
      if k in db.keys then Patience(clock, db.keys[k], pos) else 0
    }

    /** One command: the reading at which it is issued tells whether it is carried out and answered. */
    method Command() returns (ok: bool)
      modifies this`pos
      ensures ok == up(old(pos)) && pos == old(pos) + 1
    {
      ok := up(pos);
      pos := pos + 1;
    }

    /** redis_create: SET, then SADD; a failed SADD leaves the session without its index entry. */
    method Create(s: Session, mem: bool) returns (rc: int)
      requires Valid()
      modifies this`db, this`pos
      ensures Valid() && pos >= old(pos)
      ensures (db, rc) == CreateDb(prefix, old(db), s, NewEntry(s, jwk, clock(old(pos)), clock(old(pos) + 1)),
                                   mem && up(old(pos) + 1), up(old(pos) + 2))
      ensures rc == 0 && old(Agrees()) && old(OnlyOwner(s)) ==> Agrees()
    {
      hide Ticking, Agreement, OnlyOwnerOf, SessionKey, UserKey, WellKeyed;
      if s.id.None? || !mem {
        return -1;
      }
      var read := ReadClock();
      var at := clock(pos);
      var entry := Entry(Stored(s, jwk), None);
      if s.hasExpires {
        var ttl := s.expiresAt - read / 1000;
        if ttl <= 0 {
          ttl := 1;
        }
        entry := entry.(deadline := Some(at + 1000 * ttl));
      }
      NewEntryIsBounded(s, jwk, read, at);
      assert entry == NewEntry(s, jwk, read, at);
      CreatedWellKeyed(prefix, db, s, entry, up(pos), up(pos + 1));
      var setOk := Command();
      if !setOk {
        return -1;
      }
      db := db.(keys := db.keys[SessionKey(prefix, s.id.value) := entry]);
      var addOk := Command();
      if !addOk {
        return -1;
      }
      var uk := UserKey(prefix, UserText(s.userId));
      db := db.(sets := db.sets[uk := Members(db, uk) + {s.id.value}]);
      rc := 0;
      if old(OnlyOwner(s)) {
        CreateKeeps(prefix, clock, old(db), old(pos), pos, s, jwk);
      }
    }

    /** The run that a get from here would be. */
    ghost function Run(id: string): (r: GetRun)
      requires Valid()
      reads this
      ensures r.end > pos
    {
      RunOf(clock, up, prefix, db, id, pos)
    }

    /** redis_get. The recursion through redis_delete ends because time passes. */
    method Get(id: string) returns (got: Option<Session>, ghost gets: nat)
      requires Valid()
      modifies this`db, this`pos
      ensures Valid() && pos == old(Run(id)).end && gets == old(Run(id)).gets
      ensures (db, got) == GetDb(prefix, old(db), id, old(Run(id)))
      ensures old(Agrees()) ==> Agrees()
      decreases PatienceFor(id), 0
    {
      hide SessionKey, UserKey, Agreement, Ticking, RunOf, Patience, GetDb, DeleteDb, WellKeyed;
      var k := SessionKey(prefix, id);
      ghost var r := Run(id);
      GetKeeps(prefix, clock, up, db, pos, id);
      RunStep(clock, up, prefix, db, id, pos);
      PlainGet(prefix, db, id, r);
      if k in db.keys {
        BoundedAt(prefix, db, k);
      }
      gets := 1;
      var t := clock(pos);
      var ok := Command();
      if !ok || k !in db.keys || !Alive(db.keys[k], t) {
        return None, 1;
      }
      var body := db.keys[k].body;
      var u := ReadClock();
      if Expired(body, u / 1000) {
        PatienceDrops(clock, db.keys[k], old(pos));
        ghost var d := Run(id);
        NestedDelete(prefix, db, id, d, up(d.end), up(d.end + 1), 1 + d.gets, d.end + 1);
        ghost var more := Delete(id);
        return None, 1 + more;
      }
      got := Some(body);
    }

    /** redis_delete: reads the session for its user, then DEL, then SREM if it could be read. */
    method Delete(id: string) returns (ghost gets: nat)
      requires Valid()
      modifies this`db, this`pos
      ensures Valid() && gets == old(Run(id)).gets
      ensures pos == old(Run(id)).end + (if old(Run(id)).found then 2 else 1)
      ensures var r := old(Run(id)); db == DeleteDb(prefix, old(db), id, r, up(r.end), up(r.end + 1))
      ensures var r := old(Run(id)); old(Agrees()) && (r.found && up(r.end + 1) ==> up(r.end)) ==> Agrees()
      decreases PatienceFor(id), 1
    {
      hide Ticking, RunOf, UserKey, Agreement;
      ghost var r := Run(id);
      GetReads(prefix, clock, up, db, id, pos);
      var got;
      got, gets := Get(id);
      var uk := if got.Some? then Some(UserKey(prefix, UserText(got.value.userId))) else None;
      var del := Command();
      if del {
        db := db.(keys := db.keys - {SessionKey(prefix, id)});
      }
      if uk.Some? {
        var rem := Command();
        if rem {
          db := db.(sets := db.sets[uk.value := Members(db, uk.value) - {id}]);
        }
      }
      DeleteKeeps(prefix, clock, old(db), old(pos), pos, id, r, del, up(r.end + 1));
    }

    /** redis_update: what is there at the get is overwritten by a create. */
    method Update(s: Session, mem: bool) returns (rc: int)
      requires Valid()
      modifies this`db, this`pos
      ensures Valid() && pos >= old(pos)
      ensures s.id.None? ==> (db, rc) == (old(db), -1)
      ensures s.id.Some? ==>
              var r := old(Run(s.id.value));
              var (db1, got) := GetDb(prefix, old(db), s.id.value, r);
              (db, rc) == if got.None? then (db1, -1)
                          else CreateDb(prefix, db1, s, NewEntry(s, jwk, clock(r.end), clock(r.end + 1)),
                                        mem && up(r.end + 1), up(r.end + 2))
      ensures rc == 0 && old(Agrees()) && old(OnlyOwner(s)) ==> Agrees()
    {
      if s.id.None? {
        return -1;
      }
      GetReads(prefix, clock, up, db, s.id.value, pos);
      hide Ticking, Agreement, OnlyOwnerOf, RunOf;
      var existing, _ := Get(s.id.value);
      if existing.None? {
        return -1;
      }
      rc := Create(s, mem);
    }

    /** A listing that began at a reading and has visited some members. */
    ghost predicate Visited(before: Db, from: nat, done: set<string>, ids: seq<string>, sessions: seq<Session>, grow: nat -> bool)
      reads this
    {
      && Valid() && pos > from && db.sets == before.sets
      && Listed(prefix, before.keys, db.keys, done, ids, sessions, clock(from), Now(), AllUp(up, from, pos))
      && |ids| == |sessions| && (forall k: nat :: k < |ids| ==> grow(k))
      && (Agreement(prefix, before, clock(from)) ==> Agrees())
    }

    /** One turn of the listing loop. */
    method Visit(id: string, sessions: seq<Session>, grow: nat -> bool, ghost before: Db, ghost from: nat, ghost done: set<string>,
                 ghost ids: seq<string>)
        returns (ok: bool, sessions': seq<Session>, ghost ids': seq<string>)
      requires Visited(before, from, done, ids, sessions, grow) && id !in done
      modifies this`db, this`pos
      ensures ok ==> Visited(before, from, done + {id}, ids', sessions', grow)
      ensures !ok ==> !grow(|ids|) && |ids| < |done + {id}|
      ensures !ok ==> Valid() && pos > from && db.sets == before.sets && Purged(before.keys, db.keys, Now())
                      && OnlyThese(prefix, before.keys, db.keys, done + {id}) && (Agreement(prefix, before, clock(from)) ==> Agrees())
    {
      hide Ticking, RunOf, GetDb, Listed, SessionKey, UserKey, Agreement, AllUp, WellKeyed, Purged, OnlyThese;
      Forward(clock, from, pos);
      ListStep(prefix, clock, up, before.keys, db, done, ids, sessions, clock(from), pos, id, AllUp(up, from, pos));
      ghost var pos0 := pos;
      ghost var complete := AllUp(up, from, pos) && up(pos);
      var got, _ := Get(id);
      UpFurther(up, from, pos0, pos);
      ok, sessions', ids' := true, sessions, ids;
      if got.Some? {
        if !grow(|sessions|) {
          GaveUp(prefix, before.keys, db.keys, done + {id}, ids + [id], sessions + [got.value], clock(from), Now(), complete);
          return false, [], [];
        }
        sessions', ids' := sessions + [got.value], ids + [id];
      }
      ListingLater(prefix, before.keys, db.keys, done + {id}, ids', sessions', clock(from), Now(), complete, AllUp(up, from, pos));
    }

    /**
     redis_get_by_user_id: SMEMBERS in any order, then a get for each member; `grow(k)` tells
     whether there is memory for the k-th session found. A member whose GET is lost is skipped.
     */
    method GetByUserId(user: string, grow: nat -> bool) returns (rc: int, sessions: seq<Session>, ghost ids: seq<string>)
      requires Valid()
      modifies this`db, this`pos
      ensures Valid() && pos > old(pos) && db.sets == old(db).sets
      ensures Purged(old(db).keys, db.keys, Now())
      ensures OnlyThese(prefix, old(db).keys, db.keys, Members(old(db), UserKey(prefix, user)))
      ensures Distinct(ids) && |ids| == |sessions| && BodiesOf(prefix, old(db).keys, ids, sessions)
      ensures rc == 0 ==> up(old(pos)) && forall k: nat :: k < |ids| ==> grow(k)
      ensures rc == 0 ==> Between(prefix, old(db).keys, Members(old(db), UserKey(prefix, user)), ids, old(Now()), Now(),
                                  AllUp(up, old(pos), pos))
      ensures rc != 0 ==> rc == -1 && sessions == []
      ensures rc != 0 ==> !up(old(pos)) || exists k: nat :: k < |Members(old(db), UserKey(prefix, user))| && !grow(k)
      ensures old(Agrees()) ==> Agrees()
      ensures rc == 0 && old(Agrees()) ==>
                ListsUser(prefix, old(db).keys, user, ids, sessions, old(Now()), Now(), AllUp(up, old(pos), pos))
    {
      var members := Members(db, UserKey(prefix, user));
      sessions, ids := [], [];
      var ok := Command();
      Forward(clock, old(pos), pos);
      hide Ticking, Run, RunOf, GetDb, Listed, SessionKey, UserKey, Agreement, ListsUser, Live, AllUp, Members, WellKeyed;
      NothingListed(prefix, db.keys, old(Now()), Now(), AllUp(up, old(pos), pos));
      ListingIs(prefix, db.keys, db.keys, {}, [], [], old(Now()), Now(), AllUp(up, old(pos), pos));
      LaterKeeps(prefix, clock, db, old(pos), pos);
      FewerStill(prefix, db.keys, db.keys, {}, members);
      if !ok {
        return -1, [], [];
      }
      var rest := members;
      assert members - rest == {};
      assert Visited(old(db), old(pos), members - rest, ids, sessions, grow);
      hide Visited, Purged, OnlyThese, Between, BodiesOf;
      while rest != {}
        invariant rest <= members && Visited(old(db), old(pos), members - rest, ids, sessions, grow)
      {
        var id :| id in rest;
        ghost var done, found := members - rest, |ids|;
        rest := rest - {id};
        assert done + {id} == members - rest;
        ok, sessions, ids := Visit(id, sessions, grow, old(db), old(pos), done, ids);
        if !ok {
          FewerStill(prefix, old(db).keys, db.keys, members - rest, members);
          NoBodies(prefix, old(db).keys);
          assert found < |members| && !grow(found);
          return -1, [], [];
        }
      }
      assert members - rest == members;
      rc := 0;
      Completed(old(db), old(pos), user, members, ids, sessions, grow);
    }

    /** A listing that has visited all members. */
    lemma Completed(before: Db, from: nat, user: string, members: set<string>, ids: seq<string>, sessions: seq<Session>,
                    grow: nat -> bool)
      requires Visited(before, from, members, ids, sessions, grow) && members == Members(before, UserKey(prefix, user))
      ensures Valid() && pos > from && db.sets == before.sets && Purged(before.keys, db.keys, Now())
      ensures OnlyThese(prefix, before.keys, db.keys, members)
      ensures Distinct(ids) && |ids| == |sessions| && BodiesOf(prefix, before.keys, ids, sessions)
      ensures forall k: nat :: k < |ids| ==> grow(k)
      ensures Between(prefix, before.keys, members, ids, clock(from), Now(), AllUp(up, from, pos))
      ensures Agreement(prefix, before, clock(from)) ==>
                Agrees() && ListsUser(prefix, before.keys, user, ids, sessions, clock(from), Now(), AllUp(up, from, pos))
    {
      hide Agreement, ListsUser, UserKey, SessionKey, AllUp, Members;
      ListingIs(prefix, before.keys, db.keys, members, ids, sessions, clock(from), Now(), AllUp(up, from, pos));
      ListingKeeps(prefix, clock, before, db, from, pos, user, ids, sessions, AllUp(up, from, pos));
    }

    /**
     redis_delete_by_user_id: a listing, a delete for each session found, then DEL of the
     set. Only a failed listing is reported.
     */
    method DeleteByUserId(user: string, grow: nat -> bool) returns (rc: int)
      requires Valid()
      modifies this`db, this`pos
      ensures Valid() && pos > old(pos)
      ensures rc == -1 ==> db.sets == old(db).sets && Purged(old(db).keys, db.keys, Now()) && (old(Agrees()) ==> Agrees())
      ensures rc == 0 || rc == -1
      ensures Shrunk(prefix, old(db), db, Members(old(db), UserKey(prefix, user)), UserKey(prefix, user))
      ensures rc == 0 && AllUp(up, old(pos), pos) ==>
                && Members(db, UserKey(prefix, user)) == {}
                && (forall id :: id in Members(old(db), UserKey(prefix, user)) && SessionKey(prefix, id) in db.keys ==>
                      !Live(db.keys[SessionKey(prefix, id)], Now()))
                && (old(Agrees()) ==> Agrees() && Swept(prefix, old(db), db, user, Now()))
    {
      hide Ticking, SessionKey, UserKey, Shrunk, Between, DeleteDb, Members, Live, Agreement, Swept, ListsUser, Purged, OnlyThese, BodiesOf;
      hide Run, RunOf, AllUp;
      var uk := UserKey(prefix, user);
      ghost var members := Members(db, uk);
      var sessions;
      ghost var ids;
      rc, sessions, ids := GetByUserId(user, grow);
      ghost var end := pos;
      ListingShrinks(prefix, old(db), db, members, uk, clock(end));
      if rc != 0 {
        return -1;
      }
      var i := 0;
      while i < |sessions|
        invariant Valid() && pos >= end > old(pos) && 0 <= i <= |sessions|
        invariant Shrunk(prefix, old(db), db, members, uk)
        invariant AllUp(up, old(pos), pos) ==> forall j :: 0 <= j < i ==> SessionKey(prefix, ids[j]) !in db.keys
      {
        ghost var pos0, r := pos, Run(ids[i]);
        FoundIsMember(prefix, old(db).keys, members, ids, i, old(Now()), clock(end), AllUp(up, old(pos), end));
        IdOfBody(prefix, old(db), ids, sessions, i);
        DeleteShrinks(prefix, old(db), db, members, uk, ids[i], r, up(r.end), up(r.end + 1));
        ghost var _ := Delete(sessions[i].id.value);
        UpWithin(up, old(pos), pos0, r.end, pos);
        i := i + 1;
      }
      ghost var last := pos;
      Forward(clock, end, pos + 1);
      var ok := Command();
      UpWithin(up, old(pos), last, last, pos);
      UpWithin(up, old(pos), end, last, pos);
      if AllUp(up, old(pos), pos) {
        SetDeleted(prefix, old(db), db, members, uk, ids, clock(old(pos)), clock(end), clock(pos));
      }
      if ok {
        SetGone(prefix, old(db), db, members, uk);
        db := db.(sets := db.sets - {uk});
      }
      if AllUp(up, old(pos), pos) {
        SweepKeeps(prefix, clock, old(db), db, old(pos), pos, user);
      }
      rc := 0;
    }
  }
}
