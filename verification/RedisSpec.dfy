/**
 The Redis store of src/store/redis.c: one key per session with an optional deadline, one
 set of identifiers per user, and a clock that is read again at every command.
 */
module RedisSpec {
  import opened Wrappers
  import opened Sessions

  /** The session that the stored text parses to, and the millisecond after which the key is gone. */
  datatype Entry = Entry(body: Session, deadline: Option<int>)

  datatype Db = Db(keys: map<string, Entry>, sets: map<string, set<string>>)

  // ---------------------------------------------------------------- key names

  function SessionKey(p: string, id: string): string {
    p + ":session:" + id
  }

  /** What "%s" prints for a user; the C library of the deployment prints a null pointer as "(null)". */
  function UserText(user: Option<string>): string {
    if user.None? then "(null)" else user.value
  }

  function UserKey(p: string, user: string): string {
    p + ":user:" + user
  }

  /** Two names of one family never coincide, and the two families never meet. */
  lemma KeysDistinct(p: string, a: string, b: string)
    ensures SessionKey(p, a) == SessionKey(p, b) <==> a == b
    ensures UserKey(p, a) == UserKey(p, b) <==> a == b
    ensures SessionKey(p, a) != UserKey(p, b)
  {
    assert SessionKey(p, a)[|p| + 9..] == a && SessionKey(p, b)[|p| + 9..] == b;
    assert UserKey(p, a)[|p| + 6..] == a && UserKey(p, b)[|p| + 6..] == b;
    assert SessionKey(p, a)[|p| + 1] == 's' && UserKey(p, b)[|p| + 1] == 'u';
  }

  // ---------------------------------------------------------------- time

  /** The clock in milliseconds, by reading number. */
  type Clock = nat -> int

  /** Time does not run backwards and does not stop for ever. */
  ghost predicate Ticking(c: Clock) {
    && (forall i: nat, j: nat :: i <= j ==> c(i) <= c(j))
    && (forall t: int :: Passes(c, t))
  }

  ghost predicate Passes(c: Clock, t: int) {
    exists n: nat :: c(n) > t
  }

  /** Redis still has the key. */
  predicate Alive(e: Entry, t: int) {
    e.deadline.Some? ==> t <= e.deadline.value
  }

  /** The key is there and its session has not expired; time(NULL) counts whole seconds. */
  predicate Live(e: Entry, t: int) {
    Alive(e, t) && !Expired(e.body, t / 1000)
  }

  lemma LiveBefore(e: Entry, t: int, u: int)
    requires t <= u
    ensures Alive(e, u) ==> Alive(e, t)
    ensures Live(e, u) ==> Live(e, t)
  {
  }

  // ---------------------------------------------------------------- the operations

  function Members(db: Db, set': string): set<string> {
    if set' in db.sets then db.sets[set'] else {}
  }

  /** What a session becomes when it is printed as JSON and parsed again; `jwk` is the effect on the key. */
  function Stored(s: Session, jwk: string -> Option<string>): Session {
    s.(publicKey := if s.publicKey.None? then None else jwk(s.publicKey.value),
       hasExpires := s.hasExpires && s.expiresAt != 0,
       expiresAt := if s.hasExpires then s.expiresAt else 0)
  }

  /** The seconds given to EX, from a clock reading. */
  function Ttl(s: Session, read: int): int {
    if s.expiresAt - read / 1000 <= 0 then 1 else s.expiresAt - read / 1000
  }

  /** The entry written by SET at a time, with the ttl computed from an earlier reading. */
  function NewEntry(s: Session, jwk: string -> Option<string>, read: int, at: int): Entry {
    Entry(Stored(s, jwk), if s.hasExpires then Some(at + 1000 * Ttl(s, read)) else None)
  }

  function CreateDb(p: string, db: Db, s: Session, entry: Entry, setOk: bool, addOk: bool): (Db, int) {
    if s.id.None? || !setOk then (db, -1)
    else
      var db1 := db.(keys := db.keys[SessionKey(p, s.id.value) := entry]);
      if !addOk then (db1, -1)
      else
        var uk := UserKey(p, UserText(s.userId));
        (db1.(sets := db1.sets[uk := Members(db, uk) + {s.id.value}]), 0)
  }

  /**
   One redis_get as a whole: whether it hands out the session, whether the key goes on the
   way, how many GET commands it took, and the reading after it.
   */
  datatype GetRun = GetRun(found: bool, removed: bool, gets: nat, end: nat)

  function GetDb(p: string, db: Db, id: string, r: GetRun): (Db, Option<Session>) {
    var k := SessionKey(p, id);
    (if r.removed then db.(keys := db.keys - {k}) else db,
     if r.found && k in db.keys then Some(db.keys[k].body) else None)
  }

  /**
   The get, then DEL, then SREM for a session that the get handed out; the source ignores
   whether the last two commands are carried out.
   */
  function DeleteDb(p: string, db: Db, id: string, r: GetRun, del: bool, rem: bool): Db {
    var (db1, got) := GetDb(p, db, id, r);
    Db(if del then db1.keys - {SessionKey(p, id)} else db1.keys,
       if got.None? || !rem then db1.sets
       else
         var uk := UserKey(p, UserText(got.value.userId));
         db1.sets[uk := Members(db1, uk) - {id}])
  }

  // ---------------------------------------------------------------- the recursion of get and delete

  /** A clock reading past a time. */
  ghost function Later(c: Clock, t: int): (n: nat)
    requires Ticking(c)
    ensures c(n) > t
  {
    assert Passes(c, t);
    var n: nat :| c(n) > t; n
  }

  /** How many readings the recursion may still take. */
  ghost function Patience(c: Clock, e: Entry, pos: nat): nat
    requires Ticking(c)
  {
    if e.deadline.None? || !Alive(e, c(pos)) then 0 else PatienceOf(c, e, pos)
  }

  ghost function PatienceOf(c: Clock, e: Entry, pos: nat): (n: nat)
    requires Ticking(c) && e.deadline.Some? && Alive(e, c(pos))
    ensures n > 0
  {
    assert Later(c, e.deadline.value) > pos;
    Later(c, e.deadline.value) - pos
  }

  /** Only sessions that expire are stored with an expiry, and all of those have a deadline. */
  predicate Bounded(e: Entry) {
    e.deadline.None? ==> !e.body.hasExpires
  }

  /** How many GET commands one redis_get issues before its recursion through redis_delete ends. */
  ghost function Nested(c: Clock, e: Entry, pos: nat): (n: nat)
    requires Ticking(c) && Bounded(e)
    ensures n > 0
    decreases Patience(c, e, pos)
  {
    if !Alive(e, c(pos)) || !Expired(e.body, c(pos + 1) / 1000) then 1 else 1 + Nested(c, e, pos + 2)
  }

  /** Whether the command issued at a reading is carried out and gets an answer that can be used. */
  type Line = nat -> bool

  ghost predicate AllUp(up: Line, from: nat, to: nat) {
    forall i: nat :: from <= i < to ==> up(i)
  }

  /**
   The recursion through redis_delete: an expired session is deleted, which reads it again
   first, and the DEL of every level is tried.
   */
  ghost function RunGet(c: Clock, up: Line, e: Option<Entry>, pos: nat): (r: GetRun)
    requires Ticking(c) && (e.Some? ==> Bounded(e.value))
    ensures r.end > pos
    decreases if e.None? then 0 else Patience(c, e.value, pos)
  {
    if !up(pos) || e.None? || !Alive(e.value, c(pos)) then GetRun(false, false, 1, pos + 1)
    else if !Expired(e.value.body, c(pos + 1) / 1000) then GetRun(true, false, 1, pos + 2)
    else
      var d := RunGet(c, up, e, pos + 2);
      GetRun(false, d.removed || up(d.end), 1 + d.gets, d.end + 1)
  }

  /** A lost command can only shorten the recursion. */
  lemma {:induction false} RunGets(c: Clock, up: Line, e: Entry, pos: nat)
    requires Ticking(c) && Bounded(e)
    ensures RunGet(c, up, Some(e), pos).gets <= Nested(c, e, pos)
    ensures (forall i: nat :: up(i)) ==> RunGet(c, up, Some(e), pos).gets == Nested(c, e, pos)
    decreases Patience(c, e, pos)
  {
    if up(pos) && Alive(e, c(pos)) && Expired(e.body, c(pos + 1) / 1000) {
      RunGets(c, up, e, pos + 2);
    }
  }

  /** The key goes before the second in which its session is seen to be expired. */
  predicate Guarded(e: Entry) {
    e.body.hasExpires ==> e.deadline.Some? && e.deadline.value < (e.body.expiresAt + 1) * 1000
  }

  /** GET never returns an expired session, at any one time, exactly when the entry is guarded. */
  lemma GuardedIff(e: Entry)
    requires Bounded(e)
    ensures Guarded(e) <==> forall t :: Alive(e, t) ==> !Expired(e.body, t / 1000)
  {
    if !Guarded(e) {
      assert Alive(e, e.deadline.value) && Expired(e.body, e.deadline.value / 1000);
    }
  }

  /** What create stores is guarded exactly when the expiry lies ahead and SET falls in the second that was read. */
  lemma CreateGuardedIff(s: Session, jwk: string -> Option<string>, read: int, at: int)
    requires s.hasExpires && s.expiresAt != 0 && read <= at
    ensures Guarded(NewEntry(s, jwk, read, at)) <==> s.expiresAt > read / 1000 && at / 1000 == read / 1000
  {
    if s.expiresAt > read / 1000 {
      assert at + 1000 * (s.expiresAt - read / 1000) < (s.expiresAt + 1) * 1000 <==> at < (read / 1000 + 1) * 1000;
    } else {
      assert at + 1000 >= (read / 1000 + 1) * 1000;
    }
  }

  /** A clock that stands still for n rounds of the recursion. */
  function Stalling(t: int, n: nat): Clock {
    (i: nat) => if i < 2 * n then t else t + i
  }

  lemma StallingTicks(t: int, n: nat)
    ensures Ticking(Stalling(t, n))
  {
    var c := Stalling(t, n);
    forall u: int ensures Passes(c, u) {
      var k: nat := if u - t + 1 > 2 * n then u - t + 1 else 2 * n + 1;
      assert c(k) > u;
    }
  }

  lemma {:induction false} StallingNests(e: Entry, t: int, n: nat, k: nat)
    requires Ticking(Stalling(t, n)) && Bounded(e) && Alive(e, t) && Expired(e.body, t / 1000) && k <= n
    ensures Nested(Stalling(t, n), e, 2 * (n - k)) >= k
    decreases k
  {
    if k > 0 {
      var c, pos := Stalling(t, n), 2 * (n - k);
      assert c(pos) == t && c(pos + 1) == t;
      StallingNests(e, t, n, k - 1);
    }
  }

  /** The depth of the recursion is at most two on every clock exactly for guarded entries; otherwise no bound holds. */
  lemma ShallowIff(e: Entry, bound: nat)
    requires Bounded(e) && bound >= 2
    ensures Guarded(e) <==> forall c: Clock, pos: nat :: Ticking(c) ==> Nested(c, e, pos) <= bound
  {
    if Guarded(e) {
      forall c: Clock, pos: nat | Ticking(c) ensures Nested(c, e, pos) <= 2 {
        GuardedIsShallow(c, e, pos);
      }
    } else {
      var t := e.deadline.value;
      StallingTicks(t, bound + 1);
      StallingNests(e, t, bound + 1, bound + 1);
      assert !(Nested(Stalling(t, bound + 1), e, 0) <= bound);
    }
  }

  lemma GuardedIsShallow(c: Clock, e: Entry, pos: nat)
    requires Ticking(c) && Bounded(e) && Guarded(e)
    ensures Nested(c, e, pos) <= 2
  {
    assert c(pos + 1) <= c(pos + 2);
    assert Expired(e.body, c(pos + 1) / 1000) ==> !Alive(e, c(pos + 2));
  }
}
