/**
 What a session store promises, as functions on a finite map from identifier to
 session. Time, memory and room in the array are arguments.
 */
module StoreSpec {
  import opened Wrappers
  import opened Sessions

  type Store = map<string, Session>

  /** Every session is stored under its own identifier. */
  ghost predicate Keyed(m: Store) {
    forall k :: k in m ==> m[k].id == Some(k)
  }

  function Without(m: Store, k: string): Store {
    m - {k}
  }

  /** Insert or overwrite; a failed overwrite drops the key, a failed insert changes nothing. */
  function Create(m: Store, s: Session, room: bool, copied: bool): (Store, int) {
    if s.id.None? then (m, -1)
    else if s.id.value in m then (if copied then (m[s.id.value := s], 0) else (Without(m, s.id.value), -1))
    else if room && copied then (m[s.id.value := s], 0)
    else (m, -1)
  }

  /** A dead session is removed and not returned. */
  function Get(m: Store, id: Option<string>, now: int, copied: bool): (Store, Option<Session>) {
    if id.None? || id.value !in m then (m, None)
    else if Expired(m[id.value], now) then (Without(m, id.value), None)
    else (m, if copied then Some(m[id.value]) else None)
  }

  /** Overwrites whatever is physically present, dead or alive; never inserts. */
  function Update(m: Store, s: Session, copied: bool): (Store, int) {
    if s.id.None? || s.id.value !in m then (m, -1)
    else if copied then (m[s.id.value := s], 0)
    else (Without(m, s.id.value), -1)
  }

  function Delete(m: Store, id: Option<string>): Store {
    if id.None? then m else Without(m, id.value)
  }

  /** The sessions alive at a time. */
  function Live(m: Store, now: int): Store {
    map k | k in m && !Expired(m[k], now) :: m[k]
  }

  /**
   What a purge that takes from one time to a later one may leave: no session that was
   dead at the start, every session that is alive at the end, and nothing new.
   */
  ghost predicate Purged(m: Store, m': Store, start: int, end: int) {
    && (forall k :: k in m' ==> k in m && m'[k] == m[k] && !Expired(m[k], start))
    && (forall k :: k in m && !Expired(m[k], end) ==> k in m')
  }

  /** A purge at one time leaves exactly the sessions alive then. */
  lemma PurgedAtOnce(m: Store, m': Store, now: int)
    ensures Purged(m, m', now, now) <==> m' == Live(m, now)
  {
    if Purged(m, m', now, now) {
      assert forall k :: k in m' <==> k in Live(m, now);
    }
  }

  function OfUser(m: Store, user: string): Store {
    map k | k in m && m[k].userId == Some(user) :: m[k]
  }

  function NotOfUser(m: Store, user: string): Store {
    map k | k in m && m[k].userId != Some(user) :: m[k]
  }
}
