/**
 Lazy expiry as seen by callers: which operations can tell a dead session that is
 still in the array from one that was purged.
 */
module StoreLaws {
  import opened Wrappers
  import opened Sessions
  import opened StoreSpec

  datatype Op =
    | OpCreate(session: Session, copied: bool)
    | OpGet(id: Option<string>, copied: bool)
    | OpUpdate(session: Session, copied: bool)
    | OpDelete(id: Option<string>)
    | OpGetByUser(user: string)
    | OpDeleteByUser(user: string)

  datatype Result = Code(rc: int) | Found(session: Option<Session>) | Listing(sessions: Store)

  /** `room` tells whether this store has a slot for one more session, or gets one. */
  function Step(m: Store, room: bool, op: Op, now: int): (Store, Result) {
    match op
    case OpCreate(s, copied) => var (m', rc) := Create(m, s, room, copied); (m', Code(rc))
    case OpGet(id, copied) => var (m', r) := Get(m, id, now, copied); (m', Found(r))
    case OpUpdate(s, copied) => var (m', rc) := Update(m, s, copied); (m', Code(rc))
    case OpDelete(id) => (Delete(m, id), Code(0))
    case OpGetByUser(u) => (Live(m, now), Listing(OfUser(Live(m, now), u)))
    case OpDeleteByUser(u) => (NotOfUser(m, u), Code(0))
  }

  /**
   The two operations whose answer depends on what is physically there, and when it does:
   on the presence of the session, and on the room that a purged one leaves.
   */
  predicate Hinges(m1: Store, room1: bool, m2: Store, room2: bool, op: Op) {
    match op
    case OpCreate(s, copied) =>
      s.id.Some? && copied && (s.id.value in m1 || room1) != (s.id.value in m2 || room2)
    case OpUpdate(s, copied) => s.id.Some? && copied && (s.id.value in m1) != (s.id.value in m2)
    case _ => false
  }

  // ---------------------------------------------------------------- what reads see

  /** The session that a reader of an identifier sees at a time. */
  function Seen(m: Store, k: string, t: int): Option<Session> {
    if k in m && !(m[k].hasExpires && t > m[k].expiresAt) then Some(m[k]) else None
  }

  /** What an operation returns, in terms of what readers see and what is there. */
  lemma StepReturns(m: Store, room: bool, op: Op, now: int)
    ensures var r := Step(m, room, op, now).1;
            match op
            case OpCreate(s, copied) => r == Code(if s.id.Some? && copied && (s.id.value in m || room) then 0 else -1)
            case OpUpdate(s, copied) => r == Code(if s.id.Some? && copied && s.id.value in m then 0 else -1)
            case OpGet(id, copied) => r == Found(if id.Some? && copied then Seen(m, id.value, now) else None)
            case OpDelete(_) => r == Code(0)
            case OpDeleteByUser(_) => r == Code(0)
            case OpGetByUser(u) =>
              r.Listing? && forall k :: (k in r.sessions <==> Seen(m, k, now).Some? && Seen(m, k, now).value.userId == Some(u))
                                        && (k in r.sessions ==> r.sessions[k] == Seen(m, k, now).value)
  {
  }

  /** What readers see afterwards: the one session or the one user an operation is about changes, all others stay. */
  lemma StepSeen(m: Store, room: bool, op: Op, now: int, k: string, t: int)
    requires now <= t
    ensures var before, after := Seen(m, k, t), Seen(Step(m, room, op, now).0, k, t);
            match op
            case OpCreate(s, copied) =>
              after == if s.id != Some(k) then before
                       else if copied && (k in m || room) then (if s.hasExpires && t > s.expiresAt then None else Some(s))
                       else if k in m then None else before
            case OpUpdate(s, copied) =>
              after == if s.id != Some(k) || k !in m then before
                       else if copied then (if s.hasExpires && t > s.expiresAt then None else Some(s)) else None
            case OpDelete(id) => after == if id == Some(k) then None else before
            case OpDeleteByUser(u) => after == if before.Some? && before.value.userId == Some(u) then None else before
            case _ => after == before
  {
  }

  // ---------------------------------------------------------------- laziness

  lemma LiveLater(m1: Store, m2: Store, t: int, t': int)
    requires Live(m1, t) == Live(m2, t) && t <= t'
    ensures Live(m1, t') == Live(m2, t')
  {
    forall k | k in Live(m1, t') ensures k in Live(m2, t') && m1[k] == m2[k] {
      assert k in Live(m1, t) && Live(m1, t)[k] == m1[k];
      assert k in Live(m2, t) && Live(m2, t)[k] == m2[k];
    }
    forall k | k in Live(m2, t') ensures k in Live(m1, t') {
      assert k in Live(m2, t) && Live(m2, t)[k] == m2[k];
      assert k in Live(m1, t) && Live(m1, t)[k] == m1[k];
    }
  }

  /** Membership and value of one key, in the form the case analysis below uses. */
  lemma LiveAt(m1: Store, m2: Store, now: int, k: string)
    requires Live(m1, now) == Live(m2, now)
    ensures (k in m1 && !Expired(m1[k], now)) == (k in m2 && !Expired(m2[k], now))
    ensures k in m1 && !Expired(m1[k], now) ==> m1[k] == m2[k]
  {
    if k in m1 && !Expired(m1[k], now) {
      assert k in Live(m1, now) && Live(m1, now)[k] == m1[k];
      assert k in Live(m2, now) && Live(m2, now)[k] == m2[k];
    }
    if k in m2 && !Expired(m2[k], now) {
      assert k in Live(m2, now) && Live(m2, now)[k] == m2[k];
      assert k in Live(m1, now);
    }
  }

  lemma SameLive(m1: Store, m2: Store, now: int)
    requires forall k :: AgreeAt(m1, m2, now, k)
    ensures Live(m1, now) == Live(m2, now)
  {
    forall k ensures (k in Live(m1, now) <==> k in Live(m2, now)) && (k in Live(m1, now) ==> m1[k] == m2[k]) {
      assert AgreeAt(m1, m2, now, k);
    }
  }

  /**
   Two stores with the same live sessions answer alike, and stay alike, exactly when the
   operation does not hinge on a dead session: on its presence, or on the slot it takes.
   */
  lemma OneStepLaziness(m1: Store, room1: bool, m2: Store, room2: bool, op: Op, now: int)
    requires Live(m1, now) == Live(m2, now)
    ensures Step(m1, room1, op, now).1 == Step(m2, room2, op, now).1 <==> !Hinges(m1, room1, m2, room2, op)
    ensures !Hinges(m1, room1, m2, room2, op) ==>
              Live(Step(m1, room1, op, now).0, now) == Live(Step(m2, room2, op, now).0, now)
  {
    SameSessions(m1, m2, now);
    hide Live, Expired, AgreeAt;
    match op
    case OpCreate(s, copied) => CreateLaziness(m1, room1, m2, room2, s, copied, now);
    case OpGetByUser(user) =>
      StepListing(m1, now, user);
      StepListing(m2, now, user);
    case OpDeleteByUser(user) => OthersLaziness(m1, m2, user, now);
    case _ => OneKeyLaziness(m1, room1, m2, room2, op, now);
  }

  /** One key is alive in both stores or in neither, with the same session. */
  predicate AgreeAt(m1: Store, m2: Store, now: int, k: string) {
    && (k in m1 && !Expired(m1[k], now)) == (k in m2 && !Expired(m2[k], now))
    && (k in m1 && k in m2 && !Expired(m1[k], now) && !Expired(m2[k], now) ==> m1[k] == m2[k])
  }

  lemma SameSessions(m1: Store, m2: Store, now: int)
    ensures Live(m1, now) == Live(m2, now) <==> forall k :: AgreeAt(m1, m2, now, k)
  {
    if Live(m1, now) == Live(m2, now) {
      forall k ensures AgreeAt(m1, m2, now, k) {
        LiveAt(m1, m2, now, k);
      }
    }
    if forall k :: AgreeAt(m1, m2, now, k) {
      SameLive(m1, m2, now);
    }
  }

  lemma CreateLaziness(m1: Store, room1: bool, m2: Store, room2: bool, s: Session, copied: bool, now: int)
    requires forall k :: AgreeAt(m1, m2, now, k)
    ensures Create(m1, s, room1, copied).1 == Create(m2, s, room2, copied).1 <==>
            !Hinges(m1, room1, m2, room2, OpCreate(s, copied))
    ensures !Hinges(m1, room1, m2, room2, OpCreate(s, copied)) ==>
              Live(Create(m1, s, room1, copied).0, now) == Live(Create(m2, s, room2, copied).0, now)
  {
    var n1, n2 := Create(m1, s, room1, copied).0, Create(m2, s, room2, copied).0;
    hide Live;
    SameSessions(n1, n2, now);
    if !Hinges(m1, room1, m2, room2, OpCreate(s, copied)) {
      forall k ensures AgreeAt(n1, n2, now, k) {
        assert AgreeAt(m1, m2, now, k);
      }
    }
  }

  lemma OthersLaziness(m1: Store, m2: Store, user: string, now: int)
    requires forall k :: AgreeAt(m1, m2, now, k)
    ensures Live(NotOfUser(m1, user), now) == Live(NotOfUser(m2, user), now)
  {
    hide Live;
    SameSessions(NotOfUser(m1, user), NotOfUser(m2, user), now);
    forall k ensures AgreeAt(NotOfUser(m1, user), NotOfUser(m2, user), now, k) {
      assert AgreeAt(m1, m2, now, k);
    }
  }

  lemma OneKeyLaziness(m1: Store, room1: bool, m2: Store, room2: bool, op: Op, now: int)
    requires op.OpGet? || op.OpUpdate? || op.OpDelete?
    requires forall k :: AgreeAt(m1, m2, now, k)
    ensures Step(m1, room1, op, now).1 == Step(m2, room2, op, now).1 <==> !Hinges(m1, room1, m2, room2, op)
    ensures !Hinges(m1, room1, m2, room2, op) ==>
              Live(Step(m1, room1, op, now).0, now) == Live(Step(m2, room2, op, now).0, now)
  {
    var n1, n2 := Step(m1, room1, op, now).0, Step(m2, room2, op, now).0;
    hide Live;
    assert op.OpGet? && op.id.Some? ==> AgreeAt(m1, m2, now, op.id.value);
    SameSessions(n1, n2, now);
    if !Hinges(m1, room1, m2, room2, op) {
      forall k ensures AgreeAt(n1, n2, now, k) {
        assert AgreeAt(m1, m2, now, k);
      }
    }
  }

  lemma StepListing(m: Store, now: int, user: string)
    ensures Live(Live(m, now), now) == Live(m, now)
  {
  }

  datatype Timed = Timed(op: Op, now: int)

  /** The answers of a store to a sequence of operations, given its room at each of them. */
  function Answers(m: Store, rooms: seq<bool>, ops: seq<Timed>): seq<Result>
    requires |rooms| == |ops|
    decreases |ops|
  {
    if |ops| == 0 then []
    else var (m', r) := Step(m, rooms[0], ops[0].op, ops[0].now); [r] + Answers(m', rooms[1..], ops[1..])
  }

  /** No operation of the sequence hinges on what is physically there when it comes. */
  predicate NeverHinges(m1: Store, rooms1: seq<bool>, m2: Store, rooms2: seq<bool>, ops: seq<Timed>)
    requires |rooms1| == |rooms2| == |ops|
    decreases |ops|
  {
    |ops| == 0
    || (!Hinges(m1, rooms1[0], m2, rooms2[0], ops[0].op)
        && NeverHinges(Step(m1, rooms1[0], ops[0].op, ops[0].now).0, rooms1[1..],
                       Step(m2, rooms2[0], ops[0].op, ops[0].now).0, rooms2[1..], ops[1..]))
  }

  ghost predicate Ordered(t: int, ops: seq<Timed>) {
    && (forall i :: 0 <= i < |ops| ==> t <= ops[i].now)
    && (forall i, j :: 0 <= i < j < |ops| ==> ops[i].now <= ops[j].now)
  }

  /**
   Lazy expiry over sequences, exactly: two stores that agree on the live sessions at one
   time give the same answers to a later sequence if and only if none of them hinges.
   */
  lemma {:induction false} LazinessIff(m1: Store, rooms1: seq<bool>, m2: Store, rooms2: seq<bool>, t: int, ops: seq<Timed>)
    requires Live(m1, t) == Live(m2, t) && |rooms1| == |rooms2| == |ops|
    requires Ordered(t, ops)
    ensures Answers(m1, rooms1, ops) == Answers(m2, rooms2, ops) <==> NeverHinges(m1, rooms1, m2, rooms2, ops)
    decreases |ops|
  {
    if |ops| > 0 {
      var now, op := ops[0].now, ops[0].op;
      LiveLater(m1, m2, t, now);
      OneStepLaziness(m1, rooms1[0], m2, rooms2[0], op, now);
      hide Step, Hinges, Live;
      var a1, a2 := Answers(m1, rooms1, ops), Answers(m2, rooms2, ops);
      assert a1[0] == Step(m1, rooms1[0], op, now).1 && a2[0] == Step(m2, rooms2[0], op, now).1;
      assert forall i :: 0 <= i < |ops[1..]| ==> ops[1..][i] == ops[i + 1];
      if !Hinges(m1, rooms1[0], m2, rooms2[0], op) {
        LazinessIff(Step(m1, rooms1[0], op, now).0, rooms1[1..], Step(m2, rooms2[0], op, now).0, rooms2[1..], now, ops[1..]);
        assert a1[1..] == Answers(Step(m1, rooms1[0], op, now).0, rooms1[1..], ops[1..]);
        assert a2[1..] == Answers(Step(m2, rooms2[0], op, now).0, rooms2[1..], ops[1..]);
      }
    }
  }

  /** Operations that never hinge, whatever the two stores are: no update, and no create that lacks room. */
  predicate Indifferent(op: Op, room1: bool, room2: bool) {
    !op.OpUpdate? && (op.OpCreate? ==> room1 && room2)
  }

  lemma {:induction false} IndifferentNeverHinges(m1: Store, rooms1: seq<bool>, m2: Store, rooms2: seq<bool>, ops: seq<Timed>)
    requires |rooms1| == |rooms2| == |ops|
    requires forall i :: 0 <= i < |ops| ==> Indifferent(ops[i].op, rooms1[i], rooms2[i])
    ensures NeverHinges(m1, rooms1, m2, rooms2, ops)
    decreases |ops|
  {
    if |ops| > 0 {
      hide Step;
      assert Indifferent(ops[0].op, rooms1[0], rooms2[0]);
      IndifferentNeverHinges(Step(m1, rooms1[0], ops[0].op, ops[0].now).0, rooms1[1..],
                             Step(m2, rooms2[0], ops[0].op, ops[0].now).0, rooms2[1..], ops[1..]);
    }
  }

  /**
   Lazy expiry is invisible: stores that agree on the live sessions at one time give the
   same answers to every later sequence of indifferent operations, whatever was purged.
   */
  lemma LazyExpiryInvisible(m1: Store, rooms1: seq<bool>, m2: Store, rooms2: seq<bool>, t: int, ops: seq<Timed>)
    requires Live(m1, t) == Live(m2, t) && |rooms1| == |rooms2| == |ops|
    requires Ordered(t, ops)
    requires forall i :: 0 <= i < |ops| ==> Indifferent(ops[i].op, rooms1[i], rooms2[i])
    ensures Answers(m1, rooms1, ops) == Answers(m2, rooms2, ops)
  {
    IndifferentNeverHinges(m1, rooms1, m2, rooms2, ops);
    LazinessIff(m1, rooms1, m2, rooms2, t, ops);
  }

  /** Purging at any time is one way of being such a store. */
  lemma PurgeInvisible(m: Store, t: int, rooms1: seq<bool>, rooms2: seq<bool>, ops: seq<Timed>)
    requires |rooms1| == |rooms2| == |ops|
    requires Ordered(t, ops)
    requires forall i :: 0 <= i < |ops| ==> Indifferent(ops[i].op, rooms1[i], rooms2[i])
    ensures Answers(Live(m, t), rooms1, ops) == Answers(m, rooms2, ops)
  {
    StepListing(m, t, "");
    LazyExpiryInvisible(Live(m, t), rooms1, m, rooms2, t, ops);
  }

  /** An update brings a dead session back only while it is still in the array. */
  lemma UpdateSeesTheDead(m: Store, s: Session, now: int)
    requires s.id.Some? && s.id.value in m && Expired(m[s.id.value], now)
    ensures Update(m, s, true) == (m[s.id.value := s], 0)
    ensures Update(Live(m, now), s, true) == (Live(m, now), -1)
    ensures !Expired(s, now) ==> Live(Update(m, s, true).0, now) != Live(Update(Live(m, now), s, true).0, now)
  {
    if !Expired(s, now) {
      assert s.id.value in Live(Update(m, s, true).0, now);
    }
  }
}
