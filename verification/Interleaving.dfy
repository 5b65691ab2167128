/**
 The handlers at the granularity of the store's lock: a handler that goes on after its
 get waits with a private copy of the session, and any number of moves of other handlers
 may come before its second store operation.
 */
module Interleaving {
  import opened Wrappers
  import opened Sessions
  import opened StoreSpec
  import opened Jwt
  import opened Protocol
  import opened Effects
  import Header
  import Runs

  /** A handler between its get and its update, or between its get and its delete. */
  datatype Thread =
    | Updates(step: Step, copy: Session, next: Session, kind: EventKind)
    | Deletes(step: Step, copy: Session)

  datatype Server = Server(store: Store, pending: map<nat, Thread>)

  datatype Move = Begin(h: nat, step: Step) | Finish(h: nat)

  const START := Server(map[], map[])

  /** What a handler still has to do after its first store operation. */
  function Plan(cfg: Config, m: Store, step: Step): Option<Thread> {
    match step
    case DoRegister(id, header, e) =>
      var got := Fetch(m, id, e).1;
      var d := if got.Some? then RegisterDecision(cfg, got.value, Legible(cfg.foreign, header, e.jwt)) else WrongState;
      if Header.Present(id) && d.Accept? then
        var p := d.proof;
        Some(Updates(step, got.value, BoundSession(cfg, got.value, p, e), Registered))
      else None
    case DoRefresh(id, header, e) =>
      var got := Fetch(m, id, e).1;
      if Header.Present(id) && got.Some? && RefreshDecision(cfg, got.value, Legible(cfg.foreign, header, e.jwt)).Accept? then
        Some(Updates(step, got.value, ExtendedSession(cfg, got.value, e), Refreshed))
      else None
    case DoClose(id, e) =>
      var got := Fetch(m, id, e).1;
      if Header.Present(id) && got.Some? && (got.value.userId.Some? ==> e.copyUser) && e.makeBody then
        Some(Deletes(step, got.value))
      else None
    case _ => None
  }

  function Resume(cfg: Config, m: Store, t: Thread): (Store, Outcome) {
    match t
    case Updates(step, copy, next, kind) => Commit(cfg, m, next, kind, step.env)
    case Deletes(step, copy) =>
      (Delete(m, copy.id),
       Outcome(0, NO_RESPONSE.(status := 200, setCookie := Some(CookieValue(copy.id, 0)), body := Some(Stop)),
               if copy.id.None? then None else Some(Event(Closed, copy.userId, copy.id.value))))
  }

  /** One locked store operation, and the answer if the handler ends with it. */
  function Next(cfg: Config, s: Server, mv: Move): (Server, Option<Outcome>) {
    match mv
    case Begin(h, step) =>
      if h in s.pending then (s, None)
      else
        var plan := Plan(cfg, s.store, step);
        if plan.Some? then (s.(pending := s.pending[h := plan.value]), None)
        else (s.(store := Apply(cfg, s.store, step).0), Some(Apply(cfg, s.store, step).1))
    case Finish(h) =>
      if h !in s.pending then (s, None)
      else
        var (m', o) := Resume(cfg, s.store, s.pending[h]);
        (Server(m', s.pending - {h}), Some(o))
  }

  /** The two halves of a handler, one right after the other, are the atomic handler. */
  lemma TwoHalves(cfg: Config, m: Store, step: Step)
    requires Keyed(m) && Plan(cfg, m, step).Some?
    ensures Resume(cfg, m, Plan(cfg, m, step).value) == Apply(cfg, m, step)
  {
    hide RegisterDecision, RefreshDecision, CopySucceeds, Commit, BoundSession, ExtendedSession;
  }

  // ---------------------------------------------------------------- histories

  type Moves = seq<Move>

  function Before(ms: Moves): Moves
    requires |ms| > 0
  {
    ms[..|ms| - 1]
  }

  function Last(ms: Moves): Move
    requires |ms| > 0
  {
    ms[|ms| - 1]
  }

  function ServerOf(cfg: Config, ms: Moves): Server {
    if |ms| == 0 then START else Next(cfg, ServerOf(cfg, Before(ms)), Last(ms)).0
  }

  /** The request a move belongs to. */
  function StepOf(s: Server, mv: Move): Option<Step> {
    match mv
    case Begin(h, step) => if h in s.pending then None else Some(step)
    case Finish(h) => if h in s.pending then Some(s.pending[h].step) else None
  }

  function KindNow(cfg: Config, s: Server, mv: Move, id: string): seq<EventKind> {
    var o := Next(cfg, s, mv).1;
    if o.Some? && Concerns(o.value, id) then [o.value.event.value.kind] else []
  }

  /** The jti of the proof whose acceptance a move completes. */
  function AcceptedNow(cfg: Config, s: Server, mv: Move): seq<Option<string>> {
    var o, step := Next(cfg, s, mv).1, StepOf(s, mv);
    if o.Some? && step.Some? && Runs.Accepts(step.value, o.value) then [Runs.Jti(cfg, step.value)] else []
  }

  /** The identifier a move draws from the generator. */
  function IdNow(s: Server, mv: Move): Option<string> {
    if mv.Begin? && StepOf(s, mv).Some? then Runs.DrawnId(mv.step) else None
  }

  /** The challenge a move draws: a login at once, a proof only after its checks. */
  function ChallengeNow(s: Server, mv: Move): Option<string> {
    match mv
    case Begin(h, step) => if h !in s.pending && step.DoInitiate? then step.env.challenge else None
    case Finish(h) => if h in s.pending && s.pending[h].Updates? then s.pending[h].step.env.challenge else None
  }

  function Kinds(cfg: Config, ms: Moves, id: string): seq<EventKind> {
    if |ms| == 0 then [] else Kinds(cfg, Before(ms), id) + KindNow(cfg, ServerOf(cfg, Before(ms)), Last(ms), id)
  }

  function Accepted(cfg: Config, ms: Moves): seq<Option<string>> {
    if |ms| == 0 then [] else Accepted(cfg, Before(ms)) + AcceptedNow(cfg, ServerOf(cfg, Before(ms)), Last(ms))
  }

  function Ids(cfg: Config, ms: Moves): seq<Option<string>> {
    if |ms| == 0 then [] else Ids(cfg, Before(ms)) + [IdNow(ServerOf(cfg, Before(ms)), Last(ms))]
  }

  function Draws(cfg: Config, ms: Moves): seq<Option<string>> {
    if |ms| == 0 then [] else Draws(cfg, Before(ms)) + [ChallengeNow(ServerOf(cfg, Before(ms)), Last(ms))]
  }

  ghost predicate NoRepeats(s: seq<Option<string>>) {
    forall i, j :: 0 <= i < j < |s| && s[i].Some? ==> s[i] != s[j]
  }

  lemma NoRepeatsLast(s: seq<Option<string>>, x: Option<string>)
    requires NoRepeats(s + [x])
    ensures NoRepeats(s) && (x.Some? ==> x !in s)
  {
    var t := s + [x];
    assert t[|s|] == x;
    assert forall i :: 0 <= i < |s| ==> t[i] == s[i];
  }

  // ---------------------------------------------------------------- one move

  /** What holds of a waiting handler whatever the others do. */
  predicate Sound(cfg: Config, t: Thread) {
    && t.copy.id.Some?
    && (t.Deletes? ==> t.step.DoClose?)
    && (t.Updates? ==>
          && (t.step.DoRegister? || t.step.DoRefresh?)
          && t.next.id == t.copy.id && t.next.userId == t.copy.userId && t.next.createdAt == t.copy.createdAt
          && t.next.state == Bound && t.kind == (if t.copy.state == Active then Registered else Refreshed)
          && t.copy.challenge.Some? && Runs.Jti(cfg, t.step) == t.copy.challenge
          && t.next.challenge == Overwritten(t.copy.challenge, t.step.env.challenge, t.step.env.dup.challenge))
  }

  /** A handler plans only for a session it has just read. */
  lemma PlanIsSound(cfg: Config, m: Store, step: Step)
    requires Keyed(m) && Plan(cfg, m, step).Some?
    ensures var t := Plan(cfg, m, step).value;
            t.step == step && Sound(cfg, t) && t.copy.id.value in m && m[t.copy.id.value] == t.copy
  {
    hide DecodeToken, SignatureOk, CopySucceeds;
  }

  /** Nothing but a login, a deletion or an expiry happens in a first operation that ends its handler. */
  lemma Unplanned(cfg: Config, m: Store, step: Step, id: string)
    requires Keyed(m) && Plan(cfg, m, step).None?
    ensures var (m', o) := Apply(cfg, m, step);
            && Keyed(m') && !Runs.Accepts(step, o)
            && (Untouched(m, m', o, id) || Vanished(m', o, id) || Born(cfg, m', step, o, id))
  {
    StepEffect(cfg, m, step, id);
    match step
    case DoRegister(sid, header, e) => NoCommit(cfg, m, sid, header, e);
    case DoRefresh(sid, header, e) => NoExtension(cfg, m, sid, header, e);
    case DoClose(sid, e) =>
      hide CopySucceeds;
      assert Apply(cfg, m, step).1.Outcome? ==> Apply(cfg, m, step).1.event.None?;
    case _ =>
  }

  lemma NoCommit(cfg: Config, m: Store, id: Option<string>, header: Option<string>, e: Env)
    requires Plan(cfg, m, DoRegister(id, header, e)).None?
    ensures var o := Register(cfg, m, id, header, e).1; o.Outcome? ==> o.event.None? && o.resp.status != 200
  {
    hide RegisterDecision, CopySucceeds;
  }

  lemma NoExtension(cfg: Config, m: Store, id: Option<string>, header: Option<string>, e: Env)
    requires Plan(cfg, m, DoRefresh(id, header, e)).None?
    ensures var o := Refresh(cfg, m, id, header, e).1; o.Outcome? ==> o.event.None? && o.resp.status != 200
  {
    hide RefreshDecision, CopySucceeds;
  }

  /** A move stores the plan of a waiting handler for a session that is still there. */
  predicate Written(s: Server, s': Server, mv: Move, o: Option<Outcome>, id: string) {
    && mv.Finish? && mv.h in s.pending && s.pending[mv.h].Updates?
    && var t := s.pending[mv.h];
       && t.copy.id == Some(id) && id in s.store && id in s'.store && s'.store[id] == t.next
       && t.step.env.challenge.Some?
       && o.Some? && Announces(o.value, t.kind, t.copy.userId, id, 200)
  }

  predicate Created(cfg: Config, s: Server, s': Server, mv: Move, o: Option<Outcome>, id: string) {
    mv.Begin? && mv.h !in s.pending && o.Some? && Born(cfg, s'.store, mv.step, o.value, id)
  }

  /** A waiting close of the session ends, whether or not the session is still there. */
  predicate Removed(s: Server, s': Server, mv: Move, o: Option<Outcome>, id: string) {
    && id !in s'.store
    && mv.Finish? && mv.h in s.pending && s.pending[mv.h].Deletes? && s.pending[mv.h].copy.id == Some(id)
    && o.Some? && Concerns(o.value, id) && o.value.event.value.kind == Closed
  }

  predicate Silent(o: Option<Outcome>, id: string) {
    o.Some? ==> !Concerns(o.value, id)
  }

  predicate MoveEffect(cfg: Config, s: Server, s': Server, mv: Move, o: Option<Outcome>, id: string) {
    || (Silent(o, id) && (id in s.store <==> id in s'.store) && (id in s.store ==> s'.store[id] == s.store[id]))
    || (Silent(o, id) && id !in s'.store)
    || Created(cfg, s, s', mv, o, id)
    || Written(s, s', mv, o, id)
    || Removed(s, s', mv, o, id)
  }

  ghost predicate Proper(cfg: Config, s: Server) {
    Keyed(s.store) && forall h :: h in s.pending ==> Sound(cfg, s.pending[h])
  }

  lemma FinishEffect(cfg: Config, s: Server, h: nat, id: string)
    requires Proper(cfg, s) && h in s.pending
    ensures var (s', o) := Next(cfg, s, Finish(h)); Keyed(s'.store) && MoveEffect(cfg, s, s', Finish(h), o, id)
    ensures s.pending[h].Deletes? ==> AcceptedNow(cfg, s, Finish(h)) == []
    ensures s.pending[h].Updates? ==>
              var k := s.pending[h].copy.id.value;
              AcceptedNow(cfg, s, Finish(h)) ==
                if KindNow(cfg, s, Finish(h), k) == [] then [] else [s.pending[h].copy.challenge]
  {
    hide CopySucceeds, Runs.Jti;
    var t := s.pending[h];
    var m := s.store;
    var (m', o) := Resume(cfg, m, t);
    if t.Updates? {
      assert m' == m || m' == m[t.copy.id.value := t.next] || m' == Without(m, t.copy.id.value);
    }
  }

  lemma NextEffect(cfg: Config, s: Server, mv: Move, id: string)
    requires Proper(cfg, s)
    ensures Proper(cfg, Next(cfg, s, mv).0)
    ensures MoveEffect(cfg, s, Next(cfg, s, mv).0, mv, Next(cfg, s, mv).1, id)
    ensures mv.Begin? ==> AcceptedNow(cfg, s, mv) == []
  {
    hide Sound, Plan, Apply, Resume, Runs.Jti, Announces;
    match mv
    case Begin(h, step) =>
      if h !in s.pending {
        if Plan(cfg, s.store, step).Some? {
          PlanIsSound(cfg, s.store, step);
        } else {
          Unplanned(cfg, s.store, step, id);
        }
      }
    case Finish(h) =>
      if h in s.pending {
        FinishEffect(cfg, s, h, id);
      }
  }

  // ---------------------------------------------------------------- what every interleaving keeps

  /** The parts of a session that no operation may change, and the one-way step of its state. */
  predicate Continues(s: Session, t: Session) {
    && t.id == s.id && t.userId == s.userId && t.createdAt == s.createdAt
    && (s.state == Bound ==> t.state == Bound)
  }

  /** Every copy is an earlier state of its session, and of a session that had its login. */
  ghost predicate CopyInv(s: Server, ids: seq<Option<string>>) {
    && (forall k :: k in s.store ==> Some(k) in ids)
    && (forall h :: h in s.pending && s.pending[h].copy.id.Some? ==>
          && s.pending[h].copy.id in ids
          && (s.pending[h].copy.id.value in s.store ==> Continues(s.pending[h].copy, s.store[s.pending[h].copy.id.value])))
  }

  lemma {:induction false} CopiesAlways(cfg: Config, ms: Moves)
    requires NoRepeats(Ids(cfg, ms))
    ensures Proper(cfg, ServerOf(cfg, ms)) && CopyInv(ServerOf(cfg, ms), Ids(cfg, ms))
  {
    if |ms| > 0 {
      var s, mv := ServerOf(cfg, Before(ms)), Last(ms);
      hide Next;
      NoRepeatsLast(Ids(cfg, Before(ms)), IdNow(s, mv));
      CopiesAlways(cfg, Before(ms));
      CopyStep(cfg, s, mv, Ids(cfg, Before(ms)));
    }
  }

  /** One move on one session: it goes on, or it is gone, or it is a login under a new identifier. */
  lemma Continuation(cfg: Config, s: Server, mv: Move, ids: seq<Option<string>>, id: string)
    requires Proper(cfg, s) && CopyInv(s, ids)
    requires IdNow(s, mv).Some? ==> IdNow(s, mv) !in ids
    ensures var s' := Next(cfg, s, mv).0;
            && (id in s.store && id in s'.store ==> Continues(s.store[id], s'.store[id]))
            && (id in s'.store && id !in s.store ==> IdNow(s, mv) == Some(id))
  {
    hide Next, Announces, NewSession, LoginHeader, NoRepeats;
    NextEffect(cfg, s, mv, id);
  }

  lemma PendingAfter(cfg: Config, s: Server, mv: Move, h: nat)
    requires Keyed(s.store) && h in Next(cfg, s, mv).0.pending
    ensures var s' := Next(cfg, s, mv).0;
            || (h in s.pending && s'.pending[h] == s.pending[h])
            || (mv.Begin? && mv.h == h && Some(s'.pending[h].step) == StepOf(s, mv) && s'.store == s.store
                && s'.pending[h].copy.id.Some? && s'.pending[h].copy.id.value in s.store
                && s.store[s'.pending[h].copy.id.value] == s'.pending[h].copy)
  {
    hide Plan, Apply, Resume;
    if mv.Begin? && mv.h == h && h !in s.pending {
      PlanIsSound(cfg, s.store, mv.step);
    }
  }

  lemma CopyStep(cfg: Config, s: Server, mv: Move, ids: seq<Option<string>>)
    requires Proper(cfg, s) && CopyInv(s, ids)
    requires IdNow(s, mv).Some? ==> IdNow(s, mv) !in ids
    ensures Proper(cfg, Next(cfg, s, mv).0) && CopyInv(Next(cfg, s, mv).0, ids + [IdNow(s, mv)])
  {
    var s', ids' := Next(cfg, s, mv).0, ids + [IdNow(s, mv)];
    hide Next, MoveEffect, Sound;
    NextEffect(cfg, s, mv, "");
    forall k | k in s'.store ensures Some(k) in ids' {
      Continuation(cfg, s, mv, ids, k);
    }
    forall h | h in s'.pending && s'.pending[h].copy.id.Some? ensures
        s'.pending[h].copy.id in ids'
        && (s'.pending[h].copy.id.value in s'.store ==> Continues(s'.pending[h].copy, s'.store[s'.pending[h].copy.id.value])) {
      PendingAfter(cfg, s, mv, h);
      Continuation(cfg, s, mv, ids, s'.pending[h].copy.id.value);
    }
  }

  /**
   Under any interleaving: a session that is still stored has kept its identifier, user and
   creation time, and is not active again once bound; a session that left never comes back.
   */
  lemma {:induction false} NeverBack(cfg: Config, ms: Moves, i: nat, j: nat, id: string)
    requires NoRepeats(Ids(cfg, ms)) && i <= j <= |ms|
    ensures var early, late := ServerOf(cfg, ms[..i]).store, ServerOf(cfg, ms[..j]).store;
            && (id in early && id in late ==> Continues(early[id], late[id]))
            && (id in late && Some(id) in Ids(cfg, ms[..i]) ==> id in early)
    decreases j
  {
    hide Next, Continues, CopyInv, Proper, Sound, IdNow, NoRepeats;
    if i < j {
      var p := ms[..j];
      assert Before(p) == ms[..j - 1];
      PrefixFresh(cfg, ms, j);
      NeverBack(cfg, ms, i, j - 1, id);
      NoRepeatsLast(Ids(cfg, Before(p)), IdNow(ServerOf(cfg, Before(p)), Last(p)));
      CopiesAlways(cfg, Before(p));
      Continuation(cfg, ServerOf(cfg, Before(p)), Last(p), Ids(cfg, Before(p)), id);
      PrefixFresh(cfg, ms, i);
      StoredIsDrawn(cfg, ms[..i], id);
      if Some(id) in Ids(cfg, ms[..i]) {
        IdsGrow(cfg, ms, i, j - 1, id);
      }
      ContinuesChain(ServerOf(cfg, ms[..i]).store, ServerOf(cfg, Before(p)).store, ServerOf(cfg, p).store, id);
    } else {
      assert ms[..i] == ms[..j];
      SameContinues(ServerOf(cfg, ms[..i]).store, id);
    }
  }

  lemma StoredIsDrawn(cfg: Config, ms: Moves, id: string)
    requires NoRepeats(Ids(cfg, ms))
    ensures id in ServerOf(cfg, ms).store ==> Some(id) in Ids(cfg, ms)
  {
    CopiesAlways(cfg, ms);
  }

  lemma SameContinues(a: Store, id: string)
    ensures id in a ==> Continues(a[id], a[id])
  {
  }

  lemma ContinuesChain(a: Store, b: Store, c: Store, id: string)
    requires id in a && id in b ==> Continues(a[id], b[id])
    requires id in b && id in c ==> Continues(b[id], c[id])
    ensures id in a && id in b && id in c ==> Continues(a[id], c[id])
  {
  }

  lemma {:induction false} PrefixFresh(cfg: Config, ms: Moves, j: nat)
    requires NoRepeats(Ids(cfg, ms)) && j <= |ms|
    ensures NoRepeats(Ids(cfg, ms[..j]))
    decreases |ms|
  {
    if j < |ms| {
      assert Before(ms)[..j] == ms[..j];
      NoRepeatsLast(Ids(cfg, Before(ms)), IdNow(ServerOf(cfg, Before(ms)), Last(ms)));
      PrefixFresh(cfg, Before(ms), j);
    } else {
      assert ms[..j] == ms;
    }
  }

  lemma {:induction false} IdsGrow(cfg: Config, ms: Moves, i: nat, j: nat, id: string)
    requires i <= j <= |ms| && Some(id) in Ids(cfg, ms[..i])
    ensures Some(id) in Ids(cfg, ms[..j])
    decreases j
  {
    if i < j {
      assert Before(ms[..j]) == ms[..j - 1];
      IdsGrow(cfg, ms, i, j - 1, id);
    }
  }
}
