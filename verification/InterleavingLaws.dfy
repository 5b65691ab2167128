/** What any interleaving of handlers still promises, and what only atomic handlers do. */
module InterleavingLaws {
  import opened Wrappers
  import opened Sessions
  import opened StoreSpec
  import opened Jwt
  import opened Protocol
  import opened Effects
  import opened Interleaving
  import Runs

  // ---------------------------------------------------------------- the lifecycle, loosened

  /**
   LOGIN first and only once; the first event after it is not REFRESH; nothing but CLOSE
   follows a CLOSE. A second REGISTER, or a second CLOSE, is possible.
   */
  predicate LooseLifecycle(ks: seq<EventKind>) {
    && (|ks| > 0 ==> ks[0] == Login)
    && (|ks| > 1 ==> ks[1] != Refreshed)
    && (forall i :: 1 <= i < |ks| ==> ks[i] != Login)
    && (forall i :: 1 <= i < |ks| && ks[i - 1] == Closed ==> ks[i] == Closed)
  }

  /** A session in the store had its login and no close, and is bound exactly when it registered. */
  ghost predicate LooseInv(s: Server, id: string, ks: seq<EventKind>, drawn: bool) {
    && LooseLifecycle(ks)
    && (!drawn ==> ks == [])
    && (id in s.store ==> |ks| > 0 && Closed !in ks && (s.store[id].state == Bound <==> |ks| > 1))
    && (forall h :: h in s.pending && s.pending[h].copy.id == Some(id) ==> |ks| > 0)
  }

  lemma LooseStep(cfg: Config, s: Server, mv: Move, ids: seq<Option<string>>, id: string, ks: seq<EventKind>)
    requires Proper(cfg, s) && CopyInv(s, ids) && LooseInv(s, id, ks, Some(id) in ids)
    requires IdNow(s, mv).Some? ==> IdNow(s, mv) !in ids
    ensures LooseInv(Next(cfg, s, mv).0, id, ks + KindNow(cfg, s, mv, id), Some(id) in ids + [IdNow(s, mv)])
  {
    var s', o, now := Next(cfg, s, mv).0, Next(cfg, s, mv).1, KindNow(cfg, s, mv, id);
    hide Next, MoveEffect, Sound, Proper, CopyInv, IdNow, LooseLifecycle;
    NextEffect(cfg, s, mv, id);
    forall h | h in s'.pending && s'.pending[h].copy.id == Some(id) ensures |ks| > 0 {
      StillKeyed(cfg, s);
      PendingAfter(cfg, s, mv, h);
    }
    LooseEvent(cfg, s, s', mv, o, ids, id, ks);
    if now == [] {
      assert ks + now == ks;
    } else {
      OneMore(ks, now[0]);
    }
  }

  lemma StillKeyed(cfg: Config, s: Server)
    requires Proper(cfg, s)
    ensures Keyed(s.store)
  {
  }

  /** A lifecycle grows by a login at the start, by a close, or before any close. */
  lemma OneMore(ks: seq<EventKind>, k: EventKind)
    requires LooseLifecycle(ks) && (ks == [] <==> k == Login) && (k == Refreshed ==> |ks| > 1)
    requires k != Closed ==> Closed !in ks
    ensures LooseLifecycle(ks + [k])
    ensures k != Closed ==> Closed !in ks + [k]
  {
    var ks' := ks + [k];
    assert ks'[|ks|] == k;
    assert forall i :: 0 <= i < |ks| ==> ks'[i] == ks[i];
    assert |ks| > 0 && ks[|ks| - 1] == Closed ==> Closed in ks;
  }

  /** Which event a move may add to the history of a session. */
  lemma LooseEvent(cfg: Config, s: Server, s': Server, mv: Move, o: Option<Outcome>, ids: seq<Option<string>>,
                   id: string, ks: seq<EventKind>)
    requires Proper(cfg, s) && CopyInv(s, ids) && LooseInv(s, id, ks, Some(id) in ids)
    requires IdNow(s, mv).Some? ==> IdNow(s, mv) !in ids
    requires MoveEffect(cfg, s, s', mv, o, id)
    ensures o.Some? && Concerns(o.value, id) ==>
              var k := o.value.event.value.kind;
              && (ks == [] <==> k == Login)
              && (k == Refreshed ==> |ks| > 1)
              && (k != Closed ==> Closed !in ks)
              && (id in s'.store ==> k != Closed && (s'.store[id].state == Bound <==> k != Login))
    ensures Silent(o, id) && id in s'.store ==> id in s.store && s'.store[id] == s.store[id]
    ensures !Silent(o, id) && ks == [] ==> IdNow(s, mv) == Some(id)
  {
    hide LooseLifecycle;
    if Created(cfg, s, s', mv, o, id) {
      assert IdNow(s, mv) == Some(id);
    }
  }

  lemma {:induction false} LooseAlways(cfg: Config, ms: Moves, id: string)
    requires NoRepeats(Ids(cfg, ms))
    ensures LooseInv(ServerOf(cfg, ms), id, Kinds(cfg, ms, id), Some(id) in Ids(cfg, ms))
  {
    if |ms| > 0 {
      var s, mv := ServerOf(cfg, Before(ms)), Last(ms);
      hide Next, LooseInv, CopyInv, Proper, KindNow;
      NoRepeatsLast(Ids(cfg, Before(ms)), IdNow(s, mv));
      LooseAlways(cfg, Before(ms), id);
      CopiesAlways(cfg, Before(ms));
      LooseStep(cfg, s, mv, Ids(cfg, Before(ms)), id, Kinds(cfg, Before(ms), id));
    } else {
      assert LooseInv(START, id, [], false);
    }
  }

  /** Any interleaving: LOGIN first, no REFRESH before REGISTER, nothing but CLOSE after CLOSE. */
  lemma InterleavedTrace(cfg: Config, ms: Moves, id: string)
    requires NoRepeats(Ids(cfg, ms))
    ensures LooseLifecycle(Kinds(cfg, ms, id))
    ensures Closed in Kinds(cfg, ms, id) ==> id !in ServerOf(cfg, ms).store
  {
    LooseAlways(cfg, ms, id);
  }

  // ---------------------------------------------------------------- the strict lifecycle, exactly

  /** A register that finishes still finds its session active, and no close finishes after a CLOSE. */
  predicate Orderly(s: Server, mv: Move, id: string, now: seq<EventKind>, ks: seq<EventKind>) {
    && (now == [Registered] && id in s.store ==> s.store[id].state == Active)
    && (now == [Closed] ==> Closed !in ks)
  }

  predicate AllOrderly(cfg: Config, ms: Moves, id: string) {
    |ms| == 0
    || (AllOrderly(cfg, Before(ms), id)
        && var s := ServerOf(cfg, Before(ms));
           Orderly(s, Last(ms), id, KindNow(cfg, s, Last(ms), id), Kinds(cfg, Before(ms), id)))
  }

  lemma LifecyclePrefix(ks: seq<EventKind>, k: EventKind)
    requires Runs.Lifecycle(ks + [k])
    ensures Runs.Lifecycle(ks)
  {
    var t := ks + [k];
    assert t[..|t| - 1] == ks;
    assert forall i :: 0 <= i < |ks| ==> t[i] == ks[i];
  }

  /** How one event continues a strict lifecycle, given what the loose one already ensures. */
  lemma StrictEvent(ks: seq<EventKind>, k: EventKind)
    requires Runs.Lifecycle(ks) && LooseLifecycle(ks + [k])
    requires k != Closed ==> Closed !in ks
    ensures Runs.Lifecycle(ks + [k]) <==> (k == Registered ==> |ks| <= 1) && (k == Closed ==> Closed !in ks)
  {
    var t := ks + [k];
    assert t[..|t| - 1] == ks && t[|ks|] == k;
    assert forall i :: 0 <= i < |ks| ==> t[i] == ks[i];
    assert |ks| > 0 && ks[|ks| - 1] == Closed ==> Closed in ks;
  }

  /** The event of a move, and what the store says about the session before it. */
  lemma EventFinds(cfg: Config, s: Server, mv: Move, ids: seq<Option<string>>, id: string, ks: seq<EventKind>, k: EventKind)
    requires Proper(cfg, s) && CopyInv(s, ids) && LooseInv(s, id, ks, Some(id) in ids)
    requires IdNow(s, mv).Some? ==> IdNow(s, mv) !in ids
    requires KindNow(cfg, s, mv, id) == [k]
    ensures k != Closed ==> Closed !in ks
    ensures k == Registered ==> id in s.store && (s.store[id].state == Active <==> |ks| <= 1)
  {
    var s', o := Next(cfg, s, mv).0, Next(cfg, s, mv).1;
    hide Next, NewSession, LooseLifecycle;
    NextEffect(cfg, s, mv, id);
    LooseEvent(cfg, s, s', mv, o, ids, id, ks);
  }

  /**
   Under any interleaving a session's events are a prefix of LOGIN (REGISTER REFRESH*)? CLOSE?
   if and only if every register that finishes still finds it active and no close finishes
   after another one.
   */
  lemma {:induction false} StrictIff(cfg: Config, ms: Moves, id: string)
    requires NoRepeats(Ids(cfg, ms))
    ensures Runs.Lifecycle(Kinds(cfg, ms, id)) <==> AllOrderly(cfg, ms, id)
  {
    if |ms| > 0 {
      var s, mv, ks := ServerOf(cfg, Before(ms)), Last(ms), Kinds(cfg, Before(ms), id);
      var now := KindNow(cfg, s, mv, id);
      hide Next, LooseInv, CopyInv, Proper, KindNow, LooseLifecycle, Runs.Lifecycle;
      NoRepeatsLast(Ids(cfg, Before(ms)), IdNow(s, mv));
      StrictIff(cfg, Before(ms), id);
      LooseAlways(cfg, Before(ms), id);
      CopiesAlways(cfg, Before(ms));
      AtMostOne(cfg, s, mv, id);
      if now == [] {
        assert Kinds(cfg, ms, id) == ks;
      } else {
        InterleavedTrace(cfg, ms, id);
        EventFinds(cfg, s, mv, Ids(cfg, Before(ms)), id, ks, now[0]);
        assert now == [now[0]];
        if Runs.Lifecycle(ks) {
          StrictEvent(ks, now[0]);
        } else if Runs.Lifecycle(ks + now) {
          LifecyclePrefix(ks, now[0]);
        }
      }
    }
  }

  lemma AtMostOne(cfg: Config, s: Server, mv: Move, id: string)
    ensures |KindNow(cfg, s, mv, id)| <= 1
  {
    hide Next;
  }

  // ---------------------------------------------------------------- the key, exactly

  predicate SameKey(s: Session, t: Session) {
    s.publicKey == t.publicKey && s.algorithm == t.algorithm
  }

  /** The move leaves the key and algorithm of a bound session as they are, if the session stays. */
  predicate KeepsKey(s: Server, s': Server, id: string) {
    id in s.store && s.store[id].state == Bound && id in s'.store ==> SameKey(s.store[id], s'.store[id])
  }

  predicate KeyStays(cfg: Config, ms: Moves, id: string) {
    |ms| == 0 || (KeyStays(cfg, Before(ms), id) && KeepsKey(ServerOf(cfg, Before(ms)), ServerOf(cfg, ms), id))
  }

  /** A register that finishes on a session that is bound by now brings the key and algorithm it has. */
  predicate Agreeing(cfg: Config, s: Server, mv: Move, id: string) {
    KindNow(cfg, s, mv, id) == [Registered] && Writer(s, mv).Some? && id in s.store && s.store[id].state == Bound ==>
      SameKey(Writer(s, mv).value.next, s.store[id])
  }

  predicate AllAgreeing(cfg: Config, ms: Moves, id: string) {
    |ms| == 0 || (AllAgreeing(cfg, Before(ms), id) && Agreeing(cfg, ServerOf(cfg, Before(ms)), Last(ms), id))
  }

  /** A waiting refresh holds the key and algorithm of its session. */
  ghost predicate RefreshInv(s: Server, id: string) {
    forall h :: h in s.pending && s.pending[h].Updates? && s.pending[h].kind == Refreshed
                && s.pending[h].copy.id == Some(id) && id in s.store ==>
      SameKey(s.pending[h].next, s.store[id])
  }

  lemma RefreshPlans(cfg: Config, m: Store, step: Step)
    requires Keyed(m) && Plan(cfg, m, step).Some? && Plan(cfg, m, step).value.Updates?
    ensures var t := Plan(cfg, m, step).value; t.kind == Refreshed ==> SameKey(t.next, t.copy)
  {
    hide RefreshDecision, RegisterDecision, CopySucceeds;
  }

  /** A move keeps the key of a bound session unless it is a register that disagrees with it. */
  lemma KeyStep(cfg: Config, s: Server, mv: Move, ids: seq<Option<string>>, id: string)
    requires Proper(cfg, s) && CopyInv(s, ids) && RefreshInv(s, id)
    requires IdNow(s, mv).Some? ==> IdNow(s, mv) !in ids
    ensures Agreeing(cfg, s, mv, id) <==> KeepsKey(s, Next(cfg, s, mv).0, id)
  {
    hide Next, NewSession, LoginHeader, Runs.Jti, Continues;
    NextEffect(cfg, s, mv, id);
    if KindNow(cfg, s, mv, id) == [Registered] {
      EventWriter(cfg, s, mv, id);
    }
  }

  lemma EventWriter(cfg: Config, s: Server, mv: Move, id: string)
    requires Proper(cfg, s) && KindNow(cfg, s, mv, id) == [Registered]
    ensures Written(s, Next(cfg, s, mv).0, mv, Next(cfg, s, mv).1, id)
  {
    hide Next, NewSession, LoginHeader, Runs.Jti;
    NextEffect(cfg, s, mv, id);
  }

  lemma RefreshStep(cfg: Config, s: Server, mv: Move, ids: seq<Option<string>>, id: string)
    requires Proper(cfg, s) && CopyInv(s, ids) && RefreshInv(s, id) && KeepsKey(s, Next(cfg, s, mv).0, id)
    requires IdNow(s, mv).Some? ==> IdNow(s, mv) !in ids
    ensures RefreshInv(Next(cfg, s, mv).0, id)
  {
    var s' := Next(cfg, s, mv).0;
    hide Next, Announces, NewSession, LoginHeader, Runs.Jti;
    forall h | h in s'.pending && s'.pending[h].Updates? && s'.pending[h].kind == Refreshed
               && s'.pending[h].copy.id == Some(id) && id in s'.store
      ensures SameKey(s'.pending[h].next, s'.store[id]) {
      PendingAfter(cfg, s, mv, h);
      Continuation(cfg, s, mv, ids, id);
      if !(h in s.pending && s'.pending[h] == s.pending[h]) {
        NewPending(cfg, s, mv, h);
      }
    }
  }

  lemma NewPending(cfg: Config, s: Server, mv: Move, h: nat)
    requires Keyed(s.store) && h in Next(cfg, s, mv).0.pending
    requires !(h in s.pending && Next(cfg, s, mv).0.pending[h] == s.pending[h])
    ensures var t := Next(cfg, s, mv).0.pending[h]; t.Updates? && t.kind == Refreshed ==> SameKey(t.next, t.copy)
  {
    hide Plan, Apply, Resume;
    if Next(cfg, s, mv).0.pending[h].Updates? {
      RefreshPlans(cfg, s.store, mv.step);
    }
  }

  /**
   Under any interleaving the key and algorithm of a bound session never change if and
   only if no register finishes on it, once bound, with another key or algorithm.
   */
  lemma {:induction false} KeyStaysIff(cfg: Config, ms: Moves, id: string)
    requires NoRepeats(Ids(cfg, ms))
    ensures KeyStays(cfg, ms, id) <==> AllAgreeing(cfg, ms, id)
    ensures KeyStays(cfg, ms, id) ==> RefreshInv(ServerOf(cfg, ms), id)
  {
    if |ms| > 0 {
      var s, mv := ServerOf(cfg, Before(ms)), Last(ms);
      hide Next, CopyInv, Proper, Agreeing, KeepsKey, RefreshInv;
      NoRepeatsLast(Ids(cfg, Before(ms)), IdNow(s, mv));
      KeyStaysIff(cfg, Before(ms), id);
      CopiesAlways(cfg, Before(ms));
      if KeyStays(cfg, Before(ms), id) {
        KeyStep(cfg, s, mv, Ids(cfg, Before(ms)), id);
        if KeepsKey(s, ServerOf(cfg, ms), id) {
          RefreshStep(cfg, s, mv, Ids(cfg, Before(ms)), id);
        }
      }
    }
  }

  // ---------------------------------------------------------------- single use, exactly

  /** The waiting handler that a move lets finish, if it is one that updates. */
  function Writer(s: Server, mv: Move): Option<Thread> {
    if mv.Finish? && mv.h in s.pending && s.pending[mv.h].Updates? then Some(s.pending[mv.h]) else None
  }

  /** A move accepts a proof whose replacement challenge cannot be duplicated. */
  predicate Sticks(cfg: Config, s: Server, mv: Move) {
    AcceptedNow(cfg, s, mv) != [] && Writer(s, mv).Some? && !Writer(s, mv).value.step.env.dup.challenge
  }

  predicate StaleNow(cfg: Config, s: Server, mv: Move, id: string, before: bool) {
    if KindNow(cfg, s, mv, id) != [] then Sticks(cfg, s, mv) else before
  }

  /** The last event of a session was an acceptance whose replacement challenge could not be duplicated. */
  predicate Stale(cfg: Config, ms: Moves, id: string) {
    |ms| > 0 && StaleNow(cfg, ServerOf(cfg, Before(ms)), Last(ms), id, Stale(cfg, Before(ms), id))
  }

  /** A proof is accepted only while the challenge the handler had read is still stored, and the session is not stale. */
  predicate Undisturbed(cfg: Config, s: Server, mv: Move, stale: string -> bool) {
    var w := Writer(s, mv);
    AcceptedNow(cfg, s, mv) != [] && w.Some? && w.value.copy.id.Some? && w.value.copy.id.value in s.store ==>
      s.store[w.value.copy.id.value].challenge == w.value.copy.challenge && !stale(w.value.copy.id.value)
  }

  predicate AllUndisturbed(cfg: Config, ms: Moves) {
    |ms| == 0
    || (AllUndisturbed(cfg, Before(ms))
        && Undisturbed(cfg, ServerOf(cfg, Before(ms)), Last(ms), k => Stale(cfg, Before(ms), k)))
  }

  /** Current challenges are fresh unless stale; a copied one is still current or was accepted. */
  ghost predicate UseInv(s: Server, draws: seq<Option<string>>, acc: seq<Option<string>>, stale: string -> bool) {
    && (forall k :: k in s.store && s.store[k].challenge.Some? ==>
          s.store[k].challenge in draws && (s.store[k].challenge in acc <==> stale(k)))
    && (forall k, l :: k in s.store && l in s.store && k != l && s.store[k].challenge.Some? ==>
          s.store[k].challenge != s.store[l].challenge)
    && (forall x :: x in acc ==> x.Some? && x in draws)
    && (forall h :: h in s.pending && s.pending[h].Updates? && s.pending[h].copy.id.Some?
                    && s.pending[h].copy.id.value in s.store ==>
          s.pending[h].copy.challenge == s.store[s.pending[h].copy.id.value].challenge || s.pending[h].copy.challenge in acc)
    && Distinct(acc)
  }

  /**
   A session keeps its challenge, or takes the one drawn by the move, of which its login or
   its proof is the event; an acceptance that sticks writes back the copied challenge.
   */
  predicate Takes(cfg: Config, s: Server, s': Server, mv: Move, k: string)
    requires k in s'.store
  {
    if KindNow(cfg, s, mv, k) == [] then k in s.store && s'.store[k].challenge == s.store[k].challenge
    else if Sticks(cfg, s, mv) then s'.store[k].challenge == Writer(s, mv).value.copy.challenge
    else s'.store[k].challenge.Some? ==> s'.store[k].challenge == ChallengeNow(s, mv)
  }

  lemma MoveTakes(cfg: Config, s: Server, mv: Move, k: string)
    requires Proper(cfg, s) && k in Next(cfg, s, mv).0.store
    ensures Takes(cfg, s, Next(cfg, s, mv).0, mv, k)
  {
    hide Next, LoginHeader, Runs.Jti, AcceptedNow;
    NextEffect(cfg, s, mv, k);
    if KindNow(cfg, s, mv, k) != [] {
      AcceptedFor(cfg, s, mv);
    }
  }

  /** A move accepts one proof, for the session of its event, or none. */
  lemma AcceptedFor(cfg: Config, s: Server, mv: Move)
    requires Proper(cfg, s)
    ensures AcceptedNow(cfg, s, mv) != [] ==>
              && mv.Finish? && mv.h in s.pending && s.pending[mv.h].Updates? && s.pending[mv.h].copy.challenge.Some?
              && AcceptedNow(cfg, s, mv) == [s.pending[mv.h].copy.challenge]
              && s.pending[mv.h].copy.id.Some? && s.pending[mv.h].copy.id.value in s.store
              && KindNow(cfg, s, mv, s.pending[mv.h].copy.id.value) != []
    ensures (mv.Finish? && mv.h in s.pending && s.pending[mv.h].Updates? && s.pending[mv.h].copy.id.Some?
             && KindNow(cfg, s, mv, s.pending[mv.h].copy.id.value) != []) ==> AcceptedNow(cfg, s, mv) != []
    ensures mv.Finish? && mv.h in s.pending && s.pending[mv.h].copy.id.Some? ==>
              forall k :: k != s.pending[mv.h].copy.id.value ==> KindNow(cfg, s, mv, k) == []
  {
    hide Next, Runs.Jti, AcceptedNow, KindNow;
    if mv.Begin? {
      NextEffect(cfg, s, mv, "");
    } else if mv.h in s.pending {
      FinishAccepts(cfg, s, mv.h);
    } else {
      IdleFinish(cfg, s, mv.h);
    }
  }

  lemma IdleFinish(cfg: Config, s: Server, h: nat)
    requires h !in s.pending
    ensures AcceptedNow(cfg, s, Finish(h)) == []
  {
  }

  lemma FinishAccepts(cfg: Config, s: Server, h: nat)
    requires Proper(cfg, s) && h in s.pending
    ensures s.pending[h].copy.id.Some?
    ensures forall k :: k != s.pending[h].copy.id.value ==> KindNow(cfg, s, Finish(h), k) == []
    ensures s.pending[h].Deletes? ==> AcceptedNow(cfg, s, Finish(h)) == []
    ensures s.pending[h].Updates? ==>
              var k := s.pending[h].copy.id.value;
              && s.pending[h].copy.challenge.Some?
              && AcceptedNow(cfg, s, Finish(h)) ==
                   (if KindNow(cfg, s, Finish(h), k) == [] then [] else [s.pending[h].copy.challenge])
              && (KindNow(cfg, s, Finish(h), k) != [] ==> k in s.store)
  {
    hide Next, Runs.Jti, AcceptedNow;
    forall k | k != s.pending[h].copy.id.value ensures KindNow(cfg, s, Finish(h), k) == [] {
      FinishEffect(cfg, s, h, k);
    }
    FinishEffect(cfg, s, h, s.pending[h].copy.id.value);
  }

  lemma OneEvent(cfg: Config, s: Server, mv: Move, k: string, l: string)
    requires KindNow(cfg, s, mv, k) != [] && KindNow(cfg, s, mv, l) != []
    ensures k == l
  {
    hide Next;
  }

  /** Which moves make an event of a session that a waiting handler has copied. */
  lemma CopiedEvent(cfg: Config, s: Server, mv: Move, ids: seq<Option<string>>, k: string)
    requires Proper(cfg, s) && CopyInv(s, ids) && Some(k) in ids
    requires IdNow(s, mv).Some? ==> IdNow(s, mv) !in ids
    requires k in Next(cfg, s, mv).0.store
    ensures k in s.store
    ensures KindNow(cfg, s, mv, k) != [] ==>
              mv.Finish? && mv.h in s.pending && s.pending[mv.h].Updates? && s.pending[mv.h].copy.id == Some(k)
  {
    hide Next, Sound, NewSession, LoginHeader;
    NextEffect(cfg, s, mv, k);
  }

  lemma CopiedUse(cfg: Config, s: Server, mv: Move, ids: seq<Option<string>>, draws: seq<Option<string>>,
                  acc: seq<Option<string>>, stale: string -> bool, h: nat)
    requires Proper(cfg, s) && CopyInv(s, ids) && UseInv(s, draws, acc, stale) && Undisturbed(cfg, s, mv, stale)
    requires IdNow(s, mv).Some? ==> IdNow(s, mv) !in ids
    requires var s' := Next(cfg, s, mv).0;
             h in s'.pending && s'.pending[h].Updates? && s'.pending[h].copy.id.Some? && s'.pending[h].copy.id.value in s'.store
    ensures var t, s' := Next(cfg, s, mv).0.pending[h], Next(cfg, s, mv).0;
            t.copy.challenge == s'.store[t.copy.id.value].challenge || t.copy.challenge in acc + AcceptedNow(cfg, s, mv)
  {
    var s' := Next(cfg, s, mv).0;
    var k := s'.pending[h].copy.id.value;
    hide Next, AcceptedNow, KindNow, Sound, IdNow, ChallengeNow, Continues;
    PendingAfter(cfg, s, mv, h);
    CopiedEvent(cfg, s, mv, ids, k);
    MoveTakes(cfg, s, mv, k);
    AcceptedFor(cfg, s, mv);
  }

  /** The challenges of the store after a move: drawn, pairwise distinct, and accepted exactly if stale. */
  lemma StoredUse(cfg: Config, s: Server, mv: Move, draws: seq<Option<string>>, acc: seq<Option<string>>,
                  stale: string -> bool, stale': string -> bool)
    requires Proper(cfg, s) && UseInv(s, draws, acc, stale) && Undisturbed(cfg, s, mv, stale)
    requires ChallengeNow(s, mv).Some? ==> ChallengeNow(s, mv) !in draws
    requires forall k :: stale'(k) == StaleNow(cfg, s, mv, k, stale(k))
    ensures var s', draws', acc' := Next(cfg, s, mv).0, draws + [ChallengeNow(s, mv)], acc + AcceptedNow(cfg, s, mv);
            && (forall k :: k in s'.store && s'.store[k].challenge.Some? ==>
                  s'.store[k].challenge in draws' && (s'.store[k].challenge in acc' <==> stale'(k)))
            && (forall k, l :: k in s'.store && l in s'.store && k != l && s'.store[k].challenge.Some? ==>
                  s'.store[k].challenge != s'.store[l].challenge)
            && (forall x :: x in acc' ==> x.Some? && x in draws')
            && Distinct(acc')
  {
    var s', c, now := Next(cfg, s, mv).0, ChallengeNow(s, mv), AcceptedNow(cfg, s, mv);
    hide Next, AcceptedNow, KindNow, Sound, ChallengeNow;
    AcceptedFor(cfg, s, mv);
    forall k | k in s'.store ensures Takes(cfg, s, s', mv, k) {
      MoveTakes(cfg, s, mv, k);
    }
    forall k, l | KindNow(cfg, s, mv, k) != [] && KindNow(cfg, s, mv, l) != [] ensures k == l {
      OneEvent(cfg, s, mv, k, l);
    }
    if now == [] {
      assert acc + now == acc;
    } else {
      Runs.DistinctLast(acc, now[0]);
    }
  }

  lemma UseStep(cfg: Config, s: Server, mv: Move, ids: seq<Option<string>>, draws: seq<Option<string>>,
                acc: seq<Option<string>>, stale: string -> bool, stale': string -> bool)
    requires Proper(cfg, s) && CopyInv(s, ids) && UseInv(s, draws, acc, stale) && Undisturbed(cfg, s, mv, stale)
    requires IdNow(s, mv).Some? ==> IdNow(s, mv) !in ids
    requires ChallengeNow(s, mv).Some? ==> ChallengeNow(s, mv) !in draws
    requires forall k :: stale'(k) == StaleNow(cfg, s, mv, k, stale(k))
    ensures UseInv(Next(cfg, s, mv).0, draws + [ChallengeNow(s, mv)], acc + AcceptedNow(cfg, s, mv), stale')
  {
    var s', acc' := Next(cfg, s, mv).0, acc + AcceptedNow(cfg, s, mv);
    hide Next, AcceptedNow, KindNow, Proper, CopyInv, IdNow, ChallengeNow, Undisturbed, StaleNow;
    StoredUse(cfg, s, mv, draws, acc, stale, stale');
    forall h | h in s'.pending && s'.pending[h].Updates? && s'.pending[h].copy.id.Some? && s'.pending[h].copy.id.value in s'.store
      ensures s'.pending[h].copy.challenge == s'.store[s'.pending[h].copy.id.value].challenge || s'.pending[h].copy.challenge in acc' {
      CopiedUse(cfg, s, mv, ids, draws, acc, stale, h);
    }
  }

  lemma {:induction false} UseAlways(cfg: Config, ms: Moves)
    requires NoRepeats(Ids(cfg, ms)) && NoRepeats(Draws(cfg, ms)) && AllUndisturbed(cfg, ms)
    ensures UseInv(ServerOf(cfg, ms), Draws(cfg, ms), Accepted(cfg, ms), k => Stale(cfg, ms, k))
  {
    if |ms| > 0 {
      var s, mv := ServerOf(cfg, Before(ms)), Last(ms);
      hide Next, UseInv, CopyInv, Proper, AcceptedNow, Undisturbed, StaleNow;
      NoRepeatsLast(Ids(cfg, Before(ms)), IdNow(s, mv));
      NoRepeatsLast(Draws(cfg, Before(ms)), ChallengeNow(s, mv));
      UseAlways(cfg, Before(ms));
      CopiesAlways(cfg, Before(ms));
      UseStep(cfg, s, mv, Ids(cfg, Before(ms)), Draws(cfg, Before(ms)), Accepted(cfg, Before(ms)),
              k => Stale(cfg, Before(ms), k), k => Stale(cfg, ms, k));
    } else {
      assert UseInv(START, [], [], k => Stale(cfg, ms, k));
    }
  }

  /** An acceptance against a challenge that is stale, or no longer stored, repeats an earlier one. */
  lemma DisturbedRepeats(cfg: Config, s: Server, mv: Move, draws: seq<Option<string>>, acc: seq<Option<string>>,
                         stale: string -> bool)
    requires Proper(cfg, s) && UseInv(s, draws, acc, stale) && !Undisturbed(cfg, s, mv, stale)
    ensures !Distinct(acc + AcceptedNow(cfg, s, mv))
  {
    hide Next, AcceptedNow, KindNow, Sound;
    AcceptedFor(cfg, s, mv);
    Runs.DistinctLast(acc, s.pending[mv.h].copy.challenge);
  }

  lemma RepeatsStay(acc: seq<Option<string>>, more: seq<Option<string>>)
    requires Distinct(acc + more)
    ensures Distinct(acc)
  {
    assert forall i :: 0 <= i < |acc| ==> (acc + more)[i] == acc[i];
  }

  /**
   Single use under any interleaving, exactly: no challenge is accepted twice if and only
   if every accepting handler still finds in the store the challenge it had read, and the
   session's last acceptance did replace its challenge.
   */
  lemma {:induction false} SingleUseIff(cfg: Config, ms: Moves)
    requires NoRepeats(Ids(cfg, ms)) && NoRepeats(Draws(cfg, ms))
    ensures Distinct(Accepted(cfg, ms)) <==> AllUndisturbed(cfg, ms)
  {
    if |ms| > 0 {
      var s, mv := ServerOf(cfg, Before(ms)), Last(ms);
      hide Next, UseInv, CopyInv, Proper, AcceptedNow, Undisturbed, Distinct, Stale;
      NoRepeatsLast(Ids(cfg, Before(ms)), IdNow(s, mv));
      NoRepeatsLast(Draws(cfg, Before(ms)), ChallengeNow(s, mv));
      SingleUseIff(cfg, Before(ms));
      if AllUndisturbed(cfg, ms) {
        UseAlways(cfg, ms);
        UseDistinct(cfg, ms);
      } else if AllUndisturbed(cfg, Before(ms)) {
        UseAlways(cfg, Before(ms));
        CopiesAlways(cfg, Before(ms));
        DisturbedRepeats(cfg, s, mv, Draws(cfg, Before(ms)), Accepted(cfg, Before(ms)), k => Stale(cfg, Before(ms), k));
      } else if Distinct(Accepted(cfg, ms)) {
        RepeatsStay(Accepted(cfg, Before(ms)), AcceptedNow(cfg, s, mv));
      }
    } else {
      assert Distinct(Accepted(cfg, ms));
    }
  }

  lemma UseDistinct(cfg: Config, ms: Moves)
    requires UseInv(ServerOf(cfg, ms), Draws(cfg, ms), Accepted(cfg, ms), k => Stale(cfg, ms, k))
    ensures Distinct(Accepted(cfg, ms))
  {
  }

  // ---------------------------------------------------------------- atomic handlers are one interleaving

  /** Every handler finishes before the next one begins. */
  function Serial(run: Runs.Run): (ms: Moves)
    ensures |ms| == 2 * |run|
  {
    if |run| == 0 then [] else Serial(Runs.Before(run)) + [Begin(0, Runs.Last(run)), Finish(0)]
  }

  /** Two moves of one handler, from a server where no handler waits. */
  lemma SerialStep(cfg: Config, m: Store, step: Step)
    requires Keyed(m)
    ensures var s, b, f := Server(m, map[]), Begin(0, step), Finish(0);
            var s1 := Next(cfg, s, b).0;
            && Next(cfg, s1, f).0 == Server(Apply(cfg, m, step).0, map[])
            && (forall id :: KindNow(cfg, s, b, id) + KindNow(cfg, s1, f, id)
                               == if Concerns(Apply(cfg, m, step).1, id) then [Apply(cfg, m, step).1.event.value.kind] else [])
            && AcceptedNow(cfg, s, b) + AcceptedNow(cfg, s1, f)
                 == (if Runs.Accepts(step, Apply(cfg, m, step).1) then [Runs.Jti(cfg, step)] else [])
  {
    hide Apply, Resume, Runs.Jti, Sound;
    if Plan(cfg, m, step).Some? {
      TwoHalves(cfg, m, step);
      PlanIsSound(cfg, m, step);
      hide Plan;
      assert map[0 := Plan(cfg, m, step).value] - {0} == map[];
    }
  }

  lemma TwoMoves(cfg: Config, ms: Moves, b: Move, f: Move, id: string)
    ensures var s := ServerOf(cfg, ms);
            var s1 := Next(cfg, s, b).0;
            && ServerOf(cfg, ms + [b, f]) == Next(cfg, s1, f).0
            && Kinds(cfg, ms + [b, f], id) == Kinds(cfg, ms, id) + (KindNow(cfg, s, b, id) + KindNow(cfg, s1, f, id))
            && Accepted(cfg, ms + [b, f]) == Accepted(cfg, ms) + (AcceptedNow(cfg, s, b) + AcceptedNow(cfg, s1, f))
  {
    hide Next, KindNow, AcceptedNow;
    assert Before(ms + [b, f]) == ms + [b] && Before(ms + [b]) == ms;
  }

  /** The runs of atomic handlers are exactly the serial interleavings, with the same store, events and acceptances. */
  lemma {:induction false} SerialRefines(cfg: Config, run: Runs.Run, id: string)
    ensures ServerOf(cfg, Serial(run)) == Server(Runs.StoreOf(cfg, run), map[])
    ensures Kinds(cfg, Serial(run), id) == Runs.Kinds(cfg, run, id)
    ensures Accepted(cfg, Serial(run)) == Runs.Accepted(cfg, run)
  {
    if |run| > 0 {
      hide Next, Apply, KindNow, AcceptedNow, Concerns, Runs.Accepts, Runs.Jti, ServerOf, Kinds, Accepted;
      SerialRefines(cfg, Runs.Before(run), id);
      Runs.AlwaysKeyed(cfg, Runs.Before(run));
      SerialStep(cfg, Runs.StoreOf(cfg, Runs.Before(run)), Runs.Last(run));
      TwoMoves(cfg, Serial(Runs.Before(run)), Begin(0, Runs.Last(run)), Finish(0), id);
    }
  }
}
