/**
 Whole runs of the server: any sequence of requests and store uses, from an empty
 store. Histories are read off the requests and the answers alone.
 */
module Runs {
  import opened Wrappers
  import opened Sessions
  import opened StoreSpec
  import opened Jwt
  import opened Protocol
  import opened Effects

  type Run = seq<Step>

  function Before(run: Run): Run
    requires |run| > 0
  {
    run[..|run| - 1]
  }

  function Last(run: Run): Step
    requires |run| > 0
  {
    run[|run| - 1]
  }

  function StoreOf(cfg: Config, run: Run): Store {
    if |run| == 0 then map[] else Apply(cfg, StoreOf(cfg, Before(run)), Last(run)).0
  }

  /** The answer to the last step of a run. */
  function OutcomeOf(cfg: Config, run: Run): Outcome
    requires |run| > 0
  {
    Apply(cfg, StoreOf(cfg, Before(run)), Last(run)).1
  }

  lemma {:induction false} AlwaysKeyed(cfg: Config, run: Run)
    ensures Keyed(StoreOf(cfg, run))
  {
    if |run| > 0 {
      AlwaysKeyed(cfg, Before(run));
      StepEffect(cfg, StoreOf(cfg, Before(run)), Last(run), "");
    }
  }

  lemma LastEffect(cfg: Config, run: Run, id: string)
    requires |run| > 0
    ensures Effect(cfg, StoreOf(cfg, Before(run)), StoreOf(cfg, run), Last(run), OutcomeOf(cfg, run), id)
  {
    hide Effect, Apply;
    AlwaysKeyed(cfg, Before(run));
    StepEffect(cfg, StoreOf(cfg, Before(run)), Last(run), id);
  }

  // ---------------------------------------------------------------- identifiers and challenges never repeat

  /** The identifier a step draws from the generator. */
  function DrawnId(step: Step): Option<string> {
    if step.DoInitiate? then step.env.newId else None
  }

  /** The challenge a step draws from the generator. */
  function DrawnChallenge(step: Step): Option<string> {
    if step.DoInitiate? || step.DoRegister? || step.DoRefresh? then step.env.challenge else None
  }

  ghost predicate FreshIds(run: Run) {
    forall i, j :: 0 <= i < j < |run| && DrawnId(run[i]).Some? ==> DrawnId(run[i]) != DrawnId(run[j])
  }

  ghost predicate FreshChallenges(run: Run) {
    forall i, j :: 0 <= i < j < |run| && DrawnChallenge(run[i]).Some? ==> DrawnChallenge(run[i]) != DrawnChallenge(run[j])
  }

  ghost predicate IdDrawn(run: Run, id: string) {
    exists i :: 0 <= i < |run| && DrawnId(run[i]) == Some(id)
  }

  ghost predicate ChallengeDrawn(run: Run, c: string) {
    exists i :: 0 <= i < |run| && DrawnChallenge(run[i]) == Some(c)
  }

  lemma DrawnSoFar(run: Run, x: string)
    requires |run| > 0
    ensures IdDrawn(run, x) <==> IdDrawn(Before(run), x) || DrawnId(Last(run)) == Some(x)
    ensures ChallengeDrawn(run, x) <==> ChallengeDrawn(Before(run), x) || DrawnChallenge(Last(run)) == Some(x)
    ensures FreshIds(run) ==> FreshIds(Before(run)) && !(IdDrawn(Before(run), x) && DrawnId(Last(run)) == Some(x))
    ensures FreshChallenges(run) ==>
              FreshChallenges(Before(run)) && !(ChallengeDrawn(Before(run), x) && DrawnChallenge(Last(run)) == Some(x))
  {
    var n := |run| - 1;
    assert forall i :: 0 <= i < n ==> run[i] == Before(run)[i];
    assert run[n] == Last(run);
    if IdDrawn(Before(run), x) {
      var i :| 0 <= i < n && DrawnId(Before(run)[i]) == Some(x);
      assert DrawnId(run[i]) == Some(x);
    }
    if ChallengeDrawn(Before(run), x) {
      var i :| 0 <= i < n && DrawnChallenge(Before(run)[i]) == Some(x);
      assert DrawnChallenge(run[i]) == Some(x);
    }
  }

  // ---------------------------------------------------------------- the lifecycle of one session

  /** The lifecycle events of one session, in order. */
  function Kinds(cfg: Config, run: Run, id: string): seq<EventKind> {
    if |run| == 0 then []
    else
      var o := OutcomeOf(cfg, run);
      Kinds(cfg, Before(run), id) + (if Concerns(o, id) then [o.event.value.kind] else [])
  }

  /** LOGIN, or LOGIN REGISTER REFRESH*. */
  predicate Open(ks: seq<EventKind>) {
    && |ks| > 0 && ks[0] == Login
    && (|ks| > 1 ==> ks[1] == Registered)
    && (forall i :: 2 <= i < |ks| ==> ks[i] == Refreshed)
  }

  /** A prefix of LOGIN (REGISTER REFRESH*)? CLOSE?. */
  predicate Lifecycle(ks: seq<EventKind>) {
    || |ks| == 0
    || Open(ks)
    || (ks[|ks| - 1] == Closed && Open(ks[..|ks| - 1]))
  }

  /** What the store says about the events so far: a stored session is open, and bound iff registered. */
  predicate LifeInv(m: Store, id: string, ks: seq<EventKind>) {
    && Lifecycle(ks)
    && (id in m ==> Open(ks) && (m[id].state == Bound <==> |ks| > 1))
  }

  lemma LifeStep(cfg: Config, m: Store, m': Store, step: Step, o: Outcome, id: string, ks: seq<EventKind>)
    requires LifeInv(m, id, ks)
    requires Effect(cfg, m, m', step, o, id)
    requires Born(cfg, m', step, o, id) ==> ks == []
    ensures LifeInv(m', id, ks + (if Concerns(o, id) then [o.event.value.kind] else []))
  {
    hide RegistrationProof, RefreshProof, LoginHeader, Lifecycle, Open;
    if Concerns(o, id) {
      LifecycleGrows(ks, o.event.value.kind);
    } else {
      assert ks + [] == ks;
    }
  }

  /** A login starts an open history, and any other event goes on from one. */
  lemma LifecycleGrows(ks: seq<EventKind>, k: EventKind)
    requires if k == Login then ks == [] else Open(ks)
    requires k == Registered ==> |ks| <= 1
    requires k == Refreshed ==> |ks| > 1
    ensures Lifecycle(ks + [k])
    ensures k != Closed ==> Open(ks + [k])
  {
    assert (ks + [k])[..|ks|] == ks;
  }

  lemma {:induction false} LifeAlways(cfg: Config, run: Run, id: string)
    requires FreshIds(run)
    ensures LifeInv(StoreOf(cfg, run), id, Kinds(cfg, run, id))
    ensures !IdDrawn(run, id) ==> id !in StoreOf(cfg, run) && Kinds(cfg, run, id) == []
  {
    if |run| > 0 {
      hide Effect, Apply, LifeInv;
      DrawnSoFar(run, id);
      LifeAlways(cfg, Before(run), id);
      LastEffect(cfg, run, id);
      var m, m', o := StoreOf(cfg, Before(run)), StoreOf(cfg, run), OutcomeOf(cfg, run);
      BirthDraws(cfg, m, m', Last(run), o, id);
      LifeStep(cfg, m, m', Last(run), o, id, Kinds(cfg, Before(run), id));
    } else {
      assert LifeInv(map[], id, []);
    }
  }

  /** Only a birth under the drawn identifier brings a session or an event for a new identifier. */
  lemma BirthDraws(cfg: Config, m: Store, m': Store, step: Step, o: Outcome, id: string)
    requires Effect(cfg, m, m', step, o, id)
    ensures Born(cfg, m', step, o, id) ==> DrawnId(step) == Some(id)
    ensures id !in m && DrawnId(step) != Some(id) ==> id !in m' && !Concerns(o, id)
  {
    hide RegisterDecision, RefreshDecision;
  }

  /** Trace safety: the events of every session identifier follow the lifecycle. */
  lemma TraceSafety(cfg: Config, run: Run, id: string)
    requires FreshIds(run)
    ensures Lifecycle(Kinds(cfg, run, id))
  {
    LifeAlways(cfg, run, id);
  }

  /** A request about one session, with a usable identifier. */
  predicate Addresses(step: Step, id: string) {
    (step.DoRegister? || step.DoRefresh? || step.DoClose?) && step.id == Some(id) && id != ""
  }

  /** No handler finds a session that is not in the store. */
  lemma AbsentIs401(cfg: Config, m: Store, step: Step, id: string)
    requires Addresses(step, id) && (id in m ==> Expired(m[id], step.env.start))
    ensures Apply(cfg, m, step).1 == Answer(401, InvalidSession)
  {
  }

  lemma ClosedIsAbsent(m: Store, id: string, ks: seq<EventKind>)
    requires LifeInv(m, id, ks) && Closed in ks
    ensures id !in m
  {
    assert !Open(ks);
  }

  /** After CLOSE, every register, refresh or close of that session answers 401. */
  lemma ClosedStaysClosed(cfg: Config, run: Run, id: string)
    requires |run| > 0 && FreshIds(Before(run)) && Addresses(Last(run), id)
    requires Closed in Kinds(cfg, Before(run), id)
    ensures OutcomeOf(cfg, run) == Answer(401, InvalidSession)
  {
    LifeAlways(cfg, Before(run), id);
    ClosedIsAbsent(StoreOf(cfg, Before(run)), id, Kinds(cfg, Before(run), id));
    hide Apply, Kinds, FreshIds, LifeInv;
    AbsentIs401(cfg, StoreOf(cfg, Before(run)), Last(run), id);
  }

  // ---------------------------------------------------------------- single-use challenges

  predicate Accepts(step: Step, o: Outcome) {
    (step.DoRegister? || step.DoRefresh?) && o.Outcome? && o.resp.status == 200
  }

  /** The jti claim of the proof a request carries. */
  function Jti(cfg: Config, step: Step): Option<string> {
    if (step.DoRegister? || step.DoRefresh?) && step.header.Some? then
      var p := DecodeToken(cfg.foreign, step.header.value);
      if p.None? then None else Some(p.value.challenge)
    else None
  }

  /** The jti of every proof accepted by register or refresh, on any session, in order. */
  function Accepted(cfg: Config, run: Run): seq<Option<string>> {
    if |run| == 0 then []
    else Accepted(cfg, Before(run)) + (if Accepts(Last(run), OutcomeOf(cfg, run)) then [Jti(cfg, Last(run))] else [])
  }

  /** The last event of a session was an acceptance whose replacement challenge could not be duplicated. */
  predicate Stale(cfg: Config, run: Run, id: string) {
    if |run| == 0 then false
    else
      var o := OutcomeOf(cfg, run);
      if Concerns(o, id) then Sticks(Last(run), o) else Stale(cfg, Before(run), id)
  }

  predicate Sticks(step: Step, o: Outcome) {
    Accepts(step, o) && !step.env.dup.challenge
  }

  /** No proof was accepted for a session that was stale. */
  predicate NeverStale(cfg: Config, run: Run) {
    |run| == 0
    || (NeverStale(cfg, Before(run))
        && (Accepts(Last(run), OutcomeOf(cfg, run)) && Last(run).id.Some? ==> !Stale(cfg, Before(run), Last(run).id.value)))
  }

  /** Current challenges were drawn and are pairwise distinct; exactly the stale ones were accepted before. */
  ghost predicate ChallengeInv(m: Store, run: Run, acc: seq<Option<string>>, stale: string -> bool) {
    && (forall k :: k in m && m[k].challenge.Some? ==>
          ChallengeDrawn(run, m[k].challenge.value) && (m[k].challenge in acc <==> stale(k)))
    && (forall k, l :: k in m && l in m && k != l && m[k].challenge.Some? ==> m[k].challenge != m[l].challenge)
    && (forall i :: 0 <= i < |acc| ==> acc[i].Some? && ChallengeDrawn(run, acc[i].value))
  }

  /** A session keeps its challenge, or, in an event of its own that does not stick, takes the one just drawn. */
  predicate Renewed(m: Store, m': Store, step: Step, o: Outcome, k: string)
    requires k in m'
  {
    if Concerns(o, k) && !Sticks(step, o) then m'[k].challenge.Some? ==> m'[k].challenge == DrawnChallenge(step)
    else k in m && m'[k].challenge == m[k].challenge
  }

  lemma ChallengeChange(cfg: Config, m: Store, m': Store, step: Step, o: Outcome, k: string)
    requires Effect(cfg, m, m', step, o, k) && k in m'
    ensures Renewed(m, m', step, o, k)
  {
    hide RegisterDecision, RefreshDecision;
  }

  /** The step accepts a proof exactly for a session whose stored challenge it carries. */
  lemma AcceptanceUses(cfg: Config, m: Store, step: Step)
    requires Keyed(m)
    ensures var o := Apply(cfg, m, step).1;
            Accepts(step, o) ==>
              && step.id.Some? && step.id.value in m && Concerns(o, step.id.value)
              && m[step.id.value].challenge.Some? && Jti(cfg, step) == m[step.id.value].challenge
  {
    hide SignatureOk, DecodeToken, CopySucceeds;
    var o := Apply(cfg, m, step).1;
    if Accepts(step, o) {
      if step.DoRegister? {
        AcceptedRegister(cfg, m, step.id, step.header, step.env);
      } else {
        AcceptedRefresh(cfg, m, step.id, step.header, step.env);
      }
    }
  }

  lemma AcceptedRegister(cfg: Config, m: Store, id: Option<string>, header: Option<string>, e: Env)
    requires Keyed(m)
    requires Register(cfg, m, id, header, e).1.Outcome? && Register(cfg, m, id, header, e).1.resp.status == 200
    ensures id.Some? && id.value in m && header.Some? && RegisterDecision(cfg, m[id.value], header).Accept?
    ensures Concerns(Register(cfg, m, id, header, e).1, id.value)
    ensures Register(cfg, m, id, header, e).1.rc == 0 && m[id.value].challenge.Some?
    ensures var p := DecodeToken(cfg.foreign, header.value); p.Some? && Some(p.value.challenge) == m[id.value].challenge
  {
    hide SignatureOk, DecodeToken, CopySucceeds;
  }

  lemma AcceptedRefresh(cfg: Config, m: Store, id: Option<string>, header: Option<string>, e: Env)
    requires Keyed(m)
    requires Refresh(cfg, m, id, header, e).1.Outcome? && Refresh(cfg, m, id, header, e).1.resp.status == 200
    ensures id.Some? && id.value in m && header.Some? && RefreshDecision(cfg, m[id.value], header).Accept?
    ensures Concerns(Refresh(cfg, m, id, header, e).1, id.value)
    ensures Refresh(cfg, m, id, header, e).1.rc == 0 && m[id.value].challenge.Some?
    ensures var p := DecodeToken(cfg.foreign, header.value); p.Some? && Some(p.value.challenge) == m[id.value].challenge
  {
    hide SignatureOk, DecodeToken, CopySucceeds;
  }

  lemma {:induction false} ChallengesAlways(cfg: Config, run: Run)
    requires FreshChallenges(run)
    ensures ChallengeInv(StoreOf(cfg, run), run, Accepted(cfg, run), k => Stale(cfg, run, k))
  {
    if |run| > 0 {
      DrawnSoFar(run, "");
      ChallengesAlways(cfg, Before(run));
      ChallengeStep(cfg, run);
    }
  }

  lemma ChallengeStep(cfg: Config, run: Run)
    requires |run| > 0 && FreshChallenges(run)
    requires ChallengeInv(StoreOf(cfg, Before(run)), Before(run), Accepted(cfg, Before(run)), k => Stale(cfg, Before(run), k))
    ensures ChallengeInv(StoreOf(cfg, run), run, Accepted(cfg, run), k => Stale(cfg, run, k))
  {
    hide Effect, Apply, ChallengeDrawn, FreshChallenges, Jti;
    var m, m', o, step := StoreOf(cfg, Before(run)), StoreOf(cfg, run), OutcomeOf(cfg, run), Last(run);
    var acc, acc' := Accepted(cfg, Before(run)), Accepted(cfg, run);
    AlwaysKeyed(cfg, Before(run));
    AcceptanceUses(cfg, m, step);
    forall x: string ensures
        (ChallengeDrawn(run, x) <==> ChallengeDrawn(Before(run), x) || DrawnChallenge(step) == Some(x))
        && !(ChallengeDrawn(Before(run), x) && DrawnChallenge(step) == Some(x)) {
      DrawnSoFar(run, x);
    }
    forall k | k in m' ensures Renewed(m, m', step, o, k) {
      LastEffect(cfg, run, k);
      ChallengeChange(cfg, m, m', step, o, k);
    }
    hide Keyed, DrawnChallenge;
    assert acc' == acc + (if Accepts(step, o) then [Jti(cfg, step)] else []);
  }

  /** In any run, an accepted proof repeats a jti exactly when the session it is for was stale. */
  lemma RepeatedIff(cfg: Config, run: Run)
    requires |run| > 0 && FreshChallenges(run) && Accepts(Last(run), OutcomeOf(cfg, run))
    ensures Last(run).id.Some?
    ensures Jti(cfg, Last(run)) in Accepted(cfg, Before(run)) <==> Stale(cfg, Before(run), Last(run).id.value)
  {
    DrawnSoFar(run, "");
    ChallengesAlways(cfg, Before(run));
    AlwaysKeyed(cfg, Before(run));
    AcceptanceUses(cfg, StoreOf(cfg, Before(run)), Last(run));
    hide Apply, Jti, Accepts, Stale, ChallengeDrawn, FreshChallenges;
  }

  lemma DistinctLast<T>(s: seq<T>, x: T)
    ensures Distinct(s + [x]) <==> Distinct(s) && x !in s
  {
    var t := s + [x];
    assert t[|s|] == x && forall i :: 0 <= i < |s| ==> t[i] == s[i];
    if Distinct(t) {
      assert forall i :: 0 <= i < |s| ==> t[i] != t[|s|];
    }
  }

  /**
   Single use, exactly: over the whole run and all sessions no challenge is accepted twice
   if and only if no proof is accepted for a session whose last acceptance kept its challenge.
   */
  lemma {:induction false} SingleUseIff(cfg: Config, run: Run)
    requires FreshChallenges(run)
    ensures Distinct(Accepted(cfg, run)) <==> NeverStale(cfg, run)
  {
    if |run| > 0 {
      DrawnSoFar(run, "");
      SingleUseIff(cfg, Before(run));
      if Accepts(Last(run), OutcomeOf(cfg, run)) {
        RepeatedIff(cfg, run);
        DistinctLast(Accepted(cfg, Before(run)), Jti(cfg, Last(run)));
      } else {
        assert Accepted(cfg, run) == Accepted(cfg, Before(run));
      }
    }
  }

  /** A proof replaces the stored challenge, provided the new one could be duplicated. */
  predicate Replaces(step: Step) {
    step.DoRegister? || step.DoRefresh? ==> step.env.dup.challenge
  }

  predicate AllReplace(cfg: Config, run: Run) {
    |run| == 0
    || (AllReplace(cfg, Before(run)) && (Accepts(Last(run), OutcomeOf(cfg, run)) ==> Replaces(Last(run))))
  }

  /** Single use holds in every run whose accepting handlers can duplicate the new challenge. */
  lemma SingleUse(cfg: Config, run: Run)
    requires FreshChallenges(run) && AllReplace(cfg, run)
    ensures Distinct(Accepted(cfg, run))
  {
    hide FreshChallenges, Accepted, Distinct;
    SingleUseIff(cfg, run);
    ReplacedIsNeverStale(cfg, run);
  }

  lemma {:induction false} ReplacedIsNeverStale(cfg: Config, run: Run)
    requires AllReplace(cfg, run)
    ensures NeverStale(cfg, run) && forall id :: !Stale(cfg, run, id)
  {
    if |run| > 0 {
      hide Apply, OutcomeOf;
      ReplacedIsNeverStale(cfg, Before(run));
    }
  }
}
