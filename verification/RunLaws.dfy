/** Expiry, challenge agreement, progress and provenance over whole runs. */
module RunLaws {
  import opened Wrappers
  import opened Sessions
  import opened StoreSpec
  import opened Jwt
  import opened Protocol
  import opened Effects
  import opened Runs

  // ---------------------------------------------------------------- sliding expiry

  /** The clock reading of the last successful initiate, register or refresh of a session. */
  function LastSuccess(cfg: Config, run: Run, id: string): Option<int> {
    if |run| == 0 then None
    else
      var o := OutcomeOf(cfg, run);
      if Concerns(o, id) && o.event.value.kind != Closed then Some(Last(run).env.end)
      else LastSuccess(cfg, Before(run), id)
  }

  /** The stored expiry is the last success plus the configured time to live; none without one. */
  predicate ExpiryInv(cfg: Config, m: Store, id: string, last: Option<int>) {
    id in m ==>
      && last.Some? && last.value >= 0
      && (if cfg.sessionTtl > 0 then m[id].hasExpires && m[id].expiresAt == last.value + cfg.sessionTtl
          else !m[id].hasExpires)
  }

  lemma ExpiryStep(cfg: Config, m: Store, m': Store, step: Step, o: Outcome, id: string, last: Option<int>)
    requires ExpiryInv(cfg, m, id, last) && Effect(cfg, m, m', step, o, id)
    ensures ExpiryInv(cfg, m', id, if Concerns(o, id) && o.event.value.kind != Closed then Some(step.env.end) else last)
  {
    hide RegisterDecision, RefreshDecision;
  }

  lemma {:induction false} ExpiryAlways(cfg: Config, run: Run, id: string)
    ensures ExpiryInv(cfg, StoreOf(cfg, run), id, LastSuccess(cfg, run, id))
  {
    if |run| > 0 {
      hide Effect, Apply, ExpiryInv;
      ExpiryAlways(cfg, Before(run), id);
      LastEffect(cfg, run, id);
      ExpiryStep(cfg, StoreOf(cfg, Before(run)), StoreOf(cfg, run), Last(run), OutcomeOf(cfg, run), id,
                 LastSuccess(cfg, Before(run), id));
    } else {
      assert ExpiryInv(cfg, map[], id, None);
    }
  }

  /** Once the clock is past the last success plus the time to live, every handler answers 401. */
  lemma ExpiredIs401(cfg: Config, run: Run, id: string)
    requires |run| > 0 && Addresses(Last(run), id) && cfg.sessionTtl > 0
    requires LastSuccess(cfg, Before(run), id).Some?
    requires Last(run).env.start > LastSuccess(cfg, Before(run), id).value + cfg.sessionTtl
    ensures OutcomeOf(cfg, run) == Answer(401, InvalidSession)
  {
    ExpiryAlways(cfg, Before(run), id);
    AbsentIs401(cfg, StoreOf(cfg, Before(run)), Last(run), id);
  }

  /** A stored session whose copy can be made is refused exactly when its time is over. */
  lemma RefusedIffExpired(cfg: Config, run: Run, id: string)
    requires |run| > 0 && Addresses(Last(run), id) && id in StoreOf(cfg, Before(run))
    requires Fetched(StoreOf(cfg, Before(run)), Some(id), Last(run).env)
    ensures LastSuccess(cfg, Before(run), id).Some?
    ensures OutcomeOf(cfg, run) == Answer(401, InvalidSession) <==>
            cfg.sessionTtl > 0 && Last(run).env.start > LastSuccess(cfg, Before(run), id).value + cfg.sessionTtl
  {
    ExpiryAlways(cfg, Before(run), id);
    var m, step := StoreOf(cfg, Before(run)), Last(run);
    FetchLive(cfg, m, step, id);
  }

  lemma FetchLive(cfg: Config, m: Store, step: Step, id: string)
    requires Addresses(step, id) && id in m && Fetched(m, Some(id), step.env)
    ensures Apply(cfg, m, step).1 == Answer(401, InvalidSession) <==> Expired(m[id], step.env.start)
  {
    hide RegisterDecision, RefreshDecision, CopySucceeds;
    if Expired(m[id], step.env.start) {
      AbsentIs401(cfg, m, step, id);
    }
  }

  // ---------------------------------------------------------------- challenge agreement

  /** The last challenge a client was sent for a session, in a registration or a challenge header. */
  function LastSent(cfg: Config, run: Run, id: string): Option<string> {
    if |run| == 0 then None
    else
      var o := OutcomeOf(cfg, run);
      if Concerns(o, id) && o.event.value.kind == Login && o.resp.registration.Some? then o.resp.registration.value.challenge
      else if Challenges(o, id) then Some(o.resp.challenge.value.value)
      else LastSent(cfg, Before(run), id)
  }

  predicate AgreementInv(m: Store, id: string, sent: Option<string>) {
    id in m ==> m[id].id == Some(id) && m[id].challenge == sent
  }

  lemma AgreementStep(cfg: Config, m: Store, m': Store, step: Step, o: Outcome, id: string, sent: Option<string>)
    requires AgreementInv(m, id, sent) && Effect(cfg, m, m', step, o, id)
    ensures AgreementInv(m', id,
              if Concerns(o, id) && o.event.value.kind == Login && o.resp.registration.Some? then o.resp.registration.value.challenge
              else if Challenges(o, id) then Some(o.resp.challenge.value.value)
              else sent)
  {
    hide RegistrationProof, RefreshProof;
  }

  lemma {:induction false} AgreementAlways(cfg: Config, run: Run, id: string)
    ensures AgreementInv(StoreOf(cfg, run), id, LastSent(cfg, run, id))
  {
    if |run| > 0 {
      hide Effect, Apply, AgreementInv;
      AgreementAlways(cfg, Before(run), id);
      LastEffect(cfg, run, id);
      AgreementStep(cfg, StoreOf(cfg, Before(run)), StoreOf(cfg, run), Last(run), OutcomeOf(cfg, run), id,
                    LastSent(cfg, Before(run), id));
    } else {
      assert AgreementInv(map[], id, None);
    }
  }

  /** The login of a session could not duplicate its challenge. */
  predicate LoginUnset(cfg: Config, run: Run, id: string) {
    if |run| == 0 then false
    else
      var o := OutcomeOf(cfg, run);
      if Concerns(o, id) && o.event.value.kind == Login then !Last(run).env.dup.challenge
      else LoginUnset(cfg, Before(run), id)
  }

  /** A session is without a challenge exactly from such a login on, and then never gets bound. */
  predicate UnsetInv(m: Store, id: string, unset: bool) {
    id in m ==> (m[id].challenge.None? <==> unset) && (unset ==> m[id].state == Active)
  }

  lemma UnsetStep(cfg: Config, m: Store, m': Store, step: Step, o: Outcome, id: string, unset: bool)
    requires UnsetInv(m, id, unset) && Effect(cfg, m, m', step, o, id)
    ensures UnsetInv(m', id, if Concerns(o, id) && o.event.value.kind == Login then !step.env.dup.challenge else unset)
  {
    hide RegistrationProof, RefreshProof;
  }

  lemma {:induction false} UnsetAlways(cfg: Config, run: Run, id: string)
    ensures UnsetInv(StoreOf(cfg, run), id, LoginUnset(cfg, run, id))
  {
    if |run| > 0 {
      hide Effect, Apply, UnsetInv;
      UnsetAlways(cfg, Before(run), id);
      LastEffect(cfg, run, id);
      UnsetStep(cfg, StoreOf(cfg, Before(run)), StoreOf(cfg, run), Last(run), OutcomeOf(cfg, run), id,
                LoginUnset(cfg, Before(run), id));
    } else {
      assert UnsetInv(map[], id, false);
    }
  }

  /**
   The latest challenge a client was sent is the one its next proof is compared with; there
   is one exactly if the session's login could duplicate it.
   */
  lemma ChallengeAgreement(cfg: Config, run: Run, id: string)
    requires id in StoreOf(cfg, run)
    ensures StoreOf(cfg, run)[id].challenge == LastSent(cfg, run, id)
    ensures LastSent(cfg, run, id).Some? <==> !LoginUnset(cfg, run, id)
  {
    AgreementAlways(cfg, run, id);
    UnsetAlways(cfg, run, id);
  }

  // ---------------------------------------------------------------- comparisons with null

  /** A live session was fetched, and its handler could verify the proof that came with the request. */
  predicate Verifies(cfg: Config, m: Store, step: Step) {
    && (step.DoRegister? || step.DoRefresh?)
    && step.id.Some? && step.id.value != "" && step.id.value in m
    && Fetched(m, step.id, step.env) && !Expired(m[step.id.value], step.env.start)
    && step.header.Some? && Legible(cfg.foreign, step.header, step.env.jwt) == step.header
    && var s := m[step.id.value];
       if step.DoRegister? then s.state == Active && RegistrationProof(cfg.foreign, step.header.value).Some?
       else s.state == Bound && s.publicKey.Some? && RefreshProof(cfg.foreign, step.header.value, s.publicKey.value).Some?
  }

  /** A handler compares with null exactly when it could verify a proof and the session has no challenge. */
  lemma UndefinedIff(cfg: Config, m: Store, step: Step)
    ensures Apply(cfg, m, step).1.Undefined? <==> Verifies(cfg, m, step) && m[step.id.value].challenge.None?
  {
    hide RegistrationProof, RefreshProof, CopySucceeds;
    if step.DoRegister? || step.DoRefresh? {
      if step.header == Some("") {
        EmptyToken(cfg.foreign);
      }
    }
  }

  /**
   In any run the last step compares with null exactly when it is a register whose proof
   verifies, for a live session whose login could not duplicate its challenge.
   */
  lemma RunUndefinedIff(cfg: Config, run: Run)
    requires |run| > 0
    ensures OutcomeOf(cfg, run).Undefined? <==>
            && Last(run).DoRegister? && Verifies(cfg, StoreOf(cfg, Before(run)), Last(run))
            && LoginUnset(cfg, Before(run), Last(run).id.value)
  {
    var m := StoreOf(cfg, Before(run));
    UndefinedIff(cfg, m, Last(run));
    if Verifies(cfg, m, Last(run)) {
      UnsetAlways(cfg, Before(run), Last(run).id.value);
    }
  }

  // ---------------------------------------------------------------- progress

  const ALL_DUPLICATED := StringAlloc(true, true, true, true, true)

  /** Generators and allocations succeed. */
  predicate NoFailures(e: Env) {
    && e.challenge.Some? && e.found && e.jwt == ENOUGH
    && e.fetched == ALL_DUPLICATED && e.put == ALL_DUPLICATED && e.dup == ALL_DUPLICATED
  }

  /** The proof of a request answers the challenge c by the rules of its handler. */
  predicate Answers(cfg: Config, s: Session, step: Step, c: string) {
    if step.DoRegister? then
      s.state == Active && step.header.Some? && RegistrationProof(cfg.foreign, step.header.value).Some?
      && (var p := RegistrationProof(cfg.foreign, step.header.value).value;
          p.challenge == c && (cfg.authorization.Some? ==> p.authorization == cfg.authorization))
    else if step.DoRefresh? then
      s.state == Bound && step.header.Some? && s.publicKey.Some?
      && RefreshProof(cfg.foreign, step.header.value, s.publicKey.value).Some?
      && RefreshProof(cfg.foreign, step.header.value, s.publicKey.value).value.challenge == c
    else false
  }

  lemma AcceptedWhenAnswered(cfg: Config, m: Store, step: Step, id: string)
    requires Addresses(step, id) && !step.DoClose? && NoFailures(step.env) && id in m && m[id].id == Some(id)
    requires !Expired(m[id], step.env.start) && m[id].challenge.Some?
    ensures Accepts(step, Apply(cfg, m, step).1) <==> Answers(cfg, m[id], step, m[id].challenge.value)
  {
    hide RegistrationProof, RefreshProof;
    if step.header == Some("") {
      EmptyToken(cfg.foreign);
    }
  }

  /**
   The status of a register or refresh that meets no failure: 401 without a live session,
   400 in the wrong state, 200 for a proof that answers the stored challenge, else 403
   with that challenge.
   */
  lemma StatusTable(cfg: Config, m: Store, step: Step, id: string)
    requires Keyed(m) && Addresses(step, id) && !step.DoClose? && NoFailures(step.env)
    requires id in m ==> m[id].challenge.Some?
    ensures var o := Apply(cfg, m, step).1;
            && o.Outcome? && o.rc == 0
            && o.resp.status ==
                 (if id !in m || Expired(m[id], step.env.start) then 401
                  else if m[id].state != (if step.DoRegister? then Active else Bound) then 400
                  else if Answers(cfg, m[id], step, m[id].challenge.value) then 200
                  else 403)
            && (o.resp.status == 403 ==> o.resp.challenge == Some(Challenge(m[id].challenge.value, Some(id)))
                                         && Apply(cfg, m, step).0 == m)
            && (o.resp.status in {400, 401} ==> o.resp.challenge.None?)
  {
    if id !in m || Expired(m[id], step.env.start) {
      AbsentIs401(cfg, m, step, id);
    } else {
      DecisionTable(cfg, m[id], step);
      DecidedStatus(cfg, m, step, id);
    }
  }

  function DecisionOf(cfg: Config, s: Session, step: Step): Decision
    requires step.DoRegister? || step.DoRefresh?
  {
    if step.DoRegister? then RegisterDecision(cfg, s, step.header) else RefreshDecision(cfg, s, step.header)
  }

  lemma DecisionTable(cfg: Config, s: Session, step: Step)
    requires (step.DoRegister? || step.DoRefresh?) && s.challenge.Some?
    ensures var d := DecisionOf(cfg, s, step);
            && (d.WrongState? <==> s.state != (if step.DoRegister? then Active else Bound))
            && (d.Accept? <==> Answers(cfg, s, step, s.challenge.value))
            && !d.NullChallenge?
  {
    hide RegistrationProof, RefreshProof;
    if step.header == Some("") {
      EmptyToken(cfg.foreign);
    }
  }

  lemma DecidedStatus(cfg: Config, m: Store, step: Step, id: string)
    requires Keyed(m) && Addresses(step, id) && !step.DoClose? && NoFailures(step.env)
    requires id in m && !Expired(m[id], step.env.start) && m[id].challenge.Some?
    ensures var (m', o) := Apply(cfg, m, step);
            match DecisionOf(cfg, m[id], step)
            case WrongState => o == Answer(400, if step.DoRegister? then NotActive else NotBound)
            case Rechallenge => m' == m && o == ChallengeAnswer(m[id])
            case NullChallenge => o.Undefined?
            case Accept(_) => o.Outcome? && o.rc == 0 && o.resp.status == 200
  {
    hide RegisterDecision, RefreshDecision;
  }

  /**
   What a cookie tells: one with the configured lifetime names a session that is stored
   when the handler returns, one with no lifetime names a session that no longer is.
   */
  lemma CookieMatchesStore(cfg: Config, m: Store, step: Step)
    requires Keyed(m) && cfg.cookieTtl != 0
    ensures var (m', o) := Apply(cfg, m, step);
            o.Outcome? && o.resp.setCookie.Some? ==>
              var c := o.resp.setCookie.value;
              && c.value.Some? && o.resp.status == 200 && Concerns(o, c.value.value)
              && (c.maxAge == cfg.cookieTtl <==> c.value.value in m')
              && (c.maxAge == 0 <==> o.event.value.kind == Closed)
              && c.maxAge in {0, cfg.cookieTtl}
  {
    hide RegisterDecision, RefreshDecision, CopySucceeds, WithTtl;
    if step.DoInitiate? {
      NewSessionId(cfg, step.user, step.env);
    }
    assert step.DoRegister? || step.DoRefresh? || step.DoClose? ==>
             (Fetch(m, step.id, step.env).1.Some? ==> Fetch(m, step.id, step.env).1.value.id == step.id);
  }

  lemma EmptyToken(f: Foreign)
    ensures RegistrationProof(f, "").None?
    ensures forall k :: RefreshProof(f, "", k).None?
  {
    assert Split("").None?;
  }

  /**
   Progress: before its expiry, a stored session accepts a request exactly when the client
   was sent a challenge and the proof answers the latest one.
   */
  lemma Progress(cfg: Config, run: Run, id: string)
    requires |run| > 0 && Addresses(Last(run), id) && !Last(run).DoClose? && NoFailures(Last(run).env)
    requires id in StoreOf(cfg, Before(run))
    requires cfg.sessionTtl > 0 && LastSuccess(cfg, Before(run), id).Some? ==>
               Last(run).env.start <= LastSuccess(cfg, Before(run), id).value + cfg.sessionTtl
    ensures var sent := LastSent(cfg, Before(run), id);
            Accepts(Last(run), OutcomeOf(cfg, run)) <==>
            sent.Some? && Answers(cfg, StoreOf(cfg, Before(run))[id], Last(run), sent.value)
  {
    ChallengeAgreement(cfg, Before(run), id);
    ExpiryAlways(cfg, Before(run), id);
    AgreementAlways(cfg, Before(run), id);
    AlwaysKeyed(cfg, Before(run));
    hide Answers, Apply, NoFailures;
    if LastSent(cfg, Before(run), id).Some? {
      AcceptedWhenAnswered(cfg, StoreOf(cfg, Before(run)), Last(run), id);
    } else {
      AcceptanceUses(cfg, StoreOf(cfg, Before(run)), Last(run));
    }
  }

  // ---------------------------------------------------------------- the ignored failure of set_challenge

  /** An accepted proof leaves its challenge in place exactly when the new one is the same or could not be duplicated. */
  lemma StaleIff(cfg: Config, m: Store, step: Step)
    requires Keyed(m) && Accepts(step, Apply(cfg, m, step).1)
    requires step.id.Some? && step.id.value in m
    ensures var m' := Apply(cfg, m, step).0;
            step.id.value in m' && m'[step.id.value].challenge.Some?
            && (m'[step.id.value].challenge == m[step.id.value].challenge <==>
                !step.env.dup.challenge || step.env.challenge == m[step.id.value].challenge)
  {
    AcceptanceUses(cfg, m, step);
    StepEffect(cfg, m, step, step.id.value);
    hide Apply, RegistrationProof, RefreshProof, CopySucceeds, Jti;
  }

  /**
   The second of two refresh proofs with the same jti, both valid for the registered key,
   is accepted exactly when the first one's replacement challenge repeats the old one, as
   the constant fallback can, or could not be duplicated.
   */
  lemma ReplayIff(cfg: Config, m: Store, first: Step, second: Step, id: string)
    requires Keyed(m) && id in m && m[id].state == Bound && m[id].publicKey.Some?
    requires first.DoRefresh? && second.DoRefresh? && Addresses(first, id) && Addresses(second, id)
    requires NoFailures(second.env) && Accepts(first, Apply(cfg, m, first).1)
    requires second.header.Some? && Jti(cfg, second) == m[id].challenge
    requires RefreshProof(cfg.foreign, second.header.value, m[id].publicKey.value).Some?
    requires var m' := Apply(cfg, m, first).0; id in m' && !Expired(m'[id], second.env.start)
    ensures Accepts(second, Apply(cfg, Apply(cfg, m, first).0, second).1) <==>
            !first.env.dup.challenge || first.env.challenge == m[id].challenge
  {
    StaleIff(cfg, m, first);
    var m' := Apply(cfg, m, first).0;
    StepEffect(cfg, m, first, id);
    assert m'[id].state == Bound && m'[id].publicKey == m[id].publicKey && m'[id].id == Some(id) by {
      AcceptanceUses(cfg, m, first);
      hide RefreshProof, Apply;
    }
    AcceptedWhenAnswered(cfg, m', second, id);
    hide Apply;
  }

  // ---------------------------------------------------------------- provenance

  function OutcomeAt(cfg: Config, run: Run, i: nat): Outcome
    requires i < |run|
  {
    OutcomeOf(cfg, run[..i + 1])
  }

  /** Step i was the login that issued the first challenge of a session. */
  predicate LoginAt(cfg: Config, run: Run, i: nat, id: string, challenge: string)
    requires i < |run|
  {
    && run[i].DoInitiate? && run[i].env.newId == Some(id) && run[i].env.challenge == Some(challenge)
    && OutcomeAt(cfg, run, i).Outcome? && OutcomeAt(cfg, run, i).resp.status == 200
  }

  /** Step i was an accepted registration of a session, with the proof p. */
  ghost predicate BoundAt(cfg: Config, run: Run, i: nat, id: string, p: Proof)
    requires i < |run|
  {
    && run[i].DoRegister? && run[i].id == Some(id) && run[i].header.Some?
    && OutcomeAt(cfg, run, i).Outcome? && OutcomeAt(cfg, run, i).resp.status == 200
    && RegistrationProof(cfg.foreign, run[i].header.value) == Some(p)
    && (cfg.authorization.Some? ==> p.authorization == cfg.authorization)
    && exists k :: 0 <= k < i && LoginAt(cfg, run, k, id, p.challenge)
  }

  /** The key and the algorithm that an accepted registration leaves, given what it could duplicate. */
  predicate Recorded(p: Proof, dup: StringAlloc, s: Session) {
    && s.publicKey == Overwritten(None, p.jwk, dup.publicKey)
    && s.algorithm == Overwritten(None, Some(p.algorithm), dup.algorithm)
  }

  ghost predicate BoundBy(cfg: Config, run: Run, i: nat, id: string, s: Session)
    requires i < |run|
  {
    exists p: Proof :: BoundAt(cfg, run, i, id, p) && Recorded(p, run[i].env.dup, s)
  }

  lemma AtBefore(cfg: Config, run: Run, i: nat)
    requires |run| > 0 && i < |run| - 1
    ensures Before(run)[i] == run[i] && OutcomeAt(cfg, Before(run), i) == OutcomeAt(cfg, run, i)
  {
    assert Before(run)[..i + 1] == run[..i + 1];
  }

  lemma LoginLater(cfg: Config, run: Run, i: nat, id: string, c: string)
    requires |run| > 0 && i < |run| - 1 && LoginAt(cfg, Before(run), i, id, c)
    ensures LoginAt(cfg, run, i, id, c)
  {
    AtBefore(cfg, run, i);
  }

  lemma BoundLater(cfg: Config, run: Run, i: nat, id: string, s: Session)
    requires |run| > 0 && i < |run| - 1 && BoundBy(cfg, Before(run), i, id, s)
    ensures BoundBy(cfg, run, i, id, s)
  {
    AtBefore(cfg, run, i);
    hide OutcomeAt, RegistrationProof, Recorded;
    var p: Proof :| BoundAt(cfg, Before(run), i, id, p) && Recorded(p, Before(run)[i].env.dup, s);
    var k :| 0 <= k < i && LoginAt(cfg, Before(run), k, id, p.challenge);
    LoginLater(cfg, run, k, id, p.challenge);
    assert BoundAt(cfg, run, i, id, p);
  }

  /** Where a stored session comes from. */
  ghost predicate Provenance(cfg: Config, run: Run, id: string, s: Session) {
    match s.state
    case Active =>
      && s.publicKey.None? && s.algorithm.None?
      && (s.challenge.Some? ==> exists i :: 0 <= i < |run| && LoginAt(cfg, run, i, id, s.challenge.value))
    case Bound =>
      exists i :: 0 <= i < |run| && BoundBy(cfg, run, i, id, s)
  }

  lemma SameRecord(cfg: Config, run: Run, i: nat, id: string, s: Session, t: Session)
    requires i < |run| && t.publicKey == s.publicKey && t.algorithm == s.algorithm
    ensures BoundBy(cfg, run, i, id, s) ==> BoundBy(cfg, run, i, id, t)
  {
  }

  lemma ProvenanceLater(cfg: Config, run: Run, id: string, s: Session, t: Session)
    requires |run| > 0 && Provenance(cfg, Before(run), id, s)
    requires t.state == s.state && t.publicKey == s.publicKey && t.algorithm == s.algorithm
    requires s.state == Active ==> t.challenge == s.challenge
    ensures Provenance(cfg, run, id, t)
  {
    hide LoginAt, BoundBy;
    match s.state
    case Active =>
      if s.challenge.Some? {
        var i :| 0 <= i < |Before(run)| && LoginAt(cfg, Before(run), i, id, s.challenge.value);
        LoginLater(cfg, run, i, id, s.challenge.value);
      }
    case Bound =>
      var i :| 0 <= i < |Before(run)| && BoundBy(cfg, Before(run), i, id, s);
      BoundLater(cfg, run, i, id, s);
      SameRecord(cfg, run, i, id, s, t);
  }

  lemma BornProvenance(cfg: Config, run: Run, id: string)
    requires |run| > 0
    requires Born(cfg, StoreOf(cfg, run), Last(run), OutcomeOf(cfg, run), id)
    ensures Provenance(cfg, run, id, StoreOf(cfg, run)[id])
  {
    hide Apply;
    var i := |run| - 1;
    assert run[..i + 1] == run;
    var s := StoreOf(cfg, run)[id];
    assert s.challenge.Some? ==> LoginAt(cfg, run, i, id, s.challenge.value);
  }

  lemma BindingProvenance(cfg: Config, run: Run, id: string)
    requires |run| > 0
    requires BecameBound(cfg, StoreOf(cfg, Before(run)), StoreOf(cfg, run), Last(run), OutcomeOf(cfg, run), id)
    requires Provenance(cfg, Before(run), id, StoreOf(cfg, Before(run))[id])
    ensures Provenance(cfg, run, id, StoreOf(cfg, run)[id])
  {
    hide Apply, RegistrationProof, LoginAt;
    var i := |run| - 1;
    assert run[..i + 1] == run;
    var s, t := StoreOf(cfg, Before(run))[id], StoreOf(cfg, run)[id];
    var p := RegistrationProof(cfg.foreign, Last(run).header.value).value;
    assert s.state == Active && s.challenge == Some(p.challenge);
    var k :| 0 <= k < |Before(run)| && LoginAt(cfg, Before(run), k, id, p.challenge);
    LoginLater(cfg, run, k, id, p.challenge);
    assert BoundAt(cfg, run, i, id, p);
    assert Recorded(p, run[i].env.dup, t);
    assert BoundBy(cfg, run, i, id, t);
  }

  lemma {:induction false} ProvenanceAlways(cfg: Config, run: Run, id: string)
    ensures id in StoreOf(cfg, run) ==> Provenance(cfg, run, id, StoreOf(cfg, run)[id])
  {
    if |run| > 0 {
      hide Apply, Provenance, RegisterDecision, RefreshDecision;
      ProvenanceAlways(cfg, Before(run), id);
      LastEffect(cfg, run, id);
      var m, m', o := StoreOf(cfg, Before(run)), StoreOf(cfg, run), OutcomeOf(cfg, run);
      if id in m' {
        if Born(cfg, m', Last(run), o, id) {
          BornProvenance(cfg, run, id);
        } else if BecameBound(cfg, m, m', Last(run), o, id) {
          BindingProvenance(cfg, run, id);
        } else {
          RefreshKeepsBound(cfg, m, m', Last(run), o, id);
          ProvenanceLater(cfg, run, id, m[id], m'[id]);
        }
      }
    }
  }

  lemma RefreshKeepsBound(cfg: Config, m: Store, m': Store, step: Step, o: Outcome, id: string)
    requires WasExtended(cfg, m, m', step, o, id) || Untouched(m, m', o, id)
    requires id in m'
    ensures id in m && m'[id].state == m[id].state && m'[id].publicKey == m[id].publicKey
            && m'[id].algorithm == m[id].algorithm && (m[id].state == Active ==> m'[id].challenge == m[id].challenge)
  {
  }

  /** The key clause of a registration proof. */
  ghost predicate Vouched(f: Foreign, token: string, p: Proof) {
    || (p.algorithm == "none" && p.jwk == None)
    || (p.jwk.Some? && SignedBy(f, token, p.algorithm, p.jwk.value))
  }

  /** "No key exactly for none" holds of a session exactly when its registration could duplicate what decides it. */
  predicate KeyTellsAlgorithm(p: Proof, dup: StringAlloc, s: Session) {
    (s.publicKey.None? <==> s.algorithm == Some("none")) <==> (if p.algorithm == "none" then dup.algorithm else dup.publicKey)
  }

  /**
   In every run a bound session was bound by an accepted registration whose token had the
   proof type, answered the challenge issued at login, matched the configured
   authorization, and was either unsigned without a key or signed by the key it carried;
   the session holds that key and algorithm as far as they could be duplicated.
   */
  lemma BoundProvenance(cfg: Config, run: Run, id: string)
    requires id in StoreOf(cfg, run) && StoreOf(cfg, run)[id].state == Bound
    ensures exists i: nat, p: Proof :: i < |run| && BoundAt(cfg, run, i, id, p) && p.typ == Some("dbsc+jwt")
              && Recorded(p, run[i].env.dup, StoreOf(cfg, run)[id])
              && Vouched(cfg.foreign, run[i].header.value, p)
              && KeyTellsAlgorithm(p, run[i].env.dup, StoreOf(cfg, run)[id])
  {
    ProvenanceAlways(cfg, run, id);
    var s := StoreOf(cfg, run)[id];
    hide StoreOf, RegistrationProof, LoginAt, OutcomeAt;
    var i :| 0 <= i < |run| && BoundBy(cfg, run, i, id, s);
    var p: Proof :| BoundAt(cfg, run, i, id, p) && Recorded(p, run[i].env.dup, s);
    RegistrationProofIff(cfg.foreign, run[i].header.value, p);
    SignedIsNotNone(cfg.foreign, run[i].header.value, p);
    hide SignedBy, DecodeToken, BoundAt;
    assert Vouched(cfg.foreign, run[i].header.value, p) && KeyTellsAlgorithm(p, run[i].env.dup, s);
  }

  lemma SignedIsNotNone(f: Foreign, token: string, p: Proof)
    ensures p.jwk.Some? && SignedBy(f, token, p.algorithm, p.jwk.value) ==> p.algorithm != "none"
  {
  }

  /** A session that is not bound has neither key nor algorithm, and the challenge of its login or none. */
  lemma ActiveProvenance(cfg: Config, run: Run, id: string)
    requires id in StoreOf(cfg, run) && StoreOf(cfg, run)[id].state == Active
    ensures StoreOf(cfg, run)[id].publicKey.None? && StoreOf(cfg, run)[id].algorithm.None?
    ensures StoreOf(cfg, run)[id].challenge.Some? ==>
              exists i :: 0 <= i < |run| && LoginAt(cfg, run, i, id, StoreOf(cfg, run)[id].challenge.value)
  {
    ProvenanceAlways(cfg, run, id);
  }

  /** With atomic handlers the key and algorithm of a bound session never change while it is stored. */
  lemma {:induction false} KeyFixed(cfg: Config, run: Run, i: nat, j: nat, id: string)
    requires FreshIds(run) && i <= j <= |run|
    requires id in StoreOf(cfg, run[..i]) && StoreOf(cfg, run[..i])[id].state == Bound && id in StoreOf(cfg, run[..j])
    ensures var s, t := StoreOf(cfg, run[..i])[id], StoreOf(cfg, run[..j])[id];
            t.state == Bound && t.publicKey == s.publicKey && t.algorithm == s.algorithm
    decreases j
  {
    if i < j {
      hide StoreOf, FreshIds, IdDrawn, Kinds, DrawnId, LifeInv;
      assert Before(run[..j]) == run[..j - 1];
      NotDrawnAgain(run, i, j, id);
      StoredWasDrawn(cfg, run[..i], id);
      KeyStep(cfg, run[..j], id);
      KeyFixed(cfg, run, i, j - 1, id);
    }
  }

  lemma StoredWasDrawn(cfg: Config, run: Run, id: string)
    requires FreshIds(run) && id in StoreOf(cfg, run)
    ensures IdDrawn(run, id)
  {
    LifeAlways(cfg, run, id);
  }

  /** The last step of a run leaves the key of a bound session alone, unless it draws the identifier anew. */
  lemma KeyStep(cfg: Config, run: Run, id: string)
    requires |run| > 0 && DrawnId(Last(run)) != Some(id) && id in StoreOf(cfg, run)
    ensures var m, m' := StoreOf(cfg, Before(run)), StoreOf(cfg, run);
            id in m && (m[id].state == Bound ==>
              m'[id].state == Bound && m'[id].publicKey == m[id].publicKey && m'[id].algorithm == m[id].algorithm)
  {
    hide Effect, Apply, StoreOf, OutcomeOf, DrawnId;
    LastEffect(cfg, run, id);
    StillBound(cfg, StoreOf(cfg, Before(run)), StoreOf(cfg, run), Last(run), OutcomeOf(cfg, run), id);
  }

  lemma NotDrawnAgain(run: Run, i: nat, j: nat, id: string)
    requires FreshIds(run) && i < j <= |run|
    ensures FreshIds(run[..i])
    ensures IdDrawn(run[..i], id) ==> DrawnId(Last(run[..j])) != Some(id)
  {
    if IdDrawn(run[..i], id) {
      var k :| 0 <= k < i && DrawnId(run[..i][k]) == Some(id);
      assert DrawnId(run[k]) == Some(id);
    }
  }

  lemma StillBound(cfg: Config, m: Store, m': Store, step: Step, o: Outcome, id: string)
    requires Effect(cfg, m, m', step, o, id) && DrawnId(step) != Some(id) && id in m'
    ensures id in m
    ensures m[id].state == Bound ==>
              m'[id].state == Bound && m'[id].publicKey == m[id].publicKey && m'[id].algorithm == m[id].algorithm
  {
    hide RegistrationProof, RefreshProof;
  }

  /** A session without a key never refreshes. */
  lemma KeylessNeverRefreshes(cfg: Config, m: Store, step: Step)
    requires Keyed(m) && step.DoRefresh? && step.id.Some? && (step.id.value in m ==> m[step.id.value].publicKey.None?)
    ensures !Accepts(step, Apply(cfg, m, step).1)
    ensures step.id.value in Apply(cfg, m, step).0 ==> Apply(cfg, m, step).0[step.id.value] == m[step.id.value]
  {
    hide RefreshProof, CopySucceeds;
  }

  /**
   A registration records the key and algorithm of its proof, and leaves the session
   without a key only if it is unsigned, exactly when the duplications it needs succeed.
   */
  lemma RecordedIff(cfg: Config, m: Store, step: Step)
    requires Keyed(m) && step.DoRegister? && Accepts(step, Apply(cfg, m, step).1) && step.id.Some?
    requires step.id.value in m && m[step.id.value].publicKey.None? && m[step.id.value].algorithm.None?
    ensures step.header.Some? && RegistrationProof(cfg.foreign, step.header.value).Some? && step.id.value in Apply(cfg, m, step).0
    ensures var p, t, dup := RegistrationProof(cfg.foreign, step.header.value).value, Apply(cfg, m, step).0[step.id.value], step.env.dup;
            && (t.publicKey == p.jwk && t.algorithm == Some(p.algorithm) <==>
                dup.algorithm && (dup.publicKey || p.algorithm == "none"))
            && ((t.publicKey.None? <==> t.algorithm == Some("none")) <==>
                if p.algorithm == "none" then dup.algorithm else dup.publicKey)
  {
    AcceptanceUses(cfg, m, step);
    StepEffect(cfg, m, step, step.id.value);
    var p := RegisterDecision(cfg, m[step.id.value], step.header).proof;
    assert step.header.Some? && RegistrationProof(cfg.foreign, step.header.value) == Some(p) by { hide RegistrationProof, Apply; }
    assert p.jwk.None? <==> p.algorithm == "none" by { RegistrationProofIff(cfg.foreign, step.header.value, p); hide Apply, DecodeToken; }
    hide Apply, RegistrationProof, Jti, WithTtl;
  }
}
