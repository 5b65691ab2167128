/** What one step can do to one session: the case analysis behind every whole-run theorem. */
module Effects {
  import opened Wrappers
  import opened Sessions
  import opened StoreSpec
  import opened Protocol
  import opened Jwt
  import Header

  predicate Concerns(o: Outcome, id: string) {
    o.Outcome? && o.event.Some? && o.event.value.id == id
  }

  predicate Challenges(o: Outcome, id: string) {
    o.Outcome? && o.resp.challenge.Some? && o.resp.challenge.value.id == Some(id)
  }

  /** The session stays as it is; a challenge sent for it is the stored one. */
  predicate Untouched(m: Store, m': Store, o: Outcome, id: string) {
    && (id in m <==> id in m')
    && (id in m ==> m'[id] == m[id])
    && !Concerns(o, id)
    && (Challenges(o, id) ==> id in m && m[id].challenge == Some(o.resp.challenge.value.value))
  }

  /** The session is gone without an event: expired, dropped by the application, or lost to a failed copy. */
  predicate Vanished(m': Store, o: Outcome, id: string) {
    id !in m' && !Concerns(o, id) && !Challenges(o, id)
  }

  predicate Announces(o: Outcome, kind: EventKind, user: Option<string>, id: string, status: int) {
    o.Outcome? && o.rc == 0 && o.resp.status == status && o.event == Some(Event(kind, user, id))
  }

  predicate Born(cfg: Config, m': Store, step: Step, o: Outcome, id: string) {
    && step.DoInitiate? && step.user.Some? && step.env.newId == Some(id) && step.env.challenge.Some?
    && id in m' && m'[id] == NewSession(cfg, step.user, step.env) && m'[id].id == Some(id)
    && Announces(o, Login, step.user, id, 200)
    && o.resp.registration == Some(LoginHeader(cfg, m'[id])) && o.resp.challenge.None?
  }

  predicate BecameBound(cfg: Config, m: Store, m': Store, step: Step, o: Outcome, id: string) {
    && step.DoRegister? && step.id == Some(id) && id != "" && step.env.challenge.Some?
    && id in m && !Expired(m[id], step.env.start)
    && RegisterDecision(cfg, m[id], step.header).Accept?
    && m' == m[id := BoundSession(cfg, m[id], RegisterDecision(cfg, m[id], step.header).proof, step.env)]
    && Announces(o, Registered, m[id].userId, id, 200)
    && o.resp.challenge == ChallengeOf(m'[id])
  }

  predicate WasExtended(cfg: Config, m: Store, m': Store, step: Step, o: Outcome, id: string) {
    && step.DoRefresh? && step.id == Some(id) && id != "" && step.env.challenge.Some?
    && id in m && !Expired(m[id], step.env.start)
    && RefreshDecision(cfg, m[id], step.header).Accept?
    && m' == m[id := ExtendedSession(cfg, m[id], step.env)]
    && Announces(o, Refreshed, m[id].userId, id, 200)
    && o.resp.challenge == ChallengeOf(m'[id])
  }

  predicate WasClosed(m: Store, m': Store, step: Step, o: Outcome, id: string) {
    && step.DoClose? && step.id == Some(id)
    && id in m && !Expired(m[id], step.env.start) && id !in m'
    && Announces(o, Closed, m[id].userId, id, 200)
    && o.resp.challenge.None?
  }

  predicate Effect(cfg: Config, m: Store, m': Store, step: Step, o: Outcome, id: string) {
    || Untouched(m, m', o, id)
    || Vanished(m', o, id)
    || Born(cfg, m', step, o, id)
    || BecameBound(cfg, m, m', step, o, id)
    || WasExtended(cfg, m, m', step, o, id)
    || WasClosed(m, m', step, o, id)
  }

  // ---------------------------------------------------------------- the case analysis

  lemma FetchEffect(m: Store, id: Option<string>, e: Env, k: string)
    requires Keyed(m)
    ensures var (m', got) := Fetch(m, id, e);
            && Keyed(m')
            && (got.Some? ==> id.Some? && id.value in m && m' == m && got.value == m[id.value]
                              && !Expired(m[id.value], e.start) && got.value.id == id)
            && (k in m' ==> k in m && m'[k] == m[k])
  {
  }

  lemma CommitEffect(cfg: Config, m: Store, s: Session, kind: EventKind, e: Env, id: string)
    requires Keyed(m) && s.id == Some(id) && id in m
    ensures var (m', o) := Commit(cfg, m, s, kind, e);
            && Keyed(m')
            && (forall k :: k != id ==> Untouched(m, m', o, k))
            && (Untouched(m, m', o, id) || Vanished(m', o, id)
                || (e.challenge.Some? && m' == m[id := s] && Announces(o, kind, s.userId, id, 200)
                    && o.resp.challenge == ChallengeOf(s)))
  {
    hide CopySucceeds;
  }

  lemma InitiateEffect(cfg: Config, m: Store, user: Option<string>, e: Env, id: string)
    requires Keyed(m)
    ensures var (m', o) := Initiate(cfg, m, user, e);
            Keyed(m') && Effect(cfg, m, m', DoInitiate(user, e), o, id)
  {
    hide CopySucceeds, WithTtl;
    NewSessionId(cfg, user, e);
  }

  lemma NewSessionId(cfg: Config, user: Option<string>, e: Env)
    ensures NewSession(cfg, user, e).id == Overwritten(None, e.newId, e.dup.id)
  {
  }

  /** Nothing is accepted without a header. */
  lemma LegibleOrNot(cfg: Config, header: Option<string>, a: JwtAlloc)
    ensures Legible(cfg.foreign, header, a) in {None, header}
    ensures forall s :: !RegisterDecision(cfg, s, None).Accept? && !RefreshDecision(cfg, s, None).Accept?
  {
    hide DecodeToken, Affordable;
  }

  lemma RegisterEffect(cfg: Config, m: Store, cookie: Option<string>, header: Option<string>, e: Env, id: string)
    requires Keyed(m)
    ensures var (m', o) := Register(cfg, m, cookie, header, e);
            Keyed(m') && Effect(cfg, m, m', DoRegister(cookie, header, e), o, id)
  {
    hide RegisterDecision, Commit, Fetch, CopySucceeds, Keyed, Legible;
    FetchEffect(m, cookie, e, id);
    var (m1, got) := Fetch(m, cookie, e);
    LegibleOrNot(cfg, header, e.jwt);
    if Header.Present(cookie) && got.Some? && RegisterDecision(cfg, got.value, Legible(cfg.foreign, header, e.jwt)).Accept? {
      CommitEffect(cfg, m1, BoundSession(cfg, got.value, RegisterDecision(cfg, got.value, Legible(cfg.foreign, header, e.jwt)).proof, e),
                   Registered, e, cookie.value);
    }
  }

  lemma RefreshEffect(cfg: Config, m: Store, sid: Option<string>, header: Option<string>, e: Env, id: string)
    requires Keyed(m)
    ensures var (m', o) := Refresh(cfg, m, sid, header, e);
            Keyed(m') && Effect(cfg, m, m', DoRefresh(sid, header, e), o, id)
  {
    hide RefreshDecision, Commit, Fetch, CopySucceeds, Keyed, Legible;
    FetchEffect(m, sid, e, id);
    var (m1, got) := Fetch(m, sid, e);
    LegibleOrNot(cfg, header, e.jwt);
    if Header.Present(sid) && got.Some? && RefreshDecision(cfg, got.value, Legible(cfg.foreign, header, e.jwt)).Accept? {
      CommitEffect(cfg, m1, ExtendedSession(cfg, got.value, e), Refreshed, e, sid.value);
    }
  }

  lemma CloseEffect(cfg: Config, m: Store, sid: Option<string>, e: Env, id: string)
    requires Keyed(m)
    ensures var (m', o) := Close(cfg, m, sid, e);
            Keyed(m') && Effect(cfg, m, m', DoClose(sid, e), o, id)
  {
    hide Fetch, CopySucceeds;
    FetchEffect(m, sid, e, id);
    var (m1, got) := Fetch(m, sid, e);
    var (m', o) := Close(cfg, m, sid, e);
    if o.event.Some? {
      assert m' == Without(m, sid.value);
      if sid == Some(id) {
        assert WasClosed(m, m', DoClose(sid, e), o, id);
      } else {
        assert Untouched(m, m', o, id);
      }
    } else {
      assert m' == m || m' == m1;
      assert Untouched(m, m', o, id) || Vanished(m', o, id);
    }
  }

  /** Every step has one of the six effects on every session. */
  lemma StepEffect(cfg: Config, m: Store, step: Step, id: string)
    requires Keyed(m)
    ensures Keyed(Apply(cfg, m, step).0)
    ensures Effect(cfg, m, Apply(cfg, m, step).0, step, Apply(cfg, m, step).1, id)
  {
    hide Initiate, Register, Refresh, Close, CopySucceeds, Effect;
    match step
    case DoInitiate(user, e) => InitiateEffect(cfg, m, user, e, id);
    case DoRegister(sid, header, e) => RegisterEffect(cfg, m, sid, header, e, id);
    case DoRefresh(sid, header, e) => RefreshEffect(cfg, m, sid, header, e, id);
    case DoClose(sid, e) => CloseEffect(cfg, m, sid, e, id);
    case _ => QuietEffect(cfg, m, step, id);
  }

  lemma QuietEffect(cfg: Config, m: Store, step: Step, id: string)
    requires Keyed(m) && (step.DoGetSession? || step.DoListUser? || step.DoDropUser?)
    ensures Keyed(Apply(cfg, m, step).0)
    ensures Effect(cfg, m, Apply(cfg, m, step).0, step, Apply(cfg, m, step).1, id)
  {
    if step.DoGetSession? {
      FetchEffect(m, step.id, step.env, id);
    }
  }
}
