/**
 What each handler answers and stores, written out: status, cookie, headers, body, event
 and the fields of the session, for every request and every failure.
 */
module Answers {
  import opened Wrappers
  import opened Sessions
  import opened StoreSpec
  import opened Jwt
  import opened Protocol
  import opened Effects
  import Header
  import Runs
  import RunLaws

  // ---------------------------------------------------------------- login

  /** Generators, the identifier's copy, a slot or the session to overwrite, and the copies of what was set. */
  predicate LoginSucceeds(m: Store, user: Option<string>, e: Env) {
    && user.Some? && e.newId.Some? && e.challenge.Some? && e.dup.id
    && (e.newId.value in m || e.room)
    && e.put.id && (e.dup.userId ==> e.put.userId) && (e.dup.challenge ==> e.put.challenge)
  }

  /** The session of a login. */
  predicate LoggedIn(cfg: Config, user: Option<string>, e: Env, s: Session) {
    && s.id == e.newId && s.state == Active && s.publicKey == None && s.algorithm == None && s.createdAt == e.start
    && s.userId == (if e.dup.userId then user else None)
    && s.challenge == (if e.dup.challenge then e.challenge else None)
    && (if cfg.sessionTtl > 0 then s.hasExpires && s.expiresAt == e.end + cfg.sessionTtl else !s.hasExpires)
  }

  /** A login that succeeds: what it stores and everything it answers. */
  lemma LoginAnswer(cfg: Config, m: Store, user: Option<string>, e: Env)
    requires LoginSucceeds(m, user, e)
    ensures var (m', o) := Apply(cfg, m, DoInitiate(user, e));
            && e.newId.value in m' && LoggedIn(cfg, user, e, m'[e.newId.value]) && m' == m[e.newId.value := m'[e.newId.value]]
            && o.Outcome? && o.rc == 0 && o.resp.status == 200
            && o.resp.setCookie == Some(CookieValue(e.newId, cfg.cookieTtl))
            && o.resp.registration == Some(Header.Registration(["ES256", "RS256"], Some("/dbsc/register"),
                                             m'[e.newId.value].challenge, cfg.authorization, None, None, None))
            && o.resp.challenge == None && o.resp.body == None
            && o.event == Some(Event(Login, user, e.newId.value))
  {
  }

  /** A login that fails answers nothing, and changes nothing unless it was overwriting a session. */
  lemma LoginFails(cfg: Config, m: Store, user: Option<string>, e: Env)
    requires !LoginSucceeds(m, user, e)
    ensures var (m', o) := Apply(cfg, m, DoInitiate(user, e));
            && o == Outcome(-1, Response(0, None, None, None, None), None)
            && (m' == m || (e.newId.Some? && m' == m - {e.newId.value}))
            && (e.newId.Some? && e.newId.value !in m ==> m' == m)
  {
  }

  // ---------------------------------------------------------------- register, refresh, close

  /** The store hands out a copy of a live session. */
  predicate Found(m: Store, id: Option<string>, e: Env) {
    && id.Some? && id.value != "" && id.value in m
    && !(m[id.value].hasExpires && e.start > m[id.value].expiresAt)
    && e.found
    && (m[id.value].id.Some? ==> e.fetched.id) && (m[id.value].userId.Some? ==> e.fetched.userId)
    && (m[id.value].publicKey.Some? ==> e.fetched.publicKey) && (m[id.value].algorithm.Some? ==> e.fetched.algorithm)
    && (m[id.value].challenge.Some? ==> e.fetched.challenge)
  }

  lemma FoundFetches(m: Store, id: Option<string>, e: Env)
    ensures Found(m, id, e) ==> Header.Present(id) && Fetch(m, id, e) == (m, Some(m[id.value]))
    ensures !Found(m, id, e) && Header.Present(id) ==> Fetch(m, id, e).1.None?
  {
  }

  predicate IsEmpty(id: Option<string>) {
    id.None? || id.value == ""
  }

  /** No cookie, no headers, and no event. */
  predicate Plain(o: Outcome, status: int, body: Body) {
    o == Outcome(0, Response(status, None, None, None, Some(body)), None)
  }

  /** No session is found: 401, or the answer to a request without an identifier. */
  lemma NotFoundAnswer(cfg: Config, m: Store, step: Step)
    requires (step.DoRegister? || step.DoRefresh? || step.DoClose?) && !Found(m, step.id, step.env)
    ensures var o := Apply(cfg, m, step).1;
            if !IsEmpty(step.id) then Plain(o, 401, InvalidSession)
            else if step.DoRegister? then Plain(o, 401, MissingCookie)
            else Plain(o, 400, MissingId)
  {
    hide RegisterDecision, RefreshDecision;
  }

  /** The answer to a register or refresh that finds its session, from the decision on its proof. */
  lemma DecidedAnswer(cfg: Config, m: Store, step: Step)
    requires Keyed(m) && (step.DoRegister? || step.DoRefresh?) && Found(m, step.id, step.env)
    ensures var (m', o) := Apply(cfg, m, step);
            var s := m[step.id.value];
            match RunLaws.DecisionOf(cfg, s, step.(header := Legible(cfg.foreign, step.header, step.env.jwt)))
            case WrongState => m' == m && Plain(o, 400, if step.DoRegister? then NotActive else NotBound)
            case Rechallenge =>
              m' == m && o == Outcome(0, Response(403, None, None,
                                                  if s.challenge.None? then None else Some(Challenge(s.challenge.value, step.id)),
                                                  Some(ChallengeIssued)), None)
            case NullChallenge => m' == m && o.Undefined?
            case Accept(_) => o.Outcome?
  {
    FoundFetches(m, step.id, step.env);
    hide RegisterDecision, RefreshDecision, Legible, BoundSession, ExtendedSession, Fetch, CopySucceeds, Found;
  }

  lemma DecisionIsRight(cfg: Config, s: Session, step: Step)
    requires (step.DoRegister? || step.DoRefresh?) && RunLaws.DecisionOf(cfg, s, step).Accept?
    ensures s.challenge.Some?
  {
    hide RegistrationProof, RefreshProof;
  }

  /** There is a new challenge, and every string that the session then has can be copied into the store. */
  predicate Storable(s: Session, step: Step, p: Proof)
    requires step.DoRegister? || step.DoRefresh?
  {
    var e := step.env;
    var key := if step.DoRefresh? then s.publicKey else if p.jwk.None? || e.dup.publicKey then p.jwk else s.publicKey;
    && e.challenge.Some? && e.put.id && e.put.challenge
    && (s.userId.Some? ==> e.put.userId) && (key.Some? ==> e.put.publicKey)
    && (s.algorithm.Some? || (step.DoRegister? && e.dup.algorithm) ==> e.put.algorithm)
  }

  /**
   An accepted proof: 200 with the cookie, the instruction to go on, and the challenge now
   stored; or, without a challenge or memory, a failure with nothing, which loses the
   session if its copy had begun.
   */
  lemma AcceptedAnswer(cfg: Config, m: Store, step: Step, p: Proof)
    requires Keyed(m) && (step.DoRegister? || step.DoRefresh?) && Found(m, step.id, step.env)
    requires RunLaws.DecisionOf(cfg, m[step.id.value], step.(header := Legible(cfg.foreign, step.header, step.env.jwt))) == Accept(p)
    ensures var (m', o) := Apply(cfg, m, step);
            var s := m[step.id.value];
            if Storable(s, step, p) then
              && step.id.value in m' && m'[step.id.value].challenge.Some?
              && o == Outcome(0, Response(200, Some(CookieValue(step.id, cfg.cookieTtl)), None,
                                          Some(Challenge(m'[step.id.value].challenge.value, step.id)),
                                          Some(Continue(step.id))),
                              Some(Event(if step.DoRegister? then Registered else Refreshed, s.userId, step.id.value)))
            else
              && o == Outcome(-1, Response(0, None, None, None, None), None)
              && m' == (if step.env.challenge.None? then m else m - {step.id.value})
  {
    var s, e := m[step.id.value], step.env;
    DecisionIsRight(cfg, s, step.(header := Legible(cfg.foreign, step.header, step.env.jwt)));
    AcceptCommits(cfg, m, step, p);
    StorableIs(cfg, s, step, p);
    var t := Written(cfg, s, step, p);
    WrittenKeeps(cfg, s, step, p);
    hide Apply, Written, RunLaws.DecisionOf, Legible, Found, Storable, CopySucceeds, Commit;
    CommitAnswer(cfg, m, t, if step.DoRegister? then Registered else Refreshed, e, step.id.value);
  }

  /** The session that is written back. */
  function Written(cfg: Config, s: Session, step: Step, p: Proof): Session
    requires step.DoRegister? || step.DoRefresh?
  {
    if step.DoRegister? then BoundSession(cfg, s, p, step.env) else ExtendedSession(cfg, s, step.env)
  }

  lemma AcceptCommits(cfg: Config, m: Store, step: Step, p: Proof)
    requires (step.DoRegister? || step.DoRefresh?) && Found(m, step.id, step.env)
    requires RunLaws.DecisionOf(cfg, m[step.id.value], step.(header := Legible(cfg.foreign, step.header, step.env.jwt))) == Accept(p)
    ensures Apply(cfg, m, step) ==
              Commit(cfg, m, Written(cfg, m[step.id.value], step, p), if step.DoRegister? then Registered else Refreshed, step.env)
  {
    FoundFetches(m, step.id, step.env);
    hide RegisterDecision, RefreshDecision, Legible, Fetch, Found, BoundSession, ExtendedSession, Commit;
  }

  lemma StorableIs(cfg: Config, s: Session, step: Step, p: Proof)
    requires (step.DoRegister? || step.DoRefresh?) && s.id.Some? && s.challenge.Some?
    ensures Storable(s, step, p) <==>
            step.env.challenge.Some? && CopySucceeds(Written(cfg, s, step, p), step.env.put)
  {
  }

  lemma WrittenKeeps(cfg: Config, s: Session, step: Step, p: Proof)
    requires step.DoRegister? || step.DoRefresh?
    ensures var t := Written(cfg, s, step, p);
            t.id == s.id && t.userId == s.userId && (s.challenge.Some? && step.env.challenge.Some? ==> t.challenge.Some?)
  {
  }

  lemma CommitAnswer(cfg: Config, m: Store, t: Session, kind: EventKind, e: Env, id: string)
    requires id in m && t.id == Some(id) && (e.challenge.Some? ==> t.challenge.Some?)
    ensures var (m', o) := Commit(cfg, m, t, kind, e);
            if e.challenge.Some? && CopySucceeds(t, e.put) then
              && m' == m[id := t]
              && o == Outcome(0, Response(200, Some(CookieValue(Some(id), cfg.cookieTtl)), None,
                                          Some(Challenge(t.challenge.value, Some(id))), Some(Continue(Some(id)))),
                              Some(Event(kind, t.userId, id)))
            else
              && o == Outcome(-1, Response(0, None, None, None, None), None)
              && m' == (if e.challenge.None? then m else m - {id})
  {
    hide CopySucceeds;
  }

  /** What an accepted proof changes in the session. */
  lemma AcceptedStores(cfg: Config, m: Store, step: Step)
    requires Keyed(m) && Runs.Accepts(step, Apply(cfg, m, step).1)
    ensures step.id.Some? && step.id.value in m && step.id.value in Apply(cfg, m, step).0
    ensures var s, t, e := m[step.id.value], Apply(cfg, m, step).0[step.id.value], step.env;
            && Apply(cfg, m, step).0 == m[step.id.value := t]
            && t.id == s.id && t.userId == s.userId && t.createdAt == s.createdAt && t.state == Bound
            && t.challenge == (if e.dup.challenge then e.challenge else s.challenge)
            && (if cfg.sessionTtl > 0 then t.hasExpires && t.expiresAt == e.end + cfg.sessionTtl else !t.hasExpires)
            && (step.DoRefresh? ==> t.publicKey == s.publicKey && t.algorithm == s.algorithm)
  {
    Runs.AcceptanceUses(cfg, m, step);
    StepEffect(cfg, m, step, step.id.value);
    hide Apply, RegisterDecision, RefreshDecision, Runs.Jti;
  }

  /** A close of a found session: the cookie is taken back and the session ends, or nothing happens. */
  lemma CloseAnswer(cfg: Config, m: Store, id: Option<string>, e: Env)
    requires Keyed(m) && Found(m, id, e)
    ensures var (m', o) := Apply(cfg, m, DoClose(id, e));
            var s := m[id.value];
            if (s.userId.Some? ==> e.copyUser) && e.makeBody then
              m' == m - {id.value}
              && o == Outcome(0, Response(200, Some(CookieValue(id, 0)), None, None, Some(Stop)),
                              Some(Event(Closed, s.userId, id.value)))
            else m' == m && o == Outcome(-1, Response(0, None, None, None, None), None)
  {
  }

  /** Memory for the parts and the buffers of the header and the payload, and of the signature if there is one to check. */
  predicate EnoughFor(p: Proof, a: JwtAlloc) {
    && a.parts && a.headerPad && a.headerOut && a.payloadPad && a.payloadOut
    && (p.algorithm != "none" ==> a.sigPad && a.sigOut)
  }

  lemma LegibleIff(f: Foreign, token: string, a: JwtAlloc)
    ensures Legible(f, Some(token), a) ==
              if DecodeToken(f, token).Some? && !EnoughFor(DecodeToken(f, token).value, a) then None else Some(token)
  {
    hide DecodeToken;
  }

  /** A proof that decodes, but for which there is not enough memory, counts as none: 403 with the stored challenge. */
  lemma Illegible403(cfg: Config, m: Store, step: Step, p: Proof)
    requires Keyed(m) && (step.DoRegister? || step.DoRefresh?) && Found(m, step.id, step.env)
    requires m[step.id.value].state == if step.DoRegister? then Active else Bound
    requires step.header.Some? && DecodeToken(cfg.foreign, step.header.value) == Some(p) && !EnoughFor(p, step.env.jwt)
    ensures var (m', o) := Apply(cfg, m, step); m' == m && o.Outcome? && o.resp.status == 403
  {
    LegibleIff(cfg.foreign, step.header.value, step.env.jwt);
    DecidedAnswer(cfg, m, step);
    hide Apply, DecodeToken, RegistrationProof, RefreshProof, Legible;
  }

  // ---------------------------------------------------------------- the cookie

  /** The application's own uses of the store answer nothing. */
  predicate Quiet(step: Step) {
    step.DoGetSession? || step.DoListUser? || step.DoDropUser?
  }

  /** A cookie goes out exactly with status 200; it names the session, for its lifetime or, after a close, for none. */
  lemma CookieIff(cfg: Config, m: Store, step: Step)
    requires Keyed(m) && Apply(cfg, m, step).1.Outcome?
    ensures var o := Apply(cfg, m, step).1;
            && (o.resp.setCookie.Some? <==> o.resp.status == 200)
            && (o.resp.status == 200 ==>
                  o.event.Some? && o.resp.setCookie == Some(CookieValue(Some(o.event.value.id), if step.DoClose? then 0 else cfg.cookieTtl)))
            && (Quiet(step) ==> o.resp == Response(0, None, None, None, None) && o.event == None)
  {
    match step
    case DoInitiate(user, e) =>
      if LoginSucceeds(m, user, e) {
        LoginAnswer(cfg, m, user, e);
      } else {
        LoginFails(cfg, m, user, e);
      }
      hide Apply;
    case DoClose(id, e) =>
      if Found(m, id, e) {
        CloseAnswer(cfg, m, id, e);
      } else {
        NotFoundAnswer(cfg, m, step);
      }
      hide Apply;
    case DoRegister(_, _, _) => ProofCookie(cfg, m, step);
    case DoRefresh(_, _, _) => ProofCookie(cfg, m, step);
    case _ =>
  }

  lemma ProofCookie(cfg: Config, m: Store, step: Step)
    requires Keyed(m) && (step.DoRegister? || step.DoRefresh?) && Apply(cfg, m, step).1.Outcome?
    ensures var o := Apply(cfg, m, step).1;
            && (o.resp.setCookie.Some? <==> o.resp.status == 200)
            && (o.resp.status == 200 ==>
                  o.event.Some? && o.resp.setCookie == Some(CookieValue(Some(o.event.value.id), cfg.cookieTtl)))
  {
    hide Apply, RunLaws.DecisionOf, Legible;
    if !Found(m, step.id, step.env) {
      NotFoundAnswer(cfg, m, step);
    } else {
      DecidedAnswer(cfg, m, step);
      var d := RunLaws.DecisionOf(cfg, m[step.id.value], step.(header := Legible(cfg.foreign, step.header, step.env.jwt)));
      if d.Accept? {
        AcceptedAnswer(cfg, m, step, d.proof);
      }
    }
  }
}
