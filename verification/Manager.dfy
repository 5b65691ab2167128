/**
 The manager of src/manager/manager.c on top of the in-memory store: each handler
 mutates a fetched session step by step, writes it back, fills its response, and is
 proved to do what the function of the same name in Protocol says.
 */
module Managers {
  import opened Wrappers
  import opened Sessions
  import opened MemoryStores
  import opened Jwt
  import opened Protocol
  import Header
  import StoreSpec

  /** Lack of memory in the decoder reads as an absent header does: no proof. */
  lemma LegibleRegistration(f: Foreign, token: string, a: JwtAlloc)
    ensures var h, p := Legible(f, Some(token), a), Affordable(a, RegistrationProof(f, token));
            if h.None? then p.None? else h == Some(token) && p == RegistrationProof(f, token)
    ensures Legible(f, None, a).None?
  {
    hide DecodeToken, SignatureOk;
  }

  lemma LegibleRefresh(f: Foreign, token: string, jwk: string, a: JwtAlloc)
    ensures var h, p := Legible(f, Some(token), a), Affordable(a, RefreshProof(f, token, jwk));
            if h.None? then p.None? else h == Some(token) && p == RefreshProof(f, token, jwk)
    ensures Legible(f, None, a).None?
  {
    hide DecodeToken, SignatureOk;
  }

  class Manager {
    const cfg: Config
    const store: MemoryStore

    constructor (cfg: Config, store: MemoryStore)
      ensures this.cfg == cfg && this.store == store
    {
      this.cfg, this.store := cfg, store;
    }

    /** apply_session_ttl. */
    method ApplySessionTtl(session: SessionStruct, now: int)
      modifies session
      ensures session.Value() == WithTtl(old(session.Value()), cfg.sessionTtl, now)
    {
      if cfg.sessionTtl > 0 {
        session.SetExpiresAt(now + cfg.sessionTtl);
      } else {
        session.expiresAt := 0;
        session.hasExpires := false;
      }
    }

    /** The setter calls of opendbsc_manager_initiate; their results are ignored. */
    method BuildSession(user: Option<string>, e: Env) returns (session: SessionStruct)
      ensures fresh(session) && session.Value() == NewSession(cfg, user, e)
    {
      session := new SessionStruct();
      var _ := session.SetId(e.newId, e.dup.id);
      var _ := session.SetUserId(user, e.dup.userId);
      session.SetState(Active);
      var _ := session.SetChallenge(e.challenge, e.dup.challenge);
      session.SetCreatedAt(e.start);
      ApplySessionTtl(session, e.end);
    }

    method Initiate(user: Option<string>, e: Env) returns (out: Outcome)
      requires store.Valid()
      modifies store, store.sessions
      ensures store.Valid() && (store.sessions == old(store.sessions) || fresh(store.sessions))
      ensures (store.Model(), out)
           == Protocol.Initiate(cfg, old(store.Model()), user, e.(room := e.room || old(store.count < store.capacity)))
    {
      hide MapOf, WellFormed, CopySucceeds, WithTtl, Overwritten;
      if user.None? {
        return FAILURE;
      }
      if e.newId.None? {
        return FAILURE;
      }
      if e.challenge.None? {
        return FAILURE;
      }
      var session := BuildSession(user, e);
      var s := session.Value();
      var rc := store.Create(s, e.room, e.put);
      if rc != 0 {
        return FAILURE;
      }
      var resp := NO_RESPONSE;
      resp := resp.(setCookie := Some(CookieValue(session.id, cfg.cookieTtl)));
      resp := resp.(registration := Some(LoginHeader(cfg, s)));
      resp := resp.(status := 200);
      out := Outcome(0, resp, Some(Event(Login, user, session.id.value)));
    }

    /** The common tail of register and refresh: new challenge, new expiry, write back, respond. */
    method StoreAndRespond(session: SessionStruct, kind: EventKind, e: Env) returns (out: Outcome)
      requires store.Valid()
      modifies session, store.sessions
      ensures store.Valid()
      ensures (store.Model(), out)
           == (var s := old(session.Value());
               Protocol.Commit(cfg, old(store.Model()),
                               WithTtl(s.(challenge := Overwritten(s.challenge, e.challenge, e.dup.challenge)),
                                       cfg.sessionTtl, e.end),
                               kind, e))
    {
      if e.challenge.None? {
        return FAILURE;
      }
      var _ := session.SetChallenge(e.challenge, e.dup.challenge);
      ApplySessionTtl(session, e.end);
      var rc := store.Update(session.Value(), e.put);
      if rc != 0 {
        return FAILURE;
      }
      var resp := NO_RESPONSE;
      resp := resp.(setCookie := Some(CookieValue(session.id, cfg.cookieTtl)));
      resp := resp.(challenge := ChallengeOf(session.Value()));
      resp := resp.(body := Some(Continue(session.id)));
      resp := resp.(status := 200);
      out := Outcome(0, resp, Some(Event(kind, session.userId, session.id.value)));
    }

    /** The ladder of checks in opendbsc_manager_register. */
    method CheckRegister(session: SessionStruct, header: Option<string>, a: JwtAlloc) returns (d: Decision)
      ensures d == RegisterDecision(cfg, session.Value(), Legible(cfg.foreign, header, a))
    {
      if header.Some? {
        LegibleRegistration(cfg.foreign, header.value, a);
      }
      hide RegistrationProof, Legible, Affordable;
      if session.state != Active {
        return WrongState;
      }
      if !Header.Present(header) {
        return Rechallenge;
      }
      var proof := DecodeAndVerify(cfg.foreign, header.value, a);
      if proof.None? {
        return Rechallenge;
      }
      if session.challenge.None? {
        return NullChallenge;
      }
      if proof.value.challenge != session.challenge.value {
        return Rechallenge;
      }
      if cfg.authorization.Some? && proof.value.authorization != cfg.authorization {
        return Rechallenge;
      }
      d := Accept(proof.value);
    }

    /** The ladder of checks in opendbsc_manager_refresh. */
    method CheckRefresh(session: SessionStruct, header: Option<string>, a: JwtAlloc) returns (d: Decision)
      ensures d == RefreshDecision(cfg, session.Value(), Legible(cfg.foreign, header, a))
    {
      if header.Some? && session.publicKey.Some? {
        LegibleRefresh(cfg.foreign, header.value, session.publicKey.value, a);
      }
      hide RefreshProof, Legible, Affordable;
      if session.state != Bound {
        return WrongState;
      }
      if !Header.Present(header) {
        return Rechallenge;
      }
      if session.publicKey.None? {
        return Rechallenge;
      }
      var proof := VerifyWithJwk(cfg.foreign, header.value, session.publicKey.value, a);
      if proof.None? {
        return Rechallenge;
      }
      if session.challenge.None? {
        return NullChallenge;
      }
      if proof.value.challenge != session.challenge.value {
        return Rechallenge;
      }
      d := Accept(proof.value);
    }

    method Register(cookie: Option<string>, header: Option<string>, e: Env) returns (out: Outcome)
      requires store.Valid()
      modifies store`count, store.sessions
      ensures store.Valid()
      ensures (store.Model(), out) == Protocol.Register(cfg, old(store.Model()), cookie, header, e)
    {
      hide MapOf, WellFormed, CopySucceeds, RegistrationProof, StoreSpec.Get, Commit, WithTtl, RegisterDecision, ChallengeAnswer, Legible;
      if !Header.Present(cookie) {
        return Answer(401, MissingCookie);
      }
      var rc, session := store.Get(cookie, e.start, e.found, e.fetched);
      if rc != 0 {
        return Answer(401, InvalidSession);
      }
      ghost var s := session.Value();
      var decision := CheckRegister(session, header, e.jwt);
      if decision.WrongState? {
        return Answer(400, NotActive);
      } else if decision.Rechallenge? {
        return ChallengeAnswer(session.Value());
      } else if decision.NullChallenge? {
        return Undefined;
      }
      var proof := decision.proof;
      session.SetState(Bound);
      var _ := session.SetPublicKey(proof.jwk, e.dup.publicKey);
      var _ := session.SetAlgorithm(Some(proof.algorithm), e.dup.algorithm);
      out := StoreAndRespond(session, Registered, e);
    }

    method Refresh(id: Option<string>, header: Option<string>, e: Env) returns (out: Outcome)
      requires store.Valid()
      modifies store`count, store.sessions
      ensures store.Valid()
      ensures (store.Model(), out) == Protocol.Refresh(cfg, old(store.Model()), id, header, e)
    {
      hide MapOf, WellFormed, CopySucceeds, RefreshProof, StoreSpec.Get, Commit, WithTtl, RefreshDecision, ChallengeAnswer, Legible;
      if !Header.Present(id) {
        return Answer(400, MissingId);
      }
      var rc, session := store.Get(id, e.start, e.found, e.fetched);
      if rc != 0 {
        return Answer(401, InvalidSession);
      }
      ghost var s := session.Value();
      var decision := CheckRefresh(session, header, e.jwt);
      if decision.WrongState? {
        return Answer(400, NotBound);
      } else if decision.Rechallenge? {
        return ChallengeAnswer(session.Value());
      } else if decision.NullChallenge? {
        return Undefined;
      }
      out := StoreAndRespond(session, Refreshed, e);
    }

    method Close(id: Option<string>, e: Env) returns (out: Outcome)
      requires store.Valid()
      modifies store`count, store.sessions
      ensures store.Valid()
      ensures (store.Model(), out) == Protocol.Close(cfg, old(store.Model()), id, e)
    {
      if !Header.Present(id) {
        return Answer(400, MissingId);
      }
      var rc, session := store.Get(id, e.start, e.found, e.fetched);
      if rc != 0 {
        return Answer(401, InvalidSession);
      }
      var user := if e.copyUser then session.userId else None;
      if session.userId.Some? && user.None? {
        return FAILURE;
      }
      if !e.makeBody {
        return FAILURE;
      }
      var resp := NO_RESPONSE;
      resp := resp.(setCookie := Some(CookieValue(session.id, 0)));
      resp := resp.(body := Some(Stop));
      resp := resp.(status := 200);
      rc := store.Delete(id);
      if rc != 0 {
        return FAILURE;
      }
      out := Outcome(0, resp, Some(Event(Closed, session.userId, id.value)));
    }
  }
}
