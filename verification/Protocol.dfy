/**
 The four handlers of src/manager/manager.c as functions on the session map. One
 handler is one atomic step, as it is in the single event loop of the server.
 */
module Protocol {
  import opened Wrappers
  import opened Sessions
  import opened StoreSpec
  import opened Jwt
  import Header
  import SetCookie

  datatype Config = Config(cookie: SetCookie.CookieConfig, cookieTtl: int, sessionTtl: int,
                           authorization: Option<string>, foreign: Foreign)

  /**
   Everything a handler does not control: two clock readings, the generated identifier
   and challenge (None when generation fails), and which allocations succeed.
   */
  datatype Env = Env(
    start: nat,
    end: nat,
    newId: Option<string>,
    challenge: Option<string>,
    dup: StringAlloc,
    room: bool,
    put: StringAlloc,
    found: bool,
    fetched: StringAlloc,
    copyUser: bool,
    makeBody: bool,
    jwt: JwtAlloc)

  datatype Body = MissingCookie | MissingId | InvalidSession | NotActive | NotBound | ChallengeIssued
                | Continue(id: Option<string>) | Stop

  datatype CookieValue = CookieValue(value: Option<string>, maxAge: int)

  datatype Challenge = Challenge(value: string, id: Option<string>)

  /** The response fields; the wire text of each is what the serializers of Header and SetCookie write. */
  datatype Response = Response(status: int, setCookie: Option<CookieValue>, registration: Option<Header.Registration>,
                               challenge: Option<Challenge>, body: Option<Body>)

  const NO_RESPONSE := Response(0, None, None, None, None)

  datatype EventKind = Login | Registered | Refreshed | Closed

  datatype Event = Event(kind: EventKind, user: Option<string>, id: string)

  /** Undefined stands for a comparison with a null string, on which C promises nothing. */
  datatype Outcome = Outcome(rc: int, resp: Response, event: Option<Event>) | Undefined

  const FAILURE := Outcome(-1, NO_RESPONSE, None)

  function Answer(status: int, body: Body): Outcome {
    Outcome(0, NO_RESPONSE.(status := status, body := Some(body)), None)
  }

  /** set_challenge_response: the stored challenge, if there is one, and status 403. */
  function ChallengeAnswer(s: Session): Outcome {
    Outcome(0, NO_RESPONSE.(status := 403, challenge := ChallengeOf(s), body := Some(ChallengeIssued)), None)
  }

  function ChallengeOf(s: Session): Option<Challenge> {
    if s.challenge.None? then None else Some(Challenge(s.challenge.value, s.id))
  }

  /** apply_session_ttl. */
  function WithTtl(s: Session, ttl: int, now: int): Session {
    if ttl > 0 then s.(expiresAt := now + ttl, hasExpires := now + ttl != 0)
    else s.(expiresAt := 0, hasExpires := false)
  }

  /** Whether the store manages to hand out a copy of the session. */
  predicate Fetched(m: Store, id: Option<string>, e: Env) {
    e.found && (id.Some? && id.value in m ==> CopySucceeds(m[id.value], e.fetched))
  }

  function Fetch(m: Store, id: Option<string>, e: Env): (Store, Option<Session>) {
    Get(m, id, e.start, Fetched(m, id, e))
  }

  // ---------------------------------------------------------------- initiate

  function NewSession(cfg: Config, user: Option<string>, e: Env): Session {
    var s := BLANK.(id := Overwritten(None, e.newId, e.dup.id), userId := Overwritten(None, user, e.dup.userId),
                    challenge := Overwritten(None, e.challenge, e.dup.challenge), createdAt := e.start);
    WithTtl(s, cfg.sessionTtl, e.end)
  }

  function LoginHeader(cfg: Config, s: Session): Header.Registration {
    Header.Registration(["ES256", "RS256"], Some("/dbsc/register"), s.challenge, cfg.authorization, None, None, None)
  }

  function Initiate(cfg: Config, m: Store, user: Option<string>, e: Env): (Store, Outcome) {
    if user.None? || e.newId.None? || e.challenge.None? then (m, FAILURE)
    else
      var s := NewSession(cfg, user, e);
      var (m', rc) := Create(m, s, e.room, CopySucceeds(s, e.put));
      if rc != 0 then (m', FAILURE)
      else (m', Outcome(0, NO_RESPONSE.(status := 200, setCookie := Some(CookieValue(s.id, cfg.cookieTtl)),
                                        registration := Some(LoginHeader(cfg, s))),
                        Some(Event(Login, user, s.id.value))))
  }

  // ---------------------------------------------------------------- register

  /** The proof header, unless there is a proof in it for whose handling there is no memory. */
  function Legible(f: Foreign, header: Option<string>, a: JwtAlloc): Option<string> {
    if header.Some? && DecodeToken(f, header.value).Some? && Affordable(a, DecodeToken(f, header.value)).None? then None
    else header
  }

  datatype Decision = WrongState | Rechallenge | NullChallenge | Accept(proof: Proof)

  /** The checks of the register handler, in its order. */
  function RegisterDecision(cfg: Config, s: Session, header: Option<string>): Decision {
    if s.state != Active then WrongState
    else if !Header.Present(header) then Rechallenge
    else
      var p := RegistrationProof(cfg.foreign, header.value);
      if p.None? then Rechallenge
      else if s.challenge.None? then NullChallenge
      else if p.value.challenge != s.challenge.value then Rechallenge
      else if cfg.authorization.Some? && p.value.authorization != cfg.authorization then Rechallenge
      else Accept(p.value)
  }

  /** The session that a successful registration stores. */
  function BoundSession(cfg: Config, s: Session, p: Proof, e: Env): Session {
    WithTtl(s.(state := Bound,
               publicKey := Overwritten(s.publicKey, p.jwk, e.dup.publicKey),
               algorithm := Overwritten(s.algorithm, Some(p.algorithm), e.dup.algorithm),
               challenge := Overwritten(s.challenge, e.challenge, e.dup.challenge)),
            cfg.sessionTtl, e.end)
  }

  /** Storing the changed session and answering 200 with a fresh challenge. */
  function Commit(cfg: Config, m: Store, s: Session, kind: EventKind, e: Env): (Store, Outcome) {
    if e.challenge.None? then (m, FAILURE)
    else
      var (m', rc) := Update(m, s, CopySucceeds(s, e.put));
      if rc != 0 then (m', FAILURE)
      else (m', Outcome(0, NO_RESPONSE.(status := 200, setCookie := Some(CookieValue(s.id, cfg.cookieTtl)),
                                        challenge := ChallengeOf(s), body := Some(Continue(s.id))),
                        Some(Event(kind, s.userId, s.id.value))))
  }

  function Register(cfg: Config, m: Store, cookie: Option<string>, header: Option<string>, e: Env): (Store, Outcome) {
    if !Header.Present(cookie) then (m, Answer(401, MissingCookie))
    else
      var (m1, got) := Fetch(m, cookie, e);
      if got.None? then (m1, Answer(401, InvalidSession))
      else
        match RegisterDecision(cfg, got.value, Legible(cfg.foreign, header, e.jwt))
        case WrongState => (m1, Answer(400, NotActive))
        case Rechallenge => (m1, ChallengeAnswer(got.value))
        case NullChallenge => (m1, Undefined)
        case Accept(p) => Commit(cfg, m1, BoundSession(cfg, got.value, p, e), Registered, e)
  }

  // ---------------------------------------------------------------- refresh

  /** The checks of the refresh handler: the proof is verified against the registered key. */
  function RefreshDecision(cfg: Config, s: Session, header: Option<string>): Decision {
    if s.state != Bound then WrongState
    else if !Header.Present(header) || s.publicKey.None? then Rechallenge
    else
      var p := RefreshProof(cfg.foreign, header.value, s.publicKey.value);
      if p.None? then Rechallenge
      else if s.challenge.None? then NullChallenge
      else if p.value.challenge != s.challenge.value then Rechallenge
      else Accept(p.value)
  }

  /** The session that a successful refresh stores. */
  function ExtendedSession(cfg: Config, s: Session, e: Env): Session {
    WithTtl(s.(challenge := Overwritten(s.challenge, e.challenge, e.dup.challenge)), cfg.sessionTtl, e.end)
  }

  function Refresh(cfg: Config, m: Store, id: Option<string>, header: Option<string>, e: Env): (Store, Outcome) {
    if !Header.Present(id) then (m, Answer(400, MissingId))
    else
      var (m1, got) := Fetch(m, id, e);
      if got.None? then (m1, Answer(401, InvalidSession))
      else
        match RefreshDecision(cfg, got.value, Legible(cfg.foreign, header, e.jwt))
        case WrongState => (m1, Answer(400, NotBound))
        case Rechallenge => (m1, ChallengeAnswer(got.value))
        case NullChallenge => (m1, Undefined)
        case Accept(p) => Commit(cfg, m1, ExtendedSession(cfg, got.value, e), Refreshed, e)
  }

  // ---------------------------------------------------------------- close

  /** The response is complete before the session is deleted. */
  function Close(cfg: Config, m: Store, id: Option<string>, e: Env): (Store, Outcome) {
    if !Header.Present(id) then (m, Answer(400, MissingId))
    else
      var (m1, got) := Fetch(m, id, e);
      if got.None? then (m1, Answer(401, InvalidSession))
      else if (got.value.userId.Some? && !e.copyUser) || !e.makeBody then (m1, FAILURE)
      else (Delete(m1, id),
            Outcome(0, NO_RESPONSE.(status := 200, setCookie := Some(CookieValue(got.value.id, 0)), body := Some(Stop)),
                    Some(Event(Closed, got.value.userId, id.value))))
  }

  // ---------------------------------------------------------------- one step

  /** A client request, or a direct use of the store by the application. */
  datatype Step =
    | DoInitiate(user: Option<string>, env: Env)
    | DoRegister(id: Option<string>, header: Option<string>, env: Env)
    | DoRefresh(id: Option<string>, header: Option<string>, env: Env)
    | DoClose(id: Option<string>, env: Env)
    | DoGetSession(id: Option<string>, env: Env)
    | DoListUser(owner: string, env: Env)
    | DoDropUser(owner: string, env: Env)

  function Apply(cfg: Config, m: Store, step: Step): (Store, Outcome) {
    match step
    case DoInitiate(user, e) => Initiate(cfg, m, user, e)
    case DoRegister(id, header, e) => Register(cfg, m, id, header, e)
    case DoRefresh(id, header, e) => Refresh(cfg, m, id, header, e)
    case DoClose(id, e) => Close(cfg, m, id, e)
    case DoGetSession(id, e) =>
      var (m', got) := Fetch(m, id, e);
      (m', if got.None? then FAILURE else Outcome(0, NO_RESPONSE, None))
    case DoListUser(user, e) => (Live(m, e.start), Outcome(0, NO_RESPONSE, None))
    case DoDropUser(user, e) => (NotOfUser(m, user), Outcome(0, NO_RESPONSE, None))
  }
}
