/**
 Concrete runs for each way in which the protocol falls short: two handlers that race to
 register or to close, and a challenge or a key that cannot be duplicated.
 */
module Races {
  import opened Wrappers
  import opened Sessions
  import opened StoreSpec
  import opened Jwt
  import opened Protocol
  import opened Effects
  import opened Interleaving
  import opened InterleavingLaws
  import Base64Url
  import Runs
  import RunLaws
  import SetCookie

  const ENV := Env(0, 0, None, None, RunLaws.ALL_DUPLICATED, true, RunLaws.ALL_DUPLICATED, true,
                   RunLaws.ALL_DUPLICATED, true, true, ENOUGH)

  function LoginStep(id: string, c: string): Step {
    DoInitiate(Some("user"), ENV.(newId := Some(id), challenge := Some(c)))
  }

  function RegisterStep(id: string, token: string, c: string): Step {
    DoRegister(Some(id), Some(token), ENV.(challenge := Some(c)))
  }

  function RefreshStep(id: string, token: string, c: string, dup: bool): Step {
    DoRefresh(Some(id), Some(token), ENV.(challenge := Some(c), dup := RunLaws.ALL_DUPLICATED.(challenge := dup)))
  }

  // ---------------------------------------------------------------- two handlers read the same challenge

  /** Two registrations read the session before either one writes it. */
  function Race(id: string, c: string, first: string, second: string): Moves {
    [Begin(0, LoginStep(id, c)),
     Begin(1, RegisterStep(id, first, c + "1")), Begin(2, RegisterStep(id, second, c + "2")),
     Finish(1), Finish(2)]
  }

  predicate Registers(cfg: Config, token: string, c: string, p: Proof) {
    RegistrationProof(cfg.foreign, token) == Some(p) && p.challenge == c
    && (cfg.authorization.Some? ==> p.authorization == cfg.authorization)
  }

  /** A fresh session whose challenge is c. */
  predicate IsNew(s: Session, id: string, c: string) {
    s.id == Some(id) && s.state == Active && s.challenge == Some(c) && s.userId == Some("user") && !Expired(s, 0)
  }

  /** What a move adds to the histories. */
  predicate Adds(cfg: Config, s: Server, mv: Move, id: string, kinds: seq<EventKind>, accepted: seq<Option<string>>,
                 newId: Option<string>, challenge: Option<string>) {
    KindNow(cfg, s, mv, id) == kinds && AcceptedNow(cfg, s, mv) == accepted
    && IdNow(s, mv) == newId && ChallengeNow(s, mv) == challenge
  }

  /** Where a run has got to, and its four histories. */
  datatype History = History(server: Server, kinds: seq<EventKind>, accepted: seq<Option<string>>,
                             ids: seq<Option<string>>, draws: seq<Option<string>>)

  function HistoryOf(cfg: Config, ms: Moves, id: string): History {
    History(ServerOf(cfg, ms), Kinds(cfg, ms, id), Accepted(cfg, ms), Ids(cfg, ms), Draws(cfg, ms))
  }

  lemma AfterMove(cfg: Config, ms: Moves, mv: Move, id: string, kinds: seq<EventKind>, accepted: seq<Option<string>>,
                  newId: Option<string>, challenge: Option<string>)
    requires Adds(cfg, ServerOf(cfg, ms), mv, id, kinds, accepted, newId, challenge)
    ensures var h := HistoryOf(cfg, ms, id);
            HistoryOf(cfg, ms + [mv], id) ==
              History(Next(cfg, h.server, mv).0, h.kinds + kinds, h.accepted + accepted, h.ids + [newId], h.draws + [challenge])
    ensures HistoryOf(cfg, ms, id).server == ServerOf(cfg, ms)
  {
    hide Next, KindNow, AcceptedNow, IdNow, ChallengeNow;
    assert Before(ms + [mv]) == ms;
  }

  lemma LoginMove(cfg: Config, id: string, c: string)
    ensures var mv := Begin(0, LoginStep(id, c));
            var s := Next(cfg, START, mv).0;
            && s.pending == map[] && id in s.store && IsNew(s.store[id], id, c)
            && Adds(cfg, START, mv, id, [Login], [], Some(id), Some(c))
  {
  }

  /** The handler that waits after reading the session. */
  function Reader(cfg: Config, copy: Session, id: string, token: string, c': string, p: Proof): Thread {
    var step := RegisterStep(id, token, c');
    Updates(step, copy, BoundSession(cfg, copy, p, step.env), Registered)
  }

  lemma ReadMove(cfg: Config, s: Server, h: nat, id: string, c: string, token: string, c': string, p: Proof)
    requires h !in s.pending && id != "" && id in s.store && IsNew(s.store[id], id, c) && Registers(cfg, token, c, p)
    ensures var mv := Begin(h, RegisterStep(id, token, c'));
            && Next(cfg, s, mv).0 == s.(pending := s.pending[h := Reader(cfg, s.store[id], id, token, c', p)])
            && Adds(cfg, s, mv, id, [], [], None, None)
  {
    hide RegistrationProof, Apply;
    if token == "" {
      RunLaws.EmptyToken(cfg.foreign);
    }
  }

  lemma WriteMove(cfg: Config, s: Server, h: nat, copy: Session, id: string, c: string, token: string, c': string, p: Proof)
    requires h in s.pending && s.pending[h] == Reader(cfg, copy, id, token, c', p)
    requires id in s.store && IsNew(copy, id, c) && Registers(cfg, token, c, p)
    ensures var s' := Next(cfg, s, Finish(h)).0;
            && s'.pending == s.pending - {h} && id in s'.store && s'.store[id].publicKey == p.jwk
            && Adds(cfg, s, Finish(h), id, [Registered], [Some(c)], None, Some(c'))
  {
    assert DecodeToken(cfg.foreign, token) == Some(p);
    hide RegistrationProof, DecodeToken;
  }

  /**
   Both registrations answer 200: the challenge is accepted twice, REGISTER happens twice,
   and the second key replaces the first.
   */
  lemma TwoRegistrations(cfg: Config, id: string, c: string, first: string, second: string, p: Proof, q: Proof)
    requires id != "" && Registers(cfg, first, c, p) && Registers(cfg, second, c, q)
    ensures var ms := Race(id, c, first, second);
            && NoRepeats(Ids(cfg, ms)) && NoRepeats(Draws(cfg, ms))
            && Accepted(cfg, ms) == [Some(c), Some(c)]
            && Kinds(cfg, ms, id) == [Login, Registered, Registered]
            && id in ServerOf(cfg, ms[..4]).store && ServerOf(cfg, ms[..4]).store[id].publicKey == p.jwk
            && id in ServerOf(cfg, ms).store && ServerOf(cfg, ms).store[id].publicKey == q.jwk
  {
    hide ServerOf, Ids, Draws, Kinds, Accepted, NoRepeats, Registers, Race;
    RaceHistory(cfg, id, c, first, second, p, q);
    RaceFresh(id, c);
    RaceSums(c);
  }

  lemma RaceSums(c: string)
    ensures [] + [Login] + [] + [] + [Registered] + [Registered] == [Login, Registered, Registered]
    ensures [] + [] + [] + [] + [Some(c)] + [Some(c)] == [Some(c), Some(c)]
  {
  }

  lemma NoHistory(cfg: Config, id: string)
    ensures HistoryOf(cfg, [], id) == History(START, [], [], [], [])
  {
  }

  lemma RaceShape(id: string, c: string, first: string, second: string)
    ensures var m4 := [] + [Begin(0, LoginStep(id, c))] + [Begin(1, RegisterStep(id, first, c + "1"))]
                      + [Begin(2, RegisterStep(id, second, c + "2"))] + [Finish(1)];
            Race(id, c, first, second) == m4 + [Finish(2)] && Race(id, c, first, second)[..4] == m4
  {
  }

  lemma RaceHistory(cfg: Config, id: string, c: string, first: string, second: string, p: Proof, q: Proof)
    requires id != "" && Registers(cfg, first, c, p) && Registers(cfg, second, c, q)
    ensures var ms := Race(id, c, first, second);
            var h := HistoryOf(cfg, ms, id);
            && h.kinds == [] + [Login] + [] + [] + [Registered] + [Registered]
            && h.accepted == [] + [] + [] + [] + [Some(c)] + [Some(c)]
            && h.ids == [] + [Some(id)] + [None] + [None] + [None] + [None]
            && h.draws == [] + [Some(c)] + [None] + [None] + [Some(c + "1")] + [Some(c + "2")]
            && id in ServerOf(cfg, ms[..4]).store && ServerOf(cfg, ms[..4]).store[id].publicKey == p.jwk
            && id in h.server.store && h.server.store[id].publicKey == q.jwk
  {
    LoginMove(cfg, id, c);
    NoHistory(cfg, id);
    RaceShape(id, c, first, second);
    var login, r1, r2 := Begin(0, LoginStep(id, c)), Begin(1, RegisterStep(id, first, c + "1")), Begin(2, RegisterStep(id, second, c + "2"));
    hide ServerOf, Ids, Draws, Kinds, Accepted, Registers, IsNew, Next, Reader, LoginStep, RegisterStep, Adds, Race, HistoryOf;
    var m4 := [] + [login] + [r1] + [r2] + [Finish(1)];
    AfterMove(cfg, [], login, id, [Login], [], Some(id), Some(c));
    var copy := ServerOf(cfg, [] + [login]).store[id];
    ReadMove(cfg, ServerOf(cfg, [] + [login]), 1, id, c, first, c + "1", p);
    AfterMove(cfg, [] + [login], r1, id, [], [], None, None);
    ReadMove(cfg, ServerOf(cfg, [] + [login] + [r1]), 2, id, c, second, c + "2", q);
    AfterMove(cfg, [] + [login] + [r1], r2, id, [], [], None, None);
    WriteMove(cfg, ServerOf(cfg, [] + [login] + [r1] + [r2]), 1, copy, id, c, first, c + "1", p);
    AfterMove(cfg, [] + [login] + [r1] + [r2], Finish(1), id, [Registered], [Some(c)], None, Some(c + "1"));
    WriteMove(cfg, ServerOf(cfg, m4), 2, copy, id, c, second, c + "2", q);
    AfterMove(cfg, m4, Finish(2), id, [Registered], [Some(c)], None, Some(c + "2"));
  }

  lemma RaceFresh(id: string, c: string)
    ensures NoRepeats([] + [Some(id)] + [None] + [None] + [None] + [None])
    ensures NoRepeats([] + [Some(c)] + [None] + [None] + [Some(c + "1")] + [Some(c + "2")])
  {
    assert [] + [Some(id)] + [None] + [None] + [None] + [None] == [Some(id), None, None, None, None];
    assert [] + [Some(c)] + [None] + [None] + [Some(c + "1")] + [Some(c + "2")] == [Some(c), None, None, Some(c + "1"), Some(c + "2")];
    assert |c| < |c + "1"| && (c + "1")[|c|] != (c + "2")[|c|];
  }

  // ---------------------------------------------------------------- two handlers close the same session

  function CloseStep(id: string): Step {
    DoClose(Some(id), ENV)
  }

  function ClosingRace(id: string, c: string): Moves {
    [Begin(0, LoginStep(id, c)), Begin(1, CloseStep(id)), Begin(2, CloseStep(id)), Finish(1), Finish(2)]
  }

  lemma CloseReadMove(cfg: Config, s: Server, h: nat, id: string, c: string)
    requires h !in s.pending && id != "" && id in s.store && IsNew(s.store[id], id, c)
    ensures var mv := Begin(h, CloseStep(id));
            && Next(cfg, s, mv).0 == s.(pending := s.pending[h := Deletes(CloseStep(id), s.store[id])])
            && Adds(cfg, s, mv, id, [], [], None, None)
  {
    hide Apply;
  }

  lemma CloseFinishMove(cfg: Config, s: Server, h: nat, copy: Session, id: string)
    requires h in s.pending && s.pending[h] == Deletes(CloseStep(id), copy) && copy.id == Some(id)
    ensures Next(cfg, s, Finish(h)).0.pending == s.pending - {h}
    ensures Adds(cfg, s, Finish(h), id, [Closed], [], None, None)
  {
  }

  lemma CloseSums()
    ensures [] + [Login] + [] + [] + [Closed] + [Closed] == [Login, Closed, Closed]
  {
  }

  /** Two closes that both read the session both report a CLOSE. */
  lemma TwoCloses(cfg: Config, id: string, c: string)
    requires id != ""
    ensures Kinds(cfg, ClosingRace(id, c), id) == [Login, Closed, Closed]
    ensures NoRepeats(Ids(cfg, ClosingRace(id, c)))
  {
    ClosingHistory(cfg, id, c);
    CloseSums();
    RaceFresh(id, c);
    hide Kinds, Ids, ClosingRace, NoRepeats, ServerOf, Accepted, Draws;
  }

  lemma ClosingHistory(cfg: Config, id: string, c: string)
    requires id != ""
    ensures var h := HistoryOf(cfg, ClosingRace(id, c), id);
            && h.kinds == [] + [Login] + [] + [] + [Closed] + [Closed]
            && h.ids == [] + [Some(id)] + [None] + [None] + [None] + [None]
  {
    var login, c1, c2 := Begin(0, LoginStep(id, c)), Begin(1, CloseStep(id)), Begin(2, CloseStep(id));
    assert ClosingRace(id, c) == [] + [login] + [c1] + [c2] + [Finish(1)] + [Finish(2)];
    NoHistory(cfg, id);
    LoginMove(cfg, id, c);
    var m := Next(cfg, START, login).0.store;
    var copy := m[id];
    assert copy.id == Some(id);
    hide ServerOf, Ids, Draws, Kinds, Accepted, IsNew, Next, LoginStep, CloseStep, Adds, ClosingRace, HistoryOf;
    AfterMove(cfg, [], login, id, [Login], [], Some(id), Some(c));
    CloseReadMove(cfg, ServerOf(cfg, [] + [login]), 1, id, c);
    AfterMove(cfg, [] + [login], c1, id, [], [], None, None);
    CloseReadMove(cfg, ServerOf(cfg, [] + [login] + [c1]), 2, id, c);
    AfterMove(cfg, [] + [login] + [c1], c2, id, [], [], None, None);
    CloseFinishMove(cfg, ServerOf(cfg, [] + [login] + [c1] + [c2]), 1, copy, id);
    AfterMove(cfg, [] + [login] + [c1] + [c2], Finish(1), id, [Closed], [], None, None);
    CloseFinishMove(cfg, ServerOf(cfg, [] + [login] + [c1] + [c2] + [Finish(1)]), 2, copy, id);
    AfterMove(cfg, [] + [login] + [c1] + [c2] + [Finish(1)], Finish(2), id, [Closed], [], None, None);
  }

  // ---------------------------------------------------------------- a duplication fails

  /** Atomic handlers; the first refresh cannot duplicate its new challenge. */
  function Replay(id: string, c: string, registration: string, refresh: string): Runs.Run {
    [LoginStep(id, c), RegisterStep(id, registration, c + "1"),
     RefreshStep(id, refresh, c + "2", false), RefreshStep(id, refresh, c + "3", true)]
  }

  lemma AfterStep(cfg: Config, run: Runs.Run, step: Step)
    ensures var m := Runs.StoreOf(cfg, run);
            && Runs.StoreOf(cfg, run + [step]) == Apply(cfg, m, step).0
            && Runs.Accepted(cfg, run + [step]) ==
                 Runs.Accepted(cfg, run) + (if Runs.Accepts(step, Apply(cfg, m, step).1) then [Runs.Jti(cfg, step)] else [])
  {
    assert Runs.Before(run + [step]) == run;
  }

  /** A bound session with the challenge c and the key k. */
  predicate IsBound(s: Session, id: string, k: string, c: string) {
    s.id == Some(id) && s.state == Bound && s.publicKey == Some(k) && s.challenge == Some(c) && !Expired(s, 0)
  }

  lemma RegisterApplies(cfg: Config, m: Store, id: string, c: string, token: string, c': string, p: Proof, k: string)
    requires id != "" && id in m && IsNew(m[id], id, c) && Registers(cfg, token, c, p) && p.jwk == Some(k)
    ensures var step := RegisterStep(id, token, c');
            var (m', o) := Apply(cfg, m, step);
            id in m' && IsBound(m'[id], id, k, c') && Runs.Accepts(step, o) && Runs.Jti(cfg, step) == Some(c)
  {
    hide RegistrationProof, DecodeToken, RegisterDecision, Legible;
    RegisterAccepts(cfg, m[id], id, c, token, p);
    EnoughIsLegible(cfg, token);
  }

  lemma EnoughIsLegible(cfg: Config, token: string)
    ensures Legible(cfg.foreign, Some(token), ENOUGH) == Some(token)
  {
  }

  lemma RegisterAccepts(cfg: Config, s: Session, id: string, c: string, token: string, p: Proof)
    requires IsNew(s, id, c) && Registers(cfg, token, c, p)
    ensures token != "" && DecodeToken(cfg.foreign, token) == Some(p) && RegisterDecision(cfg, s, Some(token)) == Accept(p)
  {
    if token == "" {
      RunLaws.EmptyToken(cfg.foreign);
    }
    assert DecodeToken(cfg.foreign, token) == Some(p);
    hide RegistrationProof, DecodeToken;
  }

  lemma RefreshApplies(cfg: Config, m: Store, id: string, c: string, token: string, c': string, dup: bool, q: Proof, k: string)
    requires id != "" && id in m && IsBound(m[id], id, k, c)
    requires RefreshProof(cfg.foreign, token, k) == Some(q) && q.challenge == c
    ensures var step := RefreshStep(id, token, c', dup);
            var (m', o) := Apply(cfg, m, step);
            id in m' && IsBound(m'[id], id, k, if dup then c' else c) && Runs.Accepts(step, o) && Runs.Jti(cfg, step) == Some(c)
  {
    hide RefreshProof, DecodeToken, RefreshDecision, Legible;
    RefreshAccepts(cfg, m[id], id, c, token, q, k);
    EnoughIsLegible(cfg, token);
  }

  lemma RefreshAccepts(cfg: Config, s: Session, id: string, c: string, token: string, q: Proof, k: string)
    requires IsBound(s, id, k, c) && RefreshProof(cfg.foreign, token, k) == Some(q) && q.challenge == c
    ensures token != "" && DecodeToken(cfg.foreign, token) == Some(q) && RefreshDecision(cfg, s, Some(token)) == Accept(q)
  {
    if token == "" {
      RunLaws.EmptyToken(cfg.foreign);
    }
    assert DecodeToken(cfg.foreign, token) == Some(q);
    hide RefreshProof, DecodeToken;
  }

  lemma LoginApplies(cfg: Config, id: string, c: string)
    ensures var (m, o) := Apply(cfg, map[], LoginStep(id, c));
            id in m && IsNew(m[id], id, c) && !Runs.Accepts(LoginStep(id, c), o)
  {
  }

  /** With atomic handlers too, the same refresh proof is accepted twice when a duplication fails in between. */
  lemma ReplayedRefresh(cfg: Config, id: string, c: string, registration: string, refresh: string, p: Proof, q: Proof)
    requires id != "" && Registers(cfg, registration, c, p) && p.jwk.Some?
    requires RefreshProof(cfg.foreign, refresh, p.jwk.value) == Some(q) && q.challenge == c + "1"
    ensures var run := Replay(id, c, registration, refresh);
            && Runs.FreshIds(run) && Runs.FreshChallenges(run)
            && Runs.Accepted(cfg, run) == [Some(c), Some(c + "1"), Some(c + "1")]
  {
    hide Registers, IsNew, IsBound, Apply, Runs.Accepts, Runs.Jti, LoginStep, RegisterStep, RefreshStep, RefreshProof;
    var k := p.jwk.value;
    var r1 := [LoginStep(id, c)];
    var r2 := r1 + [RegisterStep(id, registration, c + "1")];
    var r3 := r2 + [RefreshStep(id, refresh, c + "2", false)];
    assert [] + [LoginStep(id, c)] == r1;
    assert Replay(id, c, registration, refresh) == r3 + [RefreshStep(id, refresh, c + "3", true)];
    AfterStep(cfg, [], LoginStep(id, c));
    LoginApplies(cfg, id, c);
    AfterStep(cfg, r1, RegisterStep(id, registration, c + "1"));
    RegisterApplies(cfg, Runs.StoreOf(cfg, r1), id, c, registration, c + "1", p, k);
    AfterStep(cfg, r2, RefreshStep(id, refresh, c + "2", false));
    RefreshApplies(cfg, Runs.StoreOf(cfg, r2), id, c + "1", refresh, c + "2", false, q, k);
    AfterStep(cfg, r3, RefreshStep(id, refresh, c + "3", true));
    RefreshApplies(cfg, Runs.StoreOf(cfg, r3), id, c + "1", refresh, c + "3", true, q, k);
    ReplayFresh(id, c, registration, refresh);
  }

  lemma ReplayFresh(id: string, c: string, registration: string, refresh: string)
    ensures var run := Replay(id, c, registration, refresh); Runs.FreshIds(run) && Runs.FreshChallenges(run)
  {
    assert |c| < |c + "1"| && (c + "1")[|c|] != (c + "2")[|c|] && (c + "3")[|c|] !in {(c + "1")[|c|], (c + "2")[|c|]};
  }

  /** A login that cannot duplicate its challenge, then any registration whose proof verifies. */
  function NullRun(id: string, c: string, token: string): Runs.Run {
    [DoInitiate(Some("user"), ENV.(newId := Some(id), challenge := Some(c), dup := RunLaws.ALL_DUPLICATED.(challenge := false))),
     RegisterStep(id, token, c + "1")]
  }

  /** The second step of that run compares with a null string. */
  lemma NullComparison(cfg: Config, id: string, c: string, token: string)
    requires id != "" && RegistrationProof(cfg.foreign, token).Some?
    ensures var run := NullRun(id, c, token);
            Runs.FreshIds(run) && Runs.FreshChallenges(run) && Runs.OutcomeOf(cfg, run).Undefined?
  {
    var run := NullRun(id, c, token);
    hide RegistrationProof, Apply;
    assert Runs.Before(run) == [run[0]] && Runs.Before([run[0]]) == [];
    AfterStep(cfg, [], run[0]);
    assert [] + [run[0]] == [run[0]];
    UnsetLogin(cfg, id, c);
    RunLaws.UndefinedIff(cfg, Runs.StoreOf(cfg, Runs.Before(run)), run[1]);
  }

  lemma UnsetLogin(cfg: Config, id: string, c: string)
    ensures var m := Apply(cfg, map[], NullRun(id, c, "")[0]).0;
            id in m && m[id].id == Some(id) && m[id].state == Active && m[id].challenge.None? && !Expired(m[id], 0)
  {
  }

  /** A registration that cannot duplicate the key of its proof. */
  function KeylessRun(id: string, c: string, token: string): Runs.Run {
    [LoginStep(id, c), KeylessStep(id, c, token)]
  }

  function KeylessStep(id: string, c: string, token: string): Step {
    DoRegister(Some(id), Some(token), ENV.(challenge := Some(c + "1"), dup := RunLaws.ALL_DUPLICATED.(publicKey := false)))
  }

  /** A signed registration answers 200 and leaves the session bound without a key. */
  lemma SignedWithoutKey(cfg: Config, id: string, c: string, token: string, p: Proof)
    requires id != "" && Registers(cfg, token, c, p) && p.algorithm != "none"
    ensures var run := KeylessRun(id, c, token);
            && Runs.Accepts(Runs.Last(run), Runs.OutcomeOf(cfg, run))
            && id in Runs.StoreOf(cfg, run)
            && var s := Runs.StoreOf(cfg, run)[id];
               s.state == Bound && s.publicKey.None? && s.algorithm == Some(p.algorithm) && p.jwk.Some?
  {
    hide Registers, IsNew, Apply, Runs.Accepts, Runs.Jti, LoginStep;
    var login, step := LoginStep(id, c), KeylessStep(id, c, token);
    assert KeylessRun(id, c, token) == [login] + [step] && Runs.Before([login] + [step]) == [login] && [] + [login] == [login];
    AfterStep(cfg, [], login);
    LoginApplies(cfg, id, c);
    LoginKeyless(cfg, id, c);
    KeylessApplies(cfg, Runs.StoreOf(cfg, [login]), id, c, token, p);
  }

  lemma KeylessApplies(cfg: Config, m: Store, id: string, c: string, token: string, p: Proof)
    requires id != "" && id in m && IsNew(m[id], id, c) && m[id].publicKey.None? && m[id].algorithm.None?
    requires Registers(cfg, token, c, p) && p.algorithm != "none"
    ensures var (m', o) := Apply(cfg, m, KeylessStep(id, c, token));
            && Runs.Accepts(KeylessStep(id, c, token), o) && id in m'
            && m'[id].state == Bound && m'[id].publicKey.None? && m'[id].algorithm == Some(p.algorithm) && p.jwk.Some?
  {
    if token == "" {
      RunLaws.EmptyToken(cfg.foreign);
    }
    hide DecodeToken, SignatureOk;
    assert p.jwk.Some?;
    hide RegistrationProof;
    assert RegisterDecision(cfg, m[id], Some(token)) == Accept(p);
    hide RegisterDecision;
  }

  lemma LoginKeyless(cfg: Config, id: string, c: string)
    ensures var m := Apply(cfg, map[], LoginStep(id, c)).0; id in m && m[id].publicKey.None? && m[id].algorithm.None?
  {
  }

  // ---------------------------------------------------------------- an instance

  /** A parser that knows three headers, and a verifier that accepts the keys they name. */
  const SAMPLE: Foreign := Foreign(
    (header, payload) =>
      if header == [0] then Some(Claims(Some("RS256"), Some("dbsc+jwt"), Some("key0"), Some("c"), None))
      else if header == [1] then Some(Claims(Some("RS256"), Some("dbsc+jwt"), Some("key1"), Some("c"), None))
      else Some(Claims(Some("RS256"), Some("dbsc+jwt"), None, Some("c1"), None)),
    (alg, jwk, text, sig) => true)

  const SAMPLE_CONFIG: Config := Config(SetCookie.CookieConfig("dbsc", "/", None, None, true), 60, 60, None, SAMPLE)

  function Token(b: Base64Url.byte): string {
    Rejoined(Parts(Base64Url.Encode([b]), Base64Url.Encode([0]), Base64Url.Encode([0])))
  }

  function SampleProof(b: Base64Url.byte, signature: string): Proof {
    Proof("RS256", Some("dbsc+jwt"), if b == 0 then Some("key0") else if b == 1 then Some("key1") else None,
          if b == 0 || b == 1 then "c" else "c1", None, signature)
  }

  lemma TokenParts(b: Base64Url.byte)
    ensures var z := Base64Url.Encode([0]);
            && Split(Token(b)) == Some(Parts(Base64Url.Encode([b]), z, z))
            && Base64Url.Decode(Base64Url.Encode([b])) == Some([b]) && Base64Url.Decode(z) == Some([0])
  {
    hide Base64Url.Encode, Base64Url.Decode, Split, Rejoined;
    var e, z := Base64Url.Encode([b]), Base64Url.Encode([0]);
    Base64Url.RoundTrip([b]);
    Base64Url.RoundTrip([0]);
    EncodedDotFree([b]);
    EncodedDotFree([0]);
    SplitIff(Token(b), Parts(e, z, z));
  }

  lemma EncodedDotFree(bytes: seq<Base64Url.byte>)
    ensures DotFree(Base64Url.Encode(bytes))
  {
    hide Base64Url.Encode;
    Base64Url.EncodeShape(bytes);
  }

  lemma SampleDecodes(token: string, parts: Parts, b: Base64Url.byte)
    requires Split(token) == Some(parts)
    requires Base64Url.Decode(parts.header) == Some([b]) && Base64Url.Decode(parts.payload) == Some([0])
    requires Base64Url.Decode(parts.signature) == Some([0])
    ensures DecodeToken(SAMPLE, token) == Some(SampleProof(b, parts.signature))
    ensures SignatureOk(SAMPLE, token, SampleProof(b, parts.signature), Some("key0"))
    ensures SignatureOk(SAMPLE, token, SampleProof(b, parts.signature), Some("key1"))
  {
    hide Split, Base64Url.Decode;
  }

  lemma SampleProofs()
    ensures Registers(SAMPLE_CONFIG, Token(0), "c", SampleProof(0, Base64Url.Encode([0])))
    ensures Registers(SAMPLE_CONFIG, Token(1), "c", SampleProof(1, Base64Url.Encode([0])))
    ensures RefreshProof(SAMPLE, Token(2), "key0") == Some(SampleProof(2, Base64Url.Encode([0])))
  {
    hide Split, Base64Url.Decode, Base64Url.Encode, DecodeToken, SignatureOk, Token;
    var z := Base64Url.Encode([0]);
    forall b: Base64Url.byte ensures
        && DecodeToken(SAMPLE, Token(b)) == Some(SampleProof(b, z))
        && SignatureOk(SAMPLE, Token(b), SampleProof(b, z), Some("key0"))
        && SignatureOk(SAMPLE, Token(b), SampleProof(b, z), Some("key1")) {
      TokenParts(b);
      SampleDecodes(Token(b), Parts(Base64Url.Encode([b]), z, z), b);
    }
  }

  /** Both failures of single use happen. */
  lemma SingleUseFails()
    ensures exists ms: Moves :: NoRepeats(Ids(SAMPLE_CONFIG, ms)) && NoRepeats(Draws(SAMPLE_CONFIG, ms))
                                && !Distinct(Accepted(SAMPLE_CONFIG, ms))
    ensures exists run: Runs.Run :: Runs.FreshIds(run) && Runs.FreshChallenges(run)
                                    && !Distinct(Runs.Accepted(SAMPLE_CONFIG, run))
  {
    hide Base64Url.Encode, Token, Registers, RefreshProof, Race, Replay;
    hide NoRepeats, Accepted, Ids, Draws, Runs.FreshIds, Runs.FreshChallenges, Runs.Accepted, Kinds, ServerOf;
    var cfg, z := SAMPLE_CONFIG, Base64Url.Encode([0]);
    SampleProofs();
    TwoRegistrations(cfg, "id", "c", Token(0), Token(1), SampleProof(0, z), SampleProof(1, z));
    var ms := Race("id", "c", Token(0), Token(1));
    assert Accepted(cfg, ms)[0] == Accepted(cfg, ms)[1];
    ReplayedRefresh(cfg, "id", "c", Token(0), Token(2), SampleProof(0, z), SampleProof(2, z));
    var run := Replay("id", "c", Token(0), Token(2));
    assert Runs.Accepted(cfg, run)[1] == Runs.Accepted(cfg, run)[2];
  }

  /** The comparison with null and the signed registration without a key happen. */
  lemma DuplicationFailures()
    ensures exists run: Runs.Run :: |run| == 2 && Runs.OutcomeOf(SAMPLE_CONFIG, run).Undefined?
    ensures exists run: Runs.Run, id: string :: |run| == 2 && id in Runs.StoreOf(SAMPLE_CONFIG, run)
              && var s := Runs.StoreOf(SAMPLE_CONFIG, run)[id];
                 s.state == Bound && s.publicKey.None? && s.algorithm == Some("RS256")
  {
    hide Base64Url.Encode, Token, Runs.OutcomeOf, Runs.StoreOf, RegistrationProof;
    SampleProofs();
    NullComparison(SAMPLE_CONFIG, "id", "c", Token(0));
    SignedWithoutKey(SAMPLE_CONFIG, "id", "c", Token(0), SampleProof(0, Base64Url.Encode([0])));
    assert |NullRun("id", "c", Token(0))| == 2 && |KeylessRun("id", "c", Token(0))| == 2;
  }
}
